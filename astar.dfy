/** The state of the fastest-route search between steps, and one lemma per
    step showing that the step keeps it: every queued entry carries a route
    from the start with its travel time, push numbers are distinct, and
    finalised stations have every neighbour finalised or queued. The search
    terminates because an expanded route never repeats a station, which bounds
    its cost, and every expansion lowers some station's finalised cost. */
module BestFirst {
  import opened Stations
  import opened Routes
  import opened PriorityQueue

  /** A queued entry: `path` is a route from `s` to the entry's station
      taking `g` minutes, `f` adds the estimate to the target, `tick` was
      issued before `counter`, the stations before the last are distinct,
      exclude the target, and were each finalised at no more than `g`. */
  ghost predicate Candidate(G: Arena, s: string, t: string, fin: map<string, nat>, counter: nat, e: Entry)
  {
    && e.tick < counter
    && t in G && e.station in G
    && Connects(G, e.path, s, e.station)
    && e.g in TravelTimes(G, e.path)
    && e.f == e.g + Heuristic(G[e.station], G[t])
    && Distinct(e.path[..|e.path| - 1])
    && t !in e.path[..|e.path| - 1]
    && (forall k :: 0 <= k < |e.path| - 1 ==> e.path[k] in fin && fin[e.path[k]] <= e.g)
  }

  /** Every adjacency entry of the arena takes at most `w` minutes. */
  ghost predicate HopsAtMost(G: Arena, w: nat)
  {
    forall u, i :: u in G && 0 <= i < |G[u].neighbours| ==> G[u].neighbours[i].1 <= w
  }

  /** Facts every state of the search keeps. */
  ghost predicate Common(G: Arena, s: string, t: string, w: nat, fin: map<string, nat>,
                         pq: seq<Entry>, counter: nat)
  {
    && LinksResolve(G) && s in G && t in G && s != t && HopsAtMost(G, w)
    && fin.Keys <= G.Keys && t !in fin
    && (forall e :: e in pq ==> Candidate(G, s, t, fin, counter, e))
    && DistinctTicks(pq)
    && (s in fin || s in Pending(pq))
  }

  /** The loop invariant between iterations: every neighbour of a finalised
      station is finalised or queued. */
  ghost predicate Between(G: Arena, s: string, t: string, w: nat, fin: map<string, nat>,
                          pq: seq<Entry>, counter: nat)
  {
    && Common(G, s, t, w, fin, pq, counter)
    && (forall u, v :: u in fin && Adjacent(G, u, v) ==> v in fin || v in Pending(pq))
  }

  /** The invariant while entry `e` is being expanded: `e`'s station is
      finalised at `e.g`, along a route without repetitions. */
  ghost predicate Expanding(G: Arena, s: string, t: string, w: nat, fin: map<string, nat>,
                            pq: seq<Entry>, counter: nat, e: Entry)
  {
    && Common(G, s, t, w, fin, pq, counter)
    && e.station in G && e.station != t
    && Connects(G, e.path, s, e.station) && e.g in TravelTimes(G, e.path)
    && Distinct(e.path) && t !in e.path
    && (forall k :: 0 <= k < |e.path| ==> e.path[k] in fin && fin[e.path[k]] <= e.g)
    && (forall u, v :: u in fin && u != e.station && Adjacent(G, u, v) ==> v in fin || v in Pending(pq))
  }

  /** `fin'` finalises at least the stations of `fin`, each at no higher cost. */
  ghost predicate Lowers(fin': map<string, nat>, fin: map<string, nat>)
  {
    forall x :: x in fin ==> x in fin' && fin'[x] <= fin[x]
  }

  lemma CandidateKept(G: Arena, s: string, t: string, fin: map<string, nat>, fin': map<string, nat>,
                      counter: nat, counter': nat, e: Entry)
    requires Candidate(G, s, t, fin, counter, e)
    requires Lowers(fin', fin) && counter <= counter'
    ensures Candidate(G, s, t, fin', counter', e)
  {
  }

  /** How many more times station `x` may be expanded, counted as the costs
      below its finalised cost (below `bound` + 1 before its first expansion). */
  ghost function Allowance(fin: map<string, nat>, x: string, bound: nat): nat
  {
    if x in fin then fin[x] else bound + 1
  }

  /** The expansions still possible when no hop takes more than `w`
      minutes; every expansion removes one. */
  ghost function Budget(G: Arena, fin: map<string, nat>, w: nat): set<(string, nat)>
  {
    var bound: nat := |G| * w;
    set x, v: nat | x in G && v < Allowance(fin, x, bound) :: (x, v)
  }

  lemma BudgetShrinks(G: Arena, fin: map<string, nat>, w: nat, x: string, g: nat)
    requires x in G && g < Allowance(fin, x, |G| * w)
    ensures Budget(G, fin[x := g], w) < Budget(G, fin, w)
  {
    assert (x, g) in Budget(G, fin, w);
    assert (x, g) !in Budget(G, fin[x := g], w);
  }

  lemma MulMonotone(a: nat, b: nat, w: nat)
    requires a <= b
    ensures a * w <= b * w
  {
    assert b * w == a * w + (b - a) * w;
  }

  /** The queue holding only the start entry. */
  lemma Start(G: Arena, s: string, t: string, w: nat, counter: nat)
    requires LinksResolve(G) && s in G && t in G && s != t && HopsAtMost(G, w)
    ensures var e := Entry(Heuristic(G[s], G[t]), 0, counter, s, [s]);
            Between(G, s, t, w, map[], [e], counter + 1)
  {
    var e := Entry(Heuristic(G[s], G[t]), 0, counter, s, [s]);
    PendingPush([], e);
    assert [e][..0] == [];
  }

  /** Popping the target: its route is well formed, free of repetitions,
      and `g` is one of its travel times. */
  lemma Found(G: Arena, s: string, t: string, w: nat, fin: map<string, nat>,
              pq: seq<Entry>, counter: nat, e: Entry)
    requires Common(G, s, t, w, fin, pq, counter)
    requires e in pq && e.station == t
    ensures Connects(G, e.path, s, t) && Distinct(e.path) && e.g in TravelTimes(G, e.path)
  {
    assert Candidate(G, s, t, fin, counter, e);
    var p := e.path;
    forall i, j | 0 <= i < j < |p|
      ensures p[i] != p[j]
    {
      assert p[i] == p[..|p| - 1][i];
      if j < |p| - 1 {
        assert p[j] == p[..|p| - 1][j];
      }
    }
  }

  /** Removing entry `m` keeps the invariant's facts about the other entries. */
  lemma Popped(G: Arena, s: string, t: string, w: nat, fin: map<string, nat>,
               pq: seq<Entry>, counter: nat, m: nat)
    requires Between(G, s, t, w, fin, pq, counter) && m < |pq|
    ensures forall e :: e in Remove(pq, m) ==> Candidate(G, s, t, fin, counter, e)
    ensures DistinctTicks(Remove(pq, m))
    ensures Pending(pq) <= Pending(Remove(pq, m)) + {pq[m].station}
  {
    var r := Remove(pq, m);
    forall i, j | 0 <= i < j < |r|
      ensures r[i].tick != r[j].tick
    {
      var i' := if i < m then i else i + 1;
      var j' := if j < m then j else j + 1;
      assert r[i] == pq[i'] && r[j] == pq[j'];
    }
  }

  /** Popping an entry whose station was already finalised at no more than
      its cost drops it. */
  lemma Skip(G: Arena, s: string, t: string, w: nat, fin: map<string, nat>,
             pq: seq<Entry>, counter: nat, m: nat)
    requires Between(G, s, t, w, fin, pq, counter) && m < |pq|
    requires pq[m].station in fin && fin[pq[m].station] <= pq[m].g
    ensures Between(G, s, t, w, fin, Remove(pq, m), counter)
  {
    Popped(G, s, t, w, fin, pq, counter, m);
  }

  /** Popping an entry that is neither the target nor stale finalises its
      station at its cost, which lowers the budget; its route has no
      repetitions, so its cost is at most |G| times the longest hop. */
  lemma Expand(G: Arena, s: string, t: string, w: nat, fin: map<string, nat>,
               pq: seq<Entry>, counter: nat, m: nat)
    requires Between(G, s, t, w, fin, pq, counter) && m < |pq|
    requires pq[m].station != t && !(pq[m].station in fin && fin[pq[m].station] <= pq[m].g)
    ensures var e := pq[m];
            && Expanding(G, s, t, w, fin[e.station := e.g], Remove(pq, m), counter, e)
            && Budget(G, fin[e.station := e.g], w) < Budget(G, fin, w)
  {
    var e := pq[m];
    var p := e.path;
    var fin' := fin[e.station := e.g];
    assert Candidate(G, s, t, fin, counter, e);
    Popped(G, s, t, w, fin, pq, counter, m);
    forall i, j | 0 <= i < j < |p|
      ensures p[i] != p[j]
    {
      assert p[i] == p[..|p| - 1][i];
      if j < |p| - 1 {
        assert p[j] == p[..|p| - 1][j];
      } else {
        assert p[i] in fin && fin[p[i]] <= e.g;
      }
    }
    assert t !in p by {
      assert p == p[..|p| - 1] + [e.station];
    }
    DistinctLength(p, G.Keys);
    TravelTimeBound(G, p, e.g, w);
    MulMonotone(|p| - 1, |G|, w);
    BudgetShrinks(G, fin, w, e.station, e.g);
    assert Lowers(fin', fin);
    forall x | x in Remove(pq, m)
      ensures Candidate(G, s, t, fin', counter, x)
    {
      CandidateKept(G, s, t, fin, fin', counter, counter, x);
    }
    forall k | 0 <= k < |p|
      ensures p[k] in fin' && fin'[p[k]] <= e.g
    {
      if k < |p| - 1 {
        assert p[k] == p[..|p| - 1][k];
      }
    }
  }

  /** The entry pushed for adjacency entry `link` of the expanded entry `e`:
      the link's minutes are added to `g`, its station to the route, and the
      estimate from that station to `t` to the total. */
  function Pushed(G: Arena, t: string, e: Entry, link: Link, tick: nat): Entry
    requires link.0 in G && t in G
  {
    var g := e.g + link.1;
    Entry(g + Heuristic(G[link.0], G[t]), g, tick, link.0, e.path + [link.0])
  }

  /** The entries pushed for adjacency entries `ns` of `e`, in order, numbered
      from `counter` on. */
  function Pushes(G: Arena, t: string, e: Entry, ns: seq<Link>, counter: nat): (r: seq<Entry>)
    requires t in G && forall k :: 0 <= k < |ns| ==> ns[k].0 in G
    ensures |r| == |ns|
    ensures forall k :: 0 <= k < |ns| ==> r[k] == Pushed(G, t, e, ns[k], counter + k)
  {
    seq(|ns|, k requires 0 <= k < |ns| => Pushed(G, t, e, ns[k], counter + k))
  }

  /** One more adjacency entry adds one more pushed entry at the end. */
  lemma PushesStep(G: Arena, t: string, e: Entry, ns: seq<Link>, counter: nat, j: nat)
    requires t in G && forall k :: 0 <= k < |ns| ==> ns[k].0 in G
    requires j < |ns|
    ensures Pushes(G, t, e, ns[..j + 1], counter)
            == Pushes(G, t, e, ns[..j], counter) + [Pushed(G, t, e, ns[j], counter + j)]
  {
    var a := Pushes(G, t, e, ns[..j + 1], counter);
    var b := Pushes(G, t, e, ns[..j], counter) + [Pushed(G, t, e, ns[j], counter + j)];
    assert |a| == |b|;
    forall k | 0 <= k < |a|
      ensures a[k] == b[k]
    {
      assert ns[..j + 1][k] == ns[k];
      if k < j {
        assert ns[..j][k] == ns[k];
      }
    }
  }

  /** Pushing the entry for adjacency entry `j` of the expanded station. */
  lemma Push(G: Arena, s: string, t: string, w: nat, fin: map<string, nat>,
             pq: seq<Entry>, counter: nat, e: Entry, j: nat)
    requires Expanding(G, s, t, w, fin, pq, counter, e)
    requires j < |G[e.station].neighbours|
    ensures var link := G[e.station].neighbours[j];
            var pushed := Pushed(G, t, e, link, counter);
            && Expanding(G, s, t, w, fin, pq + [pushed], counter + 1, e)
            && Pending(pq + [pushed]) == Pending(pq) + {link.0}
  {
    var link := G[e.station].neighbours[j];
    var pushed := Pushed(G, t, e, link, counter);
    ExtendRoute(G, e.path, e.g, j);
    var p := e.path + [link.0];
    assert p[..|p| - 1] == e.path;
    assert Candidate(G, s, t, fin, counter + 1, pushed);
    forall x | x in pq
      ensures Candidate(G, s, t, fin, counter + 1, x)
    {
      CandidateKept(G, s, t, fin, fin, counter, counter + 1, x);
    }
    PendingPush(pq, pushed);
    var pq' := pq + [pushed];
    forall i, k | 0 <= i < k < |pq'|
      ensures pq'[i].tick != pq'[k].tick
    {
      if k == |pq| {
        assert pq'[i] in pq;
      }
    }
  }

  /** The invariant of the loop over the expanded station's adjacency list:
      the entries for its first `j` adjacency entries have been pushed, in
      order, after `pq0`, numbered from `counter0` on. */
  ghost predicate Pushing(G: Arena, s: string, t: string, w: nat, fin: map<string, nat>,
                          pq0: seq<Entry>, counter0: nat, e: Entry, pq: seq<Entry>, counter: nat, j: nat)
  {
    && Expanding(G, s, t, w, fin, pq, counter, e)
    && j <= |G[e.station].neighbours|
    && counter == counter0 + j
    && pq == pq0 + Pushes(G, t, e, G[e.station].neighbours[..j], counter0)
    && (forall k :: 0 <= k < j ==> G[e.station].neighbours[k].0 in Pending(pq))
  }

  /** Nothing pushed yet. */
  lemma PushingStart(G: Arena, s: string, t: string, w: nat, fin: map<string, nat>,
                     pq: seq<Entry>, counter: nat, e: Entry)
    requires Expanding(G, s, t, w, fin, pq, counter, e)
    ensures Pushing(G, s, t, w, fin, pq, counter, e, pq, counter, 0)
  {
    assert pq + [] == pq;
  }

  /** Pushing the entry for the next adjacency entry keeps the loop
      invariant, one entry further. */
  lemma PushingStep(G: Arena, s: string, t: string, w: nat, fin: map<string, nat>,
                    pq0: seq<Entry>, counter0: nat, e: Entry, pq: seq<Entry>, counter: nat, j: nat)
    requires Pushing(G, s, t, w, fin, pq0, counter0, e, pq, counter, j)
    requires j < |G[e.station].neighbours|
    ensures Pushing(G, s, t, w, fin, pq0, counter0, e,
                    pq + [Pushed(G, t, e, G[e.station].neighbours[j], counter)], counter + 1, j + 1)
  {
    Push(G, s, t, w, fin, pq, counter, e, j);
    PushesStep(G, t, e, G[e.station].neighbours, counter0, j);
  }

  /** With every neighbour of the expanded station queued, the loop
      invariant holds again, and the queue is the old one followed by one
      entry per adjacency entry. */
  lemma Finish(G: Arena, s: string, t: string, w: nat, fin: map<string, nat>,
               pq0: seq<Entry>, counter0: nat, e: Entry, pq: seq<Entry>, counter: nat)
    requires e.station in G
    requires Pushing(G, s, t, w, fin, pq0, counter0, e, pq, counter, |G[e.station].neighbours|)
    ensures Between(G, s, t, w, fin, pq, counter)
    ensures pq == pq0 + Pushes(G, t, e, G[e.station].neighbours, counter0)
    ensures counter == counter0 + |G[e.station].neighbours|
  {
    var ns := G[e.station].neighbours;
    assert ns[..|ns|] == ns;
    forall u, v | u in fin && Adjacent(G, u, v)
      ensures v in fin || v in Pending(pq)
    {
      if u == e.station {
        var k :| 0 <= k < |ns| && ns[k].0 == v;
      }
    }
  }

  /** An empty queue means the target is out of reach. */
  lemma Exhausted(G: Arena, s: string, t: string, w: nat, fin: map<string, nat>, counter: nat)
    requires Between(G, s, t, w, fin, [], counter)
    ensures !Reachable(G, s, t)
  {
    assert Pending([]) == {};
    ClosedUnreachable(G, fin.Keys, s, t);
  }
}
