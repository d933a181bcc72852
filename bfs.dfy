/** The state of the fewest-hops search between steps, and one lemma per
    step showing that the step keeps it: the queue holds routes in layer
    order, every station is visited at its least hop count, and expanded
    stations have all their neighbours visited. */
module BreadthFirst {
  import opened Stations
  import opened Routes

  /** A queue entry: a station and the route that reached it. */
  type Item = (string, seq<string>)

  /** The stations waiting in the queue. */
  function Queued(q: seq<Item>): set<string>
  {
    set i | 0 <= i < |q| :: q[i].0
  }

  lemma QueuedPop(q: seq<Item>)
    requires |q| > 0
    ensures Queued(q) == {q[0].0} + Queued(q[1..])
  {
    forall x | x in Queued(q[1..])
      ensures x in Queued(q)
    {
      var i :| 0 <= i < |q[1..]| && q[1..][i].0 == x;
      assert q[i + 1].0 == x;
    }
    forall x | x in Queued(q) && x != q[0].0
      ensures x in Queued(q[1..])
    {
      var i :| 0 <= i < |q| && q[i].0 == x;
      assert q[1..][i - 1].0 == x;
    }
  }

  lemma QueuedPush(q: seq<Item>, e: Item)
    ensures Queued(q + [e]) == Queued(q) + {e.0}
  {
    var q' := q + [e];
    assert q'[|q|].0 == e.0;
    forall x | x in Queued(q)
      ensures x in Queued(q')
    {
      var i :| 0 <= i < |q| && q[i].0 == x;
      assert q'[i].0 == x;
    }
  }

  /** The stations named by adjacency entries `ns`. */
  function Ids(ns: seq<Link>): set<string>
  {
    set k | 0 <= k < |ns| :: ns[k].0
  }

  lemma IdsLast(ns: seq<Link>)
    requires |ns| > 0
    ensures Ids(ns) == Ids(ns[..|ns| - 1]) + {ns[|ns| - 1].0}
  {
    var front := ns[..|ns| - 1];
    forall x | x in Ids(ns)
      ensures x in Ids(front) + {ns[|ns| - 1].0}
    {
      var k :| 0 <= k < |ns| && ns[k].0 == x;
      if k < |ns| - 1 {
        assert front[k].0 == x;
      }
    }
    forall x | x in Ids(front)
      ensures x in Ids(ns)
    {
      var k :| 0 <= k < |front| && front[k].0 == x;
      assert ns[k].0 == x;
    }
    assert ns[|ns| - 1].0 in Ids(ns);
  }

  /** The queue entries appended while scanning adjacency entries `ns` with
      `seen` already visited: one (station, path + [station]) per station of
      `ns` not in `seen`, at its first occurrence, in adjacency order. */
  function Fresh(ns: seq<Link>, seen: set<string>, path: seq<string>): (r: seq<Item>)
    ensures forall i :: 0 <= i < |r| ==> r[i].0 !in seen && r[i].1 == path + [r[i].0]
    ensures forall i, j :: 0 <= i < j < |r| ==> r[i].0 != r[j].0
    ensures Queued(r) == Ids(ns) - seen
    decreases |ns|
  {
    if ns == [] then []
    else
      var front := ns[..|ns| - 1];
      var n := ns[|ns| - 1].0;
      var r := Fresh(front, seen, path);
      IdsLast(ns);
      if n in seen || n in Ids(front) then r
      else
        QueuedPush(r, (n, path + [n]));
        assert forall i :: 0 <= i < |r| ==> r[i].0 in Queued(r);
        r + [(n, path + [n])]
  }

  /** Adjacency entries whose stations are all seen append nothing. */
  lemma FreshEmpty(ns: seq<Link>, seen: set<string>, path: seq<string>)
    requires Ids(ns) <= seen
    ensures Fresh(ns, seen, path) == []
  {
    var r := Fresh(ns, seen, path);
  }

  /** Scanning one more adjacency entry. */
  lemma FreshStep(ns: seq<Link>, seen: set<string>, path: seq<string>, j: nat)
    requires j < |ns|
    ensures Ids(ns[..j + 1]) == Ids(ns[..j]) + {ns[j].0}
    ensures Fresh(ns[..j + 1], seen, path)
            == if ns[j].0 in seen || ns[j].0 in Ids(ns[..j]) then Fresh(ns[..j], seen, path)
               else Fresh(ns[..j], seen, path) + [(ns[j].0, path + [ns[j].0])]
  {
    var p := ns[..j + 1];
    assert p[..|p| - 1] == ns[..j];
    IdsLast(p);
  }

  /** A route without repetitions from `s` to the entry's station, all of
      whose stations are visited, whose hop count is the station's recorded
      distance, on the current level or the next. */
  ghost predicate InFrontier(G: Arena, s: string, visited: set<string>, dist: map<string, nat>,
                             level: nat, e: Item)
  {
    && Connects(G, e.1, s, e.0)
    && Distinct(e.1)
    && (forall k :: 0 <= k < |e.1| ==> e.1[k] in visited)
    && e.0 in dist && dist[e.0] == |e.1| - 1
    && level <= dist[e.0] <= level + 1
  }

  /** Facts every state of the search keeps, whether between iterations or
      while the station `current` is being expanded. `expanded` is the set of
      stations whose neighbours are all visited. */
  ghost predicate Common(G: Arena, s: string, t: string, visited: set<string>, queue: seq<Item>,
                         expanded: set<string>, dist: map<string, nat>, level: nat)
  {
    && LinksResolve(G) && s in G && s != t
    && visited <= G.Keys && s in visited && t !in expanded
    && dist.Keys == visited && expanded <= visited
    && (forall x {:trigger Exact(G, s, x, dist[x])} :: x in visited ==> Exact(G, s, x, dist[x]))
    && Within(G, s, level) <= visited
    && (forall x :: x in expanded ==> dist[x] <= level)
    && (forall x, y :: x in expanded && Adjacent(G, x, y) ==> y in visited)
    && (forall i :: 0 <= i < |queue| ==> InFrontier(G, s, visited, dist, level, queue[i]))
    && (forall i, j :: 0 <= i < j < |queue| ==> |queue[i].1| <= |queue[j].1|)
  }

  /** The loop invariant between iterations: every visited station is
      either expanded or queued. */
  ghost predicate Between(G: Arena, s: string, t: string, visited: set<string>, queue: seq<Item>,
                          expanded: set<string>, dist: map<string, nat>, level: nat)
  {
    && Common(G, s, t, visited, queue, expanded, dist, level)
    && visited == expanded + Queued(queue)
  }

  /** The invariant while `current`, reached by `path`, is being expanded. */
  ghost predicate Expanding(G: Arena, s: string, t: string, visited: set<string>, queue: seq<Item>,
                            expanded: set<string>, dist: map<string, nat>, level: nat,
                            current: string, path: seq<string>)
  {
    && Common(G, s, t, visited, queue, expanded, dist, level)
    && visited == expanded + {current} + Queued(queue)
    && current != t && current in G
    && InFrontier(G, s, visited, dist, level, (current, path))
    && dist[current] == level
  }

  lemma Start(G: Arena, s: string, t: string)
    requires LinksResolve(G) && s in G && s != t
    ensures Between(G, s, t, {s}, [(s, [s])], {}, map[s := 0], 0)
  {
    var q: seq<Item> := [(s, [s])];
    assert q[0].0 == s;
    assert Queued(q) == {s};
  }

  /** Popping the target: its route is the shortest there is. */
  lemma Found(G: Arena, s: string, t: string, visited: set<string>, queue: seq<Item>,
              expanded: set<string>, dist: map<string, nat>, level: nat)
    requires Between(G, s, t, visited, queue, expanded, dist, level)
    requires |queue| > 0 && queue[0].0 == t
    ensures Connects(G, queue[0].1, s, t) && Distinct(queue[0].1)
    ensures forall q :: Connects(G, q, s, t) ==> |queue[0].1| <= |q|
  {
    assert InFrontier(G, s, visited, dist, level, queue[0]);
    forall q | Connects(G, q, s, t)
      ensures |queue[0].1| <= |q|
    {
      ExactIsShortest(G, s, t, dist[t], q);
    }
  }

  /** Once every station within k hops is expanded, every station within
      k + 1 hops is visited. */
  lemma WithinStep(G: Arena, s: string, k: nat, expanded: set<string>, visited: set<string>)
    requires Within(G, s, k) <= expanded <= visited
    requires forall x, y :: x in expanded && Adjacent(G, x, y) ==> y in visited
    ensures Within(G, s, k + 1) <= visited
  {
    forall y | y in Successors(G, Within(G, s, k))
      ensures y in visited
    {
      var u, i :| u in Within(G, s, k) && u in G && 0 <= i < |G[u].neighbours| && G[u].neighbours[i].0 == y;
      assert Adjacent(G, u, y);
    }
  }

  /** Popping a station other than the target starts its expansion, on the
      level of its hop count. */
  lemma Pop(G: Arena, s: string, t: string, visited: set<string>, queue: seq<Item>,
            expanded: set<string>, dist: map<string, nat>, level: nat)
    returns (level': nat)
    requires Between(G, s, t, visited, queue, expanded, dist, level)
    requires |queue| > 0 && queue[0].0 != t
    ensures Expanding(G, s, t, visited, queue[1..], expanded, dist, level', queue[0].0, queue[0].1)
  {
    var current, path := queue[0].0, queue[0].1;
    assert InFrontier(G, s, visited, dist, level, queue[0]);
    QueuedPop(queue);
    if dist[current] == level {
      level' := level;
      forall i | 0 <= i < |queue[1..]|
        ensures InFrontier(G, s, visited, dist, level', queue[1..][i])
      {
        assert queue[1..][i] == queue[i + 1];
        assert InFrontier(G, s, visited, dist, level, queue[i + 1]);
      }
    } else {
      level' := level + 1;
      Advance(G, s, t, visited, queue, expanded, dist, level);
    }
  }

  /** Popping a station one level further out than `level`: every queued
      entry is one level further out, so all stations within `level` hops
      have been expanded and the expansion starts on the next level. */
  lemma Advance(G: Arena, s: string, t: string, visited: set<string>, queue: seq<Item>,
                expanded: set<string>, dist: map<string, nat>, level: nat)
    requires Between(G, s, t, visited, queue, expanded, dist, level)
    requires |queue| > 0 && queue[0].0 != t && dist[queue[0].0] != level
    ensures Expanding(G, s, t, visited, queue[1..], expanded, dist, level + 1, queue[0].0, queue[0].1)
  {
    assert InFrontier(G, s, visited, dist, level, queue[0]);
    QueuedPop(queue);
    forall x | x in Within(G, s, level)
      ensures x in expanded
    {
      ExactAtMost(G, s, x, dist[x], level);
    }
    WithinStep(G, s, level, expanded, visited);
    forall i | 0 <= i < |queue[1..]|
      ensures InFrontier(G, s, visited, dist, level + 1, queue[1..][i])
    {
      assert queue[1..][i] == queue[i + 1];
      assert InFrontier(G, s, visited, dist, level, queue[i + 1]);
      assert |queue[0].1| <= |queue[i + 1].1|;
    }
  }

  /** The invariant of the loop over the neighbours of `current`: the
      stations of the first `j` adjacency entries have been added to
      `visited0`, and the entries for those not in `visited0` appended to
      `queue0`. */
  ghost predicate Visiting(G: Arena, s: string, t: string, visited0: set<string>, queue0: seq<Item>,
                           visited: set<string>, queue: seq<Item>, expanded: set<string>,
                           dist: map<string, nat>, level: nat, current: string, path: seq<string>, j: nat)
  {
    && Expanding(G, s, t, visited, queue, expanded, dist, level, current, path)
    && j <= |G[current].neighbours|
    && visited == visited0 + Ids(G[current].neighbours[..j])
    && queue == queue0 + Fresh(G[current].neighbours[..j], visited0, path)
  }

  /** Neighbour `j` is already visited: nothing changes. */
  lemma Seen(G: Arena, s: string, t: string, visited0: set<string>, queue0: seq<Item>,
             visited: set<string>, queue: seq<Item>, expanded: set<string>,
             dist: map<string, nat>, level: nat, current: string, path: seq<string>, j: nat)
    requires Visiting(G, s, t, visited0, queue0, visited, queue, expanded, dist, level, current, path, j)
    requires j < |G[current].neighbours| && G[current].neighbours[j].0 in visited
    ensures Visiting(G, s, t, visited0, queue0, visited, queue, expanded, dist, level, current, path, j + 1)
  {
    FreshStep(G[current].neighbours, visited0, path, j);
  }

  /** Visiting a neighbour of `current` not seen before records it one hop
      further out and queues the extended route. */
  lemma Visit(G: Arena, s: string, t: string, visited0: set<string>, queue0: seq<Item>,
              visited: set<string>, queue: seq<Item>, expanded: set<string>,
              dist: map<string, nat>, level: nat, current: string, path: seq<string>, j: nat)
    requires Visiting(G, s, t, visited0, queue0, visited, queue, expanded, dist, level, current, path, j)
    requires j < |G[current].neighbours| && G[current].neighbours[j].0 !in visited
    ensures var next := G[current].neighbours[j].0;
            Visiting(G, s, t, visited0, queue0, visited + {next}, queue + [(next, path + [next])], expanded,
                     dist[next := level + 1], level, current, path, j + 1)
  {
    Extend(G, s, t, visited, queue, expanded, dist, level, current, path, j);
    FreshStep(G[current].neighbours, visited0, path, j);
  }

  /** The state change of Visit: the invariant of the expansion is kept. */
  lemma Extend(G: Arena, s: string, t: string, visited: set<string>, queue: seq<Item>,
               expanded: set<string>, dist: map<string, nat>, level: nat,
               current: string, path: seq<string>, j: nat)
    requires Expanding(G, s, t, visited, queue, expanded, dist, level, current, path)
    requires j < |G[current].neighbours| && G[current].neighbours[j].0 !in visited
    ensures var next := G[current].neighbours[j].0;
            Expanding(G, s, t, visited + {next}, queue + [(next, path + [next])], expanded,
                      dist[next := level + 1], level, current, path)
  {
    var next := G[current].neighbours[j].0;
    var entry := (next, path + [next]);
    var visited', queue', dist' := visited + {next}, queue + [entry], dist[next := level + 1];
    assert InFrontier(G, s, visited, dist, level, (current, path));
    assert Adjacent(G, current, next);
    assert Exact(G, s, current, dist[current]);
    AdjacentSuccessor(G, Within(G, s, level), current, next);
    assert Connects(G, entry.1, s, next) by {
      assert entry.1[..|entry.1| - 1] == path;
    }
    QueuedPush(queue, entry);
    Record(G, s, t, visited, queue, expanded, dist, level, path, next);
    assert InFrontier(G, s, visited', dist', level, (current, path));
  }

  /** Recording `next` one hop beyond the current level, reached by `path`
      extended with it, keeps the common invariant. */
  lemma Record(G: Arena, s: string, t: string, visited: set<string>, queue: seq<Item>,
               expanded: set<string>, dist: map<string, nat>, level: nat,
               path: seq<string>, next: string)
    requires Common(G, s, t, visited, queue, expanded, dist, level)
    requires next in G && next !in visited && |path| == level + 1
    requires next in Successors(G, Within(G, s, level))
    requires InFrontier(G, s, visited + {next}, dist[next := level + 1], level, (next, path + [next]))
    ensures Common(G, s, t, visited + {next}, queue + [(next, path + [next])], expanded,
                   dist[next := level + 1], level)
  {
    VisitQueue(G, s, visited, dist, level, queue, path, next);
    RecordExact(G, s, visited, dist, level, next);
  }

  /** The hop count recorded for `next`, one beyond the level, is its least. */
  lemma RecordExact(G: Arena, s: string, visited: set<string>, dist: map<string, nat>, level: nat, next: string)
    requires dist.Keys == visited && Within(G, s, level) <= visited && next !in visited
    requires forall x {:trigger Exact(G, s, x, dist[x])} :: x in visited ==> Exact(G, s, x, dist[x])
    requires next in Successors(G, Within(G, s, level))
    ensures forall x {:trigger Exact(G, s, x, dist[next := level + 1][x])} :: x in visited + {next} ==>
              Exact(G, s, x, dist[next := level + 1][x])
  {
    var dist' := dist[next := level + 1];
    assert Exact(G, s, next, level + 1);
    forall x | x in visited + {next}
      ensures Exact(G, s, x, dist'[x])
    {
      if x != next {
        assert dist'[x] == dist[x] && Exact(G, s, x, dist[x]);
      }
    }
  }

  /** The queue part of Visit: old entries stay valid and the new entry,
      one level further out, goes last. */
  lemma VisitQueue(G: Arena, s: string, visited: set<string>, dist: map<string, nat>, level: nat,
                   queue: seq<Item>, path: seq<string>, next: string)
    requires forall i :: 0 <= i < |queue| ==> InFrontier(G, s, visited, dist, level, queue[i])
    requires forall i, j :: 0 <= i < j < |queue| ==> |queue[i].1| <= |queue[j].1|
    requires next !in visited && |path| == level + 1
    requires InFrontier(G, s, visited + {next}, dist[next := level + 1], level, (next, path + [next]))
    ensures var queue' := queue + [(next, path + [next])];
            && (forall i :: 0 <= i < |queue'| ==>
                  InFrontier(G, s, visited + {next}, dist[next := level + 1], level, queue'[i]))
            && (forall i, j :: 0 <= i < j < |queue'| ==> |queue'[i].1| <= |queue'[j].1|)
  {
    var queue' := queue + [(next, path + [next])];
    forall i | 0 <= i < |queue'|
      ensures InFrontier(G, s, visited + {next}, dist[next := level + 1], level, queue'[i])
    {
      if i < |queue| {
        assert queue'[i] == queue[i];
        assert InFrontier(G, s, visited, dist, level, queue[i]);
      }
    }
    forall i, k | 0 <= i < k < |queue'|
      ensures |queue'[i].1| <= |queue'[k].1|
    {
      if k == |queue| {
        assert InFrontier(G, s, visited, dist, level, queue[i]);
      }
    }
  }

  /** With every neighbour of `current` visited, `current` is expanded. */
  lemma Finish(G: Arena, s: string, t: string, visited0: set<string>, queue0: seq<Item>,
               visited: set<string>, queue: seq<Item>, expanded: set<string>,
               dist: map<string, nat>, level: nat, current: string, path: seq<string>)
    requires current in G
    requires Visiting(G, s, t, visited0, queue0, visited, queue, expanded, dist, level, current, path,
                      |G[current].neighbours|)
    ensures Between(G, s, t, visited, queue, expanded + {current}, dist, level)
    ensures visited == visited0 ==> queue == queue0
    ensures visited != visited0 ==> G.Keys - visited < G.Keys - visited0
  {
    var ns := G[current].neighbours;
    assert ns[..|ns|] == ns;
    if visited != visited0 {
      Grows(G.Keys, visited0, visited);
    } else {
      FreshEmpty(ns, visited0, path);
    }
    forall x, y | x in expanded + {current} && Adjacent(G, x, y)
      ensures y in visited
    {
      if x == current {
        var k :| 0 <= k < |ns| && ns[k].0 == y;
        assert y in Ids(ns);
      }
    }
  }

  /** Growing a subset of `K` shrinks what remains of `K`. */
  lemma Grows(K: set<string>, a: set<string>, b: set<string>)
    requires a <= b <= K && a != b
    ensures K - b < K - a
  {
    var x :| x in b && x !in a;
    assert x in (K - a) - (K - b);
  }

  /** An empty queue means the target is out of reach. */
  lemma Exhausted(G: Arena, s: string, t: string, visited: set<string>,
                  expanded: set<string>, dist: map<string, nat>, level: nat)
    requires Between(G, s, t, visited, [], expanded, dist, level)
    ensures !Reachable(G, s, t)
  {
    assert Queued([]) == {};
    ClosedUnreachable(G, visited, s, t);
  }
}
