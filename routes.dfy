/** Routes through a station arena: adjacency, well-formed routes, their
    travel times, and the hop-bounded reachability sets that breadth-first
    search explores layer by layer. */
module Routes {
  import opened Stations

  /** All stations of a network, keyed by id. */
  type Arena = map<string, Station>

  /** `v` occurs as a neighbour in `u`'s adjacency list. */
  predicate Adjacent(G: Arena, u: string, v: string)
  {
    u in G && exists i :: 0 <= i < |G[u].neighbours| && G[u].neighbours[i].0 == v
  }

  /** Every neighbour id in the arena names a station of the arena. */
  predicate LinksResolve(G: Arena)
  {
    forall u, i :: u in G && 0 <= i < |G[u].neighbours| ==> G[u].neighbours[i].0 in G
  }

  /** A non-empty sequence of registered stations, each adjacent to the next. */
  predicate IsRoute(G: Arena, p: seq<string>)
  {
    && |p| > 0
    && (forall k :: 0 <= k < |p| ==> p[k] in G)
    && (forall k :: 0 <= k < |p| - 1 ==> Adjacent(G, p[k], p[k + 1]))
  }

  /** `p` is a route from `s` to `t`. */
  predicate Connects(G: Arena, p: seq<string>, s: string, t: string)
  {
    IsRoute(G, p) && p[0] == s && p[|p| - 1] == t
  }

  ghost predicate Reachable(G: Arena, s: string, t: string)
  {
    exists p :: Connects(G, p, s, t)
  }

  /** No station occurs twice. */
  predicate Distinct(p: seq<string>)
  {
    forall i, j :: 0 <= i < j < |p| ==> p[i] != p[j]
  }

  /** The total travel times of route `p`: one sum of edge minutes per way of
      choosing, at each hop, one of the (possibly parallel) adjacency entries
      that leads to the next station. */
  function TravelTimes(G: Arena, p: seq<string>): set<nat>
    requires |p| > 0
    decreases |p|
  {
    if |p| == 1 then {0}
    else
      var u := p[|p| - 2];
      var rest := TravelTimes(G, p[..|p| - 1]);
      if u !in G then {}
      else
        set c, i | c in rest && 0 <= i < |G[u].neighbours| && G[u].neighbours[i].0 == p[|p| - 1]
          :: c + G[u].neighbours[i].1
  }

  /** Extending a route by one adjacency entry of its last station gives a
      route whose travel time grows by exactly that entry's minutes. */
  lemma ExtendRoute(G: Arena, p: seq<string>, c: nat, i: nat)
    requires IsRoute(G, p) && LinksResolve(G)
    requires c in TravelTimes(G, p)
    requires i < |G[p[|p| - 1]].neighbours|
    ensures var link := G[p[|p| - 1]].neighbours[i];
            && IsRoute(G, p + [link.0])
            && c + link.1 in TravelTimes(G, p + [link.0])
  {
    var u := p[|p| - 1];
    var link := G[u].neighbours[i];
    var q := p + [link.0];
    assert q[..|q| - 1] == p;
    assert Adjacent(G, q[|q| - 2], q[|q| - 1]);
    assert c + G[u].neighbours[i].1 in TravelTimes(G, q);
  }

  /** Every route has a travel time. */
  lemma {:induction false} RouteHasTravelTime(G: Arena, p: seq<string>)
    requires IsRoute(G, p)
    ensures TravelTimes(G, p) != {}
  {
    if |p| > 1 {
      var front := p[..|p| - 1];
      assert IsRoute(G, front);
      RouteHasTravelTime(G, front);
      var c :| c in TravelTimes(G, front);
      var u := p[|p| - 2];
      assert Adjacent(G, u, p[|p| - 1]);
      var i :| 0 <= i < |G[u].neighbours| && G[u].neighbours[i].0 == p[|p| - 1];
      assert c + G[u].neighbours[i].1 in TravelTimes(G, p);
    }
  }

  /** The largest travel time of any single adjacency entry of `ns`. */
  function MaxMinutes(ns: seq<Link>): (m: nat)
    ensures forall i :: 0 <= i < |ns| ==> ns[i].1 <= m
  {
    if ns == [] then 0
    else
      var rest := MaxMinutes(ns[1..]);
      if ns[0].1 < rest then rest else ns[0].1
  }

  /** An upper bound on the minutes of every adjacency entry of the stations in `keys`. */
  ghost function MaxLink(G: Arena, keys: set<string>): (m: nat)
    requires keys <= G.Keys
    ensures forall u, i :: u in keys && 0 <= i < |G[u].neighbours| ==> G[u].neighbours[i].1 <= m
    decreases keys
  {
    if keys == {} then 0
    else
      var u :| u in keys;
      var here := MaxMinutes(G[u].neighbours);
      var rest := MaxLink(G, keys - {u});
      if here < rest then rest else here
  }

  /** A route of n stations takes at most n - 1 times the longest hop. */
  lemma {:induction false} TravelTimeBound(G: Arena, p: seq<string>, c: nat, w: nat)
    requires |p| > 0 && c in TravelTimes(G, p)
    requires forall u, i :: u in G && 0 <= i < |G[u].neighbours| ==> G[u].neighbours[i].1 <= w
    ensures c <= (|p| - 1) * w
  {
    if |p| > 1 {
      var front := p[..|p| - 1];
      var u := p[|p| - 2];
      assert u in G;
      var c', i :| c' in TravelTimes(G, front) && 0 <= i < |G[u].neighbours|
                   && G[u].neighbours[i].0 == p[|p| - 1] && c == c' + G[u].neighbours[i].1;
      TravelTimeBound(G, front, c', w);
      var n: nat := |front| - 1;
      assert c' <= n * w;
      MulSucc(n, w);
    }
  }

  lemma MulSucc(n: nat, w: nat)
    ensures (n + 1) * w == n * w + w
  {
  }

  /** A sequence without repetitions drawn from `keys` is no longer than `keys` is large. */
  lemma {:induction false} DistinctLength(p: seq<string>, keys: set<string>)
    requires Distinct(p)
    requires forall k :: 0 <= k < |p| ==> p[k] in keys
    ensures |p| <= |keys|
  {
    if p != [] {
      var rest := keys - {p[0]};
      forall k | 0 <= k < |p[1..]|
        ensures p[1..][k] in rest
      {
        assert p[1..][k] == p[k + 1] && p[k + 1] != p[0];
      }
      DistinctLength(p[1..], rest);
    }
  }

  /** The stations reachable in one hop from some station of `S`. */
  function Successors(G: Arena, S: set<string>): set<string>
  {
    set u, i | u in S && u in G && 0 <= i < |G[u].neighbours| :: G[u].neighbours[i].0
  }

  /** The stations reachable from `s` in at most `k` hops. */
  ghost function Within(G: Arena, s: string, k: nat): set<string>
  {
    if k == 0 then {s}
    else Within(G, s, k - 1) + Successors(G, Within(G, s, k - 1))
  }

  /** `d` is the least hop count at which `v` is reachable from `s`. */
  ghost predicate Exact(G: Arena, s: string, v: string, d: nat)
  {
    v in Within(G, s, d) && (d > 0 ==> v !in Within(G, s, d - 1))
  }

  lemma AdjacentSuccessor(G: Arena, S: set<string>, u: string, v: string)
    requires u in S && Adjacent(G, u, v)
    ensures v in Successors(G, S)
  {
    var i :| 0 <= i < |G[u].neighbours| && G[u].neighbours[i].0 == v;
    assert G[u].neighbours[i].0 in Successors(G, S);
  }

  lemma {:induction false} WithinMonotone(G: Arena, s: string, j: nat, k: nat)
    requires j <= k
    ensures Within(G, s, j) <= Within(G, s, k)
  {
    if j < k {
      WithinMonotone(G, s, j, k - 1);
    }
  }

  /** The last station of a route of n stations is reachable in n - 1 hops. */
  lemma {:induction false} RouteWithin(G: Arena, q: seq<string>)
    requires IsRoute(G, q)
    ensures q[|q| - 1] in Within(G, q[0], |q| - 1)
  {
    if |q| > 1 {
      var front := q[..|q| - 1];
      assert IsRoute(G, front);
      RouteWithin(G, front);
      AdjacentSuccessor(G, Within(G, q[0], |q| - 2), q[|q| - 2], q[|q| - 1]);
    }
  }

  /** A station whose least hop count is d has no route with fewer than d hops. */
  lemma ExactIsShortest(G: Arena, s: string, v: string, d: nat, q: seq<string>)
    requires Exact(G, s, v, d) && Connects(G, q, s, v)
    ensures d <= |q| - 1
  {
    RouteWithin(G, q);
    if |q| - 1 < d {
      WithinMonotone(G, s, |q| - 1, d - 1);
    }
  }

  /** A station reachable within k hops has a least hop count of at most k. */
  lemma ExactAtMost(G: Arena, s: string, v: string, d: nat, k: nat)
    requires Exact(G, s, v, d) && v in Within(G, s, k)
    ensures d <= k
  {
    if k < d {
      WithinMonotone(G, s, k, d - 1);
    }
  }

  /** The neighbours of every station of `S` are in `S`. */
  ghost predicate Closed(G: Arena, S: set<string>)
  {
    forall u, v :: u in S && Adjacent(G, u, v) ==> v in S
  }

  /** A route that starts in a closed set never leaves it. */
  lemma {:induction false} ClosedRoute(G: Arena, S: set<string>, q: seq<string>)
    requires Closed(G, S) && IsRoute(G, q) && q[0] in S
    ensures q[|q| - 1] in S
  {
    if |q| > 1 {
      var front := q[..|q| - 1];
      assert IsRoute(G, front);
      ClosedRoute(G, S, front);
      assert Adjacent(G, q[|q| - 2], q[|q| - 1]);
    }
  }

  /** No route from `s` reaches a station outside a closed set holding `s`. */
  lemma ClosedUnreachable(G: Arena, S: set<string>, s: string, t: string)
    requires Closed(G, S) && s in S && t !in S
    ensures !Reachable(G, s, t)
  {
    forall q | Connects(G, q, s, t)
      ensures false
    {
      ClosedRoute(G, S, q);
    }
  }
}
