/** The metro network: the registry of stations and lines, updated in place,
    and its two route searches, fewest hops (breadth-first) and fastest
    (best-first with a line-based estimate). */
module Metro {
  import opened Wrappers
  import opened Stations
  import opened Routes
  import opened Registry
  import opened PriorityQueue
  import BreadthFirst
  import BestFirst

  /** The inner loop of the fewest-hops search: visits every neighbour of
      `current` not seen before and queues the route extended to it, which
      leaves `current` expanded. */
  method VisitNeighbours(G: Arena, s: string, t: string, visited: set<string>, queue: seq<BreadthFirst.Item>,
                         ghost expanded: set<string>, ghost dist: map<string, nat>, ghost level: nat,
                         current: string, path: seq<string>)
    returns (visited': set<string>, queue': seq<BreadthFirst.Item>, ghost dist': map<string, nat>)
    requires BreadthFirst.Expanding(G, s, t, visited, queue, expanded, dist, level, current, path)
    ensures BreadthFirst.Between(G, s, t, visited', queue', expanded + {current}, dist', level)
    ensures visited' == visited + BreadthFirst.Ids(G[current].neighbours)
    ensures queue' == queue + BreadthFirst.Fresh(G[current].neighbours, visited, path)
    ensures visited' == visited ==> queue' == queue
    ensures visited' != visited ==> G.Keys - visited' < G.Keys - visited
  {
    visited', queue', dist' := visited, queue, dist;
    var ns := G[current].neighbours;
    var j := 0;
    while j < |ns|
      invariant BreadthFirst.Visiting(G, s, t, visited, queue, visited', queue', expanded, dist', level, current, path, j)
    {
      var next := ns[j].0;
      if next in visited' {
        BreadthFirst.Seen(G, s, t, visited, queue, visited', queue', expanded, dist', level, current, path, j);
      } else {
        BreadthFirst.Visit(G, s, t, visited, queue, visited', queue', expanded, dist', level, current, path, j);
        visited' := visited' + {next};
        queue' := queue' + [(next, path + [next])];
        dist' := dist'[next := level + 1];
      }
      j := j + 1;
    }
    assert ns[..j] == ns;
    BreadthFirst.Finish(G, s, t, visited, queue, visited', queue', expanded, dist', level, current, path);
  }

  /** The inner loop of the fastest-route search: pushes one entry per
      adjacency entry of the expanded station, each with a fresh push number
      drawn from `counter`. */
  method PushNeighbours(G: Arena, s: string, t: string, ghost w: nat, ghost fin: map<string, nat>,
                        pq: seq<Entry>, counter: nat, e: Entry)
    returns (pq': seq<Entry>, counter': nat)
    requires BestFirst.Expanding(G, s, t, w, fin, pq, counter, e)
    ensures BestFirst.Between(G, s, t, w, fin, pq', counter')
    ensures pq' == pq + BestFirst.Pushes(G, t, e, G[e.station].neighbours, counter)
    ensures counter' == counter + |G[e.station].neighbours|
  {
    pq', counter' := pq, counter;
    var ns := G[e.station].neighbours;
    BestFirst.PushingStart(G, s, t, w, fin, pq, counter, e);
    var j := 0;
    while j < |ns|
      invariant BestFirst.Pushing(G, s, t, w, fin, pq, counter, e, pq', counter', j)
    {
      BestFirst.PushingStep(G, s, t, w, fin, pq, counter, e, pq', counter', j);
      var g := e.g + ns[j].1;
      pq' := pq' + [Entry(g + Heuristic(G[ns[j].0], G[t]), g, counter', ns[j].0, e.path + [ns[j].0])];
      counter' := counter' + 1;
      j := j + 1;
    }
    BestFirst.Finish(G, s, t, w, fin, pq, counter, e, pq', counter');
  }

  /** The network: stations by id, each line's station ids in registration
      order, and the push counter the fastest-route search draws tie-breaking
      numbers from across all queries. */
  class MetroNetwork {
    var stations: Arena
    var lines: map<string, seq<string>>
    var counter: nat

    function View(): Snapshot
      reads this
    {
      Snapshot(stations, lines)
    }

    ghost predicate Valid()
      reads this
    {
      WellFormed(View())
    }

    constructor ()
      ensures Valid()
      ensures stations == map[] && lines == map[] && counter == 0
    {
      stations := map[];
      lines := map[];
      counter := 0;
    }

    /** Registers a station; an id already registered is left as it was. */
    method AddStation(id: string, name: string, line: string)
      requires Valid()
      modifies this`stations, this`lines
      ensures Valid()
      ensures View() == WithStation(old(View()), id, name, line)
    {
      WithStationWellFormed(View(), id, name, line);
      if id !in stations {
        stations := stations[id := Station(id, name, line, [])];
        lines := lines[line := LineMembers(lines, line) + [id]];
      }
    }

    /** Connects two stations both ways; an unknown id fails before
        anything changes. */
    method AddConnection(a: string, b: string, minutes: nat) returns (r: Result<()>)
      requires Valid()
      modifies this`stations
      ensures Valid()
      ensures r.NotFound? <==> a !in old(stations) || b !in old(stations)
      ensures r.NotFound? ==> stations == old(stations)
      ensures r.Ok? ==> View() == Connect(old(View()), a, b, minutes)
    {
      if a !in stations || b !in stations {
        return NotFound;
      }
      ConnectWellFormed(View(), a, b, minutes);
      stations := stations[a := AddNeighbour(stations[a], b, minutes)];
      stations := stations[b := AddNeighbour(stations[b], a, minutes)];
      r := Ok(());
    }

    /** Breadth-first search: a route with the fewest hops, or None when the
        target cannot be reached. */
    method FewestTransfers(startId: string, targetId: string) returns (r: Result<Option<seq<string>>>)
      requires Valid()
      ensures r.NotFound? <==> startId !in stations || targetId !in stations
      ensures r.Ok? && startId == targetId ==> r.value == Some([startId])
      ensures r.Ok? && r.value.Some? ==>
        Connects(stations, r.value.value, startId, targetId) && Distinct(r.value.value)
      ensures r.Ok? && r.value.Some? ==>
        forall q :: Connects(stations, q, startId, targetId) ==> |r.value.value| <= |q|
      ensures r.Ok? && r.value.None? ==> !Reachable(stations, startId, targetId)
    {
      if startId !in stations || targetId !in stations {
        return NotFound;
      }
      if startId == targetId {
        return Ok(Some([startId]));
      }
      var G := stations;
      var visited := {startId};
      var queue: seq<BreadthFirst.Item> := [(startId, [startId])];
      ghost var expanded: set<string> := {};
      ghost var dist: map<string, nat> := map[startId := 0];
      ghost var level: nat := 0;
      BreadthFirst.Start(G, startId, targetId);
      while queue != []
        invariant BreadthFirst.Between(G, startId, targetId, visited, queue, expanded, dist, level)
        decreases G.Keys - visited, |queue|
      {
        var current, path := queue[0].0, queue[0].1;
        if current == targetId {
          BreadthFirst.Found(G, startId, targetId, visited, queue, expanded, dist, level);
          return Ok(Some(path));
        }
        level := BreadthFirst.Pop(G, startId, targetId, visited, queue, expanded, dist, level);
        queue := queue[1..];
        visited, queue, dist := VisitNeighbours(G, startId, targetId, visited, queue, expanded, dist, level, current, path);
        expanded := expanded + {current};
      }
      BreadthFirst.Exhausted(G, startId, targetId, visited, expanded, dist, level);
      return Ok(None);
    }

    /** Best-first search ordered by minutes so far plus the line-based
        estimate: a route to the target with the minutes it takes, or None
        when the target cannot be reached. Every push draws a fresh number
        from the network's counter. */
    method FastestRoute(startId: string, targetId: string) returns (r: Result<Option<(seq<string>, nat)>>)
      requires Valid()
      modifies this`counter
      ensures r.NotFound? <==> startId !in stations || targetId !in stations
      ensures old(counter) <= counter
      ensures r.NotFound? || startId == targetId ==> counter == old(counter)
      ensures r.Ok? && startId != targetId ==> old(counter) < counter
      ensures r.Ok? && startId == targetId ==> r.value == Some(([startId], 0))
      ensures r.Ok? && r.value.Some? ==>
        && Connects(stations, r.value.value.0, startId, targetId)
        && Distinct(r.value.value.0)
        && r.value.value.1 in TravelTimes(stations, r.value.value.0)
      ensures r.Ok? && r.value.None? ==> !Reachable(stations, startId, targetId)
    {
      if startId !in stations || targetId !in stations {
        return NotFound;
      }
      if startId == targetId {
        return Ok(Some(([startId], 0)));
      }
      var G := stations;
      var goal := G[targetId];
      ghost var w := MaxLink(G, G.Keys);
      BestFirst.Start(G, startId, targetId, w, counter);
      var pq := [Entry(Heuristic(G[startId], goal), 0, counter, startId, [startId])];
      counter := counter + 1;
      var finalised: map<string, nat> := map[];
      while pq != []
        invariant G == stations && goal == G[targetId]
        invariant BestFirst.Between(G, startId, targetId, w, finalised, pq, counter)
        invariant old(counter) < counter
        decreases BestFirst.Budget(G, finalised, w), |pq|
      {
        var m := MinIndex(pq);
        var e := pq[m];
        if e.station == targetId {
          BestFirst.Found(G, startId, targetId, w, finalised, pq, counter, e);
          return Ok(Some((e.path, e.g)));
        }
        if e.station in finalised && finalised[e.station] <= e.g {
          BestFirst.Skip(G, startId, targetId, w, finalised, pq, counter, m);
          pq := Remove(pq, m);
        } else {
          BestFirst.Expand(G, startId, targetId, w, finalised, pq, counter, m);
          pq := Remove(pq, m);
          finalised := finalised[e.station := e.g];
          pq, counter := PushNeighbours(G, startId, targetId, w, finalised, pq, counter, e);
        }
      }
      BestFirst.Exhausted(G, startId, targetId, w, finalised, counter);
      return Ok(None);
    }
  }
}
