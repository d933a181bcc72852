/** The station registry as a value: the id-to-station map, the line-to-ids
    grouping, the invariant that ties them together, and the two updates the
    network applies to them. */
module Registry {
  import opened Stations
  import opened Routes

  /** The registry's state: every station by id, and for each line the ids
      of its stations in the order they were registered. */
  datatype Snapshot = Snapshot(stations: Arena, lines: map<string, seq<string>>)

  /** The stations of line `l`; a line never registered has none. */
  function LineMembers(lines: map<string, seq<string>>, l: string): (r: seq<string>)
    ensures l in lines ==> r == lines[l]
    ensures l !in lines ==> r == []
  {
    if l in lines then lines[l] else []
  }

  /** Every connection shows up at both ends with the same minutes, as often
      at one end as at the other. */
  ghost predicate Symmetric(G: Arena)
  {
    forall a, b, c: nat :: a in G && b in G ==>
      multiset(G[a].neighbours)[(b, c)] == multiset(G[b].neighbours)[(a, c)]
  }

  /** The registry invariant: stations are stored under their own id, every
      neighbour is registered, connections are symmetric, and each line lists
      exactly the stations that belong to it, each once. */
  ghost predicate WellFormed(r: Snapshot)
  {
    && (forall id :: id in r.stations ==> r.stations[id].id == id)
    && LinksResolve(r.stations)
    && Symmetric(r.stations)
    && (forall l, k :: l in r.lines && 0 <= k < |r.lines[l]| ==>
          r.lines[l][k] in r.stations && r.stations[r.lines[l][k]].line == l)
    && (forall id :: id in r.stations ==> id in LineMembers(r.lines, r.stations[id].line))
    && (forall l :: l in r.lines ==> Distinct(r.lines[l]))
  }

  /** Registers a station unless its id is taken: a taken id leaves the
      registry exactly as it was; a fresh one adds one station without
      neighbours and appends its id once to its line. */
  function WithStation(r: Snapshot, id: string, name: string, line: string): (r': Snapshot)
    ensures id in r'.stations
    ensures id in r.stations ==> r' == r
    ensures id !in r.stations ==>
      && r'.stations.Keys == r.stations.Keys + {id}
      && r'.stations[id] == Station(id, name, line, [])
      && (forall x :: x in r.stations ==> r'.stations[x] == r.stations[x])
      && LineMembers(r'.lines, line) == LineMembers(r.lines, line) + [id]
      && (forall l :: l != line ==> LineMembers(r'.lines, l) == LineMembers(r.lines, l))
  {
    if id in r.stations then r
    else
      Snapshot(r.stations[id := Station(id, name, line, [])],
               r.lines[line := LineMembers(r.lines, line) + [id]])
  }

  /** Appends one adjacency entry to a station: the old entries keep their
      places, the new one comes last, and id, name and line are unchanged. */
  function AddNeighbour(s: Station, other: string, minutes: nat): (s': Station)
    ensures s'.id == s.id && s'.name == s.name && s'.line == s.line
    ensures |s'.neighbours| == |s.neighbours| + 1
    ensures s'.neighbours[..|s.neighbours|] == s.neighbours
    ensures s'.neighbours[|s.neighbours|] == (other, minutes)
  {
    s.(neighbours := s.neighbours + [(other, minutes)])
  }

  /** Connects two registered stations: each gets one entry for the other
      (a station connected to itself gets two), nothing else changes, and
      an existing connection between them is kept beside the new one. */
  function Connect(r: Snapshot, a: string, b: string, minutes: nat): (r': Snapshot)
    requires a in r.stations && b in r.stations
    ensures r'.lines == r.lines && r'.stations.Keys == r.stations.Keys
    ensures forall x :: x in r.stations && x != a && x != b ==> r'.stations[x] == r.stations[x]
    ensures forall x :: x in r.stations ==>
      && r'.stations[x].id == r.stations[x].id
      && r'.stations[x].name == r.stations[x].name
      && r'.stations[x].line == r.stations[x].line
    ensures a != b ==>
      && r'.stations[a].neighbours == r.stations[a].neighbours + [(b, minutes)]
      && r'.stations[b].neighbours == r.stations[b].neighbours + [(a, minutes)]
    ensures a == b ==>
      r'.stations[a].neighbours == r.stations[a].neighbours + [(a, minutes), (a, minutes)]
  {
    var once := r.stations[a := AddNeighbour(r.stations[a], b, minutes)];
    Snapshot(once[b := AddNeighbour(once[b], a, minutes)], r.lines)
  }

  /** Registering a station keeps the registry invariant. */
  lemma WithStationWellFormed(r: Snapshot, id: string, name: string, line: string)
    requires WellFormed(r)
    ensures WellFormed(WithStation(r, id, name, line))
  {
    if id !in r.stations {
      var r' := WithStation(r, id, name, line);
      var G, G' := r.stations, r'.stations;
      assert LinksResolve(G') by {
        forall u, i | u in G' && 0 <= i < |G'[u].neighbours|
          ensures G'[u].neighbours[i].0 in G'
        {
          assert u != id;
        }
      }
      assert Symmetric(G') by {
        forall a, b, c: nat | a in G' && b in G'
          ensures multiset(G'[a].neighbours)[(b, c)] == multiset(G'[b].neighbours)[(a, c)]
        {
          if a == id || b == id {
            if a != id {
              assert (id, c) !in G[a].neighbours;
            }
            if b != id {
              assert (id, c) !in G[b].neighbours;
            }
          }
        }
      }
      forall l, k | l in r'.lines && 0 <= k < |r'.lines[l]|
        ensures r'.lines[l][k] in G' && G'[r'.lines[l][k]].line == l
      {
        if l == line && k == |r'.lines[l]| - 1 {
        } else if l == line {
          assert r'.lines[l][k] == LineMembers(r.lines, line)[k];
        }
      }
      forall x | x in G'
        ensures x in LineMembers(r'.lines, G'[x].line)
      {
        if x != id && G'[x].line == line {
          var k :| 0 <= k < |LineMembers(r.lines, line)| && LineMembers(r.lines, line)[k] == x;
          assert LineMembers(r'.lines, line)[k] == x;
        }
      }
      forall l | l in r'.lines
        ensures Distinct(r'.lines[l])
      {
        if l == line {
          assert id !in LineMembers(r.lines, line);
        }
      }
    }
  }

  /** Connecting two stations keeps the registry invariant. */
  lemma ConnectWellFormed(r: Snapshot, a: string, b: string, minutes: nat)
    requires WellFormed(r) && a in r.stations && b in r.stations
    ensures WellFormed(Connect(r, a, b, minutes))
  {
    var r' := Connect(r, a, b, minutes);
    ConnectLinksResolve(r, a, b, minutes);
    assert Symmetric(r'.stations) by {
      forall x, y, c: nat | x in r'.stations && y in r'.stations
        ensures multiset(r'.stations[x].neighbours)[(y, c)] == multiset(r'.stations[y].neighbours)[(x, c)]
      {
        ConnectCount(r, a, b, minutes, x, y, c);
        ConnectCount(r, a, b, minutes, y, x, c);
      }
    }
  }

  lemma ConnectLinksResolve(r: Snapshot, a: string, b: string, minutes: nat)
    requires LinksResolve(r.stations) && a in r.stations && b in r.stations
    ensures LinksResolve(Connect(r, a, b, minutes).stations)
  {
    var G, G' := r.stations, Connect(r, a, b, minutes).stations;
    forall u, i | u in G' && 0 <= i < |G'[u].neighbours|
      ensures G'[u].neighbours[i].0 in G'
    {
      if u != a && u != b {
        assert G'[u] == G[u];
      } else if i < |G[u].neighbours| {
        assert G'[u].neighbours[i] == G[u].neighbours[i];
      } else {
        assert G'[u].neighbours[i].0 == a || G'[u].neighbours[i].0 == b;
      }
    }
  }

  /** How many entries (y, c) a connection of `a` and `b` adds to x's list. */
  function Added(a: string, b: string, minutes: nat, x: string, y: string, c: nat): nat
  {
    (if x == a && y == b && c == minutes then 1 else 0) + (if x == b && y == a && c == minutes then 1 else 0)
  }

  lemma ConnectCount(r: Snapshot, a: string, b: string, minutes: nat, x: string, y: string, c: nat)
    requires a in r.stations && b in r.stations && x in r.stations
    ensures multiset(Connect(r, a, b, minutes).stations[x].neighbours)[(y, c)]
            == multiset(r.stations[x].neighbours)[(y, c)] + Added(a, b, minutes, x, y, c)
  {
    var ns, ns' := r.stations[x].neighbours, Connect(r, a, b, minutes).stations[x].neighbours;
    if x == a && a == b {
      assert multiset(ns') == multiset(ns) + multiset{(a, minutes), (a, minutes)};
    } else if x == a {
      assert multiset(ns') == multiset(ns) + multiset{(b, minutes)};
    } else if x == b {
      assert multiset(ns') == multiset(ns) + multiset{(a, minutes)};
    }
  }

  /** Station equality by id coincides with equality of the registry keys. */
  lemma StationIdentity(r: Snapshot, x: string, y: string)
    requires WellFormed(r) && x in r.stations && y in r.stations
    ensures SameStation(r.stations[x], r.stations[y]) <==> x == y
  {
  }

  /** Registering the same id again, under any name and line, changes nothing. */
  lemma WithStationIdempotent(r: Snapshot, id: string, name: string, line: string, name': string, line': string)
    ensures WithStation(WithStation(r, id, name, line), id, name', line') == WithStation(r, id, name, line)
  {
  }

  /** After a connection each end is adjacent to the other. */
  lemma ConnectAdjacent(r: Snapshot, a: string, b: string, minutes: nat)
    requires a in r.stations && b in r.stations
    ensures Adjacent(Connect(r, a, b, minutes).stations, a, b)
    ensures Adjacent(Connect(r, a, b, minutes).stations, b, a)
  {
    var G := Connect(r, a, b, minutes).stations;
    var n := |G[a].neighbours|;
    if a == b {
      assert G[a].neighbours[n - 1].0 == b;
    } else {
      assert G[a].neighbours[n - 1].0 == b;
      assert G[b].neighbours[|G[b].neighbours| - 1].0 == a;
    }
  }
}
