/** A station of the transit network and the heuristic the fastest-route
    search estimates remaining travel time with. */
module Stations {

  /** One adjacency entry: the id of the neighbouring station and the travel
      time to it in minutes. */
  type Link = (string, nat)

  /** A station: its id, display name, the line it belongs to, and its
      adjacency list in the order the connections were added. Neighbours are
      held by id, the id resolving through the network's station map. */
  datatype Station = Station(id: string, name: string, line: string, neighbours: seq<Link>)

  /** Stations are equal when their ids are; name, line and neighbours do
      not take part. */
  predicate SameStation(a: Station, b: Station): (r: bool)
    ensures a == b ==> r
    ensures a.id == b.id ==> r
    ensures a.id != b.id ==> !r
  {
    a.id == b.id
  }

  /** Station equality is an equivalence, and stations it equates hash
      alike, since the hash is taken of the id alone. */
  lemma SameStationEquivalence(a: Station, b: Station, c: Station)
    ensures SameStation(a, a)
    ensures a.id == b.id ==> SameStation(a, b)
    ensures SameStation(a, b) ==> SameStation(b, a) && a.id == b.id
    ensures SameStation(a, b) && SameStation(b, c) ==> SameStation(a, c)
  {
  }

  /** The A* estimate of the time from `a` to `b`: nothing for the same
      station, a small amount on the same line, a larger one otherwise. It is
      not a lower bound on the real remaining time (see HeuristicOverestimates). */
  function Heuristic(a: Station, b: Station): (h: nat)
    ensures h == 0 || h == 2 || h == 5
    ensures h == 0 <==> SameStation(a, b)
    ensures h == 2 <==> !SameStation(a, b) && a.line == b.line
    ensures h == 5 <==> !SameStation(a, b) && a.line != b.line
  {
    if a.id == b.id then 0
    else if a.line == b.line then 2
    else 5
  }

  /** The estimate does not depend on the direction of travel. */
  lemma HeuristicSymmetric(a: Station, b: Station)
    ensures Heuristic(a, b) == Heuristic(b, a)
  {
  }

  /** Two stations of different lines one minute apart are estimated five
      minutes apart, so the estimate can exceed the true remaining time. */
  lemma HeuristicOverestimates()
    ensures var a := Station("a", "A", "red", [("b", 1)]);
            var b := Station("b", "B", "blue", [("a", 1)]);
            a.neighbours[0] == (b.id, 1) && Heuristic(a, b) > a.neighbours[0].1
  {
  }
}
