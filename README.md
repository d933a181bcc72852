# Metro route planner — a verified Dafny model

This project models a small in-memory metro network and its two route
queries:

- **The station registry.** Stations (`Istasyon`) have an id, a display name, a line and an
  adjacency list of (neighbour, minutes). The network (`MetroAgi`) keeps every station by id
  and, for each line, its stations in registration order.
- **Registering a station** is idempotent.
- **Connecting two stations** appends one entry at each end, so every connection is undirected.
  Parallel connections are kept side by side.
- **The fewest-transfers query** (`en_az_aktarma_bul`) is a breadth-first search over a FIFO queue
  of (station, route) pairs. It marks a station visited when the station is queued.
- **The fastest-route query** (`en_hizli_rota_bul`) is a best-first (A*) search over a priority
  queue of (f, g, push number, station, route) entries.
  - f is the minutes so far plus a line-based estimate: 0 for the target itself, 2 on the
    target's line, 5 elsewhere.
  - The search keeps the finalised cost of each station and drops stale entries when it pops
    them.
  - Push numbers come from a counter owned by the network. The counter keeps increasing across
    queries.

The model is an arena.

- A station's neighbours are held as station ids rather than object references. The ids
  resolve through the network's station map (`Routes.Arena`).
- Each line lists the ids of its stations.
- The class `Metro.MetroNetwork` holds the three fields the source updates in place: the
  station map, the line map and the counter.
  - Its registry methods are proved against the pure functions `Registry.WithStation` and
    `Registry.Connect`.
  - Its searches are loops whose invariants are bundled into one predicate per loop state: the
    modules `BreadthFirst` and `BestFirst`. Each loop step is a lemma that carries the
    invariant from one state to the next.
  - The registry invariant `Registry.WellFormed` is kept by every method. It says that stations
    are stored under their ids, that neighbours resolve, that connections are symmetric with
    equal multiplicities, and that lines list their stations exactly once.

The specification functions behind the contracts:

- `Routes.Connects(G, p, s, t)`: `p` is a route from `s` to `t` whose consecutive stations are
  adjacent.
- `Routes.TravelTimes(G, p)`: the set of minute sums a route can take, one per choice among
  parallel connections.
- `Routes.Reachable`: some route exists.
- `Routes.Within(G, s, k)`: the stations reachable in at most k hops.

The query results are stated against these: a route from start to target without repeated
stations; for the fewest-transfers query, no route to the target is shorter; for the fastest
query, the reported minutes are one of the route's travel times; and a result of "no route"
happens only when the target is unreachable.

## Model

| member | source | states |
|---|---|---|
| Stations.Heuristic | SametDogan_MetroSimulation.py:37-45 | the estimate is 0, 2 or 5; it is 0 exactly when the ids are equal, 2 exactly for different ids on the same line, and 5 exactly for different ids on different lines |
| Stations.HeuristicSymmetric | SametDogan_MetroSimulation.py:37-45 | the estimate from a to b equals the estimate from b to a |
| Stations.HeuristicOverestimates | SametDogan_MetroSimulation.py:37-45 | an example, not a general statement: two stations on different lines joined by a one-minute connection are estimated five minutes apart, so the estimate is not a lower bound on the remaining time |
| Stations.SameStation | SametDogan_MetroSimulation.py:22-23 | stations are equal exactly when their ids are: same id gives equal whatever the names, lines and neighbours, different ids give unequal |
| Stations.SameStationEquivalence | SametDogan_MetroSimulation.py:22-26 | stations with the same id are equal; station equality is reflexive, symmetric and transitive, and equal stations have the same id, hence the same hash |
| Registry.StationIdentity | SametDogan_MetroSimulation.py:22-26 | in a well-formed registry, two stored stations are equal (same id) exactly when they are stored under the same key |
| Registry.LineMembers | SametDogan_MetroSimulation.py:51 | reading a line of the `defaultdict` gives its registered stations, or the empty list for a line never registered |
| Registry.AddNeighbour | SametDogan_MetroSimulation.py:16-17 | appending a neighbour keeps id, name, line and every old entry in place and adds exactly one entry, (neighbour, minutes), at the end |
| Registry.WithStation | SametDogan_MetroSimulation.py:47-51 | a taken id leaves stations and lines exactly as they were; a fresh id adds exactly one station, without neighbours, appends its id once to its line, and leaves every other station and line unchanged |
| Registry.WithStationIdempotent | SametDogan_MetroSimulation.py:47-51 | registering an id a second time, under any name and line, changes nothing |
| Registry.WithStationWellFormed | SametDogan_MetroSimulation.py:47-51 | registering a station keeps the registry invariant: ids match keys, neighbours resolve, connections are symmetric, and every line lists its own stations once each |
| Registry.Connect | SametDogan_MetroSimulation.py:53-59 | for a ≠ b, (b, minutes) is appended to a's list and (a, minutes) to b's; a self-connection appends (a, minutes) twice; lines, keys, every other station and all ids, names and lines are unchanged; existing entries are kept |
| Registry.ConnectAdjacent | SametDogan_MetroSimulation.py:53-59 | after connecting a and b, b is adjacent to a and a is adjacent to b |
| Registry.ConnectCount | SametDogan_MetroSimulation.py:56-59 | connecting a and b raises the count of (y, c) in x's list by exactly one for each of the two appended entries that matches, and leaves every other count as it was |
| Registry.ConnectLinksResolve | SametDogan_MetroSimulation.py:56-59 | after a connection every neighbour entry still names a registered station |
| Registry.ConnectWellFormed | SametDogan_MetroSimulation.py:53-59 | connecting two registered stations keeps the registry invariant, including symmetry with equal multiplicities |
| Metro.MetroNetwork.constructor | SametDogan_MetroSimulation.py:32-35 | a new network has no stations, no lines and counter 0, and satisfies the registry invariant |
| Metro.MetroNetwork.AddStation | SametDogan_MetroSimulation.py:47-51 | the new state is WithStation of the old one and the registry invariant still holds |
| Metro.MetroNetwork.AddConnection | SametDogan_MetroSimulation.py:53-59 | NotFound exactly when either id is unregistered, and then no station changes; otherwise the new state is Connect of the old one; the invariant holds either way |
| Metro.MetroNetwork.FewestTransfers | SametDogan_MetroSimulation.py:61-85 | NotFound exactly when start or target is unregistered; [start] when they are equal; a returned route runs from start to target through adjacent stations, has no repeated station, and has no more stations than any route from start to target; None only when the target is unreachable |
| Metro.VisitNeighbours | SametDogan_MetroSimulation.py:81-84 | the new visited set is the old one plus exactly the neighbour ids; the new queue is the old one followed by Fresh: one entry (n, path + [n]) for each neighbour n not visited before, once, in adjacency order; the popped station is then expanded with the loop invariant restored; the queue changes only if the visited set grows, and then the set of unvisited stations shrinks |
| BreadthFirst.Start | SametDogan_MetroSimulation.py:74-75 | the visited set {start} and the queue [(start, [start])] satisfy the loop invariant at level 0 |
| BreadthFirst.Found | SametDogan_MetroSimulation.py:78-80 | when the target is at the head of the queue, its route runs from start to target without repetitions and no route from start to target is shorter |
| BreadthFirst.IdsLast | SametDogan_MetroSimulation.py:81 | the neighbour ids of an adjacency list are those of all but its last entry plus the last entry's |
| BreadthFirst.Fresh | SametDogan_MetroSimulation.py:81-84 | the entries appended by the neighbour loop: none has a station seen before, each route is the current route plus its station, no station appears twice, and the appended stations are exactly the neighbour ids not seen before |
| BreadthFirst.FreshStep | SametDogan_MetroSimulation.py:81-84 | scanning one more adjacency entry adds its id to the neighbour ids, and appends (n, path + [n]) exactly when n was neither seen before nor earlier in the list |
| BreadthFirst.Pop | SametDogan_MetroSimulation.py:78 | popping a station other than the target starts its expansion with the invariant kept, on a level equal to the popped station's least hop count |
| BreadthFirst.Advance | SametDogan_MetroSimulation.py:78 | popping a station one hop beyond the current level means every station within the level is expanded, so the expansion continues on the next level with the invariant kept |
| BreadthFirst.QueuedPop | SametDogan_MetroSimulation.py:78 | the queued stations are the head's station together with those of the rest of the queue |
| BreadthFirst.QueuedPush | SametDogan_MetroSimulation.py:84 | appending an entry adds exactly its station to the queued stations |
| BreadthFirst.WithinStep | SametDogan_MetroSimulation.py:81-84 | once every station within k hops is expanded, every station within k + 1 hops is visited |
| BreadthFirst.Seen | SametDogan_MetroSimulation.py:82 | skipping a neighbour that is already visited keeps the invariant of the neighbour loop, which ties the visited set and the queue to the ids and Fresh entries of the adjacency entries scanned so far |
| BreadthFirst.Visit | SametDogan_MetroSimulation.py:82-84 | marking an unvisited neighbour visited and queuing the extended route keeps the invariant of the neighbour loop, which ties the visited set and the queue to the ids and Fresh entries of the adjacency entries scanned so far |
| BreadthFirst.Extend | SametDogan_MetroSimulation.py:83-84 | the extended route starts at start, reaches the neighbour, and keeps the expansion invariant |
| BreadthFirst.Record | SametDogan_MetroSimulation.py:83-84 | recording a station one hop beyond the level, with its extended route at the back of the queue, keeps the common invariant |
| BreadthFirst.RecordExact | SametDogan_MetroSimulation.py:83 | a station first seen from the current level has least hop count one more than the level, and recorded hop counts stay least |
| BreadthFirst.VisitQueue | SametDogan_MetroSimulation.py:84 | appending the new entry keeps every queue entry a valid frontier entry and keeps route lengths nondecreasing from front to back (FIFO layer order) |
| BreadthFirst.Finish | SametDogan_MetroSimulation.py:81-84 | with all neighbours visited, the popped station is expanded and the loop invariant holds again; the set of unvisited stations shrank if anything was queued |
| BreadthFirst.Grows | SametDogan_MetroSimulation.py:82-83 | adding stations to the visited set strictly shrinks the set of unvisited stations, which bounds the number of iterations |
| BreadthFirst.Exhausted | SametDogan_MetroSimulation.py:77-85 | if the queue empties, the target is unreachable from start |
| Routes.RouteWithin | SametDogan_MetroSimulation.py:74-84 | the last station of a route with n stations is reachable in n - 1 hops |
| Routes.WithinMonotone | SametDogan_MetroSimulation.py:74-84 | stations within j hops are within k hops for j ≤ k |
| Routes.ExactIsShortest | SametDogan_MetroSimulation.py:74-84 | a station whose least hop count is d has no route with fewer than d hops |
| Routes.ExactAtMost | SametDogan_MetroSimulation.py:74-84 | a station reachable within k hops has a least hop count of at most k |
| Routes.AdjacentSuccessor | SametDogan_MetroSimulation.py:81 | a neighbour of a station in S is among the one-hop successors of S |
| Routes.ClosedRoute | SametDogan_MetroSimulation.py:77-85 | a route that starts in a set closed under adjacency ends in it |
| Routes.ClosedUnreachable | SametDogan_MetroSimulation.py:77-85 | no station outside a closed set holding the start is reachable |
| Metro.MetroNetwork.FastestRoute | SametDogan_MetroSimulation.py:87-118 | NotFound exactly when start or target is unregistered, and then the counter is unchanged; ([start], 0) without any push when they are equal; otherwise the counter strictly increases; a returned route runs from start to target through adjacent stations without repetitions, and its minutes are one of its travel times; None only when the target is unreachable |
| Metro.PushNeighbours | SametDogan_MetroSimulation.py:113-116 | the new queue is the old one followed by Pushes: for each adjacency entry (n, minutes), in order, the entry with g + minutes, f adding the estimate from n to the target, push number counter + k, station n and route + [n]; the counter advances by the number of adjacency entries, and the loop invariant holds again |
| BestFirst.Start | SametDogan_MetroSimulation.py:100-101 | the queue holding only (estimate, 0, counter, start, [start]), with nothing finalised, satisfies the loop invariant once the counter has advanced |
| BestFirst.Found | SametDogan_MetroSimulation.py:106-107 | a queued entry at the target carries a route from start to target without repetitions, whose g is one of its travel times |
| BestFirst.Popped | SametDogan_MetroSimulation.py:104 | removing the served entry keeps every other entry a valid candidate, keeps push numbers distinct, and loses no pending station except possibly the served one |
| BestFirst.Skip | SametDogan_MetroSimulation.py:109-110 | dropping an entry whose station is already finalised at no more than its g keeps the loop invariant |
| BestFirst.Expand | SametDogan_MetroSimulation.py:109-111 | finalising a non-stale entry's station at g starts its expansion along a route without repetitions, and strictly shrinks the finite budget of possible expansions |
| BestFirst.Pushes | SametDogan_MetroSimulation.py:113-116 | one entry per adjacency entry, in order, the k-th being the Pushed entry for it with push number counter + k |
| BestFirst.PushesStep | SametDogan_MetroSimulation.py:113-116 | one more adjacency entry appends exactly its Pushed entry, numbered after the others |
| BestFirst.PushingStart | SametDogan_MetroSimulation.py:113 | before the neighbour loop nothing has been pushed and the loop invariant holds |
| BestFirst.PushingStep | SametDogan_MetroSimulation.py:113-116 | pushing the entry for the next adjacency entry, with the current counter as push number, keeps the loop invariant one entry further |
| BestFirst.Push | SametDogan_MetroSimulation.py:113-116 | the pushed entry adds the connection's minutes to g and the neighbour to the route, takes the current counter as its push number (greater than every queued one), and adds exactly its station to the pending ones |
| BestFirst.Finish | SametDogan_MetroSimulation.py:113-116 | after the whole adjacency list the queue is the old one followed by Pushes of it, the counter has advanced by its length, and every neighbour of every finalised station is finalised or pending again |
| BestFirst.Exhausted | SametDogan_MetroSimulation.py:103-118 | if the queue empties, the target is unreachable from start |
| BestFirst.CandidateKept | SametDogan_MetroSimulation.py:109-116 | a queued entry stays a valid candidate when finalised costs only go down and the counter only goes up |
| BestFirst.BudgetShrinks | SametDogan_MetroSimulation.py:109-111 | finalising a station below its previous allowance strictly shrinks the expansion budget |
| Routes.ExtendRoute | SametDogan_MetroSimulation.py:113-116 | extending a route along one adjacency entry of its last station gives a route whose travel times include the old time plus that entry's minutes |
| Routes.RouteHasTravelTime | SametDogan_MetroSimulation.py:113-116 | every route has at least one travel time |
| Routes.TravelTimeBound | SametDogan_MetroSimulation.py:109-116 | a route of n stations takes at most n - 1 times the longest single connection |
| Routes.DistinctLength | SametDogan_MetroSimulation.py:109-111 | a route without repetitions has at most as many stations as the network |
| PriorityQueue.Before | SametDogan_MetroSimulation.py:104-116 | tuple order on (f, g, push number): a smaller f always comes first, an entry never comes before one with a smaller f, and entries agreeing on all three are not ordered |
| PriorityQueue.BeforeTransitive | SametDogan_MetroSimulation.py:104-116 | the tuple order is transitive |
| PriorityQueue.BeforeTotal | SametDogan_MetroSimulation.py:100-116 | entries with different push numbers are ordered by (f, g, push number) one way or the other, never both |
| PriorityQueue.MinIndex | SametDogan_MetroSimulation.py:104 | the chosen entry is in the queue and no entry is ordered before it; with distinct push numbers it is ordered before every other entry, so the choice is unique |
| PriorityQueue.Remove | SametDogan_MetroSimulation.py:104 | removing one entry leaves the others as a multiset, shortens the queue by one, and loses no pending station but the removed entry's |
| PriorityQueue.PendingPush | SametDogan_MetroSimulation.py:116 | pushing an entry adds exactly its station to the pending stations |

## Left out

- The demonstration scenario at the end of the file (lines 122-185) is left out: it builds a sample network and prints results.
- `Istasyon.__repr__` (lines 19-20) only formats text for display.
- `Istasyon.__hash__` (lines 25-26) is Python's `hash` of the id. The model keys sets and maps by id, and the searches compare ids directly. `Registry.StationIdentity` connects the two: in a well-formed registry, `Stations.SameStation` holds of two stored stations exactly when they are stored under the same id.
- The text of the two `ValueError` messages is not modelled. Both failures are the single outcome `NotFound`.
- Station objects and object references are replaced by ids into the station map. Consequently a line lists station ids rather than station objects, and a route is a sequence of ids.
- The line map is a `defaultdict(list)`. It is modelled as a map with an empty default (`Registry.LineMembers`). Reading a missing line through the `defaultdict` would insert an empty list; the model never records that, and the source never reads it that way inside the core.
- Minutes are natural numbers. The source accepts any integer without checking it, and a negative duration is not modelled. With one, the fastest-route query need not terminate. For example, after `baglanti_ekle("a", "b", -1)` a query from a to a target that cannot be reached re-expands a and b forever, since each pass finalises them at a lower cost than before (lines 109-116).
- `heapq`'s binary-heap layout is replaced by a sequence from which the least entry is taken. This gives the same order on (f, g, push number), since push numbers are distinct, but not the same internal arrangement.
- `itertools.count` is the natural-number field `counter`, advanced by one per push.
- Metro.MetroNetwork.FastestRoute: does not state that the returned route is a fastest one. The estimate is not a lower bound on the remaining time (Stations.HeuristicOverestimates), so the search does not guarantee it.
