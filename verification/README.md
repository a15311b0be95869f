# SmartPath+ railway graph, modelled in Dafny

This project models `RailwayGraph`, the graph store and route engine of the
SmartPath+ railway planner. The store keeps a table of stations keyed by code
(name, city, latitude, longitude). It keeps directed adjacency lists of
`(target, distance)` connections and a count of the connections added. On top
of these it answers:

- station lookups, the list of cities, and the stations of one city sorted by name;
- a fewest-stops route (breadth-first search);
- a shortest-distance route (Dijkstra's algorithm with a binary heap and lazy deletion);
- the best route between two *cities*, found by trying every pair of their stations;
- the itinerary of a route, a fare estimate, a time estimate and summary statistics.

Layout, one module per file:

| file | module | what it holds |
|---|---|---|
| `graph.dfy` | `Graph` | stations, connections, walks and their cost in km, default-dictionary key growth |
| `text.dfy` | `Text` | string order by code point, `sorted(set(...))`, and the stable sort by name |
| `lookup.dfy` | `Lookup` | station info, cities, stations of a city, statistics |
| `bfs.dfy` | `Bfs` | breadth-first search as an imperative loop with its invariants |
| `dijkstra.dfy` | `SearchState`, `Dijkstra` | Dijkstra's search state and invariants; the loop, the relaxation and the path rebuild |
| `resolver.dfy` | `Resolver` | the city-to-city resolver |
| `itinerary.dfy` | `Itinerary` | route details |
| `fares.dfy` | `Fares` | price and time estimates |
| `railway.dfy` | `Railway` | the `RailwayGraph` class, whose methods update the store's fields |

Notes on how the model reads the code:

- **Default-dictionary reads.** `adjacency_list` is a `defaultdict(list)`, so
  indexing an absent code inserts an empty list. Both searches and
  `get_route_details` do this. The searches and the itinerary take the maps as
  values and return the set of codes they read. The class methods then add
  those codes as empty-list keys (`Graph.AddKeys`).
  - This matters for correctness: the searches' first test is "start is a key
    of the adjacency".
  - The class methods' contracts state that every new key holds an empty list
    (`Graph.KeysGrown`). The separate lemma `Graph.KeysGrownWalk` shows that
    such keys change no walk and no cost.
  - The search contracts also bound the new keys from both sides. Every new
    key is reachable from the start station. Every station the search must
    have expanded becomes a key (`Bfs.BfsReads`, `Dijkstra.DijkstraReads`,
    `Resolver.CoveredBefore`).
  - When a path is found, a single search's new keys also lie no farther
    than the end. For the breadth-first search each has a walk from the start
    with fewer stations than the path (`Bfs.WithinStations`). For Dijkstra
    each has a walk from the start costing at most the distance
    (`Dijkstra.AllWithinKm`).
  - So although the graph is only built at start-up, the searches and the
    itinerary add adjacency keys, and a later search can see them.
- **Insertion order.** Dictionary iteration order is kept as the field `codes`.
  It decides the order of equal names in `get_stations_by_city`, and through
  it the resolver's tie-breaks.
  - The code sorts by name only, with Python's stable sort. Equal names are not
    ordered by code; they keep insertion order.
- **The heap.** Dijkstra's heap is a set of `(distance, code)` entries. Each pop
  takes *some* entry of least distance.
- **The resolver's winner.** The resolver contract pins down the winning pair
  exactly, over the adjacency as it was when the call began:
  - its origin was a key then, its destination is a station, and it has a route;
  - no pair with a route does better;
  - every pair with a route tried before it does strictly worse.

  The code also tries pairs whose origin became a key only during the call.
  Such an origin has an empty list, so it routes only to itself, at metric 0.
  That pair never takes the lead (`Resolver.LateOrigin`):
  - its station belongs to both cities, so the two cities are one and both
    lists are the same (`Resolver.ByCityLists`);
  - the origin whose search created the key comes in an earlier row;
  - its own self-pair has already put metric 0 in front.

## Model

| member | source | states |
|---|---|---|
| Railway.RailwayGraph.constructor | graph_algorithms.py:16-20 | the store starts with no stations, no adjacency lists and a zero connection count |
| Railway.RailwayGraph.AddStation | graph_algorithms.py:22-38 | the record is stored under its code, overwriting an old one; other codes keep their records; a new code goes last in iteration order; adjacency and count unchanged |
| Railway.RailwayGraph.AddEdge | graph_algorithms.py:40-50 | the connection is appended to the source's list (created if absent), no other list changes, and the count grows by exactly one |
| Railway.RailwayGraph.GetStationInfo | graph_algorithms.py:52-54 | the stored record for a known code, `None` for an unknown one |
| Lookup.InfoAfterInsert | graph_algorithms.py:22-38 | after an insert, lookup of that code gives the new record, and lookups of every other code are unchanged |
| Railway.RailwayGraph.GetCities | graph_algorithms.py:56-59 | the cities are strictly increasing (sorted, no duplicates) and are exactly the cities of the stored stations |
| Lookup.CitiesSpec | graph_algorithms.py:56-59 | `sorted(set(cities))` is strictly increasing and holds exactly the stored cities |
| Text.SortedSetSpec | graph_algorithms.py:58-59 | building the sorted set gives a strictly increasing list with exactly the elements of the input |
| Text.InsertUniqueSpec | graph_algorithms.py:58-59 | inserting into a strictly increasing list keeps it so and adds exactly the new element |
| Railway.RailwayGraph.GetStationsByCity | graph_algorithms.py:61-71 | sorted by name; holds exactly the `(code, name)` pairs of the city's stations; equal names keep insertion order |
| Lookup.CityMembersSpec | graph_algorithms.py:68-70 | the comprehension lists a pair exactly when its code is a stored station of that city and the name is that station's |
| Lookup.StationsByCitySpec | graph_algorithms.py:61-71 | sorted by name; same members as the comprehension; for every name, the pairs with that name come in comprehension order |
| Text.SortByNameSorted | graph_algorithms.py:71 | the key sort yields a list sorted by name that is a permutation of its input |
| Text.SortByNameStable | graph_algorithms.py:71 | the key sort is stable: for each name, the pairs with that name keep their input order |
| Text.InsertByNameSorted | graph_algorithms.py:71 | one insertion step keeps a name-sorted list sorted |
| Text.InsertByNameStable | graph_algorithms.py:71 | one insertion step places the new pair after every pair with the same name |
| Text.LessTotal | graph_algorithms.py:59 | the code-point order on strings is total on distinct strings |
| Railway.RailwayGraph.GetStatistics | graph_algorithms.py:305-312 | station and connection counts are reported as stored; the city count is the number of distinct cities of the stations, so never more than the stations; the average is 0 with no stations and otherwise is connections divided by stations |
| Lookup.StatisticsSpec | graph_algorithms.py:305-312 | with every code listed once: the city count is the number of distinct cities of the stored stations and at most the station count; the average is 0 with no stations and otherwise is connections divided by stations |
| Lookup.CitiesCount | graph_algorithms.py:310 | `len(get_cities())` equals the number of distinct cities among the stored stations |
| Lookup.CodesCount | graph_algorithms.py:308 | the station count equals the number of codes in iteration order |
| Railway.RailwayGraph.BfsShortestPath | graph_algorithms.py:73-114 | the breadth-first outcome stated for `Bfs.ShortestPath` holds for the adjacency before the call; the lists read become empty keys, each a code reachable from the start; every station at least two stops nearer than the end (every reachable station, when the end is unreachable) and every station of the path but the last becomes a key; when a path is found, every new key has a walk from the start with fewer stations than the path |
| Bfs.ShortestPath | graph_algorithms.py:73-114 | unknown start or end gives `([], 0)` even when start equals end; start equals end gives `([start], 0)`; otherwise a path is returned exactly when the end is reachable, and it is a simple walk from start to end with the fewest stations of any walk, with `stops = len(path) - 1`; the lists read include those of every station at least two stops nearer than the end (all reachable stations when the end is unreachable) and of every station of the path but the last; when a path is found, every list read belongs to a station with a walk from the start of fewer stations than the path |
| Bfs.Explore | graph_algorithms.py:93-114 | the queue loop: the same outcome once the early returns are past; every code whose list it reads is reachable from the start, and the lists it must read are among them; with a path found, every code read has a walk from the start of fewer stations than the path |
| Bfs.Expand | graph_algorithms.py:96-111 | one turn of the queue loop: on meeting the end it returns a fewest-stations walk, every list the search must have read, and only lists of stations with a walk of fewer stations than that path; otherwise the loop invariant holds again, every list read belongs to a station at most as many stops away as the new front of the queue, and the count of unvisited stations or the queue shrinks |
| Bfs.ReadCurrent | graph_algorithms.py:96-99 | reading the list of the popped station keeps every read station within one more station than the popped path |
| Bfs.ScanNeighbours | graph_algorithms.py:100-111 | the neighbour scan of one popped station: when it meets the end it returns a fewest-stations walk together with every list the search must have read; otherwise the queue invariant holds again, the visited set has only grown, and the queue is untouched when nothing new was visited |
| Bfs.ScanStep | graph_algorithms.py:100-111 | one turn of the neighbour scan: a visited neighbour is skipped; an unvisited one other than the end is marked and enqueued with its path; the queue keeps shortest paths in level order |
| Bfs.PopFront | graph_algorithms.py:96-98 | the popped entry holds a shortest simple walk to its station, and the rest of the queue keeps the invariant |
| Bfs.Arrive | graph_algorithms.py:104-108 | reaching the end as an unvisited neighbour gives a shortest simple walk to it |
| Bfs.FrontierBound | graph_algorithms.py:96-111 | every walk to an unvisited station has at least one more station than the path at the front of the queue, so no shorter path is overlooked |
| Bfs.NearRead | graph_algorithms.py:96-108 | when the end turns up next to the station being expanded, every station with a shorter walk than that station's path, and every station of the path, has had its list read |
| Bfs.ArriveReads | graph_algorithms.py:104-108 | the answer returned on arrival comes with every list the search must have read |
| Bfs.ExhaustedReads | graph_algorithms.py:96-114 | when the queue runs dry, the list of every station reachable from the start has been read |
| Railway.RailwayGraph.DijkstraShortestPath | graph_algorithms.py:116-179 | the weighted outcome stated for `Dijkstra.ShortestPath` holds for the adjacency before the call; the lists read become empty keys, each a code reachable from the start; every station strictly nearer than the end (every reachable station, when the end is unreachable) becomes a key; when a path is found, every new key has a walk from the start costing at most the distance |
| Dijkstra.ShortestPath | graph_algorithms.py:116-179 | unknown start or end gives `([], 0)` even when start equals end; start equals end gives `([start], 0)`; otherwise a path is returned exactly when the end is reachable; it is a walk from start to end whose cost is the returned distance, and no walk costs less; the lists read include those of every station strictly nearer than the end (all reachable stations when the end is unreachable); when a path is found, every list read belongs to a station with a walk from the start costing at most the distance |
| Dijkstra.Explore | graph_algorithms.py:135-179 | the heap loop: the same outcome once the early returns are past; every code whose list it reads is reachable from the start, and the lists it must read are among them; with a path found, every code read has a walk from the start costing at most the distance |
| Dijkstra.Expand | graph_algorithms.py:146-176 | one turn of the heap loop: popping the end returns an optimal walk, its cost, every list the search must have read, and only lists of stations no farther than the end; otherwise the loop invariant holds again, the lists read are those of the settled stations, and the count of unsettled stations or the heap shrinks |
| Dijkstra.Arrival | graph_algorithms.py:155-162 | popping the end answers the search: the rebuilt path is optimal and nonempty, the settled stations include every station strictly nearer, and each of them is reachable and no farther than the end |
| Dijkstra.SettledWithin | graph_algorithms.py:146-152 | while the end's entry is in the heap, every settled station has a walk from the start costing at most that entry's distance |
| Dijkstra.Relax | graph_algorithms.py:169-176 | one relaxation of the settled station's list: the tentative distances, predecessors, ghost walks and heap keep the invariant for one more list entry, and the settled set is unchanged |
| Dijkstra.Reverse | graph_algorithms.py:161 | the reversed path has the same length and holds at position `k` the element at position `len - 1 - k` |
| Dijkstra.Pop | graph_algorithms.py:146-163 | popping a least entry drops a settled station's entry, or settles the station at the popped distance; settling the end yields an optimal walk as the answer |
| Dijkstra.PopOptimal | graph_algorithms.py:146-152 | the least heap distance is at most the cost of any walk to an unsettled station |
| Dijkstra.PopFresh | graph_algorithms.py:148-152 | the first pop of a station settles it at its tentative distance, which is optimal; the settled/queued invariants hold after it |
| Dijkstra.PopStale | graph_algorithms.py:149-150 | skipping an entry of a settled station keeps every invariant |
| Dijkstra.RelaxNeighbours | graph_algorithms.py:168-176 | relaxing every connection of the station just settled restores the loop invariant and settles nothing else |
| Dijkstra.RelaxStep | graph_algorithms.py:169-176 | one relaxation either lowers the neighbour's tentative distance, records the predecessor and pushes an entry, or changes nothing; either way the invariant holds for one more entry |
| Dijkstra.RelaxImproves | graph_algorithms.py:171-176 | an improving relaxation keeps the predecessor tree, the heap bookkeeping and the optimality of settled stations |
| Dijkstra.Exhausted | graph_algorithms.py:178-179 | an empty heap before the end is settled means the end is unreachable, so `([], 0)` is correct, and every station reachable from the start has been settled |
| Dijkstra.SettledBelow | graph_algorithms.py:146-152 | when a least entry is popped, every station with a cheaper walk than its distance is already settled, so its list has been read |
| Dijkstra.ArriveReads | graph_algorithms.py:155-162 | settling the end leaves read the lists of every station strictly nearer than the end |
| Dijkstra.Rebuild | graph_algorithms.py:155-162 | following the predecessors back from the end, appending the start and reversing gives the walk the search built to the end |
| Resolver.BestRoute | graph_algorithms.py:181-235 | the "no stations" message exactly when a city has no stations; otherwise "no route" exactly when no pair of stations is connected; when found, the origin and destination are stations of the two lists, the origin was an adjacency key, the path is a walk between them and the metric is its length (bfs) or cost (any other name); no pair with a route does better, and every pair with a route tried earlier does strictly worse; for every pair whose origin was a key, the lists that pair's search must read become keys, and every new key is reachable from an origin station |
| Resolver.Search | graph_algorithms.py:210-216 | "bfs" runs the breadth-first search and any other name runs Dijkstra; a route is reported exactly when the pair is connected, and its metric is the best any walk achieves; the lists read are reachable from the origin and include those the chosen search must read |
| Resolver.ScanRow | graph_algorithms.py:209-227 | the inner loop over destinations keeps, as leader, the first strictly best pair among those tried, a pair with a route whose origin was a key; the new keys stay reachable from an origin of the rows searched so far |
| Resolver.ScanPair | graph_algorithms.py:210-227 | searching one pair keeps in the lead the first strictly best pair, a pair with a route whose origin was a key; it adds that pair's required reads to the keys, and keeps every new key reachable from an origin of the rows searched so far |
| Resolver.OriginReaches | graph_algorithms.py:208-216 | a station reachable, over the grown adjacency, from the origin of row `i`, now a key, is reachable over the original adjacency from an origin of a row up to `i` that was a key |
| Resolver.LateOrigin | graph_algorithms.py:208-227 | a pair whose origin became a key only during the call routes only to itself, at metric 0, and by then the leader already has metric 0, so the strict comparison keeps it in front |
| Resolver.ByCityLists | graph_algorithms.py:61-71 | the station lists of two cities hold stored stations and are the same list or share no code |
| Resolver.FromOriginsStep | graph_algorithms.py:208-216 | adding the lists one search of row `i` read keeps every new key reachable from an origin of a row up to `i` that was a key |
| Resolver.Step | graph_algorithms.py:218-227 | one pair: a route with a strictly smaller metric (or the first route) takes the lead; any other outcome keeps it |
| Resolver.NewLeader | graph_algorithms.py:218-227 | a route that beats the leader, or the first route found, becomes the leader, and every earlier pair with a route does strictly worse |
| Resolver.KeepLeader | graph_algorithms.py:218 | a pair without a route, or with a metric not smaller, leaves the leader in front |
| Resolver.Lift | graph_algorithms.py:208-216 | the empty lists created by earlier searches change neither which pairs have a route nor any walk's metric |
| Resolver.CoversLift | graph_algorithms.py:208-216 | the lists a search must read are the same over the grown adjacency as over the original, and more keys still cover them |
| Resolver.CoveredStep | graph_algorithms.py:208-216 | one more pair searched adds that pair's required reads to the keys and keeps those of the earlier pairs |
| Railway.RailwayGraph.FindBestRouteBetweenCities | graph_algorithms.py:181-235 | the resolver outcome for the city station lists, over the adjacency before the call, reporting no route exactly when no pair of stations is connected, and otherwise the first pair with the least metric among the pairs with a route, whose origin was a key; the adjacency only gains empty keys; every pair's required reads become keys and every new key is reachable from an origin station |
| Itinerary.RouteDetails | graph_algorithms.py:237-269 | the itinerary equals the per-position specification, and the lists read are exactly those of known stations that have a next code |
| Itinerary.FindLeg | graph_algorithms.py:261-265 | the scan returns the distance of the first connection to the next code, and nothing when there is none |
| Itinerary.LegSpec | graph_algorithms.py:261-265 | the first-match distance is absent exactly when no connection leads to the next code; otherwise it is the distance of the first such connection in list order |
| Itinerary.LegAgainstHop | graph_algorithms.py:261-265 | along a walk a leg distance is always present; it is at least the cheapest connection the searches charge, and equal to it when there is a single connection |
| Itinerary.DetailsDescribe | graph_algorithms.py:248-258 | each entry describes the known station at path position `step - 1`, with its name and city, and the next distance only when it is not the last position |
| Itinerary.DetailsOrdered | graph_algorithms.py:248-267 | steps strictly increase along the itinerary |
| Itinerary.DetailsComplete | graph_algorithms.py:248-267 | every known station of the path has an entry; unknown codes are skipped |
| Itinerary.ConsultedSpec | graph_algorithms.py:259-262 | the adjacency lists read are exactly those of known stations followed by another code |
| Railway.RailwayGraph.GetRouteDetails | graph_algorithms.py:237-269 | the itinerary of the path over the adjacency before the call; the lists read become empty keys |
| Fares.Price | graph_algorithms.py:271-285 | the fare is the £5.00 base plus £0.15 per km, so never below the base for a non-negative distance |
| Fares.PriceOf200Km | graph_algorithms.py:283-285 | 200 km costs £35.00 |
| Fares.PriceMonotone | graph_algorithms.py:283-285 | a longer journey never costs less |
| Fares.Time | graph_algorithms.py:287-303 | distance over 80 km/h, plus 0.05 h per station after the first when there are more than one |
| Fares.TimeOf200KmFiveStations | graph_algorithms.py:299-303 | 200 km through 5 stations takes 2.7 h |
| Fares.TimeMonotone | graph_algorithms.py:299-303 | more stations on the same distance never take less time |
| Graph.MinWeight | graph_algorithms.py:169-173 | the cheapest connection to a neighbour is one of its list entries and no entry to it is cheaper |
| Graph.AddKeys | graph_algorithms.py:18 | the default dictionary after reads: exactly the old keys plus the codes read, old lists unchanged and each new key an empty list |
| Graph.WalkJoin | graph_algorithms.py:96-111 | a walk to a station followed by a walk from it is a walk; the searches' reachability composes |
| Graph.KeysGrownWalk | graph_algorithms.py:100 | adding empty lists changes no walk and no cost |
| Graph.ClosedUnreachable | graph_algorithms.py:96-114 | no walk leaves a set closed under the adjacency, so a search that exhausts such a set rightly reports no path |

## Left out

- Floating point. Distances are natural numbers of km; fares and times are exact reals. The `round(..., 2)` of the price, time and average is not applied.
- Negative or fractional distances are not representable. The shortest-path guarantees assume non-negative distances, as the searches do.
- Heap tie-breaking. Dijkstra pops some least entry, not Python's `(distance, code)` order, so the model does not fix which of several equally short paths is returned.
- Railway.RailwayGraph.DijkstraShortestPath: requires every connection target to be a stored station. The code raises `KeyError` only when it relaxes such a connection; the model turns the error into this stronger precondition.
- Resolver.BestRoute: requires the same condition whenever the algorithm name is not "bfs".
- Railway.RailwayGraph.BfsShortestPath: when a path is found, the new keys are bounded from below and above, not given exactly.
  - Below: every station at least two stops nearer than the end, and the path's stations but the last. Above: stations with a walk of fewer stations than the path.
  - So only stations exactly one stop nearer than the end, off the path, are left open. Whether the code expands them depends on list order.
  - With the end unreachable, both bounds are the reachable stations, so the keys are exact.
- Railway.RailwayGraph.DijkstraShortestPath: when a path is found, only stations exactly as far as the end are left open; which of them are settled depends on the heap order.
- Railway.RailwayGraph.FindBestRouteBetweenCities: the lower bound is kept pair by pair, for pairs whose origin was an adjacency key when the call began; the upper bound is weaker than the searches'.
  - The contract bounds the new keys only by reachability from an origin station that was a key.
  - Each pair search's own "no farther than the end" bound is not carried through the loop. So stations farther than every destination may appear as new keys under the contract, though no search of the code reads them.
- Latitude and longitude are stored but no modelled operation uses them.
- The heuristic (A*) search and the web layer in app.py are not part of this model.
- Python's dictionaries as results become datatypes:
  - the route dictionaries become `Resolver.RouteResult`;
  - the `found` flag is its constructor;
  - a missing `distance_to_next` is `None`;
  - the statistics become `Lookup.Stats`.
- The `algorithm` parameter has no default value. Callers pass it.
- `calculate_price` and `calculate_time` read nothing from the store, so they are module functions rather than class methods.
- The connection count is not tied to the number of adjacency entries. It counts `add_edge` calls, which is how the code keeps it.
