/**
 The graph store: a station table keyed by code, directed adjacency lists
 that reads fill in with empty lists, and a count of the connections added.
 */
module Railway {
  import opened Graph
  import opened Text
  import opened Lookup
  import Bfs
  import Dijkstra
  import Itinerary
  import Resolver

  class RailwayGraph {
    /** Station codes in the order they were first inserted (the dictionary's iteration order). */
    var codes: seq<Code>
    var stations: map<Code, Station>
    var adjacency: Adjacency
    var edgesCount: nat

    /** Every stored code is listed exactly once. */
    ghost predicate Valid()
      reads this
    {
      Distinct(codes) && forall c :: c in codes <==> c in stations
    }

    constructor()
      ensures Valid()
      ensures codes == [] && stations == map[] && adjacency == map[] && edgesCount == 0
    {
      codes, stations, adjacency, edgesCount := [], map[], map[], 0;
    }

    /** Stores (or overwrites) the record under `code`; a new code goes to the end of the iteration order. */
    method AddStation(code: Code, name: string, city: string, lat: real, lon: real)
      requires Valid()
      modifies this
      ensures Valid()
      ensures stations == old(stations)[code := Station(name, city, lat, lon)]
      ensures codes == if code in old(stations) then old(codes) else old(codes) + [code]
      ensures adjacency == old(adjacency) && edgesCount == old(edgesCount)
    {
      if code !in stations {
        codes := codes + [code];
      }
      stations := stations[code := Station(name, city, lat, lon)];
    }

    /** Appends a connection to the list of `source` (creating it if absent) and counts it. */
    method AddEdge(source: Code, target: Code, distance: nat)
      requires Valid()
      modifies this
      ensures Valid()
      ensures adjacency == old(adjacency)[source := Succ(old(adjacency), source) + [Edge(target, distance)]]
      ensures edgesCount == old(edgesCount) + 1
      ensures codes == old(codes) && stations == old(stations)
    {
      adjacency := adjacency[source := Succ(adjacency, source) + [Edge(target, distance)]];
      edgesCount := edgesCount + 1;
    }

    /** The record stored under `code`; `None` for an unknown code. */
    function GetStationInfo(code: Code): (r: Option<Station>)
      reads this
      ensures r.Some? <==> code in stations
      ensures r.Some? ==> r.value == stations[code]
    {
      Info(stations, code)
    }

    /** The cities served, each once, in increasing order. */
    function GetCities(): (r: seq<string>)
      requires Valid()
      reads this
      ensures Increasing(r)
      ensures forall y :: y in r <==> exists c :: c in stations && stations[c].city == y
    {
      CitiesSpec(codes, stations);
      Cities(codes, stations)
    }

    /** The `(code, name)` pairs of the stations of `city`, sorted by name, equal names in insertion order. */
    function GetStationsByCity(city: string): (r: seq<(Code, string)>)
      requires Valid()
      reads this
      ensures SortedByName(r)
      ensures forall p :: p in r <==> p.0 in stations && stations[p.0].city == city && p.1 == stations[p.0].name
      ensures forall name :: WithName(r, name) == WithName(CityMembers(codes, stations, city), name)
    {
      StationsByCitySpec(codes, stations, city);
      StationsByCity(codes, stations, city)
    }

    /** The station, connection and city counts, and the mean number of connections per station. */
    function GetStatistics(): (r: Stats)
      requires Valid()
      reads this
      ensures r.totalStations == |stations| && r.totalConnections == edgesCount
      ensures r.totalCities == |set c | c in stations :: stations[c].city|
      ensures r.totalCities <= r.totalStations
      ensures r.totalStations == 0 ==> r.avgConnections == 0.0
      ensures r.totalStations > 0 ==> r.avgConnections * r.totalStations as real == edgesCount as real
    {
      StatisticsSpec(codes, stations, edgesCount);
      Statistics(codes, stations, edgesCount)
    }

    /**
     Fewest-stops route. The lists read on the way become keys, each holding
     an empty list: every such key is a station reachable from `start`, and
     the stations the search must have expanded are among them.
     */
    method BfsShortestPath(start: Code, end: Code) returns (path: seq<Code>, stops: nat)
      requires Valid()
      modifies this
      ensures Valid()
      ensures Bfs.BfsOutcome(old(adjacency), stations, start, end, path, stops)
      ensures KeysGrown(old(adjacency), adjacency)
      ensures Bfs.BfsReads(old(adjacency), stations, start, end, path, adjacency.Keys)
      ensures forall c :: c in adjacency && c !in old(adjacency) ==> Reachable(old(adjacency), start, c)
      ensures path != [] ==> forall c :: c in adjacency && c !in old(adjacency) ==> Bfs.WithinStations(old(adjacency), start, c, |path|)
      ensures codes == old(codes) && stations == old(stations) && edgesCount == old(edgesCount)
    {
      var read;
      path, stops, read := Bfs.ShortestPath(adjacency, stations, start, end);
      adjacency := AddKeys(adjacency, read);
    }

    /** Shortest route by kilometres; every connection target must be a stored station. */
    method DijkstraShortestPath(start: Code, end: Code) returns (path: seq<Code>, distance: nat)
      requires Valid() && TargetsKnown(adjacency, stations)
      modifies this
      ensures Valid() && TargetsKnown(adjacency, stations)
      ensures Dijkstra.DijkstraOutcome(old(adjacency), stations, start, end, path, distance)
      ensures KeysGrown(old(adjacency), adjacency)
      ensures Dijkstra.DijkstraReads(old(adjacency), stations, start, end, adjacency.Keys)
      ensures forall c :: c in adjacency && c !in old(adjacency) ==> Reachable(old(adjacency), start, c)
      ensures path != [] ==> Dijkstra.AllWithinKm(old(adjacency), start, adjacency.Keys - old(adjacency).Keys, distance)
      ensures codes == old(codes) && stations == old(stations) && edgesCount == old(edgesCount)
    {
      var read;
      path, distance, read := Dijkstra.ShortestPath(adjacency, stations, start, end);
      adjacency := AddKeys(adjacency, read);
    }

    /**
     Best route between two cities over every pair of their stations. The
     lists every pair's search must read become keys, and every new key is
     reachable from some station of the origin city.
     */
    method FindBestRouteBetweenCities(originCity: string, destinationCity: string, algorithm: string)
      returns (result: Resolver.RouteResult, ghost wi: nat, ghost wj: nat)
      requires Valid() && (algorithm != "bfs" ==> TargetsKnown(adjacency, stations))
      modifies this
      ensures Valid()
      ensures Resolver.Resolved(old(adjacency), stations, algorithm, StationsByCity(codes, stations, originCity),
                                StationsByCity(codes, stations, destinationCity), result, wi, wj)
      ensures KeysGrown(old(adjacency), adjacency)
      ensures Resolver.CoveredBefore(old(adjacency), stations, algorithm, StationsByCity(codes, stations, originCity),
                                     StationsByCity(codes, stations, destinationCity),
                                     |StationsByCity(codes, stations, originCity)|, 0, adjacency.Keys)
      ensures Resolver.FromOrigins(old(adjacency), StationsByCity(codes, stations, originCity),
                                   |StationsByCity(codes, stations, originCity)|, adjacency.Keys)
      ensures codes == old(codes) && stations == old(stations) && edgesCount == old(edgesCount)
    {
      result, adjacency, wi, wj := Resolver.BestRoute(adjacency, stations, codes, originCity, destinationCity, algorithm);
    }

    /** The itinerary of `path`; the lists it reads become keys. */
    method GetRouteDetails(path: seq<Code>) returns (details: seq<Itinerary.Detail>)
      requires Valid()
      modifies this
      ensures Valid()
      ensures details == Itinerary.Details(old(adjacency), stations, path, |path|)
      ensures adjacency == AddKeys(old(adjacency), Itinerary.Consulted(stations, path, |path|))
      ensures codes == old(codes) && stations == old(stations) && edgesCount == old(edgesCount)
    {
      var read;
      details, read := Itinerary.RouteDetails(adjacency, stations, path);
      adjacency := AddKeys(adjacency, read);
    }
  }
}
