/**
 The city-to-city route resolver: it runs one search for every pair of an
 origin-city station and a destination-city station (origins outer,
 destinations inner, both in name order) and keeps the first pair whose
 route has the strictly smallest metric.

 Each search may create empty adjacency lists (the default-dictionary
 reads), so pair number k runs on the adjacency as the k - 1 earlier
 searches left it. The guarantees below are stated over the adjacency as it
 was when the resolver started; the two agree on every walk and cost.
 */
module Resolver {
  import opened Graph
  import opened Lookup
  import Bfs
  import Dijkstra

  const NoStations := "No se encontraron estaciones en una o ambas ciudades"
  const NoRoute := "No se encontró ninguna ruta entre las ciudades"

  datatype RouteResult =
    | NotFound(message: string)
    | Found(origin: (Code, string), destination: (Code, string), path: seq<Code>, metric: nat, algorithm: string)

  /** What a route is judged by: its number of hops for "bfs", its kilometres for any other algorithm name. */
  function Metric(adj: Adjacency, algorithm: string, w: seq<Code>): nat
    requires IsWalk(adj, w) && |w| > 0
  {
    if algorithm == "bfs" then |w| - 1 else Cost(adj, w)
  }

  /** The searches report a route from `o` to `d`. */
  ghost predicate Good(adj: Adjacency, stations: map<Code, Station>, o: Code, d: Code)
  {
    o in adj && d in stations && Reachable(adj, o, d)
  }

  /** No walk from `o` to `d` has a smaller metric than `m`. */
  ghost predicate NoWorse(adj: Adjacency, algorithm: string, o: Code, d: Code, m: nat)
  {
    forall w :: WalkFrom(adj, w, o, d) ==> m <= Metric(adj, algorithm, w)
  }

  /** Every walk from `o` to `d` has a larger metric than `m`. */
  ghost predicate Beats(adj: Adjacency, algorithm: string, o: Code, d: Code, m: nat)
  {
    forall w :: WalkFrom(adj, w, o, d) ==> m < Metric(adj, algorithm, w)
  }

  /**
   Walk `w` is near enough, compared with `w'`, that a search towards the end
   of `w'` has expanded the end of `w` before finishing: two hops shorter for
   "bfs", strictly cheaper otherwise.
   */
  ghost predicate Nearer(adj: Adjacency, algorithm: string, w: seq<Code>, w': seq<Code>)
    requires IsWalk(adj, w) && |w| > 0 && IsWalk(adj, w') && |w'| > 0
  {
    if algorithm == "bfs" then Metric(adj, algorithm, w) + 1 < Metric(adj, algorithm, w')
    else Metric(adj, algorithm, w) < Metric(adj, algorithm, w')
  }

  /**
   `keys` holds the list of every station the search from `o` to `d` must
   read: each station nearer to `o` than `d` is (each station reachable from
   `o`, when `d` is not).
   */
  ghost predicate Covers(adj: Adjacency, stations: map<Code, Station>, algorithm: string, o: Code, d: Code, keys: set<Code>)
  {
    o in adj && d in stations && o != d ==>
      forall c, w :: WalkFrom(adj, w, o, c) && (forall w' :: WalkFrom(adj, w', o, d) ==> Nearer(adj, algorithm, w, w'))
        ==> c in keys
  }

  /**
   One pair's search: breadth-first for "bfs", weighted otherwise. A route is
   reported exactly when the searches promise one, and its metric is the best
   any walk between the two stations achieves.
   */
  method Search(adj: Adjacency, stations: map<Code, Station>, algorithm: string, o: Code, d: Code)
    returns (path: seq<Code>, metric: nat, read: set<Code>)
    requires algorithm != "bfs" ==> TargetsKnown(adj, stations)
    ensures path == [] <==> !Good(adj, stations, o, d)
    ensures path != [] ==>
      WalkFrom(adj, path, o, d) && metric == Metric(adj, algorithm, path) && NoWorse(adj, algorithm, o, d, metric)
    ensures Covers(adj, stations, algorithm, o, d, read)
    ensures forall c :: c in read ==> Reachable(adj, o, c)
    ensures o !in adj ==> read == {}
  {
    if algorithm == "bfs" {
      path, metric, read := Bfs.ShortestPath(adj, stations, o, d);
      forall c, w | o in adj && d in stations && o != d && WalkFrom(adj, w, o, c)
        && (forall w' :: WalkFrom(adj, w', o, d) ==> Nearer(adj, algorithm, w, w'))
        ensures c in read
      {
        assert forall w' :: WalkFrom(adj, w', o, d) ==> |w| + 1 < |w'|;
      }
    } else {
      path, metric, read := Dijkstra.ShortestPath(adj, stations, o, d);
      forall c, w | o in adj && d in stations && o != d && WalkFrom(adj, w, o, c)
        && (forall w' :: WalkFrom(adj, w', o, d) ==> Nearer(adj, algorithm, w, w'))
        ensures c in read
      {
        assert forall w' :: WalkFrom(adj, w', o, d) ==> Cost(adj, w) < Cost(adj, w');
      }
    }
  }

  /** Creating empty lists changes no walk, so what a search must read is the same. */
  lemma CoversLift(adj: Adjacency, adj': Adjacency, stations: map<Code, Station>, algorithm: string,
                   o: Code, d: Code, keys: set<Code>, keys': set<Code>)
    requires KeysGrown(adj, adj') && keys <= keys'
    requires Covers(adj', stations, algorithm, o, d, keys)
    ensures Covers(adj, stations, algorithm, o, d, keys')
  {
    forall c, w | o in adj && d in stations && o != d && WalkFrom(adj, w, o, c)
      && (forall w' :: WalkFrom(adj, w', o, d) ==> Nearer(adj, algorithm, w, w'))
      ensures c in keys'
    {
      KeysGrownWalk(adj, adj', w);
      forall w' | WalkFrom(adj', w', o, d)
        ensures Nearer(adj', algorithm, w, w')
      {
        KeysGrownWalk(adj, adj', w');
        assert WalkFrom(adj, w', o, d);
      }
      assert WalkFrom(adj', w, o, c);
    }
  }

  /** A code reachable over the grown lists is reachable over the original ones. */
  lemma ReachLift(adj: Adjacency, adj': Adjacency, o: Code, c: Code)
    requires KeysGrown(adj, adj') && Reachable(adj', o, c)
    ensures Reachable(adj, o, c)
  {
    var w :| WalkFrom(adj', w, o, c);
    KeysGrownWalk(adj, adj', w);
    assert WalkFrom(adj, w, o, c);
  }

  /** Every pair searched before `(i, j)` has had its lists read into `keys`. */
  ghost predicate CoveredBefore(adj: Adjacency, stations: map<Code, Station>, algorithm: string,
                                origins: seq<(Code, string)>, destinations: seq<(Code, string)>,
                                i: nat, j: nat, keys: set<Code>)
  {
    forall a, b :: 0 <= a < |origins| && 0 <= b < |destinations| && Before(a, b, i, j) ==>
      Covers(adj, stations, algorithm, origins[a].0, destinations[b].0, keys)
  }

  /** `c` is reachable from one of the first `n` origin stations that was a key of `adj`. */
  ghost predicate FromAnOrigin(adj: Adjacency, origins: seq<(Code, string)>, n: nat, c: Code)
  {
    exists a :: 0 <= a < n && a < |origins| && origins[a].0 in adj && Reachable(adj, origins[a].0, c)
  }

  /**
   Every code in `keys` outside `adj` is reachable from one of the first `n`
   origin stations that was a key of `adj`: the rows searched so far.
   */
  ghost predicate FromOrigins(adj: Adjacency, origins: seq<(Code, string)>, n: nat, keys: set<Code>)
  {
    forall c :: c in keys && c !in adj ==> FromAnOrigin(adj, origins, n, c)
  }

  /**
   What a search from origin `i` reaches over the grown lists is reachable
   from an origin that was a key at the start: the origin itself, or, when it
   became a key during the call, the origin whose search created it.
   */
  lemma OriginReaches(adj: Adjacency, current: Adjacency, origins: seq<(Code, string)>, i: nat, c: Code)
    requires i < |origins| && KeysGrown(adj, current) && FromOrigins(adj, origins, i + 1, current.Keys)
    requires origins[i].0 in current && Reachable(current, origins[i].0, c)
    ensures FromAnOrigin(adj, origins, i + 1, c)
  {
    var o := origins[i].0;
    if o in adj {
      ReachLift(adj, current, o, c);
      assert origins[i].0 in adj && Reachable(adj, origins[i].0, c);
    } else {
      var a :| 0 <= a < i + 1 && a < |origins| && origins[a].0 in adj && Reachable(adj, origins[a].0, o);
      var u :| WalkFrom(adj, u, origins[a].0, o);
      KeysGrownWalk(adj, current, u);
      assert WalkFrom(current, u, origins[a].0, o);
      ReachJoin(current, origins[a].0, o, c);
      ReachLift(adj, current, origins[a].0, c);
    }
  }

  /**
   The two station lists of one call: every listed code is a stored station,
   and the lists are the same list (one city) or share no code (two cities).
   */
  ghost predicate CityLists(stations: map<Code, Station>, origins: seq<(Code, string)>, destinations: seq<(Code, string)>)
  {
    && (forall a :: 0 <= a < |origins| ==> origins[a].0 in stations)
    && (origins == destinations ||
        forall a, b :: 0 <= a < |origins| && 0 <= b < |destinations| ==> origins[a].0 != destinations[b].0)
  }

  /** A station has one city, so the stations of two cities are the same list or disjoint. */
  lemma ByCityLists(codes: seq<Code>, stations: map<Code, Station>, originCity: string, destinationCity: string)
    ensures CityLists(stations, StationsByCity(codes, stations, originCity), StationsByCity(codes, stations, destinationCity))
  {
    var origins := StationsByCity(codes, stations, originCity);
    var destinations := StationsByCity(codes, stations, destinationCity);
    StationsByCitySpec(codes, stations, originCity);
    StationsByCitySpec(codes, stations, destinationCity);
    forall a | 0 <= a < |origins|
      ensures origins[a].0 in stations && stations[origins[a].0].city == originCity
    {
      assert origins[a] in origins;
    }
    forall b | 0 <= b < |destinations|
      ensures destinations[b].0 in stations && stations[destinations[b].0].city == destinationCity
    {
      assert destinations[b] in destinations;
    }
  }

  /**
   An origin that became a key only during the call has an empty list, so
   the only route from it is to itself, with metric 0; and the origin whose
   search created that key, an earlier row, already gave the leader metric 0.
   */
  lemma LateOrigin(adj: Adjacency, current: Adjacency, stations: map<Code, Station>, algorithm: string,
                   origins: seq<(Code, string)>, destinations: seq<(Code, string)>, i: nat, j: nat,
                   best: Option<Best>, path: seq<Code>, metric: nat)
    requires i < |origins| && j < |destinations| && KeysGrown(adj, current)
    requires CityLists(stations, origins, destinations)
    requires FromOrigins(adj, origins, i + 1, current.Keys)
    requires Sound(adj, stations, algorithm, origins, destinations, i, j, best)
    requires origins[i].0 in current && origins[i].0 !in adj
    requires WalkFrom(current, path, origins[i].0, destinations[j].0) && metric == Metric(current, algorithm, path)
    ensures path == [origins[i].0] && metric == 0
    ensures best.Some? && best.value.metric == 0
  {
    var p := origins[i].0;
    assert Succ(current, p) == [];
    assert |path| == 1 by {
      if |path| > 1 {
        WalkStep(current, path, 1);
      }
    }
    assert path == [p];
    var a :| 0 <= a < i + 1 && a < |origins| && origins[a].0 in adj && Reachable(adj, origins[a].0, p);
    assert origins == destinations by {
      assert origins[i].0 == destinations[j].0;
    }
    var o := origins[a].0;
    assert WalkFrom(adj, [o], o, o) && Metric(adj, algorithm, [o]) == 0;
    assert Good(adj, stations, origins[a].0, destinations[a].0) && Before(a, a, i, j);
  }

  /** The searches of one more pair add its lists and keep the earlier ones. */
  lemma CoveredStep(adj: Adjacency, current: Adjacency, stations: map<Code, Station>, algorithm: string,
                    origins: seq<(Code, string)>, destinations: seq<(Code, string)>, i: nat, j: nat,
                    read: set<Code>, next: Adjacency)
    requires i < |origins| && j < |destinations|
    requires KeysGrown(adj, current) && next.Keys == current.Keys + read
    requires CoveredBefore(adj, stations, algorithm, origins, destinations, i, j, current.Keys)
    requires Covers(current, stations, algorithm, origins[i].0, destinations[j].0, read)
    ensures CoveredBefore(adj, stations, algorithm, origins, destinations, i, j + 1, next.Keys)
  {
    forall a, b | 0 <= a < |origins| && 0 <= b < |destinations| && Before(a, b, i, j + 1)
      ensures Covers(adj, stations, algorithm, origins[a].0, destinations[b].0, next.Keys)
    {
      if Before(a, b, i, j) {
        CoversLift(adj, adj, stations, algorithm, origins[a].0, destinations[b].0, current.Keys, next.Keys);
      } else {
        CoversLift(adj, current, stations, algorithm, origins[i].0, destinations[j].0, read, next.Keys);
      }
    }
  }

  lemma FromOriginsStep(adj: Adjacency, current: Adjacency, origins: seq<(Code, string)>, i: nat,
                        read: set<Code>, next: Adjacency)
    requires i < |origins| && KeysGrown(adj, current) && next.Keys == current.Keys + read
    requires FromOrigins(adj, origins, i + 1, current.Keys)
    requires forall c :: c in read ==> Reachable(current, origins[i].0, c)
    requires origins[i].0 !in current ==> read == {}
    ensures FromOrigins(adj, origins, i + 1, next.Keys)
  {
    forall c | c in next.Keys && c !in adj
      ensures FromAnOrigin(adj, origins, i + 1, c)
    {
      if c in read {
        OriginReaches(adj, current, origins, i, c);
      }
    }
  }

  /** Creating empty lists changes neither which pairs have a route nor the metric of any walk. */
  lemma Lift(adj: Adjacency, adj': Adjacency, stations: map<Code, Station>, algorithm: string,
             o: Code, d: Code, path: seq<Code>, metric: nat)
    requires KeysGrown(adj, adj')
    requires path == [] <==> !Good(adj', stations, o, d)
    requires path != [] ==>
      WalkFrom(adj', path, o, d) && metric == Metric(adj', algorithm, path) && NoWorse(adj', algorithm, o, d, metric)
    ensures path == [] ==> !Good(adj, stations, o, d)
    ensures path != [] ==>
      WalkFrom(adj, path, o, d) && metric == Metric(adj, algorithm, path) && NoWorse(adj, algorithm, o, d, metric)
  {
    if path == [] && o in adj && d in stations && Reachable(adj, o, d) {
      var w :| WalkFrom(adj, w, o, d);
      KeysGrownWalk(adj, adj', w);
      assert WalkFrom(adj', w, o, d);
    }
    if path != [] {
      KeysGrownWalk(adj, adj', path);
      forall w | WalkFrom(adj, w, o, d) ensures metric <= Metric(adj, algorithm, w) {
        KeysGrownWalk(adj, adj', w);
        assert WalkFrom(adj', w, o, d);
      }
    }
  }

  /** The best pair so far: its position in the two station lists, its route and the route's metric. */
  datatype Best = Best(i: nat, j: nat, path: seq<Code>, metric: nat)

  /** Pair `(a, b)` is searched before pair `(i, j)`. */
  predicate Before(a: nat, b: nat, i: nat, j: nat)
  {
    a < i || (a == i && b < j)
  }

  /** No pair searched before `(i, j)` has a route. */
  ghost predicate NoneFound(adj: Adjacency, stations: map<Code, Station>, origins: seq<(Code, string)>,
                            destinations: seq<(Code, string)>, i: nat, j: nat)
  {
    forall a, b :: 0 <= a < |origins| && 0 <= b < |destinations| && Before(a, b, i, j) ==>
      !Good(adj, stations, origins[a].0, destinations[b].0)
  }

  /**
   `c` is the winner among the pairs searched before `(i, j)`: its pair has a
   route and `c`'s route is a walk between its two stations, no searched pair
   with a route does better, and every pair with a route searched before it
   does strictly worse.
   */
  ghost predicate Leading(adj: Adjacency, stations: map<Code, Station>, algorithm: string,
                          origins: seq<(Code, string)>, destinations: seq<(Code, string)>, i: nat, j: nat, c: Best)
  {
    && c.i < |origins| && c.j < |destinations| && Before(c.i, c.j, i, j)
    && origins[c.i].0 in adj && destinations[c.j].0 in stations
    && WalkFrom(adj, c.path, origins[c.i].0, destinations[c.j].0)
    && c.metric == Metric(adj, algorithm, c.path)
    && NoneBetter(adj, stations, algorithm, origins, destinations, i, j, c.metric)
    && AllWorse(adj, stations, algorithm, origins, destinations, c.i, c.j, c.metric)
  }

  /** No pair with a route searched before `(i, j)` has a walk whose metric is below `m`. */
  ghost predicate NoneBetter(adj: Adjacency, stations: map<Code, Station>, algorithm: string,
                             origins: seq<(Code, string)>, destinations: seq<(Code, string)>, i: nat, j: nat, m: nat)
  {
    forall a, b ::
      (0 <= a < |origins| && 0 <= b < |destinations| && Before(a, b, i, j)
       && Good(adj, stations, origins[a].0, destinations[b].0)) ==>
      NoWorse(adj, algorithm, origins[a].0, destinations[b].0, m)
  }

  /** Every pair with a route searched before `(i, j)` has only walks whose metric is above `m`. */
  ghost predicate AllWorse(adj: Adjacency, stations: map<Code, Station>, algorithm: string,
                           origins: seq<(Code, string)>, destinations: seq<(Code, string)>, i: nat, j: nat, m: nat)
  {
    forall a, b ::
      (0 <= a < |origins| && 0 <= b < |destinations| && Before(a, b, i, j)
       && Good(adj, stations, origins[a].0, destinations[b].0)) ==>
      Beats(adj, algorithm, origins[a].0, destinations[b].0, m)
  }

  ghost predicate Sound(adj: Adjacency, stations: map<Code, Station>, algorithm: string,
                        origins: seq<(Code, string)>, destinations: seq<(Code, string)>, i: nat, j: nat, best: Option<Best>)
  {
    match best
    case None => NoneFound(adj, stations, origins, destinations, i, j)
    case Some(c) => Leading(adj, stations, algorithm, origins, destinations, i, j, c)
  }

  /** A pair whose route is no better than the leader's keeps the leader in front. */
  lemma KeepLeader(adj: Adjacency, stations: map<Code, Station>, algorithm: string,
                   origins: seq<(Code, string)>, destinations: seq<(Code, string)>, i: nat, j: nat, c: Best,
                   path: seq<Code>, metric: nat)
    requires i < |origins| && j < |destinations|
    requires Leading(adj, stations, algorithm, origins, destinations, i, j, c)
    requires path == [] ==> !Good(adj, stations, origins[i].0, destinations[j].0)
    requires path != [] ==> c.metric <= metric && NoWorse(adj, algorithm, origins[i].0, destinations[j].0, metric)
    ensures Leading(adj, stations, algorithm, origins, destinations, i, j + 1, c)
  {
    forall a, b | 0 <= a < |origins| && 0 <= b < |destinations| && Before(a, b, i, j + 1)
      && Good(adj, stations, origins[a].0, destinations[b].0)
      ensures NoWorse(adj, algorithm, origins[a].0, destinations[b].0, c.metric)
    {
      if !Before(a, b, i, j) {
        assert NoWorse(adj, algorithm, origins[i].0, destinations[j].0, metric);
      }
    }
  }

  /** A pair whose route beats the leader's, or the first pair with a route, takes the lead. */
  lemma NewLeader(adj: Adjacency, stations: map<Code, Station>, algorithm: string,
                  origins: seq<(Code, string)>, destinations: seq<(Code, string)>, i: nat, j: nat, best: Option<Best>,
                  path: seq<Code>, metric: nat)
    requires i < |origins| && j < |destinations|
    requires Sound(adj, stations, algorithm, origins, destinations, i, j, best)
    requires best.Some? ==> metric < best.value.metric
    requires path != [] && WalkFrom(adj, path, origins[i].0, destinations[j].0)
    requires Good(adj, stations, origins[i].0, destinations[j].0)
    requires metric == Metric(adj, algorithm, path) && NoWorse(adj, algorithm, origins[i].0, destinations[j].0, metric)
    ensures Leading(adj, stations, algorithm, origins, destinations, i, j + 1, Best(i, j, path, metric))
  {
    if best.Some? {
      Overtake(adj, stations, algorithm, origins, destinations, i, j, best.value, metric);
    }
    forall a, b | 0 <= a < |origins| && 0 <= b < |destinations| && Before(a, b, i, j + 1)
      && Good(adj, stations, origins[a].0, destinations[b].0)
      ensures NoWorse(adj, algorithm, origins[a].0, destinations[b].0, metric)
    {
      if Before(a, b, i, j) {
        assert Beats(adj, algorithm, origins[a].0, destinations[b].0, metric);
      }
    }
  }

  /** Every pair the old leader did no worse than does strictly worse than a route that beats the leader. */
  lemma Overtake(adj: Adjacency, stations: map<Code, Station>, algorithm: string,
                 origins: seq<(Code, string)>, destinations: seq<(Code, string)>, i: nat, j: nat, c: Best, metric: nat)
    requires Leading(adj, stations, algorithm, origins, destinations, i, j, c) && metric < c.metric
    ensures AllWorse(adj, stations, algorithm, origins, destinations, i, j, metric)
  {
    forall a, b | 0 <= a < |origins| && 0 <= b < |destinations| && Before(a, b, i, j)
      && Good(adj, stations, origins[a].0, destinations[b].0)
      ensures Beats(adj, algorithm, origins[a].0, destinations[b].0, metric)
    {
      assert NoWorse(adj, algorithm, origins[a].0, destinations[b].0, c.metric);
    }
  }

  /** The step of the inner loop: one more pair has been searched. */
  lemma Step(adj: Adjacency, stations: map<Code, Station>, algorithm: string,
             origins: seq<(Code, string)>, destinations: seq<(Code, string)>, i: nat, j: nat, best: Option<Best>,
             path: seq<Code>, metric: nat, best': Option<Best>)
    requires i < |origins| && j < |destinations|
    requires Sound(adj, stations, algorithm, origins, destinations, i, j, best)
    requires path == [] ==> !Good(adj, stations, origins[i].0, destinations[j].0)
    requires path != [] ==>
      && WalkFrom(adj, path, origins[i].0, destinations[j].0)
      && metric == Metric(adj, algorithm, path)
      && NoWorse(adj, algorithm, origins[i].0, destinations[j].0, metric)
    requires path != [] && (best.None? || metric < best.value.metric) ==> Good(adj, stations, origins[i].0, destinations[j].0)
    requires best' == if path != [] && (best.None? || metric < best.value.metric) then Some(Best(i, j, path, metric)) else best
    ensures Sound(adj, stations, algorithm, origins, destinations, i, j + 1, best')
  {
    if path != [] && (best.None? || metric < best.value.metric) {
      NewLeader(adj, stations, algorithm, origins, destinations, i, j, best, path, metric);
    } else if best.Some? {
      KeepLeader(adj, stations, algorithm, origins, destinations, i, j, best.value, path, metric);
    }
  }

  /** Past the last destination of row `i` comes the first of row `i + 1`. */
  lemma NextRow(adj: Adjacency, stations: map<Code, Station>, algorithm: string,
                origins: seq<(Code, string)>, destinations: seq<(Code, string)>, i: nat, best: Option<Best>)
    requires Sound(adj, stations, algorithm, origins, destinations, i, |destinations|, best)
    ensures Sound(adj, stations, algorithm, origins, destinations, i + 1, 0, best)
  {
  }

  lemma NextRowCovered(adj: Adjacency, stations: map<Code, Station>, algorithm: string,
                       origins: seq<(Code, string)>, destinations: seq<(Code, string)>, i: nat, keys: set<Code>)
    requires CoveredBefore(adj, stations, algorithm, origins, destinations, i, |destinations|, keys)
    ensures CoveredBefore(adj, stations, algorithm, origins, destinations, i + 1, 0, keys)
  {
  }

  /** Searches every destination from origin number `i`. */
  method ScanRow(adj: Adjacency, stations: map<Code, Station>, algorithm: string,
                 origins: seq<(Code, string)>, destinations: seq<(Code, string)>, i: nat,
                 current: Adjacency, best: Option<Best>)
    returns (current': Adjacency, best': Option<Best>)
    requires algorithm != "bfs" ==> TargetsKnown(adj, stations)
    requires i < |origins| && KeysGrown(adj, current)
    requires Sound(adj, stations, algorithm, origins, destinations, i, 0, best)
    requires CoveredBefore(adj, stations, algorithm, origins, destinations, i, 0, current.Keys)
    requires CityLists(stations, origins, destinations)
    requires FromOrigins(adj, origins, i + 1, current.Keys)
    ensures KeysGrown(adj, current')
    ensures Sound(adj, stations, algorithm, origins, destinations, i, |destinations|, best')
    ensures CoveredBefore(adj, stations, algorithm, origins, destinations, i, |destinations|, current'.Keys)
    ensures FromOrigins(adj, origins, i + 1, current'.Keys)
  {
    current', best' := current, best;
    for j := 0 to |destinations|
      invariant KeysGrown(adj, current')
      invariant Sound(adj, stations, algorithm, origins, destinations, i, j, best')
      invariant CoveredBefore(adj, stations, algorithm, origins, destinations, i, j, current'.Keys)
      invariant FromOrigins(adj, origins, i + 1, current'.Keys)
    {
      current', best' := ScanPair(adj, stations, algorithm, origins, destinations, i, j, current', best');
    }
  }

  /** Searches the pair `(i, j)` and keeps its route when it is strictly better than the best so far. */
  method ScanPair(adj: Adjacency, stations: map<Code, Station>, algorithm: string,
                  origins: seq<(Code, string)>, destinations: seq<(Code, string)>, i: nat, j: nat,
                  current: Adjacency, best: Option<Best>)
    returns (current': Adjacency, best': Option<Best>)
    requires algorithm != "bfs" ==> TargetsKnown(adj, stations)
    requires i < |origins| && j < |destinations| && KeysGrown(adj, current)
    requires Sound(adj, stations, algorithm, origins, destinations, i, j, best)
    requires CoveredBefore(adj, stations, algorithm, origins, destinations, i, j, current.Keys)
    requires CityLists(stations, origins, destinations)
    requires FromOrigins(adj, origins, i + 1, current.Keys)
    ensures KeysGrown(adj, current')
    ensures Sound(adj, stations, algorithm, origins, destinations, i, j + 1, best')
    ensures CoveredBefore(adj, stations, algorithm, origins, destinations, i, j + 1, current'.Keys)
    ensures FromOrigins(adj, origins, i + 1, current'.Keys)
  {
    if algorithm != "bfs" {
      KeysGrownKnown(adj, current, stations);
    }
    var path, metric, read := Search(current, stations, algorithm, origins[i].0, destinations[j].0);
    Lift(adj, current, stations, algorithm, origins[i].0, destinations[j].0, path, metric);
    if path != [] && origins[i].0 !in adj {
      LateOrigin(adj, current, stations, algorithm, origins, destinations, i, j, best, path, metric);
    }
    best' := best;
    if path != [] && (best.None? || metric < best.value.metric) {
      best' := Some(Best(i, j, path, metric));
    }
    Step(adj, stations, algorithm, origins, destinations, i, j, best, path, metric, best');
    current' := AddKeys(current, read);
    CoveredStep(adj, current, stations, algorithm, origins, destinations, i, j, read, current');
    FromOriginsStep(adj, current, origins, i, read, current');
    KeysGrownTrans(adj, current, current');
  }

  /**
   The outcome the resolver promises for the two station lists it searched:
   "no stations" exactly when a list is empty; otherwise "no route" exactly
   when no pair of stations is connected, and else the leading pair.
   */
  ghost predicate Resolved(adj: Adjacency, stations: map<Code, Station>, algorithm: string,
                           origins: seq<(Code, string)>, destinations: seq<(Code, string)>,
                           result: RouteResult, wi: nat, wj: nat)
  {
    && ((origins == [] || destinations == []) <==> result == NotFound(NoStations))
    && (origins != [] && destinations != [] ==>
          (result.NotFound? <==> NoneFound(adj, stations, origins, destinations, |origins|, 0)))
    && (result.NotFound? && origins != [] && destinations != [] ==> result.message == NoRoute)
    && (result.Found? ==>
          && wi < |origins| && wj < |destinations|
          && result.origin == origins[wi] && result.destination == destinations[wj]
          && result.algorithm == algorithm && result.path != []
          && Leading(adj, stations, algorithm, origins, destinations, |origins|, 0,
                     Best(wi, wj, result.path, result.metric)))
  }

  /**
   The best route between two cities. `codes` lists the station codes in
   insertion order; the returned adjacency is `adj` with the empty lists the
   searches created. The ghost results name the winning pair's positions in
   the two station lists.
   */
  method BestRoute(adj: Adjacency, stations: map<Code, Station>, codes: seq<Code>,
                   originCity: string, destinationCity: string, algorithm: string)
    returns (result: RouteResult, adj': Adjacency, ghost wi: nat, ghost wj: nat)
    requires algorithm != "bfs" ==> TargetsKnown(adj, stations)
    ensures KeysGrown(adj, adj')
    ensures Resolved(adj, stations, algorithm, StationsByCity(codes, stations, originCity),
                     StationsByCity(codes, stations, destinationCity), result, wi, wj)
    ensures CoveredBefore(adj, stations, algorithm, StationsByCity(codes, stations, originCity),
                          StationsByCity(codes, stations, destinationCity),
                          |StationsByCity(codes, stations, originCity)|, 0, adj'.Keys)
    ensures FromOrigins(adj, StationsByCity(codes, stations, originCity), |StationsByCity(codes, stations, originCity)|, adj'.Keys)
  {
    var origins := StationsByCity(codes, stations, originCity);
    var destinations := StationsByCity(codes, stations, destinationCity);
    adj', wi, wj := adj, 0, 0;
    if origins == [] || destinations == [] {
      return NotFound(NoStations), adj', wi, wj;
    }
    ByCityLists(codes, stations, originCity, destinationCity);
    var best: Option<Best> := None;
    for i := 0 to |origins|
      invariant KeysGrown(adj, adj')
      invariant Sound(adj, stations, algorithm, origins, destinations, i, 0, best)
      invariant CoveredBefore(adj, stations, algorithm, origins, destinations, i, 0, adj'.Keys)
      invariant FromOrigins(adj, origins, i, adj'.Keys)
    {
      adj', best := ScanRow(adj, stations, algorithm, origins, destinations, i, adj', best);
      NextRow(adj, stations, algorithm, origins, destinations, i, best);
      NextRowCovered(adj, stations, algorithm, origins, destinations, i, adj'.Keys);
    }
    match best
    case None =>
      result := NotFound(NoRoute);
    case Some(c) =>
      result := Found(origins[c.i], destinations[c.j], c.path, c.metric, algorithm);
      wi, wj := c.i, c.j;
  }
}
