/**
 Read-only queries of the graph store over its station table: a record by
 code, the cities served, the stations of one city, and the summary counts.

 `codes` lists the station codes in the order they were first inserted,
 which is the iteration order of the store's dictionary.
 */
module Lookup {
  import opened Graph
  import opened Text

  /** The record stored under `code`, if any. */
  function Info(stations: map<Code, Station>, code: Code): Option<Station>
  {
    if code in stations then Some(stations[code]) else None
  }

  /** Inserting a record makes it the answer for its code and changes no other answer. */
  lemma InfoAfterInsert(stations: map<Code, Station>, code: Code, s: Station, other: Code)
    ensures Info(stations[code := s], code) == Some(s)
    ensures other != code ==> Info(stations[code := s], other) == Info(stations, other)
  {
  }

  /** The `(code, name)` pairs of the stations of `city`, in the order of `codes`. */
  function CityMembers(codes: seq<Code>, stations: map<Code, Station>, city: string): seq<(Code, string)>
  {
    if codes == [] then []
    else
      (if codes[0] in stations && stations[codes[0]].city == city then [(codes[0], stations[codes[0]].name)] else [])
      + CityMembers(codes[1..], stations, city)
  }

  /** A pair is listed exactly when its code is a listed station of `city` and the name is that station's. */
  lemma {:induction false} CityMembersSpec(codes: seq<Code>, stations: map<Code, Station>, city: string)
    ensures forall p :: p in CityMembers(codes, stations, city) <==>
      p.0 in codes && p.0 in stations && stations[p.0].city == city && p.1 == stations[p.0].name
  {
    if codes != [] {
      CityMembersSpec(codes[1..], stations, city);
      assert codes == [codes[0]] + codes[1..];
    }
  }

  /** The stations of `city`, sorted by name; stations with equal names keep their insertion order. */
  function StationsByCity(codes: seq<Code>, stations: map<Code, Station>, city: string): seq<(Code, string)>
  {
    SortByName(CityMembers(codes, stations, city))
  }

  /**
   The list is sorted by name, holds exactly the stations of `city`, and
   stations sharing a name appear in insertion order.
   */
  lemma StationsByCitySpec(codes: seq<Code>, stations: map<Code, Station>, city: string)
    ensures SortedByName(StationsByCity(codes, stations, city))
    ensures forall p :: p in StationsByCity(codes, stations, city) <==>
      p.0 in codes && p.0 in stations && stations[p.0].city == city && p.1 == stations[p.0].name
    ensures forall name :: WithName(StationsByCity(codes, stations, city), name) == WithName(CityMembers(codes, stations, city), name)
  {
    var m := CityMembers(codes, stations, city);
    SortByNameSorted(m);
    forall name ensures WithName(SortByName(m), name) == WithName(m, name) {
      SortByNameStable(m, name);
    }
    CityMembersSpec(codes, stations, city);
    forall p ensures p in SortByName(m) <==> p in m {
      assert p in multiset(SortByName(m)) <==> p in multiset(m);
    }
  }

  /** The city of every listed station, in the order of `codes`, repeats included. */
  function CityList(codes: seq<Code>, stations: map<Code, Station>): (r: seq<string>)
    ensures |r| <= |codes|
  {
    if codes == [] then []
    else (if codes[0] in stations then [stations[codes[0]].city] else []) + CityList(codes[1..], stations)
  }

  lemma {:induction false} CityListSpec(codes: seq<Code>, stations: map<Code, Station>)
    ensures forall y :: y in CityList(codes, stations) <==> exists c :: c in codes && c in stations && stations[c].city == y
  {
    if codes != [] {
      CityListSpec(codes[1..], stations);
      assert codes == [codes[0]] + codes[1..];
    }
  }

  /** The cities served, each once, in increasing order. */
  function Cities(codes: seq<Code>, stations: map<Code, Station>): seq<string>
  {
    SortedSet(CityList(codes, stations))
  }

  /** The city list is strictly increasing and holds exactly the cities of the stored stations. */
  lemma CitiesSpec(codes: seq<Code>, stations: map<Code, Station>)
    requires forall c :: c in stations ==> c in codes
    ensures Increasing(Cities(codes, stations))
    ensures forall y :: y in Cities(codes, stations) <==> exists c :: c in stations && stations[c].city == y
  {
    SortedSetSpec(CityList(codes, stations));
    CityListSpec(codes, stations);
  }

  lemma {:induction false} InsertUniqueLength(x: string, s: seq<string>)
    ensures |InsertUnique(x, s)| <= |s| + 1
    decreases |s|
  {
    if s != [] && !Less(x, s[0]) && x != s[0] {
      InsertUniqueLength(x, s[1..]);
    }
  }

  lemma {:induction false} SortedSetLength(xs: seq<string>)
    ensures |SortedSet(xs)| <= |xs|
  {
    if xs != [] {
      SortedSetLength(xs[..|xs| - 1]);
      InsertUniqueLength(xs[|xs| - 1], SortedSet(xs[..|xs| - 1]));
    }
  }

  /** A duplicate-free sequence has as many elements as its set. */
  lemma {:induction false} DistinctCard<T>(s: seq<T>)
    requires Distinct(s)
    ensures |(set x | x in s)| == |s|
  {
    if s != [] {
      var t := s[1..];
      assert Distinct(t) by {
        forall a, b | 0 <= a < b < |t| ensures t[a] != t[b] { assert t[a] == s[a + 1] && t[b] == s[b + 1]; }
      }
      DistinctCard(t);
      assert s[0] !in t by {
        forall a | 0 <= a < |t| ensures t[a] != s[0] { assert t[a] == s[a + 1]; }
      }
      assert (set x | x in s) == (set x | x in t) + {s[0]};
    }
  }

  /** When `codes` lists every stored code once, there are as many stations as codes. */
  lemma CodesCount(codes: seq<Code>, stations: map<Code, Station>)
    requires Distinct(codes) && forall c :: c in codes <==> c in stations
    ensures |stations| == |codes|
  {
    DistinctCard(codes);
    assert (set x | x in codes) == stations.Keys;
  }

  /** The summary the store reports about itself. */
  datatype Stats = Stats(totalStations: nat, totalConnections: nat, totalCities: nat, avgConnections: real)

  function Statistics(codes: seq<Code>, stations: map<Code, Station>, edgesCount: nat): Stats
  {
    Stats(|stations|, edgesCount, |Cities(codes, stations)|,
          if |stations| == 0 then 0.0 else edgesCount as real / |stations| as real)
  }

  /**
   With `codes` listing every stored code once: the city count is the number
   of distinct cities of the stations, hence no more than the stations; the
   average is the connection count spread over the stations, and 0 when
   there are none.
   */
  lemma StatisticsSpec(codes: seq<Code>, stations: map<Code, Station>, edgesCount: nat)
    requires Distinct(codes) && forall c :: c in codes <==> c in stations
    ensures Statistics(codes, stations, edgesCount).totalCities == |set c | c in stations :: stations[c].city|
    ensures Statistics(codes, stations, edgesCount).totalCities <= Statistics(codes, stations, edgesCount).totalStations
    ensures Statistics(codes, stations, edgesCount).totalStations == |codes|
    ensures |stations| == 0 ==> Statistics(codes, stations, edgesCount).avgConnections == 0.0
    ensures |stations| > 0 ==>
      Statistics(codes, stations, edgesCount).avgConnections * |stations| as real == edgesCount as real
  {
    CodesCount(codes, stations);
    SortedSetLength(CityList(codes, stations));
    CitiesCount(codes, stations);
  }

  /** `get_cities` lists each city of the stored stations exactly once. */
  lemma CitiesCount(codes: seq<Code>, stations: map<Code, Station>)
    requires forall c :: c in stations ==> c in codes
    ensures |Cities(codes, stations)| == |set c | c in stations :: stations[c].city|
  {
    var r := Cities(codes, stations);
    CitiesSpec(codes, stations);
    IncreasingCard(r);
    assert (set y | y in r) == (set c | c in stations :: stations[c].city);
  }
}
