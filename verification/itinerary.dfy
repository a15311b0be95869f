/**
 The per-station itinerary of a route: one entry for every code of the path
 that names a known station, numbered by its position in the path, with the
 length of the connection to the next code where the adjacency lists one.
 */
module Itinerary {
  import opened Graph

  datatype Detail = Detail(step: nat, code: Code, name: string, city: string, distanceToNext: Option<nat>)

  /** The distance of the first entry of `es` that leads to `v`. */
  function Leg(es: seq<Edge>, v: Code): Option<nat>
  {
    if es == [] then None
    else if es[0].target == v then Some(es[0].distance)
    else Leg(es[1..], v)
  }

  /** `Leg` finds a connection exactly when one exists, and it is the first one in list order. */
  lemma {:induction false} LegSpec(es: seq<Edge>, v: Code)
    ensures Leg(es, v).None? <==> !Links(es, v)
    ensures Leg(es, v).Some? ==>
      exists k :: 0 <= k < |es| && es[k] == Edge(v, Leg(es, v).value) && forall m :: 0 <= m < k ==> es[m].target != v
  {
    if es != [] && es[0].target != v {
      LegSpec(es[1..], v);
      if Links(es, v) {
        LinksTail(es, v);
      }
      if Links(es[1..], v) {
        var i :| 0 <= i < |es[1..]| && es[1..][i].target == v;
        assert es[i + 1].target == v;
      }
      if Leg(es, v).Some? {
        var k :| 0 <= k < |es[1..]| && es[1..][k] == Edge(v, Leg(es, v).value) && forall m :: 0 <= m < k ==> es[1..][m].target != v;
        assert es[k + 1] == es[1..][k];
        assert forall m :: 1 <= m < k + 1 ==> es[m] == es[1..][m - 1];
      }
    }
  }

  /**
   Between consecutive stations of a walk the itinerary always reports a
   distance; it is never below the hop the searches charge (the cheapest
   connection) and equals it when `u` lists a single connection to `v`.
   */
  lemma LegAgainstHop(adj: Adjacency, u: Code, v: Code)
    requires HasEdge(adj, u, v)
    ensures Leg(Succ(adj, u), v).Some?
    ensures Hop(adj, u, v) <= Leg(Succ(adj, u), v).value
    ensures (forall a, b :: 0 <= a < b < |Succ(adj, u)| ==> Succ(adj, u)[a].target != v || Succ(adj, u)[b].target != v)
      ==> Leg(Succ(adj, u), v).value == Hop(adj, u, v)
  {
    var es := Succ(adj, u);
    LegSpec(es, v);
    var k :| 0 <= k < |es| && es[k] == Edge(v, Leg(es, v).value) && forall m :: 0 <= m < k ==> es[m].target != v;
    assert es[k].target == v;
  }

  /** Scans the list for the first connection to `v` and stops there. */
  method FindLeg(es: seq<Edge>, v: Code) returns (r: Option<nat>)
    ensures r == Leg(es, v)
  {
    r := None;
    var i := 0;
    while i < |es|
      invariant 0 <= i <= |es|
      invariant Leg(es[i..], v) == Leg(es, v)
    {
      if es[i].target == v {
        r := Some(es[i].distance);
        break;
      }
      assert es[i..][1..] == es[i + 1..];
      i := i + 1;
    }
  }

  /** The entry for position `i` of `path`, which holds a known station. */
  function DetailAt(adj: Adjacency, stations: map<Code, Station>, path: seq<Code>, i: nat): Detail
    requires i < |path| && path[i] in stations
  {
    var s := stations[path[i]];
    Detail(i + 1, path[i], s.name, s.city,
           if i < |path| - 1 then Leg(Succ(adj, path[i]), path[i + 1]) else None)
  }

  /** The entries for the first `n` positions of `path`. */
  function Details(adj: Adjacency, stations: map<Code, Station>, path: seq<Code>, n: nat): seq<Detail>
    requires n <= |path|
  {
    if n == 0 then []
    else Details(adj, stations, path, n - 1) + (if path[n - 1] in stations then [DetailAt(adj, stations, path, n - 1)] else [])
  }

  /** The codes among the first `n` positions whose adjacency list the itinerary consults. */
  function Consulted(stations: map<Code, Station>, path: seq<Code>, n: nat): set<Code>
    requires n <= |path|
  {
    if n == 0 then {}
    else Consulted(stations, path, n - 1) + (if path[n - 1] in stations && n < |path| then {path[n - 1]} else {})
  }

  /** Every entry describes the known station at position `step - 1` of the path. */
  lemma {:induction false} DetailsDescribe(adj: Adjacency, stations: map<Code, Station>, path: seq<Code>, n: nat)
    requires n <= |path|
    ensures forall m :: 0 <= m < |Details(adj, stations, path, n)| ==>
      var d := Details(adj, stations, path, n)[m];
      1 <= d.step <= n && path[d.step - 1] in stations && d == DetailAt(adj, stations, path, d.step - 1)
  {
    if n > 0 {
      DetailsDescribe(adj, stations, path, n - 1);
      var r, r' := Details(adj, stations, path, n - 1), Details(adj, stations, path, n);
      assert forall m :: 0 <= m < |r| ==> r'[m] == r[m];
    }
  }

  /** Steps increase strictly along the itinerary, so it follows the path's order. */
  lemma {:induction false} DetailsOrdered(adj: Adjacency, stations: map<Code, Station>, path: seq<Code>, n: nat)
    requires n <= |path|
    ensures forall m, m' :: 0 <= m < m' < |Details(adj, stations, path, n)| ==>
      Details(adj, stations, path, n)[m].step < Details(adj, stations, path, n)[m'].step
  {
    if n > 0 {
      DetailsOrdered(adj, stations, path, n - 1);
      DetailsDescribe(adj, stations, path, n - 1);
      var r, r' := Details(adj, stations, path, n - 1), Details(adj, stations, path, n);
      assert forall m :: 0 <= m < |r| ==> r'[m] == r[m];
    }
  }

  /** Some entry of `r` is numbered `step`. */
  predicate HasStep(r: seq<Detail>, step: nat)
  {
    exists m :: 0 <= m < |r| && r[m].step == step
  }

  /** No known station of the path is skipped. */
  lemma {:induction false} DetailsComplete(adj: Adjacency, stations: map<Code, Station>, path: seq<Code>, n: nat)
    requires n <= |path|
    ensures forall k :: 0 <= k < n && path[k] in stations ==> HasStep(Details(adj, stations, path, n), k + 1)
  {
    if n > 0 {
      DetailsComplete(adj, stations, path, n - 1);
      var r, r' := Details(adj, stations, path, n - 1), Details(adj, stations, path, n);
      forall k | 0 <= k < n && path[k] in stations
        ensures HasStep(r', k + 1)
      {
        if k < n - 1 {
          var m :| 0 <= m < |r| && r[m].step == k + 1;
          assert r'[m] == r[m];
        } else {
          assert r'[|r|].step == n;
        }
      }
    }
  }

  /** Every consulted code is a known station that is followed by another code of the path. */
  lemma {:induction false} ConsultedSpec(stations: map<Code, Station>, path: seq<Code>, n: nat)
    requires n <= |path|
    ensures forall c :: c in Consulted(stations, path, n) <==>
      exists k :: 0 <= k < n && k < |path| - 1 && path[k] in stations && path[k] == c
  {
    if n > 0 {
      ConsultedSpec(stations, path, n - 1);
    }
  }

  /**
   Builds the itinerary of `path` and reports which adjacency lists it read,
   so that the caller can record the empty lists a default dictionary creates.
   */
  method RouteDetails(adj: Adjacency, stations: map<Code, Station>, path: seq<Code>)
    returns (details: seq<Detail>, read: set<Code>)
    ensures details == Details(adj, stations, path, |path|)
    ensures read == Consulted(stations, path, |path|)
  {
    details, read := [], {};
    for i := 0 to |path|
      invariant details == Details(adj, stations, path, i)
      invariant read == Consulted(stations, path, i)
    {
      var code := path[i];
      if code in stations {
        var info := stations[code];
        var next: Option<nat> := None;
        if i < |path| - 1 {
          read := read + {code};
          next := FindLeg(Succ(adj, code), path[i + 1]);
        }
        details := details + [Detail(i + 1, code, info.name, info.city, next)];
      }
    }
  }
}
