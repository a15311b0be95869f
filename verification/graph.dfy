/**
 The railway network as plain values: station records, directed weighted
 adjacency lists, walks over them and their cost in kilometres.

 The adjacency map mirrors the `defaultdict(list)` of the graph store: a code
 that is not a key has no outgoing connections, and a key may hold an empty
 list (keys are created by reads as well as by inserts).
 */
module Graph {

  type Code = string

  datatype Option<T> = None | Some(value: T)

  /** A station record as the store keeps it under its code. */
  datatype Station = Station(name: string, city: string, lat: real, lon: real)

  /** One adjacency entry: a directed connection to `target`, `distance` km long. */
  datatype Edge = Edge(target: Code, distance: nat)

  type Adjacency = map<Code, seq<Edge>>

  /** The outgoing list of `u` as an indexed read of the default dictionary sees it. */
  function Succ(adj: Adjacency, u: Code): seq<Edge>
  {
    if u in adj then adj[u] else []
  }

  /** Some entry of `es` leads to `v`. */
  predicate Links(es: seq<Edge>, v: Code)
  {
    exists i :: 0 <= i < |es| && es[i].target == v
  }

  predicate HasEdge(adj: Adjacency, u: Code, v: Code)
  {
    Links(Succ(adj, u), v)
  }

  /** Every neighbour of `x` lies in `s`. */
  predicate Closed(adj: Adjacency, x: Code, s: set<Code>)
  {
    forall i :: 0 <= i < |Succ(adj, x)| ==> Succ(adj, x)[i].target in s
  }

  /** Every connection target is a known station (otherwise the weighted search raises). */
  predicate TargetsKnown(adj: Adjacency, stations: map<Code, Station>)
  {
    forall u, i :: u in adj && 0 <= i < |adj[u]| ==> adj[u][i].target in stations
  }

  lemma LinksTail(es: seq<Edge>, v: Code)
    requires Links(es, v) && es[0].target != v
    ensures Links(es[1..], v)
  {
    var i :| 0 <= i < |es| && es[i].target == v;
    assert es[1..][i - 1] == es[i];
  }

  /** The shortest of the parallel connections from a list to `v`. */
  function MinWeight(es: seq<Edge>, v: Code): (w: nat)
    requires Links(es, v)
    ensures exists i :: 0 <= i < |es| && es[i] == Edge(v, w)
    ensures forall i :: 0 <= i < |es| && es[i].target == v ==> w <= es[i].distance
    decreases |es|
  {
    if es[0].target != v then
      LinksTail(es, v);
      var w := MinWeight(es[1..], v);
      assert forall i :: 1 <= i < |es| ==> es[i] == es[1..][i - 1];
      w
    else if Links(es[1..], v) then
      var w := MinWeight(es[1..], v);
      assert forall i :: 1 <= i < |es| ==> es[i] == es[1..][i - 1];
      if es[0].distance <= w then es[0].distance else w
    else
      es[0].distance
  }

  /** Weight of one hop of a walk: the cheapest connection from `u` to `v`. */
  function Hop(adj: Adjacency, u: Code, v: Code): nat
    requires HasEdge(adj, u, v)
  {
    MinWeight(Succ(adj, u), v)
  }

  /** Consecutive codes are joined by an adjacency entry (peeled off from the end, as `Cost` is). */
  predicate IsWalk(adj: Adjacency, w: seq<Code>)
    decreases |w|
  {
    |w| <= 1 || (IsWalk(adj, w[..|w| - 1]) && HasEdge(adj, w[|w| - 2], w[|w| - 1]))
  }

  predicate WalkFrom(adj: Adjacency, w: seq<Code>, s: Code, t: Code)
  {
    |w| > 0 && w[0] == s && w[|w| - 1] == t && IsWalk(adj, w)
  }

  ghost predicate Reachable(adj: Adjacency, s: Code, t: Code)
  {
    exists w :: WalkFrom(adj, w, s, t)
  }

  /** Total kilometres of a walk, each hop taken along its cheapest connection. */
  function Cost(adj: Adjacency, w: seq<Code>): nat
    requires IsWalk(adj, w)
    decreases |w|
  {
    if |w| <= 1 then 0 else Cost(adj, w[..|w| - 1]) + Hop(adj, w[|w| - 2], w[|w| - 1])
  }

  predicate Distinct<T(==)>(s: seq<T>)
  {
    forall a, b :: 0 <= a < b < |s| ==> s[a] != s[b]
  }

  /** `b` is `a` with possibly more keys, each new one holding an empty list. */
  predicate KeysGrown(a: Adjacency, b: Adjacency)
  {
    && a.Keys <= b.Keys
    && (forall u :: u in a ==> b[u] == a[u])
    && (forall u :: u in b && u !in a ==> b[u] == [])
  }

  /** `adj` after the default dictionary has created an empty list for each code read. */
  function AddKeys(adj: Adjacency, read: set<Code>): (r: Adjacency)
    ensures KeysGrown(adj, r)
    ensures r.Keys == adj.Keys + read
  {
    adj + map c | c in read && c !in adj :: []
  }

  lemma KeysGrownTrans(a: Adjacency, b: Adjacency, c: Adjacency)
    requires KeysGrown(a, b) && KeysGrown(b, c)
    ensures KeysGrown(a, c)
  {
  }

  /** Creating empty keys changes no outgoing list, hence no walk and no cost. */
  lemma {:induction false} KeysGrownWalk(a: Adjacency, b: Adjacency, w: seq<Code>)
    requires KeysGrown(a, b)
    ensures IsWalk(a, w) == IsWalk(b, w)
    ensures IsWalk(a, w) ==> Cost(a, w) == Cost(b, w)
    decreases |w|
  {
    assert forall u :: Succ(a, u) == Succ(b, u);
    if |w| > 1 {
      KeysGrownWalk(a, b, w[..|w| - 1]);
    }
  }

  lemma KeysGrownKnown(a: Adjacency, b: Adjacency, stations: map<Code, Station>)
    requires KeysGrown(a, b) && TargetsKnown(a, stations)
    ensures TargetsKnown(b, stations)
  {
  }

  /** Every consecutive pair of a walk is joined by an adjacency entry. */
  lemma {:induction false} WalkStep(adj: Adjacency, w: seq<Code>, k: nat)
    requires IsWalk(adj, w) && 1 <= k < |w|
    ensures HasEdge(adj, w[k - 1], w[k])
    decreases |w|
  {
    if k < |w| - 1 {
      var v := w[..|w| - 1];
      WalkStep(adj, v, k);
      assert v[k - 1] == w[k - 1] && v[k] == w[k];
    }
  }

  /** A prefix of a walk is a walk, and it costs no more. */
  lemma {:induction false} WalkPrefix(adj: Adjacency, w: seq<Code>, n: nat)
    requires IsWalk(adj, w) && 1 <= n <= |w|
    ensures IsWalk(adj, w[..n]) && Cost(adj, w[..n]) <= Cost(adj, w)
    decreases |w| - n
  {
    if n < |w| {
      var v := w[..|w| - 1];
      WalkPrefix(adj, v, n);
      assert v[..n] == w[..n];
    } else {
      assert w[..n] == w;
    }
  }

  /** The first `k` stations of a walk from `s` form a walk from `s` to the `k`-th station. */
  lemma WalkFromPrefix(adj: Adjacency, w: seq<Code>, s: Code, t: Code, k: nat)
    requires WalkFrom(adj, w, s, t) && 1 <= k <= |w|
    ensures WalkFrom(adj, w[..k], s, w[k - 1])
  {
    var p := w[..k];
    assert p[0] == s && p[|p| - 1] == w[k - 1];
    WalkPrefix(adj, w, k);
  }

  /** Appending a neighbour extends a walk by one hop. */
  lemma WalkExtend(adj: Adjacency, w: seq<Code>, v: Code)
    requires IsWalk(adj, w) && |w| > 0 && HasEdge(adj, w[|w| - 1], v)
    ensures IsWalk(adj, w + [v])
    ensures Cost(adj, w + [v]) == Cost(adj, w) + Hop(adj, w[|w| - 1], v)
  {
    assert (w + [v])[..|w|] == w;
  }

  /** Joining with all of `v` but its head is joining with its prefix and then appending its last element. */
  lemma JoinSnoc<T>(u: seq<T>, v: seq<T>)
    requires |v| >= 2
    ensures (u + v[..|v| - 1][1..]) + [v[|v| - 1]] == u + v[1..]
  {
    assert v[..|v| - 1][1..] + [v[|v| - 1]] == v[1..];
  }

  /** A walk from `a` to `b` followed by a walk from `b` to `c` is a walk from `a` to `c`. */
  lemma {:induction false} WalkJoin(adj: Adjacency, u: seq<Code>, v: seq<Code>, a: Code, b: Code, c: Code)
    requires WalkFrom(adj, u, a, b) && WalkFrom(adj, v, b, c)
    ensures WalkFrom(adj, u + v[1..], a, c)
    decreases |v|
  {
    if |v| == 1 {
      assert u + v[1..] == u;
    } else {
      var v' := v[..|v| - 1];
      WalkFromPrefix(adj, v, b, c, |v| - 1);
      WalkJoin(adj, u, v', a, b, v[|v| - 2]);
      WalkStep(adj, v, |v| - 1);
      var j := u + v'[1..];
      WalkExtend(adj, j, c);
      JoinSnoc(u, v);
    }
  }

  lemma ReachJoin(adj: Adjacency, a: Code, b: Code, c: Code)
    requires Reachable(adj, a, b) && Reachable(adj, b, c)
    ensures Reachable(adj, a, c)
  {
    var u :| WalkFrom(adj, u, a, b);
    var v :| WalkFrom(adj, v, b, c);
    WalkJoin(adj, u, v, a, b, c);
  }

  /** A walk that starts inside `s` and ends outside it crosses the border somewhere. */
  lemma {:induction false} FirstExit(w: seq<Code>, s: set<Code>) returns (k: nat)
    requires |w| > 0 && w[0] in s && w[|w| - 1] !in s
    ensures 1 <= k < |w| && w[k - 1] in s && w[k] !in s
    ensures forall i :: 0 <= i < k ==> w[i] in s
    decreases |w|
  {
    if w[1] !in s {
      k := 1;
    } else {
      var k' := FirstExit(w[1..], s);
      k := k' + 1;
    }
  }

  /** A walk that starts in a set closed under the adjacency never leaves it. */
  lemma {:induction false} WalkStaysIn(adj: Adjacency, s: set<Code>, w: seq<Code>)
    requires IsWalk(adj, w) && |w| > 0 && w[0] in s
    requires forall x :: x in s ==> Closed(adj, x, s)
    ensures w[|w| - 1] in s
    decreases |w|
  {
    if |w| > 1 {
      var v := w[..|w| - 1];
      WalkStaysIn(adj, s, v);
      var x, y := w[|w| - 2], w[|w| - 1];
      assert Closed(adj, x, s);
      var i :| 0 <= i < |Succ(adj, x)| && Succ(adj, x)[i].target == y;
    }
  }

  /** No walk leads from inside a closed set to a code outside it. */
  lemma ClosedUnreachable(adj: Adjacency, s: set<Code>, start: Code, end: Code)
    requires start in s && end !in s
    requires forall x :: x in s ==> Closed(adj, x, s)
    ensures !Reachable(adj, start, end)
  {
    forall w | |w| > 0 && w[0] == start && IsWalk(adj, w)
      ensures w[|w| - 1] != end
    {
      WalkStaysIn(adj, s, w);
    }
  }
}
