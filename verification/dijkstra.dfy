/**
 The state of the minimum-distance search and the invariants it keeps.
 */
module SearchState {
  import opened Graph

  /**
   The heap as a set of entries: an entry is pushed only below every entry
   already held for its station, so the heap never holds the same pair twice.
   */
  type Frontier = set<(nat, Code)>

  /**
   The search state: tentative distances (a station without an entry is at
   infinity), predecessors, settled stations and the heap.
   */
  datatype Search = Search(dist: map<Code, nat>, previous: map<Code, Code>, visited: set<Code>, pq: Frontier)

  /**
   The predecessor tree: each station with a finite tentative distance has a
   ghost walk from `start` that follows `previous` and costs at most that
   distance; predecessors are always settled stations.
   */
  ghost predicate Tree(adj: Adjacency, start: Code, dist: map<Code, nat>, prev: map<Code, Code>,
                       paths: map<Code, seq<Code>>, visited: set<Code>)
  {
    && start in dist && dist[start] == 0 && start !in prev
    && paths.Keys == dist.Keys && paths[start] == [start]
    && visited <= dist.Keys && prev.Keys <= dist.Keys
    && Witnessed(adj, start, dist, paths)
    && (forall v {:trigger v in prev} :: v in dist && v != start ==> v in prev)
    && Linked(prev, paths, visited)
  }

  /** Each ghost walk leads from `start` to its station and costs at most the tentative distance. */
  ghost predicate Witnessed(adj: Adjacency, start: Code, dist: map<Code, nat>, paths: map<Code, seq<Code>>)
    requires dist.Keys <= paths.Keys
  {
    forall v {:trigger paths[v]} :: v in dist ==> WalkFrom(adj, paths[v], start, v) && Cost(adj, paths[v]) <= dist[v]
  }

  /** The ghost walk of a station extends the walk of its (settled) predecessor by one hop. */
  ghost predicate Linked(prev: map<Code, Code>, paths: map<Code, seq<Code>>, visited: set<Code>)
    requires prev.Keys <= paths.Keys && visited <= paths.Keys
  {
    forall v {:trigger prev[v]} :: v in prev ==> prev[v] in visited && paths[v] == paths[prev[v]] + [v]
  }

  /** Entries are upper bounds of the table, and every unsettled finite distance is queued. */
  ghost predicate Queued(dist: map<Code, nat>, visited: set<Code>, pq: Frontier)
  {
    && (forall e {:trigger e in pq} :: e in pq ==> e.1 in dist && dist[e.1] <= e.0)
    && (forall v {:trigger v in dist} :: v in dist && v !in visited ==> (dist[v], v) in pq)
  }

  /** Settled distances are no greater than the cost of any walk. */
  ghost predicate Optimal(adj: Adjacency, start: Code, dist: map<Code, nat>, visited: set<Code>)
    requires visited <= dist.Keys
  {
    forall x, w {:trigger WalkFrom(adj, w, start, x)} :: x in visited && WalkFrom(adj, w, start, x) ==> dist[x] <= Cost(adj, w)
  }

  /** Every connection out of `x` among the first `j` has been relaxed. */
  ghost predicate RelaxedUpTo(adj: Adjacency, dist: map<Code, nat>, x: Code, j: nat)
    requires x in dist
  {
    && j <= |Succ(adj, x)|
    && forall i :: 0 <= i < j ==>
         Succ(adj, x)[i].target in dist && dist[Succ(adj, x)[i].target] <= dist[x] + Succ(adj, x)[i].distance
  }

  ghost predicate Relaxed(adj: Adjacency, dist: map<Code, nat>, x: Code)
    requires x in dist
  {
    RelaxedUpTo(adj, dist, x, |Succ(adj, x)|)
  }

  /** Between two pops: every settled station is final and fully relaxed. */
  ghost predicate OuterInv(adj: Adjacency, start: Code, end: Code, s: Search, paths: map<Code, seq<Code>>,
                           universe: set<Code>)
  {
    && Tree(adj, start, s.dist, s.previous, paths, s.visited)
    && Queued(s.dist, s.visited, s.pq)
    && Optimal(adj, start, s.dist, s.visited)
    && (forall x {:trigger x in s.visited} :: x in s.visited ==> Relaxed(adj, s.dist, x))
    && (forall x, e {:trigger x in s.visited, e in s.pq} :: x in s.visited && e in s.pq ==> s.dist[x] <= e.0)
    && s.dist.Keys <= universe && end !in s.visited
  }

  /** While the list of `u` (settled at distance `d`) is being relaxed, up to entry `j`. */
  ghost predicate InnerInv(adj: Adjacency, start: Code, s: Search, paths: map<Code, seq<Code>>,
                           universe: set<Code>, u: Code, d: nat, j: nat)
  {
    && Tree(adj, start, s.dist, s.previous, paths, s.visited)
    && Queued(s.dist, s.visited, s.pq)
    && Optimal(adj, start, s.dist, s.visited)
    && u in s.visited && s.dist[u] == d
    && (forall x {:trigger x in s.visited} :: x in s.visited ==> s.dist[x] <= d)
    && (forall e {:trigger e in s.pq} :: e in s.pq ==> d <= e.0)
    && (forall x {:trigger x in s.visited} :: x in s.visited && x != u ==> Relaxed(adj, s.dist, x))
    && RelaxedUpTo(adj, s.dist, u, j)
    && s.dist.Keys <= universe
  }
}

/**
 Minimum-distance search: Dijkstra's algorithm with a priority frontier of
 (tentative distance, station) entries, lazy deletion of stale entries and a
 predecessor map from which the path is rebuilt once the destination is
 popped.

 The heap is modelled as a set from which SOME entry of least distance is
 popped; which of several equal-distance entries comes first (and hence which
 of several equally short paths is returned) is left open.
 */
module Dijkstra {
  import opened Graph
  import opened SearchState

  /** What `dijkstra_shortest_path(start, end)` promises about `(path, distance)`. */
  ghost predicate DijkstraOutcome(adj: Adjacency, stations: map<Code, Station>, start: Code, end: Code,
                                  path: seq<Code>, distance: nat)
  {
    && (path == [] ==> distance == 0)
    // the unknown-start test comes first, so it wins even when start == end
    && (start !in adj || end !in stations ==> path == [])
    && (start in adj && end in stations && start == end ==> path == [start])
    && (path == [] <==> (start !in adj || end !in stations || !Reachable(adj, start, end)))
    && (path != [] ==>
          && WalkFrom(adj, path, start, end)
          && distance == Cost(adj, path)
          && forall w {:trigger WalkFrom(adj, w, start, end)} :: WalkFrom(adj, w, start, end) ==> distance <= Cost(adj, w))
  }

  /**
   The codes in `keys` include every list the search must read on the way:
   that of each station strictly nearer to `start` than `end` is (every
   station reachable from `start`, when `end` is not).
   */
  ghost predicate DijkstraReads(adj: Adjacency, stations: map<Code, Station>, start: Code, end: Code, keys: set<Code>)
  {
    start in adj && end in stations && start != end ==>
      forall c, w :: WalkFrom(adj, w, start, c)
        && (forall w' :: WalkFrom(adj, w', start, end) ==> Cost(adj, w) < Cost(adj, w'))
        ==> c in keys
  }

  /** `c` is reachable from `start` by a walk of at most `n` km. */
  ghost predicate WithinKm(adj: Adjacency, start: Code, c: Code, n: nat)
  {
    exists w :: WalkFrom(adj, w, start, c) && Cost(adj, w) <= n
  }

  /** Every code of `read` is reachable from `start` by a walk of at most `n` km. */
  ghost predicate AllWithinKm(adj: Adjacency, start: Code, read: set<Code>, n: nat)
  {
    forall c :: c in read ==> WithinKm(adj, start, c, n)
  }

  /** `s` read from its last element to its first. */
  function Reverse<T>(s: seq<T>): (r: seq<T>)
    ensures |r| == |s|
    ensures forall k :: 0 <= k < |s| ==> r[k] == s[|s| - 1 - k]
  {
    if s == [] then [] else [s[|s| - 1]] + Reverse(s[..|s| - 1])
  }

  lemma ReverseSnoc<T>(s: seq<T>, x: T)
    ensures Reverse(s + [x]) == [x] + Reverse(s)
  {
    assert (s + [x])[..|s|] == s;
  }

  /** A frontier holding an entry within `n` has an entry of least distance. */
  lemma {:induction false} MinBelow(q: Frontier, n: nat)
    requires exists e {:trigger e in q} :: e in q && e.0 <= n
    ensures exists e {:trigger e in q} :: e in q && forall f {:trigger f in q} :: f in q ==> e.0 <= f.0
  {
    if exists e {:trigger e in q} :: e in q && e.0 < n {
      MinBelow(q, n - 1);
    } else {
      var e :| e in q && e.0 <= n;
      assert forall f {:trigger f in q} :: f in q ==> e.0 <= f.0;
    }
  }

  /** The frontier always has an entry of least distance. */
  lemma MinExists(q: Frontier)
    requires q != {}
    ensures exists e {:trigger e in q} :: e in q && forall f {:trigger f in q} :: f in q ==> e.0 <= f.0
  {
    var x: (nat, Code) :| x in q;
    MinBelow(q, x.0);
  }

  /** A relaxed station bounds the tentative distance of each neighbour by one hop. */
  lemma RelaxedHop(adj: Adjacency, dist: map<Code, nat>, x: Code, y: Code)
    requires x in dist && Relaxed(adj, dist, x) && HasEdge(adj, x, y)
    ensures y in dist && dist[y] <= dist[x] + Hop(adj, x, y)
  {
    var i :| 0 <= i < |Succ(adj, x)| && Succ(adj, x)[i] == Edge(y, Hop(adj, x, y));
  }

  /** The part of a walk up to one of its hops costs no more than the whole walk. */
  lemma HopPrefix(adj: Adjacency, w: seq<Code>, k: nat)
    requires IsWalk(adj, w) && 1 <= k < |w|
    ensures IsWalk(adj, w[..k]) && HasEdge(adj, w[k - 1], w[k])
    ensures Cost(adj, w[..k]) + Hop(adj, w[k - 1], w[k]) <= Cost(adj, w)
  {
    var p, q := w[..k], w[..k + 1];
    assert q == p + [w[k]] && p[|p| - 1] == w[k - 1];
    WalkPrefix(adj, w, k + 1);
    ExtendCost(adj, p, w[k], q);
  }

  /** A walk ending in `y` is the walk before `y` plus one hop. */
  lemma ExtendCost(adj: Adjacency, p: seq<Code>, y: Code, q: seq<Code>)
    requires q == p + [y] && |p| > 0 && IsWalk(adj, q)
    ensures IsWalk(adj, p) && HasEdge(adj, p[|p| - 1], y)
    ensures Cost(adj, q) == Cost(adj, p) + Hop(adj, p[|p| - 1], y)
  {
    assert q[..|q| - 1] == p;
  }

  /**
   The heart of Dijkstra's argument: the least queued distance is at most the
   cost of any walk to an unsettled station, because the walk leaves the
   settled set through a relaxed connection into a queued station.
   */
  lemma PopOptimal(adj: Adjacency, start: Code, dist: map<Code, nat>, visited: set<Code>, pq: Frontier,
                   d: nat, u: Code, w: seq<Code>)
    requires start in dist && dist[start] == 0 && visited <= dist.Keys
    requires forall v {:trigger v in dist} :: v in dist && v !in visited ==> (dist[v], v) in pq
    requires forall x {:trigger x in visited} :: x in visited ==> Relaxed(adj, dist, x)
    requires Optimal(adj, start, dist, visited)
    requires forall e {:trigger e in pq} :: e in pq ==> d <= e.0
    requires u !in visited && WalkFrom(adj, w, start, u)
    ensures d <= Cost(adj, w)
  {
    if start !in visited {
      assert (dist[start], start) in pq;
    } else {
      var k := FirstExit(w, visited);
      HopPrefix(adj, w, k);
      WalkFromPrefix(adj, w, start, u, k);
      SettledCost(adj, start, dist, visited, w[k - 1], w[..k]);
      CrossBound(adj, dist, pq, d, w[k - 1], w[k], Cost(adj, w[..k]), Cost(adj, w));
    }
  }

  lemma SettledCost(adj: Adjacency, start: Code, dist: map<Code, nat>, visited: set<Code>, x: Code, w: seq<Code>)
    requires visited <= dist.Keys && Optimal(adj, start, dist, visited)
    requires x in visited && WalkFrom(adj, w, start, x)
    ensures dist[x] <= Cost(adj, w)
  {
  }

  /** The connection by which a walk leaves the settled set leads to a queued station. */
  lemma CrossBound(adj: Adjacency, dist: map<Code, nat>, pq: Frontier, d: nat, x: Code, y: Code, cx: nat, cw: nat)
    requires x in dist && Relaxed(adj, dist, x) && HasEdge(adj, x, y)
    requires dist[x] <= cx && cx + Hop(adj, x, y) <= cw
    requires y in dist ==> (dist[y], y) in pq
    requires forall e {:trigger e in pq} :: e in pq ==> d <= e.0
    ensures d <= cw
  {
    RelaxedHop(adj, dist, x, y);
    assert (dist[y], y) in pq;
  }

  /** Popping an entry of an already settled station changes nothing else. */
  lemma PopStale(adj: Adjacency, start: Code, end: Code, s: Search, paths: map<Code, seq<Code>>,
                 universe: set<Code>, e: (nat, Code))
    requires OuterInv(adj, start, end, s, paths, universe)
    requires e in s.pq && e.1 in s.visited
    ensures OuterInv(adj, start, end, s.(pq := s.pq - {e}), paths, universe)
  {
    var q := s.pq - {e};
    forall v | v in s.dist && v !in s.visited
      ensures (s.dist[v], v) in q
    {
      assert (s.dist[v], v) in s.pq;
    }
    assert Queued(s.dist, s.visited, q);
  }

  /** Settling one more station keeps the predecessor tree. */
  lemma SettleTree(adj: Adjacency, start: Code, dist: map<Code, nat>, prev: map<Code, Code>,
                   paths: map<Code, seq<Code>>, visited: set<Code>, u: Code)
    requires Tree(adj, start, dist, prev, paths, visited) && u in dist
    ensures Tree(adj, start, dist, prev, paths, visited + {u})
  {
    assert Linked(prev, paths, visited + {u});
  }

  /** Dropping the popped entry of the station being settled keeps the frontier in step. */
  lemma SettleQueued(dist: map<Code, nat>, visited: set<Code>, pq: Frontier, e: (nat, Code))
    requires Queued(dist, visited, pq)
    ensures Queued(dist, visited + {e.1}, pq - {e})
  {
    forall v | v in dist && v !in visited + {e.1}
      ensures (dist[v], v) in pq - {e}
    {
      assert (dist[v], v) in pq;
    }
  }

  /** The station of a least entry is settled at its optimal distance. */
  lemma SettleOptimal(adj: Adjacency, start: Code, dist: map<Code, nat>, visited: set<Code>, pq: Frontier,
                      e: (nat, Code))
    requires start in dist && dist[start] == 0 && visited <= dist.Keys && e.1 in dist && dist[e.1] == e.0
    requires forall v {:trigger v in dist} :: v in dist && v !in visited ==> (dist[v], v) in pq
    requires forall x {:trigger x in visited} :: x in visited ==> Relaxed(adj, dist, x)
    requires Optimal(adj, start, dist, visited)
    requires forall f {:trigger f in pq} :: f in pq ==> e.0 <= f.0
    requires e.1 !in visited
    ensures Optimal(adj, start, dist, visited + {e.1})
  {
    forall x, w | x in visited + {e.1} && WalkFrom(adj, w, start, x)
      ensures dist[x] <= Cost(adj, w)
    {
      if x == e.1 {
        PopOptimal(adj, start, dist, visited, pq, e.0, e.1, w);
      }
    }
  }

  /** The popped distance separates the settled stations from the entries left in the frontier. */
  lemma SettleBounds(dist: map<Code, nat>, visited: set<Code>, pq: Frontier, e: (nat, Code),
                     visited': set<Code>, pq': Frontier)
    requires visited <= dist.Keys && e in pq && e.1 in dist && dist[e.1] == e.0
    requires forall x, f {:trigger x in visited, f in pq} :: x in visited && f in pq ==> dist[x] <= f.0
    requires forall f {:trigger f in pq} :: f in pq ==> e.0 <= f.0
    requires visited' == visited + {e.1} && pq' == pq - {e}
    ensures forall x {:trigger x in visited'} :: x in visited' ==> dist[x] <= e.0
    ensures forall f {:trigger f in pq'} :: f in pq' ==> e.0 <= f.0
  {
  }

  /** Popping the least entry of an unsettled station settles it at that distance. */
  lemma PopFresh(adj: Adjacency, start: Code, end: Code, s: Search, paths: map<Code, seq<Code>>,
                 universe: set<Code>, e: (nat, Code), s': Search)
    requires OuterInv(adj, start, end, s, paths, universe)
    requires e in s.pq && e.1 !in s.visited && forall f {:trigger f in s.pq} :: f in s.pq ==> e.0 <= f.0
    requires s' == Search(s.dist, s.previous, s.visited + {e.1}, s.pq - {e})
    ensures e.1 in s.dist && s.dist[e.1] == e.0
    ensures InnerInv(adj, start, s', paths, universe, e.1, e.0, 0)
  {
    assert (s.dist[e.1], e.1) in s.pq;
    SettleTree(adj, start, s.dist, s.previous, paths, s.visited, e.1);
    SettleQueued(s.dist, s.visited, s.pq, e);
    SettleOptimal(adj, start, s.dist, s.visited, s.pq, e);
    SettleBounds(s.dist, s.visited, s.pq, e, s'.visited, s'.pq);
    assert forall x {:trigger x in s'.visited} :: x in s'.visited && x != e.1 ==> x in s.visited;
  }

  /** Growing the tree by a connection out of a settled station keeps every walk witness. */
  lemma TreeGrowWalks(adj: Adjacency, start: Code, dist: map<Code, nat>, paths: map<Code, seq<Code>>,
                      u: Code, n: Code, nd: nat, dist': map<Code, nat>, paths': map<Code, seq<Code>>)
    requires dist.Keys <= paths.Keys && Witnessed(adj, start, dist, paths) && u in dist
    requires HasEdge(adj, u, n) && Cost(adj, paths[u]) + Hop(adj, u, n) <= nd
    requires dist' == dist[n := nd] && paths' == paths[n := paths[u] + [n]]
    ensures dist'.Keys <= paths'.Keys && Witnessed(adj, start, dist', paths')
  {
    WalkExtend(adj, paths[u], n);
    assert paths'[n] == paths[u] + [n];
  }

  /** Growing the tree by a connection out of a settled station keeps the predecessor links. */
  lemma TreeGrowLinks(prev: map<Code, Code>, paths: map<Code, seq<Code>>, visited: set<Code>, u: Code, n: Code,
                      prev': map<Code, Code>, paths': map<Code, seq<Code>>)
    requires prev.Keys <= paths.Keys && visited <= paths.Keys && Linked(prev, paths, visited)
    requires u in visited && n !in visited
    requires prev' == prev[n := u] && paths' == paths[n := paths[u] + [n]]
    ensures prev'.Keys <= paths'.Keys && visited <= paths'.Keys && Linked(prev', paths', visited)
  {
  }

  lemma TreeGrow(adj: Adjacency, start: Code, dist: map<Code, nat>, prev: map<Code, Code>,
                 paths: map<Code, seq<Code>>, visited: set<Code>, u: Code, n: Code, nd: nat,
                 dist': map<Code, nat>, prev': map<Code, Code>, paths': map<Code, seq<Code>>)
    requires Tree(adj, start, dist, prev, paths, visited)
    requires u in visited && n !in visited && n != start
    requires HasEdge(adj, u, n) && Cost(adj, paths[u]) + Hop(adj, u, n) <= nd
    requires dist' == dist[n := nd] && prev' == prev[n := u] && paths' == paths[n := paths[u] + [n]]
    ensures Tree(adj, start, dist', prev', paths', visited)
  {
    TreeGrowWalks(adj, start, dist, paths, u, n, nd, dist', paths');
    TreeGrowLinks(prev, paths, visited, u, n, prev', paths');
  }

  /** Lowering the table at one station keeps the frontier in step once its new entry is pushed. */
  lemma QueuedGrow(dist: map<Code, nat>, visited: set<Code>, pq: Frontier, n: Code, nd: nat)
    requires Queued(dist, visited, pq) && n !in visited && (n !in dist || nd < dist[n])
    ensures Queued(dist[n := nd], visited, pq + {(nd, n)})
  {
  }

  /** Lowering the table at a station other than `x` keeps the relaxed prefix of `x`. */
  lemma RelaxedLower(adj: Adjacency, dist: map<Code, nat>, x: Code, n: Code, nd: nat, j: nat)
    requires x in dist && x != n && RelaxedUpTo(adj, dist, x, j) && (n !in dist || nd < dist[n])
    ensures RelaxedUpTo(adj, dist[n := nd], x, j)
  {
  }

  /** Lowering the table at an unsettled station leaves every settled distance optimal. */
  lemma OptimalLower(adj: Adjacency, start: Code, dist: map<Code, nat>, visited: set<Code>, n: Code, nd: nat)
    requires visited <= dist.Keys && Optimal(adj, start, dist, visited) && n !in visited
    ensures visited <= dist[n := nd].Keys && Optimal(adj, start, dist[n := nd], visited)
  {
    var dist' := dist[n := nd];
    forall x, w | x in visited && WalkFrom(adj, w, start, x)
      ensures dist'[x] <= Cost(adj, w)
    {
      assert dist'[x] == dist[x];
    }
  }

  /** Lowering the table at the target of entry `j` of `u` extends the relaxed prefix of `u` by one. */
  lemma RelaxedGrow(adj: Adjacency, dist: map<Code, nat>, visited: set<Code>, u: Code, j: nat, n: Code, nd: nat)
    requires visited <= dist.Keys && u in visited && n !in visited && (n !in dist || nd < dist[n])
    requires forall x {:trigger x in visited} :: x in visited && x != u ==> Relaxed(adj, dist, x)
    requires RelaxedUpTo(adj, dist, u, j) && j < |Succ(adj, u)|
    requires n == Succ(adj, u)[j].target && nd == dist[u] + Succ(adj, u)[j].distance
    ensures forall x {:trigger x in visited} :: x in visited && x != u ==> Relaxed(adj, dist[n := nd], x)
    ensures RelaxedUpTo(adj, dist[n := nd], u, j + 1)
  {
    forall x | x in visited && x != u
      ensures Relaxed(adj, dist[n := nd], x)
    {
      RelaxedLower(adj, dist, x, n, nd, |Succ(adj, x)|);
    }
    RelaxedLower(adj, dist, u, n, nd, j);
  }

  /** Pushing an entry no smaller than `d` at an unsettled station keeps `d` between the settled and the queued. */
  lemma BoundsGrow(dist: map<Code, nat>, visited: set<Code>, pq: Frontier, d: nat, n: Code, nd: nat)
    requires visited <= dist.Keys && n !in visited && d <= nd
    requires forall x {:trigger x in visited} :: x in visited ==> dist[x] <= d
    requires forall e {:trigger e in pq} :: e in pq ==> d <= e.0
    ensures forall x {:trigger x in visited} :: x in visited ==> dist[n := nd][x] <= d
    ensures forall e {:trigger e in pq + {(nd, n)}} :: e in pq + {(nd, n)} ==> d <= e.0
  {
  }

  /** Relaxing one connection that improves the tentative distance of its target. */
  lemma RelaxImproves(adj: Adjacency, stations: map<Code, Station>, start: Code, s: Search,
                      paths: map<Code, seq<Code>>, universe: set<Code>, u: Code, d: nat, j: nat, n: Code, nd: nat,
                      s': Search, paths': map<Code, seq<Code>>)
    requires TargetsKnown(adj, stations) && stations.Keys <= universe
    requires InnerInv(adj, start, s, paths, universe, u, d, j)
    requires j < |Succ(adj, u)| && n == Succ(adj, u)[j].target && nd == d + Succ(adj, u)[j].distance
    requires n !in s.dist || nd < s.dist[n]
    requires s' == Search(s.dist[n := nd], s.previous[n := u], s.visited, s.pq + {(nd, n)})
    requires paths' == paths[n := paths[u] + [n]]
    ensures InnerInv(adj, start, s', paths', universe, u, d, j + 1)
  {
    var dist, visited := s.dist, s.visited;
    assert u in adj && n == adj[u][j].target;
    assert n !in visited;
    assert HasEdge(adj, u, n);
    assert Hop(adj, u, n) <= Succ(adj, u)[j].distance;
    TreeGrow(adj, start, dist, s.previous, paths, visited, u, n, nd, s'.dist, s'.previous, paths');
    QueuedGrow(dist, visited, s.pq, n, nd);
    OptimalLower(adj, start, dist, visited, n, nd);
    RelaxedGrow(adj, dist, visited, u, j, n, nd);
    BoundsGrow(dist, visited, s.pq, d, n, nd);
  }

  /** Relaxing one connection that does not improve anything. */
  lemma RelaxKeeps(adj: Adjacency, start: Code, s: Search, paths: map<Code, seq<Code>>, universe: set<Code>,
                   u: Code, d: nat, j: nat)
    requires InnerInv(adj, start, s, paths, universe, u, d, j)
    requires j < |Succ(adj, u)|
    requires var n := Succ(adj, u)[j].target; n in s.dist && d + Succ(adj, u)[j].distance >= s.dist[n]
    ensures InnerInv(adj, start, s, paths, universe, u, d, j + 1)
  {
  }

  /** One turn of the relaxation loop: entry `j` of `u` lowers its target or leaves everything as it was. */
  lemma RelaxStep(adj: Adjacency, stations: map<Code, Station>, start: Code, s: Search, paths: map<Code, seq<Code>>,
                  universe: set<Code>, u: Code, d: nat, j: nat, n: Code, nd: nat, s': Search, paths': map<Code, seq<Code>>)
    requires TargetsKnown(adj, stations) && stations.Keys <= universe
    requires InnerInv(adj, start, s, paths, universe, u, d, j)
    requires j < |Succ(adj, u)| && n == Succ(adj, u)[j].target && nd == d + Succ(adj, u)[j].distance
    requires if n !in s.dist || nd < s.dist[n] then
               s' == Search(s.dist[n := nd], s.previous[n := u], s.visited, s.pq + {(nd, n)}) && paths' == paths[n := paths[u] + [n]]
             else
               s' == s && paths' == paths
    ensures InnerInv(adj, start, s', paths', universe, u, d, j + 1)
  {
    if n !in s.dist || nd < s.dist[n] {
      RelaxImproves(adj, stations, start, s, paths, universe, u, d, j, n, nd, s', paths');
    } else {
      RelaxKeeps(adj, start, s, paths, universe, u, d, j);
    }
  }

  /** Once the whole list of the settled station is relaxed, the outer invariant is back. */
  lemma FinishRelax(adj: Adjacency, start: Code, end: Code, s: Search, paths: map<Code, seq<Code>>,
                    universe: set<Code>, u: Code, d: nat)
    requires InnerInv(adj, start, s, paths, universe, u, d, |Succ(adj, u)|)
    requires end !in s.visited
    ensures OuterInv(adj, start, end, s, paths, universe)
  {
  }

  /** An empty frontier leaves a settled set closed under the adjacency that misses `end`. */
  lemma Exhausted(adj: Adjacency, start: Code, end: Code, s: Search, paths: map<Code, seq<Code>>,
                  universe: set<Code>)
    requires OuterInv(adj, start, end, s, paths, universe) && s.pq == {}
    ensures !Reachable(adj, start, end)
    ensures forall c, w :: WalkFrom(adj, w, start, c) ==> c in s.visited
  {
    var dist, visited := s.dist, s.visited;
    assert start in visited by {
      assert (dist[start], start) !in s.pq;
    }
    forall x | x in visited
      ensures Closed(adj, x, visited)
    {
      assert Relaxed(adj, dist, x);
      forall i | 0 <= i < |Succ(adj, x)|
        ensures Succ(adj, x)[i].target in visited
      {
        var y := Succ(adj, x)[i].target;
        assert y in dist;
        assert (dist[y], y) !in s.pq;
      }
    }
    ClosedUnreachable(adj, visited, start, end);
    forall c, w | WalkFrom(adj, w, start, c)
      ensures c in visited
    {
      WalkStaysIn(adj, visited, w);
    }
  }

  /** Every settled station is reachable from `start`: its ghost walk leads there. */
  lemma SettledReachable(adj: Adjacency, start: Code, end: Code, s: Search, paths: map<Code, seq<Code>>,
                         universe: set<Code>)
    requires OuterInv(adj, start, end, s, paths, universe)
    ensures forall c :: c in s.visited ==> Reachable(adj, start, c)
  {
    forall c | c in s.visited
      ensures Reachable(adj, start, c)
    {
      assert WalkFrom(adj, paths[c], start, c);
    }
  }

  /** When a least entry is popped at distance `d`, every station with a cheaper walk is settled. */
  lemma SettledBelow(adj: Adjacency, start: Code, end: Code, s: Search, paths: map<Code, seq<Code>>,
                     universe: set<Code>, d: nat)
    requires OuterInv(adj, start, end, s, paths, universe)
    requires forall f {:trigger f in s.pq} :: f in s.pq ==> d <= f.0
    ensures forall c, w :: WalkFrom(adj, w, start, c) && Cost(adj, w) < d ==> c in s.visited
  {
    forall c, w | WalkFrom(adj, w, start, c) && Cost(adj, w) < d
      ensures c in s.visited
    {
      if c !in s.visited {
        PopOptimal(adj, start, s.dist, s.visited, s.pq, d, c, w);
      }
    }
  }

  /** Settling `end` at distance `d` along `path`: the lists read so far are those of the settled stations. */
  lemma ArriveReads(adj: Adjacency, stations: map<Code, Station>, start: Code, end: Code, s: Search,
                    paths: map<Code, seq<Code>>, universe: set<Code>, d: nat, path: seq<Code>)
    requires OuterInv(adj, start, end, s, paths, universe)
    requires forall f {:trigger f in s.pq} :: f in s.pq ==> d <= f.0
    requires WalkFrom(adj, path, start, end) && Cost(adj, path) == d
    ensures DijkstraReads(adj, stations, start, end, s.visited)
  {
    SettledBelow(adj, start, end, s, paths, universe, d);
    forall c, w | WalkFrom(adj, w, start, c)
      && (forall w' :: WalkFrom(adj, w', start, end) ==> Cost(adj, w) < Cost(adj, w'))
      ensures c in s.visited
    {
      assert Cost(adj, w) < Cost(adj, path);
    }
  }

  /** The rebuilt path is the ghost walk of `end`, and its cost is the settled distance. */
  lemma Arrive(adj: Adjacency, stations: map<Code, Station>, start: Code, end: Code, s: Search,
               paths: map<Code, seq<Code>>, universe: set<Code>, d: nat)
    requires InnerInv(adj, start, s, paths, universe, end, d, 0)
    requires start in adj && end in stations && start != end
    ensures DijkstraOutcome(adj, stations, start, end, paths[end], d)
  {
    assert WalkFrom(adj, paths[end], start, end);
  }

  /** Every code with a ghost walk other than `start` has a predecessor whose walk is one hop shorter. */
  ghost predicate Chained(prev: map<Code, Code>, paths: map<Code, seq<Code>>, start: Code)
  {
    && start in paths && paths[start] == [start] && start !in prev && prev.Keys <= paths.Keys
    && (forall v {:trigger v in prev} :: v in paths && v != start ==> v in prev)
    && (forall v {:trigger prev[v]} :: v in prev ==> prev[v] in paths && paths[v] == paths[prev[v]] + [v])
  }

  lemma TreeChained(adj: Adjacency, start: Code, dist: map<Code, nat>, prev: map<Code, Code>,
                    paths: map<Code, seq<Code>>, visited: set<Code>)
    requires Tree(adj, start, dist, prev, paths, visited)
    ensures Chained(prev, paths, start)
  {
  }

  /**
   One pop of a least entry: a stale entry is dropped, a fresh one settles its
   station at the popped distance, and settling `end` yields its ghost walk as
   the answer.
   */
  lemma Pop(adj: Adjacency, stations: map<Code, Station>, start: Code, end: Code, s: Search,
            paths: map<Code, seq<Code>>, universe: set<Code>, e: (nat, Code))
    requires start in adj && end in stations && start != end && stations.Keys <= universe
    requires OuterInv(adj, start, end, s, paths, universe)
    requires e in s.pq && forall f {:trigger f in s.pq} :: f in s.pq ==> e.0 <= f.0
    ensures e.1 in s.visited ==> OuterInv(adj, start, end, s.(pq := s.pq - {e}), paths, universe)
    ensures e.1 !in s.visited ==>
      && e.1 in s.dist && s.dist[e.1] == e.0
      && |universe - (s.visited + {e.1})| < |universe - s.visited|
      && InnerInv(adj, start, Search(s.dist, s.previous, s.visited + {e.1}, s.pq - {e}), paths, universe, e.1, e.0, 0)
      && WalkFrom(adj, paths[e.1], start, e.1)
    ensures e.1 == end ==> Chained(s.previous, paths, start) && DijkstraOutcome(adj, stations, start, end, paths[end], e.0)
    ensures e.1 in paths && end !in s.visited
  {
    if e.1 in s.visited {
      PopStale(adj, start, end, s, paths, universe, e);
    } else {
      var settled := Search(s.dist, s.previous, s.visited + {e.1}, s.pq - {e});
      PopFresh(adj, start, end, s, paths, universe, e, settled);
      Shrinks(universe, s.visited, e.1);
      assert WalkFrom(adj, paths[e.1], start, e.1);
      if e.1 == end {
        TreeChained(adj, start, s.dist, s.previous, paths, settled.visited);
        Arrive(adj, stations, start, end, settled, paths, universe, e.0);
      }
    }
  }

  /** One step back along the predecessor map keeps the rebuilt suffix in step with the walk. */
  lemma Unwind(p: seq<Code>, c: Code, rev: seq<Code>, whole: seq<Code>)
    requires (p + [c]) + Reverse(rev) == whole
    ensures p + Reverse(rev + [c]) == whole
  {
    ReverseSnoc(rev, c);
    assert (p + [c]) + Reverse(rev) == p + ([c] + Reverse(rev));
  }

  lemma Shrinks(universe: set<Code>, visited: set<Code>, x: Code)
    requires x in universe && x !in visited
    ensures |universe - (visited + {x})| < |universe - visited|
  {
    assert universe - visited == (universe - (visited + {x})) + {x};
  }

  /** Relaxes the connection number `j` out of the station `u` settled at distance `d`. */
  method Relax(adj: Adjacency, stations: map<Code, Station>, start: Code, s: Search,
               ghost paths: map<Code, seq<Code>>, ghost universe: set<Code>, u: Code, d: nat, j: nat)
    returns (s': Search, ghost paths': map<Code, seq<Code>>)
    requires TargetsKnown(adj, stations) && stations.Keys <= universe
    requires InnerInv(adj, start, s, paths, universe, u, d, j) && j < |Succ(adj, u)|
    ensures InnerInv(adj, start, s', paths', universe, u, d, j + 1)
    ensures s'.visited == s.visited
  {
    var neighbor, weight := Succ(adj, u)[j].target, Succ(adj, u)[j].distance;
    var candidate: nat := d + weight;
    s', paths' := s, paths;
    if neighbor !in s.dist || candidate < s.dist[neighbor] {
      s' := Search(s.dist[neighbor := candidate], s.previous[neighbor := u], s.visited,
                   s.pq + {(candidate, neighbor)});
      paths' := paths[neighbor := paths[u] + [neighbor]];
    }
    RelaxStep(adj, stations, start, s, paths, universe, u, d, j, neighbor, candidate, s', paths');
  }

  /** Relaxes every connection out of the station `u` just settled at distance `d`. */
  method RelaxNeighbours(adj: Adjacency, stations: map<Code, Station>, start: Code, end: Code, s: Search,
                         ghost paths: map<Code, seq<Code>>, ghost universe: set<Code>, u: Code, d: nat)
    returns (s': Search, ghost paths': map<Code, seq<Code>>)
    requires TargetsKnown(adj, stations) && stations.Keys <= universe
    requires InnerInv(adj, start, s, paths, universe, u, d, 0) && end !in s.visited
    ensures OuterInv(adj, start, end, s', paths', universe)
    ensures s'.visited == s.visited
  {
    s', paths' := s, paths;
    var j := 0;
    while j < |Succ(adj, u)|
      invariant j <= |Succ(adj, u)|
      invariant InnerInv(adj, start, s', paths', universe, u, d, j)
      invariant s'.visited == s.visited
    {
      s', paths' := Relax(adj, stations, start, s', paths', universe, u, d, j);
      j := j + 1;
    }
    FinishRelax(adj, start, end, s', paths', universe, u, d);
  }

  /**
   Walks back from `end` along the predecessor map, appends `start` and
   reverses: the result is the ghost walk of `end`.
   */
  method Rebuild(previous: map<Code, Code>, start: Code, end: Code, ghost paths: map<Code, seq<Code>>)
    returns (path: seq<Code>)
    requires Chained(previous, paths, start) && end in paths
    ensures path == paths[end]
  {
    var rev: seq<Code> := [];
    var c := end;
    while c in previous
      invariant c in paths && paths[c] + Reverse(rev) == paths[end]
      decreases |paths[c]|
    {
      assert paths[c] == paths[previous[c]] + [c];
      Unwind(paths[previous[c]], c, rev, paths[end]);
      rev := rev + [c];
      c := previous[c];
    }
    ReverseSnoc(rev, start);
    path := Reverse(rev + [start]);
  }

  /** The answer on settling `end`, with the lists read: those of the stations settled before it. */
  lemma Finish(adj: Adjacency, stations: map<Code, Station>, start: Code, end: Code, s: Search,
               paths: map<Code, seq<Code>>, universe: set<Code>, d: nat, path: seq<Code>)
    requires OuterInv(adj, start, end, s, paths, universe)
    requires forall f {:trigger f in s.pq} :: f in s.pq ==> d <= f.0
    requires end in paths && path == paths[end] && DijkstraOutcome(adj, stations, start, end, paths[end], d)
    requires start in adj && end in stations && start != end
    ensures DijkstraOutcome(adj, stations, start, end, path, d)
    ensures DijkstraReads(adj, stations, start, end, s.visited)
    ensures forall c :: c in s.visited ==> Reachable(adj, start, c)
  {
    ArriveReads(adj, stations, start, end, s, paths, universe, d, path);
    SettledReachable(adj, start, end, s, paths, universe);
  }

  /** Every settled station is no farther than a queued entry: its ghost walk costs at most that entry. */
  lemma SettledWithin(adj: Adjacency, start: Code, end: Code, s: Search, paths: map<Code, seq<Code>>,
                      universe: set<Code>, d: nat)
    requires OuterInv(adj, start, end, s, paths, universe) && (d, end) in s.pq
    ensures AllWithinKm(adj, start, s.visited, d)
  {
    forall c | c in s.visited
      ensures WithinKm(adj, start, c, d)
    {
      assert WalkFrom(adj, paths[c], start, c) && Cost(adj, paths[c]) <= s.dist[c];
      assert s.dist[c] <= d;
    }
  }

  /** What a search that pops `end` reports: the answer, the codes it read and how far they lie. */
  ghost predicate Arrived(adj: Adjacency, stations: map<Code, Station>, start: Code, end: Code,
                          path: seq<Code>, distance: nat, read: set<Code>)
  {
    && DijkstraOutcome(adj, stations, start, end, path, distance) && path != []
    && DijkstraReads(adj, stations, start, end, read)
    && (forall c :: c in read ==> Reachable(adj, start, c))
    && AllWithinKm(adj, start, read, distance)
  }

  /** Popping `end` settles the search: the rebuilt path answers it, and every settled code lies within its distance. */
  lemma Arrival(adj: Adjacency, stations: map<Code, Station>, start: Code, end: Code, s: Search,
                paths: map<Code, seq<Code>>, universe: set<Code>, d: nat, path: seq<Code>)
    requires OuterInv(adj, start, end, s, paths, universe) && (d, end) in s.pq
    requires forall f {:trigger f in s.pq} :: f in s.pq ==> d <= f.0
    requires end in paths && path == paths[end] && DijkstraOutcome(adj, stations, start, end, paths[end], d)
    requires start in adj && end in stations && start != end
    ensures Arrived(adj, stations, start, end, path, d, s.visited)
  {
    Finish(adj, stations, start, end, s, paths, universe, d, path);
    SettledWithin(adj, start, end, s, paths, universe, d);
  }

  /** An empty heap: no path, and every reachable station has been settled and read. */
  lemma NoPath(adj: Adjacency, stations: map<Code, Station>, start: Code, end: Code, s: Search,
               paths: map<Code, seq<Code>>, universe: set<Code>)
    requires OuterInv(adj, start, end, s, paths, universe) && s.pq == {}
    requires start in adj && end in stations && start != end
    ensures DijkstraOutcome(adj, stations, start, end, [], 0)
    ensures DijkstraReads(adj, stations, start, end, s.visited)
    ensures forall c :: c in s.visited ==> Reachable(adj, start, c)
  {
    Exhausted(adj, start, end, s, paths, universe);
    SettledReachable(adj, start, end, s, paths, universe);
  }

  /** The state before the first pop: only `start` is known, at distance 0, and it is queued. */
  lemma Init(adj: Adjacency, start: Code, end: Code, universe: set<Code>)
    requires start in universe
    ensures OuterInv(adj, start, end, Search(map[start := 0], map[], {}, {(0, start)}), map[start := [start]], universe)
  {
    assert WalkFrom(adj, [start], start, start);
  }

  /** The main loop of `dijkstra_shortest_path`, once the early returns are past. */
  method Explore(adj: Adjacency, stations: map<Code, Station>, start: Code, end: Code)
    returns (path: seq<Code>, distance: nat, read: set<Code>)
    requires TargetsKnown(adj, stations) && start in adj && end in stations && start != end
    ensures DijkstraOutcome(adj, stations, start, end, path, distance)
    ensures forall c :: c in read ==> Reachable(adj, start, c)
    ensures DijkstraReads(adj, stations, start, end, read)
    ensures path != [] ==> AllWithinKm(adj, start, read, distance)
  {
    read := {};
    var s := Search(map[start := 0], map[], {}, {(0, start)});
    ghost var paths: map<Code, seq<Code>> := map[start := [start]];
    ghost var universe := stations.Keys + {start};
    Init(adj, start, end, universe);
    while s.pq != {}
      invariant OuterInv(adj, start, end, s, paths, universe)
      invariant read == s.visited
      decreases |universe - s.visited|, |s.pq|
    {
      var found;
      s, paths, read, found, path, distance := Expand(adj, stations, start, end, s, paths, universe);
      if found {
        return path, distance, read;
      }
    }
    NoPath(adj, stations, start, end, s, paths, universe);
    return [], 0, read;
  }

  /**
   One turn of the main loop: pops a least entry; a stale one is dropped, a
   fresh one settles its station, which either is `end` (`found`, with the
   rebuilt path and its distance) or has its connections relaxed. `read` is
   the settled set.
   */
  method Expand(adj: Adjacency, stations: map<Code, Station>, start: Code, end: Code, s: Search,
                ghost paths: map<Code, seq<Code>>, ghost universe: set<Code>)
    returns (s': Search, ghost paths': map<Code, seq<Code>>, read: set<Code>, found: bool, path: seq<Code>, distance: nat)
    requires TargetsKnown(adj, stations) && start in adj && end in stations && start != end
    requires stations.Keys <= universe
    requires OuterInv(adj, start, end, s, paths, universe) && s.pq != {}
    ensures found ==> Arrived(adj, stations, start, end, path, distance, read)
    ensures !found ==> OuterInv(adj, start, end, s', paths', universe) && read == s'.visited
    ensures !found ==> |universe - s'.visited| < |universe - s.visited| || (s'.visited == s.visited && |s'.pq| < |s.pq|)
  {
    MinExists(s.pq);
    var entry :| entry in s.pq && forall f {:trigger f in s.pq} | f in s.pq :: entry.0 <= f.0;
    var (d, current) := entry;
    Pop(adj, stations, start, end, s, paths, universe, entry);
    s', paths', found, path, distance := s, paths, false, [], 0;
    if current in s.visited {
      s' := s.(pq := s.pq - {entry});
      read := s'.visited;
    } else {
      s' := Search(s.dist, s.previous, s.visited + {current}, s.pq - {entry});
      if current == end {
        path := Rebuild(s'.previous, start, end, paths);
        Arrival(adj, stations, start, end, s, paths, universe, d, path);
        return s', paths', s.visited, true, path, d;
      }
      // the code skips an entry whose distance exceeds the table here; on the
      // first pop of a station the two are equal (Pop), so it never does
      s', paths' := RelaxNeighbours(adj, stations, start, end, s', paths', universe, current, d);
      read := s'.visited;
    }
  }

  /**
   `dijkstra_shortest_path`: returns the path, its length in km and the codes
   whose adjacency list was read.
   */
  method ShortestPath(adj: Adjacency, stations: map<Code, Station>, start: Code, end: Code)
    returns (path: seq<Code>, distance: nat, read: set<Code>)
    requires TargetsKnown(adj, stations)
    ensures DijkstraOutcome(adj, stations, start, end, path, distance)
    ensures forall c :: c in read ==> Reachable(adj, start, c)
    ensures DijkstraReads(adj, stations, start, end, read)
    ensures path != [] ==> AllWithinKm(adj, start, read, distance)
    ensures start !in adj || end !in stations || start == end ==> read == {}
  {
    if start !in adj || end !in stations {
      return [], 0, {};
    }
    if start == end {
      assert WalkFrom(adj, [start], start, end);
      return [start], 0, {};
    }
    path, distance, read := Explore(adj, stations, start, end);
  }
}
