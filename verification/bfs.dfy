/**
 Fewest-stops search: breadth-first over the adjacency lists, carrying the
 whole path of each queued station and stopping as soon as the destination
 turns up as a neighbour.
 */
module Bfs {
  import opened Graph

  /** What `bfs_shortest_path(start, end)` promises about `(path, stops)`. */
  ghost predicate BfsOutcome(adj: Adjacency, stations: map<Code, Station>, start: Code, end: Code,
                             path: seq<Code>, stops: nat)
  {
    && (path == [] ==> stops == 0)
    // the unknown-start test comes first, so it wins even when start == end
    && (start !in adj || end !in stations ==> path == [])
    && (start in adj && end in stations && start == end ==> path == [start])
    && (path == [] <==> (start !in adj || end !in stations || !Reachable(adj, start, end)))
    && (path != [] ==>
          && WalkFrom(adj, path, start, end)
          && Distinct(path)
          && stops == |path| - 1
          && forall w :: WalkFrom(adj, w, start, end) ==> |path| <= |w|)
  }

  /**
   The codes in `keys` include every list the search must read on the way:
   that of each station at least two stops nearer to `start` than `end` is
   (every station reachable from `start`, when `end` is not), and that of
   every station of the path but its last.
   */
  ghost predicate BfsReads(adj: Adjacency, stations: map<Code, Station>, start: Code, end: Code,
                           path: seq<Code>, keys: set<Code>)
  {
    start in adj && end in stations && start != end ==>
      && (forall c, w :: WalkFrom(adj, w, start, c) && (forall w' :: WalkFrom(adj, w', start, end) ==> |w| + 1 < |w'|)
            ==> c in keys)
      && (forall i :: 0 <= i < |path| - 1 ==> path[i] in keys)
  }

  /** `c` is reachable from `start` by a walk of fewer than `n` stations. */
  ghost predicate WithinStations(adj: Adjacency, start: Code, c: Code, n: nat)
  {
    exists w :: WalkFrom(adj, w, start, c) && |w| < n
  }

  /** A queued station with the path that discovered it. */
  type Entry = (Code, seq<Code>)

  predicate InQueue(queue: seq<Entry>, x: Code)
  {
    exists k :: 0 <= k < |queue| && queue[k].0 == x
  }

  /** `p` is a simple walk from `start` to `x` with no fewer stations than any other such walk. */
  ghost predicate ShortestTo(adj: Adjacency, start: Code, x: Code, p: seq<Code>)
  {
    && WalkFrom(adj, p, start, x)
    && Distinct(p)
    && (forall w :: WalkFrom(adj, w, start, x) ==> |p| <= |w|)
  }

  predicate Inside(visited: set<Code>, p: seq<Code>)
  {
    forall i :: 0 <= i < |p| ==> p[i] in visited
  }

  /** Every entry holds a shortest path made of visited stations. */
  ghost predicate GoodQueue(adj: Adjacency, start: Code, visited: set<Code>, queue: seq<Entry>)
  {
    forall k :: 0 <= k < |queue| ==>
      queue[k].0 in visited && Inside(visited, queue[k].1) && ShortestTo(adj, start, queue[k].0, queue[k].1)
  }

  /** Path lengths never decrease along the queue and span at most two levels, `lo` and `lo + 1`. */
  predicate Levels(queue: seq<Entry>, lo: nat)
  {
    && (forall k, l :: 0 <= k <= l < |queue| ==> |queue[k].1| <= |queue[l].1|)
    && (forall k :: 0 <= k < |queue| ==> lo <= |queue[k].1| <= lo + 1)
  }

  /** Every visited station outside the queue (and other than `skip`) has all its neighbours visited. */
  ghost predicate Expanded(adj: Adjacency, visited: set<Code>, queue: seq<Entry>, skip: set<Code>)
  {
    forall x :: x in visited && x !in skip && !InQueue(queue, x) ==> Closed(adj, x, visited)
  }

  /** Any walk to a station not yet visited has at least `n` stations. */
  ghost predicate Frontier(adj: Adjacency, start: Code, visited: set<Code>, n: nat)
  {
    forall v, w :: v !in visited && WalkFrom(adj, w, start, v) ==> |w| >= n
  }

  /** The set of codes the search can ever touch. */
  function Universe(adj: Adjacency, start: Code): set<Code>
  {
    {start} + set u, i | u in adj && 0 <= i < |adj[u]| :: adj[u][i].target
  }

  ghost predicate OuterInv(adj: Adjacency, start: Code, end: Code, visited: set<Code>,
                           queue: seq<Entry>, universe: set<Code>)
  {
    && start in visited && end !in visited && visited <= universe
    && GoodQueue(adj, start, visited, queue)
    && (queue != [] ==> Levels(queue, |queue[0].1|))
    && Expanded(adj, visited, queue, {})
  }

  ghost predicate InnerInv(adj: Adjacency, start: Code, end: Code, visited: set<Code>,
                           queue: seq<Entry>, universe: set<Code>,
                           current: Code, p: seq<Code>, j: nat)
  {
    && start in visited && end !in visited && visited <= universe
    && ShortestTo(adj, start, current, p) && Inside(visited, p) && current in visited
    && GoodQueue(adj, start, visited, queue)
    && Levels(queue, |p|)
    && Expanded(adj, visited, queue, {current})
    && j <= |Succ(adj, current)|
    && (forall m :: 0 <= m < j ==> Succ(adj, current)[m].target in visited)
    && Frontier(adj, start, visited, |p| + 1)
  }

  /** Every visited station has had its list read or is still queued. */
  predicate Accounted(visited: set<Code>, read: set<Code>, queue: seq<Entry>)
  {
    forall c :: c in visited ==> c in read || InQueue(queue, c)
  }

  lemma AccountedPop(visited: set<Code>, read: set<Code>, queue: seq<Entry>)
    requires Accounted(visited, read, queue) && queue != []
    ensures Accounted(visited, read + {queue[0].0}, queue[1..])
  {
    forall c | c in visited && c !in read && c != queue[0].0
      ensures InQueue(queue[1..], c)
    {
      InQueueTail(queue, c);
    }
  }

  lemma AccountedPush(visited: set<Code>, read: set<Code>, queue: seq<Entry>, e: Entry)
    requires Accounted(visited, read, queue)
    ensures Accounted(visited + {e.0}, read, queue + [e])
  {
    var q := queue + [e];
    forall c | c in visited + {e.0} && c !in read
      ensures InQueue(q, c)
    {
      if c == e.0 {
        assert q[|queue|].0 == c;
      } else {
        var k :| 0 <= k < |queue| && queue[k].0 == c;
        assert q[k].0 == c;
      }
    }
  }

  /**
   When `end` turns up as a neighbour of `current`, every station with a walk
   shorter than the path to `current` has been expanded already, and so has
   every station of that path.
   */
  lemma NearRead(adj: Adjacency, start: Code, visited: set<Code>, queue: seq<Entry>,
                 current: Code, p: seq<Code>, read: set<Code>)
    requires Frontier(adj, start, visited, |p| + 1) && GoodQueue(adj, start, visited, queue)
    requires forall k :: 0 <= k < |queue| ==> |p| <= |queue[k].1|
    requires WalkFrom(adj, p, start, current)
    requires Accounted(visited, read, queue) && current in read
    ensures forall c, w :: WalkFrom(adj, w, start, c) && |w| < |p| ==> c in read
    ensures forall i :: 0 <= i < |p| ==> p[i] in read
  {
    forall c, w | WalkFrom(adj, w, start, c) && |w| < |p|
      ensures c in read
    {
      NearOne(adj, start, visited, queue, |p|, read, c, w);
    }
    forall i | 0 <= i < |p| - 1
      ensures p[i] in read
    {
      WalkFromPrefix(adj, p, start, current, i + 1);
      NearOne(adj, start, visited, queue, |p|, read, p[i], p[..i + 1]);
    }
  }

  /** A station with a walk shorter than every queued path is neither unvisited nor queued. */
  lemma NearOne(adj: Adjacency, start: Code, visited: set<Code>, queue: seq<Entry>, n: nat,
                read: set<Code>, c: Code, w: seq<Code>)
    requires Frontier(adj, start, visited, n + 1) && GoodQueue(adj, start, visited, queue)
    requires forall k :: 0 <= k < |queue| ==> n <= |queue[k].1|
    requires Accounted(visited, read, queue)
    requires WalkFrom(adj, w, start, c) && |w| < n
    ensures c in read
  {
    assert c in visited;
    forall k | 0 <= k < |queue|
      ensures queue[k].0 != c
    {
      assert ShortestTo(adj, start, queue[k].0, queue[k].1);
    }
  }

  /** The answer found on arrival at `end` comes with the lists the search has read. */
  lemma ArriveReads(adj: Adjacency, stations: map<Code, Station>, start: Code, end: Code, visited: set<Code>,
                    queue: seq<Entry>, universe: set<Code>, current: Code, p: seq<Code>, j: nat, read: set<Code>)
    requires InnerInv(adj, start, end, visited, queue, universe, current, p, j)
    requires Accounted(visited, read, queue) && current in read
    requires WalkFrom(adj, p + [end], start, end)
    ensures BfsReads(adj, stations, start, end, p + [end], read)
  {
    NearRead(adj, start, visited, queue, current, p, read);
    var path := p + [end];
    forall c, w | WalkFrom(adj, w, start, c) && (forall w' :: WalkFrom(adj, w', start, end) ==> |w| + 1 < |w'|)
      ensures c in read
    {
      assert |w| + 1 < |path|;
    }
    assert forall i :: 0 <= i < |path| - 1 ==> path[i] == p[i];
  }

  /** With the queue empty, every station reachable from `start` has been expanded. */
  lemma ExhaustedReads(adj: Adjacency, stations: map<Code, Station>, start: Code, end: Code,
                       visited: set<Code>, universe: set<Code>, read: set<Code>)
    requires OuterInv(adj, start, end, visited, [], universe) && Accounted(visited, read, [])
    ensures BfsReads(adj, stations, start, end, [], read)
  {
    forall c, w | WalkFrom(adj, w, start, c)
      ensures c in read
    {
      WalkStaysIn(adj, visited, w);
    }
  }

  /** A visited station with an unvisited neighbour has not been expanded yet, so it is queued. */
  lemma ExitQueued(adj: Adjacency, visited: set<Code>, queue: seq<Entry>, x: Code, y: Code)
    requires Expanded(adj, visited, queue, {})
    requires x in visited && y !in visited && HasEdge(adj, x, y)
    ensures InQueue(queue, x)
  {
    var i :| 0 <= i < |Succ(adj, x)| && Succ(adj, x)[i].target == y;
    assert !Closed(adj, x, visited);
  }

  /**
   The level argument of breadth-first search, for one walk: a walk to a
   station not yet visited leaves the visited set from some queued station,
   so it is at least one stop longer than the front of the queue.
   */
  lemma FrontierWalk(adj: Adjacency, start: Code, visited: set<Code>, queue: seq<Entry>,
                     v: Code, w: seq<Code>)
    requires |queue| > 0 && start in visited
    requires GoodQueue(adj, start, visited, queue)
    requires forall k :: 0 <= k < |queue| ==> |queue[0].1| <= |queue[k].1|
    requires Expanded(adj, visited, queue, {})
    requires v !in visited && WalkFrom(adj, w, start, v)
    ensures |w| >= |queue[0].1| + 1
  {
    var k := FirstExit(w, visited);
    var x := w[k - 1];
    WalkStep(adj, w, k);
    ExitQueued(adj, visited, queue, x, w[k]);
    var m :| 0 <= m < |queue| && queue[m].0 == x;
    WalkFromPrefix(adj, w, start, v, k);
    ShorterThan(adj, start, x, queue[m].1, w[..k]);
  }

  lemma ShorterThan(adj: Adjacency, start: Code, x: Code, p: seq<Code>, w: seq<Code>)
    requires ShortestTo(adj, start, x, p) && WalkFrom(adj, w, start, x)
    ensures |p| <= |w|
  {
  }

  lemma FrontierBound(adj: Adjacency, start: Code, visited: set<Code>, queue: seq<Entry>)
    requires |queue| > 0 && start in visited
    requires GoodQueue(adj, start, visited, queue)
    requires forall k :: 0 <= k < |queue| ==> |queue[0].1| <= |queue[k].1|
    requires Expanded(adj, visited, queue, {})
    ensures Frontier(adj, start, visited, |queue[0].1| + 1)
  {
    forall v, w | v !in visited && WalkFrom(adj, w, start, v)
      ensures |w| >= |queue[0].1| + 1
    {
      FrontierWalk(adj, start, visited, queue, v, w);
    }
  }

  lemma InQueueTail(queue: seq<Entry>, x: Code)
    requires InQueue(queue, x) && queue != [] && queue[0].0 != x
    ensures InQueue(queue[1..], x)
  {
    var k :| 0 <= k < |queue| && queue[k].0 == x;
    assert queue[1..][k - 1].0 == x;
  }

  /** Popping the front entry: its station is being expanded, the rest of the queue stays put. */
  lemma PopFront(adj: Adjacency, start: Code, end: Code, visited: set<Code>,
                 queue: seq<Entry>, universe: set<Code>)
    requires OuterInv(adj, start, end, visited, queue, universe) && queue != []
    ensures InnerInv(adj, start, end, visited, queue[1..], universe, queue[0].0, queue[0].1, 0)
  {
    FrontierBound(adj, start, visited, queue);
    var current := queue[0].0;
    forall x | x in visited && x != current && InQueue(queue, x)
      ensures InQueue(queue[1..], x)
    {
      InQueueTail(queue, x);
    }
    assert GoodQueue(adj, start, visited, queue[1..]) by {
      forall k | 0 <= k < |queue[1..]|
        ensures queue[1..][k] == queue[k + 1]
      {
      }
    }
  }

  lemma GoodQueueGrow(adj: Adjacency, start: Code, visited: set<Code>, queue: seq<Entry>, e: Entry)
    requires GoodQueue(adj, start, visited, queue)
    requires e.0 in visited + {e.0} && Inside(visited + {e.0}, e.1) && ShortestTo(adj, start, e.0, e.1)
    ensures GoodQueue(adj, start, visited + {e.0}, queue + [e])
  {
    var v := visited + {e.0};
    var q := queue + [e];
    forall k | 0 <= k < |q|
      ensures q[k].0 in v && Inside(v, q[k].1) && ShortestTo(adj, start, q[k].0, q[k].1)
    {
      if k < |queue| {
        assert q[k] == queue[k];
      }
    }
  }

  lemma ExpandedGrow(adj: Adjacency, visited: set<Code>, queue: seq<Entry>, current: Code, e: Entry)
    requires Expanded(adj, visited, queue, {current})
    ensures Expanded(adj, visited + {e.0}, queue + [e], {current})
  {
    var v := visited + {e.0};
    var q := queue + [e];
    forall x | x in v && x !in {current} && !InQueue(q, x)
      ensures Closed(adj, x, v)
    {
      forall k | 0 <= k < |queue|
        ensures queue[k].0 != x
      {
        assert q[k] == queue[k];
      }
      assert q[|queue|] == e;
    }
  }

  lemma NewShortest(adj: Adjacency, start: Code, visited: set<Code>, current: Code, p: seq<Code>, n: Code)
    requires ShortestTo(adj, start, current, p) && Inside(visited, p)
    requires Frontier(adj, start, visited, |p| + 1)
    requires HasEdge(adj, current, n) && n !in visited
    ensures ShortestTo(adj, start, n, p + [n]) && Inside(visited + {n}, p + [n])
  {
    WalkExtend(adj, p, n);
    assert WalkFrom(adj, p + [n], start, n);
  }

  /** Enqueueing an unvisited neighbour keeps every invariant of the scan. */
  lemma Discover(adj: Adjacency, start: Code, end: Code, visited: set<Code>,
                 queue: seq<Entry>, universe: set<Code>, current: Code, p: seq<Code>, j: nat)
    requires InnerInv(adj, start, end, visited, queue, universe, current, p, j)
    requires j < |Succ(adj, current)|
    requires Succ(adj, current)[j].target !in visited
    requires Succ(adj, current)[j].target != end
    requires universe == Universe(adj, start)
    ensures var n := Succ(adj, current)[j].target;
      InnerInv(adj, start, end, visited + {n}, queue + [(n, p + [n])], universe, current, p, j + 1)
  {
    var es := Succ(adj, current);
    var n := es[j].target;
    assert current in adj && n == adj[current][j].target;
    assert n in universe;
    assert HasEdge(adj, current, n);
    NewShortest(adj, start, visited, current, p, n);
    GoodQueueGrow(adj, start, visited, queue, (n, p + [n]));
    ExpandedGrow(adj, visited, queue, current, (n, p + [n]));
    LevelsGrow(queue, |p|, (n, p + [n]));
    assert Inside(visited + {n}, p);
    assert Frontier(adj, start, visited + {n}, |p| + 1);
  }

  lemma LevelsGrow(queue: seq<Entry>, lo: nat, e: Entry)
    requires Levels(queue, lo) && |e.1| == lo + 1
    ensures Levels(queue + [e], lo)
  {
    var q := queue + [e];
    assert forall k :: 0 <= k < |queue| ==> q[k] == queue[k];
  }

  /** A neighbour already visited is passed over. */
  lemma Skip(adj: Adjacency, start: Code, end: Code, visited: set<Code>,
             queue: seq<Entry>, universe: set<Code>, current: Code, p: seq<Code>, j: nat)
    requires InnerInv(adj, start, end, visited, queue, universe, current, p, j)
    requires j < |Succ(adj, current)| && Succ(adj, current)[j].target in visited
    ensures InnerInv(adj, start, end, visited, queue, universe, current, p, j + 1)
  {
  }

  /** One turn of the scan: a visited neighbour is passed over, an unvisited one other than `end` is enqueued. */
  lemma ScanStep(adj: Adjacency, start: Code, end: Code, visited: set<Code>, queue: seq<Entry>,
                 universe: set<Code>, current: Code, p: seq<Code>, j: nat, n: Code,
                 visited': set<Code>, queue': seq<Entry>)
    requires InnerInv(adj, start, end, visited, queue, universe, current, p, j)
    requires universe == Universe(adj, start)
    requires j < |Succ(adj, current)| && n == Succ(adj, current)[j].target && (n in visited || n != end)
    requires if n in visited then visited' == visited && queue' == queue
             else visited' == visited + {n} && queue' == queue + [(n, p + [n])]
    ensures InnerInv(adj, start, end, visited', queue', universe, current, p, j + 1)
  {
    if n in visited {
      Skip(adj, start, end, visited, queue, universe, current, p, j);
    } else {
      Discover(adj, start, end, visited, queue, universe, current, p, j);
    }
  }

  /** After the whole list of `current` is scanned, the outer invariant holds again. */
  lemma FinishScan(adj: Adjacency, start: Code, end: Code, visited: set<Code>,
                   queue: seq<Entry>, universe: set<Code>, current: Code, p: seq<Code>)
    requires InnerInv(adj, start, end, visited, queue, universe, current, p, |Succ(adj, current)|)
    ensures OuterInv(adj, start, end, visited, queue, universe)
  {
    assert Closed(adj, current, visited);
  }

  /** An unvisited neighbour equal to `end` completes a shortest simple walk. */
  lemma Arrive(adj: Adjacency, stations: map<Code, Station>, start: Code, end: Code, visited: set<Code>,
               queue: seq<Entry>, universe: set<Code>, current: Code, p: seq<Code>, j: nat)
    requires InnerInv(adj, start, end, visited, queue, universe, current, p, j)
    requires j < |Succ(adj, current)| && Succ(adj, current)[j].target == end
    requires start in adj && end in stations && start != end
    ensures BfsOutcome(adj, stations, start, end, p + [end], |p|)
  {
    assert HasEdge(adj, current, end);
    NewShortest(adj, start, visited, current, p, end);
    ShortestOutcome(adj, stations, start, end, p + [end]);
  }

  /** A shortest simple walk from a known start to a different known station is the answer. */
  lemma ShortestOutcome(adj: Adjacency, stations: map<Code, Station>, start: Code, end: Code, path: seq<Code>)
    requires ShortestTo(adj, start, end, path)
    requires start in adj && end in stations && start != end
    ensures BfsOutcome(adj, stations, start, end, path, |path| - 1)
  {
  }

  lemma FewerLeft(universe: set<Code>, before: set<Code>, after: set<Code>)
    requires before < after <= universe
    ensures |universe - after| < |universe - before|
  {
    var x :| x in after && x !in before;
    var left := universe - before;
    assert universe - after <= left - {x};
    assert |left - {x}| == |left| - 1;
    SubsetCard(universe - after, left - {x});
  }

  lemma {:induction false} SubsetCard(a: set<Code>, b: set<Code>)
    requires a <= b
    ensures |a| <= |b|
    decreases |b|
  {
    if a != {} {
      var x :| x in a;
      SubsetCard(a - {x}, b - {x});
    }
  }

  /** The main loop of `bfs_shortest_path`, once the early returns are past. */
  method Explore(adj: Adjacency, stations: map<Code, Station>, start: Code, end: Code)
    returns (path: seq<Code>, stops: nat, read: set<Code>)
    requires start in adj && end in stations && start != end
    ensures BfsOutcome(adj, stations, start, end, path, stops)
    ensures forall c :: c in read ==> Reachable(adj, start, c)
    ensures BfsReads(adj, stations, start, end, path, read)
    ensures path != [] ==> forall c :: c in read ==> WithinStations(adj, start, c, |path|)
  {
    read := {};
    var queue: seq<Entry> := [(start, [start])];
    var visited: set<Code> := {start};
    ghost var universe := Universe(adj, start);
    assert ShortestTo(adj, start, start, [start]);
    while queue != []
      invariant OuterInv(adj, start, end, visited, queue, universe)
      invariant universe == Universe(adj, start)
      invariant forall c :: c in read ==> Reachable(adj, start, c)
      invariant Accounted(visited, read, queue)
      invariant queue != [] ==> forall c :: c in read ==> WithinStations(adj, start, c, |queue[0].1| + 1)
      decreases |universe - visited|, |queue|
    {
      var found;
      visited, queue, read, found, path := Expand(adj, stations, start, end, visited, queue, universe, read);
      if found {
        return path, |path| - 1, read;
      }
    }
    ClosedUnreachable(adj, visited, start, end);
    ExhaustedReads(adj, stations, start, end, visited, universe, read);
    return [], 0, read;
  }

  /**
   One turn of the main loop: pops the front of the queue, reads its list and
   scans it; `found` says the scan met `end`, and `path` is then the answer.
   */
  method Expand(adj: Adjacency, stations: map<Code, Station>, start: Code, end: Code,
                visited: set<Code>, queue: seq<Entry>, ghost universe: set<Code>, read: set<Code>)
    returns (visited': set<Code>, queue': seq<Entry>, read': set<Code>, found: bool, path: seq<Code>)
    requires start in adj && end in stations && start != end
    requires OuterInv(adj, start, end, visited, queue, universe) && universe == Universe(adj, start) && queue != []
    requires forall c :: c in read ==> Reachable(adj, start, c)
    requires Accounted(visited, read, queue)
    requires forall c :: c in read ==> WithinStations(adj, start, c, |queue[0].1| + 1)
    ensures forall c :: c in read' ==> Reachable(adj, start, c)
    ensures found ==> path != [] && BfsOutcome(adj, stations, start, end, path, |path| - 1)
    ensures found ==> BfsReads(adj, stations, start, end, path, read')
    ensures found ==> forall c :: c in read' ==> WithinStations(adj, start, c, |path|)
    ensures !found ==> OuterInv(adj, start, end, visited', queue', universe) && Accounted(visited', read', queue')
    ensures !found && queue' != [] ==> forall c :: c in read' ==> WithinStations(adj, start, c, |queue'[0].1| + 1)
    ensures !found ==> |universe - visited'| < |universe - visited| || (visited' == visited && |queue'| < |queue|)
  {
    var current := queue[0].0;
    var p := queue[0].1;
    PopFront(adj, start, end, visited, queue, universe);
    AccountedPop(visited, read, queue);
    assert WalkFrom(adj, p, start, current);
    ReadCurrent(adj, start, read, current, p, read + {current});
    read' := read + {current};
    visited', queue', found := ScanNeighbours(adj, stations, start, end, visited, queue[1..], universe,
                                             current, p, read');
    path := p + [end];
    if !found {
      if visited' != visited {
        FewerLeft(universe, visited, visited');
      }
      if queue' != [] {
        WithinMore(adj, start, read', |p| + 1, |queue'[0].1| + 1);
      }
    }
  }

  /**
   Goes through the list of `current` in order, queueing every unvisited
   neighbour with the path to it; `found` says the neighbour was `end`, which
   stops the scan.
   */
  method ScanNeighbours(adj: Adjacency, stations: map<Code, Station>, start: Code, end: Code,
                        visited: set<Code>, queue: seq<Entry>, ghost universe: set<Code>,
                        current: Code, p: seq<Code>, ghost read: set<Code>)
    returns (visited': set<Code>, queue': seq<Entry>, found: bool)
    requires start in adj && end in stations && start != end
    requires InnerInv(adj, start, end, visited, queue, universe, current, p, 0)
    requires universe == Universe(adj, start)
    requires Accounted(visited, read, queue) && current in read
    ensures found ==> BfsOutcome(adj, stations, start, end, p + [end], |p|)
    ensures found ==> BfsReads(adj, stations, start, end, p + [end], read)
    ensures !found ==> OuterInv(adj, start, end, visited', queue', universe) && Accounted(visited', read, queue')
    ensures !found ==> visited <= visited' && (visited' == visited ==> queue' == queue)
    ensures !found ==> forall k :: 0 <= k < |queue'| ==> |p| <= |queue'[k].1|
  {
    visited', queue', found := visited, queue, false;
    var es := Succ(adj, current);
    var j := 0;
    while j < |es|
      invariant InnerInv(adj, start, end, visited', queue', universe, current, p, j)
      invariant visited <= visited'
      invariant visited' == visited ==> queue' == queue
      invariant Accounted(visited', read, queue')
    {
      var neighbor := es[j].target;
      ghost var visited1, queue1 := visited', queue';
      if neighbor !in visited' {
        var newPath := p + [neighbor];
        if neighbor == end {
          Arrive(adj, stations, start, end, visited', queue', universe, current, p, j);
          ArriveReads(adj, stations, start, end, visited', queue', universe, current, p, j, read);
          return visited', queue', true;
        }
        AccountedPush(visited', read, queue', (neighbor, newPath));
        visited' := visited' + {neighbor};
        queue' := queue' + [(neighbor, newPath)];
      }
      ScanStep(adj, start, end, visited1, queue1, universe, current, p, j, neighbor, visited', queue');
      j := j + 1;
    }
    FinishScan(adj, start, end, visited', queue', universe, current, p);
  }

  /** Reading the list of the station just popped keeps every read code within its level. */
  lemma ReadCurrent(adj: Adjacency, start: Code, read: set<Code>, current: Code, p: seq<Code>, read': set<Code>)
    requires WalkFrom(adj, p, start, current) && read' == read + {current}
    requires forall c :: c in read ==> WithinStations(adj, start, c, |p| + 1)
    ensures forall c :: c in read' ==> WithinStations(adj, start, c, |p| + 1)
  {
    assert WithinStations(adj, start, current, |p| + 1);
  }

  /** A bound of fewer than `n` stations is also a bound of fewer than any `m >= n`. */
  lemma WithinMore(adj: Adjacency, start: Code, read: set<Code>, n: nat, m: nat)
    requires n <= m && forall c :: c in read ==> WithinStations(adj, start, c, n)
    ensures forall c :: c in read ==> WithinStations(adj, start, c, m)
  {
    forall c | c in read
      ensures WithinStations(adj, start, c, m)
    {
      var w :| WalkFrom(adj, w, start, c) && |w| < n;
    }
  }

  /** `bfs_shortest_path`: returns the path, its number of stops and the codes whose list was read. */
  method ShortestPath(adj: Adjacency, stations: map<Code, Station>, start: Code, end: Code)
    returns (path: seq<Code>, stops: nat, read: set<Code>)
    ensures BfsOutcome(adj, stations, start, end, path, stops)
    ensures forall c :: c in read ==> Reachable(adj, start, c)
    ensures BfsReads(adj, stations, start, end, path, read)
    ensures path != [] ==> forall c :: c in read ==> WithinStations(adj, start, c, |path|)
    ensures start !in adj || end !in stations || start == end ==> read == {}
  {
    if start !in adj || end !in stations {
      return [], 0, {};
    }
    if start == end {
      assert WalkFrom(adj, [start], start, end);
      return [start], 0, {};
    }
    path, stops, read := Explore(adj, stations, start, end);
  }
}
