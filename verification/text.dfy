/**
 Python's ordering of `str` values (lexicographic by code point) and the two
 sorts the graph store performs with it.
 */
module Text {

  /** `a` sorts strictly before `b`. */
  predicate Less(a: string, b: string)
    decreases |a|
  {
    |b| > 0 && (|a| == 0 || a[0] < b[0] || (a[0] == b[0] && Less(a[1..], b[1..])))
  }

  lemma {:induction false} LessIrreflexive(a: string)
    ensures !Less(a, a)
    decreases |a|
  {
    if |a| > 0 {
      LessIrreflexive(a[1..]);
    }
  }

  lemma {:induction false} LessTransitive(a: string, b: string, c: string)
    requires Less(a, b) && Less(b, c)
    ensures Less(a, c)
    decreases |a|
  {
    if |a| > 0 && a[0] == b[0] && b[0] == c[0] {
      LessTransitive(a[1..], b[1..], c[1..]);
    }
  }

  /** Two different strings are ordered one way or the other. */
  lemma {:induction false} LessTotal(a: string, b: string)
    requires a != b
    ensures Less(a, b) || Less(b, a)
    decreases |a|
  {
    if |a| > 0 && |b| > 0 && a[0] == b[0] {
      assert a == [a[0]] + a[1..] && b == [b[0]] + b[1..];
      LessTotal(a[1..], b[1..]);
    }
  }

  lemma {:induction false} LessAsymmetric(a: string, b: string)
    requires Less(a, b)
    ensures !Less(b, a)
    decreases |a|
  {
    if |a| > 0 && a[0] == b[0] {
      LessAsymmetric(a[1..], b[1..]);
    }
  }

  /** Strictly increasing: sorted and free of duplicates. */
  predicate Increasing(s: seq<string>)
  {
    forall i, j :: 0 <= i < j < |s| ==> Less(s[i], s[j])
  }

  /** Every element of `s` sorts after `x`. */
  predicate Above(s: seq<string>, x: string)
  {
    forall i :: 0 <= i < |s| ==> Less(x, s[i])
  }

  lemma ConsIncreasing(x: string, s: seq<string>)
    requires Increasing(s) && Above(s, x)
    ensures Increasing([x] + s)
  {
    var r := [x] + s;
    forall i, j | 0 <= i < j < |r| ensures Less(r[i], r[j]) {
      assert r[j] == s[j - 1];
      if i > 0 { assert r[i] == s[i - 1]; }
    }
  }

  /** Inserts `x` into an increasing sequence unless it is already there. */
  function InsertUnique(x: string, s: seq<string>): seq<string>
    decreases |s|
  {
    if s == [] || Less(x, s[0]) then [x] + s
    else if x == s[0] then s
    else [s[0]] + InsertUnique(x, s[1..])
  }

  /** Insertion keeps the sequence increasing and adds exactly `x` to its elements. */
  lemma {:induction false} InsertUniqueSpec(x: string, s: seq<string>)
    requires Increasing(s)
    ensures Increasing(InsertUnique(x, s))
    ensures forall y :: y in InsertUnique(x, s) <==> y in s || y == x
    decreases |s|
  {
    if s == [] {
    } else if Less(x, s[0]) {
      forall j | 0 <= j < |s| ensures Less(x, s[j]) {
        if j > 0 { LessTransitive(x, s[0], s[j]); }
      }
      ConsIncreasing(x, s);
    } else if x != s[0] {
      LessTotal(x, s[0]);
      var u := s[1..];
      assert s == [s[0]] + u;
      assert Increasing(u) by {
        forall i, j | 0 <= i < j < |u| ensures Less(u[i], u[j]) { assert u[i] == s[i + 1] && u[j] == s[j + 1]; }
      }
      InsertUniqueSpec(x, u);
      var t := InsertUnique(x, u);
      forall i | 0 <= i < |t| ensures Less(s[0], t[i]) {
        var y := t[i];
        if y != x {
          assert y in t;
          assert y in u;
          var j :| 0 <= j < |u| && u[j] == y;
          assert Less(s[0], s[j + 1]);
        }
      }
      ConsIncreasing(s[0], t);
    }
  }

  /** `sorted(set(xs))`: the distinct elements of `xs` in increasing order. */
  function SortedSet(xs: seq<string>): seq<string>
  {
    if xs == [] then [] else InsertUnique(xs[|xs| - 1], SortedSet(xs[..|xs| - 1]))
  }

  /** The result is increasing and holds exactly the elements of `xs`. */
  lemma {:induction false} SortedSetSpec(xs: seq<string>)
    ensures Increasing(SortedSet(xs))
    ensures forall y :: y in SortedSet(xs) <==> y in xs
  {
    if xs != [] {
      var init := xs[..|xs| - 1];
      SortedSetSpec(init);
      InsertUniqueSpec(xs[|xs| - 1], SortedSet(init));
      assert xs == init + [xs[|xs| - 1]];
    }
  }

  /** In an increasing sequence the elements are pairwise different, so it is no longer than their set. */
  lemma {:induction false} IncreasingCard(s: seq<string>)
    requires Increasing(s)
    ensures |(set y | y in s)| == |s|
  {
    if s != [] {
      var t := s[1..];
      assert Increasing(t);
      IncreasingCard(t);
      assert s[0] !in t by {
        forall j | 0 <= j < |t| ensures t[j] != s[0] { LessIrreflexive(s[0]); assert Less(s[0], s[j + 1]); }
      }
      assert (set y | y in s) == (set y | y in t) + {s[0]};
    }
  }

  /**
   Stable insertion sort by the second component: a pair with an equal key
   goes after the pairs already placed, as Python's `sorted(..., key=...)`
   keeps equal keys in input order.
   */
  predicate SortedByName<T>(s: seq<(T, string)>)
  {
    forall i, j :: 0 <= i < j < |s| ==> !Less(s[j].1, s[i].1)
  }

  /** The pairs of `s` whose key is `k`, in their order in `s`. */
  function WithName<T>(s: seq<(T, string)>, k: string): (r: seq<(T, string)>)
    ensures |r| <= |s|
  {
    if s == [] then []
    else (if s[0].1 == k then [s[0]] else []) + WithName(s[1..], k)
  }

  function InsertByName<T>(e: (T, string), s: seq<(T, string)>): (r: seq<(T, string)>)
    decreases |s|
  {
    if s == [] || Less(e.1, s[0].1) then [e] + s else [s[0]] + InsertByName(e, s[1..])
  }

  /** `sorted(pairs, key=lambda x: x[1])`. */
  function SortByName<T>(s: seq<(T, string)>): (r: seq<(T, string)>)
  {
    if s == [] then [] else InsertByName(s[|s| - 1], SortByName(s[..|s| - 1]))
  }

  /** No pair of `s` is named below `k`. */
  predicate NoneBelow<T>(s: seq<(T, string)>, k: string)
  {
    forall i :: 0 <= i < |s| ==> !Less(s[i].1, k)
  }

  lemma ConsSorted<T>(x: (T, string), u: seq<(T, string)>)
    requires SortedByName(u) && NoneBelow(u, x.1)
    ensures SortedByName([x] + u)
  {
    var r := [x] + u;
    forall i, j | 0 <= i < j < |r| ensures !Less(r[j].1, r[i].1) {
      assert r[j] == u[j - 1];
      if i > 0 { assert r[i] == u[i - 1]; }
    }
  }

  lemma {:induction false} InsertNoneBelow<T>(e: (T, string), s: seq<(T, string)>, k: string)
    requires NoneBelow(s, k) && !Less(e.1, k)
    ensures NoneBelow(InsertByName(e, s), k)
    decreases |s|
  {
    if s != [] && !Less(e.1, s[0].1) {
      InsertNoneBelow(e, s[1..], k);
      var u := InsertByName(e, s[1..]);
      assert forall i :: 0 < i < |[s[0]] + u| ==> ([s[0]] + u)[i] == u[i - 1];
    }
  }

  /** Inserting into a sequence sorted by name keeps it sorted. */
  lemma {:induction false} InsertByNameSorted<T>(e: (T, string), s: seq<(T, string)>)
    requires SortedByName(s)
    ensures SortedByName(InsertByName(e, s))
    decreases |s|
  {
    if s == [] {
    } else if Less(e.1, s[0].1) {
      forall j | 0 <= j < |s| ensures !Less(s[j].1, e.1) {
        if j > 0 && s[j].1 != s[0].1 {
          LessTotal(s[j].1, s[0].1);
          LessTransitive(e.1, s[0].1, s[j].1);
          LessAsymmetric(e.1, s[j].1);
        } else {
          LessAsymmetric(e.1, s[0].1);
        }
      }
      ConsSorted(e, s);
    } else {
      var t := s[1..];
      assert SortedByName(t) by {
        forall i, j | 0 <= i < j < |t| ensures !Less(t[j].1, t[i].1) { assert t[i] == s[i + 1] && t[j] == s[j + 1]; }
      }
      assert NoneBelow(t, s[0].1) by {
        forall i | 0 <= i < |t| ensures !Less(t[i].1, s[0].1) { assert t[i] == s[i + 1]; }
      }
      InsertByNameSorted(e, t);
      InsertNoneBelow(e, t, s[0].1);
      ConsSorted(s[0], InsertByName(e, t));
    }
  }

  lemma {:induction false} InsertByNameCount<T>(e: (T, string), s: seq<(T, string)>)
    ensures multiset(InsertByName(e, s)) == multiset(s) + multiset{e}
    decreases |s|
  {
    if s != [] && !Less(e.1, s[0].1) {
      InsertByNameCount(e, s[1..]);
      assert s == [s[0]] + s[1..];
    }
  }

  /** The sort orders by name and keeps every pair exactly as often as the input does. */
  lemma {:induction false} SortByNameSorted<T>(s: seq<(T, string)>)
    ensures SortedByName(SortByName(s))
    ensures multiset(SortByName(s)) == multiset(s)
  {
    if s != [] {
      var init := s[..|s| - 1];
      SortByNameSorted(init);
      InsertByNameSorted(s[|s| - 1], SortByName(init));
      InsertByNameCount(s[|s| - 1], SortByName(init));
      assert s == init + [s[|s| - 1]];
    }
  }

  lemma {:induction false} WithNameAppend<T>(a: seq<(T, string)>, b: seq<(T, string)>, k: string)
    ensures WithName(a + b, k) == WithName(a, k) + WithName(b, k)
  {
    if a != [] {
      WithNameAppend(a[1..], b, k);
      var h := if a[0].1 == k then [a[0]] else [];
      assert (a + b)[0] == a[0] && (a + b)[1..] == a[1..] + b;
      assert WithName(a + b, k) == h + WithName(a[1..] + b, k);
      assert WithName(a, k) == h + WithName(a[1..], k);
      assert h + (WithName(a[1..], k) + WithName(b, k)) == (h + WithName(a[1..], k)) + WithName(b, k);
    } else {
      assert a + b == b;
    }
  }

  /** Inserting a pair into a sorted sequence puts it after every pair with the same name. */
  lemma {:induction false} InsertByNameStable<T>(e: (T, string), s: seq<(T, string)>, k: string)
    requires SortedByName(s)
    ensures WithName(InsertByName(e, s), k) == WithName(s, k) + (if e.1 == k then [e] else [])
    decreases |s|
  {
    if s == [] {
    } else if Less(e.1, s[0].1) {
      if e.1 == k {
        NoneNamed(s, k);
      }
    } else {
      var t := s[1..];
      assert SortedByName(t) by {
        forall i, j | 0 <= i < j < |t| ensures !Less(t[j].1, t[i].1) { assert t[i] == s[i + 1] && t[j] == s[j + 1]; }
      }
      InsertByNameStable(e, t, k);
    }
  }

  /** No pair of a sorted sequence is named below its head. */
  lemma NoneNamed<T>(s: seq<(T, string)>, k: string)
    requires SortedByName(s) && s != [] && Less(k, s[0].1)
    ensures WithName(s, k) == []
  {
    forall m | 0 <= m < |s|
      ensures s[m].1 != k
    {
      if m > 0 {
        assert !Less(s[m].1, s[0].1);
      } else {
        LessIrreflexive(k);
      }
    }
    NamedNowhere(s, k);
  }

  lemma {:induction false} NamedNowhere<T>(s: seq<(T, string)>, k: string)
    requires forall m :: 0 <= m < |s| ==> s[m].1 != k
    ensures WithName(s, k) == []
  {
    if s != [] {
      NamedNowhere(s[1..], k);
    }
  }

  /** Stability: for each name, the pairs carrying it come out in their input order. */
  lemma {:induction false} SortByNameStable<T>(s: seq<(T, string)>, k: string)
    ensures WithName(SortByName(s), k) == WithName(s, k)
  {
    if s != [] {
      var init, e := s[..|s| - 1], s[|s| - 1];
      SortByNameStable(init, k);
      SortByNameSorted(init);
      InsertByNameStable(e, SortByName(init), k);
      assert s == init + [e];
      WithNameAppend(init, [e], k);
    }
  }
}
