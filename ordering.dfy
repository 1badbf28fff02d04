/** The orderings the library gets from Python's sorted(): string comparison,
    sorted(set(...)) over a strict total order, and the stable descending sort
    of (word, count) items by count. */
module Ordering {

  /** Python's str < : code-point lexicographic order, a proper prefix first. */
  predicate StrLess(a: string, b: string)
    decreases |a|
  {
    if |a| == 0 then |b| > 0
    else if |b| == 0 then false
    else if a[0] != b[0] then a[0] < b[0]
    else StrLess(a[1..], b[1..])
  }

  lemma {:induction false} StrLessIrreflexive(a: string)
    ensures !StrLess(a, a)
    decreases |a|
  {
    if |a| > 0 {
      StrLessIrreflexive(a[1..]);
    }
  }

  lemma {:induction false} StrLessTransitive(a: string, b: string, c: string)
    requires StrLess(a, b) && StrLess(b, c)
    ensures StrLess(a, c)
    decreases |a|
  {
    if |a| > 0 && a[0] == b[0] && b[0] == c[0] {
      StrLessTransitive(a[1..], b[1..], c[1..]);
    }
  }

  lemma {:induction false} StrLessTotal(a: string, b: string)
    ensures a == b || StrLess(a, b) || StrLess(b, a)
    decreases |a|
  {
    if |a| > 0 && |b| > 0 && a[0] == b[0] {
      StrLessTotal(a[1..], b[1..]);
      if a[1..] == b[1..] {
        assert a == [a[0]] + a[1..] && b == [b[0]] + b[1..];
      }
    }
  }

  ghost predicate StrictTotalOrder<T(!new)>(less: (T, T) -> bool) {
    && (forall a :: !less(a, a))
    && (forall a, b, c :: less(a, b) && less(b, c) ==> less(a, c))
    && (forall a, b :: a == b || less(a, b) || less(b, a))
  }

  /** String comparison is a strict total order. */
  lemma StrLessIsStrictTotalOrder()
    ensures StrictTotalOrder(StrLess)
  {
    forall a: string { StrLessIrreflexive(a); }
    forall a: string, b: string, c: string | StrLess(a, b) && StrLess(b, c)
      ensures StrLess(a, c)
    {
      StrLessTransitive(a, b, c);
    }
    forall a: string, b: string { StrLessTotal(a, b); }
  }

  predicate StrictlySorted<T>(s: seq<T>, less: (T, T) -> bool) {
    forall i, j :: 0 <= i < j < |s| ==> less(s[i], s[j])
  }

  /** Insert x into a strictly sorted sequence unless it is already there. */
  function InsertUnique<T(==,!new)>(x: T, s: seq<T>, less: (T, T) -> bool): (r: seq<T>)
    ensures forall y :: y in r <==> y == x || y in s
  {
    if s == [] then [x]
    else if x == s[0] then s
    else if less(x, s[0]) then [x] + s
    else [s[0]] + InsertUnique(x, s[1..], less)
  }

  lemma {:induction false} InsertUniqueSorted<T(!new)>(x: T, s: seq<T>, less: (T, T) -> bool)
    requires StrictTotalOrder(less)
    requires StrictlySorted(s, less)
    ensures StrictlySorted(InsertUnique(x, s, less), less)
  {
    if s != [] && x != s[0] && !less(x, s[0]) {
      InsertUniqueSorted(x, s[1..], less);
      var r := InsertUnique(x, s, less);
      var t := InsertUnique(x, s[1..], less);
      assert r == [s[0]] + t;
      assert less(s[0], x);
      forall j | 0 <= j < |t| ensures less(s[0], t[j]) {
        assert t[j] in t;
      }
    }
  }

  /** sorted(set(xs)): the distinct elements of xs in ascending order. */
  function SortedSet<T(==,!new)>(xs: seq<T>, less: (T, T) -> bool): (r: seq<T>)
    ensures forall y :: y in r <==> y in xs
  {
    if xs == [] then [] else InsertUnique(xs[0], SortedSet(xs[1..], less), less)
  }

  lemma {:induction false} SortedSetSorted<T(!new)>(xs: seq<T>, less: (T, T) -> bool)
    requires StrictTotalOrder(less)
    ensures StrictlySorted(SortedSet(xs, less), less)
  {
    if xs != [] {
      SortedSetSorted(xs[1..], less);
      InsertUniqueSorted(xs[0], SortedSet(xs[1..], less), less);
    }
  }

  /** A strictly sorted sequence has no duplicates. */
  lemma StrictlySortedDistinct<T(!new)>(s: seq<T>, less: (T, T) -> bool)
    requires StrictTotalOrder(less)
    requires StrictlySorted(s, less)
    ensures forall i, j :: 0 <= i < j < |s| ==> s[i] != s[j]
  {
    forall i, j | 0 <= i < j < |s| ensures s[i] != s[j] {
      assert less(s[i], s[j]);
    }
  }

  /** The position of the first occurrence of x in s. */
  function IndexOf<T(==,!new)>(s: seq<T>, x: T): (i: nat)
    requires x in s
    ensures i < |s| && s[i] == x
    ensures forall j :: 0 <= j < i ==> s[j] != x
  {
    if s[0] == x then 0 else 1 + IndexOf(s[1..], x)
  }

  // ----- the stable descending sort of (key, count) items by count -----

  predicate SortedByCountDesc<K(!new)>(s: seq<(K, int)>) {
    forall i, j :: 0 <= i < j < |s| ==> s[i].1 >= s[j].1
  }

  /** The items of s whose count is c, in their order in s. */
  function WithCount<K(!new)>(s: seq<(K, int)>, c: int): seq<(K, int)> {
    if s == [] then []
    else (if s[0].1 == c then [s[0]] else []) + WithCount(s[1..], c)
  }

  /** WithCount keeps exactly the items of s with count c. */
  lemma {:induction false} WithCountMembers<K(!new)>(s: seq<(K, int)>, c: int, y: (K, int))
    ensures y in WithCount(s, c) <==> y in s && y.1 == c
  {
    if s != [] {
      WithCountMembers(s[1..], c, y);
      assert s == [s[0]] + s[1..];
    }
  }

  lemma {:induction false} WithCountAppend<K(!new)>(s: seq<(K, int)>, t: seq<(K, int)>, c: int)
    ensures WithCount(s + t, c) == WithCount(s, c) + WithCount(t, c)
  {
    if s != [] {
      WithCountAppend(s[1..], t, c);
      assert (s + t)[1..] == s[1..] + t;
    } else {
      assert s + t == t;
    }
  }

  /** Insert x after every item whose count is at least x's. */
  function InsertByCount<K(!new)>(x: (K, int), s: seq<(K, int)>): seq<(K, int)> {
    if s == [] then [x]
    else if s[0].1 < x.1 then [x] + s
    else [s[0]] + InsertByCount(x, s[1..])
  }

  /** Insertion adds x and keeps every item of s. */
  lemma {:induction false} InsertByCountPermutes<K(!new)>(x: (K, int), s: seq<(K, int)>)
    ensures multiset(InsertByCount(x, s)) == multiset(s) + multiset{x}
  {
    if s != [] && s[0].1 >= x.1 {
      InsertByCountPermutes(x, s[1..]);
      assert s == [s[0]] + s[1..];
    }
  }

  lemma {:induction false} WithCountNone<K(!new)>(s: seq<(K, int)>, c: int)
    requires forall i :: 0 <= i < |s| ==> s[i].1 != c
    ensures WithCount(s, c) == []
  {
    if s != [] {
      WithCountNone(s[1..], c);
    }
  }

  lemma {:induction false} InsertByCountSorted<K(!new)>(x: (K, int), s: seq<(K, int)>)
    requires SortedByCountDesc(s)
    ensures SortedByCountDesc(InsertByCount(x, s))
  {
    if s != [] && s[0].1 >= x.1 {
      var t := InsertByCount(x, s[1..]);
      InsertByCountSorted(x, s[1..]);
      InsertByCountPermutes(x, s[1..]);
      forall j | 0 <= j < |t| ensures s[0].1 >= t[j].1 {
        assert t[j] in multiset(t);
        assert t[j] == x || t[j] in multiset(s[1..]);
      }
    }
  }

  lemma {:induction false} InsertByCountStable<K(!new)>(x: (K, int), s: seq<(K, int)>, c: int)
    requires SortedByCountDesc(s)
    ensures WithCount(InsertByCount(x, s), c) == WithCount(s, c) + (if x.1 == c then [x] else [])
  {
    var tail := if x.1 == c then [x] else [];
    if s == [] {
      assert WithCount([x], c) == tail + WithCount([], c);
    } else if s[0].1 < x.1 {
      if x.1 == c {
        WithCountNone(s, c);
      }
      var r := [x] + s;
      assert InsertByCount(x, s) == r;
      assert r[1..] == s;
      assert WithCount(r, c) == tail + WithCount(s, c);
    } else {
      var head := if s[0].1 == c then [s[0]] else [];
      var t := InsertByCount(x, s[1..]);
      InsertByCountStable(x, s[1..], c);
      assert InsertByCount(x, s) == [s[0]] + t;
      assert ([s[0]] + t)[1..] == t;
      assert WithCount([s[0]] + t, c) == head + WithCount(t, c);
      assert WithCount(s, c) == head + WithCount(s[1..], c);
    }
  }

  /** sorted(items, key=count, reverse=True): Python's sort is stable, also in reverse. */
  function SortByCountDesc<K(!new)>(s: seq<(K, int)>): (r: seq<(K, int)>)
    ensures multiset(r) == multiset(s)
  {
    if s == [] then []
    else
      var p := s[..|s| - 1];
      assert s == p + [s[|s| - 1]];
      InsertByCountPermutes(s[|s| - 1], SortByCountDesc(p));
      InsertByCount(s[|s| - 1], SortByCountDesc(p))
  }

  /** The last item is inserted into the sorted prefix. */
  lemma SortByCountDescLast<K(!new)>(s: seq<(K, int)>)
    requires s != []
    ensures SortByCountDesc(s) == InsertByCount(s[|s| - 1], SortByCountDesc(s[..|s| - 1]))
  {
  }

  /** The sort yields a sequence ordered by descending count. */
  lemma {:induction false} SortByCountDescSorted<K(!new)>(s: seq<(K, int)>)
    ensures SortedByCountDesc(SortByCountDesc(s))
  {
    if s != [] {
      var p := s[..|s| - 1];
      SortByCountDescSorted(p);
      InsertByCountSorted(s[|s| - 1], SortByCountDesc(p));
    }
  }

  /** Inserting x into a sorted sequence with the same items of count c as p
      gives the items of count c of p + [x]. */
  lemma StableStep<K(!new)>(sp: seq<(K, int)>, p: seq<(K, int)>, x: (K, int), c: int)
    requires SortedByCountDesc(sp)
    requires WithCount(sp, c) == WithCount(p, c)
    ensures WithCount(InsertByCount(x, sp), c) == WithCount(p + [x], c)
  {
    InsertByCountStable(x, sp, c);
    WithCountAppend(p, [x], c);
    assert WithCount([x], c) == if x.1 == c then [x] else [];
  }

  /** The items of each count keep their original relative order (stability,
      which Python's sort keeps also with reverse=True). */
  lemma {:induction false} SortByCountDescStable<K(!new)>(s: seq<(K, int)>, c: int)
    ensures WithCount(SortByCountDesc(s), c) == WithCount(s, c)
  {
    if s != [] {
      var p, x := s[..|s| - 1], s[|s| - 1];
      var sp := SortByCountDesc(p);
      var r := SortByCountDesc(s);
      assert s == p + [x];
      SortByCountDescLast(s);
      assert r == InsertByCount(x, sp);
      SortByCountDescStable(p, c);
      SortByCountDescSorted(p);
      StableStep(sp, p, x, c);
    }
  }

  function Keys<K, V>(items: seq<(K, V)>): (r: seq<K>)
    ensures |r| == |items|
    ensures forall i :: 0 <= i < |items| ==> r[i] == items[i].0
  {
    seq(|items|, i requires 0 <= i < |items| => items[i].0)
  }
}
