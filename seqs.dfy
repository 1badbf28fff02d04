/** List combinators shared by the pipeline: a flattening map (the nested list
    comprehension `[y for x in xs for y in f(x)]`), filtering, and sums. */
module Seqs {

  /** The concatenation of f(x) for the elements x of s, in order. */
  function ConcatMap<T, U>(f: T -> seq<U>, s: seq<T>): seq<U> {
    if s == [] then [] else ConcatMap(f, s[..|s| - 1]) + f(s[|s| - 1])
  }

  /** The map distributes over concatenation: order is kept across the two halves. */
  lemma {:induction false} ConcatMapAppend<T, U>(f: T -> seq<U>, a: seq<T>, b: seq<T>)
    ensures ConcatMap(f, a + b) == ConcatMap(f, a) + ConcatMap(f, b)
  {
    if b == [] {
      assert a + b == a;
    } else {
      var b' := b[..|b| - 1];
      var ab := a + b;
      var x := b[|b| - 1];
      ConcatMapAppend(f, a, b');
      assert ab[..|ab| - 1] == a + b';
      assert ab[|ab| - 1] == x;
      calc {
        ConcatMap(f, ab);
        ConcatMap(f, ab[..|ab| - 1]) + f(ab[|ab| - 1]);
        ConcatMap(f, a + b') + f(x);
        (ConcatMap(f, a) + ConcatMap(f, b')) + f(x);
        ConcatMap(f, a) + (ConcatMap(f, b') + f(x));
        ConcatMap(f, a) + ConcatMap(f, b);
      }
    }
  }

  /** One more element contributes its image at the end. */
  lemma ConcatMapSnoc<T, U>(f: T -> seq<U>, s: seq<T>, x: T)
    ensures ConcatMap(f, s + [x]) == ConcatMap(f, s) + f(x)
  {
    var sx := s + [x];
    assert sx[..|sx| - 1] == s;
  }

  function Sum(s: seq<int>): int {
    if s == [] then 0 else Sum(s[..|s| - 1]) + s[|s| - 1]
  }

  lemma {:induction false} SumAppend(a: seq<int>, b: seq<int>)
    ensures Sum(a + b) == Sum(a) + Sum(b)
  {
    if b == [] {
      assert a + b == a;
    } else {
      var b' := b[..|b| - 1];
      var ab := a + b;
      SumAppend(a, b');
      assert ab[..|ab| - 1] == a + b';
      assert ab[|ab| - 1] == b[|b| - 1];
    }
  }

  /** The lengths of the parts of a flattening add up to its length. */
  lemma {:induction false} ConcatMapLength<T, U>(f: T -> seq<U>, s: seq<T>, lens: seq<int>)
    requires |lens| == |s|
    requires forall i :: 0 <= i < |s| ==> lens[i] == |f(s[i])|
    ensures |ConcatMap(f, s)| == Sum(lens)
  {
    if s != [] {
      ConcatMapLength(f, s[..|s| - 1], lens[..|lens| - 1]);
    }
  }

  /** Every element of the flattening comes from the image of some x in s, and
      every element of such an image is in the flattening. */
  lemma {:induction false} ConcatMapMembership<T, U>(f: T -> seq<U>, s: seq<T>, y: U)
    ensures y in ConcatMap(f, s) <==> exists i :: 0 <= i < |s| && y in f(s[i])
  {
    if s != [] {
      var p := s[..|s| - 1];
      ConcatMapMembership(f, p, y);
      if y in ConcatMap(f, s) && y !in f(s[|s| - 1]) {
        var i :| 0 <= i < |p| && y in f(p[i]);
        assert s[i] == p[i];
      }
      if exists i :: 0 <= i < |s| && y in f(s[i]) {
        var i :| 0 <= i < |s| && y in f(s[i]);
        if i < |p| {
          assert p[i] == s[i];
        }
      }
    }
  }
}
