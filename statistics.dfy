/** Nlp._data_results: the statistics the framework keeps for one document —
    the word counts, the number of words, the list of word lengths and the
    average word length. */
module Statistics {
  import opened Wrappers
  import opened Seqs

  /** collections.Counter over words: its items in first-occurrence order. */
  type Counter = seq<(string, nat)>

  /** counter[w], 0 for a word it has not seen. */
  function Lookup(c: Counter, w: string): nat {
    if c == [] then 0 else if c[0].0 == w then c[0].1 else Lookup(c[1..], w)
  }

  /** The words the counter has seen. */
  function KeySet(c: Counter): set<string> {
    if c == [] then {} else {c[0].0} + KeySet(c[1..])
  }

  /** No word appears twice among the keys. */
  predicate DistinctKeys(c: Counter) {
    c != [] ==> c[0].0 !in KeySet(c[1..]) && DistinctKeys(c[1..])
  }

  /** Every count is at least 1. */
  predicate Positive(c: Counter) {
    c != [] ==> c[0].1 > 0 && Positive(c[1..])
  }

  /** The sum of the counts. */
  function Total(c: Counter): nat {
    if c == [] then 0 else c[0].1 + Total(c[1..])
  }

  /** Counting one more occurrence of w: its count goes up, or it is appended with 1. */
  function Increment(c: Counter, w: string): Counter {
    if c == [] then [(w, 1)]
    else if c[0].0 == w then [(w, c[0].1 + 1)] + c[1..]
    else [c[0]] + Increment(c[1..], w)
  }

  /** Counter(words). */
  function CountWords(ws: seq<string>): Counter {
    if ws == [] then [] else Increment(CountWords(ws[..|ws| - 1]), ws[|ws| - 1])
  }

  lemma {:induction false} IncrementLookup(c: Counter, w: string, v: string)
    ensures Lookup(Increment(c, w), v) == Lookup(c, v) + (if v == w then 1 else 0)
  {
    if c != [] && c[0].0 != w {
      IncrementLookup(c[1..], w, v);
    }
  }

  lemma {:induction false} IncrementKeys(c: Counter, w: string)
    ensures KeySet(Increment(c, w)) == KeySet(c) + {w}
    ensures DistinctKeys(c) ==> DistinctKeys(Increment(c, w))
  {
    if c != [] && c[0].0 != w {
      IncrementKeys(c[1..], w);
    }
  }

  lemma {:induction false} IncrementTotal(c: Counter, w: string)
    ensures Total(Increment(c, w)) == Total(c) + 1
  {
    if c != [] && c[0].0 != w {
      IncrementTotal(c[1..], w);
    }
  }

  lemma {:induction false} IncrementPositive(c: Counter, w: string)
    requires Positive(c)
    ensures Positive(Increment(c, w))
  {
    if c != [] && c[0].0 != w {
      IncrementPositive(c[1..], w);
    }
  }

  /** A word not yet counted is appended with count 1: the counter keeps the
      words in the order of their first occurrence. */
  lemma {:induction false} IncrementAbsent(c: Counter, w: string)
    requires w !in KeySet(c)
    ensures Increment(c, w) == c + [(w, 1)]
  {
    if c != [] {
      IncrementAbsent(c[1..], w);
      assert c == [c[0]] + c[1..];
    }
  }

  lemma {:induction false} KeySetAppend(c: Counter, w: string, n: nat)
    ensures KeySet(c + [(w, n)]) == KeySet(c) + {w}
  {
    if c != [] {
      KeySetAppend(c[1..], w, n);
      assert (c + [(w, n)])[1..] == c[1..] + [(w, n)];
    }
  }

  /** A word already counted keeps its place and its count goes up by one. */
  lemma {:induction false} IncrementPresent(c: Counter, i: nat, w: string)
    requires DistinctKeys(c)
    requires i < |c| && c[i].0 == w
    ensures Increment(c, w) == c[i := (w, c[i].1 + 1)]
  {
    if i > 0 {
      assert c[1..][i - 1].0 == w;
      assert c[0].0 != w by {
        KeySetMembers(c[1..], i - 1);
      }
      IncrementPresent(c[1..], i - 1, w);
      assert c[i := (w, c[i].1 + 1)] == [c[0]] + c[1..][i - 1 := (w, c[i].1 + 1)];
    } else {
      assert c[0 := (w, c[0].1 + 1)] == [(w, c[0].1 + 1)] + c[1..];
    }
  }

  lemma {:induction false} KeySetMembers(c: Counter, i: nat)
    requires i < |c|
    ensures c[i].0 in KeySet(c)
  {
    if i > 0 {
      KeySetMembers(c[1..], i - 1);
    }
  }

  /** counter[w] is the number of occurrences of w in the words. */
  lemma {:induction false} CountWordsLookup(ws: seq<string>, w: string)
    ensures Lookup(CountWords(ws), w) == multiset(ws)[w]
  {
    if ws != [] {
      var p := ws[..|ws| - 1];
      CountWordsLookup(p, w);
      IncrementLookup(CountWords(p), ws[|ws| - 1], w);
      assert ws == p + [ws[|ws| - 1]];
    }
  }

  /** The counter has each word of ws as a key exactly once, every count is at
      least 1, and the counts add up to the number of words. */
  lemma {:induction false} CountWordsShape(ws: seq<string>)
    ensures DistinctKeys(CountWords(ws))
    ensures KeySet(CountWords(ws)) == set w | w in ws
    ensures Positive(CountWords(ws))
    ensures Total(CountWords(ws)) == |ws|
  {
    if ws != [] {
      var p := ws[..|ws| - 1];
      var w := ws[|ws| - 1];
      CountWordsShape(p);
      IncrementKeys(CountWords(p), w);
      IncrementPositive(CountWords(p), w);
      IncrementTotal(CountWords(p), w);
      assert ws == p + [w];
    }
  }

  /** The word_length_list: the length of each word, in order. */
  function Lengths(ws: seq<string>): (r: seq<int>)
    ensures |r| == |ws|
    ensures forall i :: 0 <= i < |ws| ==> r[i] == |ws[i]|
  {
    seq(|ws|, i requires 0 <= i < |ws| => |ws[i]|)
  }

  function TotalLength(ws: seq<string>): int {
    Sum(Lengths(ws))
  }

  datatype Stats = Stats(
    wordcount: Counter,
    numwords: nat,
    wordlengthlist: seq<int>,
    avgwordlength: real)

  /** What _data_results returns: the statistics, or for an empty word list the
      division by zero re-raised as DataResultsError. */
  function Results(ws: seq<string>): Result<Stats> {
    if ws == [] then Failure(DataResultsError(ZeroDivisionError))
    else Success(Stats(CountWords(ws), |ws|, Lengths(ws), TotalLength(ws) as real / |ws| as real))
  }

  /** Statistics that agree with each other: as many lengths as words, counts that
      are positive, on distinct words and add up to the number of words, and an
      average that is the total of the lengths over the number of words. */
  predicate Consistent(s: Stats) {
    && s.numwords > 0
    && |s.wordlengthlist| == s.numwords
    && DistinctKeys(s.wordcount)
    && Positive(s.wordcount)
    && Total(s.wordcount) == s.numwords
    && s.avgwordlength == Sum(s.wordlengthlist) as real / s.numwords as real
  }

  /** Nlp._data_results: a loop adding up the lengths, the division, and a loop
      appending each word's length; then Counter(clean_words). */
  method DataResults(cleanWords: seq<string>) returns (r: Result<Stats>)
    ensures r == Results(cleanWords)
  {
    var length := 0;
    var i := 0;
    while i < |cleanWords|
      invariant 0 <= i <= |cleanWords|
      invariant length == TotalLength(cleanWords[..i])
    {
      var prefix := Lengths(cleanWords[..i + 1]);
      assert prefix[..i] == Lengths(cleanWords[..i]);
      length := length + |cleanWords[i]|;
      i := i + 1;
    }
    assert cleanWords[..i] == cleanWords;
    if |cleanWords| == 0 {
      return Failure(DataResultsError(ZeroDivisionError));
    }
    var avg := length as real / |cleanWords| as real;
    var wordLengthList: seq<int> := [];
    i := 0;
    while i < |cleanWords|
      invariant 0 <= i <= |cleanWords|
      invariant wordLengthList == Lengths(cleanWords[..i])
    {
      wordLengthList := wordLengthList + [|cleanWords[i]|];
      i := i + 1;
    }
    return Success(Stats(CountWords(cleanWords), |cleanWords|, wordLengthList, avg));
  }

  /** _data_results fails exactly on the empty list, with the division by zero. */
  lemma ResultsFailure(ws: seq<string>)
    ensures Results(ws).Failure? <==> ws == []
    ensures ws == [] ==> Results(ws).error == DataResultsError(ZeroDivisionError)
  {
  }

  /** numwords is the number of words, wordcount[w] the number of occurrences of
      w, and the keys of wordcount are exactly the words. */
  lemma ResultsCounts(ws: seq<string>)
    ensures ws != [] ==> Results(ws).value.numwords == |ws|
    ensures ws != [] ==> forall w :: Lookup(Results(ws).value.wordcount, w) == multiset(ws)[w]
    ensures ws != [] ==> KeySet(Results(ws).value.wordcount) == set w | w in ws
  {
    if ws != [] {
      forall w ensures Lookup(CountWords(ws), w) == multiset(ws)[w] {
        CountWordsLookup(ws, w);
      }
      CountWordsShape(ws);
    }
  }

  /** The length list holds each word's length in order, and the average times
      the number of words is the total length. */
  lemma ResultsLengths(ws: seq<string>)
    ensures ws != [] ==> Results(ws).value.wordlengthlist == Lengths(ws)
    ensures ws != [] ==> Results(ws).value.avgwordlength * |ws| as real == TotalLength(ws) as real
  {
    if ws != [] {
      DivMul(TotalLength(ws) as real, |ws| as real);
    }
  }

  lemma DivMul(t: real, n: real)
    requires n > 0.0
    ensures (t / n) * n == t
  {
  }

  /** Every statistics record _data_results produces is consistent. */
  lemma ResultsConsistent(ws: seq<string>)
    ensures Results(ws).Success? ==> Consistent(Results(ws).value)
  {
    if ws != [] {
      CountWordsShape(ws);
    }
  }

  lemma CountWordsSnoc(ws: seq<string>, w: string)
    ensures CountWords(ws + [w]) == Increment(CountWords(ws), w)
  {
    assert (ws + [w])[..|ws|] == ws;
  }

  /** Four distinct words are counted once each, in order. */
  lemma ExampleCountDistinct()
    ensures CountWords(["the", "quick", "brown", "fox"])
            == [("the", 1), ("quick", 1), ("brown", 1), ("fox", 1)]
  {
    var c1: Counter := [("the", 1)];
    var c2 := c1 + [("quick", 1)];
    var c3 := c2 + [("brown", 1)];
    CountWordsSnoc([], "the");
    CountWordsSnoc(["the"], "quick");
    IncrementAbsent(c1, "quick");
    CountWordsSnoc(["the", "quick"], "brown");
    KeySetAppend(c1, "quick", 1);
    IncrementAbsent(c2, "brown");
    CountWordsSnoc(["the", "quick", "brown"], "fox");
    KeySetAppend(c2, "brown", 1);
    IncrementAbsent(c3, "fox");
    assert [] + ["the"] == ["the"];
    assert ["the"] + ["quick"] == ["the", "quick"];
    assert ["the", "quick"] + ["brown"] == ["the", "quick", "brown"];
    assert ["the", "quick", "brown"] + ["fox"] == ["the", "quick", "brown", "fox"];
  }

  /** A repeated word raises the count at its first position. */
  lemma ExampleCountRepeat()
    ensures CountWords(["the", "quick", "brown", "fox", "the"])
            == [("the", 2), ("quick", 1), ("brown", 1), ("fox", 1)]
  {
    var w4 := ["the", "quick", "brown", "fox"];
    var c4: Counter := [("the", 1), ("quick", 1), ("brown", 1), ("fox", 1)];
    ExampleCountDistinct();
    CountWordsShape(w4);
    CountWordsSnoc(w4, "the");
    IncrementPresent(c4, 0, "the");
    assert w4 + ["the"] == ["the", "quick", "brown", "fox", "the"];
  }

  lemma ExampleCount()
    ensures CountWords(["the", "quick", "brown", "fox", "the", "fox"])
            == [("the", 2), ("quick", 1), ("brown", 1), ("fox", 2)]
  {
    var w5 := ["the", "quick", "brown", "fox", "the"];
    var c5: Counter := [("the", 2), ("quick", 1), ("brown", 1), ("fox", 1)];
    ExampleCountRepeat();
    CountWordsShape(w5);
    CountWordsSnoc(w5, "fox");
    IncrementPresent(c5, 3, "fox");
    assert w5 + ["fox"] == ["the", "quick", "brown", "fox", "the", "fox"];
  }

  lemma ExampleTotalLength()
    ensures TotalLength(["the", "quick", "brown", "fox", "the", "fox"]) == 22
  {
    var l := Lengths(["the", "quick", "brown", "fox", "the", "fox"]);
    assert l == [3, 5, 5, 3, 3, 3];
    assert l[..1] == [3] && [3][..0] == [];
    assert Sum(l[..2]) == 8 by { assert l[..2][..1] == l[..1]; }
    assert Sum(l[..3]) == 13 by { assert l[..3][..2] == l[..2]; }
    assert Sum(l[..4]) == 16 by { assert l[..4][..3] == l[..3]; }
    assert Sum(l[..5]) == 19 by { assert l[..5][..4] == l[..4]; }
    assert l[..6][..5] == l[..5] && l[..6] == l;
  }

  /** `the quick brown fox the fox`: six words, `the` and `fox` twice, 22
      letters, an average length of 11/3. */
  lemma Example()
    ensures Results(["the", "quick", "brown", "fox", "the", "fox"])
            == Success(Stats([("the", 2), ("quick", 1), ("brown", 1), ("fox", 2)],
                             6, [3, 5, 5, 3, 3, 3], 11.0 / 3.0))
  {
    var ws := ["the", "quick", "brown", "fox", "the", "fox"];
    ExampleCount();
    ExampleTotalLength();
    assert Lengths(ws) == [3, 5, 5, 3, 3, 3];
  }
}
