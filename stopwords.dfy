/** Nlp._filter_stopwords: every word lower-cased, and those whose lower-case
    form is a stop word dropped. The stop-word list is a parameter; None stands
    for a list that could not be loaded. */
module Stopwords {
  import opened Wrappers
  import opened Text

  /** The comprehension `[w.lower() for w in words if w.lower() not in stop]`. */
  function Filter(words: seq<string>, stop: set<string>): seq<string> {
    if words == [] then []
    else
      var w := LowerStr(words[0]);
      (if w in stop then [] else [w]) + Filter(words[1..], stop)
  }

  /** The filter with its error path: a stop list that cannot be loaded is
      re-raised as a stop-word error. */
  function FilterStopwords(words: seq<string>, stop: Option<set<string>>): (r: Result<seq<string>>)
    ensures stop.None? <==> r.Failure?
    ensures stop.None? ==> r.error == StopWordError(LoadStopWordError)
  {
    match stop
    case None => Failure(StopWordError(LoadStopWordError))
    case Some(s) => Success(Filter(words, s))
  }

  /** The filter succeeds exactly when the stop list is there, with Filter's result. */
  lemma FilterStopwordsSuccess(words: seq<string>, stop: Option<set<string>>)
    ensures FilterStopwords(words, stop).Success? <==> stop.Some?
    ensures stop.Some? ==> FilterStopwords(words, stop).value == Filter(words, stop.value)
  {
  }

  /** t is kept exactly when it is the lower-case form of some input word and is
      not a stop word. */
  lemma {:induction false} FilterMembership(words: seq<string>, stop: set<string>, t: string)
    ensures t in Filter(words, stop) <==>
            t !in stop && exists i :: 0 <= i < |words| && LowerStr(words[i]) == t
  {
    if words != [] {
      var rest := words[1..];
      FilterMembership(rest, stop, t);
      if exists i :: 0 <= i < |rest| && LowerStr(rest[i]) == t {
        var i :| 0 <= i < |rest| && LowerStr(rest[i]) == t;
        assert words[i + 1] == rest[i];
      }
      if exists i :: 0 <= i < |words| && LowerStr(words[i]) == t {
        var i :| 0 <= i < |words| && LowerStr(words[i]) == t;
        if i > 0 {
          assert rest[i - 1] == words[i];
        }
      }
    }
  }

  /** Every kept word is lower-case and not a stop word. */
  lemma FilterClean(words: seq<string>, stop: set<string>)
    ensures forall t :: t in Filter(words, stop) ==> t !in stop && IsLowerStr(t)
  {
    forall t | t in Filter(words, stop) ensures t !in stop && IsLowerStr(t) {
      FilterMembership(words, stop, t);
      var i :| 0 <= i < |words| && LowerStr(words[i]) == t;
      LowerStrIdempotent(words[i]);
    }
  }

  /** Filtering never lengthens the list. */
  lemma {:induction false} FilterLength(words: seq<string>, stop: set<string>)
    ensures |Filter(words, stop)| <= |words|
  {
    if words != [] {
      FilterLength(words[1..], stop);
    }
  }

  /** Filtering keeps order across a concatenation. */
  lemma {:induction false} FilterAppend(a: seq<string>, b: seq<string>, stop: set<string>)
    ensures Filter(a + b, stop) == Filter(a, stop) + Filter(b, stop)
  {
    if a == [] {
      assert a + b == b;
    } else {
      var w := LowerStr(a[0]);
      var head := if w in stop then [] else [w];
      FilterAppend(a[1..], b, stop);
      assert (a + b)[0] == a[0];
      assert (a + b)[1..] == a[1..] + b;
      calc {
        Filter(a + b, stop);
        head + Filter(a[1..] + b, stop);
        head + (Filter(a[1..], stop) + Filter(b, stop));
        (head + Filter(a[1..], stop)) + Filter(b, stop);
      }
    }
  }

  /** A list of lower-case non-stop words is its own filtering. */
  lemma {:induction false} FilterOfClean(words: seq<string>, stop: set<string>)
    requires forall i :: 0 <= i < |words| ==> words[i] !in stop && IsLowerStr(words[i])
    ensures Filter(words, stop) == words
  {
    if words != [] {
      FilterOfClean(words[1..], stop);
      LowerStrOfLower(words[0]);
    }
  }

  /** Filtering twice is filtering once. */
  lemma FilterIdempotent(words: seq<string>, stop: set<string>)
    ensures Filter(Filter(words, stop), stop) == Filter(words, stop)
  {
    var f := Filter(words, stop);
    FilterClean(words, stop);
    forall i | 0 <= i < |f| ensures f[i] !in stop && IsLowerStr(f[i]) {
      assert f[i] in f;
    }
    FilterOfClean(f, stop);
  }

  lemma ExampleLower()
    ensures LowerStr("The") == "the"
    ensures LowerStr("cat") == "cat" && LowerStr("sat") == "sat"
    ensures LowerStr("a") == "a" && LowerStr("mat") == "mat"
  {
    assert LowerStr("The")[0] == 't';
    LowerStrOfLower("cat");
    LowerStrOfLower("sat");
    LowerStrOfLower("a");
    LowerStrOfLower("mat");
  }

  /** `The cat sat a mat` against the stop words {the, a} keeps `cat sat mat`. */
  lemma Example()
    ensures Filter(["The", "cat", "sat", "a", "mat"], {"the", "a"}) == ["cat", "sat", "mat"]
  {
    var ws := ["The", "cat", "sat", "a", "mat"];
    var stop := {"the", "a"};
    ExampleLower();
    assert "cat" !in stop && "sat" !in stop && "mat" !in stop;
    assert ws[1..] == ["cat", "sat", "a", "mat"];
    assert ws[1..][1..] == ["sat", "a", "mat"];
    assert ws[1..][1..][1..] == ["a", "mat"];
    assert ws[1..][1..][1..][1..] == ["mat"];
    assert ["mat"][1..] == [];
  }
}
