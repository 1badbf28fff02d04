/** The Nlp framework object of nlp.py: a registry of per-document statistics
    (data: statistic -> label -> value) and an insertion-ordered table of
    visualizations (viz: name -> callback with its arguments). */
module Nlp {
  import opened Wrappers
  import opened Text
  import opened Tokenizer
  import opened Stopwords
  import opened Statistics
  import opened Parsers

  /** A value stored in the registry under one of the four statistic names. */
  datatype StatValue =
    | WordCount(counter: Counter)
    | NumWords(n: nat)
    | WordLengths(lengths: seq<int>)
    | AvgLength(avg: real)

  /** data[statistic][label]. */
  type Registry = map<string, map<string, StatValue>>

  /** The results dictionary of _data_results, in its key order. */
  function ResultItems(s: Stats): seq<(string, StatValue)> {
    [ ("wordcount", WordCount(s.wordcount)),
      ("numwords", NumWords(s.numwords)),
      ("wordlengthlist", WordLengths(s.wordlengthlist)),
      ("avgwordlength", AvgLength(s.avgwordlength)) ]
  }

  const StatKeys: set<string> := {"wordcount", "numwords", "wordlengthlist", "avgwordlength"}

  /** data[k][l] when both keys are present. */
  function Get(data: Registry, k: string, l: string): Option<StatValue> {
    if k in data && l in data[k] then Some(data[k][l]) else None
  }

  /** self.data[k][label] = v on a defaultdict(dict): a missing row starts empty. */
  function Put(data: Registry, k: string, docLabel: string, v: StatValue): Registry {
    data[k := (if k in data then data[k] else map[])[docLabel := v]]
  }

  /** The registry after `for k, v in results.items(): data[k][label] = v`. */
  function Merged(data: Registry, docLabel: string, items: seq<(string, StatValue)>): Registry {
    if items == [] then data
    else
      var last := items[|items| - 1];
      Put(Merged(data, docLabel, items[..|items| - 1]), last.0, docLabel, last.1)
  }

  /** The value the items give k: the last one, as a dictionary would keep. */
  function LastValue(items: seq<(string, StatValue)>, k: string): Option<StatValue> {
    if items == [] then None
    else if items[|items| - 1].0 == k then Some(items[|items| - 1].1)
    else LastValue(items[..|items| - 1], k)
  }

  /** Saving sets data[k][label] for every key k of the results and leaves every
      other (statistic, label) entry as it was; a row appears for each key. */
  lemma {:induction false} MergedGet(data: Registry, docLabel: string, items: seq<(string, StatValue)>, k: string, l: string)
    ensures Get(Merged(data, docLabel, items), k, l) ==
              if l == docLabel && LastValue(items, k).Some? then LastValue(items, k) else Get(data, k, l)
    ensures k in Merged(data, docLabel, items) <==> k in data || LastValue(items, k).Some?
  {
    if items != [] {
      MergedGet(data, docLabel, items[..|items| - 1], k, l);
    }
  }

  /** The statistics registered for a label, when all four are there with the
      right kinds of value. */
  function StatsAt(data: Registry, l: string): Option<Stats> {
    match (Get(data, "wordcount", l), Get(data, "numwords", l), Get(data, "wordlengthlist", l), Get(data, "avgwordlength", l))
    case (Some(WordCount(c)), Some(NumWords(n)), Some(WordLengths(ls)), Some(AvgLength(a))) =>
      Some(Stats(c, n, ls, a))
    case _ => None
  }

  /** The registry invariant: only the four statistic names are rows, and every
      label found in any row has all four statistics, which are consistent. */
  ghost predicate RegistryValid(data: Registry) {
    && (forall k :: k in data ==> k in StatKeys)
    && (forall k, l :: k in data && l in data[k] ==>
          StatsAt(data, l).Some? && Consistent(StatsAt(data, l).value))
  }

  lemma ResultItemsValues(s: Stats, k: string)
    ensures LastValue(ResultItems(s), k) ==
              if k == "wordcount" then Some(WordCount(s.wordcount))
              else if k == "numwords" then Some(NumWords(s.numwords))
              else if k == "wordlengthlist" then Some(WordLengths(s.wordlengthlist))
              else if k == "avgwordlength" then Some(AvgLength(s.avgwordlength))
              else None
  {
    var items := ResultItems(s);
    assert items[..1][..0] == [];
    assert LastValue(items[..1], k) == if k == "wordcount" then Some(WordCount(s.wordcount)) else None;
    assert items[..2][..1] == items[..1];
    assert LastValue(items[..2], k) == if k == "numwords" then Some(NumWords(s.numwords)) else LastValue(items[..1], k);
    assert items[..3][..2] == items[..2];
    assert LastValue(items[..3], k) == if k == "wordlengthlist" then Some(WordLengths(s.wordlengthlist)) else LastValue(items[..2], k);
    assert items[..4] == items && items[..4][..3] == items[..3];
    assert LastValue(items, k) == if k == "avgwordlength" then Some(AvgLength(s.avgwordlength)) else LastValue(items[..3], k);
  }

  /** After saving a label's statistics, the label reads back exactly those
      statistics and every other label reads back what it had. */
  lemma SaveStatsAt(data: Registry, docLabel: string, s: Stats, l: string)
    ensures StatsAt(Merged(data, docLabel, ResultItems(s)), l) ==
              if l == docLabel then Some(s) else StatsAt(data, l)
  {
    var m := Merged(data, docLabel, ResultItems(s));
    forall k | k in StatKeys
      ensures Get(m, k, l) == if l == docLabel then LastValue(ResultItems(s), k) else Get(data, k, l)
    {
      MergedGet(data, docLabel, ResultItems(s), k, l);
      ResultItemsValues(s, k);
    }
    ResultItemsValues(s, "wordcount");
    ResultItemsValues(s, "numwords");
    ResultItemsValues(s, "wordlengthlist");
    ResultItemsValues(s, "avgwordlength");
  }

  /** Saving consistent statistics keeps the registry invariant. */
  lemma SavePreservesValid(data: Registry, docLabel: string, s: Stats)
    requires RegistryValid(data)
    requires Consistent(s)
    ensures RegistryValid(Merged(data, docLabel, ResultItems(s)))
  {
    var m := Merged(data, docLabel, ResultItems(s));
    forall k | k in m ensures k in StatKeys {
      MergedGet(data, docLabel, ResultItems(s), k, docLabel);
      ResultItemsValues(s, k);
    }
    forall k, l | k in m && l in m[k]
      ensures StatsAt(m, l).Some? && Consistent(StatsAt(m, l).value)
    {
      MergedGet(data, docLabel, ResultItems(s), k, l);
      ResultItemsValues(s, k);
      SaveStatsAt(data, docLabel, s, l);
      if l != docLabel {
        assert Get(m, k, l) == Get(data, k, l);
        assert k in data && l in data[k];
      }
    }
  }

  /** Registering a label again replaces what it had: only the last save shows. */
  lemma SaveOverwrites(data: Registry, docLabel: string, s1: Stats, s2: Stats, k: string, l: string)
    ensures Get(Merged(Merged(data, docLabel, ResultItems(s1)), docLabel, ResultItems(s2)), k, l) ==
            Get(Merged(data, docLabel, ResultItems(s2)), k, l)
  {
    var m1 := Merged(data, docLabel, ResultItems(s1));
    MergedGet(m1, docLabel, ResultItems(s2), k, l);
    MergedGet(data, docLabel, ResultItems(s1), k, l);
    MergedGet(data, docLabel, ResultItems(s2), k, l);
    ResultItemsValues(s1, k);
    ResultItemsValues(s2, k);
  }

  /** What the framework reads for one document: the lines open/readlines would
      return (None: the file cannot be read) and what each pandas reader would
      return. */
  datatype Document = Document(lines: Option<seq<string>>, tables: Tables)

  /** The words of a document: the default parser when no parser is named,
      custom_parser otherwise. */
  function ParseWords(filename: string, parser: Option<string>, textColumn: string, doc: Document): Result<seq<string>> {
    match parser
    case None => DefaultParse(filename, doc.lines)
    case Some(p) => CustomParse(filename, textColumn, p, doc.tables)
  }

  /** What load_text registers: the label (the filename when none is given) and
      the statistics of the filtered words. The suffix assertion comes before the
      try block; any later failure is re-raised as ParserError. */
  function Register(filename: string, docLabel: Option<string>, parser: Option<string>, textColumn: string,
                    doc: Document, stop: Option<set<string>>): Result<(string, Stats)>
  {
    if !SupportedFile(filename) then Failure(AssertionError(UnsupportedFileType))
    else match ParseWords(filename, parser, textColumn, doc)
      case Failure(e) => Failure(ParserError(filename, e))
      case Success(words) =>
        match FilterStopwords(words, stop)
        case Failure(e) => Failure(ParserError(filename, e))
        case Success(clean) =>
          match Results(clean)
          case Failure(e) => Failure(ParserError(filename, e))
          case Success(stats) => Success((docLabel.GetOr(filename), stats))
  }

  /** load_text either registers consistent statistics under the given label or
      the filename, or fails: with the unwrapped suffix assertion when the suffix
      is not accepted, and otherwise with a ParserError naming the file. */
  lemma RegisterSpec(filename: string, docLabel: Option<string>, parser: Option<string>, textColumn: string,
                     doc: Document, stop: Option<set<string>>)
    ensures var r := Register(filename, docLabel, parser, textColumn, doc, stop);
            && (r.Success? ==> r.value.0 == docLabel.GetOr(filename) && Consistent(r.value.1))
            && (r.Failure? && !SupportedFile(filename) ==> r.error == AssertionError(UnsupportedFileType))
            && (r.Failure? && SupportedFile(filename) ==> r.error.ParserError? && r.error.filename == filename)
  {
    var w := ParseWords(filename, parser, textColumn, doc);
    if SupportedFile(filename) && w.Success? && stop.Some? {
      ResultsConsistent(Filter(w.value, stop.value));
    }
  }

  /** On success the statistics are those of the parsed words with stop words removed. */
  lemma RegisterStats(filename: string, docLabel: Option<string>, parser: Option<string>, textColumn: string,
                      doc: Document, stop: Option<set<string>>)
    ensures var r := Register(filename, docLabel, parser, textColumn, doc, stop);
            r.Success? <==>
              && SupportedFile(filename)
              && ParseWords(filename, parser, textColumn, doc).Success?
              && stop.Some?
              && Filter(ParseWords(filename, parser, textColumn, doc).value, stop.value) != []
    ensures var r := Register(filename, docLabel, parser, textColumn, doc, stop);
            r.Success? ==>
              var clean := Filter(ParseWords(filename, parser, textColumn, doc).value, stop.value);
              r.value.1.numwords == |clean| &&
              forall w :: Lookup(r.value.1.wordcount, w) == multiset(clean)[w]
  {
    var w := ParseWords(filename, parser, textColumn, doc);
    if SupportedFile(filename) && w.Success? && stop.Some? {
      var clean := Filter(w.value, stop.value);
      ResultsFailure(clean);
      ResultsCounts(clean);
    }
  }

  /** A visualization: its callback and the positional and keyword arguments it
      is called with after the registry. */
  datatype VizEntry = VizEntry(func: string, args: seq<string>, kwargs: map<string, string>)

  /** The order of the names is the dictionary's insertion order; each name once. */
  ghost predicate VizValid(names: seq<string>, viz: map<string, VizEntry>) {
    && (forall i, j :: 0 <= i < j < |names| ==> names[i] != names[j])
    && (forall n :: n in viz <==> n in names)
  }

  /** Running the callbacks of `names` in order until one fails. `succeeds`
      says whether a callback returns normally on the registry. */
  function RunAll(names: seq<string>, viz: map<string, VizEntry>, data: Registry,
                  succeeds: (Registry, VizEntry) -> bool): (seq<string>, Option<Error>)
    requires forall n :: n in names ==> n in viz
  {
    if names == [] then ([], None)
    else if !succeeds(data, viz[names[0]]) then
      ([names[0]], Some(VisualizeError(None, CallbackFailed(names[0]))))
    else
      var rest := RunAll(names[1..], viz, data, succeeds);
      ([names[0]] + rest.0, rest.1)
  }

  /** The callbacks run form a prefix of the table; there is no error exactly
      when all of them ran and succeeded; otherwise the last one run is the
      first that failed, and the error names it. */
  lemma {:induction false} RunAllSpec(names: seq<string>, viz: map<string, VizEntry>, data: Registry,
                                      succeeds: (Registry, VizEntry) -> bool)
    requires forall n :: n in names ==> n in viz
    ensures var (ran, err) := RunAll(names, viz, data, succeeds);
            && |ran| <= |names| && ran == names[..|ran|]
            && (err.None? <==> ran == names && forall i :: 0 <= i < |names| ==> succeeds(data, viz[names[i]]))
            && (err.Some? ==>
                  && |ran| > 0
                  && (forall i :: 0 <= i < |ran| - 1 ==> succeeds(data, viz[ran[i]]))
                  && !succeeds(data, viz[ran[|ran| - 1]])
                  && err.value == VisualizeError(None, CallbackFailed(ran[|ran| - 1])))
  {
    if names != [] && succeeds(data, viz[names[0]]) {
      var rest := RunAll(names[1..], viz, data, succeeds);
      RunAllSpec(names[1..], viz, data, succeeds);
      var ran := [names[0]] + rest.0;
      assert ran[1..] == rest.0;
      if rest.1.None? {
        forall i | 0 <= i < |names| ensures succeeds(data, viz[names[i]]) {
          if i > 0 {
            assert names[i] == names[1..][i - 1];
          }
        }
      } else {
        forall i | 0 <= i < |ran| - 1 ensures succeeds(data, viz[ran[i]]) {
          if i > 0 {
            assert ran[i] == rest.0[i - 1];
          }
        }
      }
    }
  }

  /** visualize(name): all callbacks in order when no name is given, otherwise the
      named one; a missing name is a KeyError, and every failure is re-raised as
      VisualizeError carrying the name argument. */
  function VisualizeSpec(names: seq<string>, viz: map<string, VizEntry>, data: Registry,
                         name: Option<string>, succeeds: (Registry, VizEntry) -> bool): (seq<string>, Option<Error>)
    requires forall n :: n in names ==> n in viz
  {
    match name
    case None => RunAll(names, viz, data, succeeds)
    case Some(n) =>
      if n !in viz then ([], Some(VisualizeError(name, KeyError(n))))
      else if succeeds(data, viz[n]) then ([n], None)
      else ([n], Some(VisualizeError(name, CallbackFailed(n))))
  }

  class Nlp {
    var data: Registry
    var vizNames: seq<string>
    var viz: map<string, VizEntry>

    ghost predicate Valid()
      reads this
    {
      RegistryValid(data) && VizValid(vizNames, viz)
    }

    constructor()
      ensures Valid()
      ensures data == map[] && vizNames == [] && viz == map[]
    {
      data := map[];
      vizNames := [];
      viz := map[];
    }

    /** _save_results: data[k][label] = v for each item of the results. */
    method SaveResults(docLabel: string, results: seq<(string, StatValue)>)
      modifies this
      ensures data == Merged(old(data), docLabel, results)
      ensures vizNames == old(vizNames) && viz == old(viz)
    {
      var i := 0;
      while i < |results|
        invariant 0 <= i <= |results|
        invariant data == Merged(old(data), docLabel, results[..i])
        invariant vizNames == old(vizNames) && viz == old(viz)
      {
        var (k, v) := results[i];
        data := data[k := (if k in data then data[k] else map[])[docLabel := v]];
        assert results[..i + 1][..i] == results[..i];
        i := i + 1;
      }
      assert results[..i] == results;
    }

    /** load_text: parse, filter, compute the statistics, and only then save them
      under the label. A failure leaves the registry as it was. */
    method LoadText(filename: string, docLabel: Option<string>, parser: Option<string>, textColumn: string,
                    doc: Document, stop: Option<set<string>>)
      returns (err: Option<Error>)
      requires Valid()
      modifies this
      ensures Valid()
      ensures vizNames == old(vizNames) && viz == old(viz)
      ensures var r := Register(filename, docLabel, parser, textColumn, doc, stop);
              match r
              case Failure(e) => err == Some(e) && data == old(data)
              case Success((l, s)) => err == None && data == Merged(old(data), l, ResultItems(s))
    {
      if !SupportedFile(filename) {
        return Some(AssertionError(UnsupportedFileType));
      }
      var words: Result<seq<string>>;
      if parser.None? {
        words := DefaultParser(filename, doc.lines);
      } else {
        words := CustomParser(filename, textColumn, parser.value, doc.tables);
      }
      if words.Failure? {
        return Some(ParserError(filename, words.error));
      }
      var cleanWords := FilterStopwords(words.value, stop);
      if cleanWords.Failure? {
        return Some(ParserError(filename, cleanWords.error));
      }
      var results := DataResults(cleanWords.value);
      if results.Failure? {
        return Some(ParserError(filename, results.error));
      }
      var l := docLabel.GetOr(filename);
      ResultsConsistent(cleanWords.value);
      SavePreservesValid(data, l, results.value);
      SaveResults(l, ResultItems(results.value));
      return None;
    }

    /** load_visualization: viz[name] = entry; a new name goes last, a known name
      keeps its place. */
    method LoadVisualization(name: string, entry: VizEntry)
      requires Valid()
      modifies this
      ensures Valid()
      ensures viz == old(viz)[name := entry]
      ensures vizNames == if name in old(viz) then old(vizNames) else old(vizNames) + [name]
      ensures data == old(data)
    {
      if name !in viz {
        vizNames := vizNames + [name];
      }
      viz := viz[name := entry];
    }

    /** visualize: returns the names of the callbacks called, in order, and the
      error raised, if any. */
    method Visualize(name: Option<string>, succeeds: (Registry, VizEntry) -> bool)
      returns (ran: seq<string>, err: Option<Error>)
      requires Valid()
      ensures (ran, err) == VisualizeSpec(vizNames, viz, data, name, succeeds)
    {
      if name.Some? {
        var n := name.value;
        if n !in viz {
          return [], Some(VisualizeError(name, KeyError(n)));
        }
        if succeeds(data, viz[n]) {
          return [n], None;
        }
        return [n], Some(VisualizeError(name, CallbackFailed(n)));
      }
      ran := [];
      var i := 0;
      while i < |vizNames|
        invariant 0 <= i <= |vizNames|
        invariant ran == vizNames[..i]
        invariant forall j :: 0 <= j < i ==> succeeds(data, viz[vizNames[j]])
      {
        var n := vizNames[i];
        ran := ran + [n];
        if !succeeds(data, viz[n]) {
          RunAllPrefix(vizNames, viz, data, succeeds, i);
          return ran, Some(VisualizeError(None, CallbackFailed(n)));
        }
        i := i + 1;
      }
      RunAllPrefix(vizNames, viz, data, succeeds, i);
      assert vizNames[i..] == [] && vizNames[..i] + [] == ran;
      return ran, None;
    }
  }

  /** RunAll over names whose first i callbacks succeed: those i come first, then
      the rest is run as if from the start. */
  lemma {:induction false} RunAllPrefix(names: seq<string>, viz: map<string, VizEntry>, data: Registry,
                                        succeeds: (Registry, VizEntry) -> bool, i: nat)
    requires forall n :: n in names ==> n in viz
    requires i <= |names|
    requires forall j :: 0 <= j < i ==> succeeds(data, viz[names[j]])
    ensures RunAll(names, viz, data, succeeds) ==
              var rest := RunAll(names[i..], viz, data, succeeds);
              (names[..i] + rest.0, rest.1)
  {
    if i > 0 {
      forall j | 0 <= j < i - 1 ensures succeeds(data, viz[names[1..][j]]) {
        assert names[1..][j] == names[j + 1];
      }
      RunAllPrefix(names[1..], viz, data, succeeds, i - 1);
      var rest := RunAll(names[i..], viz, data, succeeds);
      assert names[1..][i - 1..] == names[i..];
      assert [names[0]] + names[1..][..i - 1] == names[..i];
      assert succeeds(data, viz[names[0]]);
      var r1 := RunAll(names[1..], viz, data, succeeds);
      assert r1 == (names[1..][..i - 1] + rest.0, rest.1);
      assert RunAll(names, viz, data, succeeds) == ([names[0]] + r1.0, r1.1);
      assert [names[0]] + (names[1..][..i - 1] + rest.0) == names[..i] + rest.0;
    } else {
      var r := RunAll(names, viz, data, succeeds);
      assert names[0..] == names;
      assert names[..0] + r.0 == r.0;
    }
  }

  /** With no visualizations loaded, visualize() runs nothing and succeeds. */
  lemma ExampleEmptyTable(data: Registry, succeeds: (Registry, VizEntry) -> bool)
    ensures VisualizeSpec([], map[], data, None, succeeds) == ([], None)
  {
  }

  /** Three visualizations whose second fails: the first two run, the third does not. */
  lemma ExampleSecondFails(data: Registry, a: VizEntry, b: VizEntry, c: VizEntry,
                           succeeds: (Registry, VizEntry) -> bool)
    requires succeeds(data, a) && !succeeds(data, b)
    ensures var viz := map["wordcloud" := a, "sankey" := b, "boxplot" := c];
            VisualizeSpec(["wordcloud", "sankey", "boxplot"], viz, data, None, succeeds)
              == (["wordcloud", "sankey"], Some(VisualizeError(None, CallbackFailed("sankey"))))
  {
    var names := ["wordcloud", "sankey", "boxplot"];
    var viz := map["wordcloud" := a, "sankey" := b, "boxplot" := c];
    assert names[1..] == ["sankey", "boxplot"];
    assert viz["wordcloud"] == a && viz["sankey"] == b;
    assert names[1..][0] == "sankey";
    assert RunAll(names[1..], viz, data, succeeds) == (["sankey"], Some(VisualizeError(None, CallbackFailed("sankey"))));
    assert ["wordcloud"] + ["sankey"] == ["wordcloud", "sankey"];
  }
}
