/** The table preparation of sankey.py: stacking adjacent column pairs into
    (src, targ) rows, grouping equal pairs with their counts, filtering by a
    threshold, and encoding the node labels as integers. Plotting is not
    modelled. */
module Sankey {
  import opened Wrappers
  import opened Seqs
  import opened Ordering

  /** A (src, targ) row. */
  type Pair = (string, string)

  // ----- _prepare_sankey_data -----

  /** The order groupby sorts its keys in: by src, then by targ. */
  predicate PairLess(a: Pair, b: Pair) {
    StrLess(a.0, b.0) || (a.0 == b.0 && StrLess(a.1, b.1))
  }

  lemma PairLessIsStrictTotalOrder()
    ensures StrictTotalOrder(PairLess)
  {
    forall a: Pair ensures !PairLess(a, a) {
      StrLessIrreflexive(a.0);
      StrLessIrreflexive(a.1);
    }
    forall a: Pair, b: Pair, c: Pair | PairLess(a, b) && PairLess(b, c)
      ensures PairLess(a, c)
    {
      if StrLess(a.0, b.0) && StrLess(b.0, c.0) {
        StrLessTransitive(a.0, b.0, c.0);
      } else if a.0 == b.0 && b.0 == c.0 {
        StrLessTransitive(a.1, b.1, c.1);
      }
    }
    forall a: Pair, b: Pair ensures a == b || PairLess(a, b) || PairLess(b, a) {
      StrLessTotal(a.0, b.0);
      StrLessTotal(a.1, b.1);
    }
  }

  /** A row of the grouped table: a distinct pair and its number of occurrences. */
  datatype Link = Link(src: string, targ: string, counts: int)

  /** The distinct pairs in groupby's order. */
  function Groups(rows: seq<Pair>): seq<Pair> {
    SortedSet(rows, PairLess)
  }

  /** df.groupby([src, targ]).size().reset_index(name='Counts'). */
  function GroupCounts(rows: seq<Pair>): seq<Link> {
    var keys := Groups(rows);
    seq(|keys|, i requires 0 <= i < |keys| => Link(keys[i].0, keys[i].1, multiset(rows)[keys[i]]))
  }

  /** `df[df['Counts'] > threshold]`: the rows whose count exceeds it, in order. */
  function AboveThreshold(links: seq<Link>, threshold: int): seq<Link> {
    ConcatMap(KeepAbove(threshold), links)
  }

  /** One row kept when its count exceeds the threshold, dropped otherwise. */
  function KeepAbove(threshold: int): Link -> seq<Link> {
    (l: Link) => if l.counts > threshold then [l] else []
  }

  /** _prepare_sankey_data: a threshold that is not an int (None included) fails
      the assertion; otherwise group, count and filter. */
  function PrepareSankeyData(rows: seq<Pair>, threshold: Option<int>): Result<seq<Link>> {
    match threshold
    case None => Failure(AssertionError(ThresholdNotInt))
    case Some(t) => Success(AboveThreshold(GroupCounts(rows), t))
  }

  /** The sum of the Counts column. */
  function TotalCounts(links: seq<Link>): int {
    if links == [] then 0 else links[0].counts + TotalCounts(links[1..])
  }

  /** The multiplicities of distinct keys covering the rows add up to the rows. */
  function KeyCounts(keys: seq<Pair>, m: multiset<Pair>): int {
    if keys == [] then 0 else m[keys[0]] + KeyCounts(keys[1..], m)
  }

  lemma {:induction false} KeyCountsAdd(keys: seq<Pair>, m: multiset<Pair>, p: Pair)
    requires forall i, j :: 0 <= i < j < |keys| ==> keys[i] != keys[j]
    requires p in keys
    ensures KeyCounts(keys, m + multiset{p}) == KeyCounts(keys, m) + 1
  {
    if keys[0] != p {
      KeyCountsAdd(keys[1..], m, p);
    } else {
      KeyCountsOutside(keys[1..], m, p);
    }
  }

  lemma {:induction false} KeyCountsOutside(keys: seq<Pair>, m: multiset<Pair>, p: Pair)
    requires p !in keys
    ensures KeyCounts(keys, m + multiset{p}) == KeyCounts(keys, m)
  {
    if keys != [] {
      KeyCountsOutside(keys[1..], m, p);
    }
  }

  lemma {:induction false} KeyCountsEmpty(keys: seq<Pair>)
    ensures KeyCounts(keys, multiset{}) == 0
  {
    if keys != [] {
      KeyCountsEmpty(keys[1..]);
    }
  }

  lemma {:induction false} KeyCountsRows(keys: seq<Pair>, rows: seq<Pair>)
    requires forall i, j :: 0 <= i < j < |keys| ==> keys[i] != keys[j]
    requires forall p :: p in rows ==> p in keys
    ensures KeyCounts(keys, multiset(rows)) == |rows|
  {
    if rows == [] {
      KeyCountsEmpty(keys);
    } else {
      var p := rows[|rows| - 1];
      var front := rows[..|rows| - 1];
      assert rows == front + [p];
      KeyCountsRows(keys, front);
      KeyCountsAdd(keys, multiset(front), p);
    }
  }

  lemma {:induction false} TotalCountsIsKeyCounts(keys: seq<Pair>, rows: seq<Pair>, links: seq<Link>)
    requires |links| == |keys|
    requires forall i :: 0 <= i < |links| ==> links[i].counts == multiset(rows)[keys[i]]
    ensures TotalCounts(links) == KeyCounts(keys, multiset(rows))
  {
    if links != [] {
      TotalCountsIsKeyCounts(keys[1..], rows, links[1..]);
    }
  }

  /** The grouped pairs are sorted and distinct. */
  lemma GroupsSorted(rows: seq<Pair>)
    ensures StrictlySorted(Groups(rows), PairLess)
    ensures forall i, j :: 0 <= i < j < |Groups(rows)| ==> Groups(rows)[i] != Groups(rows)[j]
  {
    PairLessIsStrictTotalOrder();
    SortedSetSorted(rows, PairLess);
    StrictlySortedDistinct(Groups(rows), PairLess);
  }

  /** The counts add up to the number of input rows. */
  lemma GroupCountsTotal(rows: seq<Pair>)
    ensures TotalCounts(GroupCounts(rows)) == |rows|
  {
    var keys := Groups(rows);
    GroupsSorted(rows);
    KeyCountsRows(keys, rows);
    TotalCountsIsKeyCounts(keys, rows, GroupCounts(rows));
  }

  /** One grouped row per distinct pair of the input, in groupby's order, each
      counting the pair's occurrences (so a positive count). */
  lemma GroupCountsRows(rows: seq<Pair>)
    ensures var g := GroupCounts(rows);
            && (forall i :: 0 <= i < |g| ==> g[i].counts == multiset(rows)[(g[i].src, g[i].targ)] > 0)
            && (forall p :: p in rows <==> exists i :: 0 <= i < |g| && (g[i].src, g[i].targ) == p)
            && (forall i, j :: 0 <= i < j < |g| ==> PairLess((g[i].src, g[i].targ), (g[j].src, g[j].targ)))
  {
    var keys := Groups(rows);
    var g := GroupCounts(rows);
    GroupsSorted(rows);
    forall i | 0 <= i < |g| ensures g[i].counts == multiset(rows)[(g[i].src, g[i].targ)] > 0 {
      assert (g[i].src, g[i].targ) == keys[i];
      assert keys[i] in rows;
    }
    forall p | p in rows ensures exists i :: 0 <= i < |g| && (g[i].src, g[i].targ) == p {
      var i :| 0 <= i < |keys| && keys[i] == p;
      assert (g[i].src, g[i].targ) == p;
    }
    forall i | 0 <= i < |g| ensures (g[i].src, g[i].targ) in rows {
      assert keys[i] in keys;
    }
    forall i, j | 0 <= i < j < |g| ensures PairLess((g[i].src, g[i].targ), (g[j].src, g[j].targ)) {
      assert (g[i].src, g[i].targ) == keys[i] && (g[j].src, g[j].targ) == keys[j];
    }
  }

  /** The filter keeps exactly the rows whose count exceeds the threshold,
      strictly, and never adds any. */
  lemma {:induction false} AboveThresholdSpec(links: seq<Link>, threshold: int)
    ensures forall l :: l in AboveThreshold(links, threshold) <==> l in links && l.counts > threshold
    ensures |AboveThreshold(links, threshold)| <= |links|
  {
    forall l ensures l in AboveThreshold(links, threshold) <==> l in links && l.counts > threshold {
      ConcatMapMembership(KeepAbove(threshold), links, l);
    }
    if links != [] {
      AboveThresholdSpec(links[..|links| - 1], threshold);
    }
  }

  /** Filtering keeps order: it distributes over concatenation. */
  lemma AboveThresholdAppend(a: seq<Link>, b: seq<Link>, threshold: int)
    ensures AboveThreshold(a + b, threshold) == AboveThreshold(a, threshold) + AboveThreshold(b, threshold)
  {
    ConcatMapAppend(KeepAbove(threshold), a, b);
  }

  lemma PrepareSankeyDataSpec(rows: seq<Pair>, threshold: Option<int>)
    ensures PrepareSankeyData(rows, threshold).Failure? <==> threshold.None?
    ensures threshold.None? ==> PrepareSankeyData(rows, threshold).error == AssertionError(ThresholdNotInt)
    ensures threshold.Some? ==>
              forall l :: l in PrepareSankeyData(rows, threshold).value <==>
                l in GroupCounts(rows) && l.counts > threshold.value
  {
    if threshold.Some? {
      AboveThresholdSpec(GroupCounts(rows), threshold.value);
    }
  }

  // ----- _code_mapping -----

  /** The node labels: sorted(set(srcs + targs)). */
  function Labels(links: seq<Link>): seq<string> {
    SortedSet(Srcs(links) + Targs(links), StrLess)
  }

  function Srcs(links: seq<Link>): (r: seq<string>)
    ensures |r| == |links| && forall i :: 0 <= i < |links| ==> r[i] == links[i].src
  {
    seq(|links|, i requires 0 <= i < |links| => links[i].src)
  }

  function Targs(links: seq<Link>): (r: seq<string>)
    ensures |r| == |links| && forall i :: 0 <= i < |links| ==> r[i] == links[i].targ
  {
    seq(|links|, i requires 0 <= i < |links| => links[i].targ)
  }

  /** A row with src and targ replaced by their label codes. */
  datatype CodedLink = CodedLink(src: nat, targ: nat, counts: int)

  /** _code_mapping: the labels, and the rows with every name replaced by its
      position among the labels. */
  function CodeMapping(links: seq<Link>): (seq<CodedLink>, seq<string>) {
    var labels := Labels(links);
    LabelsCover(links);
    (seq(|links|, i requires 0 <= i < |links| =>
       CodedLink(IndexOf(labels, links[i].src), IndexOf(labels, links[i].targ), links[i].counts)),
     labels)
  }

  lemma LabelsCover(links: seq<Link>)
    ensures forall i :: 0 <= i < |links| ==> links[i].src in Labels(links) && links[i].targ in Labels(links)
  {
    forall i | 0 <= i < |links| ensures links[i].src in Labels(links) && links[i].targ in Labels(links) {
      assert (Srcs(links) + Targs(links))[i] == links[i].src;
      assert (Srcs(links) + Targs(links))[|links| + i] == links[i].targ;
    }
  }

  /** The labels are sorted, free of duplicates, and exactly the names that occur
      as src or targ. */
  lemma LabelsSpec(links: seq<Link>)
    ensures StrictlySorted(Labels(links), StrLess)
    ensures forall i, j :: 0 <= i < j < |Labels(links)| ==> Labels(links)[i] != Labels(links)[j]
    ensures forall x :: x in Labels(links) <==>
              exists i :: 0 <= i < |links| && (links[i].src == x || links[i].targ == x)
  {
    StrLessIsStrictTotalOrder();
    SortedSetSorted(Srcs(links) + Targs(links), StrLess);
    StrictlySortedDistinct(Labels(links), StrLess);
    forall x | x in Labels(links)
      ensures exists i :: 0 <= i < |links| && (links[i].src == x || links[i].targ == x)
    {
      var all := Srcs(links) + Targs(links);
      var k :| 0 <= k < |all| && all[k] == x;
      if k < |links| {
        assert links[k].src == x;
      } else {
        assert links[k - |links|].targ == x;
      }
    }
    LabelsCover(links);
  }

  /** The encoding is a bijection between the labels and 0..|labels|-1, and
      decoding each coded row gives back the original names and count. */
  lemma CodeMappingSpec(links: seq<Link>)
    ensures var (coded, labels) := CodeMapping(links);
            && |coded| == |links|
            && (forall i :: 0 <= i < |links| ==>
                  && coded[i].src < |labels| && coded[i].targ < |labels|
                  && labels[coded[i].src] == links[i].src
                  && labels[coded[i].targ] == links[i].targ
                  && coded[i].counts == links[i].counts)
            && (forall i :: 0 <= i < |labels| ==> IndexOf(labels, labels[i]) == i)
  {
    var labels := Labels(links);
    LabelsSpec(links);
    forall i | 0 <= i < |labels| ensures IndexOf(labels, labels[i]) == i {
      IndexOfDistinct(labels, i);
    }
  }

  /** In a sequence without duplicates every element is found at its own position. */
  lemma {:induction false} IndexOfDistinct(s: seq<string>, i: nat)
    requires forall a, b :: 0 <= a < b < |s| ==> s[a] != s[b]
    requires i < |s|
    ensures IndexOf(s, s[i]) == i
  {
    if i > 0 {
      assert s[0] != s[i];
      assert s[1..][i - 1] == s[i];
      IndexOfDistinct(s[1..], i - 1);
    }
  }

  // ----- make_sankey -----

  /** A data frame of string columns, all of the same height. */
  datatype RawFrame = RawFrame(height: nat, columns: map<string, seq<string>>)

  type Frame = f: RawFrame | forall c :: c in f.columns ==> |f.columns[c]| == f.height
    witness RawFrame(0, map[])

  /** df[[a, b]] with its columns renamed src and targ. */
  function ColumnPairs(df: Frame, a: string, b: string): (r: seq<Pair>)
    requires a in df.columns && b in df.columns
    ensures |r| == df.height
  {
    seq(df.height, i requires 0 <= i < df.height => (df.columns[a][i], df.columns[b][i]))
  }

  /** The first of the named columns the frame lacks. */
  function FirstMissing(df: Frame, cols: seq<string>): (r: Option<string>)
    ensures r.None? <==> forall i :: 0 <= i < |cols| ==> cols[i] in df.columns
    ensures r.Some? ==> r.value in cols && r.value !in df.columns
  {
    if cols == [] then None
    else if cols[0] !in df.columns then Some(cols[0])
    else FirstMissing(df, cols[1..])
  }

  /** The stacked table: the pairs of columns 0-1, then 1-2, ..., n-2 - n-1. */
  function Stacked(df: Frame, cols: seq<string>): seq<Pair>
    requires forall i :: 0 <= i < |cols| ==> cols[i] in df.columns
  {
    if |cols| < 2 then []
    else Stacked(df, cols[..|cols| - 1]) + ColumnPairs(df, cols[|cols| - 2], cols[|cols| - 1])
  }

  /** Each adjacent pair of columns contributes one row per frame row. */
  lemma {:induction false} StackedLength(df: Frame, cols: seq<string>)
    requires |cols| >= 1
    requires forall i :: 0 <= i < |cols| ==> cols[i] in df.columns
    ensures |Stacked(df, cols)| == (|cols| - 1) * df.height
  {
    if |cols| >= 2 {
      StackedLength(df, cols[..|cols| - 1]);
    }
  }

  lemma MulMono(a: nat, b: nat, h: nat)
    requires a <= b
    ensures a * h <= b * h
  {
  }

  /** Block k of the stacked table is the pairs of columns k and k+1. */
  lemma {:induction false} StackedBlock(df: Frame, cols: seq<string>, k: nat, r: nat)
    requires forall i :: 0 <= i < |cols| ==> cols[i] in df.columns
    requires k + 1 < |cols| && r < df.height
    ensures k * df.height + r < |Stacked(df, cols)|
    ensures Stacked(df, cols)[k * df.height + r] == (df.columns[cols[k]][r], df.columns[cols[k + 1]][r])
  {
    var n := |cols|;
    var h := df.height;
    var p := cols[..n - 1];
    StackedLength(df, cols);
    StackedLength(df, p);
    var front := Stacked(df, p);
    var back := ColumnPairs(df, cols[n - 2], cols[n - 1]);
    assert Stacked(df, cols) == front + back;
    assert |front| == (n - 2) * h;
    MulMono(k, n - 2, h);
    MulMono(k + 1, n - 1, h);
    assert (k + 1) * h == k * h + h;
    if k + 2 < n {
      MulMono(k + 1, n - 2, h);
      StackedBlock(df, p, k, r);
      assert p[k] == cols[k] && p[k + 1] == cols[k + 1];
    } else {
      assert k == n - 2;
    }
  }

  /** What make_sankey hands to the chart: the labels and, per link, the codes
      of its ends and its value. */
  datatype SankeyLinks = SankeyLinks(labels: seq<string>, sources: seq<nat>, targets: seq<nat>, values: seq<int>)

  function Counts(links: seq<Link>): seq<int> {
    seq(|links|, i requires 0 <= i < |links| => links[i].counts)
  }

  /** The chart data of prepared rows: vals defaults to the Counts column. */
  function LinksOf(prepared: seq<Link>, vals: Option<seq<int>>): SankeyLinks {
    var (coded, labels) := CodeMapping(prepared);
    SankeyLinks(labels,
                seq(|coded|, i requires 0 <= i < |coded| => coded[i].src),
                seq(|coded|, i requires 0 <= i < |coded| => coded[i].targ),
                vals.GetOr(Counts(prepared)))
  }

  /** make_sankey's result: the threshold assertion, the column-count assertion,
      a KeyError for a missing column, then stacking, preparing and encoding. */
  function MakeSankeySpec(df: Frame, threshold: Option<int>, cols: seq<string>, vals: Option<seq<int>>)
    : Result<SankeyLinks>
  {
    if threshold.None? then Failure(AssertionError(ThresholdNotInt))
    else if |cols| < 2 then Failure(AssertionError(TooFewColumns))
    else match FirstMissing(df, cols)
      case Some(c) => Failure(KeyError(c))
      case None =>
        Success(LinksOf(AboveThreshold(GroupCounts(Stacked(df, cols)), threshold.value), vals))
  }

  /** make_sankey: the argument checks, then the loop that concatenates the
      stacked column pairs, then preparation and encoding. */
  method MakeSankey(df: Frame, threshold: Option<int>, cols: seq<string>, vals: Option<seq<int>>)
    returns (r: Result<SankeyLinks>)
    ensures r == MakeSankeySpec(df, threshold, cols, vals)
  {
    if threshold.None? {
      return Failure(AssertionError(ThresholdNotInt));
    }
    if |cols| < 2 {
      return Failure(AssertionError(TooFewColumns));
    }
    var missing := FirstMissing(df, cols);
    if missing.Some? {
      return Failure(KeyError(missing.value));
    }
    var sankeyData := ColumnPairs(df, cols[0], cols[1]);
    assert cols[..2][..1] == cols[..1];
    var i := 1;
    while i < |cols| - 1
      invariant 1 <= i <= |cols| - 1
      invariant sankeyData == Stacked(df, cols[..i + 1])
    {
      var stacked := ColumnPairs(df, cols[i], cols[i + 1]);
      sankeyData := sankeyData + stacked;
      assert cols[..i + 2][..i + 1] == cols[..i + 1];
      i := i + 1;
    }
    assert cols[..i + 1] == cols;
    var prepared := PrepareSankeyData(sankeyData, threshold);
    return Success(LinksOf(prepared.value, vals));
  }

  /** make_sankey fails exactly when the threshold is None, fewer than two columns
      are named or one of them is missing; otherwise every stacked row is counted
      once and the links have one value each when vals is not given. */
  lemma MakeSankeyOutcome(df: Frame, threshold: Option<int>, cols: seq<string>, vals: Option<seq<int>>)
    ensures MakeSankeySpec(df, threshold, cols, vals).Success? <==>
              threshold.Some? && |cols| >= 2 && forall i :: 0 <= i < |cols| ==> cols[i] in df.columns
    ensures MakeSankeySpec(df, threshold, cols, vals).Success? ==>
              && |Stacked(df, cols)| == (|cols| - 1) * df.height
              && TotalCounts(GroupCounts(Stacked(df, cols))) == (|cols| - 1) * df.height
    ensures MakeSankeySpec(df, threshold, cols, vals).Success? && vals.None? ==>
              var s := MakeSankeySpec(df, threshold, cols, vals).value;
              |s.sources| == |s.targets| == |s.values|
  {
    if threshold.Some? && |cols| >= 2 && FirstMissing(df, cols).None? {
      StackedLength(df, cols);
      GroupCountsTotal(Stacked(df, cols));
    }
  }
}
