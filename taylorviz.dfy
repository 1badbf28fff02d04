/** The list and string logic of taylorviz.py that feeds the charts: the word
    string handed to the word cloud (convert_file_to_string), the word and row
    selection of wordcount_sankey, and the flattening of the word-length lists
    for the box plot. The charts themselves are not modelled. */
module TaylorViz {
  import opened Wrappers
  import opened Text
  import opened Seqs
  import opened Ordering
  import opened Statistics

  // ----- convert_file_to_string -----

  /** `s * n`: n copies of s. */
  function Repeat(s: string, n: nat): (r: string)
    ensures |r| == n * |s|
  {
    if n == 0 then [] else s + Repeat(s, n - 1)
  }

  /** `(word + ' ') * count` for one counter item. */
  function Spell(item: (string, int)): string {
    Repeat(item.0 + " ", if item.1 < 0 then 0 else item.1)
  }

  /** The string built by the loop over the counter's items. */
  function SpellOut(items: seq<(string, int)>): string {
    ConcatMap(Spell, items)
  }

  /** convert_file_to_string as written: with max_words the sorted items are
      sliced as `dict.items()[:max_words]`, which raises TypeError. */
  method ConvertFileToString(wordCount: Counter, maxWords: Option<int>) returns (r: Result<string>)
    ensures maxWords.Some? ==> r == Failure(TypeError)
    ensures maxWords.None? ==> r == Success(SpellOut(wordCount))
  {
    if maxWords.Some? {
      return Failure(TypeError);
    }
    var words := "";
    var i := 0;
    while i < |wordCount|
      invariant 0 <= i <= |wordCount|
      invariant words == SpellOut(wordCount[..i])
    {
      var (word, count) := wordCount[i];
      words := words + Repeat(word + " ", count);
      assert wordCount[..i + 1] == wordCount[..i] + [wordCount[i]];
      ConcatMapSnoc(Spell, wordCount[..i], wordCount[i]);
      i := i + 1;
    }
    assert wordCount[..i] == wordCount;
    return Success(words);
  }

  /** What the max_words branch evidently means: the first max_words items of
      the stable descending sort by count. */
  function ConvertFileToStringIntended(wordCount: Counter, maxWords: Option<int>): string {
    match maxWords
    case None => SpellOut(wordCount)
    case Some(k) => SpellOut(PyTake(SortByCountDesc(wordCount), k))
  }

  /** The intended result spells only the max_words most frequent words, each as
      often as it occurs, and never a word outside the counter. */
  lemma IntendedTopWords(wordCount: Counter, k: nat)
    ensures var taken := PyTake(SortByCountDesc(wordCount), k);
            && ConvertFileToStringIntended(wordCount, Some(k)) == SpellOut(taken)
            && |taken| == (if k <= |wordCount| then k else |wordCount|)
            && multiset(taken) <= multiset(wordCount)
            && forall x, y :: x in taken && y in SortByCountDesc(wordCount)[|taken|..] ==> x.1 >= y.1
  {
    var s := SortByCountDesc(wordCount);
    assert |s| == |multiset(s)| == |multiset(wordCount)| == |wordCount|;
    TopKSpec(wordCount, k);
  }

  /** Taking the first k of the sort keeps items that each count at least as much
      as every item left out, and together they are the whole counter. */
  lemma TopKSpec(items: seq<(string, int)>, k: nat)
    ensures var s := SortByCountDesc(items);
            var taken := PyTake(s, k);
            && multiset(taken) + multiset(s[|taken|..]) == multiset(items)
            && forall x, y :: x in taken && y in s[|taken|..] ==> x.1 >= y.1
  {
    var s := SortByCountDesc(items);
    var taken := PyTake(s, k);
    SortByCountDescSorted(items);
    PrefixSplit(s, |taken|);
  }

  /** Cutting a sequence sorted by descending count splits its items in two,
      every item of the front counting at least as much as any of the back. */
  lemma PrefixSplit(s: seq<(string, int)>, n: nat)
    requires n <= |s|
    requires SortedByCountDesc(s)
    ensures multiset(s[..n]) + multiset(s[n..]) == multiset(s)
    ensures forall x, y :: x in s[..n] && y in s[n..] ==> x.1 >= y.1
  {
    assert s == s[..n] + s[n..];
    forall x, y | x in s[..n] && y in s[n..] ensures x.1 >= y.1 {
      var i :| 0 <= i < n && s[..n][i] == x;
      var j :| 0 <= j < |s| - n && s[n..][j] == y;
      assert s[i] == x && s[n + j] == y;
    }
  }

  /** The word string is as long as every word plus its space, times its count. */
  lemma SpellOutLength(items: seq<(string, int)>)
    ensures |SpellOut(items)| == Sum(seq(|items|, i requires 0 <= i < |items| =>
                                      (if items[i].1 < 0 then 0 else items[i].1) * (|items[i].0| + 1)))
  {
    var lens := seq(|items|, i requires 0 <= i < |items| =>
                      (if items[i].1 < 0 then 0 else items[i].1) * (|items[i].0| + 1));
    ConcatMapLength(Spell, items, lens);
  }

  /** An empty counter, or one whose counts are all 0, gives the empty string. */
  lemma {:induction false} SpellOutEmpty(items: seq<(string, int)>)
    requires forall i :: 0 <= i < |items| ==> items[i].1 <= 0
    ensures SpellOut(items) == ""
  {
    if items != [] {
      SpellOutEmpty(items[..|items| - 1]);
    }
  }

  /** The words of the counter, each repeated as often as it is counted. */
  function Copies(item: (string, int)): seq<string> {
    seq(if item.1 < 0 then 0 else item.1, _ => item.0)
  }

  function Expand(items: seq<(string, int)>): seq<string> {
    ConcatMap(Copies, items)
  }

  /** Each word followed by one space. */
  function SpellWords(ws: seq<string>): string {
    ConcatMap((w: string) => w + " ", ws)
  }

  lemma {:induction false} RepeatCopies(w: string, n: nat)
    ensures Repeat(w + " ", n) == SpellWords(seq(n, _ => w))
  {
    if n > 0 {
      var c := seq(n, _ => w);
      var c' := seq(n - 1, _ => w);
      RepeatCopies(w, n - 1);
      assert c == [w] + c';
      ConcatMapAppend((v: string) => v + " ", [w], c');
      assert ConcatMap((v: string) => v + " ", [w]) == w + " " by {
        assert [w][..0] == [];
      }
    }
  }

  /** The spelled string is the expanded word list, each word followed by a space. */
  lemma {:induction false} SpellOutExpand(items: seq<(string, int)>)
    ensures SpellOut(items) == SpellWords(Expand(items))
  {
    if items != [] {
      var p := items[..|items| - 1];
      var x := items[|items| - 1];
      SpellOutExpand(p);
      RepeatCopies(x.0, if x.1 < 0 then 0 else x.1);
      ConcatMapAppend((w: string) => w + " ", Expand(p), Copies(x));
    }
  }

  /** Words each followed by a space are the words joined by spaces, with an
      empty last piece. */
  lemma {:induction false} SpellWordsJoin(ws: seq<string>)
    ensures SpellWords(ws) == Join(ws + [""], ' ')
  {
    if ws != [] {
      var p := ws[..|ws| - 1];
      var w := ws[|ws| - 1];
      SpellWordsJoin(p);
      JoinSnoc(p, w);
      assert ws == p + [w];
    }
  }

  lemma {:induction false} JoinSnoc(p: seq<string>, w: string)
    ensures Join(p + [w] + [""], ' ') == Join(p + [""], ' ') + w + " "
  {
    if p == [] {
      assert [w] + [""] == p + [w] + [""];
      assert ([w] + [""])[1..] == [""];
    } else {
      JoinSnoc(p[1..], w);
      assert (p + [w] + [""])[1..] == p[1..] + [w] + [""];
      assert (p + [""])[1..] == p[1..] + [""];
    }
  }

  /** Splitting the word string on spaces gives back every word as often as it
      was counted, in the counter's order, followed by one empty piece. */
  lemma SpellOutSplit(items: seq<(string, int)>)
    requires forall i :: 0 <= i < |items| ==> ' ' !in items[i].0
    ensures SplitOn(SpellOut(items), ' ') == Expand(items) + [""]
  {
    var ws := Expand(items);
    SpellOutExpand(items);
    SpellWordsJoin(ws);
    forall j | 0 <= j < |ws + [""]| ensures ' ' !in (ws + [""])[j] {
      if j < |ws| {
        ConcatMapMembership(Copies, items, ws[j]);
        assert ws[j] in ws;
      }
    }
    SplitJoin(ws + [""], ' ');
  }

  lemma {:induction false} CopiesCount(item: (string, int), w: string)
    ensures multiset(Copies(item))[w] == if item.0 == w && item.1 > 0 then item.1 else 0
    decreases if item.1 < 0 then 0 else item.1
  {
    if item.1 > 0 {
      var rest := (item.0, item.1 - 1);
      CopiesCount(rest, w);
      assert Copies(item) == Copies(rest) + [item.0];
    }
  }

  /** Each word occurs in the expanded list as often as the counter counts it. */
  lemma {:induction false} ExpandCounts(c: Counter, w: string)
    requires DistinctKeys(c)
    ensures multiset(Expand(c))[w] == Lookup(c, w)
  {
    if c != [] {
      var rest := c[1..];
      ExpandCounts(rest, w);
      assert c == [c[0]] + rest;
      ConcatMapAppend<(string, int), string>(Copies, [c[0]], rest);
      var one: seq<(string, int)> := [c[0]];
      assert ConcatMap(Copies, one) == Copies(c[0]) by {
        assert one[..0] == [];
      }
      CopiesCount(c[0], w);
      if c[0].0 == w {
        LookupAbsent(rest, w);
      }
    }
  }

  lemma {:induction false} LookupAbsent(c: Counter, w: string)
    requires w !in KeySet(c)
    ensures Lookup(c, w) == 0
    ensures multiset(Expand(c))[w] == 0
  {
    if c != [] {
      LookupAbsent(c[1..], w);
      CopiesCount(c[0], w);
      assert c == [c[0]] + c[1..];
      ConcatMapAppend<(string, int), string>(Copies, [c[0]], c[1..]);
      var one: seq<(string, int)> := [c[0]];
      assert ConcatMap(Copies, one) == Copies(c[0]) by {
        assert one[..0] == [];
      }
    }
  }

  // ----- wordcount_sankey: word list and rows -----

  /** One document's word counter, under its label. */
  type Doc = (string, Counter)

  /** The first k words of a document by stable descending count. */
  function TopWords(c: Counter, k: int): seq<string> {
    PyTake(Keys(SortByCountDesc(c)), k)
  }

  /** `word_list += words[:k]` for each document in order. */
  function WordListOf(docs: seq<Doc>, k: int): seq<string> {
    ConcatMap((d: Doc) => TopWords(d.1, k), docs)
  }

  lemma WordListOfSnoc(docs: seq<Doc>, d: Doc, k: int)
    ensures WordListOf(docs + [d], k) == WordListOf(docs, k) + TopWords(d.1, k)
  {
    ConcatMapSnoc((d: Doc) => TopWords(d.1, k), docs, d);
  }

  /** A row of the data frame handed to make_sankey: Word, Counts, Text. */
  datatype Row = Row(word: string, count: int, text: string)

  /** The rows of one document: its items in descending-count order whose word is
      in the word list. */
  function RowsOf(items: seq<(string, int)>, wordList: seq<string>, text: string): seq<Row> {
    if items == [] then []
    else
      (if items[0].0 in wordList then [Row(items[0].0, items[0].1, text)] else [])
      + RowsOf(items[1..], wordList, text)
  }

  function DocRows(d: Doc, wordList: seq<string>): seq<Row> {
    RowsOf(SortByCountDesc(d.1), wordList, d.0)
  }

  function AllRows(docs: seq<Doc>, wordList: seq<string>): seq<Row> {
    ConcatMap((d: Doc) => DocRows(d, wordList), docs)
  }

  lemma AllRowsSnoc(docs: seq<Doc>, d: Doc, wordList: seq<string>)
    ensures AllRows(docs + [d], wordList) == AllRows(docs, wordList) + DocRows(d, wordList)
  {
    ConcatMapSnoc((d: Doc) => DocRows(d, wordList), docs, d);
  }

  /** The three lists all_words, all_counts and texts. */
  datatype Columns = Columns(words: seq<string>, counts: seq<int>, texts: seq<string>)

  function Unzip(rows: seq<Row>): (c: Columns)
    ensures |c.words| == |rows| && |c.counts| == |rows| && |c.texts| == |rows|
  {
    Columns(seq(|rows|, i requires 0 <= i < |rows| => rows[i].word),
            seq(|rows|, i requires 0 <= i < |rows| => rows[i].count),
            seq(|rows|, i requires 0 <= i < |rows| => rows[i].text))
  }

  /** zip(all_words, all_counts, texts) gives back the rows. */
  lemma UnzipZip(rows: seq<Row>)
    ensures var c := Unzip(rows);
            seq(|rows|, i requires 0 <= i < |rows| => Row(c.words[i], c.counts[i], c.texts[i])) == rows
  {
  }

  /** wordcount_sankey's selection: both k and word_list given fails the
      assertion; otherwise the word list is the given one, or with k the top k
      words of each document, or empty. */
  function SankeyRows(docs: seq<Doc>, wordList: Option<seq<string>>, k: Option<int>): Result<seq<Row>> {
    if k.Some? && wordList.Some? then Failure(AssertionError(KWithWordList))
    else
      var wl := if k.Some? then WordListOf(docs, k.value) else wordList.GetOr([]);
      Success(AllRows(docs, wl))
  }

  /** The three lists of a followed by those of b. */
  function Glue(a: Columns, b: Columns): Columns {
    Columns(a.words + b.words, a.counts + b.counts, a.texts + b.texts)
  }

  lemma GlueAssociative(a: Columns, b: Columns, c: Columns)
    ensures Glue(Glue(a, b), c) == Glue(a, Glue(b, c))
  {
    assert (a.words + b.words) + c.words == a.words + (b.words + c.words);
    assert (a.counts + b.counts) + c.counts == a.counts + (b.counts + c.counts);
    assert (a.texts + b.texts) + c.texts == a.texts + (b.texts + c.texts);
  }

  /** Appending rows appends to each of the three lists. */
  lemma UnzipAppend(a: seq<Row>, b: seq<Row>)
    ensures Unzip(a + b) == Glue(Unzip(a), Unzip(b))
  {
  }

  /** The first loop of wordcount_sankey: `word_list += words[:k]` per document. */
  method BuildWordList(docs: seq<Doc>, k: int) returns (wl: seq<string>)
    ensures wl == WordListOf(docs, k)
  {
    wl := [];
    var i := 0;
    while i < |docs|
      invariant 0 <= i <= |docs|
      invariant wl == WordListOf(docs[..i], k)
    {
      var words := Keys(SortByCountDesc(docs[i].1));
      wl := wl + PyTake(words, k);
      assert PyTake(words, k) == TopWords(docs[i].1, k);
      assert docs[..i + 1] == docs[..i] + [docs[i]];
      WordListOfSnoc(docs[..i], docs[i], k);
      i := i + 1;
    }
    assert docs[..i] == docs;
  }

  /** The inner loop for one document: each item whose word is in the word list
      appended to the three lists. */
  method AppendDocRows(text: string, items: seq<(string, int)>, wl: seq<string>, cols: Columns)
    returns (r: Columns)
    ensures r == Glue(cols, Unzip(RowsOf(items, wl, text)))
  {
    var allWords, allCounts, texts := cols.words, cols.counts, cols.texts;
    var j := 0;
    while j < |items|
      invariant 0 <= j <= |items|
      invariant Glue(Columns(allWords, allCounts, texts), Unzip(RowsOf(items[j..], wl, text)))
                == Glue(cols, Unzip(RowsOf(items, wl, text)))
    {
      ghost var before := Columns(allWords, allCounts, texts);
      var (word, count) := items[j];
      var head := if word in wl then [Row(word, count, text)] else [];
      var rest := RowsOf(items[j + 1..], wl, text);
      assert items[j..][1..] == items[j + 1..];
      assert RowsOf(items[j..], wl, text) == head + rest;
      UnzipAppend(head, rest);
      if word in wl {
        allWords := allWords + [word];
        allCounts := allCounts + [count];
        texts := texts + [text];
      }
      assert Columns(allWords, allCounts, texts) == Glue(before, Unzip(head));
      GlueAssociative(before, Unzip(head), Unzip(rest));
      j := j + 1;
    }
    assert items[j..] == [];
    assert Glue(Columns(allWords, allCounts, texts), Unzip([])) == Columns(allWords, allCounts, texts);
    return Columns(allWords, allCounts, texts);
  }

  /** wordcount_sankey up to the call of make_sankey: the word-list loop, then
      the rows of every document emitted into the three lists. */
  method WordcountSankey(docs: seq<Doc>, wordList: Option<seq<string>>, k: Option<int>)
    returns (r: Result<Columns>)
    ensures SankeyRows(docs, wordList, k).Failure? ==> r == Failure(SankeyRows(docs, wordList, k).error)
    ensures SankeyRows(docs, wordList, k).Success? ==> r == Success(Unzip(SankeyRows(docs, wordList, k).value))
  {
    if k.Some? && wordList.Some? {
      return Failure(AssertionError(KWithWordList));
    }
    var wl := wordList.GetOr([]);
    if k.Some? {
      wl := BuildWordList(docs, k.value);
    }
    var cols := Columns([], [], []);
    var i := 0;
    while i < |docs|
      invariant 0 <= i <= |docs|
      invariant cols == Unzip(AllRows(docs[..i], wl))
    {
      var (text, wordCount) := docs[i];
      assert DocRows(docs[i], wl) == RowsOf(SortByCountDesc(wordCount), wl, text);
      cols := AppendDocRows(text, SortByCountDesc(wordCount), wl, cols);
      assert docs[..i + 1] == docs[..i] + [docs[i]];
      AllRowsSnoc(docs[..i], docs[i], wl);
      UnzipAppend(AllRows(docs[..i], wl), DocRows(docs[i], wl));
      i := i + 1;
    }
    assert docs[..i] == docs;
    return Success(cols);
  }

  // ----- what the selection promises -----

  /** The selection fails exactly when both k and a word list are given; with
      neither, the word list is empty and no row is emitted. */
  lemma SankeyRowsSpec(docs: seq<Doc>, wordList: Option<seq<string>>, k: Option<int>)
    ensures SankeyRows(docs, wordList, k).Failure? <==> k.Some? && wordList.Some?
    ensures SankeyRows(docs, wordList, k).Failure? ==>
              SankeyRows(docs, wordList, k).error == AssertionError(KWithWordList)
    ensures k.None? && wordList.None? ==> SankeyRows(docs, wordList, k) == Success([])
  {
    if k.None? && wordList.None? {
      NoWordsNoRows(docs);
    }
  }

  lemma {:induction false} NoWordsNoRows(docs: seq<Doc>)
    ensures AllRows(docs, []) == []
  {
    if docs != [] {
      NoWordsNoRows(docs[..|docs| - 1]);
      RowsOfNoWords(SortByCountDesc(docs[|docs| - 1].1), docs[|docs| - 1].0);
    }
  }

  lemma {:induction false} RowsOfNoWords(items: seq<(string, int)>, text: string)
    ensures RowsOf(items, [], text) == []
  {
    if items != [] {
      RowsOfNoWords(items[1..], text);
    }
  }

  /** A row of one document is an item of it whose word is in the word list. */
  lemma {:induction false} RowsOfMembership(items: seq<(string, int)>, wordList: seq<string>, text: string)
    ensures forall row: Row :: row in RowsOf(items, wordList, text) <==>
              row.text == text && row.word in wordList && (row.word, row.count) in items
  {
    if items != [] {
      RowsOfMembership(items[1..], wordList, text);
      forall row: Row | row.text == text && row.word in wordList && (row.word, row.count) in items
        ensures row in RowsOf(items, wordList, text)
      {
        if (row.word, row.count) != items[0] {
          assert (row.word, row.count) in items[1..];
        }
      }
    }
  }

  /** A row is emitted exactly for a word of the word list and a document that
      counts it: (word, count, text) with the document's label as text. */
  lemma {:induction false} AllRowsMembership(docs: seq<Doc>, wordList: seq<string>, row: Row)
    ensures row in AllRows(docs, wordList) <==>
              row.word in wordList &&
              exists i :: 0 <= i < |docs| && docs[i].0 == row.text && (row.word, row.count) in docs[i].1
  {
    ConcatMapMembership((d: Doc) => DocRows(d, wordList), docs, row);
    forall i | 0 <= i < |docs|
      ensures row in DocRows(docs[i], wordList) <==>
                docs[i].0 == row.text && row.word in wordList && (row.word, row.count) in docs[i].1
    {
      RowsOfMembership(SortByCountDesc(docs[i].1), wordList, docs[i].0);
      var s := SortByCountDesc(docs[i].1);
      assert multiset(s) == multiset(docs[i].1);
      assert (row.word, row.count) in s <==> (row.word, row.count) in multiset(s);
    }
  }

  /** Only which words the list holds matters: duplicates in the word list add
      no rows. */
  lemma {:induction false} RowsOfSameWords(items: seq<(string, int)>, wl1: seq<string>, wl2: seq<string>, text: string)
    requires forall w :: w in wl1 <==> w in wl2
    ensures RowsOf(items, wl1, text) == RowsOf(items, wl2, text)
  {
    if items != [] {
      RowsOfSameWords(items[1..], wl1, wl2, text);
    }
  }

  lemma {:induction false} AllRowsSameWords(docs: seq<Doc>, wl1: seq<string>, wl2: seq<string>)
    requires forall w :: w in wl1 <==> w in wl2
    ensures AllRows(docs, wl1) == AllRows(docs, wl2)
  {
    if docs != [] {
      var d := docs[|docs| - 1];
      AllRowsSameWords(docs[..|docs| - 1], wl1, wl2);
      RowsOfSameWords(SortByCountDesc(d.1), wl1, wl2, d.0);
    }
  }

  /** Repeating a word of the list changes nothing. */
  lemma DuplicateWordAddsNoRows(docs: seq<Doc>, wordList: seq<string>, w: string)
    requires w in wordList
    ensures AllRows(docs, wordList + [w]) == AllRows(docs, wordList)
  {
    AllRowsSameWords(docs, wordList + [w], wordList);
  }

  predicate CountsDescending(rows: seq<Row>) {
    forall i, j :: 0 <= i < j < |rows| ==> rows[i].count >= rows[j].count
  }

  /** Within one document the rows come in descending order of count. */
  lemma {:induction false} RowsOfSorted(items: seq<(string, int)>, wordList: seq<string>, text: string)
    requires SortedByCountDesc(items)
    ensures CountsDescending(RowsOf(items, wordList, text))
  {
    if items != [] {
      var rest := RowsOf(items[1..], wordList, text);
      RowsOfSorted(items[1..], wordList, text);
      RowsOfMembership(items[1..], wordList, text);
      forall j | 0 <= j < |rest| ensures items[0].1 >= rest[j].count {
        assert rest[j] in rest;
        var k :| 0 <= k < |items[1..]| && items[1..][k] == (rest[j].word, rest[j].count);
        assert items[k + 1] == items[1..][k];
      }
      var rows := RowsOf(items, wordList, text);
      if items[0].0 in wordList {
        assert rows == [Row(items[0].0, items[0].1, text)] + rest;
        forall i, j | 0 <= i < j < |rows| ensures rows[i].count >= rows[j].count {
          assert rows[j] == rest[j - 1];
          if i > 0 {
            assert rows[i] == rest[i - 1];
          }
        }
      } else {
        assert rows == rest;
      }
    }
  }

  lemma DocRowsSorted(d: Doc, wordList: seq<string>)
    ensures CountsDescending(DocRows(d, wordList))
  {
    SortByCountDescSorted(d.1);
    RowsOfSorted(SortByCountDesc(d.1), wordList, d.0);
  }

  /** A document contributes k words, or all of them when it has fewer. */
  lemma TopWordsLength(c: Counter, k: nat)
    ensures |TopWords(c, k)| == if k <= |c| then k else |c|
  {
    var s := SortByCountDesc(c);
    assert |s| == |multiset(s)| == |multiset(c)| == |c|;
  }

  /** Every top word of a document is one of its words. */
  lemma TopWordsFrom(c: Counter, k: nat, w: string)
    requires w in TopWords(c, k)
    ensures w in KeySet(c)
  {
    var s := SortByCountDesc(c);
    var t := PyTake(Keys(s), k);
    var j :| 0 <= j < |t| && t[j] == w;
    assert s[j] in multiset(c);
    var m :| 0 <= m < |c| && c[m] == s[j];
    KeySetMembers(c, m);
  }

  /** Every word of the top-k list is a word of some document, and each document
      contributes at most k words (all of them when it has fewer). */
  lemma WordListOfSpec(docs: seq<Doc>, k: nat, w: string)
    ensures w in WordListOf(docs, k) ==> exists i :: 0 <= i < |docs| && w in KeySet(docs[i].1)
    ensures forall i :: 0 <= i < |docs| ==>
              |TopWords(docs[i].1, k)| == if k <= |docs[i].1| then k else |docs[i].1|
  {
    forall i | 0 <= i < |docs|
      ensures |TopWords(docs[i].1, k)| == if k <= |docs[i].1| then k else |docs[i].1|
    {
      TopWordsLength(docs[i].1, k);
    }
    if w in WordListOf(docs, k) {
      ConcatMapMembership((d: Doc) => TopWords(d.1, k), docs, w);
      var i :| 0 <= i < |docs| && w in TopWords(docs[i].1, k);
      TopWordsFrom(docs[i].1, k, w);
    }
  }

  // ----- total_wordl_boxplot -----

  /** `[item for sublist in lists for item in sublist]`. */
  function Flatten(lists: seq<seq<int>>): seq<int> {
    ConcatMap((l: seq<int>) => l, lists)
  }

  /** The flattened list is as long as all the lists together and holds exactly
      their elements. */
  lemma FlattenSpec(lists: seq<seq<int>>, x: int)
    ensures |Flatten(lists)| == Sum(seq(|lists|, i requires 0 <= i < |lists| => |lists[i]|))
    ensures x in Flatten(lists) <==> exists i :: 0 <= i < |lists| && x in lists[i]
  {
    ConcatMapLength((l: seq<int>) => l, lists, seq(|lists|, i requires 0 <= i < |lists| => |lists[i]|));
    ConcatMapMembership((l: seq<int>) => l, lists, x);
  }
}
