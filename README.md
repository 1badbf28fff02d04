# A verified model of the Taylor Swift NLP framework

This project models the core of a small Python framework for comparing texts.
The model covers four parts:

- **Registering documents** (`nlp.py`). A document is read either by the
  plain-text tokenizer or by the table parser of `nlp_parsers.py`. Its stop
  words are filtered out and its word statistics are computed: the word
  counter, the number of words, the list of word lengths and the average
  length. The statistics are then saved in the framework's registry
  `data[statistic][label]`.
- **Running visualizations** (`nlp.py`). Named callbacks are kept in an
  insertion-ordered table and run over the registry.
- **Preparing chart data** (`taylorviz.py`). This is the list and string logic
  behind the charts: the word string given to the word cloud, the word and
  row selection of the word-count Sankey chart, and the flattening of the
  length lists for the box plot.
- **Preparing Sankey tables** (`sankey.py`). Adjacent column pairs are stacked,
  equal (src, targ) pairs are grouped and counted, the groups are filtered by
  a threshold, and the node labels are encoded as integers.

Each module is one Dafny file:

- `wrappers.dfy`: `Option`, `Result`, and the error kinds. These are the
  library's own exception classes, plus the built-in exceptions that reach
  them.
- `text.dfy`: the Python string operations the library uses, over ASCII:
  `lower`, `strip`, `split(' ')`, `replace`, `s[-n:]` and `s[:k]`.
- `seqs.dfy`: flattening maps and sums.
- `ordering.dfy`: the orderings the source gets from Python. These are string
  comparison, `sorted(set(...))`, and the stable descending sort by count.
- `tokenizer.dfy`: `Nlp._default_parser`.
- `stopwords.dfy`: `Nlp._filter_stopwords`.
- `statistics.dfy`: `Nlp._data_results` and `collections.Counter`.
- `parsers.dfy`: `nlp_parsers.custom_parser`.
- `nlp.dfy`: the registry, `load_text`, `load_visualization`, `visualize`,
  and the `Nlp` class with its mutable fields `data` and `viz`.
- `taylorviz.dfy`: `convert_file_to_string`, `wordcount_sankey` up to the
  chart call, and the flattening in `total_wordl_boxplot`.
- `sankey.dfy`: `_code_mapping`, `_prepare_sankey_data`, and `make_sankey`
  up to the chart.

The form of the model follows the source:

- Loops become methods with loop invariants. Each method is proved equal to a
  specification function: `DefaultParser`, `DataResults`, `StripColumn`,
  `SaveResults`, `Visualize`, `ConvertFileToString`, `BuildWordList`,
  `AppendDocRows`, `WordcountSankey` and `MakeSankey`.
- The framework object is a class whose methods update `data` and the
  visualization table in place.
- Everything else is functions, with the properties proved as lemmas.

Behaviours of the code that the model keeps as written:

- `_data_results` on an empty word list divides by zero, and the
  `ZeroDivisionError` is re-raised as a `DataResultsError`.
- `_default_parser` splits each line on the single character `' '`, so two
  adjacent spaces give an empty piece, which is then dropped.
- `_default_parser` trims only trailing non-letters. A piece whose first
  character, after `strip`, is not a letter is dropped whole.
- `custom_parser`, and so `load_text` with a parser, chooses its reader with
  the three-character suffix test as written: a `.json` file is read by
  `pd.read_excel`. The corrected dispatch is modelled beside it
  (`CustomParseIntended`) and is not used by `load_text`.

## Model

| member | source | states |
|---|---|---|
| Text.LowerStrIdempotent | nlp.py:136 | `word.lower()` leaves no upper-case letter, and lower-casing again changes nothing |
| Text.StripSpec | nlp.py:138 | `strip()` keeps a contiguous middle `s[i..j]` that neither begins nor ends with whitespace, and everything it removes is whitespace |
| Text.RemoveCharSpec | nlp.py:130 | `replace('\n', '')` drops each newline and keeps every other character in order: it works piece by piece over concatenation, a newline becomes nothing and any other character stays; no newline is left |
| Text.SplitOnNoSeparator | nlp.py:132 | no piece of `row.split(' ')` contains a space |
| Text.JoinSplit | nlp.py:132 | joining the pieces of `split(' ')` with spaces gives back the row |
| Text.SplitJoin | nlp.py:132 | splitting space-joined, space-free pieces gives back the pieces |
| Text.PySuffix | nlp.py:112 | `filename[-3:]` has length min(3, len) and is a suffix of the name |
| Text.PyTake | taylorviz.py:96 | `words[:k]` is a prefix of length min(k, len), and negative k counts from the end |
| Tokenizer.DefaultParser | nlp.py:104-156 | an unaccepted suffix fails the assertion; an unreadable file is a `DefaultParsingError`; otherwise the result is the file's tokens, line after line |
| Tokenizer.RowTokens | nlp.py:134-144 | the piece loop appends exactly the token of each piece that yields one, in order |
| Tokenizer.TrimWord | nlp.py:142-143 | the trailing-punctuation loop ends and yields the longest prefix ending in a letter |
| Tokenizer.TrimTrailingSpec | nlp.py:142-143 | the trimmed word is a non-empty prefix ending in a letter, and only non-letters were cut |
| Tokenizer.NormalizeIsToken | nlp.py:136-144 | a kept piece is non-empty, lower-case, begins and ends with a letter, and has no space or newline |
| Tokenizer.TokensWellFormed | nlp.py:128-144 | every word the parser emits is a well-formed token |
| Tokenizer.TokenizeAppend | nlp.py:128-144 | the tokens of two runs of lines are the tokens of the first followed by those of the second |
| Tokenizer.NormalizeToken | nlp.py:136-144 | a well-formed token passes the piece loop unchanged |
| Tokenizer.KeepTokensOfTokens | nlp.py:134-144 | a list of tokens is kept whole by the piece loop |
| Tokenizer.TokenizeJoinWords | nlp.py:128-144 | a one-line file holding tokens separated by single spaces yields exactly those tokens |
| Tokenizer.TokenizeIdempotent | nlp.py:128-144 | re-tokenizing the space-joined output of the parser gives the same output |
| Tokenizer.ExampleSplit | nlp.py:132 | `"hello, 123 world!"` splits into `hello,`, `123`, `world!` |
| Tokenizer.ExampleTokenOf | nlp.py:136-144 | `hello,` becomes `hello` and `world!` becomes `world` |
| Tokenizer.ExampleNumber | nlp.py:140 | `123` is dropped because it does not begin with a letter |
| Tokenizer.Example | nlp.py:128-144 | the line `hello, 123 world!` gives the tokens `hello`, `world` |
| Stopwords.FilterStopwords | nlp.py:86-96 | the filter fails exactly when the stop list cannot be loaded, with a `StopWordError` wrapping the load error |
| Stopwords.FilterStopwordsSuccess | nlp.py:86-101 | with a stop list the filter succeeds with the comprehension's result |
| Stopwords.FilterMembership | nlp.py:92 | t is kept exactly when t is not a stop word and is the lower-case form of some input word |
| Stopwords.FilterClean | nlp.py:92 | every kept word is lower-case and not a stop word |
| Stopwords.FilterLength | nlp.py:92 | filtering never lengthens the list |
| Stopwords.FilterAppend | nlp.py:92 | filtering keeps order: it distributes over concatenation |
| Stopwords.FilterOfClean | nlp.py:92 | a list of lower-case non-stop words is its own filtering |
| Stopwords.FilterIdempotent | nlp.py:92 | filtering twice is filtering once |
| Stopwords.Example | nlp.py:92 | `The cat sat a mat` with stop words {the, a} keeps `cat sat mat` |
| Statistics.IncrementLookup | nlp.py:57 | counting one more w raises counter[w] by one and leaves every other count alone |
| Statistics.IncrementAbsent | nlp.py:57 | a word not yet counted is appended with count 1, so keys keep first-occurrence order |
| Statistics.IncrementPresent | nlp.py:57 | a word already counted keeps its position, and its count goes up by one |
| Statistics.CountWordsLookup | nlp.py:57 | `Counter(words)[w]` is the number of occurrences of w |
| Statistics.CountWordsShape | nlp.py:57 | the counter's keys are exactly the words, each once; counts are positive and add up to the number of words |
| Statistics.DataResults | nlp.py:28-71 | the two loops and the division give the statistics of the words, or `DataResultsError(ZeroDivisionError)` on an empty list |
| Statistics.ResultsFailure | nlp.py:46 | `_data_results` fails exactly on the empty list, with the wrapped division by zero |
| Statistics.ResultsCounts | nlp.py:56-58 | numwords is the number of words, `wordcount[w]` counts the occurrences of w, and its keys are the words |
| Statistics.ResultsLengths | nlp.py:41-52 | the length list holds each word's length in order, and the average times the number of words is the total length |
| Statistics.ResultsConsistent | nlp.py:40-61 | every successful result is consistent: as many lengths as words, distinct positive counts adding up to numwords, and the average equal to the total length over numwords |
| Statistics.ExampleCount | nlp.py:57 | `the quick brown fox the fox` is counted as the 2, quick 1, brown 1, fox 2, in that order |
| Statistics.Example | nlp.py:40-61 | the statistics of `the quick brown fox the fox`: 6 words, lengths 3 5 5 3 3 3, average 11/3 |
| Parsers.ReaderAsWrittenNeverJson | nlp_parsers.py:36-45 | as written, the JSON reader is never chosen, and every file that is not `.csv` goes to the Excel reader |
| Parsers.JsonFileReadAsExcel | nlp_parsers.py:28-45 | `lyrics.json` passes the suffix assertion and is read by the Excel reader |
| Parsers.ReaderForSpec | nlp_parsers.py:36-45 | corrected dispatch: each reader is chosen exactly for its own suffix, and Excel for the rest |
| Parsers.JsonFileReadAsJson | nlp_parsers.py:36-45 | corrected dispatch on `.json`, `.csv` and `.xlsx` names |
| Parsers.BuiltinParserIgnoresCase | nlp_parsers.py:54 | the parser name is matched without regard to case |
| Parsers.BuiltinParserExamples | nlp_parsers.py:54 | `CSV`, `Excel` and `json` are built-in parser names; `txt` is not |
| Parsers.StripAllSpec | nlp_parsers.py:55-58 | stripping succeeds exactly when every cell is a string; it keeps length and order, and fails on a non-string with `AttributeError` |
| Parsers.StripColumn | nlp_parsers.py:55-58 | the strip loop computes exactly the stripped column or the `AttributeError` |
| Parsers.CustomParser | nlp_parsers.py:13-70 | the suffix assertion, the read through the as-written dispatch, the column lookup, the name check and the strip loop compute `CustomParse` |
| Parsers.ParseWithSpec | nlp_parsers.py:28-58 | with a given reader: success exactly when the suffix is accepted, the read succeeds, the column exists, the parser is built-in and every cell is a string; the words are then the stripped cells, in order |
| Parsers.CustomParseSpec | nlp_parsers.py:13-70 | as written: success exactly when the suffix is accepted, `read_csv` (for a `.csv` name) or else `read_excel` succeeds, the column exists, the parser is built-in and every cell is a string; the words are then the stripped cells; what `read_json` would return never matters |
| Parsers.CustomParseIntendedSpec | nlp_parsers.py:36-58 | corrected dispatch: the same, with `read_json` for a `.json` name |
| Parsers.JsonFileParse | nlp_parsers.py:36-45 | a `.json` file that only `read_json` can read makes `custom_parser` fail as written, and yields its stripped words with the corrected dispatch |
| Parsers.ParserNameIrrelevant | nlp_parsers.py:54-58 | which built-in name is given does not change the result |
| Nlp.MergedGet | nlp.py:172-173 | after saving, `data[k][label]` is the result's value for each of its keys, and every other entry is unchanged; a row exists for each key |
| Nlp.ResultItemsValues | nlp.py:56-61 | the results dictionary maps exactly the four statistic names to the four statistics |
| Nlp.SaveStatsAt | nlp.py:158-177 | after saving, the label reads back exactly the saved statistics, and every other label reads back what it had |
| Nlp.SavePreservesValid | nlp.py:158-177 | saving consistent statistics keeps the registry invariant: only the four statistic rows, and every label has all four, consistent |
| Nlp.SaveOverwrites | nlp.py:172-173 | registering a label twice leaves only the second statistics visible under every key |
| Nlp.RegisterSpec | nlp.py:179-228 | on success the label is the given one or the filename, and the statistics are consistent; an unaccepted suffix fails with the unwrapped assertion, and any later failure is a `ParserError` naming the file |
| Nlp.RegisterStats | nlp.py:198-220 | registration succeeds exactly when the suffix is accepted, parsing succeeds, the stop list loads and some word survives the filter; numwords and the counts are then those of the filtered words |
| Nlp.Nlp.constructor | nlp.py:23-25 | a new framework has an empty registry and no visualizations |
| Nlp.Nlp.SaveResults | nlp.py:158-177 | the loop sets `data[k][label] = v` for each result item in order and touches nothing else |
| Nlp.Nlp.LoadText | nlp.py:179-228 | a failure returns the error and leaves the registry unchanged; a success saves the statistics under the label; the registry invariant is kept |
| Nlp.Nlp.LoadVisualization | nlp.py:272-297 | `viz[name] = entry`: a new name goes last, a known name keeps its place, and the registry is untouched |
| Nlp.Nlp.Visualize | nlp.py:299-325 | with no name, the callbacks run in insertion order until the first failure; with a name, only that one runs; a missing name is a `KeyError`; every failure is a `VisualizeError` carrying the name argument |
| Nlp.RunAllSpec | nlp.py:308-311 | the callbacks run form a prefix of the table; no error exactly when all ran and succeeded; otherwise the last one run is the first that failed, and the error names it |
| Nlp.RunAllPrefix | nlp.py:308-311 | callbacks that succeed are run and then the rest of the table runs as if from its start |
| Nlp.ExampleEmptyTable | nlp.py:308-311 | with no visualizations, `visualize()` runs nothing and succeeds |
| Nlp.ExampleSecondFails | nlp.py:308-321 | of three callbacks whose second fails, the first two run and the third does not |
| Ordering.StrLessIsStrictTotalOrder | sankey.py:35 | Python string comparison is irreflexive, transitive and total |
| Ordering.SortedSetSorted | sankey.py:35 | `sorted(set(xs))` is strictly ascending (it has exactly the elements of xs) |
| Ordering.SortedSet | sankey.py:35 | `sorted(set(xs))` holds exactly the elements of xs |
| Ordering.StrictlySortedDistinct | sankey.py:35 | a strictly sorted list has no duplicates |
| Ordering.InsertByCountPermutes | taylorviz.py:37-38 | inserting into the sort adds the item and keeps every other one |
| Ordering.InsertByCountSorted | taylorviz.py:37-38 | inserting into a list sorted by descending count keeps it sorted |
| Ordering.InsertByCountStable | taylorviz.py:37-38 | the inserted item goes after every item of equal count |
| Ordering.SortByCountDesc | taylorviz.py:37-38 | `sorted(items, key=count, reverse=True)` is a permutation of the items |
| Ordering.SortByCountDescSorted | taylorviz.py:37-38 | the sort yields descending counts |
| Ordering.SortByCountDescStable | taylorviz.py:37-38 | items of equal count keep their original relative order |
| TaylorViz.ConvertFileToString | taylorviz.py:19-48 | as written: with `max_words` the slice of `dict.items()` raises `TypeError`; without it, the string is each word followed by a space, as often as it is counted, in counter order |
| TaylorViz.IntendedTopWords | taylorviz.py:33-45 | corrected: with `max_words = k` the string spells exactly the first min(k, n) items of the descending sort, which are a sub-multiset of the counter, and none counts less than an item left out |
| TaylorViz.TopKSpec | taylorviz.py:37-39 | the top k and the rest of the sort together are the counter, and no kept item counts less than a dropped one |
| TaylorViz.SpellOutLength | taylorviz.py:41-45 | the string's length is the sum over items of count times (word length + 1) |
| TaylorViz.SpellOutEmpty | taylorviz.py:41-45 | an empty counter, or one whose counts are all 0, gives the empty string |
| TaylorViz.SpellOutExpand | taylorviz.py:41-45 | the string is the expanded word list, each word followed by one space |
| TaylorViz.SpellOutSplit | taylorviz.py:41-45 | splitting the string on spaces gives each word as often as it was counted, in order, and then one empty piece |
| TaylorViz.ExpandCounts | taylorviz.py:41-45 | each word occurs in the word string as often as the counter counts it |
| TaylorViz.BuildWordList | taylorviz.py:87-96 | the first loop appends the top k words of each document in order |
| TaylorViz.AppendDocRows | taylorviz.py:103-109 | the inner loop appends the word, count and text of every item whose word is in the list, in descending-count order |
| TaylorViz.WordcountSankey | taylorviz.py:51-112 | both k and a word list fail the assertion; otherwise the three lists are the unzipped rows of the selection |
| TaylorViz.SankeyRowsSpec | taylorviz.py:63-77 | the selection fails exactly when both k and a word list are given; with neither, no row is emitted |
| TaylorViz.AllRowsMembership | taylorviz.py:98-109 | a row is emitted exactly for a listed word and a document that counts it, with that document's label and count |
| TaylorViz.AllRowsSameWords | taylorviz.py:104 | only which words the list holds matters, not their order or repetition |
| TaylorViz.DuplicateWordAddsNoRows | taylorviz.py:96-104 | a word listed twice, such as a top word of two documents, adds no row |
| TaylorViz.DocRowsSorted | taylorviz.py:100-109 | within one document the rows come in descending order of count |
| TaylorViz.TopWordsLength | taylorviz.py:92-96 | each document contributes k words, or all of them when it has fewer |
| TaylorViz.WordListOfSpec | taylorviz.py:87-96 | every word of the top-k list is a word of some document, and each document contributes min(k, its size) words |
| TaylorViz.UnzipZip | taylorviz.py:112 | `zip(all_words, all_counts, texts)` gives back the rows |
| TaylorViz.FlattenSpec | taylorviz.py:410-413 | the flattened list is as long as all lists together and holds exactly their elements |
| Sankey.PairLessIsStrictTotalOrder | sankey.py:71 | groupby's key order on (src, targ) is a strict total order |
| Sankey.GroupsSorted | sankey.py:71 | the grouped keys are exactly the distinct pairs, in ascending order |
| Sankey.GroupCountsRows | sankey.py:71 | `groupby(...).size()` gives one row per distinct (src, targ) pair, in ascending key order, whose count is the number of times the pair occurs (so positive) |
| Sankey.GroupCountsTotal | sankey.py:71 | the group sizes add up to the number of stacked rows |
| Sankey.AboveThresholdSpec | sankey.py:74-75 | the filter keeps exactly the rows whose count strictly exceeds the threshold, and adds none |
| Sankey.AboveThresholdAppend | sankey.py:74-75 | the filter keeps order: it distributes over concatenation |
| Sankey.PrepareSankeyDataSpec | sankey.py:49-78 | a threshold of None fails the assertion; otherwise the result is the grouped rows whose count exceeds it |
| Sankey.LabelsCover | sankey.py:35 | every src and targ of the links is among the labels |
| Sankey.LabelsSpec | sankey.py:33-35 | the labels are strictly sorted, distinct, and exactly the names used as src or targ |
| Sankey.CodeMappingSpec | sankey.py:14-46 | each name is replaced by its label's position; decoding gives back the names and counts; the codes are a bijection with 0..n-1 |
| Sankey.FirstMissing | sankey.py:103-107 | `df[[...]]` raises `KeyError` for the first missing column: none is reported exactly when every requested column exists; a reported column is requested and missing |
| Sankey.StackedLength | sankey.py:103-109 | the stacked table has (columns - 1) times height rows |
| Sankey.StackedBlock | sankey.py:103-109 | block k of the stacked table is the pairs of columns k and k+1, row by row |
| Sankey.MakeSankey | sankey.py:81-122 | the threshold assertion, the column-count assertion and the first missing column are checked in that order, then the stacking loop, preparation and encoding |
| Sankey.MakeSankeyOutcome | sankey.py:95-122 | success exactly when the threshold is an int, at least two columns are named and all exist; every stacked row is then counted once |

## Left out

- File and table I/O. Reading a file (`open`/`readlines`) and the pandas
  readers are parameters of the model: the lines, or each reader's table,
  with None for a read that fails.
- The contents of the NLTK English stop list, which `_load_stop_words`
  returns (nlp.py:241-244). The stop list is a parameter of the filter, and
  None stands for a list that cannot be loaded.
- Printing. Every success message is left out.
- Exception messages. The error kinds keep the structure of the wrapping
  (`ParserError(filename, cause)` and so on), but not the message strings.
- Floats. The average word length is a Dafny `real`: an exact quotient
  rather than a rounded float.
- Unicode. Strings are sequences of `char`, and `isalpha`, `lower` and
  `isspace` are their ASCII versions.
- Type assertions. The `isinstance` checks on arguments are implied by the
  model's types and are not modelled.
- Custom parser callbacks. Handing `custom_parser` a callable
  (nlp_parsers.py:59-68) is not modelled. `load_text` asserts that the
  parser is a string, so any name other than `json`, `csv` or `excel` fails
  the `callable` assertion, and that is the only path the model keeps.
- The `stopfile` branch of `_load_stop_words` (nlp.py:246-262), including
  its call to the custom parser. It is never reached: `_filter_stopwords`
  calls `_load_stop_words()` with no arguments, so only the NLTK branch runs,
  and its list is the stop-list parameter.
- Nlp.Nlp.Visualize: a callback is modelled as a predicate saying whether it
  returns normally on the registry. What it draws, and any change it makes
  to the registry, are not modelled.
- Registry order. The registry is a Dafny `map`, so the order in which
  labels were inserted into `data[k]` is not kept. The taylorviz functions
  take the documents as a sequence in registry order.
- TaylorViz.WordcountSankey: it stops at the three lists and the
  zip (taylorviz.py:112). The data frame, the default `k=5` and the final
  `make_sankey` call are not composed with it. `make_sankey` is modelled on
  its own.
- `_prepare_sankey_data`'s `astype(str)`. The Counts column is kept as
  integers, and the `vals.dtype` assertion of `make_sankey` is not
  modelled.
- `_code_mapping`'s `astype` on src and targ. The columns are already
  strings, so the conversion changes nothing.
- Chart options and drawing. The `**kwargs` of `make_sankey` (`pad`,
  `width`, `height`) are not modelled, nor are the plotly, matplotlib and
  wordcloud calls.
- The other taylorviz charts. VADER sentiment, the polyfit trend lines and
  the scatter and bar plots are left out.

## Findings

| source | as written | input that shows it | evidently intended | confidence | as-written member | corrected member |
|---|---|---|---|---|---|---|
| nlp_parsers.py:36 | `filename[-3:] == 'json'` compares three characters with four, so the JSON reader is never chosen | `lyrics.json`: it passes the suffix check with `son`, and then `pd.read_excel` is called on it | `filename[-4:] == 'json'`, choosing `pd.read_json` for `.json` files | high, not executed | Parsers.JsonFileParse | Parsers.CustomParseIntendedSpec |
| taylorviz.py:39 | `word_count.items()[:max_words]` slices a `dict_items` view, which raises `TypeError` | any counter with `max_words=5` | the first `max_words` items of the descending sort | high, not executed | TaylorViz.ConvertFileToString | TaylorViz.IntendedTopWords |
