/** nlp_parsers.custom_parser: a table file is read into a data frame by the
    reader its suffix selects, the text column is taken out, and each cell is
    stripped of surrounding whitespace. The pandas readers are not modelled:
    what each would return for the file is given as a parameter. */
module Parsers {
  import opened Wrappers
  import opened Text

  /** A cell of the text column: a string, or anything else (a number, a missing value). */
  datatype Cell = Str(s: string) | NonStr

  /** A data frame, by column name. */
  type Table = map<string, seq<Cell>>

  datatype Reader = JsonReader | CsvReader | ExcelReader

  /** What pd.read_json, pd.read_csv and pd.read_excel return for the file;
      None when that reader fails on it. */
  datatype Tables = Tables(json: Option<Table>, csv: Option<Table>, excel: Option<Table>)

  function Read(t: Tables, r: Reader): Option<Table> {
    match r
    case JsonReader => t.json
    case CsvReader => t.csv
    case ExcelReader => t.excel
  }

  /** The dispatch as written: a three-character suffix is compared with the
      four-character 'json'. */
  function ReaderAsWritten(filename: string): Reader {
    if PySuffix(filename, 3) == "json" then JsonReader
    else if PySuffix(filename, 3) == "csv" then CsvReader
    else ExcelReader
  }

  /** The JSON reader is never chosen: every file that is not .csv goes to the
      Excel reader. */
  lemma ReaderAsWrittenNeverJson(filename: string)
    ensures ReaderAsWritten(filename) != JsonReader
    ensures ReaderAsWritten(filename) == CsvReader <==> PySuffix(filename, 3) == "csv"
  {
    assert |PySuffix(filename, 3)| <= 3 < |"json"|;
  }

  /** In particular a .json file, which passes the suffix check, is read as Excel. */
  lemma JsonFileReadAsExcel()
    ensures SupportedFile("lyrics.json")
    ensures ReaderAsWritten("lyrics.json") == ExcelReader
  {
    assert PySuffix("lyrics.json", 3) == "son";
    ReaderAsWrittenNeverJson("lyrics.json");
  }

  /** The dispatch as intended: filename[-4:] == 'json' selects the JSON reader. */
  function ReaderFor(filename: string): Reader {
    if PySuffix(filename, 4) == "json" then JsonReader
    else if PySuffix(filename, 3) == "csv" then CsvReader
    else ExcelReader
  }

  /** Each reader is chosen exactly for its own suffix, and Excel for the rest. */
  lemma ReaderForSpec(filename: string)
    ensures ReaderFor(filename) == JsonReader <==> PySuffix(filename, 4) == "json"
    ensures ReaderFor(filename) == CsvReader <==> PySuffix(filename, 3) == "csv"
    ensures ReaderFor(filename) == ExcelReader <==>
              PySuffix(filename, 4) != "json" && PySuffix(filename, 3) != "csv"
  {
    if PySuffix(filename, 4) == "json" {
      assert PySuffix(filename, 3) == PySuffix(filename, 4)[1..];
    }
  }

  lemma JsonFileReadAsJson()
    ensures ReaderFor("lyrics.json") == JsonReader
    ensures ReaderFor("lyrics.csv") == CsvReader
    ensures ReaderFor("lyrics.xlsx") == ExcelReader
  {
    assert PySuffix("lyrics.json", 4) == "json";
    assert PySuffix("lyrics.csv", 4) == ".csv";
    assert PySuffix("lyrics.csv", 3) == "csv";
    assert PySuffix("lyrics.xlsx", 4) == "xlsx";
    assert PySuffix("lyrics.xlsx", 3) == "lsx";
  }

  /** The built-in parsers, named case-insensitively. */
  predicate IsBuiltinParser(parser: string) {
    LowerStr(parser) in {"json", "csv", "excel"}
  }

  /** The parser name is matched without regard to case. */
  lemma BuiltinParserIgnoresCase(parser: string)
    ensures IsBuiltinParser(parser) <==> IsBuiltinParser(LowerStr(parser))
  {
    LowerStrIdempotent(parser);
  }

  lemma BuiltinParserExamples()
    ensures IsBuiltinParser("CSV") && IsBuiltinParser("Excel") && IsBuiltinParser("json")
    ensures !IsBuiltinParser("txt")
  {
    assert LowerStr("CSV") == "csv";
    assert LowerStr("Excel") == "excel";
    LowerStrOfLower("json");
    LowerStrOfLower("txt");
  }

  /** [cell.strip() for cell in cells]; str.strip on a non-string raises AttributeError. */
  function StripAll(cells: seq<Cell>): Result<seq<string>> {
    if cells == [] then Success([])
    else match cells[0]
      case NonStr => Failure(AttributeError)
      case Str(s) =>
        match StripAll(cells[1..])
        case Failure(e) => Failure(e)
        case Success(rest) => Success([Strip(s)] + rest)
  }

  /** Stripping succeeds exactly when every cell is a string, and then keeps the
      length and order of the column with each cell stripped. */
  lemma {:induction false} StripAllSpec(cells: seq<Cell>)
    ensures StripAll(cells).Success? <==> forall i :: 0 <= i < |cells| ==> cells[i].Str?
    ensures StripAll(cells).Failure? ==> StripAll(cells).error == AttributeError
    ensures StripAll(cells).Success? ==>
              |StripAll(cells).value| == |cells| &&
              forall i :: 0 <= i < |cells| ==> StripAll(cells).value[i] == Strip(cells[i].s)
  {
    if cells != [] {
      StripAllSpec(cells[1..]);
      if cells[0].Str? && StripAll(cells[1..]).Success? {
        var r := StripAll(cells).value;
        forall i | 0 <= i < |cells| ensures r[i] == Strip(cells[i].s) {
          if i > 0 {
            assert cells[i] == cells[1..][i - 1];
          }
        }
      }
      if StripAll(cells[1..]).Failure? {
        var i :| 0 <= i < |cells[1..]| && !cells[1..][i].Str?;
        assert !cells[i + 1].Str?;
      }
    }
  }

  /** custom_parser with the reader already chosen: the suffix assertion, the
      read, the column lookup, the parser-name check, then the strip of every cell. */
  function ParseWith(reader: Reader, filename: string, textColumn: string, parser: string, files: Tables)
    : Result<seq<string>>
  {
    if !SupportedFile(filename) then Failure(AssertionError(UnsupportedFileType))
    else match Read(files, reader)
      case None => Failure(ReadFailure)
      case Some(df) =>
        if textColumn !in df then Failure(KeyError(textColumn))
        else if !IsBuiltinParser(parser) then Failure(AssertionError(ParserNotCallable))
        else StripAll(df[textColumn])
  }

  /** custom_parser as written: the reader comes from the three-character suffix
      dispatch, so a .json file goes to the Excel reader. */
  function CustomParse(filename: string, textColumn: string, parser: string, files: Tables): Result<seq<string>> {
    ParseWith(ReaderAsWritten(filename), filename, textColumn, parser, files)
  }

  /** custom_parser with the corrected dispatch. */
  function CustomParseIntended(filename: string, textColumn: string, parser: string, files: Tables)
    : Result<seq<string>>
  {
    ParseWith(ReaderFor(filename), filename, textColumn, parser, files)
  }

  /** The strip loop of custom_parser: each cell stripped and appended in turn. */
  method StripColumn(wordsList: seq<Cell>) returns (r: Result<seq<string>>)
    ensures r == StripAll(wordsList)
  {
    var cleanWordsList: seq<string> := [];
    var i := 0;
    while i < |wordsList|
      invariant 0 <= i <= |wordsList|
      invariant |cleanWordsList| == i
      invariant forall k :: 0 <= k < i ==> wordsList[k].Str? && cleanWordsList[k] == Strip(wordsList[k].s)
    {
      var word := wordsList[i];
      if word.NonStr? {
        StripAllSpec(wordsList);
        return Failure(AttributeError);
      }
      cleanWordsList := cleanWordsList + [Strip(word.s)];
      i := i + 1;
    }
    StripAllSpec(wordsList);
    assert StripAll(wordsList).value == cleanWordsList;
    return Success(cleanWordsList);
  }

  /** custom_parser: the suffix assertion, the read, the column lookup, the
      parser-name check, then the strip loop. */
  method CustomParser(filename: string, textColumn: string, parser: string, files: Tables)
    returns (r: Result<seq<string>>)
    ensures r == CustomParse(filename, textColumn, parser, files)
  {
    if !SupportedFile(filename) {
      return Failure(AssertionError(UnsupportedFileType));
    }
    var df := Read(files, ReaderAsWritten(filename));
    if df.None? {
      return Failure(ReadFailure);
    }
    if textColumn !in df.value {
      return Failure(KeyError(textColumn));
    }
    var wordsList := df.value[textColumn];
    if !IsBuiltinParser(parser) {
      return Failure(AssertionError(ParserNotCallable));
    }
    r := StripColumn(wordsList);
  }

  /** With a given reader, parsing succeeds exactly when the file has an accepted
      suffix, the reader succeeds, the column exists, the parser is a built-in one
      and every cell of the column is a string; the words are then the stripped cells. */
  lemma ParseWithSpec(reader: Reader, filename: string, textColumn: string, parser: string, files: Tables)
    ensures ParseWith(reader, filename, textColumn, parser, files).Success? <==>
              && SupportedFile(filename)
              && Read(files, reader).Some?
              && textColumn in Read(files, reader).value
              && IsBuiltinParser(parser)
              && forall i :: 0 <= i < |Read(files, reader).value[textColumn]| ==>
                   Read(files, reader).value[textColumn][i].Str?
    ensures ParseWith(reader, filename, textColumn, parser, files).Success? ==>
              var cells := Read(files, reader).value[textColumn];
              var words := ParseWith(reader, filename, textColumn, parser, files).value;
              |words| == |cells| && forall i :: 0 <= i < |cells| ==> words[i] == Strip(cells[i].s)
  {
    var df := Read(files, reader);
    if SupportedFile(filename) && df.Some? && textColumn in df.value {
      StripAllSpec(df.value[textColumn]);
    }
  }

  /** custom_parser as written succeeds exactly when the suffix is accepted, the
      CSV reader (for .csv) or else the Excel reader succeeds, the column exists,
      the parser is built-in and every cell is a string; the words are then the
      stripped cells. What pd.read_json would return is never consulted. */
  lemma CustomParseSpec(filename: string, textColumn: string, parser: string, files: Tables)
    ensures var df := if PySuffix(filename, 3) == "csv" then files.csv else files.excel;
            && (CustomParse(filename, textColumn, parser, files).Success? <==>
                  && SupportedFile(filename)
                  && df.Some?
                  && textColumn in df.value
                  && IsBuiltinParser(parser)
                  && forall i :: 0 <= i < |df.value[textColumn]| ==> df.value[textColumn][i].Str?)
            && (CustomParse(filename, textColumn, parser, files).Success? ==>
                  var words := CustomParse(filename, textColumn, parser, files).value;
                  |words| == |df.value[textColumn]| &&
                  forall i :: 0 <= i < |words| ==> words[i] == Strip(df.value[textColumn][i].s))
    ensures forall j :: CustomParse(filename, textColumn, parser, files.(json := j)) ==
                        CustomParse(filename, textColumn, parser, files)
  {
    ReaderAsWrittenNeverJson(filename);
    ParseWithSpec(ReaderAsWritten(filename), filename, textColumn, parser, files);
  }

  /** With the corrected dispatch each file is read by the reader of its own
      suffix: a .json file by the JSON reader. */
  lemma CustomParseIntendedSpec(filename: string, textColumn: string, parser: string, files: Tables)
    ensures var df := if PySuffix(filename, 4) == "json" then files.json
                      else if PySuffix(filename, 3) == "csv" then files.csv
                      else files.excel;
            && (CustomParseIntended(filename, textColumn, parser, files).Success? <==>
                  && SupportedFile(filename)
                  && df.Some?
                  && textColumn in df.value
                  && IsBuiltinParser(parser)
                  && forall i :: 0 <= i < |df.value[textColumn]| ==> df.value[textColumn][i].Str?)
            && (CustomParseIntended(filename, textColumn, parser, files).Success? ==>
                  var words := CustomParseIntended(filename, textColumn, parser, files).value;
                  |words| == |df.value[textColumn]| &&
                  forall i :: 0 <= i < |words| ==> words[i] == Strip(df.value[textColumn][i].s))
  {
    ReaderForSpec(filename);
    ParseWithSpec(ReaderFor(filename), filename, textColumn, parser, files);
  }

  /** A JSON file that pd.read_json would parse, but pd.read_excel cannot read:
      as written custom_parser fails, and with the corrected dispatch it yields
      the stripped words. */
  lemma JsonFileParse()
    ensures var files := Tables(Some(map["text" := [Str(" hi ")]]), None, None);
            && CustomParse("lyrics.json", "text", "json", files) == Failure(ReadFailure)
            && CustomParseIntended("lyrics.json", "text", "json", files) == Success(["hi"])
  {
    var files := Tables(Some(map["text" := [Str(" hi ")]]), None, None);
    JsonFileReadAsExcel();
    JsonFileReadAsJson();
    LowerStrOfLower("json");
    assert IsBuiltinParser("json");
    assert Strip(" hi ") == "hi";
    var cells := [Str(" hi ")];
    assert cells[1..] == [];
    assert StripAll(cells[1..]) == Success([]);
    assert [Strip(" hi ")] + [] == ["hi"];
    assert StripAll(cells) == Success(["hi"]);
  }

  /** Which built-in name is given does not matter: the suffix alone picks the reader. */
  lemma ParserNameIrrelevant(filename: string, textColumn: string, p: string, q: string, files: Tables)
    requires IsBuiltinParser(p) && IsBuiltinParser(q)
    ensures CustomParse(filename, textColumn, p, files) == CustomParse(filename, textColumn, q, files)
  {
  }
}
