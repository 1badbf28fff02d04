/** The plain-text tokenizer of nlp.py (Nlp._default_parser): a file, given as
    its lines, becomes the ordered list of its normalised words. */
module Tokenizer {
  import opened Wrappers
  import opened Text
  import opened Seqs

  /** What the tokenizer emits: non-empty, lower-case, beginning and ending with a
      letter, and free of the space and newline it splits and cleans on. */
  predicate IsToken(t: string) {
    && |t| > 0
    && IsAlpha(t[0])
    && IsAlpha(t[|t| - 1])
    && IsLowerStr(t)
    && ' ' !in t
    && '\n' !in t
  }

  /** The loop `while not word[-1].isalpha(): word = word[:-1]`: the longest prefix
      of w that ends with a letter. It stops because w[0] is a letter. */
  function TrimTrailing(w: string): string
    requires |w| > 0 && IsAlpha(w[0])
    decreases |w|
  {
    if IsAlpha(w[|w| - 1]) then w else TrimTrailing(w[..|w| - 1])
  }

  /** The trimmed word is the longest prefix of w that ends with a letter: it is
      non-empty, ends with a letter, and only non-letters were removed. */
  lemma {:induction false} TrimTrailingSpec(w: string)
    requires |w| > 0 && IsAlpha(w[0])
    ensures 0 < |TrimTrailing(w)| <= |w| && TrimTrailing(w) == w[..|TrimTrailing(w)|]
    ensures IsAlpha(TrimTrailing(w)[|TrimTrailing(w)| - 1])
    ensures forall i :: |TrimTrailing(w)| <= i < |w| ==> !IsAlpha(w[i])
    decreases |w|
  {
    if !IsAlpha(w[|w| - 1]) {
      TrimTrailingSpec(w[..|w| - 1]);
    }
  }

  /** One piece of a split line: lower-cased and stripped, dropped when empty or
      when it does not begin with a letter, otherwise trimmed at the end. */
  function Normalize(piece: string): Option<string> {
    var w := Strip(LowerStr(piece));
    if w == [] || !IsAlpha(w[0]) then None else Some(TrimTrailing(w))
  }

  /** What one piece contributes: its token, or nothing. */
  function TokenOf(piece: string): seq<string> {
    match Normalize(piece)
    case Some(t) => [t]
    case None => []
  }

  /** The tokens of a sequence of pieces, in order. */
  function KeepTokens(pieces: seq<string>): seq<string> {
    ConcatMap(TokenOf, pieces)
  }

  /** The tokens of one line: newlines removed, then split on single spaces. */
  function LineTokens(line: string): seq<string> {
    KeepTokens(SplitOn(RemoveChar(line, '\n'), ' '))
  }

  /** The tokens of a file, line after line. */
  function Tokenize(lines: seq<string>): seq<string> {
    ConcatMap(LineTokens, lines)
  }

  /** _default_parser on a file read as `file` (None: the file cannot be opened or read). */
  function DefaultParse(filename: string, file: Option<seq<string>>): Result<seq<string>> {
    if !SupportedFile(filename) then Failure(AssertionError(UnsupportedFileType))
    else if file.None? then Failure(DefaultParsingError(ReadFailure))
    else Success(Tokenize(file.value))
  }

  /** Nlp._default_parser: the extension assertion, then the row loop; the
      piece loop and the trimming loop are the two methods below. */
  method DefaultParser(filename: string, file: Option<seq<string>>) returns (r: Result<seq<string>>)
    ensures !SupportedFile(filename) ==> r == Failure(AssertionError(UnsupportedFileType))
    ensures SupportedFile(filename) && file.None? ==> r == Failure(DefaultParsingError(ReadFailure))
    ensures SupportedFile(filename) && file.Some? ==> r == Success(Tokenize(file.value))
  {
    if !SupportedFile(filename) {
      return Failure(AssertionError(UnsupportedFileType));
    }
    if file.None? {
      return Failure(DefaultParsingError(ReadFailure));
    }
    var rows := file.value;
    var words: seq<string> := [];
    var i := 0;
    while i < |rows|
      invariant 0 <= i <= |rows|
      invariant words == Tokenize(rows[..i])
    {
      var row := RemoveChar(rows[i], '\n');
      var kept := RowTokens(SplitOn(row, ' '));
      words := words + kept;
      assert rows[..i + 1] == rows[..i] + [rows[i]];
      ConcatMapSnoc(LineTokens, rows[..i], rows[i]);
      i := i + 1;
    }
    assert rows[..i] == rows;
    return Success(words);
  }

  /** The loop over the pieces of one row, appending each kept token. */
  method RowTokens(rowWords: seq<string>) returns (kept: seq<string>)
    ensures kept == KeepTokens(rowWords)
  {
    kept := [];
    var j := 0;
    while j < |rowWords|
      invariant 0 <= j <= |rowWords|
      invariant kept == KeepTokens(rowWords[..j])
    {
      var word := LowerStr(rowWords[j]);
      word := Strip(word);
      if word != "" && IsAlpha(word[0]) {
        word := TrimWord(word);
        kept := kept + [word];
      }
      assert rowWords[..j + 1] == rowWords[..j] + [rowWords[j]];
      ConcatMapSnoc(TokenOf, rowWords[..j], rowWords[j]);
      j := j + 1;
    }
    assert rowWords[..j] == rowWords;
  }

  /** `while not word[-1].isalpha(): word = word[:-1]`. */
  method TrimWord(w: string) returns (word: string)
    requires |w| > 0 && IsAlpha(w[0])
    ensures word == TrimTrailing(w)
  {
    word := w;
    while !IsAlpha(word[|word| - 1])
      invariant |word| > 0 && IsAlpha(word[0])
      invariant TrimTrailing(word) == TrimTrailing(w)
      decreases |word|
    {
      word := word[..|word| - 1];
    }
  }

  // ----- what the tokenizer promises -----

  lemma NormalizeIsToken(piece: string)
    requires ' ' !in piece && '\n' !in piece
    ensures Normalize(piece).Some? ==> IsToken(Normalize(piece).value)
  {
    var l := LowerStr(piece);
    var w := Strip(l);
    if w != [] && IsAlpha(w[0]) {
      var t := TrimTrailing(w);
      var i, j := StripSpec(l);
      TrimTrailingSpec(w);
      forall k | 0 <= k < |t| ensures t[k] == Lower(piece[i + k]) {}
      forall k | 0 <= k < |t| ensures t[k] != ' ' && t[k] != '\n' {
        assert piece[i + k] in piece;
      }
    }
  }

  lemma {:induction false} KeepTokensAreTokens(pieces: seq<string>)
    requires forall i :: 0 <= i < |pieces| ==> ' ' !in pieces[i] && '\n' !in pieces[i]
    ensures forall t :: t in KeepTokens(pieces) ==> IsToken(t)
  {
    if pieces != [] {
      KeepTokensAreTokens(pieces[..|pieces| - 1]);
      NormalizeIsToken(pieces[|pieces| - 1]);
    }
  }

  /** Every emitted token is non-empty and lower-case, and begins and ends with a letter. */
  lemma {:induction false} TokensWellFormed(lines: seq<string>)
    ensures forall t :: t in Tokenize(lines) ==> IsToken(t)
  {
    if lines != [] {
      TokensWellFormed(lines[..|lines| - 1]);
      var pieces := SplitOn(RemoveChar(lines[|lines| - 1], '\n'), ' ');
      SplitOnNoSeparator(RemoveChar(lines[|lines| - 1], '\n'), ' ');
      forall i | 0 <= i < |pieces| ensures '\n' !in pieces[i] {
        RemoveCharSpec(lines[|lines| - 1], '\n');
        JoinSplit(RemoveChar(lines[|lines| - 1], '\n'), ' ');
        JoinContains(pieces, ' ', i);
      }
      KeepTokensAreTokens(pieces);
    }
  }

  /** A character of a piece is a character of the joined string. */
  lemma {:induction false} JoinContains(pieces: seq<string>, sep: char, i: nat)
    requires |pieces| >= 1 && i < |pieces|
    ensures forall c :: c in pieces[i] ==> c in Join(pieces, sep)
  {
    if |pieces| > 1 {
      if i > 0 {
        JoinContains(pieces[1..], sep, i - 1);
      }
      assert Join(pieces, sep) == pieces[0] + [sep] + Join(pieces[1..], sep);
    }
  }

  /** Tokenizing is a homomorphism on files: the tokens of the lines of a and then
      of b are the tokens of a followed by the tokens of b. */
  lemma TokenizeAppend(a: seq<string>, b: seq<string>)
    ensures Tokenize(a + b) == Tokenize(a) + Tokenize(b)
  {
    ConcatMapAppend(LineTokens, a, b);
  }

  /** A token survives normalisation unchanged. */
  lemma NormalizeToken(t: string)
    requires IsToken(t)
    ensures Normalize(t) == Some(t)
  {
    LowerStrOfLower(t);
    StripNoop(t);
  }

  /** Tokens kept from a sequence of tokens: all of them, in order. */
  lemma {:induction false} KeepTokensOfTokens(ts: seq<string>)
    requires forall i :: 0 <= i < |ts| ==> IsToken(ts[i])
    ensures KeepTokens(ts) == ts
  {
    if ts != [] {
      KeepTokensOfTokens(ts[..|ts| - 1]);
      NormalizeToken(ts[|ts| - 1]);
      assert ts == ts[..|ts| - 1] + [ts[|ts| - 1]];
    }
  }

  /** The words joined by single spaces, as one line. */
  function JoinWords(ts: seq<string>): string {
    if ts == [] then "" else Join(ts, ' ')
  }

  /** The tokens of a one-line file are the tokens of that line. */
  lemma TokenizeOneLine(line: string)
    ensures Tokenize([line]) == LineTokens(line)
  {
    ConcatMapSnoc(LineTokens, [], line);
    assert [] + [line] == [line];
  }

  /** Re-tokenizing a one-line file that holds tokens separated by single spaces
      gives back exactly those tokens. */
  lemma TokenizeJoinWords(ts: seq<string>)
    requires forall i :: 0 <= i < |ts| ==> IsToken(ts[i])
    ensures Tokenize([JoinWords(ts)]) == ts
  {
    var line := JoinWords(ts);
    TokenizeOneLine(line);
    if ts == [] {
      ConcatMapSnoc(TokenOf, [], "");
      assert [] + [""] == [""];
    } else {
      JoinFree(ts, ' ', '\n');
      RemoveCharSpec(line, '\n');
      SplitJoin(ts, ' ');
      KeepTokensOfTokens(ts);
    }
  }

  /** Tokenizing the joined tokens of any file reproduces them: the tokenizer is
      idempotent on its own output. */
  lemma TokenizeIdempotent(lines: seq<string>)
    ensures Tokenize([JoinWords(Tokenize(lines))]) == Tokenize(lines)
  {
    TokensWellFormed(lines);
    TokenizeJoinWords(Tokenize(lines));
  }

  /** A character in no piece and distinct from the separator is not in the join. */
  lemma {:induction false} JoinFree(pieces: seq<string>, sep: char, c: char)
    requires |pieces| >= 1 && c != sep
    requires forall i :: 0 <= i < |pieces| ==> c !in pieces[i]
    ensures c !in Join(pieces, sep)
  {
    if |pieces| > 1 {
      JoinFree(pieces[1..], sep, c);
      assert Join(pieces, sep) == pieces[0] + [sep] + Join(pieces[1..], sep);
    }
  }

  lemma ExampleSplit()
    ensures SplitOn("hello, 123 world!", ' ') == ["hello,", "123", "world!"]
  {
    var pieces := ["hello,", "123", "world!"];
    assert Join(pieces[2..], ' ') == "world!";
    assert Join(pieces[1..], ' ') == "123" + " " + "world!";
    assert Join(pieces, ' ') == "hello," + " " + "123" + " " + "world!";
    assert "hello," + " " + "123" + " " + "world!" == "hello, 123 world!";
    SplitJoin(pieces, ' ');
  }

  lemma ExampleTokenOf(piece: string, token: string)
    requires (piece, token) in {("hello,", "hello"), ("world!", "world")}
    ensures TokenOf(piece) == [token]
  {
    assert IsLowerStr(piece);
    LowerStrOfLower(piece);
    StripNoop(piece);
    assert piece[..|piece| - 1] == token;
  }

  lemma ExampleNumber()
    ensures TokenOf("123") == []
  {
    assert IsLowerStr("123");
    LowerStrOfLower("123");
    StripNoop("123");
  }

  lemma ExampleLine()
    ensures LineTokens("hello, 123 world!") == KeepTokens(["hello,", "123", "world!"])
  {
    var line := "hello, 123 world!";
    assert '\n' !in line;
    RemoveCharSpec(line, '\n');
    ExampleSplit();
  }

  lemma ExampleKeepFirst()
    ensures KeepTokens(["hello,", "123"]) == ["hello"]
  {
    ExampleTokenOf("hello,", "hello");
    ExampleNumber();
    ConcatMapSnoc(TokenOf, [], "hello,");
    ConcatMapSnoc(TokenOf, ["hello,"], "123");
    assert [] + ["hello,"] == ["hello,"];
    assert ["hello,"] + ["123"] == ["hello,", "123"];
  }

  lemma ExampleKeep()
    ensures KeepTokens(["hello,", "123", "world!"]) == ["hello", "world"]
  {
    ExampleKeepFirst();
    ExampleTokenOf("world!", "world");
    ConcatMapSnoc(TokenOf, ["hello,", "123"], "world!");
    assert ["hello,", "123"] + ["world!"] == ["hello,", "123", "world!"];
  }

  /** The worked example: `hello, 123 world!` gives `hello` and `world`. */
  lemma Example()
    ensures Tokenize(["hello, 123 world!"]) == ["hello", "world"]
  {
    TokenizeOneLine("hello, 123 world!");
    ExampleLine();
    ExampleKeep();
  }
}
