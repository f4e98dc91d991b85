/** The renderer: whole-file colouring (`getWholeFile`, `output`,
    `colorLines`) and the line-numbered snippet (`getCodeSnippet`). PHP's
    lexer and the colour library's `apply` are parameters. */
module Renderer {
  import opened Text
  import opened Normalization
  import opened Classifier
  import opened LineSplitter
  import opened PhpArray

  /** PHP's `token_get_all`. */
  type Lexer = string -> seq<Token>

  /** The style argument of `Color::apply`: a class's one-letter code, the
      marker's colour name, or PHP null for a span with no class. */
  type Style = Option<string>

  /** `Color::apply(style, text)`. */
  type Colorizer = (Style, string) -> string

  /** The style a segment is coloured with. */
  function StyleOf(cls: Option<Class>): Style
  {
    match cls
    case None => None
    case Some(c) => Some([Code(c)])
  }

  /** The lexer gives back its whole input, token by token. */
  ghost predicate Lossless(lex: Lexer, s: string)
  {
    Concat(TokenTexts(lex(s))) == s
  }

  /** A colour function that adds no escape codes at all. */
  ghost predicate Plain(apply: Colorizer)
  {
    forall st, t :: apply(st, t) == t
  }

  /** A colour function that never introduces a "\n". */
  ghost predicate NewlineFree(apply: Colorizer)
  {
    forall st, t :: '\n' !in t ==> '\n' !in apply(st, t)
  }

  /** The inner loop of `colorLines`: the coloured segments of one line. */
  function ColorLine(apply: Colorizer, line: Line): string
  {
    if |line| == 0 then ""
    else ColorLine(apply, line[..|line| - 1]) + apply(StyleOf(line[|line| - 1].cls), line[|line| - 1].text)
  }

  /** `colorLines`: every line coloured, keys preserved. */
  function ColorLines(apply: Colorizer, entries: seq<Entry<Line>>): (r: seq<Entry<string>>)
    ensures |r| == |entries|
    ensures forall i :: 0 <= i < |r| ==> r[i].key == entries[i].key
    ensures forall i :: 0 <= i < |r| ==> r[i].value == ColorLine(apply, entries[i].value)
  {
    seq(|entries|, i requires 0 <= i < |entries| => Entry(entries[i].key, ColorLine(apply, entries[i].value)))
  }

  /** `output`: the coloured lines joined with "\n". Without colouring it
      is the lines' texts joined; with a colour function that adds no "\n"
      it has one "\n"-separated entry per line, that line coloured. */
  function Output(apply: Colorizer, lines: seq<Line>): (r: string)
    ensures Plain(apply) ==> r == Join("\n", LineTexts(lines))
    ensures NewlineFree(apply) && Segmented(lines) && |lines| > 0 ==>
      Explode('\n', r) == seq(|lines|, i requires 0 <= i < |lines| => ColorLine(apply, lines[i]))
  {
    OutputLaws(apply, lines);
    Join("\n", Values(ColorLines(apply, Keyed(lines))))
  }

  /** `getHighlightedLines`: normalise, tokenize, split into lines. There is
      one line more than the lexed text has "\n"; joined with "\n" the lines
      give that text back; no segment is empty or holds "\n". */
  function HighlightedLines(lex: Lexer, source: string): (r: seq<Line>)
    ensures |r| == 1 + Count(Concat(TokenTexts(lex(Normalize(source)))), '\n')
    ensures Join("\n", LineTexts(r)) == Concat(TokenTexts(lex(Normalize(source))))
    ensures Segmented(r)
  {
    var spans := Tokenize(lex(Normalize(source)));
    TokenizeKeepsText(lex(Normalize(source)));
    SplitRebuildsText(spans);
    SplitLineCount(spans);
    SplitSegmentsGood(spans);
    SplitToLines(spans)
  }

  /** `getWholeFile`. With a lossless lexer and no colouring it is the
      normalised source; with a colour function that adds no "\n" it has
      one "\n"-separated entry per line, that line coloured, and a lossless
      lexer makes that one entry per line of the normalised source. */
  function WholeFile(lex: Lexer, apply: Colorizer, source: string): (r: string)
    ensures Lossless(lex, Normalize(source)) && Plain(apply) ==> r == Normalize(source)
    ensures NewlineFree(apply) ==>
      var lines := HighlightedLines(lex, source);
      && |Explode('\n', r)| == |lines|
      && forall i :: 0 <= i < |lines| ==> Explode('\n', r)[i] == ColorLine(apply, lines[i])
    ensures Lossless(lex, Normalize(source)) && NewlineFree(apply) ==>
      |Explode('\n', r)| == 1 + Count(Normalize(source), '\n')
  {
    Output(apply, HighlightedLines(lex, source))
  }

  /* ---------- snippet ---------- */

  /** `PHP_EOL`, taken as "\n". */
  const Eol := "\n"
  /** The target-line marker, coloured with `MarkerStyle`. */
  const Marker := "  > "
  const MarkerStyle := "red"
  /** The prefix of every other line, as wide as the marker. */
  const NoMarker := "    "

  /** One line of a snippet: whether it carries the marker, its padded line
      number and its right-trimmed coloured text. */
  datatype Row = Row(marked: bool, number: string, body: string)

  /** `strlen(key($lines) + 1)` after `end($lines)`: the digit count of the
      last line number in the window; with no lines, `key` is null and
      null + 1 is 1, one digit. */
  function GutterWidth(colored: seq<Entry<string>>): nat
  {
    if |colored| == 0 then 1 else |Decimal(colored[|colored| - 1].key + 1)|
  }

  /** One iteration of the `foreach` of `getCodeSnippet`: the marker when
      `$lineNumber === $i + 1`, the line number padded to `width`, the
      right-trimmed coloured line. */
  function SnippetRow(lineNumber: int, width: nat, e: Entry<string>): Row
  {
    Row(lineNumber == e.key + 1, PadLeft(Decimal(e.key + 1), width), RTrim(e.value))
  }

  /** The `foreach` of `getCodeSnippet`, one row per coloured line. */
  function Rows(lineNumber: int, colored: seq<Entry<string>>): (rows: seq<Row>)
    ensures |rows| == |colored|
  {
    var width := GutterWidth(colored);
    seq(|colored|, k requires 0 <= k < |colored| => SnippetRow(lineNumber, width, colored[k]))
  }

  /** The gutter is `strlen` of the last line number written in decimal:
      the length of the one digit string without a leading zero that reads
      as that number. */
  lemma GutterIsStrlen(colored: seq<Entry<string>>, s: string)
    requires |colored| > 0
    requires Canonical(s) && DigitsValue(s) == colored[|colored| - 1].key + 1
    ensures GutterWidth(colored) == |s|
  {
    DecimalUnique(s, colored[|colored| - 1].key + 1);
  }

  /** With ascending keys the last line number has the most digits. */
  lemma GutterCovers(colored: seq<Entry<string>>)
    requires Ascending(colored)
    ensures forall k :: 0 <= k < |colored| ==> |Decimal(colored[k].key + 1)| <= GutterWidth(colored)
  {
    forall k | 0 <= k < |colored|
      ensures |Decimal(colored[k].key + 1)| <= GutterWidth(colored)
    {
      if k < |colored| - 1 {
        DecimalLengthMonotone(colored[k].key + 1, colored[|colored| - 1].key + 1);
      }
    }
  }

  /** The text of one row: marker or blank prefix, line number, "| ", the
      trimmed line, the line terminator. */
  function RowText(apply: Colorizer, row: Row): string
  {
    (if row.marked then apply(Some(MarkerStyle), Marker) else NoMarker) + row.number + "| " + row.body + Eol
  }

  /** `array_slice($tokenLines, $offset, $length, true)` with the window the
      source computes from the target line. */
  function Window(lines: seq<Line>, lineNumber: int, linesBefore: int, linesAfter: int): seq<Entry<Line>>
  {
    ArraySlice(lines, lineNumber - linesBefore - 1, linesAfter + linesBefore + 1)
  }

  /** The rows for the window of `lines` around `lineNumber`. */
  function WindowRows(apply: Colorizer, lines: seq<Line>, lineNumber: int, linesBefore: int, linesAfter: int): seq<Row>
  {
    Rows(lineNumber, ColorLines(apply, Window(lines, lineNumber, linesBefore, linesAfter)))
  }

  /** The snippet text: the row texts put together. */
  function SnippetText(apply: Colorizer, rows: seq<Row>): string
  {
    Concat(seq(|rows|, k requires 0 <= k < |rows| => RowText(apply, rows[k])))
  }

  /** The rows of `getCodeSnippet`. */
  function SnippetRows(lex: Lexer, apply: Colorizer, source: string, lineNumber: int, linesBefore: int, linesAfter: int): seq<Row>
  {
    WindowRows(apply, HighlightedLines(lex, source), lineNumber, linesBefore, linesAfter)
  }

  /** `getCodeSnippet`. With a colour function that adds no "\n" the
      snippet is one "\n"-terminated line per row. */
  function CodeSnippet(lex: Lexer, apply: Colorizer, source: string, lineNumber: int, linesBefore: int, linesAfter: int): (r: string)
    ensures NewlineFree(apply) ==>
      Count(r, '\n') == |SnippetRows(lex, apply, source, lineNumber, linesBefore, linesAfter)|
  {
    var lines := HighlightedLines(lex, source);
    SnippetLines(apply, lines, lineNumber, linesBefore, linesAfter);
    SnippetText(apply, WindowRows(apply, lines, lineNumber, linesBefore, linesAfter))
  }

  /* ---------- whole-file properties ---------- */

  /** Without colouring, `colorLines` gives each line's text. */
  lemma ColorLinesPlain(apply: Colorizer, entries: seq<Entry<Line>>)
    requires Plain(apply)
    ensures Values(ColorLines(apply, entries)) == LineTexts(Values(entries))
  {
    forall i | 0 <= i < |entries|
      ensures Values(ColorLines(apply, entries))[i] == LineTexts(Values(entries))[i]
    {
      ColorLinePlain(apply, entries[i].value);
    }
  }

  /** With a colour function that adds no "\n", no coloured line holds one. */
  lemma ColorLinesOneLine(apply: Colorizer, entries: seq<Entry<Line>>)
    requires NewlineFree(apply)
    requires Segmented(Values(entries))
    ensures forall i :: 0 <= i < |entries| ==> '\n' !in ColorLines(apply, entries)[i].value
  {
    forall i | 0 <= i < |entries|
      ensures '\n' !in ColorLines(apply, entries)[i].value
    {
      assert Values(entries)[i] == entries[i].value;
      ColorLineOneLine(apply, entries[i].value);
    }
  }

  lemma OutputLaws(apply: Colorizer, lines: seq<Line>)
    ensures Plain(apply) ==> Join("\n", Values(ColorLines(apply, Keyed(lines)))) == Join("\n", LineTexts(lines))
    ensures NewlineFree(apply) && Segmented(lines) && |lines| > 0 ==>
      Explode('\n', Join("\n", Values(ColorLines(apply, Keyed(lines)))))
        == seq(|lines|, i requires 0 <= i < |lines| => ColorLine(apply, lines[i]))
  {
    var vals := Values(ColorLines(apply, Keyed(lines)));
    assert Values(Keyed(lines)) == lines;
    if Plain(apply) {
      ColorLinesPlain(apply, Keyed(lines));
    }
    if NewlineFree(apply) && Segmented(lines) && |lines| > 0 {
      ColorLinesOneLine(apply, Keyed(lines));
      assert forall i :: 0 <= i < |vals| ==> '\n' !in vals[i];
      ExplodeJoin('\n', vals);
    }
  }

  /** With a colour function that adds nothing, a line renders as its text. */
  lemma {:induction false} ColorLinePlain(apply: Colorizer, line: Line)
    requires Plain(apply)
    ensures ColorLine(apply, line) == LineText(line)
  {
    if |line| > 0 {
      var init := line[..|line| - 1];
      var last := line[|line| - 1];
      ColorLinePlain(apply, init);
      assert line == init + [last];
      TextsSnoc([], Raw(' '), init, last);
      ConcatSnoc(SpanTexts(init), last.text);
    }
  }

  /** A line of segments without "\n" renders without "\n". */
  lemma {:induction false} ColorLineOneLine(apply: Colorizer, line: Line)
    requires NewlineFree(apply)
    requires forall j :: 0 <= j < |line| ==> GoodSegment(line[j])
    ensures '\n' !in ColorLine(apply, line)
  {
    if |line| > 0 {
      var init := line[..|line| - 1];
      var last := line[|line| - 1];
      ColorLineOneLine(apply, init);
      var a := ColorLine(apply, init);
      var b := apply(StyleOf(last.cls), last.text);
      assert '\n' !in b;
      CountAppend(a, b, '\n');
    }
  }

  /** The lines of the normalised source: one more than its "\n"s, and
      joined with "\n" they are the normalised source. */
  lemma HighlightedLinesRebuild(lex: Lexer, source: string)
    requires Lossless(lex, Normalize(source))
    ensures Join("\n", LineTexts(HighlightedLines(lex, source))) == Normalize(source)
    ensures |HighlightedLines(lex, source)| == 1 + Count(Normalize(source), '\n')
  {
  }

  /** An empty source is one empty line. */
  lemma EmptySourceOneEmptyLine(lex: Lexer)
    requires lex("") == []
    ensures HighlightedLines(lex, "") == [[]]
  {
    assert Normalize("") == "";
    assert Tokenize([]) == [Span(None, "")];
    var acc := Acc([], []);
    assert Explode('\n', "") == [""];
    assert AddPieces(acc, None, [""], false) == AddPieces(acc, None, [], true);
    assert AddSpans(acc, [Span(None, "")]) == AddSpans(acc, []);
  }

  /* ---------- snippet properties ---------- */

  /** A row is marked exactly when its line number is the target line; with
      ascending keys at most one row is. */
  lemma RowsMarker(lineNumber: int, colored: seq<Entry<string>>)
    ensures forall k :: 0 <= k < |colored| ==>
      (Rows(lineNumber, colored)[k].marked <==> colored[k].key + 1 == lineNumber)
    ensures Ascending(colored) ==> forall j, k ::
      (0 <= j < |colored| && 0 <= k < |colored| &&
       Rows(lineNumber, colored)[j].marked && Rows(lineNumber, colored)[k].marked) ==> j == k
  {
  }

  /** A line number padded on the left with spaces to some width. */
  ghost predicate PaddedNumber(n: string, number: nat)
  {
    var d := Decimal(number);
    && |n| >= |d|
    && n[|n| - |d|..] == d
    && forall i :: 0 <= i < |n| - |d| ==> n[i] == ' '
  }

  /** `str_pad` of a line number to a width it fits in. */
  lemma PadLeftPadded(number: nat, width: nat)
    requires |Decimal(number)| <= width
    ensures |PadLeft(Decimal(number), width)| == width
    ensures PaddedNumber(PadLeft(Decimal(number), width), number)
  {
    var d := Decimal(number);
    var r := PadLeft(d, width);
    assert |r| == width && r[|r| - |d|..] == d;
    assert forall i :: 0 <= i < |r| - |d| ==> r[i] == ' ';
  }

  /** With ascending keys every line number is left-padded with spaces to
      the digit count of the last line number. */
  lemma RowsGutter(lineNumber: int, colored: seq<Entry<string>>)
    requires Ascending(colored)
    ensures forall k :: 0 <= k < |colored| ==>
      && |Rows(lineNumber, colored)[k].number| == GutterWidth(colored)
      && PaddedNumber(Rows(lineNumber, colored)[k].number, colored[k].key + 1)
  {
    forall k | 0 <= k < |colored|
      ensures |Rows(lineNumber, colored)[k].number| == GutterWidth(colored)
      ensures PaddedNumber(Rows(lineNumber, colored)[k].number, colored[k].key + 1)
    {
      RowGutter(lineNumber, colored, k);
    }
  }

  lemma RowGutter(lineNumber: int, colored: seq<Entry<string>>, k: nat)
    requires Ascending(colored) && k < |colored|
    ensures |Rows(lineNumber, colored)[k].number| == GutterWidth(colored)
    ensures PaddedNumber(Rows(lineNumber, colored)[k].number, colored[k].key + 1)
  {
    var width := GutterWidth(colored);
    var n := colored[k].key + 1;
    if k < |colored| - 1 {
      DecimalLengthMonotone(n, colored[|colored| - 1].key + 1);
    }
    PadLeftPadded(n, width);
    assert Rows(lineNumber, colored)[k] == SnippetRow(lineNumber, width, colored[k]);
  }

  /** The coloured window keeps the window's keys. */
  lemma ColoredWindow(apply: Colorizer, w: seq<Entry<Line>>)
    requires Ascending(w)
    ensures Ascending(ColorLines(apply, w))
  {
  }

  /** The window never holds more than `linesBefore + linesAfter + 1` lines. */
  lemma SnippetSize(apply: Colorizer, lines: seq<Line>, lineNumber: int, linesBefore: int, linesAfter: int)
    requires linesBefore + linesAfter + 1 >= 0
    ensures |WindowRows(apply, lines, lineNumber, linesBefore, linesAfter)| <= linesBefore + linesAfter + 1
  {
  }

  /** With a non-negative start the window is exactly the lines with indices
      `offset` up to `min(offset + length, n) - 1`, in order. */
  lemma WindowFromOffset(lines: seq<Line>, lineNumber: int, linesBefore: int, linesAfter: int)
    requires lineNumber - linesBefore - 1 >= 0
    requires linesBefore + linesAfter + 1 >= 0
    ensures var offset := lineNumber - linesBefore - 1;
      var end := if offset + linesBefore + linesAfter + 1 <= |lines| then offset + linesBefore + linesAfter + 1 else |lines|;
      var w := Window(lines, lineNumber, linesBefore, linesAfter);
      && |w| == (if end > offset then end - offset else 0)
      && forall k :: 0 <= k < |w| ==> w[k] == Entry(offset + k, lines[offset + k])
  {
  }

  /** The marker is on at most one row, the one for the target line. */
  lemma SnippetMarker(apply: Colorizer, lines: seq<Line>, lineNumber: int, linesBefore: int, linesAfter: int)
    ensures var w := Window(lines, lineNumber, linesBefore, linesAfter);
      var rows := WindowRows(apply, lines, lineNumber, linesBefore, linesAfter);
      && |rows| == |w|
      && (forall k :: 0 <= k < |rows| ==> (rows[k].marked <==> w[k].key + 1 == lineNumber))
      && (forall j, k :: 0 <= j < |rows| && 0 <= k < |rows| && rows[j].marked && rows[k].marked ==> j == k)
  {
    var w := Window(lines, lineNumber, linesBefore, linesAfter);
    ColoredWindow(apply, w);
    RowsMarker(lineNumber, ColorLines(apply, w));
  }

  /** Every line number is left-padded with spaces to the digit count of the
      last line number in the window. */
  lemma SnippetGutter(apply: Colorizer, lines: seq<Line>, lineNumber: int, linesBefore: int, linesAfter: int)
    ensures var w := Window(lines, lineNumber, linesBefore, linesAfter);
      var rows := WindowRows(apply, lines, lineNumber, linesBefore, linesAfter);
      forall k :: 0 <= k < |rows| ==>
        && |rows[k].number| == |Decimal(w[|w| - 1].key + 1)|
        && PaddedNumber(rows[k].number, w[k].key + 1)
  {
    ColoredGutter(apply, lineNumber, Window(lines, lineNumber, linesBefore, linesAfter));
  }

  lemma ColoredGutter(apply: Colorizer, lineNumber: int, w: seq<Entry<Line>>)
    requires Ascending(w)
    ensures var rows := Rows(lineNumber, ColorLines(apply, w));
      forall k :: 0 <= k < |rows| ==>
        && |rows[k].number| == |Decimal(w[|w| - 1].key + 1)|
        && PaddedNumber(rows[k].number, w[k].key + 1)
  {
    ColoredGutterWidth(apply, lineNumber, w);
    ColoredGutterPadded(apply, lineNumber, w);
  }

  /** The gutter of coloured entries is computed from the uncoloured keys. */
  lemma GutterOfColored(apply: Colorizer, w: seq<Entry<Line>>)
    ensures GutterWidth(ColorLines(apply, w)) == if |w| == 0 then 1 else |Decimal(w[|w| - 1].key + 1)|
  {
    if |w| > 0 {
      assert ColorLines(apply, w)[|w| - 1].key == w[|w| - 1].key;
    }
  }

  lemma ColoredGutterWidth(apply: Colorizer, lineNumber: int, w: seq<Entry<Line>>)
    requires Ascending(w)
    ensures var rows := Rows(lineNumber, ColorLines(apply, w));
      forall k :: 0 <= k < |rows| ==> |rows[k].number| == |Decimal(w[|w| - 1].key + 1)|
  {
    var colored := ColorLines(apply, w);
    ColoredWindow(apply, w);
    RowsGutter(lineNumber, colored);
    GutterOfColored(apply, w);
  }

  lemma ColoredGutterPadded(apply: Colorizer, lineNumber: int, w: seq<Entry<Line>>)
    requires Ascending(w)
    ensures var rows := Rows(lineNumber, ColorLines(apply, w));
      forall k :: 0 <= k < |rows| ==> PaddedNumber(rows[k].number, w[k].key + 1)
  {
    var colored := ColorLines(apply, w);
    var rows := Rows(lineNumber, colored);
    ColoredWindow(apply, w);
    forall k | 0 <= k < |rows|
      ensures PaddedNumber(rows[k].number, w[k].key + 1)
    {
      RowGutter(lineNumber, colored, k);
      assert colored[k].key == w[k].key;
    }
  }

  /** Each row's text holds exactly one "\n", at its end, when the colour
      function adds none. */
  lemma RowTextOneLine(apply: Colorizer, row: Row)
    requires NewlineFree(apply)
    requires '\n' !in row.number && '\n' !in row.body
    ensures Count(RowText(apply, row), '\n') == 1
    ensures RowText(apply, row)[|RowText(apply, row)| - 1] == '\n'
  {
    var prefix := if row.marked then apply(Some(MarkerStyle), Marker) else NoMarker;
    assert '\n' !in Marker;
    CountAppend(prefix, row.number, '\n');
    CountAppend(prefix + row.number, "| ", '\n');
    CountAppend(prefix + row.number + "| ", row.body, '\n');
    CountAppend(prefix + row.number + "| " + row.body, Eol, '\n');
  }

  lemma {:induction false} ConcatOneLineEach(ts: seq<string>)
    requires forall k :: 0 <= k < |ts| ==> Count(ts[k], '\n') == 1
    ensures Count(Concat(ts), '\n') == |ts|
  {
    if |ts| > 0 {
      ConcatOneLineEach(ts[1..]);
      CountAppend(ts[0], Concat(ts[1..]), '\n');
    }
  }

  /** A padded line number holds only spaces and digits. */
  lemma PaddedNumberNoNewline(n: string, number: nat)
    requires PaddedNumber(n, number)
    ensures '\n' !in n
  {
    var d := Decimal(number);
    forall i | 0 <= i < |n|
      ensures n[i] != '\n'
    {
      if i >= |n| - |d| {
        assert n[i] == n[|n| - |d|..][i - (|n| - |d|)];
      }
    }
  }

  /** Trimming keeps a prefix, so it adds no "\n". */
  lemma RTrimNoNewline(s: string)
    requires '\n' !in s
    ensures '\n' !in RTrim(s)
  {
    var r := RTrim(s);
    assert forall i :: 0 <= i < |r| ==> r[i] == s[i];
  }

  /** A window of lines whose segments hold no "\n" renders as one
      "\n"-terminated line per row. */
  lemma WindowLines(apply: Colorizer, lines: seq<Line>, lineNumber: int, linesBefore: int, linesAfter: int)
    requires NewlineFree(apply)
    requires Segmented(lines)
    ensures var rows := WindowRows(apply, lines, lineNumber, linesBefore, linesAfter);
      && Count(SnippetText(apply, rows), '\n') == |rows|
      && forall k :: 0 <= k < |rows| ==> RowText(apply, rows[k])[|RowText(apply, rows[k])| - 1] == '\n'
  {
    var w := Window(lines, lineNumber, linesBefore, linesAfter);
    var colored := ColorLines(apply, w);
    var rows := Rows(lineNumber, colored);
    ColoredWindow(apply, w);
    RowsGutter(lineNumber, colored);
    var texts := seq(|rows|, k requires 0 <= k < |rows| => RowText(apply, rows[k]));
    forall k | 0 <= k < |rows|
      ensures Count(texts[k], '\n') == 1
      ensures texts[k][|texts[k]| - 1] == '\n'
    {
      ColorLineOneLine(apply, lines[w[k].key]);
      PaddedNumberNoNewline(rows[k].number, colored[k].key + 1);
      RTrimNoNewline(colored[k].value);
      RowTextOneLine(apply, rows[k]);
    }
    ConcatOneLineEach(texts);
  }

  /** The snippet of a window of good lines is as many "\n"-terminated
      lines as the window holds, whenever colouring adds no "\n". */
  lemma SnippetLines(apply: Colorizer, lines: seq<Line>, lineNumber: int, linesBefore: int, linesAfter: int)
    requires Segmented(lines)
    ensures NewlineFree(apply) ==>
      var rows := WindowRows(apply, lines, lineNumber, linesBefore, linesAfter);
      Count(SnippetText(apply, rows), '\n') == |rows|
  {
    if NewlineFree(apply) {
      WindowLines(apply, lines, lineNumber, linesBefore, linesAfter);
    }
  }

  /** For a target line with `linesBefore` lines above it and `linesAfter`
      below it, the snippet has exactly `linesBefore + linesAfter + 1` rows
      and the marker is on the row in the middle, numbered `lineNumber`. */
  lemma SnippetInterior(apply: Colorizer, lines: seq<Line>, lineNumber: int, linesBefore: int, linesAfter: int)
    requires 0 <= linesBefore && 0 <= linesAfter
    requires linesBefore < lineNumber
    requires lineNumber + linesAfter <= |lines|
    ensures var rows := WindowRows(apply, lines, lineNumber, linesBefore, linesAfter);
      && |rows| == linesBefore + linesAfter + 1
      && rows[linesBefore].marked
      && PaddedNumber(rows[linesBefore].number, lineNumber)
      && forall k :: 0 <= k < |rows| && k != linesBefore ==> !rows[k].marked
  {
    var w := Window(lines, lineNumber, linesBefore, linesAfter);
    WindowFromOffset(lines, lineNumber, linesBefore, linesAfter);
    var colored := ColorLines(apply, w);
    assert |colored| == linesBefore + linesAfter + 1;
    assert colored[linesBefore].key + 1 == lineNumber;
    ColoredWindow(apply, w);
    RowsAtTarget(lineNumber, colored, linesBefore);
  }

  /** The row of an entry numbered `lineNumber` is the only marked row and
      shows that number. */
  lemma RowsAtTarget(lineNumber: int, colored: seq<Entry<string>>, m: nat)
    requires Ascending(colored)
    requires m < |colored| && colored[m].key + 1 == lineNumber
    ensures var rows := Rows(lineNumber, colored);
      && rows[m].marked
      && PaddedNumber(rows[m].number, lineNumber)
      && forall k :: 0 <= k < |rows| && k != m ==> !rows[k].marked
  {
    var rows := Rows(lineNumber, colored);
    var width := GutterWidth(colored);
    var n := colored[m].key + 1;
    if m < |colored| - 1 {
      DecimalLengthMonotone(n, colored[|colored| - 1].key + 1);
    }
    PadLeftPadded(n, width);
    assert rows[m] == SnippetRow(lineNumber, width, colored[m]);
    RowsMarker(lineNumber, colored);
  }

  /* ---------- the negative offset ---------- */

  /** As written, a target line within `linesBefore` of the top of a file
      longer than `linesBefore` gets a negative offset, which `array_slice`
      counts from the END of the file: the window shows the last lines and
      the target line is not in it, so no row carries the marker. */
  lemma WindowWrapsAround(apply: Colorizer, lines: seq<Line>, lineNumber: int, linesBefore: int, linesAfter: int)
    requires 1 <= lineNumber <= linesBefore
    requires 0 <= linesAfter
    requires linesBefore < |lines|
    ensures var w := Window(lines, lineNumber, linesBefore, linesAfter);
      var rows := WindowRows(apply, lines, lineNumber, linesBefore, linesAfter);
      && |w| > 0
      && w[0].key == |lines| + lineNumber - linesBefore - 1
      && forall k :: 0 <= k < |rows| ==> !rows[k].marked
  {
    SnippetMarker(apply, lines, lineNumber, linesBefore, linesAfter);
  }

  /** On a ten-line file, the snippet for line 1 with two lines of context
      shows lines 9 and 10. */
  lemma WindowWrapsAroundExample(lines: seq<Line>)
    requires |lines| == 10
    ensures var w := Window(lines, 1, 2, 2);
      |w| == 2 && w[0].key + 1 == 9 && w[1].key + 1 == 10
  {
  }

  /** The evidently intended window: the offset clamped at 0, so the window
      starts at the top of the file. */
  function ClampedWindow(lines: seq<Line>, lineNumber: int, linesBefore: int, linesAfter: int): seq<Entry<Line>>
  {
    var offset := lineNumber - linesBefore - 1;
    ArraySlice(lines, if offset < 0 then 0 else offset, linesAfter + linesBefore + 1)
  }

  /** The snippet rows with the clamped window. */
  function ClampedWindowRows(apply: Colorizer, lines: seq<Line>, lineNumber: int, linesBefore: int, linesAfter: int): seq<Row>
  {
    Rows(lineNumber, ColorLines(apply, ClampedWindow(lines, lineNumber, linesBefore, linesAfter)))
  }

  /** The correction changes nothing when the window's start is inside the
      file: only a negative offset is treated differently. */
  lemma ClampedWindowAgrees(lines: seq<Line>, lineNumber: int, linesBefore: int, linesAfter: int)
    ensures lineNumber - linesBefore - 1 >= 0 ==>
      ClampedWindow(lines, lineNumber, linesBefore, linesAfter) == Window(lines, lineNumber, linesBefore, linesAfter)
    ensures lineNumber - linesBefore - 1 < 0 ==>
      ClampedWindow(lines, lineNumber, linesBefore, linesAfter) == ArraySlice(lines, 0, linesAfter + linesBefore + 1)
  {
  }

  /** With the clamped window every target line of the file is shown and
      marked exactly once, the window starts at line
      `max(1, lineNumber - linesBefore)` and holds at most
      `linesBefore + linesAfter + 1` lines. */
  lemma ClampedSnippetMarksTarget(apply: Colorizer, lines: seq<Line>, lineNumber: int, linesBefore: int, linesAfter: int)
    requires 1 <= lineNumber <= |lines|
    requires 0 <= linesBefore && 0 <= linesAfter
    ensures var w := ClampedWindow(lines, lineNumber, linesBefore, linesAfter);
      var rows := ClampedWindowRows(apply, lines, lineNumber, linesBefore, linesAfter);
      && |rows| == |w| <= linesBefore + linesAfter + 1
      && w[0].key + 1 == (if lineNumber - linesBefore < 1 then 1 else lineNumber - linesBefore)
      && (exists k :: 0 <= k < |rows| && rows[k].marked)
      && (forall j, k :: 0 <= j < |rows| && 0 <= k < |rows| && rows[j].marked && rows[k].marked ==> j == k)
  {
    var w := ClampedWindow(lines, lineNumber, linesBefore, linesAfter);
    var colored := ColorLines(apply, w);
    var rows := Rows(lineNumber, colored);
    ColoredWindow(apply, w);
    RowsMarker(lineNumber, colored);
    var start := if lineNumber - linesBefore - 1 < 0 then 0 else lineNumber - linesBefore - 1;
    var k := lineNumber - 1 - start;
    assert 0 <= k < |w|;
    assert w[k].key + 1 == lineNumber;
    assert rows[k].marked;
  }
}
