# PHP Console Highlighter, modelled in Dafny

This project models the `Highlighter` class of PHP Console Highlighter. The class
colours PHP source code for a terminal. It can render the whole file
(`getWholeFile`) or a line-numbered snippet around one target line
(`getCodeSnippet`). Both renderings go through the same pipeline:

1. **Normalisation** (`Normalization`). `str_replace(["\r\n", "\r"], "\n", ...)`
   is modelled as the two passes PHP performs. It is checked against an
   independent reference (`UniversalLines`) that reads "\r\n", a lone "\r" and
   "\n" each as one line break.
2. **Classification and coalescing** (`Classifier`). `tokenize` maps each lexer
   token to one of five classes (default, comment, string, HTML, keyword), or to
   none for whitespace. It then merges consecutive tokens of one class into
   spans. The loop is a left fold over a state that holds PHP's loop variables.
   `$newType` keeps its value across whitespace tokens, and that is how
   whitespace joins the span around it. An empty token stream gives one span
   with the null class and empty text. The fold is proved equal to an
   independent reference: each token labelled with the class it is shown in,
   then neighbouring labels of one class merged (`Labels`, `Coalesce`).
3. **Line splitting** (`LineSplitter`). `splitToLines` cuts each span at its
   "\n" characters into segments, one list of segments per line. It never
   stores an empty segment, and it always pushes the last line.
4. **Rendering** (`Renderer`):
   - `colorLines` and `output` produce the whole file;
   - `array_slice` (`PhpArray`) picks the snippet window, with PHP's real
     negative-offset and negative-length rules and preserved keys;
   - the snippet has a gutter padded to the digit count of the last line
     number, a marker on the target line, right-trimmed lines, and a line
     terminator after every row.

Two things the code relies on are parameters of the model, because they lie
outside this class:

- PHP's lexer (`token_get_all`), as `Lexer = string -> seq<Token>`;
- the colour library's `Color::apply`, as `Colorizer = (Option<string>, string) -> string`.

The properties about them are stated under explicit assumptions about these
parameters:

- `Lossless`: the lexer returns its whole input;
- `Plain`: the colour function adds nothing;
- `NewlineFree`: the colour function adds no "\n".

Two behaviours of the code are easy to misread, and the model keeps them as
written:

- An empty token stream does not give an empty list of spans. Line 135 emits
  one span `(null, "")` (`Classifier.Tokenize`), and the line splitter turns it
  into one empty line (`Renderer.EmptySourceOneEmptyLine`).
- A snippet for a line near the top of the file does not start at line 1.
  Lines 33-35 pass a negative offset to `array_slice`, which counts from the end
  of the file (see Findings).

## Model

| member | source | states |
|---|---|---|
| Normalization.Normalize | src/JakubOnderka/PhpConsoleHighlighter/Highlighter.php:67 | no "\r" survives normalisation |
| Normalization.NormalizeLines | src/JakubOnderka/PhpConsoleHighlighter/Highlighter.php:67 | splitting the normalised text on "\n" gives exactly the source's lines, whether each break was "\r\n", a lone "\r" or "\n" (independent reference `UniversalLines`) |
| Normalization.NormalizeCounts | src/JakubOnderka/PhpConsoleHighlighter/Highlighter.php:67 | every line break becomes exactly one "\n": the "\n" count is the "\n" plus "\r" count minus the "\r\n" pairs, and each pair shortens the text by one |
| Normalization.NormalizeKeepsUnixText | src/JakubOnderka/PhpConsoleHighlighter/Highlighter.php:67 | text without "\r" is unchanged |
| Normalization.NormalizeIdempotent | src/JakubOnderka/PhpConsoleHighlighter/Highlighter.php:67 | normalising twice is normalising once |
| Classifier.CodeRoundTrip | src/JakubOnderka/PhpConsoleHighlighter/Highlighter.php:8-12 | the one-letter class constants name the five classes one-to-one |
| Classifier.NewType | src/JakubOnderka/PhpConsoleHighlighter/Highlighter.php:85-120 | the table is total: exactly whitespace starts no class; a bare `"` is a string, any other bare character a keyword; every unlisted token kind is a keyword |
| Classifier.Tokenize | src/JakubOnderka/PhpConsoleHighlighter/Highlighter.php:76-138 | at least one span; an empty token stream gives the single span (null, "") |
| Classifier.StepAgrees | src/JakubOnderka/PhpConsoleHighlighter/Highlighter.php:84-133 | one iteration of the loop keeps the reference invariant: before the first classified token only the buffer holds text, null-classed; afterwards the emitted spans plus the open buffer are the coalesced labels of the tokens read |
| Classifier.RunAgrees | src/JakubOnderka/PhpConsoleHighlighter/Highlighter.php:84-133 | the whole loop keeps that invariant to the end of the stream |
| Classifier.TokenizeKeepsText | src/JakubOnderka/PhpConsoleHighlighter/Highlighter.php:122-135 | coalescing loses no text: the span texts put together are the token texts put together, whitespace included |
| Classifier.TokenizeClasses | src/JakubOnderka/PhpConsoleHighlighter/Highlighter.php:122-135 | the span classes are the non-whitespace tokens' classes with runs collapsed; with no classified token there is one span of null class |
| Classifier.TokenizeMaximal | src/JakubOnderka/PhpConsoleHighlighter/Highlighter.php:126-130 | no two neighbouring spans share a class |
| Classifier.TokenizeNoEmptySpan | src/JakubOnderka/PhpConsoleHighlighter/Highlighter.php:122-135 | for a non-empty stream of non-empty tokens no span has empty text |
| Classifier.TokenizeIsCoalescedLabels | src/JakubOnderka/PhpConsoleHighlighter/Highlighter.php:76-138 | which text carries which class: the spans are the tokens, each labelled with the class of the last classified token up to it (leading whitespace takes the first classified token's class), with neighbouring tokens of one class merged |
| Classifier.TokenizeExample | src/JakubOnderka/PhpConsoleHighlighter/Highlighter.php:119-135 | raw tokens `a`, `b`, `"` give the keyword span "ab" and the string span `"` |
| LineSplitter.SplitToLines | src/JakubOnderka/PhpConsoleHighlighter/Highlighter.php:144-167 | at least one line, since the last line is always pushed |
| LineSplitter.PlaceEffect | src/JakubOnderka/PhpConsoleHighlighter/Highlighter.php:151-160 | one inner iteration: after a break the open line is pushed (one more line, one "\n" more of text) and a non-empty piece is appended as a segment of the span's class |
| LineSplitter.AddPiecesEffect | src/JakubOnderka/PhpConsoleHighlighter/Highlighter.php:150-161 | the inner loop over one span's pieces adds their text joined with "\n", one line per break, and the non-empty pieces as segments |
| LineSplitter.AddSpanEffect | src/JakubOnderka/PhpConsoleHighlighter/Highlighter.php:149-162 | one outer iteration adds the span's text, one finished line per "\n" in it, and its segments |
| LineSplitter.AddSpansKeepsInv | src/JakubOnderka/PhpConsoleHighlighter/Highlighter.php:148-162 | the outer loop keeps the invariant: the lines joined with "\n" are the texts read, there is one finished line per "\n" read, and the segments are those of the spans read |
| LineSplitter.SplitLineCount | src/JakubOnderka/PhpConsoleHighlighter/Highlighter.php:144-167 | there is one line more than the number of "\n" in the span texts |
| LineSplitter.SplitRebuildsText | src/JakubOnderka/PhpConsoleHighlighter/Highlighter.php:144-167 | joining the lines' texts with "\n" rebuilds the span texts exactly |
| LineSplitter.SplitKeepsSegments | src/JakubOnderka/PhpConsoleHighlighter/Highlighter.php:150-160 | read line after line, the segments are the non-empty pieces of each span in order, each under its span's class |
| LineSplitter.SplitSegmentsGood | src/JakubOnderka/PhpConsoleHighlighter/Highlighter.php:156-160 | no stored segment is empty or holds "\n" |
| Text.Explode | src/JakubOnderka/PhpConsoleHighlighter/Highlighter.php:150 | `explode` gives one piece more than there are separators, and no piece holds the separator |
| Text.JoinExplode | src/JakubOnderka/PhpConsoleHighlighter/Highlighter.php:150 | `implode` undoes `explode` |
| Text.ExplodeJoin | src/JakubOnderka/PhpConsoleHighlighter/Highlighter.php:192 | `explode` undoes `implode` of separator-free pieces |
| Renderer.ColorLinesPlain | src/JakubOnderka/PhpConsoleHighlighter/Highlighter.php:172-184 | without colouring, `colorLines` gives each line's segment texts put together, in order |
| Renderer.ColorLinesOneLine | src/JakubOnderka/PhpConsoleHighlighter/Highlighter.php:172-184 | when colouring adds no "\n" and no segment holds one, no coloured line holds "\n" |
| Renderer.Output | src/JakubOnderka/PhpConsoleHighlighter/Highlighter.php:190-193 | without colouring the output is the lines' texts joined with "\n"; when colouring adds no "\n", splitting the output on "\n" gives exactly the coloured lines, one per line |
| Renderer.HighlightedLines | src/JakubOnderka/PhpConsoleHighlighter/Highlighter.php:65-70 | there is one line more than the lexed text has "\n"; joined with "\n" the lines give that text back; no segment is empty or holds "\n" |
| Renderer.WholeFile | src/JakubOnderka/PhpConsoleHighlighter/Highlighter.php:55-59 | with a lossless lexer and no colouring the output is the normalised source; when colouring adds no "\n", the output has one entry per line, that line coloured, one per line of the normalised source |
| Renderer.ColorLinePlain | src/JakubOnderka/PhpConsoleHighlighter/Highlighter.php:176-179 | with a colour function that adds nothing, a line renders as its segment texts |
| Renderer.HighlightedLinesRebuild | src/JakubOnderka/PhpConsoleHighlighter/Highlighter.php:65-70 | joined with "\n" the highlighted lines are the normalised source, and there is one more of them than it has "\n" |
| Renderer.EmptySourceOneEmptyLine | src/JakubOnderka/PhpConsoleHighlighter/Highlighter.php:65-70 | an empty source is one empty line |
| PhpArray.ArraySlice | src/JakubOnderka/PhpConsoleHighlighter/Highlighter.php:35 | `array_slice` with preserved keys: keys are consecutive indices whose values are the source's; at most `length` entries; exact size and start for a non-negative offset; a negative offset starts at `max(0, n + offset)` |
| PhpArray.SliceSize | src/JakubOnderka/PhpConsoleHighlighter/Highlighter.php:35 | the exact size of every slice: from `offset`, or `-offset` before the end clamped at the first element, up to `length` later, the end, or `-length` before the end |
| PhpArray.SliceFromEnd | src/JakubOnderka/PhpConsoleHighlighter/Highlighter.php:35 | a negative offset `-m` with room for `m` elements gives the last `m` elements |
| PhpArray.SliceStopsBeforeEnd | src/JakubOnderka/PhpConsoleHighlighter/Highlighter.php:35 | a negative length `-m` stops `m` elements before the end |
| Renderer.RowsMarker | src/JakubOnderka/PhpConsoleHighlighter/Highlighter.php:44 | a row carries the marker exactly when its line number is the target line; with ascending keys at most one row does |
| Renderer.RowsGutter | src/JakubOnderka/PhpConsoleHighlighter/Highlighter.php:39-45 | every line number is left-padded with spaces to the digit count of the last line number |
| Renderer.GutterCovers | src/JakubOnderka/PhpConsoleHighlighter/Highlighter.php:39-40 | with ascending keys no line number in the window has more digits than the last one |
| Renderer.GutterIsStrlen | src/JakubOnderka/PhpConsoleHighlighter/Highlighter.php:39-40 | the gutter width is `strlen` of the last line number, the length of its one decimal string without a leading zero |
| Text.DecimalRoundTrip | src/JakubOnderka/PhpConsoleHighlighter/Highlighter.php:40 | the decimal digits printed for a line number read back as that number |
| Text.Decimal | src/JakubOnderka/PhpConsoleHighlighter/Highlighter.php:40 | a line number is written as decimal digits, with more than one digit exactly from 10 on and never a leading zero |
| Text.DecimalUnique | src/JakubOnderka/PhpConsoleHighlighter/Highlighter.php:40 | the decimal string of a number is the only digit string without a leading zero that reads as it |
| Text.PadLeft | src/JakubOnderka/PhpConsoleHighlighter/Highlighter.php:45 | `str_pad(..., STR_PAD_LEFT)`: the result is as wide as the larger of the text and the width, ends with the text, and has spaces before it |
| Text.RTrim | src/JakubOnderka/PhpConsoleHighlighter/Highlighter.php:45 | `rtrim` keeps a prefix that does not end in a blank, and everything it removes is blank |
| Renderer.SnippetSize | src/JakubOnderka/PhpConsoleHighlighter/Highlighter.php:33-35 | a snippet never holds more than `linesBefore + linesAfter + 1` rows |
| Renderer.WindowFromOffset | src/JakubOnderka/PhpConsoleHighlighter/Highlighter.php:33-35 | with a non-negative offset the window is exactly the lines from the offset up to the end of the window or of the file |
| Renderer.SnippetMarker | src/JakubOnderka/PhpConsoleHighlighter/Highlighter.php:29-49 | in a snippet the marker is on the row of the target line and on no other row |
| Renderer.SnippetGutter | src/JakubOnderka/PhpConsoleHighlighter/Highlighter.php:39-45 | every row's line number is its key plus one, padded to the digit count of the window's last line number |
| Renderer.RowTextOneLine | src/JakubOnderka/PhpConsoleHighlighter/Highlighter.php:44-45 | one row's text holds exactly one "\n", at its end, when colouring adds none |
| Renderer.CodeSnippet | src/JakubOnderka/PhpConsoleHighlighter/Highlighter.php:29-49 | when colouring adds no "\n", the snippet has exactly one "\n" per row |
| Renderer.SnippetLines | src/JakubOnderka/PhpConsoleHighlighter/Highlighter.php:43-46 | the snippet of a window of well-formed lines has one "\n" per row when colouring adds none |
| Renderer.WindowLines | src/JakubOnderka/PhpConsoleHighlighter/Highlighter.php:43-46 | every row ends with the line terminator and holds no other "\n" |
| Renderer.SnippetInterior | src/JakubOnderka/PhpConsoleHighlighter/Highlighter.php:29-49 | a target line with full context has exactly `linesBefore + linesAfter + 1` rows, with the marker and number of the target line on the middle row only |
| Renderer.WindowWrapsAround | src/JakubOnderka/PhpConsoleHighlighter/Highlighter.php:33-35 | as written, a target line within `linesBefore` of the top of any file longer than `linesBefore` gets a window taken from the end of the file, and no row is marked |
| Renderer.WindowWrapsAroundExample | src/JakubOnderka/PhpConsoleHighlighter/Highlighter.php:33-35 | on a ten-line file the snippet for line 1 with two lines of context shows lines 9 and 10 |
| Renderer.ClampedWindowAgrees | src/JakubOnderka/PhpConsoleHighlighter/Highlighter.php:33-35 | the clamped window differs from the written one only for a negative offset, where it starts at the top of the file |
| Renderer.ClampedSnippetMarksTarget | src/JakubOnderka/PhpConsoleHighlighter/Highlighter.php:33-44 | with the offset clamped at 0, every line of the file is shown and marked exactly once, the window starts at `max(1, lineNumber - linesBefore)`, and it has at most `linesBefore + linesAfter + 1` rows |

## Left out

- PHP's lexer (`token_get_all`) is a parameter. Which token kinds it produces for which text is not modelled. Whitespace, the kinds the classification table names, and every other kind as `Other` are distinguished.
- The colour library (`Color::apply`, its themes and escape codes) is a parameter. The marker's style is the name "red".
- `PHP_EOL` is taken to be "\n" (`Renderer.Eol`). On Windows PHP it is "\r\n".
- The constructor and `example.php` are left out: they do no computation.
- PHP's loose typing is left out. The model takes `$lineNumber` and the context sizes as integers. A string target line would make the strict comparison `$lineNumber === $i + 1` fail, and no row would be marked.
- For an empty token stream, line 135 reads `$newType`, which was never assigned. PHP reports an undefined-variable notice (a warning from PHP 8 on) and goes on with null. The model gives `None` and does not model the diagnostic.
- Renderer.WholeFile: the "\n"-structure and reconstruction clauses hold only under a colour function that adds no "\n", or none at all. The escape codes of a real colour library are not part of this model.
- Renderer.Output: same restriction as WholeFile, for the same reason.
- Renderer.CodeSnippet: the row-count clause holds only for a colour function that adds no "\n", for the same reason.
- Renderer.SnippetLines, Renderer.WindowLines, Renderer.ColorLinesOneLine: stated only for a colour function that adds no "\n", for the same reason.
- Classifier.TokenizeNoEmptySpan: assumes that the lexer yields no empty token texts and at least one token, because this class relies on the lexer for both.
- Renderer.HighlightedLinesRebuild: assumes the lexer returns its whole input (`Lossless`), which this class relies on. Renderer.HighlightedLines states the same facts about the lexed text with no assumption.

## Findings

| source | as written | input that shows it | evidently intended | confidence | as-written member | corrected member |
|---|---|---|---|---|---|---|
| src/JakubOnderka/PhpConsoleHighlighter/Highlighter.php:33-35 | `$offset = $lineNumber - $linesBefore - 1` goes negative for a target line within `linesBefore` of the top. `array_slice` then counts from the end of the file | a ten-line file with `lineNumber = 1`, `linesBefore = 2` and `linesAfter = 2` gives a snippet of lines 9 and 10, and no row carries the marker | the offset clamped at 0, so the window starts at line 1 and shows the target line with its marker | high; not executed | Renderer.WindowWrapsAround | Renderer.ClampedSnippetMarksTarget |
