/** The line splitter (`splitToLines`): re-flows the classified spans into
    lines of segments, cutting every span at its "\n" characters. */
module LineSplitter {
  import opened Text
  import opened Classifier

  /** A line is its segments in order; a segment is a span confined to one line. */
  type Line = seq<Span>

  /** The loop variables of `splitToLines`: `$lines`, the finished lines,
      and `$line`, the line being filled. */
  datatype Acc = Acc(lines: seq<Line>, line: Line)

  /** One iteration of the inner `foreach` over the pieces of a span's text:
      `afterBreak` is `$count > 0`, true from the second piece on. A line
      break first pushes the open line; a non-empty piece becomes a segment. */
  function Place(acc: Acc, cls: Option<Class>, piece: string, afterBreak: bool): Acc
  {
    var pushed := if afterBreak then Acc(acc.lines + [acc.line], []) else acc;
    if piece == "" then pushed else Acc(pushed.lines, pushed.line + [Span(cls, piece)])
  }

  /** The inner `foreach` over the pieces of one span's text. */
  function AddPieces(acc: Acc, cls: Option<Class>, pieces: seq<string>, afterBreak: bool): Acc
    decreases |pieces|
  {
    if |pieces| == 0 then acc
    else AddPieces(Place(acc, cls, pieces[0], afterBreak), cls, pieces[1..], true)
  }

  /** One iteration of the outer `foreach`: the span's text exploded on "\n". */
  function AddSpan(acc: Acc, sp: Span): Acc
  {
    AddPieces(acc, sp.cls, Explode('\n', sp.text), false)
  }

  /** The outer loop over all spans. */
  function AddSpans(acc: Acc, spans: seq<Span>): Acc
    decreases |spans|
  {
    if |spans| == 0 then acc else AddSpans(AddSpan(acc, spans[0]), spans[1..])
  }

  /** `splitToLines`: after the loop the last line is pushed, even when empty. */
  function SplitToLines(spans: seq<Span>): (r: seq<Line>)
    ensures |r| >= 1
  {
    var acc := AddSpans(Acc([], []), spans);
    acc.lines + [acc.line]
  }

  /** The text of a line: its segment texts put together. */
  function LineText(l: Line): string
  {
    Concat(SpanTexts(l))
  }

  function LineTexts(ls: seq<Line>): (r: seq<string>)
    ensures |r| == |ls|
  {
    seq(|ls|, i requires 0 <= i < |ls| => LineText(ls[i]))
  }

  /** All segments of all lines, in order. */
  function Flatten(ls: seq<Line>): seq<Span>
  {
    if |ls| == 0 then [] else ls[0] + Flatten(ls[1..])
  }

  /** The segments one span contributes: one per non-empty piece of its
      text between "\n"s, each under the span's class. */
  function PieceSegments(cls: Option<Class>, pieces: seq<string>): seq<Span>
  {
    if |pieces| == 0 then []
    else (if pieces[0] == "" then [] else [Span(cls, pieces[0])]) + PieceSegments(cls, pieces[1..])
  }

  function SpanSegments(sp: Span): seq<Span>
  {
    PieceSegments(sp.cls, Explode('\n', sp.text))
  }

  /** The segments of every span, span after span: the reference for the
      flattened result of `SplitToLines`. */
  function AllSegments(spans: seq<Span>): seq<Span>
  {
    if |spans| == 0 then [] else AllSegments(spans[..|spans| - 1]) + SpanSegments(spans[|spans| - 1])
  }

  /** A stored segment is never empty and never holds "\n". */
  predicate GoodSegment(s: Span)
  {
    s.text != "" && '\n' !in s.text
  }

  /** Every segment of every line is good. */
  predicate Segmented(lines: seq<Line>)
  {
    forall i, j :: 0 <= i < |lines| && 0 <= j < |lines[i]| ==> GoodSegment(lines[i][j])
  }

  /* ---------- loop invariants of splitToLines ---------- */

  /** The finished lines followed by the open one. */
  function Open(acc: Acc): seq<Line>
  {
    acc.lines + [acc.line]
  }

  /** The text the accumulator represents: its lines joined with "\n". */
  function Rendered(acc: Acc): string
  {
    Join("\n", LineTexts(Open(acc)))
  }

  lemma {:induction false} FlattenAppend(a: seq<Line>, b: seq<Line>)
    ensures Flatten(a + b) == Flatten(a) + Flatten(b)
  {
    if |a| == 0 {
      assert a + b == b;
    } else {
      assert (a + b)[1..] == a[1..] + b;
      FlattenAppend(a[1..], b);
    }
  }

  lemma FlattenSingle(l: Line)
    ensures Flatten([l]) == l
  {
    assert Flatten([l]) == l + Flatten([]);
  }

  /** Pushing the open line adds one "\n" and no segment. */
  lemma PushLine(acc: Acc)
    ensures Rendered(Acc(acc.lines + [acc.line], [])) == Rendered(acc) + "\n"
    ensures Flatten(Open(Acc(acc.lines + [acc.line], []))) == Flatten(Open(acc))
  {
    var acc' := Acc(acc.lines + [acc.line], []);
    assert Open(acc') == Open(acc) + [[]];
    assert LineTexts(Open(acc')) == LineTexts(Open(acc)) + [""];
    JoinSnoc("\n", LineTexts(Open(acc)), "");
    FlattenAppend(Open(acc), [[]]);
    FlattenSingle([]);
  }

  /** Adding a segment to the open line adds its text and the segment. */
  lemma AddSegment(acc: Acc, s: Span)
    ensures Rendered(Acc(acc.lines, acc.line + [s])) == Rendered(acc) + s.text
    ensures Flatten(Open(Acc(acc.lines, acc.line + [s]))) == Flatten(Open(acc)) + [s]
  {
    var acc' := Acc(acc.lines, acc.line + [s]);
    var ts := LineTexts(Open(acc));
    TextsSnoc([], Raw(' '), acc.line, s);
    ConcatSnoc(SpanTexts(acc.line), s.text);
    assert LineTexts(Open(acc')) == ts[..|ts| - 1] + [ts[|ts| - 1] + s.text];
    JoinExtendLast("\n", ts, s.text);
    FlattenAppend(acc.lines, [acc.line + [s]]);
    FlattenAppend(acc.lines, [acc.line]);
    FlattenSingle(acc.line + [s]);
    FlattenSingle(acc.line);
  }

  /** What one inner iteration does to the text, the line count and the segments. */
  lemma PlaceEffect(acc: Acc, cls: Option<Class>, piece: string, afterBreak: bool)
    ensures Rendered(Place(acc, cls, piece, afterBreak))
      == Rendered(acc) + (if afterBreak then "\n" else "") + piece
    ensures |Place(acc, cls, piece, afterBreak).lines| == |acc.lines| + (if afterBreak then 1 else 0)
    ensures Flatten(Open(Place(acc, cls, piece, afterBreak)))
      == Flatten(Open(acc)) + PieceSegments(cls, [piece])
  {
    var pushed := if afterBreak then Acc(acc.lines + [acc.line], []) else acc;
    if afterBreak {
      PushLine(acc);
    }
    assert PieceSegments(cls, [piece]) == (if piece == "" then [] else [Span(cls, piece)]) + PieceSegments(cls, []);
    if piece != "" {
      AddSegment(pushed, Span(cls, piece));
    } else {
      assert Flatten(Open(pushed)) + [] == Flatten(Open(pushed));
    }
  }

  lemma PieceSegmentsCons(cls: Option<Class>, pieces: seq<string>)
    requires |pieces| > 0
    ensures PieceSegments(cls, pieces) == PieceSegments(cls, [pieces[0]]) + PieceSegments(cls, pieces[1..])
  {
    assert PieceSegments(cls, [pieces[0]]) == (if pieces[0] == "" then [] else [Span(cls, pieces[0])]) + PieceSegments(cls, []);
  }

  /** What the inner loop does to the text, the line count and the segments. */
  lemma {:induction false} AddPiecesEffect(acc: Acc, cls: Option<Class>, pieces: seq<string>, afterBreak: bool)
    requires |pieces| > 0
    ensures Rendered(AddPieces(acc, cls, pieces, afterBreak))
      == Rendered(acc) + (if afterBreak then "\n" else "") + Join("\n", pieces)
    ensures |AddPieces(acc, cls, pieces, afterBreak).lines|
      == |acc.lines| + |pieces| - (if afterBreak then 0 else 1)
    ensures Flatten(Open(AddPieces(acc, cls, pieces, afterBreak)))
      == Flatten(Open(acc)) + PieceSegments(cls, pieces)
    decreases |pieces|
  {
    var placed := Place(acc, cls, pieces[0], afterBreak);
    PlaceEffect(acc, cls, pieces[0], afterBreak);
    PieceSegmentsCons(cls, pieces);
    if |pieces| == 1 {
      assert pieces[1..] == [];
    } else {
      AddPiecesEffect(placed, cls, pieces[1..], true);
      JoinCons("\n", pieces[0], pieces[1..]);
      assert [pieces[0]] + pieces[1..] == pieces;
    }
  }

  /** Loop invariant of the outer loop over the spans consumed so far. */
  ghost predicate SplitInv(acc: Acc, consumed: seq<Span>)
  {
    && Rendered(acc) == Concat(SpanTexts(consumed))
    && |acc.lines| == Count(Concat(SpanTexts(consumed)), '\n')
    && Flatten(Open(acc)) == AllSegments(consumed)
  }

  /** What one outer iteration does: the span's text is added, one line is
      finished per "\n" in it, and its segments are added. */
  lemma AddSpanEffect(acc: Acc, sp: Span)
    ensures Rendered(AddSpan(acc, sp)) == Rendered(acc) + sp.text
    ensures |AddSpan(acc, sp).lines| == |acc.lines| + Count(sp.text, '\n')
    ensures Flatten(Open(AddSpan(acc, sp))) == Flatten(Open(acc)) + SpanSegments(sp)
  {
    var pieces := Explode('\n', sp.text);
    var acc' := AddPieces(acc, sp.cls, pieces, false);
    assert |pieces| == Count(sp.text, '\n') + 1;
    assert Join("\n", pieces) == sp.text by {
      JoinExplode('\n', sp.text);
    }
    AddPiecesEffect(acc, sp.cls, pieces, false);
    assert Rendered(acc') == Rendered(acc) + "" + sp.text;
    assert Rendered(acc) + "" == Rendered(acc);
  }

  lemma AddSpanKeepsInv(acc: Acc, consumed: seq<Span>, sp: Span)
    requires SplitInv(acc, consumed)
    ensures SplitInv(AddSpan(acc, sp), consumed + [sp])
  {
    var text := Concat(SpanTexts(consumed));
    assert Concat(SpanTexts(consumed + [sp])) == text + sp.text by {
      TextsSnoc([], Raw(' '), consumed, sp);
      ConcatSnoc(SpanTexts(consumed), sp.text);
    }
    assert AllSegments(consumed + [sp]) == AllSegments(consumed) + SpanSegments(sp) by {
      assert (consumed + [sp])[..|consumed|] == consumed;
    }
    CountAppend(text, sp.text, '\n');
    AddSpanEffect(acc, sp);
  }

  lemma {:induction false} AddSpansKeepsInv(acc: Acc, consumed: seq<Span>, spans: seq<Span>)
    requires SplitInv(acc, consumed)
    ensures SplitInv(AddSpans(acc, spans), consumed + spans)
    decreases |spans|
  {
    if |spans| == 0 {
      assert consumed + spans == consumed;
    } else {
      AddSpanKeepsInv(acc, consumed, spans[0]);
      AddSpansKeepsInv(AddSpan(acc, spans[0]), consumed + [spans[0]], spans[1..]);
      ConsumeFirst(consumed, spans);
    }
  }

  lemma SplitInvHolds(spans: seq<Span>)
    ensures SplitInv(AddSpans(Acc([], []), spans), spans)
  {
    var init := Acc([], []);
    assert LineTexts(Open(init)) == [""];
    FlattenSingle([]);
    assert SplitInv(init, []);
    AddSpansKeepsInv(init, [], spans);
    assert [] + spans == spans;
  }

  /* ---------- properties of splitToLines ---------- */

  /** Line-count law: one line more than there are "\n" in the span texts. */
  lemma SplitLineCount(spans: seq<Span>)
    ensures |SplitToLines(spans)| == 1 + Count(Concat(SpanTexts(spans)), '\n')
  {
    SplitInvHolds(spans);
  }

  /** Joining the lines' texts with "\n" gives back the span texts put together. */
  lemma SplitRebuildsText(spans: seq<Span>)
    ensures Join("\n", LineTexts(SplitToLines(spans))) == Concat(SpanTexts(spans))
  {
    SplitInvHolds(spans);
  }

  /** Read line after line, the segments are those of the spans, span after
      span, each keeping its span's class. */
  lemma SplitKeepsSegments(spans: seq<Span>)
    ensures Flatten(SplitToLines(spans)) == AllSegments(spans)
  {
    SplitInvHolds(spans);
  }

  lemma {:induction false} PieceSegmentsGood(cls: Option<Class>, pieces: seq<string>)
    requires forall i :: 0 <= i < |pieces| ==> '\n' !in pieces[i]
    ensures forall i :: 0 <= i < |PieceSegments(cls, pieces)| ==> GoodSegment(PieceSegments(cls, pieces)[i])
    ensures forall i :: 0 <= i < |PieceSegments(cls, pieces)| ==> PieceSegments(cls, pieces)[i].cls == cls
  {
    if |pieces| > 0 {
      PieceSegmentsGood(cls, pieces[1..]);
    }
  }

  lemma {:induction false} AllSegmentsGood(spans: seq<Span>)
    ensures forall i :: 0 <= i < |AllSegments(spans)| ==> GoodSegment(AllSegments(spans)[i])
  {
    if |spans| > 0 {
      var sp := spans[|spans| - 1];
      AllSegmentsGood(spans[..|spans| - 1]);
      PieceSegmentsGood(sp.cls, Explode('\n', sp.text));
    }
  }

  lemma {:induction false} FlattenHasLine(ls: seq<Line>, i: int, j: int)
    requires 0 <= i < |ls| && 0 <= j < |ls[i]|
    ensures exists k :: 0 <= k < |Flatten(ls)| && Flatten(ls)[k] == ls[i][j]
  {
    if i == 0 {
      assert Flatten(ls)[j] == ls[i][j];
    } else {
      FlattenHasLine(ls[1..], i - 1, j);
      var k :| 0 <= k < |Flatten(ls[1..])| && Flatten(ls[1..])[k] == ls[i][j];
      assert Flatten(ls)[|ls[0]| + k] == ls[i][j];
    }
  }

  /** No stored segment is empty and none holds "\n". */
  lemma SplitSegmentsGood(spans: seq<Span>)
    ensures Segmented(SplitToLines(spans))
  {
    var r := SplitToLines(spans);
    SplitKeepsSegments(spans);
    AllSegmentsGood(spans);
    forall i, j | 0 <= i < |r| && 0 <= j < |r[i]|
      ensures GoodSegment(r[i][j])
    {
      FlattenHasLine(r, i, j);
    }
  }
}
