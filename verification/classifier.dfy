/** The classifier (`tokenize`): maps each token of PHP's lexer to one of
    five highlighting classes and merges consecutive tokens of one class
    into a span. */
module Classifier {
  import opened Text

  /** The five highlighting classes. */
  datatype Class = Default | Comment | String | Html | Keyword

  /** The one-letter constant of each class (`TOKEN_DEFAULT` = 'd', ...);
      it is the style name handed to the colour function. */
  function Code(c: Class): char
  {
    match c
    case Default => 'd'
    case Comment => 'c'
    case String => 's'
    case Html => 'h'
    case Keyword => 'k'
  }

  /** The class a one-letter constant stands for, if any. */
  function ClassOfCode(ch: char): Option<Class>
  {
    if ch == 'd' then Some(Default)
    else if ch == 'c' then Some(Comment)
    else if ch == 's' then Some(String)
    else if ch == 'h' then Some(Html)
    else if ch == 'k' then Some(Keyword)
    else None
  }

  /** The one-letter constants name the classes one-to-one. */
  lemma CodeRoundTrip(c: Class, ch: char)
    ensures ClassOfCode(Code(c)) == Some(c)
    ensures ClassOfCode(ch) == Some(c) ==> Code(c) == ch
  {
  }

  /** Token kinds of PHP's lexer that the classification table names; every
      other kind is `Other`. */
  datatype Kind =
    | InlineHtml | LineComment | DocComment
    | EncapsedAndWhitespace | ConstantEncapsedString
    | Whitespace
    | OpenTag | OpenTagWithEcho | CloseTag
    | Identifier | Variable | Dir | DNumber | LNumber
    | Other(id: int)

  /** A lexer token: a (kind, text) pair, or a bare one-character token. */
  datatype Token = Structured(kind: Kind, text: string) | Raw(ch: char)

  /** The source text a token covers. */
  function TokenText(t: Token): string
  {
    match t
    case Structured(_, text) => text
    case Raw(ch) => [ch]
  }

  /** The classification table: the class a token starts, or `None` for
      whitespace, which starts none. */
  function NewType(t: Token): (r: Option<Class>)
    ensures r == None <==> t.Structured? && t.kind == Whitespace
    ensures t.Raw? ==> r == Some(if t.ch == '"' then String else Keyword)
    ensures t.Structured? && t.kind.Other? ==> r == Some(Keyword)
  {
    match t
    case Raw(ch) => if ch == '"' then Some(String) else Some(Keyword)
    case Structured(kind, _) =>
      match kind
      case InlineHtml => Some(Html)
      case LineComment => Some(Comment)
      case DocComment => Some(Comment)
      case EncapsedAndWhitespace => Some(String)
      case ConstantEncapsedString => Some(String)
      case Whitespace => None
      case OpenTag => Some(Default)
      case OpenTagWithEcho => Some(Default)
      case CloseTag => Some(Default)
      case Identifier => Some(Default)
      case Variable => Some(Default)
      case Dir => Some(Default)
      case DNumber => Some(Default)
      case LNumber => Some(Default)
      case Other(_) => Some(Keyword)
  }

  /** A run of text under one class; `None` stands for PHP's null class. */
  datatype Span = Span(cls: Option<Class>, text: string)

  /** The loop variables of `tokenize`: the spans emitted so far,
      `$currentType`, `$newType` (which keeps its value across whitespace
      tokens) and `$buffer`. */
  datatype State = State(output: seq<Span>, current: Option<Class>, newType: Option<Class>, buffer: string)

  const Init := State([], None, None, "")

  /** One iteration of the `foreach` loop of `tokenize`. */
  function Step(st: State, t: Token): State
  {
    var newType := if NewType(t).Some? then NewType(t) else st.newType;
    var current := if st.current == None then newType else st.current;
    if current != newType then
      State(st.output + [Span(current, st.buffer)], newType, newType, TokenText(t))
    else
      State(st.output, current, newType, st.buffer + TokenText(t))
  }

  /** The loop over all tokens. */
  function Run(st: State, ts: seq<Token>): State
    decreases |ts|
  {
    if |ts| == 0 then st else Run(Step(st, ts[0]), ts[1..])
  }

  /** `tokenize`: after the loop the last buffer is emitted under `$newType`,
      so an empty token stream gives one span with no class and no text. */
  function Tokenize(ts: seq<Token>): (r: seq<Span>)
    ensures |r| >= 1
    ensures |ts| == 0 ==> r == [Span(None, "")]
  {
    var st := Run(Init, ts);
    st.output + [Span(st.newType, st.buffer)]
  }

  /** The texts of the tokens, in order. */
  function TokenTexts(ts: seq<Token>): (r: seq<string>)
    ensures |r| == |ts|
  {
    seq(|ts|, i requires 0 <= i < |ts| => TokenText(ts[i]))
  }

  /** The texts of the spans, in order. */
  function SpanTexts(ss: seq<Span>): (r: seq<string>)
    ensures |r| == |ss|
  {
    seq(|ss|, i requires 0 <= i < |ss| => ss[i].text)
  }

  /** The classes of the spans, in order. */
  function SpanClasses(ss: seq<Span>): (r: seq<Option<Class>>)
    ensures |r| == |ss|
  {
    seq(|ss|, i requires 0 <= i < |ss| => ss[i].cls)
  }

  /** The classes of the non-whitespace tokens, in order. */
  function Classes(ts: seq<Token>): (r: seq<Option<Class>>)
    ensures forall i :: 0 <= i < |r| ==> r[i].Some?
  {
    if |ts| == 0 then []
    else
      var last := NewType(ts[|ts| - 1]);
      Classes(ts[..|ts| - 1]) + (if last.Some? then [last] else [])
  }

  /** `cs` with every run of equal neighbours collapsed to one element. */
  function Dedup<T(==)>(cs: seq<T>): (r: seq<T>)
    ensures |r| <= |cs|
    ensures |r| == 0 <==> |cs| == 0
    ensures |r| > 0 ==> r[|r| - 1] == cs[|cs| - 1]
    ensures forall i :: 0 < i < |r| ==> r[i - 1] != r[i]
  {
    if |cs| == 0 then []
    else
      var d := Dedup(cs[..|cs| - 1]);
      if |d| > 0 && d[|d| - 1] == cs[|cs| - 1] then d else d + [cs[|cs| - 1]]
  }

  /* ---------- loop invariants of tokenize ---------- */

  /** Text kept so far: the emitted spans and the buffer hold exactly the
      texts of the tokens consumed. */
  ghost predicate TextKept(st: State, consumed: seq<Token>)
  {
    Concat(SpanTexts(st.output)) + st.buffer == Concat(TokenTexts(consumed))
  }

  /** Classes so far: `$currentType` equals `$newType`; it is null exactly
      while no classified token has been seen, and then nothing was emitted;
      otherwise the emitted classes followed by it are the deduplicated
      classes of the tokens consumed. */
  ghost predicate ClassesKept(st: State, consumed: seq<Token>)
  {
    && st.current == st.newType
    && (Classes(consumed) == [] <==> st.current == None)
    && (Classes(consumed) == [] ==> st.output == [])
    && (Classes(consumed) != [] ==>
          SpanClasses(st.output) + [st.current] == Dedup(Classes(consumed)))
  }

  /** Every token text is non-empty. */
  ghost predicate NonEmptyTokens(ts: seq<Token>)
  {
    forall i :: 0 <= i < |ts| ==> TokenText(ts[i]) != ""
  }

  /** Emptiness so far: no emitted span is empty, and the buffer is
      non-empty once a token has been consumed. */
  ghost predicate NoEmptySpans(st: State, consumed: seq<Token>)
  {
    && (forall i :: 0 <= i < |st.output| ==> st.output[i].text != "")
    && (|consumed| > 0 ==> st.buffer != "")
    && (|consumed| == 0 ==> st.current == None && st.output == [])
  }

  lemma TextsSnoc(ts: seq<Token>, t: Token, ss: seq<Span>, s: Span)
    ensures TokenTexts(ts + [t]) == TokenTexts(ts) + [TokenText(t)]
    ensures SpanTexts(ss + [s]) == SpanTexts(ss) + [s.text]
    ensures SpanClasses(ss + [s]) == SpanClasses(ss) + [s.cls]
  {
    assert TokenTexts(ts + [t]) == TokenTexts(ts) + [TokenText(t)];
    assert SpanTexts(ss + [s]) == SpanTexts(ss) + [s.text];
    assert SpanClasses(ss + [s]) == SpanClasses(ss) + [s.cls];
  }

  lemma StepKeepsText(st: State, consumed: seq<Token>, t: Token)
    requires TextKept(st, consumed)
    ensures TextKept(Step(st, t), consumed + [t])
  {
    var st' := Step(st, t);
    TextsSnoc(consumed, t, st.output, Span(st.current, st.buffer));
    ConcatSnoc(TokenTexts(consumed), TokenText(t));
    if st'.output != st.output {
      ConcatSnoc(SpanTexts(st.output), st.buffer);
    }
  }

  lemma ClassesSnoc(ts: seq<Token>, t: Token)
    ensures Classes(ts + [t]) == Classes(ts) + (if NewType(t).Some? then [NewType(t)] else [])
  {
    assert (ts + [t])[..|ts|] == ts;
  }

  lemma StepKeepsClasses(st: State, consumed: seq<Token>, t: Token)
    requires ClassesKept(st, consumed)
    ensures ClassesKept(Step(st, t), consumed + [t])
  {
    ClassesSnoc(consumed, t);
    TextsSnoc(consumed, t, st.output, Span(st.current, st.buffer));
    var cs := Classes(consumed);
    var c := NewType(t);
    if c.Some? {
      assert (cs + [c])[..|cs|] == cs;
      var d := Dedup(cs);
      if cs == [] {
        assert Dedup(cs + [c]) == [c];
      } else {
        assert d == SpanClasses(st.output) + [st.current];
        assert d[|d| - 1] == st.current;
        if c == st.current {
          assert Dedup(cs + [c]) == d;
        } else {
          assert Dedup(cs + [c]) == d + [c];
        }
      }
    } else {
      assert Classes(consumed + [t]) == cs + [] == cs;
    }
  }

  lemma StepKeepsNonEmpty(st: State, consumed: seq<Token>, t: Token)
    requires NoEmptySpans(st, consumed)
    requires TokenText(t) != ""
    ensures NoEmptySpans(Step(st, t), consumed + [t])
  {
  }

  lemma {:induction false} RunKeepsText(st: State, consumed: seq<Token>, ts: seq<Token>)
    requires TextKept(st, consumed)
    ensures TextKept(Run(st, ts), consumed + ts)
    decreases |ts|
  {
    if |ts| == 0 {
      assert consumed + ts == consumed;
    } else {
      StepKeepsText(st, consumed, ts[0]);
      RunKeepsText(Step(st, ts[0]), consumed + [ts[0]], ts[1..]);
      ConsumeFirst(consumed, ts);
    }
  }

  lemma {:induction false} RunKeepsClasses(st: State, consumed: seq<Token>, ts: seq<Token>)
    requires ClassesKept(st, consumed)
    ensures ClassesKept(Run(st, ts), consumed + ts)
    decreases |ts|
  {
    if |ts| == 0 {
      assert consumed + ts == consumed;
    } else {
      StepKeepsClasses(st, consumed, ts[0]);
      RunKeepsClasses(Step(st, ts[0]), consumed + [ts[0]], ts[1..]);
      ConsumeFirst(consumed, ts);
    }
  }

  lemma {:induction false} RunKeepsNonEmpty(st: State, consumed: seq<Token>, ts: seq<Token>)
    requires NoEmptySpans(st, consumed)
    requires NonEmptyTokens(ts)
    ensures NoEmptySpans(Run(st, ts), consumed + ts)
    decreases |ts|
  {
    if |ts| == 0 {
      assert consumed + ts == consumed;
    } else {
      StepKeepsNonEmpty(st, consumed, ts[0]);
      RunKeepsNonEmpty(Step(st, ts[0]), consumed + [ts[0]], ts[1..]);
      ConsumeFirst(consumed, ts);
    }
  }

  /* ---------- reference coalescing ---------- */

  /** The class of the last classified token of `ts`, if any. */
  function LastClass(ts: seq<Token>): Option<Class>
  {
    if |ts| == 0 then None
    else if NewType(ts[|ts| - 1]).Some? then NewType(ts[|ts| - 1])
    else LastClass(ts[..|ts| - 1])
  }

  /** The class of the first classified token of `ts`, if any. */
  function FirstClass(ts: seq<Token>): Option<Class>
  {
    if |ts| == 0 then None
    else if NewType(ts[0]).Some? then NewType(ts[0])
    else FirstClass(ts[1..])
  }

  /** No token of `ts` starts a class. */
  ghost predicate Unclassified(ts: seq<Token>)
  {
    forall i :: 0 <= i < |ts| ==> NewType(ts[i]) == None
  }

  /** The class token `i` is shown in: that of the last classified token up
      to it; whitespace before the first classified token takes that
      token's class. */
  function ShownClass(ts: seq<Token>, i: nat): Option<Class>
    requires i < |ts|
  {
    if LastClass(ts[..i + 1]).Some? then LastClass(ts[..i + 1]) else FirstClass(ts)
  }

  /** Every token labelled with the class it is shown in. */
  function Labels(ts: seq<Token>): (r: seq<Span>)
    ensures |r| == |ts|
  {
    seq(|ts|, i requires 0 <= i < |ts| => Span(ShownClass(ts, i), TokenText(ts[i])))
  }

  /** Neighbouring spans of one class merged into one. */
  function Coalesce(ss: seq<Span>): (r: seq<Span>)
    ensures |ss| > 0 ==> |r| > 0 && r[|r| - 1].cls == ss[|ss| - 1].cls
  {
    if |ss| == 0 then []
    else
      var c := Coalesce(ss[..|ss| - 1]);
      var x := ss[|ss| - 1];
      if |c| > 0 && c[|c| - 1].cls == x.cls then c[..|c| - 1] + [Span(x.cls, c[|c| - 1].text + x.text)]
      else c + [x]
  }

  lemma {:induction false} LastClassNone(ts: seq<Token>)
    ensures LastClass(ts) == None <==> Unclassified(ts)
  {
    if |ts| > 0 {
      var init := ts[..|ts| - 1];
      LastClassNone(init);
      assert forall i :: 0 <= i < |init| ==> init[i] == ts[i];
    }
  }

  /** Whitespace in front of the first classified token does not change
      which token that is. */
  lemma {:induction false} FirstClassAfter(p: seq<Token>, t: Token, ts: seq<Token>)
    requires |p| < |ts| && ts[..|p|] == p && ts[|p|] == t
    requires Unclassified(p) && NewType(t).Some?
    ensures FirstClass(ts) == NewType(t)
  {
    if |p| > 0 {
      assert NewType(ts[0]) == NewType(p[0]) == None;
      assert ts[1..][..|p| - 1] == p[1..];
      FirstClassAfter(p[1..], t, ts[1..]);
    }
  }

  lemma {:induction false} FirstClassNone(ts: seq<Token>)
    requires Unclassified(ts)
    ensures FirstClass(ts) == None
  {
    if |ts| > 0 {
      FirstClassNone(ts[1..]);
    }
  }

  /** Spans of one class coalesce into a single span holding all their text. */
  lemma {:induction false} CoalesceUniform(ss: seq<Span>, c: Option<Class>)
    requires |ss| > 0
    requires forall i :: 0 <= i < |ss| ==> ss[i].cls == c
    ensures Coalesce(ss) == [Span(c, Concat(SpanTexts(ss)))]
  {
    var init := ss[..|ss| - 1];
    var x := ss[|ss| - 1];
    assert ss == init + [x];
    TextsSnoc([], Raw(' '), init, x);
    ConcatSnoc(SpanTexts(init), x.text);
    if |init| > 0 {
      CoalesceUniform(init, c);
      assert Coalesce(ss) == [Span(c, Concat(SpanTexts(init)) + x.text)];
    } else {
      assert SpanTexts(init) == [];
      assert Concat(SpanTexts(ss)) == x.text;
      assert x == Span(c, x.text);
      assert Coalesce(ss) == [x];
    }
  }

  lemma LabelsTexts(ts: seq<Token>, k: nat)
    requires k <= |ts|
    ensures SpanTexts(Labels(ts)[..k]) == TokenTexts(ts[..k])
  {
  }

  /** What the loop of `tokenize` has built after the tokens `p` of `ts`:
      while no token was classified, only the buffer holds their text;
      afterwards the emitted spans and the open buffer are the coalesced
      labels of `p`. */
  ghost predicate Agrees(st: State, p: seq<Token>, ts: seq<Token>)
  {
    && |p| <= |ts| && ts[..|p|] == p
    && (Unclassified(p) ==> st == State([], None, None, Concat(TokenTexts(p))))
    && (!Unclassified(p) ==>
          && st.current == st.newType == LastClass(p)
          && st.output + [Span(st.newType, st.buffer)] == Coalesce(Labels(ts)[..|p|]))
  }

  lemma StepAgreesFirst(st: State, p: seq<Token>, t: Token, ts: seq<Token>)
    requires Agrees(st, p, ts) && |p| < |ts| && ts[|p|] == t
    requires Unclassified(p) && NewType(t).Some?
    ensures Agrees(Step(st, t), p + [t], ts)
  {
    var c := NewType(t);
    var q := p + [t];
    assert ts[..|q|] == q;
    assert q[|q| - 1] == t;
    assert !Unclassified(q);
    assert LastClass(q) == c;
    FirstClassAfter(p, t, ts);
    var ls := Labels(ts)[..|q|];
    forall i | 0 <= i < |ls|
      ensures ls[i].cls == c
    {
      if i < |p| {
        assert ts[..i + 1] == p[..i + 1];
        LastClassNone(p[..i + 1]);
      } else {
        assert ts[..i + 1] == q;
      }
    }
    CoalesceUniform(ls, c);
    LabelsTexts(ts, |q|);
    TextsSnoc(p, t, [], Span(None, ""));
    ConcatSnoc(TokenTexts(p), TokenText(t));
  }

  lemma StepAgreesLater(st: State, p: seq<Token>, t: Token, ts: seq<Token>)
    requires Agrees(st, p, ts) && |p| < |ts| && ts[|p|] == t
    requires !Unclassified(p)
    ensures Agrees(Step(st, t), p + [t], ts)
  {
    var q := p + [t];
    assert ts[..|q|] == q;
    assert q[..|p|] == p;
    assert !Unclassified(q) by {
      var i :| 0 <= i < |p| && NewType(p[i]) != None;
      assert q[i] == p[i];
    }
    LastClassNone(p);
    var x := Labels(ts)[|p|];
    assert ts[..|p| + 1] == q;
    assert x == Span(LastClass(q), TokenText(t));
    assert Labels(ts)[..|q|] == Labels(ts)[..|p|] + [x];
    assert Labels(ts)[..|q|][..|p|] == Labels(ts)[..|p|];
  }

  lemma StepAgrees(st: State, p: seq<Token>, t: Token, ts: seq<Token>)
    requires Agrees(st, p, ts) && |p| < |ts| && ts[|p|] == t
    ensures Agrees(Step(st, t), p + [t], ts)
  {
    var q := p + [t];
    assert ts[..|q|] == q;
    if Unclassified(p) {
      if NewType(t).Some? {
        StepAgreesFirst(st, p, t, ts);
      } else {
        assert Unclassified(q);
        TextsSnoc(p, t, [], Span(None, ""));
        ConcatSnoc(TokenTexts(p), TokenText(t));
      }
    } else {
      StepAgreesLater(st, p, t, ts);
    }
  }

  lemma {:induction false} RunAgrees(st: State, p: seq<Token>, rest: seq<Token>, ts: seq<Token>)
    requires p + rest == ts
    requires Agrees(st, p, ts)
    ensures Agrees(Run(st, rest), ts, ts)
    decreases |rest|
  {
    if |rest| == 0 {
      assert p == ts;
    } else {
      StepAgrees(st, p, rest[0], ts);
      ConsumeFirst(p, rest);
      RunAgrees(Step(st, rest[0]), p + [rest[0]], rest[1..], ts);
    }
  }

  /* ---------- properties of tokenize ---------- */

  /** Coalescing loses nothing: the span texts put together are the token
      texts put together, whitespace included. */
  lemma TokenizeKeepsText(ts: seq<Token>)
    ensures Concat(SpanTexts(Tokenize(ts))) == Concat(TokenTexts(ts))
  {
    assert TextKept(Init, []);
    RunKeepsText(Init, [], ts);
    var st := Run(Init, ts);
    assert [] + ts == ts;
    TextsSnoc([], Raw(' '), st.output, Span(st.newType, st.buffer));
    ConcatSnoc(SpanTexts(st.output), st.buffer);
  }

  /** The span classes are the classes of the non-whitespace tokens with
      repeats collapsed; with no classified token there is one span whose
      class is null. */
  lemma TokenizeClasses(ts: seq<Token>)
    ensures Classes(ts) == [] ==> SpanClasses(Tokenize(ts)) == [None]
    ensures Classes(ts) != [] ==> SpanClasses(Tokenize(ts)) == Dedup(Classes(ts))
  {
    assert ClassesKept(Init, []);
    RunKeepsClasses(Init, [], ts);
    var st := Run(Init, ts);
    assert [] + ts == ts;
    TextsSnoc([], Raw(' '), st.output, Span(st.newType, st.buffer));
  }

  /** Coalescing is maximal: no two neighbouring spans share a class. */
  lemma TokenizeMaximal(ts: seq<Token>)
    ensures forall i :: 0 < i < |Tokenize(ts)| ==> Tokenize(ts)[i - 1].cls != Tokenize(ts)[i].cls
  {
    TokenizeClasses(ts);
    var r := Tokenize(ts);
    forall i | 0 < i < |r|
      ensures r[i - 1].cls != r[i].cls
    {
      assert SpanClasses(r)[i - 1] == r[i - 1].cls;
      assert SpanClasses(r)[i] == r[i].cls;
    }
  }

  /** Which text carries which class: the spans are exactly the tokens,
      each labelled with the class it is shown in, with neighbours of one
      class merged. */
  lemma TokenizeIsCoalescedLabels(ts: seq<Token>)
    requires |ts| > 0
    ensures Tokenize(ts) == Coalesce(Labels(ts))
  {
    assert Agrees(Init, [], ts);
    RunAgrees(Init, [], ts, ts);
    var st := Run(Init, ts);
    assert ts[..|ts|] == ts;
    assert Labels(ts)[..|ts|] == Labels(ts);
    if Unclassified(ts) {
      UnclassifiedLabels(ts);
    }
  }

  /** With no classified token, the labels coalesce into one span of null
      class holding all the text. */
  lemma UnclassifiedLabels(ts: seq<Token>)
    requires |ts| > 0 && Unclassified(ts)
    ensures Coalesce(Labels(ts)) == [Span(None, Concat(TokenTexts(ts)))]
  {
    FirstClassNone(ts);
    forall i | 0 <= i < |ts|
      ensures Labels(ts)[i].cls == None
    {
      assert Unclassified(ts[..i + 1]);
      LastClassNone(ts[..i + 1]);
    }
    CoalesceUniform(Labels(ts), None);
    LabelsTexts(ts, |ts|);
    assert ts[..|ts|] == ts && Labels(ts)[..|ts|] == Labels(ts);
  }

  /** Raw characters "a", "b" and the quote give a keyword span "ab" and a
      string span holding the quote. */
  lemma TokenizeExample()
    ensures Tokenize([Raw('a'), Raw('b'), Raw('"')]) == [Span(Some(Keyword), "ab"), Span(Some(String), "\"")]
  {
    var ts := [Raw('a'), Raw('b'), Raw('"')];
    var k := Some(Keyword);
    var s1 := Step(Init, ts[0]);
    assert s1 == State([], k, k, "a");
    var s2 := Step(s1, ts[1]);
    assert s2 == State([], k, k, "ab");
    var s3 := Step(s2, ts[2]);
    assert s3 == State([Span(k, "ab")], Some(String), Some(String), "\"");
    assert Run(s3, ts[3..]) == s3;
    assert Run(s2, ts[2..]) == s3;
    assert Run(s1, ts[1..]) == s3;
  }

  /** For a non-empty stream of non-empty tokens no span is empty. */
  lemma TokenizeNoEmptySpan(ts: seq<Token>)
    requires |ts| > 0
    requires NonEmptyTokens(ts)
    ensures forall i :: 0 <= i < |Tokenize(ts)| ==> Tokenize(ts)[i].text != ""
  {
    RunKeepsNonEmpty(Init, [], ts);
    assert [] + ts == ts;
  }
}
