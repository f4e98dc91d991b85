/** Newline normalisation done before tokenising:
    `str_replace(["\r\n", "\r"], "\n", source)`. */
module Normalization {
  import opened Text

  /** First pass of `str_replace`: every "\r\n", found left to right, becomes "\n". */
  function ReplaceCrLf(s: string): string
  {
    if |s| == 0 then ""
    else if |s| >= 2 && s[0] == '\r' && s[1] == '\n' then "\n" + ReplaceCrLf(s[2..])
    else [s[0]] + ReplaceCrLf(s[1..])
  }

  /** Second pass of `str_replace`: every "\r" left over becomes "\n". */
  function ReplaceCr(s: string): (r: string)
    ensures |r| == |s|
    ensures '\r' !in r
  {
    seq(|s|, i requires 0 <= i < |s| => if s[i] == '\r' then '\n' else s[i])
  }

  /** The source text with all line breaks written as "\n". */
  function Normalize(s: string): (r: string)
    ensures '\r' !in r
  {
    ReplaceCr(ReplaceCrLf(s))
  }

  /** Whether a Windows line break starts `s`. */
  predicate StartsWithCrLf(s: string)
  {
    |s| >= 2 && s[0] == '\r' && s[1] == '\n'
  }

  /** Number of "\r\n" pairs in `s`. */
  function CrLfCount(s: string): nat
  {
    if |s| < 2 then 0 else (if StartsWithCrLf(s) then 1 else 0) + CrLfCount(s[1..])
  }

  /** The lines of `s` when "\r\n", a lone "\r" and "\n" each end one line:
      the reference reading of a line break, independent of `str_replace`. */
  function UniversalLines(s: string): (r: seq<string>)
    ensures |r| >= 1
  {
    if |s| == 0 then [""]
    else if StartsWithCrLf(s) then [""] + UniversalLines(s[2..])
    else if s[0] == '\r' || s[0] == '\n' then [""] + UniversalLines(s[1..])
    else
      var rest := UniversalLines(s[1..]);
      [[s[0]] + rest[0]] + rest[1..]
  }

  lemma ReplaceCrAppend(a: string, b: string)
    ensures ReplaceCr(a + b) == ReplaceCr(a) + ReplaceCr(b)
  {
  }

  /** Normalisation consumes the source one line break or one character at a time. */
  lemma NormalizeUnfold(s: string)
    requires |s| > 0
    ensures StartsWithCrLf(s) ==> Normalize(s) == "\n" + Normalize(s[2..])
    ensures !StartsWithCrLf(s) ==>
      Normalize(s) == [if s[0] == '\r' then '\n' else s[0]] + Normalize(s[1..])
  {
    if StartsWithCrLf(s) {
      ReplaceCrAppend("\n", ReplaceCrLf(s[2..]));
    } else {
      ReplaceCrAppend([s[0]], ReplaceCrLf(s[1..]));
    }
  }

  /** Splitting the normalised text on "\n" gives exactly the source's lines,
      whichever of the three line-break conventions each break used. */
  lemma {:induction false} NormalizeLines(s: string)
    ensures Explode('\n', Normalize(s)) == UniversalLines(s)
    decreases |s|
  {
    if |s| > 0 {
      NormalizeUnfold(s);
      if StartsWithCrLf(s) {
        NormalizeLines(s[2..]);
        assert ("\n" + Normalize(s[2..]))[1..] == Normalize(s[2..]);
      } else if s[0] == '\r' || s[0] == '\n' {
        NormalizeLines(s[1..]);
        assert ("\n" + Normalize(s[1..]))[1..] == Normalize(s[1..]);
      } else {
        NormalizeLines(s[1..]);
        assert ([s[0]] + Normalize(s[1..]))[1..] == Normalize(s[1..]);
      }
    }
  }

  /** Every line break of the source becomes exactly one "\n", and each
      "\r\n" pair shortens the text by one character. */
  lemma {:induction false} NormalizeCounts(s: string)
    ensures Count(Normalize(s), '\n') == Count(s, '\n') + Count(s, '\r') - CrLfCount(s)
    ensures |Normalize(s)| == |s| - CrLfCount(s)
    decreases |s|
  {
    if |s| > 0 {
      NormalizeUnfold(s);
      if StartsWithCrLf(s) {
        NormalizeCounts(s[2..]);
        assert s[1..][1..] == s[2..];
        assert ("\n" + Normalize(s[2..]))[1..] == Normalize(s[2..]);
        assert CrLfCount(s[1..]) == CrLfCount(s[2..]);
      } else {
        NormalizeCounts(s[1..]);
        var c := if s[0] == '\r' then '\n' else s[0];
        assert ([c] + Normalize(s[1..]))[1..] == Normalize(s[1..]);
      }
    }
  }

  /** Text that already uses "\n" only is left unchanged. */
  lemma {:induction false} NormalizeKeepsUnixText(s: string)
    requires '\r' !in s
    ensures Normalize(s) == s
    decreases |s|
  {
    if |s| > 0 {
      NormalizeUnfold(s);
      assert s[0] in s;
      assert forall c :: c in s[1..] ==> c in s;
      NormalizeKeepsUnixText(s[1..]);
      assert s == [s[0]] + s[1..];
    }
  }

  /** Normalising twice is normalising once. */
  lemma NormalizeIdempotent(s: string)
    ensures Normalize(Normalize(s)) == Normalize(s)
  {
    NormalizeKeepsUnixText(Normalize(s));
  }
}
