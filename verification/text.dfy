/** String helpers with PHP meaning: counting, concatenation, `implode`,
    `explode`, integer-to-string conversion, `str_pad` and `rtrim`. */
module Text {

  /** PHP's null is modelled as `None`. */
  datatype Option<+T> = None | Some(value: T)

  /** Taking the first element off `b` and putting it back. */
  lemma ConsumeFirst<T>(a: seq<T>, b: seq<T>)
    requires |b| > 0
    ensures a + [b[0]] + b[1..] == a + b
  {
    assert b == [b[0]] + b[1..];
  }

  /** Number of occurrences of `c` in `s`. */
  function Count(s: string, c: char): (n: nat)
    ensures n <= |s|
    ensures n == 0 <==> c !in s
  {
    if |s| == 0 then 0 else (if s[0] == c then 1 else 0) + Count(s[1..], c)
  }

  lemma {:induction false} CountAppend(a: string, b: string, c: char)
    ensures Count(a + b, c) == Count(a, c) + Count(b, c)
  {
    if |a| == 0 {
      assert a + b == b;
    } else {
      assert (a + b)[1..] == a[1..] + b;
      CountAppend(a[1..], b, c);
    }
  }

  /** All strings of `ss` glued together in order. */
  function Concat(ss: seq<string>): string
  {
    if |ss| == 0 then "" else ss[0] + Concat(ss[1..])
  }

  lemma {:induction false} ConcatAppend(a: seq<string>, b: seq<string>)
    ensures Concat(a + b) == Concat(a) + Concat(b)
  {
    if |a| == 0 {
      assert a + b == b;
    } else {
      assert (a + b)[1..] == a[1..] + b;
      ConcatAppend(a[1..], b);
    }
  }

  lemma ConcatSnoc(a: seq<string>, s: string)
    ensures Concat(a + [s]) == Concat(a) + s
  {
    ConcatAppend(a, [s]);
    assert Concat([s]) == s + Concat([]);
  }

  /** PHP's `implode(sep, xs)`: the items separated by `sep`; no items give "". */
  function Join(sep: string, xs: seq<string>): string
  {
    if |xs| == 0 then "" else if |xs| == 1 then xs[0] else xs[0] + sep + Join(sep, xs[1..])
  }

  lemma {:induction false} JoinSnoc(sep: string, xs: seq<string>, y: string)
    requires |xs| > 0
    ensures Join(sep, xs + [y]) == Join(sep, xs) + sep + y
  {
    if |xs| == 1 {
      assert xs + [y] == [xs[0], y];
      assert [xs[0], y][1..] == [y];
    } else {
      assert (xs + [y])[1..] == xs[1..] + [y];
      JoinSnoc(sep, xs[1..], y);
    }
  }

  /** Appending text to the last item appends it to the joined string. */
  lemma {:induction false} JoinExtendLast(sep: string, xs: seq<string>, p: string)
    requires |xs| > 0
    ensures Join(sep, xs[..|xs| - 1] + [xs[|xs| - 1] + p]) == Join(sep, xs) + p
  {
    var init := xs[..|xs| - 1];
    var last := xs[|xs| - 1];
    if |xs| == 1 {
    } else {
      assert xs == init + [last];
      JoinSnoc(sep, init, last);
      JoinSnoc(sep, init, last + p);
    }
  }

  /** PHP's `explode(sep, s)` for a one-character separator: the maximal
      pieces between separators, first to last. */
  function Explode(sep: char, s: string): (r: seq<string>)
    ensures |r| == Count(s, sep) + 1
    ensures forall i :: 0 <= i < |r| ==> sep !in r[i]
    decreases |s|
  {
    if |s| == 0 then [""]
    else
      var rest := Explode(sep, s[1..]);
      if s[0] == sep then [""] + rest
      else [[s[0]] + rest[0]] + rest[1..]
  }

  /** `implode` undoes `explode`. */
  lemma {:induction false} JoinExplode(sep: char, s: string)
    ensures Join([sep], Explode(sep, s)) == s
    decreases |s|
  {
    if |s| > 0 {
      var rest := Explode(sep, s[1..]);
      JoinExplode(sep, s[1..]);
      assert s == [s[0]] + s[1..];
      if s[0] == sep {
        assert Explode(sep, s) == [""] + rest;
        JoinCons([sep], "", rest);
      } else {
        assert Explode(sep, s) == [[s[0]] + rest[0]] + rest[1..];
        JoinFirst([sep], s[0], rest);
      }
    }
  }

  lemma JoinFirst(sep: string, c: char, xs: seq<string>)
    requires |xs| > 0
    ensures Join(sep, [[c] + xs[0]] + xs[1..]) == [c] + Join(sep, xs)
  {
    if |xs| == 1 {
      assert [[c] + xs[0]] + xs[1..] == [[c] + xs[0]];
    } else {
      JoinCons(sep, [c] + xs[0], xs[1..]);
      JoinCons(sep, xs[0], xs[1..]);
      assert [xs[0]] + xs[1..] == xs;
    }
  }

  lemma JoinCons(sep: string, x: string, xs: seq<string>)
    requires |xs| > 0
    ensures Join(sep, [x] + xs) == x + sep + Join(sep, xs)
  {
    assert ([x] + xs)[1..] == xs;
  }

  lemma ExplodeCons(sep: char, c: char, t: string)
    requires c != sep
    ensures Explode(sep, [c] + t) == [[c] + Explode(sep, t)[0]] + Explode(sep, t)[1..]
  {
    assert ([c] + t)[0] == c && ([c] + t)[1..] == t;
  }

  /** Exploding `p + s` where `p` holds no separator glues `p` onto the first piece. */
  lemma {:induction false} ExplodePrefix(sep: char, p: string, s: string)
    requires sep !in p
    ensures Explode(sep, p + s) == [p + Explode(sep, s)[0]] + Explode(sep, s)[1..]
    decreases |p|
  {
    if |p| == 0 {
      assert p + s == s;
      assert p + Explode(sep, s)[0] == Explode(sep, s)[0];
      assert Explode(sep, s) == [Explode(sep, s)[0]] + Explode(sep, s)[1..];
    } else {
      var e := Explode(sep, s);
      assert p[0] in p;
      assert p + s == [p[0]] + (p[1..] + s);
      var rest := Explode(sep, p[1..] + s);
      ExplodeCons(sep, p[0], p[1..] + s);
      ExplodePrefix(sep, p[1..], s);
      assert rest == [p[1..] + e[0]] + e[1..];
      SplitFirst(p, e[0]);
    }
  }

  lemma SplitFirst(p: string, t: string)
    requires |p| > 0
    ensures [p[0]] + (p[1..] + t) == p + t
  {
    assert p == [p[0]] + p[1..];
  }

  /** `explode` undoes `implode` when no item holds the separator. */
  lemma {:induction false} ExplodeJoin(sep: char, xs: seq<string>)
    requires |xs| > 0
    requires forall i :: 0 <= i < |xs| ==> sep !in xs[i]
    ensures Explode(sep, Join([sep], xs)) == xs
  {
    if |xs| == 1 {
      ExplodePrefix(sep, xs[0], "");
      assert xs[0] + "" == xs[0];
    } else {
      var tail := Join([sep], xs[1..]);
      ExplodeJoin(sep, xs[1..]);
      assert ([sep] + tail)[1..] == tail;
      assert Explode(sep, [sep] + tail) == [""] + xs[1..];
      assert Join([sep], xs) == xs[0] + ([sep] + tail);
      ExplodePrefix(sep, xs[0], [sep] + tail);
      assert xs[0] + "" == xs[0];
      assert ([""] + xs[1..])[1..] == xs[1..];
    }
  }

  /** A decimal digit. */
  function Digit(d: nat): (c: char)
    requires d < 10
    ensures '0' <= c <= '9'
  {
    (d + 48) as char
  }

  /** PHP's conversion of a non-negative integer to a string: its decimal
      digits, no leading zeros. */
  function Decimal(n: nat): (r: string)
    ensures |r| >= 1
    ensures forall i :: 0 <= i < |r| ==> '0' <= r[i] <= '9'
    ensures |r| > 1 <==> n >= 10
    ensures |r| > 1 ==> r[0] != '0'
  {
    if n < 10 then [Digit(n)] else Decimal(n / 10) + [Digit(n % 10)]
  }

  /** Value of a string of decimal digits. */
  function DigitsValue(s: string): int
  {
    if |s| == 0 then 0 else DigitsValue(s[..|s| - 1]) * 10 + (s[|s| - 1] as int - 48)
  }

  /** Reading the decimal representation back gives the number. */
  lemma {:induction false} DecimalRoundTrip(n: nat)
    ensures DigitsValue(Decimal(n)) == n
  {
    if n >= 10 {
      DecimalRoundTrip(n / 10);
      var d := Decimal(n / 10);
      assert (d + [Digit(n % 10)])[..|d|] == d;
    }
  }

  /** A string of decimal digits without a leading zero. */
  predicate Canonical(s: string)
  {
    && |s| >= 1
    && (forall i :: 0 <= i < |s| ==> '0' <= s[i] <= '9')
    && (|s| > 1 ==> s[0] != '0')
  }

  lemma {:induction false} DigitsValueBounds(s: string)
    requires forall i :: 0 <= i < |s| ==> '0' <= s[i] <= '9'
    ensures DigitsValue(s) >= 0
    ensures |s| > 0 && s[0] != '0' ==> DigitsValue(s) >= 1
  {
    if |s| > 0 {
      DigitsValueBounds(s[..|s| - 1]);
      if |s| > 1 {
        assert s[..|s| - 1][0] == s[0];
      }
    }
  }

  /** `Decimal(n)` is the only digit string without a leading zero that
      reads as `n`, so its length is the digit count of `n`. */
  lemma {:induction false} DecimalUnique(s: string, n: nat)
    requires Canonical(s)
    requires DigitsValue(s) == n
    ensures s == Decimal(n)
  {
    if |s| > 1 {
      var init := s[..|s| - 1];
      var d := s[|s| - 1] as int - 48;
      assert init[0] == s[0];
      DigitsValueBounds(init);
      var v := DigitsValue(init);
      assert n == v * 10 + d && 0 <= d < 10;
      assert n / 10 == v && n % 10 == d;
      DecimalUnique(init, v);
      assert s == init + [Digit(d)];
    } else {
      assert s == [Digit(n)];
    }
  }

  /** Larger numbers never have fewer digits. */
  lemma {:induction false} DecimalLengthMonotone(m: nat, n: nat)
    requires m <= n
    ensures |Decimal(m)| <= |Decimal(n)|
  {
    if m >= 10 {
      DecimalLengthMonotone(m / 10, n / 10);
    }
  }

  /** PHP's `str_pad(s, width, ' ', STR_PAD_LEFT)`. */
  function PadLeft(s: string, width: int): (r: string)
    ensures |r| == if |s| >= width then |s| else width
    ensures r[|r| - |s|..] == s
    ensures forall i :: 0 <= i < |r| - |s| ==> r[i] == ' '
  {
    if |s| >= width then s else seq(width - |s|, _ => ' ') + s
  }

  /** The characters PHP's `rtrim` removes by default: space, tab, newline,
      carriage return, NUL and vertical tab. */
  predicate IsBlank(c: char)
  {
    c == ' ' || c == '\t' || c == '\n' || c == '\r' || c == 0 as char || c == 11 as char
  }

  /** PHP's `rtrim(s)`: the longest prefix of `s` not ending in a blank. */
  function RTrim(s: string): (r: string)
    ensures r <= s
    ensures |r| == 0 || !IsBlank(r[|r| - 1])
    ensures forall i :: |r| <= i < |s| ==> IsBlank(s[i])
  {
    if |s| == 0 || !IsBlank(s[|s| - 1]) then s else RTrim(s[..|s| - 1])
  }
}
