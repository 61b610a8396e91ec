/**
 * Integer conversions with the semantics of the Python built-ins the pipeline
 * calls: `str(n)`, `int(s)`, `int(x)` on a quotient (truncation toward zero),
 * `min` and `max`.
 */
module Integers {
  import opened Wrappers
  import opened Strings

  predicate IsDigit(c: char) { '0' <= c <= '9' }

  predicate AllDigits(s: string) { forall i :: 0 <= i < |s| ==> IsDigit(s[i]) }

  function DigitValue(c: char): nat
    requires IsDigit(c)
  {
    (c as int) - ('0' as int)
  }

  function DigitChar(d: nat): (c: char)
    requires d < 10
    ensures IsDigit(c) && DigitValue(c) == d
  {
    ('0' as int + d) as char
  }

  /** The decimal digits of `n`, most significant first, without leading zeros. */
  function NatToString(n: nat): (s: string)
    ensures |s| >= 1 && AllDigits(s)
  {
    if n < 10 then [DigitChar(n)] else NatToString(n / 10) + [DigitChar(n % 10)]
  }

  /** `str(n)` for an int. */
  function IntToString(n: int): string
  {
    if n < 0 then "-" + NatToString(-n) else NatToString(n)
  }

  /** The number a string of decimal digits denotes. */
  function DigitsValue(d: string): nat
    requires AllDigits(d)
  {
    if |d| == 0 then 0 else DigitsValue(d[..|d| - 1]) * 10 + DigitValue(d[|d| - 1])
  }

  /** Reading back the digits `str` writes gives the number. */
  lemma {:induction false} NatToStringValue(n: nat)
    ensures DigitsValue(NatToString(n)) == n
  {
    if n >= 10 {
      NatToStringValue(n / 10);
      var s := NatToString(n);
      assert s[..|s| - 1] == NatToString(n / 10);
    }
  }

  /**
   * The ASCII whitespace `int(s)` tolerates around the number: space, tab,
   * line feed, carriage return, vertical tab and form feed.
   */
  const Whitespace: string := " \t\n\r\U{B}\U{C}"

  /**
   * The ASCII separator characters `\x1c` to `\x1f` are not whitespace to
   * `int(s)`: a text that starts with one is rejected, whatever follows.
   */
  lemma SeparatorNotWhitespace(rest: string)
    ensures ParseInt(['\U{1C}'] + rest) == None
  {
    var t := ['\U{1C}'] + rest;
    assert t[0] !in Whitespace;
    assert StripLeft(t, Whitespace) == t;
    var r := StripRight(t, Whitespace);
    StripRightRemoved(t, Whitespace);
    assert r != [] && r[0] == '\U{1C}';
    assert !DigitGroups(r);
  }

  /** Digits, possibly grouped by single underscores, as `int(s)` accepts them. */
  predicate DigitGroups(t: string)
  {
    && |t| > 0
    && IsDigit(t[0])
    && IsDigit(t[|t| - 1])
    && (forall i :: 0 <= i < |t| ==> IsDigit(t[i]) || t[i] == '_')
    && (forall i :: 0 <= i < |t| - 1 ==> !(t[i] == '_' && t[i + 1] == '_'))
  }

  function DropUnderscores(t: string): (r: string)
    ensures forall i :: 0 <= i < |r| ==> r[i] != '_' && r[i] in t
  {
    if |t| == 0 then ""
    else if t[0] == '_' then DropUnderscores(t[1..])
    else [t[0]] + DropUnderscores(t[1..])
  }

  lemma {:induction false} DropUnderscoresNone(t: string)
    requires '_' !in t
    ensures DropUnderscores(t) == t
  {
    if |t| > 0 {
      DropUnderscoresNone(t[1..]);
      assert [t[0]] + t[1..] == t;
    }
  }

  function ParseUnsigned(t: string): Option<nat>
  {
    if DigitGroups(t) then
      var d := DropUnderscores(t);
      assert AllDigits(d);
      Some(DigitsValue(d))
    else None
  }

  /**
   * `int(s)`: surrounding whitespace, an optional sign, then digits. `None`
   * stands for the `ValueError` Python raises for anything else.
   */
  function ParseInt(s: string): Option<int>
  {
    ParseSigned(Strip(s, Whitespace))
  }

  /** An optional sign followed by digits. */
  function ParseSigned(t: string): Option<int>
  {
    if |t| > 0 && (t[0] == '-' || t[0] == '+') then
      match ParseUnsigned(t[1..])
      case Some(v) =>
        var n: int := if t[0] == '-' then -(v as int) else v;
        Some(n)
      case None => None
    else ParseUnsigned(t)
  }

  /** A non-empty string of digits parses to the number it denotes. */
  lemma ParseDigits(d: string)
    requires |d| > 0 && AllDigits(d)
    ensures ParseInt(d) == Some(DigitsValue(d))
  {
    ParseDigitsUnsigned(d);
    ParseUnsignedDigits(d);
  }

  lemma ParseDigitsUnsigned(d: string)
    requires |d| > 0 && AllDigits(d)
    ensures ParseInt(d) == ParseUnsigned(d)
  {
    ParseDigitsStripped(d);
    UnsignedAsSigned(d);
  }

  lemma ParseDigitsStripped(d: string)
    requires |d| > 0 && AllDigits(d)
    ensures ParseInt(d) == ParseSigned(d)
  {
    StripDigits(d);
  }

  lemma UnsignedAsSigned(d: string)
    requires |d| > 0 && IsDigit(d[0])
    ensures ParseSigned(d) == ParseUnsigned(d)
  {
  }

  lemma StripDigits(d: string)
    requires |d| > 0 && AllDigits(d)
    ensures Strip(d, Whitespace) == d
  {
    DigitNotSpace(d[0]);
    DigitNotSpace(d[|d| - 1]);
    StripAround([], d, [], Whitespace);
    assert [] + d + [] == d;
  }

  lemma ParseUnsignedDigits(d: string)
    requires |d| > 0 && AllDigits(d)
    ensures ParseUnsigned(d) == Some(DigitsValue(d))
  {
    assert DigitGroups(d);
    assert '_' !in d;
    DropUnderscoresNone(d);
  }

  lemma DigitNotSpace(c: char)
    requires IsDigit(c)
    ensures c !in Whitespace
  {
  }

  /** A minus sign followed by digits parses to the negated value of the digits. */
  lemma ParseNegative(d: string, v: nat)
    requires |d| > 0 && AllDigits(d) && ParseUnsigned(d) == Some(v)
    ensures ParseInt("-" + d) == Some(-(v as int))
  {
    StripNegative(d);
    SignedNegative(d, v);
  }

  /** A minus sign followed by digits has no whitespace to strip. */
  lemma StripNegative(d: string)
    requires |d| > 0 && AllDigits(d)
    ensures Strip("-" + d, Whitespace) == "-" + d
  {
    var s := "-" + d;
    assert s[0] == '-' && '-' !in Whitespace;
    assert s[|s| - 1] == d[|d| - 1];
    DigitNotSpace(d[|d| - 1]);
    StripAround([], s, [], Whitespace);
    assert [] + s + [] == s;
  }

  /** A minus sign before an unsigned number negates it. */
  lemma SignedNegative(d: string, v: nat)
    requires ParseUnsigned(d) == Some(v)
    ensures ParseSigned("-" + d) == Some(-(v as int))
  {
    assert ("-" + d)[1..] == d;
  }

  /** `int(str(n)) == n`. */
  lemma ParseIntToString(n: int)
    ensures ParseInt(IntToString(n)) == Some(n)
  {
    var m: nat := if n < 0 then -n else n;
    var digits := NatToString(m);
    NatToStringValue(m);
    if n < 0 {
      ParseUnsignedDigits(digits);
      ParseNegative(digits, m);
    } else {
      ParseDigits(digits);
    }
  }

  /** `int(a / b)` for exact `a / b`: the quotient truncated toward zero. */
  function TruncDiv(a: int, b: int): int
    requires b != 0
  {
    var q := (if a < 0 then -a else a) / (if b < 0 then -b else b);
    if (a < 0) == (b < 0) then q else -q
  }

  lemma MulAtLeast(m: int, n: int)
    requires n > 0 && m >= 1
    ensures m * n >= n
  {
  }

  /** Euclidean division is determined by quotient and remainder. */
  lemma DivUnique(a: int, n: int, q: int, r: int)
    requires n > 0 && 0 <= r < n && a == q * n + r
    ensures a / n == q
  {
    var q', r' := a / n, a % n;
    assert q' * n + r' == q * n + r;
    if q' > q {
      assert (q' - q) * n == r - r';
      MulAtLeast(q' - q, n);
    } else if q' < q {
      assert (q - q') * n == r' - r;
      MulAtLeast(q - q', n);
    }
  }

  /** `min(s)`. */
  function SeqMin(s: seq<int>): (m: int)
    requires |s| > 0
    ensures m in s && forall x :: x in s ==> m <= x
  {
    if |s| == 1 then s[0]
    else
      var rest := SeqMin(s[1..]);
      assert forall x :: x in s ==> x == s[0] || x in s[1..];
      if s[0] <= rest then s[0] else rest
  }

  /** `max(s)`. */
  function SeqMax(s: seq<int>): (m: int)
    requires |s| > 0
    ensures m in s && forall x :: x in s ==> x <= m
  {
    if |s| == 1 then s[0]
    else
      var rest := SeqMax(s[1..]);
      assert forall x :: x in s ==> x == s[0] || x in s[1..];
      if s[0] >= rest then s[0] else rest
  }
}
