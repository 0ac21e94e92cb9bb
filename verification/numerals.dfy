/** Decimal rendering and parsing of integers the way the JavaScript runtime does it:
    template-literal interpolation of an integer, `parseInt` without a radix, and
    the white-space class shared by `parseInt` and the regular-expression `\s`. */
module Numerals {
  import opened Wrappers

  predicate IsDigit(c: char) {
    '0' <= c <= '9'
  }

  function DigitValue(c: char): (d: nat)
    requires IsDigit(c)
    ensures d < 10
  {
    (c - '0') as nat
  }

  function DigitChar(d: nat): (c: char)
    requires d < 10
    ensures IsDigit(c) && DigitValue(c) == d
  {
    ('0' as int + d) as char
  }

  predicate IsHexDigit(c: char) {
    IsDigit(c) || 'a' <= c <= 'f' || 'A' <= c <= 'F'
  }

  function HexValue(c: char): (d: nat)
    requires IsHexDigit(c)
    ensures d < 16
  {
    if IsDigit(c) then DigitValue(c)
    else if 'a' <= c <= 'f' then (c - 'a') as nat + 10
    else (c - 'A') as nat + 10
  }

  /** White space and line terminators: the characters `parseInt` skips and `\s` matches. */
  predicate IsSpace(c: char) {
    || c == ' ' || c == '\t' || c == '\n' || c == '\r'
    || c == '\U{000B}' || c == '\U{000C}' || c == '\U{00A0}' || c == '\U{1680}'
    || ('\U{2000}' <= c <= '\U{200A}')
    || c == '\U{2028}' || c == '\U{2029}' || c == '\U{202F}' || c == '\U{205F}'
    || c == '\U{3000}' || c == '\U{FEFF}'
  }

  /** The end of the longest run of characters satisfying `f` that starts at `p`. */
  function SpanWhile(s: string, p: nat, f: char -> bool): (e: nat)
    requires p <= |s|
    ensures p <= e <= |s|
    ensures forall k :: p <= k < e ==> f(s[k])
    ensures e == |s| || !f(s[e])
    decreases |s| - p
  {
    if p == |s| || !f(s[p]) then p else SpanWhile(s, p + 1, f)
  }

  /** The span is fixed by where the run of `f` characters stops. */
  lemma SpanWhileStops(s: string, p: nat, e: nat, f: char -> bool)
    requires p <= e <= |s|
    requires forall k :: p <= k < e ==> f(s[k])
    requires e == |s| || !f(s[e])
    ensures SpanWhile(s, p, f) == e
    decreases e - p
  {
    if p < e {
      SpanWhileStops(s, p + 1, e, f);
    }
  }

  predicate AllDigits(s: string) {
    forall k :: 0 <= k < |s| ==> IsDigit(s[k])
  }

  predicate AllHexDigits(s: string) {
    forall k :: 0 <= k < |s| ==> IsHexDigit(s[k])
  }

  /** The value of a string of decimal digits, most significant first. */
  function ParseDecimal(s: string): nat
    requires AllDigits(s)
  {
    if |s| == 0 then 0 else 10 * ParseDecimal(s[..|s| - 1]) + DigitValue(s[|s| - 1])
  }

  /** The value of a string of hexadecimal digits, most significant first. */
  function ParseHex(s: string): nat
    requires AllHexDigits(s)
  {
    if |s| == 0 then 0 else 16 * ParseHex(s[..|s| - 1]) + HexValue(s[|s| - 1])
  }

  /** `${n}` for a non-negative integer: its shortest decimal rendering. */
  function NatToString(n: nat): (s: string)
    ensures |s| >= 1 && AllDigits(s)
    ensures s[0] == '0' ==> n == 0
  {
    if n < 10 then [DigitChar(n)] else NatToString(n / 10) + [DigitChar(n % 10)]
  }

  /** `${i}` for any integer: a minus sign before the magnitude when negative. */
  function IntToString(i: int): (s: string)
    ensures |s| >= 1
    ensures i >= 0 ==> AllDigits(s)
    ensures i < 0 ==> s[0] == '-' && AllDigits(s[1..])
  {
    if i < 0 then "-" + NatToString(-i) else NatToString(i)
  }

  /** The sign read by `parseInt` at `p` (after the white space) and where the digits start. */
  function SignAt(s: string, p: nat): (r: (int, nat))
    requires p <= |s|
    ensures r.0 == 1 || r.0 == -1
    ensures p <= r.1 <= |s| && r.1 <= p + 1
  {
    if p < |s| && s[p] == '-' then (-1, p + 1)
    else if p < |s| && s[p] == '+' then (1, p + 1)
    else (1, p)
  }

  predicate HexPrefixAt(s: string, j: nat) {
    j + 1 < |s| && s[j] == '0' && (s[j + 1] == 'x' || s[j + 1] == 'X')
  }

  /** JavaScript `parseInt(s)` with no radix: leading white space, an optional sign,
      then the longest run of hexadecimal digits after `0x`/`0X` or of decimal digits
      otherwise; `None` is `NaN`, the result when that run is empty. */
  function ParseInt(s: string): (r: Option<int>)
    ensures r.Some? ==> exists k :: 0 <= k < |s| && IsHexDigit(s[k])
  {
    var i := SpanWhile(s, 0, IsSpace);
    var (sign, j) := SignAt(s, i);
    if HexPrefixAt(s, j) then
      var e := SpanWhile(s, j + 2, IsHexDigit);
      if e == j + 2 then None
      else
        assert IsHexDigit(s[j + 2]);
        Some(sign * ParseHex(s[j + 2..e]))
    else
      var e := SpanWhile(s, j, IsDigit);
      if e == j then None
      else
        assert IsHexDigit(s[j]);
        Some(sign * ParseDecimal(s[j..e]))
  }

  /** Reading back a rendered natural number gives the number. */
  lemma {:induction false} ParseDecimalOfNatToString(n: nat)
    ensures ParseDecimal(NatToString(n)) == n
  {
    if n >= 10 {
      var s := NatToString(n);
      assert s[..|s| - 1] == NatToString(n / 10);
      ParseDecimalOfNatToString(n / 10);
    }
  }

  /** Rendering is injective: distinct numbers never share a decimal text. */
  lemma NatToStringInjective(a: nat, b: nat)
    requires NatToString(a) == NatToString(b)
    ensures a == b
  {
    ParseDecimalOfNatToString(a);
    ParseDecimalOfNatToString(b);
  }

  /** `parseInt` reads back what interpolation of an integer writes. */
  lemma ParseIntOfIntToString(i: int)
    ensures ParseInt(IntToString(i)) == Some(i)
  {
    var s := IntToString(i);
    var m: nat := if i < 0 then -i else i;
    var ds := NatToString(m);
    var j := if i < 0 then 1 else 0;
    assert s == (if i < 0 then "-" else "") + ds;
    assert !IsSpace(s[0]);
    assert SpanWhile(s, 0, IsSpace) == 0;
    assert SignAt(s, 0) == (if i < 0 then -1 else 1, j);
    assert s[j..] == ds;
    assert !HexPrefixAt(s, j) by {
      if j + 1 < |s| {
        assert s[j + 1] == ds[1];
      }
    }
    SpanAllDigits(s, j);
    assert s[j..|s|] == ds;
    ParseDecimalOfNatToString(m);
  }

  lemma SpanAllDigits(s: string, j: nat)
    requires j <= |s| && AllDigits(s[j..])
    ensures SpanWhile(s, j, IsDigit) == |s|
    decreases |s| - j
  {
    if j < |s| {
      assert IsDigit(s[j..][0]);
      assert s[j + 1..] == s[j..][1..];
      SpanAllDigits(s, j + 1);
    }
  }
}
