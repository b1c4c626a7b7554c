/** Text operations of Rust's standard library that the engine relies on:
    the decimal rendering of integers (`{}` in `format!`/`write!`) and the
    `str::starts_with` / `str::ends_with` tests of the file-name filters.
    Strings are sequences of characters; for valid UTF-8 text a byte-wise
    prefix or suffix test agrees with the character-wise one used here. */
module Text {

  predicate IsDigit(c: char) {
    '0' <= c <= '9'
  }

  predicate AllDigits(s: string) {
    forall i :: 0 <= i < |s| ==> IsDigit(s[i])
  }

  function DigitChar(d: nat): (c: char)
    requires d < 10
    ensures IsDigit(c) && c as int - '0' as int == d
  {
    ('0' as int + d) as char
  }

  function DigitValue(c: char): (d: nat)
    requires IsDigit(c)
    ensures d < 10
  {
    c as int - '0' as int
  }

  /** The decimal numeral of `n`, most significant digit first, without
      leading zeros. */
  function NatDecimal(n: nat): (s: string)
    ensures |s| >= 1 && AllDigits(s)
    ensures s[0] == '0' <==> n == 0
    ensures s[0] == '0' ==> |s| == 1
    decreases n
  {
    if n < 10 then [DigitChar(n)] else NatDecimal(n / 10) + [DigitChar(n % 10)]
  }

  /** Reads a numeral back; the partner of `NatDecimal`. */
  function ParseDecimal(s: string): nat
    requires AllDigits(s)
  {
    if s == [] then 0 else 10 * ParseDecimal(s[..|s| - 1]) + DigitValue(s[|s| - 1])
  }

  lemma {:induction false} DecimalRoundTrip(n: nat)
    ensures ParseDecimal(NatDecimal(n)) == n
    decreases n
  {
    if n >= 10 {
      var s := NatDecimal(n);
      assert s[..|s| - 1] == NatDecimal(n / 10);
      DecimalRoundTrip(n / 10);
    }
  }

  /** Distinct numbers have distinct numerals. */
  lemma DecimalInjective(a: nat, b: nat)
    requires NatDecimal(a) == NatDecimal(b)
    ensures a == b
  {
    DecimalRoundTrip(a);
    DecimalRoundTrip(b);
  }

  /** The decimal numeral of a signed integer: a minus sign before the
      magnitude when it is negative. */
  function IntDecimal(i: int): (s: string)
    ensures |s| >= 1
    ensures s[0] == '-' <==> i < 0
    ensures AllDigits(if i < 0 then s[1..] else s)
    ensures ParseDecimal(if i < 0 then s[1..] else s) == if i < 0 then -i else i
    ensures var d := if i < 0 then s[1..] else s; |d| >= 1 && (d[0] == '0' ==> |d| == 1)
  {
    if i < 0 then
      DecimalRoundTrip(-i);
      assert ("-" + NatDecimal(-i))[1..] == NatDecimal(-i);
      "-" + NatDecimal(-i)
    else
      DecimalRoundTrip(i);
      NatDecimal(i)
  }

  /** `s.starts_with(p)`, comparing `p` with the front of `s` one
      character at a time. */
  function StartsWith(s: string, p: string): (b: bool)
    ensures b <==> |p| <= |s| && s[..|p|] == p
  {
    if p == [] then true
    else if s == [] then false
    else s[0] == p[0] && StartsWith(s[1..], p[1..])
  }

  /** `s.ends_with(p)`, comparing `p` with the back of `s` one character
      at a time. */
  function EndsWith(s: string, p: string): (b: bool)
    ensures b <==> |p| <= |s| && s[|s| - |p|..] == p
  {
    if p == [] then true
    else if s == [] then false
    else s[|s| - 1] == p[|p| - 1] && EndsWith(s[..|s| - 1], p[..|p| - 1])
  }
}
