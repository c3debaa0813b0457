/**
 * The two PHP conversions between integers and strings that the contact DAO
 * relies on: `intval` applied to a string, and the decimal string PHP makes
 * of an integer when it is stored in a string-typed field.
 */
module PhpStrings {

  /** The characters `intval` skips before a number: space, tab, LF, CR, VT, FF. */
  predicate IsLeadingSpace(c: char) {
    c == ' ' || c == '\t' || c == '\n' || c == '\r' || c == 11 as char || c == 12 as char
  }

  predicate IsDigit(c: char) {
    '0' <= c <= '9'
  }

  predicate AllDigits(s: string) {
    forall i :: 0 <= i < |s| ==> IsDigit(s[i])
  }

  function DigitChar(d: nat): (c: char)
    requires d < 10
    ensures IsDigit(c)
  {
    ('0' as int + d) as char
  }

  function DigitValue(c: char): (d: nat)
    requires IsDigit(c)
    ensures d < 10 && DigitChar(d) == c
  {
    c as int - '0' as int
  }

  /** `s` without its leading whitespace. */
  function SkipSpace(s: string): (t: string)
    ensures |t| <= |s| && t == s[|s| - |t|..]
    ensures t == [] || !IsLeadingSpace(t[0])
  {
    if s != [] && IsLeadingSpace(s[0]) then SkipSpace(s[1..]) else s
  }

  /** The length of the longest prefix of `s` made of decimal digits. */
  function DigitRun(s: string): (n: nat)
    ensures n <= |s|
    ensures AllDigits(s[..n])
    ensures n == |s| || !IsDigit(s[n])
  {
    if s != [] && IsDigit(s[0]) then
      var n := 1 + DigitRun(s[1..]);
      assert s[..n] == [s[0]] + s[1..][..n - 1];
      n
    else
      0
  }

  /** The value of a string of decimal digits, most significant digit first. */
  function DigitsValue(s: string): nat
    requires AllDigits(s)
  {
    if s == [] then 0 else 10 * DigitsValue(s[..|s| - 1]) + DigitValue(s[|s| - 1])
  }

  /**
   * PHP `intval` on a string: leading whitespace is skipped, then an optional
   * sign, then the longest run of decimal digits is read; no digits read as 0.
   */
  function IntVal(s: string): int {
    var t := SkipSpace(s);
    if t != [] && (t[0] == '-' || t[0] == '+') then
      var u := t[1..];
      var m: int := DigitsValue(u[..DigitRun(u)]);
      if t[0] == '-' then -m else m
    else
      DigitsValue(t[..DigitRun(t)])
  }

  /** The decimal digits of a natural number, without leading zeros. */
  function NaturalDecimal(n: nat): (s: string)
    ensures |s| > 0 && AllDigits(s)
  {
    if n < 10 then [DigitChar(n)] else NaturalDecimal(n / 10) + [DigitChar(n % 10)]
  }

  /** The string PHP makes of an integer, as `setSeqNo(int)` stores it in a string field. */
  function Decimal(n: int): (s: string) {
    if n < 0 then "-" + NaturalDecimal(-n) else NaturalDecimal(n)
  }

  lemma {:induction false} NaturalDecimalValue(n: nat)
    ensures DigitsValue(NaturalDecimal(n)) == n
  {
    if n >= 10 {
      var s := NaturalDecimal(n);
      assert s[..|s| - 1] == NaturalDecimal(n / 10);
      NaturalDecimalValue(n / 10);
    }
  }

  lemma {:induction false} DigitRunOfDigits(s: string)
    requires AllDigits(s)
    ensures DigitRun(s) == |s|
  {
    if s != [] {
      DigitRunOfDigits(s[1..]);
    }
  }

  /** `intval` reads an unsigned digit string as its value. */
  lemma IntValOfNatural(n: nat)
    ensures IntVal(NaturalDecimal(n)) == n
  {
    var d := NaturalDecimal(n);
    NaturalDecimalValue(n);
    DigitRunOfDigits(d);
    assert d[..|d|] == d;
    assert !IsLeadingSpace(d[0]) && d[0] != '-' && d[0] != '+';
    assert SkipSpace(d) == d;
  }

  /** `intval` reads a minus sign followed by digits as the negated value. */
  lemma IntValOfNegative(n: nat)
    requires n > 0
    ensures IntVal("-" + NaturalDecimal(n)) == -(n as int)
  {
    var d := NaturalDecimal(n);
    var s := "-" + d;
    NaturalDecimalValue(n);
    DigitRunOfDigits(d);
    assert d[..|d|] == d;
    assert s[0] == '-' && !IsLeadingSpace(s[0]);
    assert SkipSpace(s) == s;
    assert s[1..] == d;
  }

  /** Reading back the string PHP makes of an integer gives that integer. */
  lemma IntValOfDecimal(n: int)
    ensures IntVal(Decimal(n)) == n
  {
    if n < 0 {
      IntValOfNegative(-n);
    } else {
      IntValOfNatural(n);
    }
  }
}
