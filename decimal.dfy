/**
 * Decimal notation of integers, as JavaScript's `Number.prototype.toString()`
 * writes a safe integer: digits only, no leading zero, a `-` for negatives.
 */
module Decimal {

  predicate IsDigit(c: char) {
    '0' <= c <= '9'
  }

  predicate AllDigits(s: string) {
    forall i :: 0 <= i < |s| ==> IsDigit(s[i])
  }

  /** The canonical decimal form of a natural number: at least one digit, and no leading zero. */
  predicate IsCanonicalDecimal(s: string) {
    |s| > 0 && AllDigits(s) && (s[0] == '0' ==> |s| == 1)
  }

  function DigitValue(c: char): (d: nat)
    requires IsDigit(c)
    ensures d < 10
  {
    c as int - '0' as int
  }

  function DigitChar(d: nat): (c: char)
    requires d < 10
    ensures IsDigit(c) && DigitValue(c) == d
  {
    ('0' as int + d) as char
  }

  /** The number a string of decimal digits denotes (most significant digit first). */
  function DecimalValue(s: string): nat
    requires AllDigits(s)
  {
    if s == [] then 0 else DecimalValue(s[..|s| - 1]) * 10 + DigitValue(s[|s| - 1])
  }

  /** `n.toString()` for a non-negative integer `n`. */
  function NatToString(n: nat): (s: string)
    ensures IsCanonicalDecimal(s)
    ensures DecimalValue(s) == n
    decreases n
  {
    if n < 10 then [DigitChar(n)]
    else
      var p := NatToString(n / 10);
      var s := p + [DigitChar(n % 10)];
      assert s[..|s| - 1] == p;
      s
  }

  /** `${n}` for any integer `n` (a release id in an error message). */
  function IntToString(n: int): (s: string)
    ensures |s| > 0
    ensures n >= 0 ==> s == NatToString(n)
    ensures n < 0 ==> s == "-" + NatToString(-n)
  {
    if n < 0 then "-" + NatToString(-n) else NatToString(n)
  }

  /** Distinct integers are written differently, and their notation holds only a sign and digits. */
  lemma IntToStringInjective(a: int, b: int)
    ensures forall k :: 0 <= k < |IntToString(a)| ==> IntToString(a)[k] == '-' || IsDigit(IntToString(a)[k])
    ensures IntToString(a) == IntToString(b) ==> a == b
  {
    var sa, sb := IntToString(a), IntToString(b);
    assert sa[0] == '-' <==> a < 0;
    assert sb[0] == '-' <==> b < 0;
    if sa == sb && a < 0 {
      assert NatToString(-a) == sa[1..] && NatToString(-b) == sb[1..];
    }
  }

  /** A digit string denotes at least its first digit. */
  lemma {:induction false} LeadingDigitBound(s: string)
    requires |s| > 0 && AllDigits(s)
    ensures DecimalValue(s) >= DigitValue(s[0])
    decreases |s|
  {
    if |s| > 1 {
      var p := s[..|s| - 1];
      assert p[0] == s[0];
      LeadingDigitBound(p);
    }
  }

  /** Printing the value of a canonical decimal string gives back that string. */
  lemma {:induction false} CanonicalRoundTrip(s: string)
    requires IsCanonicalDecimal(s)
    ensures NatToString(DecimalValue(s)) == s
    decreases |s|
  {
    if |s| > 1 {
      var p := s[..|s| - 1];
      assert p[0] == s[0];
      assert IsCanonicalDecimal(p);
      LeadingDigitBound(p);
      CanonicalRoundTrip(p);
      var n := DecimalValue(s);
      assert n / 10 == DecimalValue(p) && n % 10 == DigitValue(s[|s| - 1]);
      assert s == p + [s[|s| - 1]];
    }
  }
}
