/** Canonical decimal numerals: the `0|[1-9][0-9]*` pieces of a version
    string, their value (`parseInt`) and the rendering of a number
    (template-string interpolation). */
module Decimal {

  predicate IsDigit(c: char) {
    '0' <= c <= '9'
  }

  predicate AllDigits(s: string) {
    forall i :: 0 <= i < |s| ==> IsDigit(s[i])
  }

  /** `0` or a non-empty digit string that does not start with `0`. */
  predicate IsCanonical(s: string) {
    |s| >= 1 && AllDigits(s) && (s[0] == '0' ==> |s| == 1)
  }

  function DigitValue(c: char): nat
    requires IsDigit(c)
  {
    c as int - '0' as int
  }

  function DigitChar(d: nat): (c: char)
    requires d < 10
    ensures IsDigit(c) && DigitValue(c) == d
  {
    ('0' as int + d) as char
  }

  /** The number a digit string denotes, most significant digit first. */
  function ValueOf(s: string): nat
    requires AllDigits(s)
    decreases |s|
  {
    if s == [] then 0 else 10 * ValueOf(s[..|s| - 1]) + DigitValue(s[|s| - 1])
  }

  /** The decimal rendering of `n`: always canonical, and it denotes `n`. */
  function ToDecimal(n: nat): (s: string)
    ensures IsCanonical(s) && ValueOf(s) == n
    decreases n
  {
    if n < 10 then
      [DigitChar(n)]
    else
      var p := ToDecimal(n / 10);
      var s := p + [DigitChar(n % 10)];
      assert s[..|s| - 1] == p;
      s
  }

  /** A digit string with a non-zero first digit denotes a positive number. */
  lemma {:induction false} LeadingNonZeroIsPositive(s: string)
    requires |s| >= 1 && AllDigits(s) && s[0] != '0'
    ensures ValueOf(s) >= 1
  {
    if |s| > 1 {
      LeadingNonZeroIsPositive(s[..|s| - 1]);
    }
  }

  /** Rendering the value of a canonical numeral gives the numeral back, so
      canonical numerals and naturals are in one-to-one correspondence. */
  lemma {:induction false} CanonicalRoundTrip(s: string)
    requires IsCanonical(s)
    ensures ToDecimal(ValueOf(s)) == s
  {
    var n := ValueOf(s);
    var last := s[|s| - 1];
    if |s| == 1 {
      assert s[..0] == [] && ValueOf(s[..0]) == 0;
      assert n == DigitValue(last);
      assert DigitChar(n) == last;
    } else {
      var p := s[..|s| - 1];
      assert p[0] == s[0];
      LeadingNonZeroIsPositive(p);
      CanonicalRoundTrip(p);
      assert n / 10 == ValueOf(p) && n % 10 == DigitValue(last);
      assert DigitChar(DigitValue(last)) == last;
      assert p + [last] == s;
    }
  }
}
