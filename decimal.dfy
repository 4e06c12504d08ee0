/** Decimal rendering of naturals, as Python's `str(n)` / f-string `{n}` and `{n:02}` produce it. */
module Decimal {

  predicate IsDigit(c: char) { '0' <= c <= '9' }

  predicate AllDigits(s: string) { forall i :: 0 <= i < |s| ==> IsDigit(s[i]) }

  function DigitChar(d: nat): (c: char)
    requires d < 10
    ensures IsDigit(c) && c as int - '0' as int == d
  {
    (d + '0' as int) as char
  }

  /** The value of a string of decimal digits (leading zeros allowed). */
  function DecimalValue(s: string): nat
    requires AllDigits(s)
  {
    if s == [] then 0
    else 10 * DecimalValue(s[..|s| - 1]) + (s[|s| - 1] as int - '0' as int)
  }

  /** `str(n)`: the shortest decimal rendering of `n`. */
  function NatToDecimal(n: nat): (r: string)
    ensures |r| >= 1 && AllDigits(r)
    ensures |r| > 1 ==> r[0] != '0'
    ensures n < 10 <==> |r| == 1
  {
    if n < 10 then [DigitChar(n)] else NatToDecimal(n / 10) + [DigitChar(n % 10)]
  }

  /** Reading the rendering back gives the number. */
  lemma {:induction false} DecimalRoundTrip(n: nat)
    ensures DecimalValue(NatToDecimal(n)) == n
  {
    var r := NatToDecimal(n);
    if n >= 10 {
      DecimalRoundTrip(n / 10);
      assert r[..|r| - 1] == NatToDecimal(n / 10);
    }
  }

  lemma NatToDecimalInjective(m: nat, n: nat)
    requires NatToDecimal(m) == NatToDecimal(n)
    ensures m == n
  {
    DecimalRoundTrip(m);
    DecimalRoundTrip(n);
  }

  /** `f"{n:02}"`: decimal, zero-padded on the left to at least two characters. */
  function Pad2(n: nat): (r: string)
    ensures |r| >= 2 && AllDigits(r)
    ensures DecimalValue(r) == n
    ensures |r| == 2 <==> n < 100
    ensures |r| > 2 ==> r[0] != '0'
  {
    var d := NatToDecimal(n);
    DecimalRoundTrip(n);
    if n < 10 then
      assert ['0'] + d == ['0', d[0]];
      assert (['0'] + d)[..1] == ['0'];
      ['0'] + d
    else
      assert n < 100 <==> |d| == 2 by { NatToDecimalLength(n); }
      d
  }

  lemma {:induction false} NatToDecimalLength(n: nat)
    ensures n < 100 ==> |NatToDecimal(n)| <= 2
    ensures n >= 100 ==> |NatToDecimal(n)| >= 3
  {
    if n >= 10 { NatToDecimalLength(n / 10); }
  }
}
