/** Decimal text of whole numbers and the two integer roundings the display
    code relies on: round half to even (`Math.Round`) and ceiling division
    (`Math.Ceiling` of a quotient). */
module Numerals {

  predicate IsDigit(c: char) {
    '0' <= c <= '9'
  }

  predicate AllDigits(s: string) {
    forall i :: 0 <= i < |s| ==> IsDigit(s[i])
  }

  function DigitChar(d: nat): (c: char)
    requires d < 10
    ensures IsDigit(c) && (c as int) - ('0' as int) == d
  {
    (('0' as int) + d) as char
  }

  function DigitValue(c: char): nat
    requires IsDigit(c)
  {
    (c as int) - ('0' as int)
  }

  /** Decimal rendering of a whole number, as `ToString()` prints an
      integral value: no sign, no leading zero */
  function NatToString(n: nat): (s: string)
    ensures |s| >= 1 && AllDigits(s)
    ensures |s| > 1 ==> s[0] != '0'
    decreases n
  {
    if n < 10 then [DigitChar(n)] else NatToString(n / 10) + [DigitChar(n % 10)]
  }

  /** The number a string of decimal digits denotes (the empty string denotes 0) */
  function DigitsValue(s: string): nat
    requires AllDigits(s)
    decreases |s|
  {
    if |s| == 0 then 0 else DigitsValue(s[..|s| - 1]) * 10 + DigitValue(s[|s| - 1])
  }

  /** Reading back the rendering of `n` gives `n` */
  lemma {:induction false} NatToStringRoundTrip(n: nat)
    ensures DigitsValue(NatToString(n)) == n
    decreases n
  {
    var s := NatToString(n);
    if n >= 10 {
      NatToStringRoundTrip(n / 10);
      assert s[..|s| - 1] == NatToString(n / 10);
    }
  }

  /** Distinct numbers render as distinct strings */
  lemma NatToStringInjective(a: nat, b: nat)
    requires NatToString(a) == NatToString(b)
    ensures a == b
  {
    NatToStringRoundTrip(a);
    NatToStringRoundTrip(b);
  }

  /** `n / d` rounded to the nearest whole number, ties to the even one
      (the default `MidpointRounding.ToEven` of `Math.Round`) */
  function RoundHalfEven(n: nat, d: nat): (q: nat)
    requires d > 0
    ensures 2 * (n - q * d) <= d && 2 * (q * d - n) <= d
    ensures 2 * (n - q * d) == d || 2 * (q * d - n) == d ==> q % 2 == 0
  {
    var q, r := n / d, n % d;
    assert n == q * d + r;
    assert (q + 1) * d == q * d + d;
    if 2 * r < d then q
    else if 2 * r > d then q + 1
    else if q % 2 == 0 then q
    else q + 1
  }

  /** Only one whole number is nearest with ties to even */
  lemma RoundHalfEvenUnique(n: nat, d: nat, q: nat)
    requires d > 0
    requires 2 * (n - q * d) <= d && 2 * (q * d - n) <= d
    requires 2 * (n - q * d) == d || 2 * (q * d - n) == d ==> q % 2 == 0
    ensures q == RoundHalfEven(n, d)
  {
    var r := RoundHalfEven(n, d);
    if q > r {
      NearestAreAdjacent(n, d, r, q);
    } else if q < r {
      NearestAreAdjacent(n, d, q, r);
    }
  }

  /** Two candidates within half a step of `n` and one whole step apart
      both sit exactly on the midpoint */
  lemma NearestAreAdjacent(n: nat, d: nat, lo: nat, hi: nat)
    requires d > 0 && lo < hi
    requires 2 * (n - lo * d) <= d && 2 * (lo * d - n) <= d
    requires 2 * (n - hi * d) <= d && 2 * (hi * d - n) <= d
    ensures hi == lo + 1
    ensures 2 * (n - lo * d) == d && 2 * (hi * d - n) == d
  {
    var a, b := lo * d, hi * d;
    var k := hi - lo;
    assert b - a == k * d by { Distribute(hi, lo, d); }
    assert b - a <= d;
    if k >= 2 {
      MulMonotone(k, 2, d);
    }
    assert k == 1;
  }

  lemma Distribute(x: int, y: int, d: int)
    ensures (x - y) * d == x * d - y * d
  {
  }

  lemma MulMonotone(x: int, y: int, d: nat)
    requires x >= y
    ensures x * d >= y * d
  {
  }

  /** `n / d` rounded up */
  function CeilDiv(n: nat, d: nat): (q: nat)
    requires d > 0
    ensures q * d >= n
    ensures q == 0 || (q - 1) * d < n
  {
    if n % d == 0 then n / d else n / d + 1
  }
}
