/**
 * The scalar helpers of the engine's math library that the modelled code
 * calls, over the reals.  Rounding and NaN are not modelled.
 *
 * Interpolation and division go through LerpLen and Fraction, whose
 * contracts carry the facts callers need, so that callers never reason
 * about products directly.
 */
module Mathf {

  /** Mathf.Clamp: the lower bound wins first, then the upper bound. */
  function Clamp(value: real, min: real, max: real): (r: real)
    ensures min <= max ==> min <= r <= max
    ensures min <= value <= max ==> r == value
    ensures value < min ==> r == min
  {
    if value < min then min else if value > max then max else value
  }

  /** Mathf.Clamp01. */
  function Clamp01(value: real): (r: real)
    ensures 0.0 <= r <= 1.0
    ensures 0.0 <= value <= 1.0 ==> r == value
    ensures value <= 0.0 ==> r == 0.0
    ensures value >= 1.0 ==> r == 1.0
  {
    Clamp(value, 0.0, 1.0)
  }

  /**
   * a moved by the fraction c of the signed length len: for c in [0,1] the
   * result lies between a and a + len.
   */
  function LerpLen(a: real, len: real, c: real): (r: real)
    ensures 0.0 <= c <= 1.0 && len >= 0.0 ==> a <= r <= a + len
    ensures 0.0 <= c <= 1.0 && len <= 0.0 ==> a + len <= r <= a
    ensures c == 0.0 ==> r == a
    ensures c == 1.0 ==> r == a + len
  {
    var p := len * c;
    if 0.0 <= c <= 1.0 && len >= 0.0 then
      ScaleNonNeg(len, c);
      a + p
    else if 0.0 <= c <= 1.0 then
      ScaleNonPos(len, c);
      a + p
    else a + p
  }

  /** A fraction of a non-negative length lies between 0 and the length. */
  lemma ScaleNonNeg(x: real, c: real)
    requires 0.0 <= c <= 1.0 && x >= 0.0
    ensures 0.0 <= x * c <= x
    ensures c == 0.0 ==> x * c == 0.0
    ensures c == 1.0 ==> x * c == x
  {
    MulLe(c, 1.0, x);
    MulLe(0.0, c, x);
  }

  /** A fraction of a non-positive length lies between the length and 0. */
  lemma ScaleNonPos(x: real, c: real)
    requires 0.0 <= c <= 1.0 && x <= 0.0
    ensures x <= x * c <= 0.0
    ensures c == 0.0 ==> x * c == 0.0
    ensures c == 1.0 ==> x * c == x
  {
    MulLe(c, 1.0, -x);
    MulLe(0.0, c, -x);
  }

  /** Multiplying by a non-negative number keeps a non-strict order. */
  lemma MulLe(x: real, y: real, d: real)
    requires x <= y && d >= 0.0
    ensures x * d <= y * d
  {
  }

  /** Mathf.Lerp: the interpolation parameter is clamped to [0,1]. */
  function Lerp(a: real, b: real, t: real): (r: real)
    ensures t <= 0.0 ==> r == a
    ensures t >= 1.0 ==> r == b
    ensures a <= b ==> a <= r <= b
    ensures b <= a ==> b <= r <= a
  {
    LerpLen(a, b - a, Clamp01(t))
  }

  /** Vector3.LerpUnclamped on one component. */
  function LerpUnclamped(a: real, b: real, t: real): (r: real)
    ensures t == 0.0 ==> r == a
    ensures t == 1.0 ==> r == b
  {
    LerpLen(a, b - a, t)
  }

  /**
   * n divided by a non-zero d: where the quotient lies follows from the
   * signs and sizes of n and d.
   */
  function Fraction(n: real, d: real): (r: real)
    requires d != 0.0
    ensures n == 0.0 ==> r == 0.0
    ensures n == d ==> r == 1.0
    ensures 0.0 <= n <= d || d <= n <= 0.0 ==> 0.0 <= r <= 1.0
    ensures d > 0.0 && n < 0.0 ==> r < 0.0
    ensures d > 0.0 && n > d ==> r > 1.0
    ensures d < 0.0 && n > 0.0 ==> r < 0.0
    ensures d < 0.0 && n < d ==> r > 1.0
  {
    QuotientBounds(n, d);
    n / d
  }

  /** Fraction recovers the fraction LerpLen moved by. */
  lemma FractionOfLerpLen(a: real, len: real, c: real)
    requires len != 0.0
    ensures Fraction(LerpLen(a, len, c) - a, len) == c
  {
    QuotientOfScaled(len * c, c, len);
  }

  /** LerpLen by the fraction n / len moves by n. */
  lemma LerpLenOfFraction(a: real, len: real, n: real)
    requires len != 0.0
    ensures LerpLen(a, len, Fraction(n, len)) == a + n
  {
    QuotientTimes(n, len);
  }

  /** LerpLen from any start is the start plus LerpLen from zero; a negated length moves the other way. */
  lemma LerpLenShift(a: real, len: real, c: real)
    ensures LerpLen(a, len, c) == a + LerpLen(0.0, len, c)
    ensures LerpLen(a, -len, c) == a - LerpLen(0.0, len, c)
  {
  }

  /** Negating both operands leaves a fraction unchanged. */
  lemma FractionNeg(n: real, d: real)
    requires d != 0.0
    ensures Fraction(-n, -d) == Fraction(n, d)
  {
    QuotientNeg(n, d);
  }

  /** Mathf.InverseLerp: where `value` lies between a and b, clamped to [0,1]; 0 when a == b. */
  function InverseLerp(a: real, b: real, value: real): (r: real)
    ensures 0.0 <= r <= 1.0
    ensures a == b ==> r == 0.0
    ensures a != b && value == a ==> r == 0.0
    ensures a != b && value == b ==> r == 1.0
  {
    if a != b then Clamp01(Fraction(value - a, b - a)) else 0.0
  }

  /**
   * Mathf.Repeat: `t` less the whole multiples of `length` below it, clamped
   * to [0, length].
   */
  function Repeat(t: real, length: real): (r: real)
    requires length > 0.0
    ensures 0.0 <= r <= length
  {
    Clamp(t - ((t / length).Floor as real) * length, 0.0, length)
  }

  /** Where a quotient n / d lies, from the signs and sizes of n and d. */
  lemma QuotientBounds(n: real, d: real)
    requires d != 0.0
    ensures d > 0.0 && n < 0.0 ==> n / d < 0.0
    ensures d > 0.0 && n > d ==> n / d > 1.0
    ensures d < 0.0 && n > 0.0 ==> n / d < 0.0
    ensures d < 0.0 && n < d ==> n / d > 1.0
    ensures 0.0 <= n <= d || d <= n <= 0.0 ==> 0.0 <= n / d <= 1.0
    ensures n == 0.0 ==> n / d == 0.0
    ensures n == d ==> n / d == 1.0
  {
    var q := n / d;
    QuotientTimes(n, d);
    if d > 0.0 {
      FactorOfPositive(n, d, q);
    } else {
      var m := -n;
      var e := -d;
      QuotientNeg(n, d);
      QuotientTimes(m, e);
      FactorOfPositive(m, e, q);
    }
  }

  lemma QuotientTimes(n: real, d: real)
    requires d != 0.0
    ensures d * (n / d) == n
  {
  }

  lemma QuotientNeg(n: real, d: real)
    requires d != 0.0
    ensures (-n) / (-d) == n / d
  {
  }

  /** Where q lies when d * q = n for a positive d. */
  lemma FactorOfPositive(n: real, d: real, q: real)
    requires d > 0.0 && d * q == n
    ensures n < 0.0 ==> q < 0.0
    ensures n > d ==> q > 1.0
    ensures 0.0 <= n <= d ==> 0.0 <= q <= 1.0
    ensures n == 0.0 ==> q == 0.0
    ensures n == d ==> q == 1.0
  {
  }

  /** Dividing a multiple of d by d gives back the factor. */
  lemma QuotientOfScaled(n: real, c: real, d: real)
    requires d != 0.0 && n == d * c
    ensures n / d == c
  {
  }

  /** Mathf.Sign: zero counts as positive. */
  function Sign(f: real): (r: real)
    ensures r == 1.0 || r == -1.0
    ensures r == 1.0 <==> f >= 0.0
  {
    if f >= 0.0 then 1.0 else -1.0
  }

  function Abs(f: real): (r: real)
    ensures r >= 0.0
    ensures r == f || r == -f
  {
    if f < 0.0 then -f else f
  }

  function Min(a: real, b: real): (r: real)
    ensures r <= a && r <= b && (r == a || r == b)
  {
    if a < b then a else b
  }

  function Max(a: real, b: real): (r: real)
    ensures r >= a && r >= b && (r == a || r == b)
  {
    if a < b then b else a
  }
}
