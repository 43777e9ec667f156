/**
 * The `Limits` and `LinearLimits` structs: a closed interval given by two
 * endpoints in either order.  The two structs are the same code under two
 * names (LinearLimits calls Normalize `InverseLerp`); one datatype models both.
 */
module LinearLimits {
  import Mathf

  datatype Limits = Limits(low: real, high: real)

  /** The smaller endpoint. */
  function Lower(l: Limits): real {
    Mathf.Min(l.low, l.high)
  }

  /** The larger endpoint. */
  function Upper(l: Limits): real {
    Mathf.Max(l.low, l.high)
  }

  /** IsInside: the test of the source, branching on which endpoint is lower. */
  predicate IsInside(l: Limits, value: real) {
    if l.low < l.high then value >= l.low && value <= l.high
    else value <= l.low && value >= l.high
  }

  /** Either branch is the closed interval between the two endpoints. */
  lemma IsInsideIsBetween(l: Limits, value: real)
    ensures IsInside(l, value) <==> Lower(l) <= value <= Upper(l)
  {
  }

  /** Swapping the endpoints does not change membership. */
  lemma IsInsideOrderFree(a: real, b: real, value: real)
    ensures IsInside(Limits(a, b), value) <==> IsInside(Limits(b, a), value)
  {
  }

  /** Equal endpoints admit exactly that one value. */
  lemma DegenerateLimits(a: real, value: real)
    ensures IsInside(Limits(a, a), value) <==> value == a
  {
  }

  /** Clamp: the nearest value inside the limits. */
  function Clamp(l: Limits, value: real): (r: real)
    ensures IsInside(l, r)
    ensures IsInside(l, value) ==> r == value
    ensures value < Lower(l) ==> r == Lower(l)
    ensures value > Upper(l) ==> r == Upper(l)
  {
    if l.low < l.high then Mathf.Clamp(value, l.low, l.high) else Mathf.Clamp(value, l.high, l.low)
  }

  /** Clamping twice is clamping once. */
  lemma ClampIdempotent(l: Limits, value: real)
    ensures Clamp(l, Clamp(l, value)) == Clamp(l, value)
  {
  }

  /** Range: signed, negative exactly when the limits are inverted; its size is the interval's width. */
  function Range(l: Limits): (r: real)
    ensures r < 0.0 <==> l.high < l.low
    ensures Mathf.Abs(r) == Upper(l) - Lower(l)
  {
    l.high - l.low
  }

  /** Lerp: from Low at t <= 0 to High at t >= 1, never leaving the limits. */
  function Lerp(l: Limits, t: real): (r: real)
    ensures t <= 0.0 ==> r == l.low
    ensures t >= 1.0 ==> r == l.high
    ensures IsInside(l, r)
  {
    Mathf.Lerp(l.low, l.high, t)
  }

  /** Normalize (InverseLerp in LinearLimits): the position of a value between Low and High, in [0,1]. */
  function Normalize(l: Limits, value: real): (r: real)
    ensures 0.0 <= r <= 1.0
    ensures l.low == l.high ==> r == 0.0
    ensures l.low != l.high && value == l.low ==> r == 0.0
    ensures l.low != l.high && value == l.high ==> r == 1.0
  {
    Mathf.InverseLerp(l.low, l.high, value)
  }

  /** Normalize undoes Lerp on [0,1] when the endpoints differ. */
  lemma NormalizeLerp(l: Limits, t: real)
    requires l.low != l.high && 0.0 <= t <= 1.0
    ensures Normalize(l, Lerp(l, t)) == t
  {
    Mathf.FractionOfLerpLen(l.low, l.high - l.low, Mathf.Clamp01(t));
  }

  /** Lerp after Normalize is Clamp when the endpoints differ. */
  lemma LerpNormalize(l: Limits, value: real)
    requires l.low != l.high
    ensures Lerp(l, Normalize(l, value)) == Clamp(l, value)
  {
    Mathf.LerpLenOfFraction(l.low, l.high - l.low, value - l.low);
  }
}
