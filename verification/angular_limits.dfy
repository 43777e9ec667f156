/**
 * AngularLimits: an arc of angles in degrees, from Start to End, travelled
 * counter-clockwise (angles increasing) or clockwise.  Endpoints are stored
 * wrapped to [-180, 180).
 */
module Angular {
  import Mathf
  import opened Vectors

  /** The struct's two private endpoints and the public CCW flag. */
  datatype AngularLimits = AngularLimits(start: real, end: real, ccw: bool)

  /** Endpoints as every constructor and setter stores them. */
  predicate Wf(l: AngularLimits) {
    -180.0 <= l.start < 180.0 && -180.0 <= l.end < 180.0
  }

  /** FixAngle: an angle wrapped to [-180, 180). */
  function FixAngle(angle: real): (r: real)
    ensures -180.0 <= r < 180.0
  {
    Repeat360(angle + 180.0);
    Mathf.Repeat(angle + 180.0, 360.0) - 180.0
  }

  /** Repeat by 360 subtracts the whole turns below t and lands in [0, 360). */
  lemma Repeat360(t: real)
    ensures var k := (t / 360.0).Floor;
      0.0 <= t - (k as real) * 360.0 < 360.0 && Mathf.Repeat(t, 360.0) == t - (k as real) * 360.0
  {
  }

  /** The number of turns Repeat subtracts is the one that lands in [0, 360). */
  lemma Repeat360Unique(t: real, k: int)
    requires 0.0 <= t - (k as real) * 360.0 < 360.0
    ensures Mathf.Repeat(t, 360.0) == t - (k as real) * 360.0
  {
    Repeat360(t);
    SameTurn(t, (t / 360.0).Floor, k);
  }

  /** Only one whole number of turns takes t into [0, 360). */
  lemma SameTurn(t: real, a: int, b: int)
    requires 0.0 <= t - (a as real) * 360.0 < 360.0
    requires 0.0 <= t - (b as real) * 360.0 < 360.0
    ensures a == b
  {
    var d := a - b;
    assert (d as real) * 360.0 == (a as real) * 360.0 - (b as real) * 360.0;
  }

  /** Repeat by 360 is periodic in whole turns. */
  lemma Repeat360Shift(t: real, n: int)
    ensures Mathf.Repeat(t + (n as real) * 360.0, 360.0) == Mathf.Repeat(t, 360.0)
  {
    var k := (t / 360.0).Floor;
    Repeat360(t);
    Repeat360Unique(t + (n as real) * 360.0, k + n);
  }

  /** FixAngle is the identity on [-180, 180). */
  lemma FixAngleIdentity(angle: real)
    requires -180.0 <= angle < 180.0
    ensures FixAngle(angle) == angle
  {
    Repeat360Unique(angle + 180.0, 0);
  }

  /** FixAngle is 360-periodic. */
  lemma FixAnglePeriodic(angle: real, n: int)
    ensures FixAngle(angle + (n as real) * 360.0) == FixAngle(angle)
  {
    Repeat360Shift(angle + 180.0, n);
  }

  /** Wrapping twice is wrapping once. */
  lemma FixAngleIdempotent(angle: real)
    ensures FixAngle(FixAngle(angle)) == FixAngle(angle)
  {
    FixAngleIdentity(FixAngle(angle));
  }

  /** FixAngle moves an angle by a whole number of turns. */
  lemma FixAngleTurns(angle: real) returns (n: int)
    ensures FixAngle(angle) == angle + (n as real) * 360.0
  {
    Repeat360(angle + 180.0);
    n := -((angle + 180.0) / 360.0).Floor;
  }

  /** FixAngles: FixAngle on each Euler component. */
  function FixAngles(angles: Vec3): (r: Vec3)
    ensures -180.0 <= r.x < 180.0 && -180.0 <= r.y < 180.0 && -180.0 <= r.z < 180.0
    ensures r.x == FixAngle(angles.x) && r.y == FixAngle(angles.y) && r.z == FixAngle(angles.z)
  {
    Vec3(FixAngle(angles.x), FixAngle(angles.y), FixAngle(angles.z))
  }

  /** FixAngles leaves Euler angles that are already wrapped alone. */
  lemma FixAnglesIdentity(angles: Vec3)
    requires -180.0 <= angles.x < 180.0 && -180.0 <= angles.y < 180.0 && -180.0 <= angles.z < 180.0
    ensures FixAngles(angles) == angles
  {
    FixAngleIdentity(angles.x);
    FixAngleIdentity(angles.y);
    FixAngleIdentity(angles.z);
  }

  /** The constructor: both endpoints wrapped; CCW defaults to false. */
  function New(low: real, high: real, ccw: bool := false): (r: AngularLimits)
    ensures Wf(r) && r.ccw == ccw
    ensures r.start == FixAngle(low) && r.end == FixAngle(high)
  {
    AngularLimits(Mathf.Repeat(low + 180.0, 360.0) - 180.0, Mathf.Repeat(high + 180.0, 360.0) - 180.0, ccw)
  }

  /** The Start setter stores the wrapped angle and keeps the rest. */
  function SetStart(l: AngularLimits, value: real): (r: AngularLimits)
    ensures r.start == FixAngle(value) && r.end == l.end && r.ccw == l.ccw
    ensures Wf(l) ==> Wf(r)
  {
    l.(start := FixAngle(value))
  }

  /** The End setter stores the wrapped angle and keeps the rest. */
  function SetEnd(l: AngularLimits, value: real): (r: AngularLimits)
    ensures r.end == FixAngle(value) && r.start == l.start && r.ccw == l.ccw
    ensures Wf(l) ==> Wf(r)
  {
    l.(end := FixAngle(value))
  }

  /** The arc crosses the -180/180 seam: Start above End when CCW, End above Start otherwise. */
  predicate RangeIsWrapped(l: AngularLimits) {
    if l.ccw then l.start > l.end else l.end > l.start
  }

  /** The test IsInside applies once the value has been wrapped. */
  predicate OnRange(l: AngularLimits, v: real) {
    if RangeIsWrapped(l) then
      (if l.ccw then v >= l.start || v <= l.end else v >= l.end || v <= l.start)
    else
      (if l.ccw then v <= l.end && v >= l.start else v <= l.start && v >= l.end)
  }

  /** IsInside: the test of the source on the wrapped value. */
  predicate IsInside(l: AngularLimits, value: real) {
    OnRange(l, FixAngle(value))
  }

  /** Range: the length of the arc, 360 minus the gap when it is wrapped. */
  function Range(l: AngularLimits): (r: real)
    ensures Wf(l) ==> 0.0 <= r < 360.0
  {
    if RangeIsWrapped(l) then 360.0 - Mathf.Abs(l.end - l.start) else Mathf.Abs(l.end - l.start)
  }

  /**
   * Reference definition: how far an angle lies from Start, travelling in
   * the direction of the range, in [0, 360).
   */
  function ArcOffset(l: AngularLimits, value: real): (r: real)
    ensures 0.0 <= r < 360.0
  {
    Repeat360(value - l.start);
    Repeat360(l.start - value);
    if l.ccw then Mathf.Repeat(value - l.start, 360.0) else Mathf.Repeat(l.start - value, 360.0)
  }

  /** The offset only depends on the angle modulo 360. */
  lemma ArcOffsetOfFixed(l: AngularLimits, value: real)
    ensures ArcOffset(l, FixAngle(value)) == ArcOffset(l, value)
  {
    var n := FixAngleTurns(value);
    if l.ccw {
      assert FixAngle(value) - l.start == (value - l.start) + (n as real) * 360.0;
      Repeat360Shift(value - l.start, n);
    } else {
      assert l.start - FixAngle(value) == (l.start - value) + ((-n) as real) * 360.0;
      Repeat360Shift(l.start - value, -n);
    }
  }

  /** The offset of a wrapped angle, without Repeat. */
  lemma ArcOffsetOfWrapped(l: AngularLimits, w: real)
    requires Wf(l) && -180.0 <= w < 180.0
    ensures l.ccw && w >= l.start ==> ArcOffset(l, w) == w - l.start
    ensures l.ccw && w < l.start ==> ArcOffset(l, w) == w - l.start + 360.0
    ensures !l.ccw && w <= l.start ==> ArcOffset(l, w) == l.start - w
    ensures !l.ccw && w > l.start ==> ArcOffset(l, w) == l.start - w + 360.0
  {
    if l.ccw {
      if w >= l.start {
        Repeat360Unique(w - l.start, 0);
      } else {
        Repeat360Unique(w - l.start, -1);
      }
    } else {
      if w <= l.start {
        Repeat360Unique(l.start - w, 0);
      } else {
        Repeat360Unique(l.start - w, -1);
      }
    }
  }

  /** Range is the offset of End: the length of the arc from Start to End. */
  lemma RangeIsArcLength(l: AngularLimits)
    requires Wf(l)
    ensures Range(l) == ArcOffset(l, l.end)
  {
    ArcOffsetOfWrapped(l, l.end);
  }

  /** IsInside holds exactly for the angles on the arc from Start to End. */
  lemma IsInsideOnArc(l: AngularLimits, value: real)
    requires Wf(l)
    ensures IsInside(l, value) <==> ArcOffset(l, value) <= Range(l)
  {
    var w := FixAngle(value);
    ArcOffsetOfFixed(l, value);
    ArcOffsetOfWrapped(l, w);
    RangeIsArcLength(l);
    ArcOffsetOfWrapped(l, l.end);
  }

  /** IsInside depends only on the angle modulo 360. */
  lemma IsInsidePeriodic(l: AngularLimits, value: real, n: int)
    ensures IsInside(l, value + (n as real) * 360.0) <==> IsInside(l, value)
  {
    FixAnglePeriodic(value, n);
  }

  /** Both endpoints given to the constructor lie inside the limits. */
  lemma NewContainsEndpoints(low: real, high: real, ccw: bool)
    ensures IsInside(New(low, high, ccw), low) && IsInside(New(low, high, ccw), high)
  {
  }

  /** IsInside of an angle that is already wrapped is the plain test. */
  lemma IsInsideWrapped(l: AngularLimits, w: real)
    requires -180.0 <= w < 180.0
    ensures IsInside(l, w) <==> OnRange(l, w)
  {
    FixAngleIdentity(w);
  }

  // ---------------------------------------------------------------------
  // Clamp

  /**
   * Clamp as written: on a wrapped range, negative angles are clamped to
   * [-180, Start] (CCW) or [-180, End] (clockwise) and the others to
   * [End, 180] or [Start, 180].
   */
  function Clamp(l: AngularLimits, value: real): (r: real)
    ensures Wf(l) ==> -180.0 <= r < 180.0
  {
    var v := FixAngle(value);
    if RangeIsWrapped(l) then
      (if v < 0.0 then Mathf.Clamp(v, -180.0, if l.ccw then l.start else l.end)
       else Mathf.Clamp(v, if l.ccw then l.end else l.start, 180.0))
    else if l.ccw then Mathf.Clamp(v, l.start, l.end)
    else Mathf.Clamp(v, l.end, l.start)
  }

  /** On a range that does not wrap, Clamp lands inside and keeps inside angles. */
  lemma ClampNotWrapped(l: AngularLimits, value: real)
    requires Wf(l) && !RangeIsWrapped(l)
    ensures IsInside(l, Clamp(l, value))
    ensures IsInside(l, value) ==> Clamp(l, value) == FixAngle(value)
  {
    IsInsideWrapped(l, Clamp(l, value));
  }

  /** On a wrapped range, Clamp can return an angle outside the range. */
  lemma ClampWrappedEscapes()
    ensures var l := AngularLimits(-10.0, 10.0, false);
      Wf(l) && RangeIsWrapped(l) && Clamp(l, -5.0) == -5.0 && !IsInside(l, Clamp(l, -5.0))
  {
    FixAngleIdentity(-5.0);
  }

  /** On a wrapped range, Clamp can move an angle that is already inside. */
  lemma ClampWrappedMovesInside()
    ensures var l := AngularLimits(-30.0, -60.0, true);
      Wf(l) && RangeIsWrapped(l) && IsInside(l, -10.0) && Clamp(l, -10.0) == -30.0
  {
    FixAngleIdentity(-10.0);
  }

  /**
   * Clamp with the wrapped case corrected: an angle inside is kept, and an
   * angle in the gap between the endpoints goes to the nearer endpoint.
   */
  function ClampOnArc(l: AngularLimits, value: real): (r: real)
    ensures Wf(l) ==> IsInside(l, r)
    ensures IsInside(l, value) ==> r == FixAngle(value)
    ensures !RangeIsWrapped(l) ==> r == Clamp(l, value)
  {
    var v := FixAngle(value);
    if !RangeIsWrapped(l) then
      (if Wf(l) then IsInsideWrapped(l, Clamp(l, value)); Clamp(l, value) else Clamp(l, value))
    else if OnRange(l, v) then
      FixAngleIdentity(v);
      v
    else
      var lo := Mathf.Min(l.start, l.end);
      var hi := Mathf.Max(l.start, l.end);
      if Wf(l) then
        IsInsideWrapped(l, lo);
        IsInsideWrapped(l, hi);
        if v - lo <= hi - v then lo else hi
      else
        if v - lo <= hi - v then lo else hi
  }

  // ---------------------------------------------------------------------
  // Lerp and Normalize

  /**
   * A struct method's result together with the struct afterwards: Lerp and
   * Normalize write to the struct's own fields.
   */
  datatype WithState = WithState(value: real, after: AngularLimits)

  /** The fields after an unwrap: 360 added to End (CCW) or to Start (clockwise). */
  function Unwrapped(l: AngularLimits): (u: AngularLimits)
    ensures u.ccw == l.ccw
    ensures u.end - u.start == (if l.ccw then l.end - l.start + 360.0 else l.end - l.start - 360.0)
  {
    if l.ccw then l.(end := l.end + 360.0) else l.(start := l.start + 360.0)
  }

  /**
   * Lerp as written: on a wrapped range the unwrap is stored in the struct.
   */
  function Lerp(l: AngularLimits, t: real): (r: WithState)
    ensures !RangeIsWrapped(l) ==> r.after == l
    ensures RangeIsWrapped(l) ==> r.after == Unwrapped(l) && -180.0 <= r.value < 180.0
  {
    if RangeIsWrapped(l) then
      var u := Unwrapped(l);
      WithState(FixAngle(Mathf.Lerp(u.start, u.end, t)), u)
    else
      WithState(Mathf.Lerp(l.start, l.end, t), l)
  }

  /**
   * Normalize as written: the unwrap is stored in the struct, and a
   * negative angle is moved up by 360 on a wrapped range.
   */
  function Normalize(l: AngularLimits, value: real): (r: WithState)
    ensures 0.0 <= r.value <= 1.0
    ensures !RangeIsWrapped(l) ==> r.after == l
    ensures RangeIsWrapped(l) ==> r.after == Unwrapped(l)
  {
    var v := FixAngle(value);
    if RangeIsWrapped(l) then
      var u := Unwrapped(l);
      WithState(Mathf.InverseLerp(u.start, u.end, if v < 0.0 then v + 360.0 else v), u)
    else
      WithState(Mathf.InverseLerp(l.start, l.end, v), l)
  }

  /** The angle reached by travelling `step` degrees from Start in the range's direction. */
  function AlongArc(l: AngularLimits, step: real): (r: real)
    ensures -180.0 <= r < 180.0
  {
    FixAngle(if l.ccw then l.start + step else l.start - step)
  }

  /** The distance along an arc of the given length that is the fraction c of it. */
  function ArcStep(l: AngularLimits, c: real): (r: real)
    ensures Wf(l) && 0.0 <= c <= 1.0 ==> 0.0 <= r <= Range(l)
    ensures c == 0.0 ==> r == 0.0
    ensures c == 1.0 ==> r == Range(l)
  {
    Mathf.LerpLen(0.0, Range(l), c)
  }

  /**
   * Lerp along the arc: Start moved by the fraction t of Range in the
   * range's direction.  It lies inside the limits, at that fraction of the
   * arc.
   */
  function LerpOnArc(l: AngularLimits, t: real): (r: real)
    ensures -180.0 <= r < 180.0
    ensures Wf(l) ==> IsInside(l, r) && ArcOffset(l, r) == ArcStep(l, Mathf.Clamp01(t))
  {
    var step := ArcStep(l, Mathf.Clamp01(t));
    if Wf(l) then
      AlongArcOffset(l, step);
      AlongArc(l, step)
    else
      AlongArc(l, step)
  }

  /** Travelling `step` degrees from Start in the range's direction. */
  lemma StepOffset(l: AngularLimits, step: real)
    requires 0.0 <= step < 360.0
    ensures ArcOffset(l, if l.ccw then l.start + step else l.start - step) == step
  {
    Repeat360Unique(step, 0);
    if l.ccw {
      assert (l.start + step) - l.start == step;
    } else {
      assert l.start - (l.start - step) == step;
    }
  }

  /** The angle `step` degrees along the arc lies inside, at offset `step`. */
  lemma AlongArcOffset(l: AngularLimits, step: real)
    requires Wf(l) && 0.0 <= step <= Range(l)
    ensures IsInside(l, AlongArc(l, step)) && ArcOffset(l, AlongArc(l, step)) == step
  {
    var x := if l.ccw then l.start + step else l.start - step;
    StepOffset(l, step);
    ArcOffsetOfFixed(l, x);
    IsInsideOnArc(l, FixAngle(x));
  }

  /** The first call of Lerp computes LerpOnArc. */
  lemma LerpFirstCallOnArc(l: AngularLimits, t: real)
    requires Wf(l)
    ensures Lerp(l, t).value == LerpOnArc(l, t)
  {
    if RangeIsWrapped(l) {
      LerpWrappedAlongArc(l, t);
    } else {
      LerpNotWrappedAlongArc(l, t);
    }
  }

  lemma LerpWrappedAlongArc(l: AngularLimits, t: real)
    requires Wf(l) && RangeIsWrapped(l)
    ensures Lerp(l, t).value == AlongArc(l, ArcStep(l, Mathf.Clamp01(t)))
  {
    var u := Unwrapped(l);
    var c := Mathf.Clamp01(t);
    var z := Mathf.Lerp(u.start, u.end, t);
    Mathf.LerpLenShift(u.start, Range(l), c);
    AlongArcShifted(l, ArcStep(l, c), z);
  }

  /** An angle a whole turn past the step along the arc is the same angle. */
  lemma AlongArcShifted(l: AngularLimits, step: real, z: real)
    requires if l.ccw then z == l.start + step else z == l.start + 360.0 - step
    ensures FixAngle(z) == AlongArc(l, step)
  {
    if !l.ccw {
      FixAnglePeriodic(l.start - step, 1);
    }
  }

  lemma LerpNotWrappedAlongArc(l: AngularLimits, t: real)
    requires Wf(l) && !RangeIsWrapped(l)
    ensures Lerp(l, t).value == AlongArc(l, ArcStep(l, Mathf.Clamp01(t)))
  {
    var c := Mathf.Clamp01(t);
    var step := ArcStep(l, c);
    Mathf.LerpLenShift(l.start, Range(l), c);
    var y := if l.ccw then l.start + step else l.start - step;
    assert Lerp(l, t).value == y;
    FixAngleIdentity(y);
  }

  /**
   * After one Lerp on a wrapped range the struct no longer describes the
   * same arc: an angle that was inside is now outside.
   */
  lemma LerpCorruptsLimits()
    ensures var l := AngularLimits(-90.0, 90.0, false);
      Wf(l) && IsInside(l, -135.0) && !IsInside(Lerp(l, 0.5).after, -135.0)
  {
    FixAngleIdentity(-135.0);
  }

  /**
   * Normalize along the arc: the offset of the angle from Start over Range.
   * The limits are not changed, and a wrapped angle is moved up by 360 when
   * it lies below the larger endpoint.
   */
  function NormalizeOnArc(l: AngularLimits, value: real): (r: real)
    ensures 0.0 <= r <= 1.0
    ensures !RangeIsWrapped(l) ==> r == Normalize(l, value).value
  {
    var v := FixAngle(value);
    if RangeIsWrapped(l) then
      var u := Unwrapped(l);
      Mathf.InverseLerp(u.start, u.end, if v < Mathf.Max(l.start, l.end) then v + 360.0 else v)
    else
      Mathf.InverseLerp(l.start, l.end, v)
  }

  /** InverseLerp of a value whose distance from `a` is the fraction c of `b - a`. */
  lemma InverseLerpAlong(a: real, b: real, w: real, len: real, c: real)
    requires len > 0.0 && 0.0 <= c <= 1.0
    requires (w - a == Mathf.LerpLen(0.0, len, c) && b - a == len)
      || (w - a == -Mathf.LerpLen(0.0, len, c) && b - a == -len)
    ensures Mathf.InverseLerp(a, b, w) == c
  {
    Mathf.FractionOfLerpLen(0.0, len, c);
    Mathf.FractionNeg(Mathf.LerpLen(0.0, len, c), len);
  }

  /**
   * An angle inside the limits, at the fraction c of the arc from Start,
   * normalizes to c.
   */
  lemma NormalizeOnArcInside(l: AngularLimits, value: real, c: real)
    requires Wf(l) && Range(l) > 0.0 && IsInside(l, value) && 0.0 <= c <= 1.0
    requires ArcOffset(l, value) == ArcStep(l, c)
    ensures NormalizeOnArc(l, value) == c
  {
    NormalizeOnArcOperands(l, value);
    var v := FixAngle(value);
    if RangeIsWrapped(l) {
      var u := Unwrapped(l);
      var w := if v < Mathf.Max(l.start, l.end) then v + 360.0 else v;
      InverseLerpAlong(u.start, u.end, w, Range(l), c);
    } else {
      InverseLerpAlong(l.start, l.end, v, Range(l), c);
    }
  }

  /** The operands NormalizeOnArc hands to InverseLerp, for an angle inside the arc. */
  lemma NormalizeOnArcOperands(l: AngularLimits, value: real)
    requires Wf(l) && IsInside(l, value)
    ensures 0.0 <= ArcOffset(l, value) <= Range(l)
    ensures var v := FixAngle(value); var off := ArcOffset(l, value); var len := Range(l);
      if RangeIsWrapped(l) then
        var u := Unwrapped(l);
        var w := if v < Mathf.Max(l.start, l.end) then v + 360.0 else v;
        if l.ccw then w - u.start == off && u.end - u.start == len
        else w - u.start == -off && u.end - u.start == -len
      else
        if l.ccw then v - l.start == off && l.end - l.start == len
        else v - l.start == -off && l.end - l.start == -len
  {
    var v := FixAngle(value);
    ArcOffsetOfFixed(l, value);
    IsInsideOnArc(l, value);
    ArcOffsetOfWrapped(l, v);
    RangeIsArcLength(l);
    ArcOffsetOfWrapped(l, l.end);
  }

  /** NormalizeOnArc undoes LerpOnArc on [0,1] for an arc of positive length. */
  lemma NormalizeLerpOnArc(l: AngularLimits, t: real)
    requires Wf(l) && Range(l) > 0.0 && 0.0 <= t <= 1.0
    ensures NormalizeOnArc(l, LerpOnArc(l, t)) == t
  {
    NormalizeOnArcInside(l, LerpOnArc(l, t), Mathf.Clamp01(t));
  }

  /**
   * Normalize as written moves every negative angle up by 360 on a wrapped
   * range, which sends an angle inside the range to the far end when both
   * endpoints are negative.
   */
  lemma NormalizeSplitsAtZero()
    ensures var l := AngularLimits(-30.0, -60.0, true);
      Wf(l) && IsInside(l, -10.0)
      && Normalize(l, -10.0).value == 1.0
      && NormalizeOnArc(l, -10.0) == 20.0 / 330.0
  {
    FixAngleIdentity(-10.0);
  }

  /**
   * Normalize as written stores its unwrap, so asking the same question
   * twice gives two answers.
   */
  lemma NormalizeRepeatDiffers()
    ensures var l := AngularLimits(-90.0, 90.0, false);
      var first := Normalize(l, -135.0);
      var second := Normalize(first.after, -135.0);
      Wf(l) && first.value == 0.25 && second.value == 1.0
      && NormalizeOnArc(l, -135.0) == 0.25
  {
    FixAngleIdentity(-135.0);
  }
}
