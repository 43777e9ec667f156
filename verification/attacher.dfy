/**
 * GrabAttacher (Core): the grab and second-grab slots a Grabber fills, and
 * the scalar state of its physics step: the engagement ramp, the
 * two-handed test, the linear gain and the wrapped turning angle.  The
 * forces themselves are vector physics and are not modelled.
 */
module Attachers {
  import opened Wrappers
  import opened Hands
  import opened Vectors
  import Mathf
  import Anchors

  /** The Transform a hand steers the grabbed object towards. */
  type TargetId = nat

  /**
   * The attacher's fields: the grabbed body and anchor, the hand that
   * grabbed first, the second hand's anchor and target, DisableForce and
   * the engagement in [0,1].
   */
  datatype Attacher = Attacher(
    grabbedBody: Option<Anchors.GrabbableId>,
    grabbedAnchor: Option<Anchors.AnchorRef>,
    firstGrabbedBy: Hand,
    secondAnchor: Option<Anchors.AnchorRef>,
    secondTarget: Option<TargetId>,
    disableForce: bool,
    engaged: real)

  /** A fresh attacher: nothing grabbed, fully engaged, and `Hand` at its default (no flag). */
  const Initial := Attacher(None, None, Neither, None, None, false, 1.0)

  predicate Wf(a: Attacher) {
    0.0 <= a.engaged <= 1.0
  }

  /** SetGrab: records body, anchor and hand; engagement and the second grab are untouched. */
  function SetGrab(a: Attacher, body: Option<Anchors.GrabbableId>, anchor: Option<Anchors.AnchorRef>, hand: Hand): (r: Attacher)
    ensures r.grabbedBody == body && r.grabbedAnchor == anchor && r.firstGrabbedBy == hand
    ensures r.engaged == a.engaged && r.disableForce == a.disableForce
    ensures IsTwoHanded(r) == IsTwoHanded(a)
  {
    a.(grabbedBody := body, grabbedAnchor := anchor, firstGrabbedBy := hand)
  }

  /** SetSecondGrab: records the second anchor and target; nothing else changes. */
  function SetSecondGrab(a: Attacher, anchor: Option<Anchors.AnchorRef>, target: Option<TargetId>): (r: Attacher)
    ensures r.secondAnchor == anchor && r.secondTarget == target
    ensures r.engaged == a.engaged && r.grabbedBody == a.grabbedBody && r.grabbedAnchor == a.grabbedAnchor
    ensures IsTwoHanded(r) <==> anchor.Some? && target.Some?
  {
    a.(secondAnchor := anchor, secondTarget := target)
  }

  /** The hold is two-handed when both a second target and a second anchor are set. */
  predicate IsTwoHanded(a: Attacher) {
    a.secondTarget.Some? && a.secondAnchor.Some?
  }

  /** Clearing both grabs leaves a one-handed attacher holding nothing; a second clear changes nothing more. */
  lemma ClearedHoldsNothing(a: Attacher)
    ensures var c := SetSecondGrab(SetGrab(a, None, None, a.firstGrabbedBy), None, None);
      c.grabbedBody.None? && c.grabbedAnchor.None? && !IsTwoHanded(c) && c.engaged == a.engaged
      && SetSecondGrab(SetGrab(c, None, None, c.firstGrabbedBy), None, None) == c
  {
  }

  // ---------------------------------------------------------------------
  // Scalars of the physics step

  const MoveSpeed := 60.0

  /** The mass the linear step works with: halved while two hands hold the object. */
  function DriveMass(mass: real, twoHanded: bool): (r: real)
    ensures twoHanded ==> r + r == mass
    ensures !twoHanded ==> r == mass
    ensures mass >= 0.0 ==> 0.0 <= r <= mass
  {
    if twoHanded then mass * 0.5 else mass
  }

  /** The linear gain `60 / (1 + mass)`: in (0, 60] for a non-negative mass, 60 exactly for a massless body. */
  function Gain(mass: real): (r: real)
    requires mass >= 0.0
    ensures 0.0 < r <= MoveSpeed
    ensures mass == 0.0 ==> r == MoveSpeed
  {
    GainBounds(mass);
    Mathf.Fraction(MoveSpeed, 1.0 + mass)
  }

  lemma GainBounds(mass: real)
    requires mass >= 0.0
    ensures 0.0 < Mathf.Fraction(MoveSpeed, 1.0 + mass) <= MoveSpeed
  {
    var q := Mathf.Fraction(MoveSpeed, 1.0 + mass);
    Mathf.QuotientTimes(MoveSpeed, 1.0 + mass);
    assert (1.0 + mass) * q == MoveSpeed;
    if q <= 0.0 {
      Mathf.MulLe(q, 0.0, 1.0 + mass);
    }
    if q > MoveSpeed {
      Mathf.MulLe(1.0, 1.0 + mass, q);
    }
  }

  /** A heavier body gets a gain no larger than a lighter one. */
  lemma {:induction false} GainDecreasing(m1: real, m2: real)
    requires 0.0 <= m1 <= m2
    ensures Gain(m2) <= Gain(m1)
  {
    assert Gain(m1) == MoveSpeed / (1.0 + m1) && Gain(m2) == MoveSpeed / (1.0 + m2);
    QuotientAntitone(MoveSpeed, 1.0 + m1, 1.0 + m2);
  }

  /** A non-negative number divided by a larger positive divisor gives no more. */
  lemma QuotientAntitone(n: real, d1: real, d2: real)
    requires n >= 0.0 && 0.0 < d1 <= d2
    ensures n / d2 <= n / d1
  {
    var q1 := n / d1;
    var q2 := n / d2;
    Mathf.QuotientTimes(n, d1);
    Mathf.QuotientTimes(n, d2);
    Mathf.FactorOfPositive(n, d2, q2);
    Mathf.MulLe(d1, d2, q2);
    CancelLe(d1, q2, q1);
  }

  lemma CancelLe(d: real, x: real, y: real)
    requires d > 0.0 && d * x <= d * y
    ensures x <= y
  {
    if x > y {
      MulLt(y, x, d);
    }
  }

  lemma MulLt(x: real, y: real, d: real)
    requires x < y && d > 0.0
    ensures d * x < d * y
  {
  }

  /** One step of the engagement ramp, `Mathf.Lerp(e, 1, 0.125)`. */
  function Ramp(e: real): (r: real)
    ensures 1.0 - r == 0.875 * (1.0 - e)
    ensures 0.0 <= e < 1.0 ==> e < r < 1.0
  {
    Mathf.Lerp(e, 1.0, 0.125)
  }

  /** The ramp only runs while the engagement is below 1. */
  function RampIfLoose(e: real): (r: real)
    ensures 0.0 <= e <= 1.0 ==> e <= r <= 1.0
    ensures e < 1.0 ==> 1.0 - r == 0.875 * (1.0 - e)
    ensures e >= 1.0 ==> r == e
  {
    if e < 1.0 then Ramp(e) else e
  }

  /** The driving quantities of one physics step, for the forces the model leaves out. */
  datatype Drive = Drive(
    blend: real,          // the engagement the velocity blends read
    twoHanded: bool,
    secondHand: Hand,     // the hand whose anchor slot the second grab uses
    mass: real,           // the mass the first hand's pull is scaled by
    secondMass: Option<real>, // the mass the second hand's pull is scaled by, when two-handed
    turn: Option<real>)   // the signed turn in degrees, None when already aligned

  /**
   * FixedUpdate: nothing with DisableForce; disengage fully when the
   * grabbed body or the hand body is missing; otherwise ramp the
   * engagement and drive with the ramped value.  `angle` and
   * `axisInfinite` are what ToAngleAxis gives for the rotation still to go.
   */
  function FixedUpdate(a: Attacher, handBody: bool, bodyMass: real, angle: real, axisInfinite: bool): (r: (Attacher, Option<Drive>))
    ensures a.disableForce ==> r.0 == a && r.1.None?
    ensures !a.disableForce && (a.grabbedBody.None? || !handBody) ==> r.0 == a.(engaged := 0.0) && r.1.None?
    ensures Wf(a) ==> Wf(r.0)
    ensures r.1.Some? ==> r.0.engaged >= a.engaged || a.engaged > 1.0
    ensures r.1.Some? ==> r.1.value.blend == r.0.engaged
    ensures r.1.Some? ==> (r.1.value.twoHanded <==> a.secondTarget.Some? && a.secondAnchor.Some?)
    ensures r.1.Some? && r.1.value.twoHanded ==> r.1.value.secondHand != a.firstGrabbedBy || a.firstGrabbedBy == Both || a.firstGrabbedBy == Neither
    ensures r.1.Some? ==> (r.1.value.turn.None? <==> axisInfinite)
    ensures r.1.Some? && r.1.value.turn.Some? && 0.0 <= angle <= 360.0 ==> -180.0 < r.1.value.turn.value <= 180.0
    // Two-handed, the first hand's pull sees half the mass and the second hand's the whole of it.
    ensures r.1.Some? && r.1.value.twoHanded ==> r.1.value.mass + r.1.value.mass == bodyMass && r.1.value.secondMass == Some(bodyMass)
    ensures r.1.Some? && !r.1.value.twoHanded ==> r.1.value.mass == bodyMass && r.1.value.secondMass.None?
  {
    if a.disableForce then (a, None)
    else if a.grabbedBody.Some? && handBody then
      var two := IsTwoHanded(a);
      var e := RampIfLoose(a.engaged);
      var turn := if axisInfinite then None else Some(SignedAngle(angle));
      var second := if two then Some(bodyMass) else None;
      (a.(engaged := e), Some(Drive(e, two, OtherHand(a.firstGrabbedBy), DriveMass(bodyMass, two), second, turn)))
    else (a.(engaged := 0.0), None)
  }

  /**
   * Two-handed, the second hand pulls with a gain no larger than the
   * first hand's, since only the first hand's pull halves the mass.
   */
  lemma SecondHandGainNotLarger(a: Attacher, handBody: bool, bodyMass: real, angle: real, axisInfinite: bool)
    requires bodyMass >= 0.0
    requires FixedUpdate(a, handBody, bodyMass, angle, axisInfinite).1.Some?
    requires FixedUpdate(a, handBody, bodyMass, angle, axisInfinite).1.value.twoHanded
    ensures var d := FixedUpdate(a, handBody, bodyMass, angle, axisInfinite).1.value;
      d.secondMass.Some? && 0.0 <= d.mass && Gain(d.secondMass.value) <= Gain(d.mass)
  {
    var d := FixedUpdate(a, handBody, bodyMass, angle, axisInfinite).1.value;
    GainDecreasing(d.mass, bodyMass);
  }

  /** The engagement after `n` driven steps. */
  function Engagement(e: real, n: nat): (r: real)
    ensures 0.0 <= e <= 1.0 ==> e <= r <= 1.0
  {
    if n == 0 then e else RampIfLoose(Engagement(e, n - 1))
  }

  function Pow(x: real, n: nat): (r: real)
    ensures 0.0 <= x ==> 0.0 <= r
  {
    if n == 0 then 1.0 else x * Pow(x, n - 1)
  }

  /**
   * The engagement closes the gap to 1 geometrically: after `n` driven
   * steps from `e` in [0,1] the gap is `0.875^n` times the first one.
   */
  lemma EngagementGap(e: real, n: nat)
    requires 0.0 <= e <= 1.0
    ensures 1.0 - Engagement(e, n) == Pow(0.875, n) * (1.0 - e)
  {
    GapShrinks(e, n);
    ShrunkIsPow(1.0 - e, n);
  }

  /** A gap `g` after `n` steps that each keep seven eighths of it. */
  function Shrunk(g: real, n: nat): real {
    if n == 0 then g else 0.875 * Shrunk(g, n - 1)
  }

  /** Each driven step keeps seven eighths of the gap to 1. */
  lemma {:induction false} GapShrinks(e: real, n: nat)
    requires 0.0 <= e <= 1.0
    ensures 1.0 - Engagement(e, n) == Shrunk(1.0 - e, n)
  {
    if n > 0 {
      GapShrinks(e, n - 1);
      StepGap(Engagement(e, n - 1));
    }
  }

  /** One step closes the gap to 1 by an eighth, also when the gap is already 0. */
  lemma StepGap(e: real)
    requires e <= 1.0
    ensures 1.0 - RampIfLoose(e) == 0.875 * (1.0 - e)
  {
  }

  /** Keeping seven eighths `n` times is multiplying by 0.875^n. */
  lemma {:induction false} ShrunkIsPow(g: real, n: nat)
    ensures Shrunk(g, n) == Pow(0.875, n) * g
  {
    if n > 0 {
      ShrunkIsPow(g, n - 1);
      ScaleGap(Pow(0.875, n - 1), g, Shrunk(g, n - 1));
    }
  }

  /** Scaling a product by the ramp factor scales the gap it equals. */
  lemma ScaleGap(p: real, g: real, gap: real)
    requires gap == p * g
    ensures (0.875 * p) * g == 0.875 * gap
  {
  }

  /** Driven steps of FixedUpdate ramp the engagement exactly as Engagement says. */
  lemma {:induction false} DrivenStepsRamp(a: Attacher, n: nat, handBody: bool, mass: real, angle: real, axisInfinite: bool)
    requires !a.disableForce && a.grabbedBody.Some? && handBody
    ensures Steps(a, n, mass, angle, axisInfinite).engaged == Engagement(a.engaged, n)
    ensures Steps(a, n, mass, angle, axisInfinite).grabbedBody == a.grabbedBody
    ensures !Steps(a, n, mass, angle, axisInfinite).disableForce
  {
    if n > 0 {
      DrivenStepsRamp(a, n - 1, handBody, mass, angle, axisInfinite);
    }
  }

  /** `n` FixedUpdate calls with the hand body present and the same readings. */
  function Steps(a: Attacher, n: nat, mass: real, angle: real, axisInfinite: bool): Attacher {
    if n == 0 then a else FixedUpdate(Steps(a, n - 1, mass, angle, axisInfinite), true, mass, angle, axisInfinite).0
  }

  // ---------------------------------------------------------------------
  // SnapOrient

  /**
   * SnapOrient: with no target or no grabbed body it is an error and
   * nothing changes (None); otherwise the Euler components named in
   * `twistAxis` are taken from the target and the others kept.
   */
  function SnapOrient(a: Attacher, hasTarget: bool, target: Vec3, rot: Vec3, twistAxis: Axis): (r: Option<Vec3>)
    ensures r.None? <==> !hasTarget || a.grabbedBody.None?
    ensures r.Some? ==> (twistAxis.x ==> r.value.x == target.x) && (!twistAxis.x ==> r.value.x == rot.x)
    ensures r.Some? ==> (twistAxis.y ==> r.value.y == target.y) && (!twistAxis.y ==> r.value.y == rot.y)
    ensures r.Some? ==> (twistAxis.z ==> r.value.z == target.z) && (!twistAxis.z ==> r.value.z == rot.z)
  {
    if !hasTarget || a.grabbedBody.None? then None
    else
      var x := if twistAxis.x then target.x else rot.x;
      var y := if twistAxis.y then target.y else rot.y;
      var z := if twistAxis.z then target.z else rot.z;
      Some(Vec3(x, y, z))
  }

  /**
   * Snapping is idempotent, the default mask copies the whole target, and
   * the empty mask copies nothing.
   */
  lemma SnapOrientIdempotent(a: Attacher, target: Vec3, rot: Vec3, twistAxis: Axis)
    requires a.grabbedBody.Some?
    ensures var once := SnapOrient(a, true, target, rot, twistAxis).value;
      SnapOrient(a, true, target, once, twistAxis) == Some(once)
    ensures SnapOrient(a, true, target, rot, AllAxes) == Some(target)
    ensures SnapOrient(a, true, target, rot, Axis(false, false, false)) == Some(rot)
  {
  }
}
