/**
 * GrabJoint: the older attacher.  Every new grab restarts the engagement,
 * which then rises linearly over `engageTime` seconds.  Only the scalar
 * state is modelled; the forces are vector physics.
 */
module Joints {
  import opened Wrappers
  import opened Hands
  import Mathf
  import Anchors
  import Attachers

  /** The joint's fields, with `engageTime` (0.15 s by default) and the engagement. */
  datatype Joint = Joint(
    grabbedBody: Option<Anchors.GrabbableId>,
    grabbedAnchor: Option<Anchors.AnchorRef>,
    secondAnchor: Option<Anchors.AnchorRef>,
    secondTarget: Option<Attachers.TargetId>,
    engageTime: real,
    engaged: real)

  const DefaultEngageTime := 0.15

  /** A fresh joint: nothing grabbed and fully engaged. */
  function Initial(engageTime: real): Joint {
    Joint(None, None, None, None, engageTime, 1.0)
  }

  /**
   * The states the joint reaches: engagement in [0,1], and below 1 only
   * when there is an engage time to ramp over.
   */
  predicate Wf(j: Joint) {
    0.0 <= j.engaged <= 1.0 && (j.engageTime <= 0.0 ==> j.engaged == 1.0)
  }

  /** The engagement a new grab starts from: 0 when it is to ramp up, 1 otherwise. */
  function Restart(engageTime: real): (e: real)
    ensures engageTime > 0.0 <==> e == 0.0
    ensures engageTime <= 0.0 <==> e == 1.0
  {
    if engageTime > 0.0 then 0.0 else 1.0
  }

  /** SetGrab: records body and anchor and restarts the engagement. */
  function SetGrab(j: Joint, body: Option<Anchors.GrabbableId>, anchor: Option<Anchors.AnchorRef>): (r: Joint)
    ensures r.grabbedBody == body && r.grabbedAnchor == anchor
    ensures r.secondAnchor == j.secondAnchor && r.secondTarget == j.secondTarget && r.engageTime == j.engageTime
    ensures r.engaged == Restart(j.engageTime)
    ensures Wf(r)
  {
    j.(grabbedBody := body, grabbedAnchor := anchor, engaged := Restart(j.engageTime))
  }

  /** SetSecondGrab: records the second anchor and target and restarts the engagement. */
  function SetSecondGrab(j: Joint, anchor: Option<Anchors.AnchorRef>, target: Option<Attachers.TargetId>): (r: Joint)
    ensures r.secondAnchor == anchor && r.secondTarget == target
    ensures r.grabbedBody == j.grabbedBody && r.grabbedAnchor == j.grabbedAnchor && r.engageTime == j.engageTime
    ensures r.engaged == Restart(j.engageTime)
    ensures Wf(r)
  {
    j.(secondAnchor := anchor, secondTarget := target, engaged := Restart(j.engageTime))
  }

  predicate IsTwoHanded(j: Joint) {
    j.secondTarget.Some? && j.secondAnchor.Some?
  }

  /** One step of the ramp: `Clamp01(e + dt / engageTime)` while below 1. */
  function RampStep(e: real, dt: real, engageTime: real): (r: real)
    requires e < 1.0 ==> engageTime > 0.0
    ensures e < 1.0 ==> 0.0 <= r <= 1.0
    ensures e >= 1.0 ==> r == e
    ensures e < 1.0 && dt >= 0.0 ==> r >= e || e < 0.0
  {
    if e < 1.0 then Mathf.Clamp01(e + Mathf.Fraction(dt, engageTime)) else e
  }

  /** The driving quantities of one step. */
  datatype Drive = Drive(
    twoHandedBlend: Option<real>,  // the weight of the second hand's delta, read before the ramp
    blend: real,                   // the engagement the velocity blends read, after the ramp
    mass: real,
    turn: Option<real>)

  /**
   * FixedUpdate: nothing at all happens without both bodies; otherwise the
   * two-handed blend reads the engagement, the ramp advances it, and the
   * velocity blends read the new value.
   */
  function FixedUpdate(j: Joint, handBody: bool, bodyMass: real, dt: real, angle: real, axisInfinite: bool): (r: (Joint, Option<Drive>))
    requires Wf(j)
    ensures j.grabbedBody.None? || !handBody ==> r.0 == j && r.1.None?
    ensures Wf(r.0)
    ensures dt >= 0.0 ==> r.0.engaged >= j.engaged
    ensures r.1.Some? ==> r.0 == j.(engaged := r.1.value.blend)
    ensures r.1.Some? ==> (r.1.value.twoHandedBlend.Some? <==> IsTwoHanded(j))
    ensures r.1.Some? && r.1.value.twoHandedBlend.Some? ==> r.1.value.twoHandedBlend.value + r.1.value.twoHandedBlend.value == j.engaged
    ensures r.1.Some? ==> (r.1.value.turn.None? <==> axisInfinite)
    ensures r.1.Some? && r.1.value.turn.Some? && 0.0 <= angle <= 360.0 ==> -180.0 < r.1.value.turn.value <= 180.0
  {
    if j.grabbedBody.Some? && handBody then
      var two := IsTwoHanded(j);
      var pre := if two then Some(0.5 * j.engaged) else None;
      var e := RampStep(j.engaged, dt, j.engageTime);
      var turn := if axisInfinite then None else Some(SignedAngle(angle));
      (j.(engaged := e), Some(Drive(pre, e, Attachers.DriveMass(bodyMass, two), turn)))
    else (j, None)
  }

  /** The engagement after `n` driven steps of `dt`. */
  function Engagement(e: real, dt: real, engageTime: real, n: nat): (r: real)
    requires engageTime > 0.0
    ensures 0.0 <= e <= 1.0 && dt >= 0.0 ==> e <= r <= 1.0
  {
    if n == 0 then e else RampStep(Engagement(e, dt, engageTime, n - 1), dt, engageTime)
  }

  /**
   * Every driven step adds `dt / engageTime` until the engagement is full:
   * after `n` steps it is at least the start plus `n` increments, or 1.
   */
  lemma {:induction false} EngagementGrows(e: real, dt: real, engageTime: real, n: nat)
    requires engageTime > 0.0 && dt >= 0.0 && 0.0 <= e <= 1.0
    ensures var q := Mathf.Fraction(dt, engageTime);
      Engagement(e, dt, engageTime, n) == 1.0 || Engagement(e, dt, engageTime, n) >= e + (n as real) * q
  {
    if n > 0 {
      EngagementGrows(e, dt, engageTime, n - 1);
      var q := Mathf.Fraction(dt, engageTime);
      var prev := Engagement(e, dt, engageTime, n - 1);
      assert ((n - 1) as real) * q + q == (n as real) * q;
      if prev < 1.0 {
        assert prev >= e + ((n - 1) as real) * q;
      }
    }
  }

  /**
   * From a restart at 0 the engagement is full after any number of steps
   * that covers the engage time: `n * dt >= engageTime`.
   */
  lemma FullAfterEngageTime(dt: real, engageTime: real, n: nat)
    requires engageTime > 0.0 && dt > 0.0
    requires (n as real) * dt >= engageTime
    ensures Engagement(0.0, dt, engageTime, n) == 1.0
  {
    EngagementGrows(0.0, dt, engageTime, n);
    var q := Mathf.Fraction(dt, engageTime);
    StepsCoverOne(dt, engageTime, n);
  }

  /** `n` increments of `dt / engageTime` add up to at least 1 once `n * dt` covers the engage time. */
  lemma StepsCoverOne(dt: real, engageTime: real, n: nat)
    requires engageTime > 0.0 && dt > 0.0
    requires (n as real) * dt >= engageTime
    ensures (n as real) * Mathf.Fraction(dt, engageTime) >= 1.0
  {
    var q := Mathf.Fraction(dt, engageTime);
    Mathf.QuotientTimes(dt, engageTime);
    assert engageTime * q == dt;
    assert engageTime * ((n as real) * q) == (n as real) * dt;
    if (n as real) * q < 1.0 {
      Attachers.MulLt((n as real) * q, 1.0, engageTime);
    }
  }
}
