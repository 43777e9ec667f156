/**
 * The older Grabber (Scripts/Grabber.cs): the same collider bookkeeping and
 * candidate loop as the core Grabber without proximity poses, a GrabJoint
 * instead of a GrabAttacher, and the solid hand's transition between the
 * controller and the grabbed object.
 */
module LegacyGrabbers {
  import opened Wrappers
  import opened Colliders
  import opened Proximity
  import Mathf
  import Ranking
  import LayerMasks
  import Anchors
  import Grabbables
  import Joints
  import Grabbers

  /**
   * The SolidHandMover as the Grabber drives it: the transition from the
   * controller (0) to the grabbed object (1), and the anchor it moves to.
   */
  datatype SolidHand = SolidHand(transition: real, anchor: Option<Anchors.AnchorRef>)

  /** The older Grabber's state. */
  datatype Grabber = Grabber(
    layers: LayerMasks.Mask,
    prox: Proximity,
    grabbed: Option<GrabbableId>,
    handCollidersActive: bool,
    solid: SolidHand)

  /** Bookkeeping consistent and the transition within [0,1]. */
  predicate Wf(gr: Grabber) {
    Consistent(gr.prox) && 0.0 <= gr.solid.transition <= 1.0
  }

  /**
   * OnTriggerEnter: no triggers or poses here; any collider on a layer of
   * the mask belonging to a Grabbable and not yet recorded is recorded,
   * raising OnGrabbableEnter for a Grabbable's first collider.
   */
  function OnTriggerEnter(gr: Grabber, c: ColliderId, collider: LayerMasks.Collider, owner: Option<GrabbableId>): (r: (Grabber, Option<Grabbers.Event>))
    ensures !LayerMasks.ContainsCollider(gr.layers, collider) || owner.None? || c in gr.prox.inRange ==> r == (gr, None)
    ensures LayerMasks.ContainsCollider(gr.layers, collider) && owner.Some? && c !in gr.prox.inRange ==>
      r.0 == gr.(prox := Enter(gr.prox, c, owner.value).0)
      && (r.1.Some? <==> !Listed(gr.prox.canGrab, owner.value))
    ensures r.1.Some? ==> r.1 == Some(Grabbers.GrabbableEnter(owner.value))
    ensures Wf(gr) ==> Wf(r.0)
  {
    if LayerMasks.ContainsCollider(gr.layers, collider) && owner.Some? && c !in gr.prox.inRange then
      var (p, entered) := Enter(gr.prox, c, owner.value);
      Grabbers.EnterKeepsConsistentIf(gr.prox, c, owner.value);
      (gr.(prox := p), if entered.Some? then Some(Grabbers.GrabbableEnter(owner.value)) else None)
    else (gr, None)
  }

  /**
   * OnTriggerExit: a recorded collider is forgotten; the last one out
   * empties the list with no event, otherwise a Grabbable left without
   * colliders raises OnGrabbableExit.
   */
  function OnTriggerExit(gr: Grabber, c: ColliderId): (r: (Grabber, Option<Grabbers.Event>))
    ensures c !in gr.prox.inRange ==> r == (gr, None)
    ensures r.0 == gr.(prox := Exit(gr.prox, c).0)
    ensures c in gr.prox.inRange && |gr.prox.inRange| == 1 ==> r.0.prox == Empty && r.1.None?
    ensures r.1.Some? ==> c in gr.prox.inRange && r.1 == Some(Grabbers.GrabbableExit(gr.prox.inRange[c]))
    ensures Wf(gr) && c in gr.prox.inRange && |gr.prox.inRange| > 1 ==>
      (r.1.Some? <==> Count(gr.prox.inRange, gr.prox.inRange[c]) == 1)
    ensures Wf(gr) ==> Wf(r.0)
  {
    var (p, left) := Exit(gr.prox, c);
    Grabbers.ExitKeepsConsistentIf(gr.prox, c);
    LastExitEmpties(gr.prox, c);
    (gr.(prox := p), if left.Some? then Some(Grabbers.GrabbableExit(left.value)) else None)
  }

  lemma LastExitEmpties(p: Proximity, c: ColliderId)
    ensures c in p.inRange && |p.inRange| == 1 ==> Exit(p, c).0 == Empty
  {
    if c in p.inRange && |p.inRange| == 1 {
      assert |p.inRange.Keys - {c}| == 0;
      assert p.inRange.Keys == {c};
    }
  }

  /**
   * BeginGrab: the core loop over the ranked candidates; on success the
   * object is held, the solid hand is sent to the anchor TryGrab chose,
   * the hand colliders are switched off and OnGrabBegin is raised.
   */
  function BeginGrab(gr: Grabber, maxRadius: real, order: seq<ColliderId>, rays: ColliderId -> seq<Ranking.Hit>,
                     accept: GrabbableId -> bool, anchorOf: GrabbableId -> Anchors.AnchorRef): (r: (Grabber, Option<Grabbers.Event>))
    requires Wf(gr) && Ranking.Enumerates(order, gr.prox.inRange)
    ensures Wf(r.0) && r.0.prox.inRange == gr.prox.inRange
    ensures |gr.prox.canGrab| <= 1 ==> r.0.prox == gr.prox
    ensures |gr.prox.canGrab| > 1 ==> Ranking.Sorted(r.0.prox.canGrab)
    ensures r.1.Some? ==>
      var g := r.1.value.g;
      r.1 == Some(Grabbers.GrabBegin(g)) && r.0.grabbed == Some(g) && accept(g) && Count(gr.prox.inRange, g) >= 1
      && !r.0.handCollidersActive && r.0.solid == gr.solid.(anchor := Some(anchorOf(g)))
    ensures r.1.None? ==> r.0 == gr.(prox := r.0.prox)
    // Every candidate ahead of the one taken is within reach and refused.
    ensures r.1.Some? ==> exists k :: (0 <= k < |r.0.prox.canGrab| && r.0.prox.canGrab[k].grabbable == r.1.value.g
      && !BeyondReach(r.0.prox.canGrab[k].distance, maxRadius)
      && forall j :: 0 <= j < k ==> !accept(r.0.prox.canGrab[j].grabbable))
    // A failed grab means every candidate within reach refused.
    ensures r.1.None? ==>
      forall j :: 0 <= j < |r.0.prox.canGrab| && !BeyondReach(r.0.prox.canGrab[j].distance, maxRadius) ==>
        !accept(r.0.prox.canGrab[j].grabbable)
  {
    var (list, k) := Ranking.ChooseCandidate(gr.prox, maxRadius, order, rays, accept);
    var gr1 := gr.(prox := Proximity(gr.prox.inRange, list));
    if k < 0 then (gr1, None)
    else
      var g := list[k].grabbable;
      assert Count(gr.prox.inRange, g) >= 1;
      (gr1.(grabbed := Some(g), handCollidersActive := false, solid := gr.solid.(anchor := Some(anchorOf(g)))),
       Some(Grabbers.GrabBegin(g)))
  }

  /** EndGrab on the Grabber's fields: nothing held, the solid hand's anchor gone, OnGrabEnd. */
  function EndGrab(gr: Grabber): (r: (Grabber, Grabbers.Event))
    requires gr.grabbed.Some?
    ensures r.0.grabbed.None? && r.0.solid.anchor.None? && r.1 == Grabbers.GrabEnd(gr.grabbed.value)
    ensures r.0.prox == gr.prox && r.0.solid.transition == gr.solid.transition
  {
    (gr.(grabbed := None, solid := gr.solid.(anchor := None)), Grabbers.GrabEnd(gr.grabbed.value))
  }

  /** Release: EndGrab when something is held, nothing otherwise. */
  function Release(gr: Grabber): (r: (Grabber, Option<Grabbers.Event>))
    ensures gr.grabbed.None? ==> r == (gr, None)
    ensures gr.grabbed.Some? ==> r.0.grabbed.None? && r.0.solid.anchor.None? && r.1 == Some(Grabbers.GrabEnd(gr.grabbed.value))
  {
    if gr.grabbed.Some? then
      var (g, e) := EndGrab(gr);
      (g, Some(e))
    else (gr, None)
  }

  /**
   * The end of Update: the solid hand moves towards the object at twice
   * the frame time per second while something is held, and back towards
   * the controller otherwise, dropping its anchor when it arrives.
   */
  function Transition(holding: bool, s: SolidHand, dt: real): (r: SolidHand)
    ensures 0.0 <= s.transition <= 1.0 ==> 0.0 <= r.transition <= 1.0
    ensures holding && dt >= 0.0 && s.transition <= 1.0 ==> r.transition >= s.transition
    ensures !holding && dt >= 0.0 && s.transition >= 0.0 ==> r.transition <= s.transition
    ensures holding || s.transition <= 0.0 ==> r.anchor == s.anchor
    ensures !holding && s.transition > 0.0 ==> (r.anchor.None? <==> r.transition == 0.0 || s.anchor.None?)
  {
    if holding then
      if s.transition < 1.0 then s.(transition := Mathf.Clamp01(s.transition + dt * 2.0)) else s
    else if s.transition > 0.0 then
      var t := Mathf.Clamp01(s.transition - dt * 2.0);
      s.(transition := t, anchor := if t == 0.0 then None else s.anchor)
    else s
  }

  /** Update: dispatch on the grip edges, the hand colliders, then the solid hand's transition. */
  function Update(gr: Grabber, gripBegan: bool, gripEnded: bool, dt: real, maxRadius: real, order: seq<ColliderId>,
                  rays: ColliderId -> seq<Ranking.Hit>, accept: GrabbableId -> bool,
                  anchorOf: GrabbableId -> Anchors.AnchorRef): (r: (Grabber, Option<Grabbers.Event>))
    requires Wf(gr) && Ranking.Enumerates(order, gr.prox.inRange)
    ensures Wf(r.0) && r.0.prox.inRange == gr.prox.inRange
    ensures r.1.Some? ==> r.1.value.GrabBegin? || r.1.value.GrabEnd?
    ensures r.1.Some? && r.1.value.GrabBegin? ==> gripBegan && |gr.prox.inRange| > 0 && r.0.grabbed == Some(r.1.value.g)
    ensures r.1.Some? && r.1.value.GrabEnd? ==> gripEnded && gr.grabbed == Some(r.1.value.g) && r.0.grabbed.None?
    ensures r.1.None? ==> r.0.grabbed == gr.grabbed
    ensures r.0.handCollidersActive && !gr.handCollidersActive ==> r.0.grabbed.None? && |r.0.prox.inRange| == 0
    ensures r.0.grabbed.None? && |r.0.prox.inRange| == 0 ==> r.0.handCollidersActive
    ensures dt >= 0.0 && r.0.grabbed.Some? ==> r.0.solid.transition >= gr.solid.transition
    ensures dt >= 0.0 && r.0.grabbed.None? ==> r.0.solid.transition <= gr.solid.transition
  {
    var (g1, e) := match Grabbers.Dispatch(gripBegan, gripEnded, |gr.prox.inRange|, gr.grabbed.Some?)
      case BeginGrabbing => BeginGrab(gr, maxRadius, order, rays, accept, anchorOf)
      case EndGrabbing => Release(gr)
      case NoAction => (gr, None);
    var active := Grabbers.CollidersAfterUpdate(g1.handCollidersActive, g1.grabbed.Some?, |g1.prox.inRange|);
    (g1.(handCollidersActive := active, solid := Transition(g1.grabbed.Some?, g1.solid, dt)), e)
  }

  /** The transition after `n` frames of `dt`. */
  function Frames(holding: bool, s: SolidHand, dt: real, n: nat): (r: SolidHand)
    ensures 0.0 <= s.transition <= 1.0 ==> 0.0 <= r.transition <= 1.0
  {
    if n == 0 then s else Transition(holding, Frames(holding, s, dt, n - 1), dt)
  }

  /**
   * While something is held each frame moves the transition up by `2 dt`
   * until it arrives: after `n` frames it has risen by `n` such steps, or is 1.
   */
  lemma {:induction false} FramesTowardObject(s: SolidHand, dt: real, n: nat)
    requires 0.0 <= s.transition <= 1.0 && dt >= 0.0
    ensures Frames(true, s, dt, n).transition == 1.0
      || Frames(true, s, dt, n).transition >= s.transition + (n as real) * (dt * 2.0)
  {
    if n > 0 {
      FramesTowardObject(s, dt, n - 1);
      var q := dt * 2.0;
      var prev := Frames(true, s, dt, n - 1);
      assert Frames(true, s, dt, n) == Transition(true, prev, dt);
      assert ((n - 1) as real) * q + q == (n as real) * q;
    }
  }

  /**
   * Once released each frame moves the transition down by `2 dt` until it
   * arrives: after `n` frames it has fallen by `n` such steps, or is 0.
   */
  lemma {:induction false} FramesTowardController(s: SolidHand, dt: real, n: nat)
    requires 0.0 <= s.transition <= 1.0 && dt >= 0.0
    ensures Frames(false, s, dt, n).transition == 0.0
      || Frames(false, s, dt, n).transition <= s.transition - (n as real) * (dt * 2.0)
  {
    if n > 0 {
      FramesTowardController(s, dt, n - 1);
      var q := dt * 2.0;
      var prev := Frames(false, s, dt, n - 1);
      assert Frames(false, s, dt, n) == Transition(false, prev, dt);
      assert ((n - 1) as real) * q + q == (n as real) * q;
    }
  }

  /**
   * Half a second of frames is enough: once `2 n dt >= 1` the solid hand
   * has reached the object, or, released, is back at the controller with
   * its anchor dropped.
   */
  lemma TransitionCompletes(holding: bool, s: SolidHand, dt: real, n: nat)
    requires 0.0 <= s.transition <= 1.0 && dt >= 0.0
    requires (n as real) * (dt * 2.0) >= 1.0
    ensures holding ==> Frames(holding, s, dt, n).transition == 1.0
    ensures !holding ==> Frames(holding, s, dt, n).transition == 0.0
    ensures !holding && s.transition > 0.0 ==> Frames(holding, s, dt, n).anchor.None?
  {
    if holding {
      FramesTowardObject(s, dt, n);
    } else {
      FramesTowardController(s, dt, n);
    }
    if !holding && s.transition > 0.0 {
      ArrivalDropsAnchor(s, dt, n);
    }
  }

  /** Once a released solid hand has moved, reaching 0 means its anchor was dropped on the way. */
  lemma {:induction false} ArrivalDropsAnchor(s: SolidHand, dt: real, n: nat)
    requires 0.0 < s.transition <= 1.0 && dt >= 0.0
    ensures Frames(false, s, dt, n).transition == 0.0 ==> Frames(false, s, dt, n).anchor.None?
  {
    if n > 0 {
      ArrivalDropsAnchor(s, dt, n - 1);
    }
  }

  // ---------------------------------------------------------------------
  // Joints of the hands holding one object

  /** One grabbed object seen from both hands' GrabJoints. */
  datatype Hold = Hold(body: GrabbableId, holders: Grabbables.Holders, joints: map<Grabbables.GrabberId, Joints.Joint>)

  /**
   * EndGrab on the joints and holders: the same hand-off as the core
   * Grabber, with GrabJoint's SetGrab and SetSecondGrab, which restart the
   * engagement.  Also says whether OnReleased fired.
   */
  function EndGrabHold(h: Hold, me: Grabbables.GrabberId): (r: (Hold, bool))
    requires me in h.joints
    requires h.holders.grabbedBySecond.Some? ==>
      h.holders.grabbedBy.Some? && h.holders.grabbedBy.value in h.joints && h.holders.grabbedBySecond.value in h.joints
    ensures r.0.body == h.body && r.0.joints.Keys == h.joints.Keys
    ensures r.0.holders == Grabbables.Release(h.holders, me).after && r.1 == Grabbables.Release(h.holders, me).releasedEvent
    ensures var j := r.0.joints[me];
      j.grabbedBody.None? && j.grabbedAnchor.None? && j.secondAnchor.None? && j.secondTarget.None?
    ensures h.holders.grabbedBySecond.Some? && h.holders.grabbedBySecond != Some(me) ==>
      var b := h.holders.grabbedBySecond.value;
      r.0.joints[b] == Joints.SetGrab(h.joints[b], Some(h.body), h.joints[me].secondAnchor)
    ensures h.holders.grabbedBySecond == Some(me) && h.holders.grabbedBy != Some(me) ==>
      var a := h.holders.grabbedBy.value;
      r.0.joints[a] == Joints.SetSecondGrab(h.joints[a], None, None)
  {
    var js := h.joints;
    var js1 :=
      if h.holders.grabbedBySecond == Some(me) then
        var a := h.holders.grabbedBy.value;
        js[a := Joints.SetSecondGrab(js[a], None, None)]
      else if h.holders.grabbedBySecond.Some? then
        var b := h.holders.grabbedBySecond.value;
        js[b := Joints.SetGrab(js[b], Some(h.body), js[me].secondAnchor)]
      else js;
    var rel := Grabbables.Release(h.holders, me);
    (Hold(h.body, rel.after, js1[me := Joints.SetSecondGrab(Joints.SetGrab(js1[me], None, None), None, None)]), rel.releasedEvent)
  }

  /**
   * Unlike the GrabAttacher, a GrabJoint restarts its engagement on every
   * hand-off: when the first hand lets go, the second hand's joint takes
   * the body from zero engagement (for a positive engage time) and ramps
   * up again; when the second lets go, the first one's joint restarts too.
   */
  lemma HandOffRestartsEngagement(h: Hold, a: Grabbables.GrabberId, b: Grabbables.GrabberId)
    requires h.holders.grabbedBy == Some(a) && h.holders.grabbedBySecond == Some(b) && a != b
    requires a in h.joints && b in h.joints
    ensures var (first, _) := EndGrabHold(h, a);
      first.holders.grabbedBy == Some(b) && first.joints[b].grabbedBody == Some(h.body)
      && first.joints[b].grabbedAnchor == h.joints[a].secondAnchor
      && first.joints[b].engaged == Joints.Restart(h.joints[b].engageTime)
    ensures var (second, _) := EndGrabHold(h, b);
      second.holders.grabbedBy == Some(a) && second.holders.grabbedBySecond.None?
      && second.joints[a].grabbedBody == h.joints[a].grabbedBody && !Joints.IsTwoHanded(second.joints[a])
      && second.joints[a].engaged == Joints.Restart(h.joints[a].engageTime)
  {
  }
}
