/**
 * Grabber (Core): one hand's trigger-volume bookkeeping, proximity poses,
 * the per-frame grab/release dispatch, BeginGrab's candidate loop, and the
 * hand-off between the two hands' attachers when a grab ends.
 *
 * Engine lookups are inputs: what a collider is (its layer, whether it is
 * a trigger, the PoseTrigger on it and the Grabbable above it) arrives as
 * a ColliderInfo, each Grabbable's proximity pose as `poseOf`, and the
 * Grabbable's TryGrab verdict as `accept`.
 */
module Grabbers {
  import opened Wrappers
  import opened Hands
  import opened Colliders
  import opened Proximity
  import Ranking
  import LayerMasks
  import Anchors
  import Grabbables
  import Attachers
  import ButtonStates

  /** A PoseTrigger: its own Collider, its pose and which hands respond to it. */
  datatype PoseTrigger = PoseTrigger(collider: ColliderId, proximityPoseID: int, leftHand: bool, rightHand: bool)

  /** PoseTrigger.SupportsHand: the left flag for Left, the right flag for every other value. */
  function PoseSupportsHand(t: PoseTrigger, hand: Hand): (r: bool)
    ensures hand == Left ==> r == t.leftHand
    ensures hand != Left ==> r == t.rightHand
  {
    if hand == Left then t.leftHand else t.rightHand
  }

  /** What the engine reports about a collider touching the trigger volume. */
  datatype ColliderInfo = ColliderInfo(layer: int, isTrigger: bool, poseTrigger: Option<PoseTrigger>, owner: Option<GrabbableId>)

  /**
   * The Grabber's state: its hand and layer mask, the proximity
   * bookkeeping, the grabbed object, the proximity pose (0 for none) with
   * the PoseTrigger that set it, and whether the hand colliders are active.
   */
  datatype Grabber = Grabber(
    hand: Hand,
    layers: LayerMasks.Mask,
    prox: Proximity,
    grabbed: Option<GrabbableId>,
    poseID: int,
    poseTrigger: Option<PoseTrigger>,
    handCollidersActive: bool)

  /** The Grabber's four events. */
  datatype Event = GrabbableEnter(g: GrabbableId) | GrabbableExit(g: GrabbableId) | GrabBegin(g: GrabbableId) | GrabEnd(g: GrabbableId)

  /** A new Grabber with the default mask 0x7FFFFFFF: nothing near, nothing held, no pose. */
  function Initial(hand: Hand): (gr: Grabber)
    ensures Consistent(gr.prox) && gr.grabbed.None? && gr.poseID == 0
  {
    Grabber(hand, 0x7FFF_FFFF, Empty, None, 0, None, true)
  }

  /** The invariant the Grabber keeps: its bookkeeping is consistent. */
  predicate Wf(gr: Grabber) {
    Consistent(gr.prox)
  }

  function SetProximityPose(gr: Grabber, poseID: int, trigger: Option<PoseTrigger>): Grabber {
    gr.(poseID := poseID, poseTrigger := trigger)
  }

  function ClearProximityPose(gr: Grabber): Grabber {
    gr.(poseID := 0, poseTrigger := None)
  }

  /** Trigger colliders are ignored while something is held or a proximity pose is showing. */
  predicate IgnoresTriggers(gr: Grabber) {
    gr.grabbed.Some? || gr.poseID != 0
  }

  /** The collider is recorded as a Grabbable collider by OnTriggerEnter. */
  predicate Records(gr: Grabber, c: ColliderId, info: ColliderInfo) {
    LayerMasks.Contains(gr.layers, info.layer)
    && !(info.isTrigger && (IgnoresTriggers(gr) || info.poseTrigger.Some?))
    && info.owner.Some? && c !in gr.prox.inRange
  }

  /**
   * OnTriggerEnter: past the layer test, a trigger collider is ignored
   * while triggers are, and a PoseTrigger sets this hand's pose if it
   * supports the hand and goes no further; any other collider of a
   * Grabbable is recorded, and a Grabbable entering for the first time
   * raises OnGrabbableEnter and, when nothing is held and no pose shows,
   * sets its proximity pose.
   */
  function OnTriggerEnter(gr: Grabber, c: ColliderId, info: ColliderInfo, poseOf: GrabbableId -> int): (r: (Grabber, Option<Event>))
    ensures r.0.hand == gr.hand && r.0.layers == gr.layers && r.0.grabbed == gr.grabbed
    ensures r.0.handCollidersActive == gr.handCollidersActive
    ensures !LayerMasks.Contains(gr.layers, info.layer) ==> r == (gr, None)
    ensures info.isTrigger && IgnoresTriggers(gr) ==> r == (gr, None)
    ensures !Records(gr, c, info) ==> r.0.prox == gr.prox && r.1.None?
    ensures Records(gr, c, info) ==> r.0.prox == Enter(gr.prox, c, info.owner.value).0
    ensures Records(gr, c, info) ==> (r.1.Some? <==> !Listed(gr.prox.canGrab, info.owner.value))
    ensures r.1.Some? ==> r.1 == Some(GrabbableEnter(info.owner.value))
    // A PoseTrigger sets the pose exactly when it supports this hand.
    ensures LayerMasks.Contains(gr.layers, info.layer) && info.isTrigger && !IgnoresTriggers(gr) && info.poseTrigger.Some? ==>
      var t := info.poseTrigger.value;
      (PoseSupportsHand(t, gr.hand) ==> r.0.poseID == t.proximityPoseID && r.0.poseTrigger == Some(t))
      && (!PoseSupportsHand(t, gr.hand) ==> r.0 == gr)
    // A Grabbable's proximity pose is taken only on its first collider, and only when triggers are not ignored.
    ensures r.1.Some? && !IgnoresTriggers(gr) ==> r.0.poseID == poseOf(info.owner.value) && r.0.poseTrigger.None?
    ensures r.1.None? && !(info.isTrigger && info.poseTrigger.Some?) ==> r.0.poseID == gr.poseID && r.0.poseTrigger == gr.poseTrigger
    ensures IgnoresTriggers(gr) ==> r.0.poseID == gr.poseID && r.0.poseTrigger == gr.poseTrigger
    ensures Wf(gr) ==> Wf(r.0)
  {
    if !LayerMasks.Contains(gr.layers, info.layer) then (gr, None)
    else if info.isTrigger && IgnoresTriggers(gr) then (gr, None)
    else if info.isTrigger && info.poseTrigger.Some? then
      var t := info.poseTrigger.value;
      (if PoseSupportsHand(t, gr.hand) then SetProximityPose(gr, t.proximityPoseID, Some(t)) else gr, None)
    else if info.owner.Some? && c !in gr.prox.inRange then
      var g := info.owner.value;
      var (p, entered) := Enter(gr.prox, c, g);
      EnterKeepsConsistentIf(gr.prox, c, g);
      var gr1 := gr.(prox := p);
      if entered.Some? then
        (if !IgnoresTriggers(gr) then SetProximityPose(gr1, poseOf(g), None) else gr1, Some(GrabbableEnter(g)))
      else (gr1, None)
    else (gr, None)
  }

  lemma EnterKeepsConsistentIf(p: Proximity, c: ColliderId, g: GrabbableId)
    ensures Consistent(p) ==> Consistent(Enter(p, c, g).0)
  {
    if Consistent(p) {
      EnterKeepsConsistent(p, c, g);
    }
  }

  lemma ExitKeepsConsistentIf(p: Proximity, c: ColliderId)
    ensures Consistent(p) ==> Consistent(Exit(p, c).0)
  {
    if Consistent(p) {
      ExitKeepsConsistent(p, c);
    }
  }

  /** The collider leaving is the one of the PoseTrigger that set the pose. */
  predicate LeavesPoseTrigger(gr: Grabber, c: ColliderId, isTrigger: bool) {
    isTrigger && gr.poseTrigger.Some? && gr.poseTrigger.value.collider == c
  }

  /**
   * OnTriggerExit: the PoseTrigger that set the pose clears it; a recorded
   * collider is forgotten.  When it was the last one the list is emptied
   * and any pose cleared, with no event; otherwise a Grabbable left
   * without colliders raises OnGrabbableExit and clears the pose if that
   * pose is its own and no PoseTrigger set it.
   */
  function OnTriggerExit(gr: Grabber, c: ColliderId, isTrigger: bool, poseOf: GrabbableId -> int): (r: (Grabber, Option<Event>))
    ensures r.0.hand == gr.hand && r.0.layers == gr.layers && r.0.grabbed == gr.grabbed
    ensures r.0.handCollidersActive == gr.handCollidersActive
    ensures LeavesPoseTrigger(gr, c, isTrigger) ==> r == (ClearProximityPose(gr), None)
    ensures !LeavesPoseTrigger(gr, c, isTrigger) && c !in gr.prox.inRange ==> r == (gr, None)
    ensures !LeavesPoseTrigger(gr, c, isTrigger) && c in gr.prox.inRange ==> r.0.prox == Exit(gr.prox, c).0
    // The last collider out empties the list and clears the pose, and raises no event.
    ensures !LeavesPoseTrigger(gr, c, isTrigger) && c in gr.prox.inRange && |gr.prox.inRange| == 1 ==>
      r.0.prox == Empty && r.0.poseID == 0 && r.1.None?
    ensures r.1.Some? ==> c in gr.prox.inRange && r.1 == Some(GrabbableExit(gr.prox.inRange[c]))
    ensures Wf(gr) && !LeavesPoseTrigger(gr, c, isTrigger) && c in gr.prox.inRange && |gr.prox.inRange| > 1 ==>
      (r.1.Some? <==> Count(gr.prox.inRange, gr.prox.inRange[c]) == 1)
    // A departing Grabbable clears the pose only when that pose is its own and no PoseTrigger set it.
    ensures r.1.Some? ==>
      var g := r.1.value.g;
      r.0.poseID == (if gr.poseTrigger.None? && gr.poseID != 0 && poseOf(g) == gr.poseID then 0 else gr.poseID)
    ensures Wf(gr) ==> Wf(r.0)
  {
    if LeavesPoseTrigger(gr, c, isTrigger) then (ClearProximityPose(gr), None)
    else if c in gr.prox.inRange then
      var g := gr.prox.inRange[c];
      var (p, left) := Exit(gr.prox, c);
      ExitKeepsConsistentIf(gr.prox, c);
      var gr1 := gr.(prox := p);
      if |gr.prox.inRange| == 1 then
        assert p.inRange == map[] by {
          assert gr.prox.inRange.Keys == {c};
        }
        (if gr.poseID != 0 then ClearProximityPose(gr1) else gr1, None)
      else if left.Some? then
        (if gr.poseTrigger.None? && gr.poseID != 0 && poseOf(g) == gr.poseID then ClearProximityPose(gr1) else gr1,
         Some(GrabbableExit(g)))
      else (gr1, None)
    else (gr, None)
  }

  /**
   * With nothing held and no pose showing, a Grabbable collider that
   * enters and leaves again restores the Grabber exactly; the exit event
   * answers the enter event, except that the last collider out raises none.
   */
  lemma EnterThenExitRestores(gr: Grabber, c: ColliderId, info: ColliderInfo, poseOf: GrabbableId -> int)
    requires Wf(gr) && Records(gr, c, info)
    requires gr.grabbed.None? && gr.poseID == 0 && gr.poseTrigger.None?
    ensures var (g1, entered) := OnTriggerEnter(gr, c, info, poseOf);
      var (g2, left) := OnTriggerExit(g1, c, info.isTrigger, poseOf);
      g2 == gr && (entered.Some? <==> left.Some? || gr.prox.inRange == map[])
  {
    var g := info.owner.value;
    EnterThenExit(gr.prox, c, g);
    var (g1, e1) := OnTriggerEnter(gr, c, info, poseOf);
    assert !LeavesPoseTrigger(g1, c, info.isTrigger);
    if gr.prox.inRange == map[] {
      FirstEnterThenExit(gr, c, info, poseOf);
    } else {
      LaterEnterThenExit(gr, c, info, poseOf);
    }
  }

  lemma FirstEnterThenExit(gr: Grabber, c: ColliderId, info: ColliderInfo, poseOf: GrabbableId -> int)
    requires Wf(gr) && Records(gr, c, info) && gr.prox.inRange == map[]
    requires gr.grabbed.None? && gr.poseID == 0 && gr.poseTrigger.None?
    ensures var (g1, entered) := OnTriggerEnter(gr, c, info, poseOf);
      var (g2, left) := OnTriggerExit(g1, c, info.isTrigger, poseOf);
      g2 == gr && entered.Some? && left.None?
  {
    var g := info.owner.value;
    NothingInRange(gr.prox);
    var (g1, e1) := OnTriggerEnter(gr, c, info, poseOf);
    assert g1.prox.inRange == map[c := g];
    assert |g1.prox.inRange| == 1;
  }

  lemma LaterEnterThenExit(gr: Grabber, c: ColliderId, info: ColliderInfo, poseOf: GrabbableId -> int)
    requires Wf(gr) && Records(gr, c, info) && gr.prox.inRange != map[]
    requires gr.grabbed.None? && gr.poseID == 0 && gr.poseTrigger.None?
    ensures var (g1, entered) := OnTriggerEnter(gr, c, info, poseOf);
      var (g2, left) := OnTriggerExit(g1, c, info.isTrigger, poseOf);
      g2 == gr && (entered.Some? <==> left.Some?)
  {
    var g := info.owner.value;
    var (p1, entered) := Enter(gr.prox, c, g);
    var g1 := gr.(prox := p1, poseID := if entered.Some? then poseOf(g) else 0);
    EnterSetsPose(gr, c, info, poseOf);
    LargerAfterEnter(gr.prox, c, g);
    EnterThenExit(gr.prox, c, g);
    ExitRestoresPose(gr, g1, c, g, info.isTrigger, poseOf);
  }

  /** The Grabber after a recorded collider enters with nothing held and no pose showing. */
  lemma EnterSetsPose(gr: Grabber, c: ColliderId, info: ColliderInfo, poseOf: GrabbableId -> int)
    requires Records(gr, c, info) && gr.grabbed.None? && gr.poseID == 0 && gr.poseTrigger.None?
    ensures var (p1, entered) := Enter(gr.prox, c, info.owner.value);
      OnTriggerEnter(gr, c, info, poseOf)
      == (gr.(prox := p1, poseID := if entered.Some? then poseOf(info.owner.value) else 0),
          if entered.Some? then Some(GrabbableEnter(info.owner.value)) else None)
  {
  }

  lemma LargerAfterEnter(p: Proximity, c: ColliderId, g: GrabbableId)
    requires c !in p.inRange && p.inRange != map[]
    ensures |Enter(p, c, g).0.inRange| > 1
  {
    var p1 := Enter(p, c, g).0;
    var d :| d in p.inRange;
    assert {c, d} <= p1.inRange.Keys;
    assert |{c, d}| == 2;
    SubsetCard({c, d}, p1.inRange.Keys);
  }

  /** Leaving again: the entry is forgotten and a pose the Grabbable set is cleared. */
  lemma ExitRestoresPose(gr: Grabber, g1: Grabber, c: ColliderId, g: GrabbableId, isTrigger: bool, poseOf: GrabbableId -> int)
    requires gr.poseID == 0 && gr.poseTrigger.None?
    requires c in g1.prox.inRange && g1.prox.inRange[c] == g && |g1.prox.inRange| > 1
    requires Exit(g1.prox, c).0 == gr.prox
    requires g1 == gr.(prox := g1.prox, poseID := if Exit(g1.prox, c).1.Some? then poseOf(g) else 0)
    ensures OnTriggerExit(g1, c, isTrigger, poseOf) == (gr, if Exit(g1.prox, c).1.Some? then Some(GrabbableExit(g)) else None)
  {
  }

  lemma SubsetCard(a: set<ColliderId>, b: set<ColliderId>)
    requires a <= b
    ensures |a| <= |b|
  {
    assert b == a + (b - a);
  }

  // ---------------------------------------------------------------------
  // Update

  /** What Update does this frame. */
  datatype Action = BeginGrabbing | EndGrabbing | NoAction

  /**
   * Update's dispatch, shared by the Grabbers of both generations: a grab
   * begins on Grip.Began with something in range; otherwise a held object
   * is released on Grip.Ended.
   */
  function Dispatch(gripBegan: bool, gripEnded: bool, inRange: nat, holding: bool): (a: Action)
    ensures a == BeginGrabbing <==> gripBegan && inRange > 0
    ensures a == EndGrabbing <==> !(gripBegan && inRange > 0) && holding && gripEnded
  {
    if gripBegan && inRange > 0 then BeginGrabbing
    else if holding && gripEnded then EndGrabbing
    else NoAction
  }

  /**
   * Driven by the grip's ButtonState the two branches never compete: a
   * held object is released exactly on the frame the grip ends, whatever
   * is in range, and a grab never begins on that frame.
   */
  lemma GripDispatch(grip: ButtonStates.ButtonState, analog: real, dt: real, inRange: nat, holding: bool)
    ensures var s := ButtonStates.Update(grip, analog, dt);
      (Dispatch(ButtonStates.Began(s), ButtonStates.Ended(s), inRange, holding) == EndGrabbing <==> holding && ButtonStates.Ended(s))
      && (Dispatch(ButtonStates.Began(s), ButtonStates.Ended(s), inRange, holding) == BeginGrabbing ==> !ButtonStates.Ended(s))
  {
    ButtonStates.EdgesExclusive(grip, analog, dt);
  }

  /** The end of Update: the hand colliders come back once nothing is held and nothing is in range. */
  function CollidersAfterUpdate(active: bool, holding: bool, inRange: nat): bool {
    active || (!holding && inRange == 0)
  }

  /**
   * BeginGrab: rank the candidates (sorting only when there is more than
   * one) and take the first one within reach that `accept` takes; on
   * success the object is held, the hand colliders are switched off, the
   * proximity pose is cleared and OnGrabBegin is raised.
   */
  function BeginGrab(gr: Grabber, maxRadius: real, order: seq<ColliderId>, rays: ColliderId -> seq<Ranking.Hit>,
                     accept: GrabbableId -> bool): (r: (Grabber, Option<Event>))
    requires Wf(gr) && Ranking.Enumerates(order, gr.prox.inRange)
    ensures Wf(r.0) && r.0.prox.inRange == gr.prox.inRange
    ensures |gr.prox.canGrab| <= 1 ==> r.0.prox == gr.prox
    ensures |gr.prox.canGrab| > 1 ==> Ranking.Sorted(r.0.prox.canGrab)
    ensures r.1.Some? ==>
      var g := r.1.value.g;
      r.1 == Some(GrabBegin(g)) && r.0.grabbed == Some(g) && accept(g) && Count(gr.prox.inRange, g) >= 1
      && !r.0.handCollidersActive && r.0.poseID == 0 && r.0.poseTrigger.None?
    ensures r.1.None? ==> r.0 == gr.(prox := r.0.prox)
    // Every candidate ahead of the one taken is within reach and refused.
    ensures r.1.Some? ==> exists k :: (0 <= k < |r.0.prox.canGrab| && r.0.prox.canGrab[k].grabbable == r.1.value.g
      && !BeyondReach(r.0.prox.canGrab[k].distance, maxRadius)
      && forall j :: 0 <= j < k ==> !accept(r.0.prox.canGrab[j].grabbable))
    // A failed grab means every candidate within reach refused.
    ensures r.1.None? ==>
      forall j :: 0 <= j < |r.0.prox.canGrab| && !BeyondReach(r.0.prox.canGrab[j].distance, maxRadius) ==>
        !accept(r.0.prox.canGrab[j].grabbable)
  {
    var (list, k) := Ranking.ChooseCandidate(gr.prox, maxRadius, order, rays, accept);
    var gr1 := gr.(prox := Proximity(gr.prox.inRange, list));
    if k < 0 then (gr1, None)
    else
      var g := list[k].grabbable;
      assert Count(gr.prox.inRange, g) >= 1;
      (ClearProximityPose(gr1.(grabbed := Some(g), handCollidersActive := false)), Some(GrabBegin(g)))
  }

  /** EndGrab on the Grabber's own fields: nothing held any more, and OnGrabEnd. */
  function EndGrab(gr: Grabber): (r: (Grabber, Event))
    requires gr.grabbed.Some?
    ensures r.0.grabbed.None? && r.1 == GrabEnd(gr.grabbed.value)
    ensures r.0.prox == gr.prox && r.0.poseID == gr.poseID
  {
    (gr.(grabbed := None), GrabEnd(gr.grabbed.value))
  }

  /** Release: EndGrab when something is held, nothing otherwise. */
  function Release(gr: Grabber): (r: (Grabber, Option<Event>))
    ensures gr.grabbed.None? ==> r == (gr, None)
    ensures gr.grabbed.Some? ==> r.0.grabbed.None? && r.1 == Some(GrabEnd(gr.grabbed.value))
  {
    if gr.grabbed.Some? then
      var (g, e) := EndGrab(gr);
      (g, Some(e))
    else (gr, None)
  }

  /**
   * Update: dispatch on the grip edges, then bring the hand colliders back
   * when nothing is held and nothing is in range.
   */
  function Update(gr: Grabber, gripBegan: bool, gripEnded: bool, maxRadius: real, order: seq<ColliderId>,
                  rays: ColliderId -> seq<Ranking.Hit>, accept: GrabbableId -> bool): (r: (Grabber, Option<Event>))
    requires Wf(gr) && Ranking.Enumerates(order, gr.prox.inRange)
    ensures Wf(r.0) && r.0.prox.inRange == gr.prox.inRange
    ensures r.1.Some? && r.1.value.GrabBegin? ==> gripBegan && |gr.prox.inRange| > 0 && r.0.grabbed == Some(r.1.value.g)
    ensures r.1.Some? && r.1.value.GrabEnd? ==> gripEnded && gr.grabbed == Some(r.1.value.g) && r.0.grabbed.None?
    ensures r.1.Some? ==> r.1.value.GrabBegin? || r.1.value.GrabEnd?
    ensures !(gripBegan && |gr.prox.inRange| > 0) && gr.grabbed.Some? && gripEnded ==> r.1 == Some(GrabEnd(gr.grabbed.value))
    ensures r.1.None? ==> r.0.grabbed == gr.grabbed
    // The colliders come back only when nothing is held and nothing is in range, and then always.
    ensures r.0.handCollidersActive && !gr.handCollidersActive ==> r.0.grabbed.None? && |r.0.prox.inRange| == 0
    ensures r.0.grabbed.None? && |r.0.prox.inRange| == 0 ==> r.0.handCollidersActive
  {
    var (g1, e) := match Dispatch(gripBegan, gripEnded, |gr.prox.inRange|, gr.grabbed.Some?)
      case BeginGrabbing => BeginGrab(gr, maxRadius, order, rays, accept)
      case EndGrabbing => Release(gr)
      case NoAction => (gr, None);
    (g1.(handCollidersActive := CollidersAfterUpdate(g1.handCollidersActive, g1.grabbed.Some?, |g1.prox.inRange|)), e)
  }

  // ---------------------------------------------------------------------
  // Attachers of the hands holding one object

  /**
   * One grabbed object seen from both hands: its holders and every
   * Grabber's attacher.  A Grabber's id also names its attacher's target
   * Transform.
   */
  datatype Hold = Hold(body: GrabbableId, holders: Grabbables.Holders, attachers: map<Grabbables.GrabberId, Attachers.Attacher>)

  /** An attacher with nothing attached, left by a hand that last grabbed with `hand`. */
  predicate Idle(a: Attachers.Attacher, hand: Hand) {
    a.grabbedBody.None? && a.grabbedAnchor.None? && a.secondAnchor.None? && a.secondTarget.None? && a.firstGrabbedBy == hand
  }

  /**
   * Attachers agree with the holders: the first holder's attacher pulls
   * the body, and it is two-handed, steering towards the second holder,
   * exactly when there is one; a second holder's own attacher is idle.
   */
  predicate Attached(h: Hold, handOf: Grabbables.GrabberId -> Hand) {
    (h.holders.grabbedBySecond.Some? ==> h.holders.grabbedBy.Some?)
    && (h.holders.grabbedBy.Some? ==>
          var a := h.holders.grabbedBy.value;
          a in h.attachers && h.attachers[a].grabbedBody == Some(h.body) && h.attachers[a].grabbedAnchor.Some?
          && (Attachers.IsTwoHanded(h.attachers[a]) <==> h.holders.grabbedBySecond.Some?)
          && (h.holders.grabbedBySecond.Some? ==> h.attachers[a].secondTarget == h.holders.grabbedBySecond))
    && (h.holders.grabbedBySecond.Some? ==>
          var b := h.holders.grabbedBySecond.value;
          b in h.attachers && b != h.holders.grabbedBy.value && Idle(h.attachers[b], handOf(b)))
  }

  /**
   * BeginGrab after TryGrab accepted `me` with `anchor`: a second hand
   * hands its anchor and target to the first holder's attacher; a first
   * hand attaches the body to its own.
   */
  function AttachOnGrab(h: Hold, me: Grabbables.GrabberId, anchor: Anchors.AnchorRef, handOf: Grabbables.GrabberId -> Hand): (r: Hold)
    requires me in h.attachers
    requires h.holders.grabbedBySecond == Some(me) ==> h.holders.grabbedBy.Some? && h.holders.grabbedBy.value in h.attachers
    ensures r.body == h.body && r.holders == h.holders && r.attachers.Keys == h.attachers.Keys
    ensures h.holders.grabbedBySecond == Some(me) ==>
      var a := h.holders.grabbedBy.value;
      r.attachers == h.attachers[a := Attachers.SetSecondGrab(h.attachers[a], Some(anchor), Some(me))]
    ensures h.holders.grabbedBySecond != Some(me) ==>
      r.attachers == h.attachers[me := Attachers.SetGrab(h.attachers[me], Some(h.body), Some(anchor), handOf(me))]
  {
    if h.holders.grabbedBySecond == Some(me) then
      var a := h.holders.grabbedBy.value;
      h.(attachers := h.attachers[a := Attachers.SetSecondGrab(h.attachers[a], Some(anchor), Some(me))])
    else
      h.(attachers := h.attachers[me := Attachers.SetGrab(h.attachers[me], Some(h.body), Some(anchor), handOf(me))])
  }

  /**
   * Attaching after an accepted grab establishes the agreement: a first
   * holder attaches with a one-handed attacher, a second holder turns the
   * first holder's attacher two-handed.
   */
  lemma AttachEstablishes(h: Hold, me: Grabbables.GrabberId, anchor: Anchors.AnchorRef, handOf: Grabbables.GrabberId -> Hand)
    requires Attached(h.(holders := h.holders.(grabbedBy := if h.holders.grabbedBy == Some(me) then None else h.holders.grabbedBy,
                                                grabbedBySecond := if h.holders.grabbedBySecond == Some(me) then None else h.holders.grabbedBySecond)), handOf)
    requires me in h.attachers && Idle(h.attachers[me], handOf(me))
    requires h.holders.grabbedBy == Some(me) ==> h.holders.grabbedBySecond.None?
    requires h.holders.grabbedBySecond == Some(me) ==> h.holders.grabbedBy.Some? && h.holders.grabbedBy != Some(me)
    requires Grabbables.Holds(h.holders, me)
    ensures Attached(AttachOnGrab(h, me, anchor, handOf), handOf)
  {
  }

  /** The attacher of a hand that lets go: both grabs cleared. */
  function Cleared(a: Attachers.Attacher, hand: Hand): (r: Attachers.Attacher)
    ensures Idle(r, hand) && r.engaged == a.engaged && r.disableForce == a.disableForce
  {
    Attachers.SetSecondGrab(Attachers.SetGrab(a, None, None, hand), None, None)
  }

  /**
   * EndGrab on the attachers and holders: a second hand letting go clears
   * the first holder's second grab; a first hand letting go while a second
   * hand holds makes the second hand attach the body by the anchor this
   * attacher held for it; then the Grabbable releases this hand and this
   * attacher is cleared.  Also says whether OnReleased fired.
   */
  function EndGrabHold(h: Hold, me: Grabbables.GrabberId, handOf: Grabbables.GrabberId -> Hand): (r: (Hold, bool))
    requires me in h.attachers
    requires h.holders.grabbedBySecond.Some? ==>
      h.holders.grabbedBy.Some? && h.holders.grabbedBy.value in h.attachers && h.holders.grabbedBySecond.value in h.attachers
    ensures r.0.body == h.body && r.0.attachers.Keys == h.attachers.Keys
    ensures r.0.holders == Grabbables.Release(h.holders, me).after && r.1 == Grabbables.Release(h.holders, me).releasedEvent
    ensures Idle(r.0.attachers[me], handOf(me))
    ensures h.holders.grabbedBySecond == Some(me) ==>
      var a := h.holders.grabbedBy.value;
      a != me ==> r.0.attachers[a] == Attachers.SetSecondGrab(h.attachers[a], None, None)
    ensures h.holders.grabbedBySecond.Some? && h.holders.grabbedBySecond != Some(me) ==>
      var b := h.holders.grabbedBySecond.value;
      r.0.attachers[b] == Attachers.SetGrab(h.attachers[b], Some(h.body), h.attachers[me].secondAnchor, handOf(b))
    ensures forall x :: x in h.attachers && x != me && !Grabbables.Holds(h.holders, x) ==> r.0.attachers[x] == h.attachers[x]
  {
    var atts := h.attachers;
    var atts1 :=
      if h.holders.grabbedBySecond == Some(me) then
        var a := h.holders.grabbedBy.value;
        atts[a := Attachers.SetSecondGrab(atts[a], None, None)]
      else if h.holders.grabbedBySecond.Some? then
        var b := h.holders.grabbedBySecond.value;
        atts[b := Attachers.SetGrab(atts[b], Some(h.body), atts[me].secondAnchor, handOf(b))]
      else atts;
    var rel := Grabbables.Release(h.holders, me);
    (Hold(h.body, rel.after, atts1[me := Cleared(atts1[me], handOf(me))]), rel.releasedEvent)
  }

  /**
   * EndGrab keeps the attachers in agreement with the holders, and the
   * hand that let go holds nothing and pulls nothing.
   */
  lemma EndGrabKeepsAttached(h: Hold, me: Grabbables.GrabberId, handOf: Grabbables.GrabberId -> Hand)
    requires Attached(h, handOf) && me in h.attachers && Grabbables.Holds(h.holders, me)
    ensures var (after, _) := EndGrabHold(h, me, handOf);
      Attached(after, handOf) && !Grabbables.Holds(after.holders, me) && Idle(after.attachers[me], handOf(me))
  {
    var (after, _) := EndGrabHold(h, me, handOf);
    if h.holders.grabbedBySecond == Some(me) {
      assert after.holders.grabbedBy == h.holders.grabbedBy && after.holders.grabbedBySecond.None?;
    } else if h.holders.grabbedBy == Some(me) && h.holders.grabbedBySecond.Some? {
      var b := h.holders.grabbedBySecond.value;
      assert after.holders.grabbedBy == Some(b) && after.holders.grabbedBySecond.None?;
      assert h.attachers[me].secondAnchor.Some?;
    }
  }

  /**
   * The two-hand hand-off: when the first hand lets go the second hand
   * becomes the only holder and pulls the body by the very anchor it took;
   * when the second lets go the first keeps pulling by its own anchor,
   * one-handed again.
   */
  lemma TwoHandHandOff(h: Hold, handOf: Grabbables.GrabberId -> Hand)
    requires Attached(h, handOf) && h.holders.grabbedBySecond.Some?
    ensures var a := h.holders.grabbedBy.value;
      var b := h.holders.grabbedBySecond.value;
      var (first, fired1) := EndGrabHold(h, a, handOf);
      first.holders.grabbedBy == Some(b) && first.holders.grabbedBySecond.None? && !fired1
      && first.attachers[b].grabbedBody == Some(h.body) && first.attachers[b].grabbedAnchor == h.attachers[a].secondAnchor
      && !Attachers.IsTwoHanded(first.attachers[b])
    ensures var a := h.holders.grabbedBy.value;
      var b := h.holders.grabbedBySecond.value;
      var (second, fired2) := EndGrabHold(h, b, handOf);
      second.holders.grabbedBy == Some(a) && second.holders.grabbedBySecond.None? && !fired2
      && second.attachers[a].grabbedBody == Some(h.body) && second.attachers[a].grabbedAnchor == h.attachers[a].grabbedAnchor
      && !Attachers.IsTwoHanded(second.attachers[a])
  {
  }

  /**
   * A one-handed grab followed by its release gives back the attachers
   * exactly, provided this hand's attacher was idle, and fires OnReleased.
   */
  lemma GrabThenEndRestores(h: Hold, me: Grabbables.GrabberId, anchor: Anchors.AnchorRef, handOf: Grabbables.GrabberId -> Hand)
    requires me in h.attachers && Idle(h.attachers[me], handOf(me))
    requires h.holders == Grabbables.Holders(Some(me), None, h.holders.currentAnchor)
    ensures var (after, fired) := EndGrabHold(AttachOnGrab(h, me, anchor, handOf), me, handOf);
      after.attachers == h.attachers && after.holders == h.holders.(grabbedBy := None) && fired
  {
    var held := AttachOnGrab(h, me, anchor, handOf);
    var (after, fired) := EndGrabHold(held, me, handOf);
    assert after.attachers[me] == h.attachers[me];
    assert after.attachers == h.attachers;
  }
}
