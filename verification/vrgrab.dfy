/**
 * The first-generation VRGrab Grabber and Grabbable: a plain list of
 * Grabbables in reach, the nearest one chosen by raycast, and a TryGrab
 * that only consults its callback (the Grabber does not call it yet).
 */
module VRGrab {
  import opened Wrappers
  import Colliders
  import LayerMasks
  import Selection
  import Grabbers

  type GrabbableId = Colliders.GrabbableId
  type GrabberId = nat

  /** The Grabber: the Grabbables it could grab, what it holds, its joint's body and its hand colliders. */
  datatype Grabber = Grabber(
    layers: LayerMasks.Mask,
    couldGrab: seq<GrabbableId>,
    grabbed: Option<GrabbableId>,
    jointBody: Option<GrabbableId>,
    handCollidersActive: bool)

  /** No Grabbable is listed twice. */
  predicate Distinct(s: seq<GrabbableId>) {
    forall i, j :: 0 <= i < j < |s| ==> s[i] != s[j]
  }

  /** List.Remove: drops the first occurrence, if any. */
  function RemoveFirst(s: seq<GrabbableId>, g: GrabbableId): (r: seq<GrabbableId>)
    ensures g !in s ==> r == s
    ensures g in s ==> |r| == |s| - 1
    ensures forall x :: x in r ==> x in s
    ensures forall x :: x in s && x != g ==> x in r
    ensures Distinct(s) ==> Distinct(r) && g !in r
  {
    if |s| == 0 then s
    else if s[0] == g then
      assert Distinct(s) ==> g !in s[1..];
      s[1..]
    else
      var rest := RemoveFirst(s[1..], g);
      ConsDistinct(s[0], rest);
      assert Distinct(s) ==> Distinct(s[1..]) && s[0] !in rest;
      [s[0]] + rest
  }

  lemma ConsDistinct(x: GrabbableId, t: seq<GrabbableId>)
    ensures Distinct(t) && x !in t ==> Distinct([x] + t)
  {
    if Distinct(t) && x !in t {
      forall i, j | 0 <= i < j < |[x] + t| ensures ([x] + t)[i] != ([x] + t)[j] {
        if i > 0 {
          assert ([x] + t)[i] == t[i - 1];
        }
        assert ([x] + t)[j] == t[j - 1];
      }
    }
  }

  /**
   * OnTriggerEnter: the layer test `(mask & bit) == bit`, then a Grabbable
   * not yet listed is appended.
   */
  function OnTriggerEnter(gr: Grabber, layer: int, owner: Option<GrabbableId>): (r: Grabber)
    ensures r == gr.(couldGrab := r.couldGrab)
    ensures LayerBitSet(gr.layers, layer) && owner.Some? && owner.value !in gr.couldGrab ==>
      r.couldGrab == gr.couldGrab + [owner.value]
    ensures !(LayerBitSet(gr.layers, layer) && owner.Some? && owner.value !in gr.couldGrab) ==> r == gr
    ensures Distinct(gr.couldGrab) ==> Distinct(r.couldGrab)
  {
    if LayerBitSet(gr.layers, layer) && owner.Some? && owner.value !in gr.couldGrab then
      AppendDistinct(gr.couldGrab, owner.value);
      gr.(couldGrab := gr.couldGrab + [owner.value])
    else gr
  }

  lemma AppendDistinct(s: seq<GrabbableId>, x: GrabbableId)
    requires x !in s
    ensures Distinct(s) ==> Distinct(s + [x])
  {
  }

  /** The Grabber's own layer test, `(mask & (1 << layer)) == (1 << layer)`. */
  predicate LayerBitSet(mask: LayerMasks.Mask, layer: int) {
    mask & LayerMasks.LayerBit(layer) == LayerMasks.LayerBit(layer)
  }

  /**
   * OnTriggerExit: with no layer test, a listed Grabbable is dropped as a
   * whole, whichever of its colliders left; the hand colliders come back
   * when the list is empty and nothing is held.
   */
  function OnTriggerExit(gr: Grabber, owner: Option<GrabbableId>): (r: Grabber)
    ensures owner.None? || owner.value !in gr.couldGrab ==> r == gr
    ensures owner.Some? && owner.value in gr.couldGrab ==>
      r.couldGrab == RemoveFirst(gr.couldGrab, owner.value)
      && r.handCollidersActive == (gr.handCollidersActive || (|r.couldGrab| == 0 && gr.grabbed.None?))
    ensures r.grabbed == gr.grabbed && r.jointBody == gr.jointBody && r.layers == gr.layers
    ensures Distinct(gr.couldGrab) ==> Distinct(r.couldGrab) && (owner.Some? ==> owner.value !in r.couldGrab)
  {
    if owner.Some? && owner.value in gr.couldGrab then
      var s := RemoveFirst(gr.couldGrab, owner.value);
      gr.(couldGrab := s, handCollidersActive := gr.handCollidersActive || (|s| == 0 && gr.grabbed.None?))
    else gr
  }

  /**
   * A Grabbable seen once and then left is forgotten again: enter then
   * exit gives back the list it started from.
   */
  lemma EnterThenExit(gr: Grabber, layer: int, g: GrabbableId)
    requires Distinct(gr.couldGrab) && g !in gr.couldGrab && LayerMasks.Contains(gr.layers, layer)
    ensures OnTriggerExit(OnTriggerEnter(gr, layer, Some(g)), Some(g)).couldGrab == gr.couldGrab
  {
    LayerMasks.SingleBitTestsAgree(gr.layers, layer);
    AppendThenRemove(gr.couldGrab, g);
  }

  lemma {:induction false} AppendThenRemove(s: seq<GrabbableId>, g: GrabbableId)
    requires g !in s
    ensures RemoveFirst(s + [g], g) == s
  {
    if |s| > 0 {
      AppendThenRemove(s[1..], g);
      assert (s + [g])[1..] == s[1..] + [g];
    }
  }

  /**
   * FindClosest: the first Grabbable whose ray reaches it at the shortest
   * distance; `reach` gives that distance, or None when the ray's nearest
   * hit belongs to something else.
   */
  function FindClosest(couldGrab: seq<GrabbableId>, reach: GrabbableId -> Option<real>): (r: Option<GrabbableId>)
    ensures r.None? <==> forall i :: 0 <= i < |couldGrab| ==> reach(couldGrab[i]).None?
    ensures r.Some? ==> exists k :: (0 <= k < |couldGrab| && couldGrab[k] == r.value && reach(r.value).Some?
      && (forall j :: 0 <= j < |couldGrab| && reach(couldGrab[j]).Some? ==> reach(r.value).value <= reach(couldGrab[j]).value)
      && (forall j :: 0 <= j < k && reach(couldGrab[j]).Some? ==> reach(r.value).value < reach(couldGrab[j]).value))
  {
    var dists := Distances(couldGrab, reach);
    var k := Selection.FirstMin(dists);
    if k >= 0 then Some(couldGrab[k])
    else
      assert forall i :: 0 <= i < |couldGrab| ==> dists[i].None?;
      None
  }

  function Distances(couldGrab: seq<GrabbableId>, reach: GrabbableId -> Option<real>): (r: seq<Option<real>>)
    ensures |r| == |couldGrab| && forall i :: 0 <= i < |couldGrab| ==> r[i] == reach(couldGrab[i])
  {
    seq(|couldGrab|, i requires 0 <= i < |couldGrab| => reach(couldGrab[i]))
  }

  /**
   * Update: on Grip.Began with something in reach, a lone Grabbable is
   * taken as is and otherwise the closest; the joint follows what is
   * held.  On Grip.Ended while holding, the hold is dropped and the
   * colliders come back if the list is empty.
   */
  function Update(gr: Grabber, gripBegan: bool, gripEnded: bool, reach: GrabbableId -> Option<real>): (r: Grabber)
    ensures r.couldGrab == gr.couldGrab && r.layers == gr.layers
    ensures gripBegan && |gr.couldGrab| == 1 ==> r.grabbed == Some(gr.couldGrab[0]) && r.jointBody == r.grabbed && !r.handCollidersActive
    ensures gripBegan && |gr.couldGrab| > 1 ==> r.grabbed == FindClosest(gr.couldGrab, reach)
    ensures gripBegan && |gr.couldGrab| > 0 && r.grabbed.Some? ==> r.grabbed.value in gr.couldGrab && r.jointBody == r.grabbed && !r.handCollidersActive
    ensures Grabbers.Dispatch(gripBegan, gripEnded, |gr.couldGrab|, gr.grabbed.Some?) == Grabbers.EndGrabbing ==>
      r.grabbed.None? && r.jointBody.None? && r.handCollidersActive == (gr.handCollidersActive || |gr.couldGrab| == 0)
    ensures Grabbers.Dispatch(gripBegan, gripEnded, |gr.couldGrab|, gr.grabbed.Some?) == Grabbers.NoAction ==> r == gr
  {
    match Grabbers.Dispatch(gripBegan, gripEnded, |gr.couldGrab|, gr.grabbed.Some?)
    case BeginGrabbing =>
      var chosen := if |gr.couldGrab| == 1 then Some(gr.couldGrab[0]) else FindClosest(gr.couldGrab, reach);
      if chosen.Some? then gr.(grabbed := chosen, jointBody := chosen, handCollidersActive := false)
      else gr.(grabbed := None)
    case EndGrabbing =>
      gr.(grabbed := None, jointBody := None, handCollidersActive := gr.handCollidersActive || |gr.couldGrab| == 0)
    case NoAction => gr
  }

  /**
   * A Grip.Began with several Grabbables in reach but none hit by its own
   * ray leaves the Grabber holding nothing, while the joint keeps
   * whatever body it had.
   */
  lemma UnreachedBeginForgetsHold(gr: Grabber, reach: GrabbableId -> Option<real>)
    requires |gr.couldGrab| > 1 && forall i :: 0 <= i < |gr.couldGrab| ==> reach(gr.couldGrab[i]).None?
    ensures var r := Update(gr, true, false, reach);
      r.grabbed.None? && r.jointBody == gr.jointBody
  {
  }

  /** The Grabbable: who holds it and its current anchor index. */
  datatype Grabbable = Grabbable(grabbedBy: Option<GrabberId>, currentAnchor: int)

  /** What TryGrab hands back: the Grabbable's own transform, its first anchor, or nothing. */
  datatype AnchorChoice = OwnTransform | FirstAnchor | NoAnchor

  /**
   * TryGrab: the callback decides (no subscribers allow it).  Allowed, the
   * requester becomes the holder, whoever held before, and gets the first
   * anchor, or the object itself when it has none; refused, nothing is
   * handed back and the anchor index is reset.
   */
  function TryGrab(st: Grabbable, grabber: GrabberId, callback: Option<bool>, anchorCount: nat): (r: (bool, AnchorChoice, Grabbable))
    ensures r.0 <==> callback != Some(false)
    ensures r.0 ==> r.2.grabbedBy == Some(grabber)
    ensures r.0 && anchorCount == 0 ==> r.1 == OwnTransform && r.2.currentAnchor == -1
    ensures r.0 && anchorCount > 0 ==> r.1 == FirstAnchor && r.2.currentAnchor == 0
    ensures !r.0 ==> r.1 == NoAnchor && r.2 == st.(currentAnchor := -1)
  {
    var allowed := if callback.Some? then callback.value else true;
    if allowed then
      if anchorCount == 0 then (true, OwnTransform, Grabbable(Some(grabber), -1))
      else (true, FirstAnchor, Grabbable(Some(grabber), 0))
    else (false, NoAnchor, st.(currentAnchor := -1))
  }

  /**
   * Nothing stops a second hand: with the callback allowing both, a grab
   * by another Grabber simply takes over, and the result does not depend
   * on who held before.
   */
  lemma LaterGrabTakesOver(st: Grabbable, a: GrabberId, b: GrabberId, anchorCount: nat)
    ensures var first := TryGrab(st, a, None, anchorCount).2;
      TryGrab(first, b, None, anchorCount) == TryGrab(st, b, None, anchorCount)
      && TryGrab(first, b, None, anchorCount).2.grabbedBy == Some(b)
  {
  }
}
