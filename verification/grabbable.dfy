/**
 * Grabbable (Core): who holds an object, how a grab is admitted under the
 * second-grab policy and the OnGrabbed veto, which GrabAnchor the hand
 * takes, and how a release hands the object over.
 */
module Grabbables {
  import opened Wrappers
  import opened Hands
  import opened Anchors
  import Mathf
  import Selection

  /** Identifies a Grabber (one per hand). */
  type GrabberId = nat

  /** SecondGrabBehavior: what happens when a second hand grabs a held object. */
  datatype SecondGrabBehavior = NoSecondGrab | TransferToSecondGrab | AllowBothHands

  /** The settings of a Grabbable and the GrabAnchors found among its children at Start. */
  datatype Config = Config(
    self: GrabbableId,
    grabPoseID: int,
    orientToHand: bool,
    policy: SecondGrabBehavior,
    anchors: seq<GrabAnchor>)

  /** GrabbedBy, GrabbedBySecond and the index of the current anchor (-1 for none). */
  datatype Holders = Holders(grabbedBy: Option<GrabberId>, grabbedBySecond: Option<GrabberId>, currentAnchor: int)

  /** Nobody holds the object. */
  const Free := Holders(None, None, -1)

  /**
   * The state the class keeps: the current anchor is -1 or one of the
   * anchors, and there is no second holder without a first.
   */
  predicate Wf(cfg: Config, st: Holders) {
    -1 <= st.currentAnchor < |cfg.anchors|
    && (st.grabbedBySecond.Some? ==> st.grabbedBy.Some?)
  }

  /** The grabber holds the object with either hand slot. */
  predicate Holds(st: Holders, g: GrabberId) {
    st.grabbedBy == Some(g) || st.grabbedBySecond == Some(g)
  }

  // ---------------------------------------------------------------------
  // Getters that consult the current anchor

  /** The current anchor overrides the Grabbable's grab pose. */
  predicate CurrentOverrides(cfg: Config, st: Holders)
    requires Wf(cfg, st)
  {
    st.currentAnchor >= 0 && cfg.anchors[st.currentAnchor].settings.overrideGrabPose
  }

  /** GrabPoseID: the current anchor's when it overrides the grab pose, the Grabbable's otherwise. */
  function GrabPoseID(cfg: Config, st: Holders): (r: int)
    requires Wf(cfg, st)
    ensures CurrentOverrides(cfg, st) ==> r == cfg.anchors[st.currentAnchor].cache.grabPoseID
    ensures !CurrentOverrides(cfg, st) ==> r == cfg.grabPoseID
  {
    if st.currentAnchor >= 0 && cfg.anchors[st.currentAnchor].settings.overrideGrabPose then
      cfg.anchors[st.currentAnchor].cache.grabPoseID
    else
      cfg.grabPoseID
  }

  /**
   * OrientToHand: the current anchor's when it overrides the grab pose
   * (the anchor's own OverrideOrientToHand flag is not consulted), the
   * Grabbable's otherwise.
   */
  function OrientToHand(cfg: Config, st: Holders): (r: bool)
    requires Wf(cfg, st)
    ensures CurrentOverrides(cfg, st) ==> r == cfg.anchors[st.currentAnchor].settings.orientToHand
    ensures !CurrentOverrides(cfg, st) ==> r == cfg.orientToHand
  {
    if st.currentAnchor >= 0 && cfg.anchors[st.currentAnchor].settings.overrideGrabPose then
      cfg.anchors[st.currentAnchor].settings.orientToHand
    else
      cfg.orientToHand
  }

  // ---------------------------------------------------------------------
  // Anchor scores

  /** MaxAnchorDistance: beyond this distance an anchor scores 0 for distance. */
  const MaxAnchorDistance := 0.25

  /** The distance factor: 1 at the hand, falling linearly to 0 at MaxAnchorDistance. */
  function DistScore(d: real): (r: real)
    ensures d >= 0.0 ==> 0.0 <= r <= 1.0
    ensures d <= 0.0 ==> r == 1.0
    ensures d >= MaxAnchorDistance ==> r == 0.0
  {
    1.0 - Mathf.Clamp01(d / MaxAnchorDistance)
  }

  /** A nearer anchor never scores lower for distance. */
  lemma DistScoreMonotone(d1: real, d2: real)
    requires d1 <= d2
    ensures DistScore(d2) <= DistScore(d1)
  {
  }

  /**
   * OrientationScore of the angle, in degrees from 0 to 360, of the
   * rotation between the anchor and the hand: 1 for no rotation, 0 for half
   * a turn.
   */
  function OrientationScore(angle: real): (r: real)
    ensures 0.0 <= angle <= 360.0 ==> 0.0 <= r <= 1.0
    ensures 0.0 <= angle <= 360.0 ==> (r == 1.0 <==> angle == 0.0 || angle == 360.0)
    ensures 0.0 <= angle <= 360.0 ==> (r == 0.0 <==> angle == 180.0)
  {
    1.0 - Mathf.Abs(SignedAngle(angle) / 180.0)
  }

  /** Turning by `angle` one way or the other scores the same. */
  lemma OrientationScoreSymmetric(angle: real)
    requires 0.0 <= angle <= 360.0
    ensures OrientationScore(360.0 - angle) == OrientationScore(angle)
  {
  }

  /** What the engine reports for one anchor: its distance from the hand and the angle between their rotations. */
  datatype Measure = Measure(distance: real, angle: real)

  /** The engine's guarantees: a distance is a length, and an angle from ToAngleAxis lies in [0, 360]. */
  predicate Measured(m: Measure) {
    m.distance >= 0.0 && 0.0 <= m.angle <= 360.0
  }

  /** The product of the distance and orientation factors; the orientation factor is 1 when not orienting to the hand. */
  function AnchorScore(m: Measure, orient: bool): (r: real)
    ensures Measured(m) ==> 0.0 <= r <= 1.0
    ensures !orient ==> r == DistScore(m.distance)
  {
    var distScore := DistScore(m.distance);
    var oriScore := if orient then OrientationScore(m.angle) else 1.0;
    var r := distScore * oriScore;
    if 0.0 <= distScore && 0.0 <= oriScore <= 1.0 then
      Mathf.ScaleNonNeg(distScore, oriScore);
      r
    else r
  }

  // ---------------------------------------------------------------------
  // Anchor selection

  /**
   * The filters of FindClosestAnchor: the anchor is enabled, is not the
   * excluded one, its GrabOrder admits a first or second hand as the case
   * is, and it supports the hand.
   */
  predicate Eligible(cfg: Config, isSecond: bool, hand: Hand, excluded: Option<AnchorRef>, i: int)
    requires 0 <= i < |cfg.anchors|
  {
    var a := cfg.anchors[i];
    a.enabled
    && excluded != Some(AnchorAt(cfg.self, i))
    && !(a.settings.grabOrder == FirstOnly && isSecond)
    && !(a.settings.grabOrder == SecondOnly && !isSecond)
    && SupportsHand(a.settings, hand)
  }

  /** The score of each anchor, or None where a filter rejects it. */
  function Rated(cfg: Config, isSecond: bool, hand: Hand, excluded: Option<AnchorRef>, orient: bool, measure: nat -> Measure): (r: seq<Option<real>>)
    ensures |r| == |cfg.anchors|
    ensures forall i :: 0 <= i < |r| ==> (r[i].Some? <==> Eligible(cfg, isSecond, hand, excluded, i))
    ensures forall i :: 0 <= i < |r| && r[i].Some? ==> r[i].value == AnchorScore(measure(i), orient)
  {
    seq(|cfg.anchors|, i requires 0 <= i < |cfg.anchors| =>
      if Eligible(cfg, isSecond, hand, excluded, i) then Some(AnchorScore(measure(i), orient)) else None)
  }

  /**
   * FindClosestAnchor: the eligible anchor with the highest score, the
   * lowest index among equals, or -1 when no anchor is eligible.  The
   * second-hand filters look at GrabbedBySecond as it stands during the call.
   */
  function FindClosestAnchor(cfg: Config, st: Holders, hand: Hand, excluded: Option<AnchorRef>, measure: nat -> Measure): (r: int)
    requires Wf(cfg, st)
    ensures -1 <= r < |cfg.anchors|
    ensures var isSecond := st.grabbedBySecond.Some?;
      r == -1 <==> forall i :: 0 <= i < |cfg.anchors| ==> !Eligible(cfg, isSecond, hand, excluded, i)
    ensures var isSecond := st.grabbedBySecond.Some?; var orient := OrientToHand(cfg, st);
      r >= 0 ==>
        Eligible(cfg, isSecond, hand, excluded, r)
        && (forall j :: 0 <= j < |cfg.anchors| && Eligible(cfg, isSecond, hand, excluded, j) ==>
              AnchorScore(measure(j), orient) <= AnchorScore(measure(r), orient))
        && (forall j :: 0 <= j < r && Eligible(cfg, isSecond, hand, excluded, j) ==>
              AnchorScore(measure(j), orient) < AnchorScore(measure(r), orient))
  {
    var rated := Rated(cfg, st.grabbedBySecond.Some?, hand, excluded, OrientToHand(cfg, st), measure);
    var r := Selection.FirstMax(rated);
    assert r == -1 <==> Selection.NoneRated(rated);
    r
  }

  // ---------------------------------------------------------------------
  // Grab and release

  /**
   * A grab attempt: the requesting Grabber, its hand, the anchor that
   * Grabber's attacher currently holds (its GrabbedAnchor), the OnGrabbed
   * callback's answer (true when nobody subscribes), and the engine's
   * measurements of each anchor.
   */
  datatype Request = Request(grabber: GrabberId, hand: Hand, grabbedAnchor: Option<AnchorRef>, allowed: bool, measure: nat -> Measure)

  /**
   * The outcome of TryGrab: whether the grab is allowed, the anchor handed
   * back (None for null), the holders afterwards, and the holder released
   * by a transfer before the callback ran.
   */
  datatype GrabResult = GrabResult(accepted: bool, anchor: Option<AnchorRef>, after: Holders, transferredFrom: Option<GrabberId>)

  /** The outcome of Release: the holders afterwards and whether OnReleased fired. */
  datatype ReleaseResult = ReleaseResult(after: Holders, releasedEvent: bool)

  /**
   * Release: the second hand lets go alone; the first hand lets go and the
   * second becomes first; the sole holder lets go and OnReleased fires; a
   * Grabber that holds nothing changes nothing.
   */
  function Release(st: Holders, from: GrabberId): (r: ReleaseResult)
    ensures r.after.currentAnchor == st.currentAnchor
    ensures st.grabbedBySecond == Some(from) ==>
      r.after == st.(grabbedBySecond := None) && !r.releasedEvent
    ensures st.grabbedBySecond != Some(from) && st.grabbedBy == Some(from) && st.grabbedBySecond.Some? ==>
      r.after == st.(grabbedBy := st.grabbedBySecond, grabbedBySecond := None) && !r.releasedEvent
    ensures st.grabbedBySecond.None? && st.grabbedBy == Some(from) ==>
      r.after == st.(grabbedBy := None) && r.releasedEvent
    ensures !Holds(st, from) ==> r.after == st && !r.releasedEvent
  {
    if st.grabbedBySecond == Some(from) then
      ReleaseResult(st.(grabbedBySecond := None), false)
    else if st.grabbedBy == Some(from) then
      if st.grabbedBySecond.Some? then
        ReleaseResult(st.(grabbedBy := st.grabbedBySecond, grabbedBySecond := None), false)
      else
        ReleaseResult(st.(grabbedBy := None), true)
    else
      ReleaseResult(st, false)
  }

  /**
   * After Release the Grabber no longer holds the object, provided it did
   * not hold both slots; the state invariant is kept; and OnReleased fires
   * exactly when the object ends up held by nobody although it was held.
   */
  lemma ReleaseLetsGo(cfg: Config, st: Holders, from: GrabberId)
    requires Wf(cfg, st)
    requires st.grabbedBy != st.grabbedBySecond || st.grabbedBy.None?
    ensures !Holds(Release(st, from).after, from)
    ensures Wf(cfg, Release(st, from).after)
    ensures Release(st, from).releasedEvent <==> st.grabbedBy.Some? && Release(st, from).after.grabbedBy.None?
  {
  }

  /** The holders after the first steps of TryGrab: the transfer, when the policy asks for one. */
  function AfterTransfer(cfg: Config, st: Holders): (r: Holders)
    ensures st.grabbedBy.Some? && cfg.policy == TransferToSecondGrab ==> r == Release(st, st.grabbedBy.value).after
    ensures !(st.grabbedBy.Some? && cfg.policy == TransferToSecondGrab) ==> r == st
  {
    if st.grabbedBy.Some? && cfg.policy == TransferToSecondGrab then Release(st, st.grabbedBy.value).after else st
  }

  /**
   * TryGrab, with the anchor the requesting hand must not take given as
   * `excluded`.  The source passes the requester's own GrabbedAnchor; see
   * TryGrab and TryGrabApart.
   */
  function TryGrabExcluding(cfg: Config, st: Holders, req: Request, excluded: Option<AnchorRef>): (r: GrabResult)
    requires Wf(cfg, st)
    ensures Wf(cfg, r.after)
    // A held object with NoSecondGrab refuses and nothing changes.
    ensures st.grabbedBy.Some? && cfg.policy == NoSecondGrab ==>
      !r.accepted && r.anchor.None? && r.after == st && r.transferredFrom.None?
    // With TransferToSecondGrab the first holder is released before the callback runs.
    ensures st.grabbedBy.Some? && cfg.policy == TransferToSecondGrab ==> r.transferredFrom == st.grabbedBy
    ensures !(st.grabbedBy.Some? && cfg.policy == TransferToSecondGrab) ==> r.transferredFrom.None?
    // A veto refuses, clears the current anchor, and does not undo the transfer.
    ensures !(st.grabbedBy.Some? && cfg.policy == NoSecondGrab) && !req.allowed ==>
      !r.accepted && r.anchor.None? && r.after == AfterTransfer(cfg, st).(currentAnchor := -1)
    // Otherwise the grab succeeds exactly when there are no anchors or some anchor is eligible.
    ensures var st1 := AfterTransfer(cfg, st);
      var isSecond := st1.grabbedBy.Some?;
      var ex := if isSecond then excluded else None;
      r.accepted <==>
        !(st.grabbedBy.Some? && cfg.policy == NoSecondGrab) && req.allowed
        && (|cfg.anchors| == 0 || exists i :: 0 <= i < |cfg.anchors| && Eligible(cfg, isSecond, req.hand, ex, i))
    // An accepted requester becomes the first holder if there was none, else the second.
    ensures var st1 := AfterTransfer(cfg, st);
      r.accepted ==>
        r.anchor.Some?
        && (st1.grabbedBy.None? ==> r.after == st1.(grabbedBy := Some(req.grabber), currentAnchor := r.after.currentAnchor))
        && (st1.grabbedBy.Some? ==> r.after == st1.(grabbedBySecond := Some(req.grabber), currentAnchor := r.after.currentAnchor))
    // Without anchors the Grabbable is its own anchor.
    ensures r.accepted && |cfg.anchors| == 0 ==> r.anchor == Some(WholeObject(cfg.self)) && r.after.currentAnchor == -1
    // With anchors the chosen one is eligible and scores highest.
    ensures var st1 := AfterTransfer(cfg, st);
      var isSecond := st1.grabbedBy.Some?;
      var ex := if isSecond then excluded else None;
      var orient := OrientToHand(cfg, st);
      var k := r.after.currentAnchor;
      r.accepted && |cfg.anchors| > 0 ==>
        0 <= k && r.anchor == Some(AnchorAt(cfg.self, k))
        && Eligible(cfg, isSecond, req.hand, ex, k)
        && (forall j :: 0 <= j < |cfg.anchors| && Eligible(cfg, isSecond, req.hand, ex, j) ==>
              AnchorScore(req.measure(j), orient) <= AnchorScore(req.measure(k), orient))
        && (forall j :: 0 <= j < k && Eligible(cfg, isSecond, req.hand, ex, j) ==>
              AnchorScore(req.measure(j), orient) < AnchorScore(req.measure(k), orient))
    // An allowed grab that finds no anchor gives back the slot it took: a
    // first hand leaves the object free, and a later hand empties the second
    // slot, so a second holder it had displaced is lost.
    ensures var st1 := AfterTransfer(cfg, st);
      !r.accepted && req.allowed && |cfg.anchors| > 0 && !(st.grabbedBy.Some? && cfg.policy == NoSecondGrab) ==>
        (st1.grabbedBy.None? ==> r.after == st1.(currentAnchor := -1))
        && (st1.grabbedBy.Some? ==> r.after == st1.(grabbedBySecond := None, currentAnchor := -1))
    // A refusal hands back no anchor and leaves the requester holding nothing new.
    ensures !r.accepted ==> r.anchor.None? && r.after.currentAnchor == (if st.grabbedBy.Some? && cfg.policy == NoSecondGrab then st.currentAnchor else -1)
    ensures !r.accepted ==> !(st.grabbedBy.Some? && cfg.policy == NoSecondGrab) ==>
      r.after.grabbedBy == AfterTransfer(cfg, st).grabbedBy || r.after.grabbedBy.None?
  {
    if st.grabbedBy.Some? && cfg.policy == NoSecondGrab then
      GrabResult(false, None, st, None)
    else
      var transferred := if st.grabbedBy.Some? && cfg.policy == TransferToSecondGrab then st.grabbedBy else None;
      var st1 := AfterTransfer(cfg, st);
      if !req.allowed then
        GrabResult(false, None, st1.(currentAnchor := -1), transferred)
      else
        var isSecond := st1.grabbedBy.Some?;
        var st2 := if isSecond then st1.(grabbedBySecond := Some(req.grabber)) else st1.(grabbedBy := Some(req.grabber));
        var ex := if isSecond then excluded else None;
        if |cfg.anchors| == 0 then
          GrabResult(true, Some(WholeObject(cfg.self)), st2.(currentAnchor := -1), transferred)
        else
          var k := FindClosestAnchor(cfg, st2, req.hand, ex, req.measure);
          if k >= 0 then
            GrabResult(true, Some(AnchorAt(cfg.self, k)), st2.(currentAnchor := k), transferred)
          else
            var st3 := if st2.grabbedBySecond.Some? then st2.(grabbedBySecond := None) else st2.(grabbedBy := None);
            GrabResult(false, None, st3.(currentAnchor := -1), transferred)
  }

  /**
   * TryGrab as written: the anchor a second hand may not take is the one
   * the REQUESTING Grabber holds, which is null when it begins a grab.
   */
  function TryGrab(cfg: Config, st: Holders, req: Request): (r: GrabResult)
    requires Wf(cfg, st)
    ensures Wf(cfg, r.after)
    ensures !r.accepted ==> r.anchor.None?
    // The anchor kept from a second hand is the one the requester itself holds.
    ensures var isSecond := AfterTransfer(cfg, st).grabbedBy.Some?;
      r.accepted && |cfg.anchors| > 0 ==>
        0 <= r.after.currentAnchor && r.anchor == Some(AnchorAt(cfg.self, r.after.currentAnchor))
        && Eligible(cfg, isSecond, req.hand, if isSecond then req.grabbedAnchor else None, r.after.currentAnchor)
  {
    TryGrabExcluding(cfg, st, req, req.grabbedAnchor)
  }

  /**
   * TryGrab as evidently intended: a second hand may not take the anchor
   * the first holder's attacher holds (`primaryAnchor`).
   */
  function TryGrabApart(cfg: Config, st: Holders, req: Request, primaryAnchor: Option<AnchorRef>): (r: GrabResult)
    requires Wf(cfg, st)
    ensures r.accepted && AfterTransfer(cfg, st).grabbedBy.Some? && |cfg.anchors| > 0 ==> r.anchor != primaryAnchor
    ensures !r.accepted ==> r.anchor.None?
  {
    TryGrabExcluding(cfg, st, req, primaryAnchor)
  }

  /** One mirrored anchor that either hand may take first or second. */
  const SharedAnchor := GrabAnchor(
    Settings(Right, true, MirrorActions(false, false, false, false, false, false), FirstOrSecond, false, false),
    Cache(Slot(Vectors.Zero, Identity), Slot(Vectors.Zero, Identity), true, 0),
    true)

  /**
   * With AllowBothHands and a single anchor, the right hand grabs the
   * anchor, and then the left hand, which holds nothing yet, is handed the
   * very same anchor.
   */
  lemma SecondGrabSharesAnchor()
    ensures var cfg := Config(0, 0, false, AllowBothHands, [SharedAnchor]);
      var first := TryGrab(cfg, Free, Request(1, Right, None, true, i => Measure(0.0, 0.0)));
      var second := TryGrab(cfg, first.after, Request(2, Left, None, true, i => Measure(0.0, 0.0)));
      first.accepted && second.accepted
      && first.anchor == Some(AnchorAt(0, 0)) && second.anchor == Some(AnchorAt(0, 0))
      && second.after.grabbedBy == Some(1) && second.after.grabbedBySecond == Some(2)
  {
    var cfg := Config(0, 0, false, AllowBothHands, [SharedAnchor]);
    var req1 := Request(1, Right, None, true, i => Measure(0.0, 0.0));
    assert Eligible(cfg, false, Right, None, 0);
    var first := TryGrab(cfg, Free, req1);
    var req2 := Request(2, Left, None, true, i => Measure(0.0, 0.0));
    assert Eligible(cfg, true, Left, None, 0);
    var second := TryGrab(cfg, first.after, req2);
  }

  /** With TryGrabApart the left hand is refused instead, as the only anchor is taken. */
  lemma SecondGrabApartRefused()
    ensures var cfg := Config(0, 0, false, AllowBothHands, [SharedAnchor]);
      var first := TryGrabApart(cfg, Free, Request(1, Right, None, true, i => Measure(0.0, 0.0)), None);
      var second := TryGrabApart(cfg, first.after, Request(2, Left, None, true, i => Measure(0.0, 0.0)), first.anchor);
      first.accepted && !second.accepted && second.after.grabbedBy == Some(1) && second.after.grabbedBySecond.None?
  {
    var cfg := Config(0, 0, false, AllowBothHands, [SharedAnchor]);
    assert Eligible(cfg, false, Right, None, 0);
  }

  /**
   * Releasing right after an accepted grab gives the holders back as they
   * were once any transfer had happened: the requester is gone again and
   * nobody else moved.  (When both hands already hold the object under
   * AllowBothHands, the requester silently takes the second holder's place;
   * see ThirdGrabDisplacesSecond.)
   */
  lemma GrabThenRelease(cfg: Config, st: Holders, req: Request, excluded: Option<AnchorRef>)
    requires Wf(cfg, st) && !Holds(st, req.grabber)
    requires TryGrabExcluding(cfg, st, req, excluded).accepted
    requires AfterTransfer(cfg, st).grabbedBySecond.None?
    ensures var after := TryGrabExcluding(cfg, st, req, excluded).after;
      Release(after, req.grabber).after == AfterTransfer(cfg, st).(currentAnchor := after.currentAnchor)
  {
    var st1 := AfterTransfer(cfg, st);
    assert !Holds(st1, req.grabber);
    var after := TryGrabExcluding(cfg, st, req, excluded).after;
    if st1.grabbedBy.Some? {
      assert after == st1.(grabbedBySecond := Some(req.grabber), currentAnchor := after.currentAnchor);
    } else {
      assert after == st1.(grabbedBy := Some(req.grabber), currentAnchor := after.currentAnchor);
    }
  }

  /**
   * After a grab the grab pose comes from the chosen anchor when that
   * anchor overrides it, and from the Grabbable otherwise; after a
   * refusal it always comes from the Grabbable.
   */
  lemma GrabPoseAfterGrab(cfg: Config, st: Holders, req: Request, excluded: Option<AnchorRef>)
    requires Wf(cfg, st)
    requires !(st.grabbedBy.Some? && cfg.policy == NoSecondGrab)
    ensures var r := TryGrabExcluding(cfg, st, req, excluded);
      r.accepted && r.anchor.Some? && r.anchor.value.AnchorAt? && cfg.anchors[r.anchor.value.index].settings.overrideGrabPose ==>
        GrabPoseID(cfg, r.after) == cfg.anchors[r.anchor.value.index].cache.grabPoseID
    ensures var r := TryGrabExcluding(cfg, st, req, excluded);
      !(r.accepted && r.anchor.Some? && r.anchor.value.AnchorAt? && cfg.anchors[r.anchor.value.index].settings.overrideGrabPose) ==>
        GrabPoseID(cfg, r.after) == cfg.grabPoseID
  {
  }

  /**
   * Under AllowBothHands a grab of an object both hands hold replaces the
   * second holder, which is not released.
   */
  lemma ThirdGrabDisplacesSecond(cfg: Config, st: Holders, req: Request, excluded: Option<AnchorRef>)
    requires Wf(cfg, st) && cfg.policy == AllowBothHands
    requires st.grabbedBySecond.Some? && TryGrabExcluding(cfg, st, req, excluded).accepted
    ensures var r := TryGrabExcluding(cfg, st, req, excluded);
      r.after.grabbedBy == st.grabbedBy && r.after.grabbedBySecond == Some(req.grabber)
  {
  }

  /**
   * Under AllowBothHands a grab of an object both hands hold that the
   * callback allows but for which no anchor is eligible is refused, and
   * the second holder it displaced is gone: only the first holder is left.
   */
  lemma ThirdGrabRefusedDropsSecond(cfg: Config, st: Holders, req: Request, excluded: Option<AnchorRef>)
    requires Wf(cfg, st) && cfg.policy == AllowBothHands
    requires st.grabbedBySecond.Some? && req.allowed && |cfg.anchors| > 0
    requires forall i :: 0 <= i < |cfg.anchors| ==> !Eligible(cfg, true, req.hand, excluded, i)
    ensures var r := TryGrabExcluding(cfg, st, req, excluded);
      !r.accepted && r.anchor.None? && r.after.grabbedBy == st.grabbedBy && r.after.grabbedBySecond.None?
  {
  }
}
