/**
 * GrabAnchor: a point on a Grabbable where a hand takes hold, with an
 * offset and orientation cached per hand, relative to the Grabbable.  The
 * older GrabAnchor in Scripts/ is the same code with `OverridePose` in
 * place of `OverrideGrabPose`; this module models both.
 */
module Anchors {
  import opened Wrappers
  import opened Vectors
  import opened Hands

  /** Identifies a Grabbable. */
  type GrabbableId = nat

  /**
   * An `IGrabAnchor` reference: the index-th GrabAnchor among a Grabbable's
   * children, or the Grabbable acting as its own anchor.
   */
  datatype AnchorRef = AnchorAt(owner: GrabbableId, index: nat) | WholeObject(owner: GrabbableId)

  /** GrabAnchor.Order: whether the anchor may be taken by the first or the second hand. */
  datatype Order = FirstOrSecond | FirstOnly | SecondOnly

  /** The MirrorAction flags. */
  datatype MirrorActions = MirrorActions(
    offsetX: bool, offsetY: bool, offsetZ: bool,
    rotationX: bool, rotationY: bool, rotationZ: bool)

  /** The inspector settings of a GrabAnchor. */
  datatype Settings = Settings(
    primaryHand: Hand,
    mirrorForOtherHand: bool,
    mirrorActions: MirrorActions,
    grabOrder: Order,
    overrideGrabPose: bool,
    orientToHand: bool)

  /** A cached offset and orientation, relative to the Grabbable. */
  datatype Slot = Slot(offset: Vec3, orient: Quat)

  /** A position and rotation in world space. */
  datatype Pose = Pose(position: Vec3, rotation: Quat)

  /**
   * The state Awake builds: one slot per hand, whether a parent Grabbable
   * was found, and GrabPoseID (0 until it is assigned).
   */
  datatype Cache = Cache(left: Slot, right: Slot, hasGrabbable: bool, grabPoseID: int)

  /** A GrabAnchor component: its settings, its cached state and whether it is enabled. */
  datatype GrabAnchor = GrabAnchor(settings: Settings, cache: Cache, enabled: bool)

  /** SupportsHand: a mirrored anchor serves any hand, otherwise only its primary hand. */
  predicate SupportsHand(s: Settings, hand: Hand) {
    s.mirrorForOtherHand || s.primaryHand == hand
  }

  /** The slot GetPosition and GetRotation read: the left one for Left, the right one otherwise. */
  function SlotFor(c: Cache, hand: Hand): (r: Slot)
    ensures hand == Left ==> r == c.left
    ensures hand != Left ==> r == c.right
  {
    if hand == Left then c.left else c.right
  }

  /** GetPosition: the Grabbable's position plus the slot's offset turned by its rotation. */
  function GetPosition(rot: Rotations, c: Cache, hand: Hand, grabbable: Pose): Vec3 {
    Add(grabbable.position, rot.rotate(grabbable.rotation, SlotFor(c, hand).offset))
  }

  /** GetRotation: the Grabbable's rotation composed with the slot's orientation. */
  function GetRotation(rot: Rotations, c: Cache, hand: Hand, grabbable: Pose): Quat {
    rot.mul(grabbable.rotation, SlotFor(c, hand).orient)
  }

  const Up := Vec3(0.0, 1.0, 0.0)

  /** GetUp: the up direction turned by GetRotation. */
  function GetUp(rot: Rotations, c: Cache, hand: Hand, grabbable: Pose): Vec3 {
    rot.rotate(GetRotation(rot, c, hand, grabbable), Up)
  }

  /** What one hand reads does not depend on the other hand's slot. */
  lemma ReadsOnlyOwnSlot(rot: Rotations, c: Cache, hand: Hand, grabbable: Pose, other: Slot)
    ensures hand == Left ==>
      GetPosition(rot, c.(right := other), hand, grabbable) == GetPosition(rot, c, hand, grabbable)
      && GetRotation(rot, c.(right := other), hand, grabbable) == GetRotation(rot, c, hand, grabbable)
    ensures hand != Left ==>
      GetPosition(rot, c.(left := other), hand, grabbable) == GetPosition(rot, c, hand, grabbable)
      && GetRotation(rot, c.(left := other), hand, grabbable) == GetRotation(rot, c, hand, grabbable)
  {
  }

  /** The mirrored offset: the flagged components negated. */
  function MirrorOffset(v: Vec3, m: MirrorActions): (r: Vec3)
    ensures !m.offsetX && !m.offsetY && !m.offsetZ ==> r == v
  {
    Vec3(if m.offsetX then -v.x else v.x, if m.offsetY then -v.y else v.y, if m.offsetZ then -v.z else v.z)
  }

  /** Each component is negated exactly when its flag is set, and mirroring twice restores the offset. */
  lemma MirrorOffsetFlags(v: Vec3, m: MirrorActions)
    ensures v.x != 0.0 ==> (MirrorOffset(v, m).x == -v.x <==> m.offsetX)
    ensures v.y != 0.0 ==> (MirrorOffset(v, m).y == -v.y <==> m.offsetY)
    ensures v.z != 0.0 ==> (MirrorOffset(v, m).z == -v.z <==> m.offsetZ)
    ensures !m.offsetX ==> MirrorOffset(v, m).x == v.x
    ensures !m.offsetY ==> MirrorOffset(v, m).y == v.y
    ensures !m.offsetZ ==> MirrorOffset(v, m).z == v.z
    ensures MirrorOffset(MirrorOffset(v, m), m) == v
  {
  }

  /** Some rotation flag is set. */
  predicate InvertsRotation(m: MirrorActions) {
    m.rotationX || m.rotationY || m.rotationZ
  }

  /** The Euler triple with the flagged rotation components negated. */
  function MirrorEuler(e: Vec3, m: MirrorActions): (r: Vec3)
    ensures !InvertsRotation(m) ==> r == e
  {
    Vec3(if m.rotationX then -e.x else e.x, if m.rotationY then -e.y else e.y, if m.rotationZ then -e.z else e.z)
  }

  /** Each Euler component is negated exactly when its flag is set, and mirroring twice restores the triple. */
  lemma MirrorEulerFlags(e: Vec3, m: MirrorActions)
    ensures e.x != 0.0 ==> (MirrorEuler(e, m).x == -e.x <==> m.rotationX)
    ensures e.y != 0.0 ==> (MirrorEuler(e, m).y == -e.y <==> m.rotationY)
    ensures e.z != 0.0 ==> (MirrorEuler(e, m).z == -e.z <==> m.rotationZ)
    ensures !m.rotationX ==> MirrorEuler(e, m).x == e.x
    ensures !m.rotationY ==> MirrorEuler(e, m).y == e.y
    ensures !m.rotationZ ==> MirrorEuler(e, m).z == e.z
    ensures MirrorEuler(MirrorEuler(e, m), m) == e
  {
  }

  /**
   * The mirrored orientation: the primary one when no rotation flag is
   * set, otherwise the rotation built from its Euler angles with the
   * flagged ones negated.
   */
  function MirrorOrient(rot: Rotations, o: Quat, m: MirrorActions): (r: Quat)
    ensures !InvertsRotation(m) ==> r == o
    ensures InvertsRotation(m) ==> r == rot.fromEuler(MirrorEuler(rot.eulerAngles(o), m))
  {
    if InvertsRotation(m) then rot.fromEuler(MirrorEuler(rot.eulerAngles(o), m)) else o
  }

  /** The primary slot CacheOffsetOrient computes from the anchor's and the Grabbable's world poses. */
  function PrimarySlot(rot: Rotations, anchor: Pose, grabbable: Pose): Slot {
    var inv := rot.inverse(grabbable.rotation);
    Slot(rot.rotate(inv, Sub(anchor.position, grabbable.position)), rot.mul(inv, anchor.rotation))
  }

  /** The slot the mirror derives from a primary slot. */
  function MirroredSlot(rot: Rotations, primary: Slot, m: MirrorActions): Slot {
    Slot(MirrorOffset(primary.offset, m), MirrorOrient(rot, primary.orient, m))
  }

  /** The hand whose slot Awake fills first: Right for a Right anchor, Left for every other value. */
  function PrimarySlotHand(s: Settings): (h: Hand)
    ensures h == Left || h == Right
    ensures h == Right <==> s.primaryHand == Right
  {
    if s.primaryHand == Right then Right else Left
  }

  /**
   * Awake: GrabPoseID is set from the pose name's hash only when the
   * anchor overrides the grab pose; then CacheOffsetOrient fills the
   * primary hand's slot, and the other slot only when mirroring.  Without
   * a parent Grabbable nothing is cached.
   */
  function Awake(rot: Rotations, s: Settings, c: Cache, poseHash: int, self: Pose, parent: Option<Pose>): (r: Cache)
    ensures r.grabPoseID == (if s.overrideGrabPose then poseHash else c.grabPoseID)
    ensures r.hasGrabbable <==> parent.Some?
    ensures parent.None? ==> r.left == c.left && r.right == c.right
    ensures parent.Some? ==>
      var p := PrimarySlot(rot, self, parent.value);
      SlotFor(r, PrimarySlotHand(s)) == p
      && (s.mirrorForOtherHand ==> SlotFor(r, OtherHand(PrimarySlotHand(s))) == MirroredSlot(rot, p, s.mirrorActions))
      && (!s.mirrorForOtherHand ==> SlotFor(r, OtherHand(PrimarySlotHand(s))) == SlotFor(c, OtherHand(PrimarySlotHand(s))))
  {
    var id := if s.overrideGrabPose then poseHash else c.grabPoseID;
    var cached := c.(grabPoseID := id);
    if s.primaryHand == Right then
      var (right, left) := CacheOffsetOrient(rot, s, c.right, c.left, self, parent);
      cached.(right := right, left := left, hasGrabbable := parent.Some?)
    else
      var (left, right) := CacheOffsetOrient(rot, s, c.left, c.right, self, parent);
      cached.(left := left, right := right, hasGrabbable := parent.Some?)
  }

  /**
   * CacheOffsetOrient on the primary and the other slot: returns both,
   * unchanged when there is no parent Grabbable.
   */
  function CacheOffsetOrient(rot: Rotations, s: Settings, primary: Slot, other: Slot, self: Pose, parent: Option<Pose>): (r: (Slot, Slot))
    ensures parent.None? ==> r == (primary, other)
    ensures parent.Some? ==> r.0 == PrimarySlot(rot, self, parent.value)
    ensures parent.Some? && s.mirrorForOtherHand ==> r.1 == MirroredSlot(rot, r.0, s.mirrorActions)
    ensures !s.mirrorForOtherHand ==> r.1 == other
  {
    match parent
    case None => (primary, other)
    case Some(g) =>
      var p := PrimarySlot(rot, self, g);
      if s.mirrorForOtherHand then (p, MirroredSlot(rot, p, s.mirrorActions)) else (p, other)
  }

  /**
   * A hand the anchor supports reads a slot Awake has filled: the primary
   * slot for the primary hand, and the mirrored slot for the other one.
   */
  lemma SupportedHandReadsCachedSlot(rot: Rotations, s: Settings, c: Cache, poseHash: int, self: Pose, parent: Pose, hand: Hand)
    requires hand == Left || hand == Right
    requires SupportsHand(s, hand)
    ensures var r := Awake(rot, s, c, poseHash, self, Some(parent));
      var p := PrimarySlot(rot, self, parent);
      SlotFor(r, hand) == (if hand == PrimarySlotHand(s) then p else MirroredSlot(rot, p, s.mirrorActions))
  {
    if hand != PrimarySlotHand(s) {
      assert hand == OtherHand(PrimarySlotHand(s));
    }
  }
}
