# HandsOnVR / VRGrab grabbing core in Dafny

This project models how HandsOnVR's hands grab things, and proves properties of that model. HandsOnVR is a Unity VR hand-interaction library written in C#. The model also covers the first-generation VRGrab Grabber and Grabbable it grew out of.

The modelled parts are:

- **The Grabber.** It keeps track of the colliders inside a hand's trigger volume, and of how many colliders each Grabbable has inside (`_grabbables` / `_canGrab`). It ranks the candidates by raycast distance when the grip begins. It tries them in order until one accepts, and releases on grip end.
- **The Grabbable.** It holds the first-hand and second-hand state and applies the second-grab policy. It scores its GrabAnchors (distance times orientation) and hands the best one to the hand.
- **GrabAnchor.** It caches a per-hand offset and orientation, with the optional mirror for the other hand.
- **GrabAttacher and GrabJoint.** They pull the object towards one or two hands. The model keeps their bookkeeping and their engagement ramps.
- **The helpers these build on.** ButtonState edge detection, LinearLimits/Limits, AngularLimits, LayerMask tests, the Vector3 axis accessors and `GetComponentInParent(includeInactive)`.

Engine services are inputs, never computed:

- raycasts, given as the hits of each ray;
- the Collider-to-Grabbable lookup;
- Dictionary enumeration order;
- quaternion arithmetic;
- `Animator.StringToHash`;
- the frame time;
- the OnGrabbed callback's answer.

Floats are modelled as reals. `float.MaxValue`, the "not yet measured" distance, is modelled as `Unreached`, and `float.MinValue`, the "no score yet" value, as an absent `Option`. Mathf follows Unity's definitions: `Sign(0) = 1`, `Repeat` floors, and `Lerp`/`InverseLerp` clamp. `1 << layer` takes the shift count modulo 32, as C# does.

Each source concept has its own module: Vectors, Hands, Mathf, LinearLimits, Angular, LayerMasks, ComponentSearch, ButtonStates, Selection, Anchors, Colliders, Proximity, Ranking, Grabbables, InTrigger, Attachers, Joints, Grabbers, LegacyGrabbers, ButtonPhysics and VRGrab. Where the source itself has a defect, the model contains both the code as written and a corrected version; see Findings.

Path prefixes used below: `H/` is `HandsOnVR.Unity/Assets/HandsOnVR/Scripts/` and `V/` is `VRGrab.Unity/Assets/VRGrab/VRGrab/Scripts/`. The table spells out each path in full.

## Model

| member | source | states |
|---|---|---|
| Vectors.GetAxis | HandsOnVR.Unity/Assets/HandsOnVR/Scripts/Extensions/Vector3Extensions.cs:8-11 | X reads x, Y reads y, and every other flag combination reads z |
| Vectors.SetAxis | HandsOnVR.Unity/Assets/HandsOnVR/Scripts/Extensions/Vector3Extensions.cs:13-19 | GetAxis reads back the value written on the same axis, and the other two components are untouched |
| Vectors.SetWhatIsThere | HandsOnVR.Unity/Assets/HandsOnVR/Scripts/Extensions/Vector3Extensions.cs:8-19 | writing back what GetAxis reads leaves the vector unchanged |
| Vectors.SetTwice | HandsOnVR.Unity/Assets/HandsOnVR/Scripts/Extensions/Vector3Extensions.cs:13-19 | SetAxis is idempotent, and a later write to the same axis overrides an earlier one |
| Hands.OtherHand | HandsOnVR.Unity/Assets/HandsOnVR/Scripts/Core/GrabAttacher.cs:86 | the second hand is Right exactly when the first is Left; it is always a single hand |
| Hands.SignedAngle | HandsOnVR.Unity/Assets/HandsOnVR/Scripts/Core/GrabAttacher.cs:126 | an angle in [0,360] becomes a turn in (-180,180] that differs from it by 0 or 360, and is zero only for no rotation |
| LinearLimits.IsInsideIsBetween | HandsOnVR.Unity/Assets/HandsOnVR/Scripts/Utils/LinearLimits.cs:19 | both branches of IsInside are the closed interval between the smaller and the larger endpoint |
| LinearLimits.IsInsideOrderFree | HandsOnVR.Unity/Assets/HandsOnVR/Scripts/Utils/LinearLimits.cs:19 | swapping Low and High does not change membership |
| LinearLimits.DegenerateLimits | HandsOnVR.Unity/Assets/HandsOnVR/Scripts/Utils/LinearLimits.cs:19 | equal endpoints admit exactly that one value |
| LinearLimits.Clamp | HandsOnVR.Unity/Assets/HandsOnVR/Scripts/Utils/LinearLimits.cs:20 | the result is inside; a value inside is kept; a value below or above goes to the nearer endpoint |
| LinearLimits.ClampIdempotent | HandsOnVR.Unity/Assets/HandsOnVR/Scripts/Utils/LinearLimits.cs:20 | clamping twice is clamping once |
| LinearLimits.Range | HandsOnVR.Unity/Assets/HandsOnVR/Scripts/Utils/LinearLimits.cs:21 | negative exactly when the limits are inverted; its magnitude is the interval's width |
| LinearLimits.Lerp | HandsOnVR.Unity/Assets/HandsOnVR/Scripts/Utils/LinearLimits.cs:22 | Low at t <= 0, High at t >= 1, and always inside the limits |
| LinearLimits.Normalize | HandsOnVR.Unity/Assets/HandsOnVR/Scripts/Utils/LinearLimits.cs:23 | in [0,1]; 0 at Low and 1 at High; 0 for equal endpoints |
| LinearLimits.NormalizeLerp | HandsOnVR.Unity/Assets/HandsOnVR/Scripts/Utils/LinearLimits.cs:22-23 | with distinct endpoints, InverseLerp undoes Lerp on [0,1] |
| LinearLimits.LerpNormalize | HandsOnVR.Unity/Assets/HandsOnVR/Scripts/Utils/LinearLimits.cs:20-23 | with distinct endpoints, Lerp after InverseLerp is Clamp |
| Angular.FixAngle | HandsOnVR.Unity/Assets/HandsOnVR/Scripts/Utils/AngularLimits.cs:95 | the wrapped angle lies in [-180,180) |
| Angular.FixAngleIdentity | HandsOnVR.Unity/Assets/HandsOnVR/Scripts/Utils/AngularLimits.cs:95 | an angle already in [-180,180) is unchanged |
| Angular.FixAnglePeriodic | HandsOnVR.Unity/Assets/HandsOnVR/Scripts/Utils/AngularLimits.cs:95 | adding whole turns does not change the result |
| Angular.FixAngleIdempotent | HandsOnVR.Unity/Assets/HandsOnVR/Scripts/Utils/AngularLimits.cs:95 | wrapping twice is wrapping once |
| Angular.FixAngleTurns | HandsOnVR.Unity/Assets/HandsOnVR/Scripts/Utils/AngularLimits.cs:95 | the result differs from the input by a whole number of turns |
| Angular.FixAngles | HandsOnVR.Unity/Assets/HandsOnVR/Scripts/Utils/AngularLimits.cs:100 | each Euler component is wrapped into [-180,180) |
| Angular.FixAnglesIdentity | HandsOnVR.Unity/Assets/HandsOnVR/Scripts/Utils/AngularLimits.cs:100 | Euler angles that are already wrapped are unchanged |
| Angular.New | HandsOnVR.Unity/Assets/HandsOnVR/Scripts/Utils/AngularLimits.cs:38-43 | both endpoints are stored wrapped into [-180,180), with the given CCW flag |
| Angular.SetStart | HandsOnVR.Unity/Assets/HandsOnVR/Scripts/Utils/AngularLimits.cs:15-19 | the Start setter stores the wrapped angle and keeps End and CCW |
| Angular.SetEnd | HandsOnVR.Unity/Assets/HandsOnVR/Scripts/Utils/AngularLimits.cs:26-30 | the End setter stores the wrapped angle and keeps Start and CCW |
| Angular.Range | HandsOnVR.Unity/Assets/HandsOnVR/Scripts/Utils/AngularLimits.cs:67 | for stored limits the range lies in [0,360) |
| Angular.RangeIsArcLength | HandsOnVR.Unity/Assets/HandsOnVR/Scripts/Utils/AngularLimits.cs:67 | Range equals the distance from Start to End travelling in the range's direction (a reference definition) |
| Angular.IsInsideOnArc | HandsOnVR.Unity/Assets/HandsOnVR/Scripts/Utils/AngularLimits.cs:47-55 | IsInside holds exactly for angles whose offset from Start along the arc is at most Range (both directions) |
| Angular.IsInsidePeriodic | HandsOnVR.Unity/Assets/HandsOnVR/Scripts/Utils/AngularLimits.cs:47-55 | IsInside depends only on the angle modulo 360 |
| Angular.NewContainsEndpoints | HandsOnVR.Unity/Assets/HandsOnVR/Scripts/Utils/AngularLimits.cs:38-55 | both angles given to the constructor are inside the limits it builds |
| Angular.IsInsideWrapped | HandsOnVR.Unity/Assets/HandsOnVR/Scripts/Utils/AngularLimits.cs:47-55 | for an already wrapped angle, IsInside is the plain test of the two branches |
| Angular.Clamp | HandsOnVR.Unity/Assets/HandsOnVR/Scripts/Utils/AngularLimits.cs:57-65 | for stored limits the clamped angle lies in [-180,180) |
| Angular.ClampNotWrapped | HandsOnVR.Unity/Assets/HandsOnVR/Scripts/Utils/AngularLimits.cs:57-65 | on a range that does not wrap, Clamp lands inside and keeps angles that are inside |
| Angular.ClampWrappedEscapes | HandsOnVR.Unity/Assets/HandsOnVR/Scripts/Utils/AngularLimits.cs:60-62 | on a wrapped range, Clamp can return an angle outside the range |
| Angular.ClampWrappedMovesInside | HandsOnVR.Unity/Assets/HandsOnVR/Scripts/Utils/AngularLimits.cs:60-62 | on a wrapped range, Clamp can move an angle that was already inside |
| Angular.ClampOnArc | HandsOnVR.Unity/Assets/HandsOnVR/Scripts/Utils/AngularLimits.cs:57-65 | corrected clamp: always inside, keeps inside angles, and agrees with Clamp on ranges that do not wrap |
| Angular.Unwrapped | HandsOnVR.Unity/Assets/HandsOnVR/Scripts/Utils/AngularLimits.cs:72-75 | the unwrap adds a whole turn to the span End minus Start, in the range's direction |
| Angular.Lerp | HandsOnVR.Unity/Assets/HandsOnVR/Scripts/Utils/AngularLimits.cs:81-90 | unwrapped ranges leave the struct alone; wrapped ones store the unwrap and return a wrapped angle |
| Angular.Normalize | HandsOnVR.Unity/Assets/HandsOnVR/Scripts/Utils/AngularLimits.cs:69-79 | the result is in [0,1]; a wrapped range stores the unwrap in the struct |
| Angular.LerpOnArc | HandsOnVR.Unity/Assets/HandsOnVR/Scripts/Utils/AngularLimits.cs:81-90 | the lerped angle is inside the limits, at offset Clamp01(t) times Range from Start along the arc |
| Angular.LerpFirstCallOnArc | HandsOnVR.Unity/Assets/HandsOnVR/Scripts/Utils/AngularLimits.cs:81-90 | Lerp's value on a freshly stored struct is the along-the-arc reference |
| Angular.LerpCorruptsLimits | HandsOnVR.Unity/Assets/HandsOnVR/Scripts/Utils/AngularLimits.cs:83-86 | after one Lerp on a wrapped range, an angle that was inside is no longer inside |
| Angular.NormalizeOnArc | HandsOnVR.Unity/Assets/HandsOnVR/Scripts/Utils/AngularLimits.cs:69-79 | corrected normalize: in [0,1], and equal to Normalize on ranges that do not wrap |
| Angular.NormalizeLerpOnArc | HandsOnVR.Unity/Assets/HandsOnVR/Scripts/Utils/AngularLimits.cs:69-90 | on an arc of positive length, the corrected Normalize undoes Lerp for t in [0,1] |
| Angular.NormalizeSplitsAtZero | HandsOnVR.Unity/Assets/HandsOnVR/Scripts/Utils/AngularLimits.cs:76 | on a wrapped range with both endpoints negative, an inside angle normalizes to 1 instead of its fraction of the arc |
| Angular.NormalizeRepeatDiffers | HandsOnVR.Unity/Assets/HandsOnVR/Scripts/Utils/AngularLimits.cs:72-75 | two identical Normalize calls give 0.25 and then 1 because the first stored its unwrap |
| LayerMasks.ContainsObject | VRGrab.Unity/Assets/VRGrab/VRGrab/Scripts/LayerMaskExtensions.cs:6-9 | the GameObject overload is the layer test on the object's layer |
| LayerMasks.ContainsCollider | VRGrab.Unity/Assets/VRGrab/VRGrab/Scripts/LayerMaskExtensions.cs:16-19 | the Collider overload is the layer test on its game object's layer |
| LayerMasks.EmptyMaskContainsNothing | VRGrab.Unity/Assets/VRGrab/VRGrab/Scripts/LayerMaskExtensions.cs:11-14 | mask 0 contains no layer, whatever the shift count |
| LayerMasks.DefaultGrabbableLayers | HandsOnVR.Unity/Assets/HandsOnVR/Scripts/Core/Grabber.cs:23 | the default mask 0x7FFFFFFF holds exactly layers 0 to 30 |
| LayerMasks.UnionContains | VRGrab.Unity/Assets/VRGrab/VRGrab/Scripts/LayerMaskExtensions.cs:11-14 | a layer is in the union of two masks exactly when it is in one of them |
| LayerMasks.SingleBitTestsAgree | VRGrab.Unity/Assets/VRGrab/VRGrab/Scripts/Grabber.cs:35-36 | the VRGrab Grabber's `(mask & bit) == bit` agrees with the extension's `!= 0` |
| ComponentSearch.FirstHit | HandsOnVR.Unity/Assets/HandsOnVR/Scripts/Extensions/ComponentExtensions.cs:11-24 | reference: None exactly when no node from self to root is considered and has the component; otherwise the first such |
| ComponentSearch.GetComponentInParent | HandsOnVR.Unity/Assets/HandsOnVR/Scripts/Extensions/ComponentExtensions.cs:11-24 | the loop returns FirstHit and stops after the first hit or at the root |
| ComponentSearch.FirstHitIsFirst | HandsOnVR.Unity/Assets/HandsOnVR/Scripts/Extensions/ComponentExtensions.cs:15-22 | the result is determined by the index of the first hit |
| ComponentSearch.IncludeInactiveIgnoresActivity | HandsOnVR.Unity/Assets/HandsOnVR/Scripts/Extensions/ComponentExtensions.cs:17 | with includeInactive set, activity flags do not change the result |
| ComponentSearch.InactiveNodesAreSkipped | HandsOnVR.Unity/Assets/HandsOnVR/Scripts/Extensions/ComponentExtensions.cs:17-21 | without includeInactive, an inactive node counts as having no component and the walk goes on to its parent |
| ButtonStates.New | HandsOnVR.Unity/Assets/HandsOnVR/Scripts/Utils/ButtonState.cs:21-24 | a fresh state has not ended and has held time 0; it is active (and so has begun) only for a threshold <= 0 |
| ButtonStates.Update | HandsOnVR.Unity/Assets/HandsOnVR/Scripts/Utils/ButtonState.cs:31-44 | Began and Ended are exactly the rising and falling edges; held time grows by dt while active and is 0 otherwise |
| ButtonStates.EdgesExclusive | HandsOnVR.Unity/Assets/HandsOnVR/Scripts/Utils/ButtonState.cs:55-60 | a frame never both begins and ends |
| ButtonStates.HeldTimeAccumulates | HandsOnVR.Unity/Assets/HandsOnVR/Scripts/Utils/ButtonState.cs:36-39 | while the button stays active, held time is the sum of the frame times |
| ButtonStates.HeldTimeSincePress | HandsOnVR.Unity/Assets/HandsOnVR/Scripts/Utils/ButtonState.cs:31-44 | after a press, held time is the time since the frame the press began |
| ButtonStates.HeldTimeNonNegative | HandsOnVR.Unity/Assets/HandsOnVR/Scripts/Utils/ButtonState.cs:36-43 | with non-negative frame times, held time is never negative |
| ButtonStates.PressAndRelease | HandsOnVR.Unity/Assets/HandsOnVR/Scripts/Utils/ButtonState.cs:31-60 | a concrete press and release at the default threshold 0.5, frame by frame |
| Selection.FirstMax | HandsOnVR.Unity/Assets/HandsOnVR/Scripts/Core/Grabbable.cs:219-258 | the strict-greater scan keeps the first index of the largest score, or -1 when all are skipped |
| Selection.ScanForMax | HandsOnVR.Unity/Assets/HandsOnVR/Scripts/Core/Grabbable.cs:219-258 | the loop with a running best score computes FirstMax |
| Selection.FirstMin | VRGrab.Unity/Assets/VRGrab/VRGrab/Scripts/Grabber.cs:109-144 | the strict-less scan keeps the first index of the smallest distance, or -1 when none is rated |
| Anchors.SlotFor | HandsOnVR.Unity/Assets/HandsOnVR/Scripts/Core/GrabAnchor.cs:90-100 | the left slot for Left, the right slot for every other Hand value |
| Anchors.ReadsOnlyOwnSlot | HandsOnVR.Unity/Assets/HandsOnVR/Scripts/Core/GrabAnchor.cs:90-100 | what one hand's GetPosition and GetRotation return does not depend on the other hand's slot |
| Anchors.MirrorOffset | HandsOnVR.Unity/Assets/HandsOnVR/Scripts/Core/GrabAnchor.cs:152-164 | with no offset flag set, the mirrored offset is the primary one |
| Anchors.MirrorOffsetFlags | HandsOnVR.Unity/Assets/HandsOnVR/Scripts/Core/GrabAnchor.cs:152-164 | a component is negated exactly when its flag is set, and mirroring twice restores the offset |
| Anchors.MirrorEuler | HandsOnVR.Unity/Assets/HandsOnVR/Scripts/Core/GrabAnchor.cs:166-182 | with no rotation flag set, the Euler triple is unchanged |
| Anchors.MirrorEulerFlags | HandsOnVR.Unity/Assets/HandsOnVR/Scripts/Core/GrabAnchor.cs:171-182 | an Euler component is negated exactly when its flag is set, and mirroring twice restores the triple |
| Anchors.MirrorOrient | HandsOnVR.Unity/Assets/HandsOnVR/Scripts/Core/GrabAnchor.cs:166-187 | the primary orientation when no rotation flag is set, otherwise the rotation of the mirrored Euler angles |
| Anchors.PrimarySlotHand | HandsOnVR.Unity/Assets/HandsOnVR/Scripts/Core/GrabAnchor.cs:119-126 | Awake fills the right slot first exactly for a Right anchor, and the left slot for every other value |
| Anchors.Awake | HandsOnVR.Unity/Assets/HandsOnVR/Scripts/Core/GrabAnchor.cs:109-127 | GrabPoseID is set only on override; with a parent Grabbable, the primary slot gets the cached pose, and the other slot gets the mirror only when mirroring |
| Anchors.CacheOffsetOrient | HandsOnVR.Unity/Assets/HandsOnVR/Scripts/Core/GrabAnchor.cs:138-189 | without a parent nothing changes; otherwise the primary slot is the pose relative to the Grabbable, and the second slot is its mirror when mirroring and is kept otherwise |
| Anchors.SupportedHandReadsCachedSlot | HandsOnVR.Unity/Assets/HandsOnVR/Scripts/Core/GrabAnchor.cs:109-127 | every hand SupportsHand admits reads a slot Awake filled: the primary pose, or its mirror |
| Grabbables.GrabPoseID | HandsOnVR.Unity/Assets/HandsOnVR/Scripts/Core/Grabbable.cs:22-36 | the current anchor's pose when it overrides the grab pose, the Grabbable's otherwise |
| Grabbables.OrientToHand | HandsOnVR.Unity/Assets/HandsOnVR/Scripts/Core/Grabbable.cs:52-65 | the current anchor's flag when it overrides the grab pose, the Grabbable's otherwise |
| Grabbables.DistScore | HandsOnVR.Unity/Assets/HandsOnVR/Scripts/Core/Grabbable.cs:240 | in [0,1] for a distance; 1 at the hand; 0 from MaxAnchorDistance 0.25 on |
| Grabbables.DistScoreMonotone | HandsOnVR.Unity/Assets/HandsOnVR/Scripts/Core/Grabbable.cs:240 | a nearer anchor never scores lower |
| Grabbables.OrientationScore | HandsOnVR.Unity/Assets/HandsOnVR/Scripts/Core/Grabbable.cs:268-277 | in [0,1]; 1 exactly for no rotation and 0 exactly for half a turn |
| Grabbables.OrientationScoreSymmetric | HandsOnVR.Unity/Assets/HandsOnVR/Scripts/Core/Grabbable.cs:268-277 | turning one way or the other by the same amount scores the same |
| Grabbables.AnchorScore | HandsOnVR.Unity/Assets/HandsOnVR/Scripts/Core/Grabbable.cs:239-251 | the product score lies in [0,1], and is the distance factor alone when not orienting to the hand |
| Grabbables.Rated | HandsOnVR.Unity/Assets/HandsOnVR/Scripts/Core/Grabbable.cs:228-251 | an anchor is rated exactly when it passes every filter, with its product score |
| Grabbables.FindClosestAnchor | HandsOnVR.Unity/Assets/HandsOnVR/Scripts/Core/Grabbable.cs:216-259 | -1 exactly when no anchor is eligible; otherwise an eligible anchor with the highest score, the first among equals |
| Grabbables.Release | HandsOnVR.Unity/Assets/HandsOnVR/Scripts/Core/Grabbable.cs:280-302 | the second hand lets go alone; the first hand's release promotes the second; OnReleased fires only when the sole holder lets go; a non-holder changes nothing |
| Grabbables.ReleaseLetsGo | HandsOnVR.Unity/Assets/HandsOnVR/Scripts/Core/Grabbable.cs:280-302 | afterwards the Grabber holds nothing, the invariant is kept, and OnReleased fires exactly when the object ends up free |
| Grabbables.AfterTransfer | HandsOnVR.Unity/Assets/HandsOnVR/Scripts/Core/Grabbable.cs:142-156 | under TransferToSecondGrab a held object first releases its holder; otherwise nothing changes |
| Grabbables.TryGrabExcluding | HandsOnVR.Unity/Assets/HandsOnVR/Scripts/Core/Grabbable.cs:140-212 | NoSecondGrab refuses a held object unchanged; a veto refuses without undoing a transfer; otherwise it is accepted exactly when there are no anchors or one is eligible, takes the first or second slot, and hands back the best-scoring anchor (the first among equals) or the object itself; an allowed grab that finds no eligible anchor gives back the slot it took, the second one if the object is held, so a displaced second holder is lost |
| Grabbables.TryGrab | HandsOnVR.Unity/Assets/HandsOnVR/Scripts/Core/Grabbable.cs:161-182 | as written: the anchor kept from a second hand is the requester's own GrabbedAnchor; a refusal returns no anchor |
| Grabbables.TryGrabApart | HandsOnVR.Unity/Assets/HandsOnVR/Scripts/Core/Grabbable.cs:140-212 | corrected: an accepted second hand never gets the anchor the first holder holds |
| Grabbables.SecondGrabSharesAnchor | HandsOnVR.Unity/Assets/HandsOnVR/Scripts/Core/Grabbable.cs:168-172 | with AllowBothHands and one shared anchor, both hands are handed the same anchor |
| Grabbables.SecondGrabApartRefused | HandsOnVR.Unity/Assets/HandsOnVR/Scripts/Core/Grabbable.cs:168-182 | with the correction the second hand is refused and the first keeps the object |
| Grabbables.GrabThenRelease | HandsOnVR.Unity/Assets/HandsOnVR/Scripts/Core/Grabbable.cs:140-302 | an accepted grab followed by the same Grabber's release restores the holders left after any transfer |
| Grabbables.GrabPoseAfterGrab | HandsOnVR.Unity/Assets/HandsOnVR/Scripts/Core/Grabbable.cs:22-36 | after a grab, the pose is the chosen anchor's when it overrides, and the Grabbable's otherwise |
| Grabbables.ThirdGrabDisplacesSecond | HandsOnVR.Unity/Assets/HandsOnVR/Scripts/Core/Grabbable.cs:168-171 | under AllowBothHands, a grab of an object held by two hands replaces the second holder without releasing it |
| Grabbables.ThirdGrabRefusedDropsSecond | HandsOnVR.Unity/Assets/HandsOnVR/Scripts/Core/Grabbable.cs:168-199 | under AllowBothHands, a third hand that finds no eligible anchor is refused, and the object is left with its first holder and no second one |
| InTrigger.Enter | HandsOnVR.Unity/Assets/HandsOnVR/Scripts/Utils/GrabbableInTrigger.cs:22-39 | records the collider, leaves the other counts alone, and returns the Grabbable exactly when it had no recorded collider |
| InTrigger.Exit | HandsOnVR.Unity/Assets/HandsOnVR/Scripts/Utils/GrabbableInTrigger.cs:47-58 | forgets a recorded collider and decrements its count; returns and forgets the Grabbable exactly when its count reaches 0 |
| InTrigger.Clear | HandsOnVR.Unity/Assets/HandsOnVR/Scripts/Utils/GrabbableInTrigger.cs:60-64 | both dictionaries become empty, which is consistent |
| InTrigger.EnterKeepsConsistent | HandsOnVR.Unity/Assets/HandsOnVR/Scripts/Utils/GrabbableInTrigger.cs:22-39 | each count keeps equalling the number of recorded colliders of its Grabbable |
| InTrigger.ExitKeepsConsistent | HandsOnVR.Unity/Assets/HandsOnVR/Scripts/Utils/GrabbableInTrigger.cs:47-58 | each count keeps equalling the number of recorded colliders of its Grabbable |
| InTrigger.ExitReportsLastCollider | HandsOnVR.Unity/Assets/HandsOnVR/Scripts/Utils/GrabbableInTrigger.cs:52-56 | a Grabbable is reported exactly when its last collider leaves, and then nothing of it is left |
| InTrigger.EnterThenExit | HandsOnVR.Unity/Assets/HandsOnVR/Scripts/Utils/GrabbableInTrigger.cs:22-58 | enter then exit of the same collider restores the tracker, and the exit reports what the enter reported |
| Proximity.IndexOf | HandsOnVR.Unity/Assets/HandsOnVR/Scripts/Core/Grabber.cs:123-132 | -1 exactly when the Grabbable has no entry; otherwise its first entry |
| Proximity.IncrementFirst | HandsOnVR.Unity/Assets/HandsOnVR/Scripts/Core/Grabber.cs:123-132 | found exactly when listed; then the first entry gains one collider and nothing else changes |
| Proximity.DecrementMatching | HandsOnVR.Unity/Assets/HandsOnVR/Scripts/Core/Grabber.cs:177-195 | the exit loop removes an entry exactly when some entry of the Grabbable counted a single collider, shortening the list by one; an unlisted Grabbable changes nothing |
| Proximity.DecrementOnlyEntry | HandsOnVR.Unity/Assets/HandsOnVR/Scripts/Core/Grabber.cs:177-195 | without duplicates, the exit loop removes the entry if it had one collider and otherwise decrements it in place |
| Proximity.Enter | HandsOnVR.Unity/Assets/HandsOnVR/Scripts/Core/Grabber.cs:116-143 | a recorded collider changes nothing; otherwise it is recorded, and its Grabbable gains a collider or gets a fresh entry at distance 0, which fires OnGrabbableEnter exactly when the Grabbable had no collider inside |
| Proximity.Exit | HandsOnVR.Unity/Assets/HandsOnVR/Scripts/Core/Grabber.cs:156-197 | the last collider out clears the list with no event; otherwise OnGrabbableExit fires exactly when the Grabbable's last collider leaves, and the Grabbable is then unlisted |
| Proximity.EnterKeepsConsistent | HandsOnVR.Unity/Assets/HandsOnVR/Scripts/Core/Grabber.cs:116-143 | the list keeps one entry per Grabbable in range, with counts equal to its colliders inside |
| Proximity.ExitKeepsConsistent | HandsOnVR.Unity/Assets/HandsOnVR/Scripts/Core/Grabber.cs:156-197 | the same invariant survives every exit |
| Proximity.NothingInRange | HandsOnVR.Unity/Assets/HandsOnVR/Scripts/Core/Grabber.cs:163-167 | under the invariant, no collider in range means an empty candidate list |
| Proximity.EnterThenExit | HandsOnVR.Unity/Assets/HandsOnVR/Scripts/Core/Grabber.cs:116-197 | enter then exit of a new collider restores the bookkeeping, and the exit event answers the enter event unless the range was empty |
| Proximity.DecrementAfterIncrement | HandsOnVR.Unity/Assets/HandsOnVR/Scripts/Core/Grabber.cs:177-195 | the exit loop undoes the enter loop's increment or append, and reports removal exactly when the entry was appended |
| Ranking.NearestHit | HandsOnVR.Unity/Assets/HandsOnVR/Scripts/Core/Grabber.cs:337-345 | None exactly for no hits; otherwise the first hit with the smallest distance |
| Ranking.ReachOf | HandsOnVR.Unity/Assets/HandsOnVR/Scripts/Core/Grabber.cs:347-348 | a ray reaches its collider exactly when that collider is its nearest hit, at that hit's distance |
| Ranking.ResetDistances | HandsOnVR.Unity/Assets/HandsOnVR/Scripts/Core/Grabber.cs:318-322 | every entry is kept and its distance becomes Unreached |
| Ranking.TryDistance | HandsOnVR.Unity/Assets/HandsOnVR/Scripts/Core/Grabber.cs:74-78 | keeps the shorter of the recorded distance and the new one |
| Ranking.MeasureOne | HandsOnVR.Unity/Assets/HandsOnVR/Scripts/Core/Grabber.cs:327-354 | one collider's ray changes nothing when it misses; when it reaches, only the first entry of the collider's Grabbable changes, to the shorter of its old distance and the hit distance |
| Ranking.Measure | HandsOnVR.Unity/Assets/HandsOnVR/Scripts/Core/Grabber.cs:326-355 | the collider loop keeps every entry with its Grabbable and collider count; only distances change |
| Ranking.MeasureFindsShortest | HandsOnVR.Unity/Assets/HandsOnVR/Scripts/Core/Grabber.cs:318-355 | after the collider loop, each Grabbable has the shortest distance at which a ray reached one of its colliders, and Unreached when none did |
| Ranking.MeasureOrderFree | HandsOnVR.Unity/Assets/HandsOnVR/Scripts/Core/Grabber.cs:326-355 | Dictionary enumeration order does not affect the measured distances |
| Ranking.Insert | HandsOnVR.Unity/Assets/HandsOnVR/Scripts/Core/Grabber.cs:357-364 | inserting into a sorted list keeps it sorted and adds exactly that entry |
| Ranking.SortByDistance | HandsOnVR.Unity/Assets/HandsOnVR/Scripts/Core/Grabber.cs:358-364 | the output is ascending by distance (Unreached last) and is a permutation of the input |
| Ranking.SortGrabbables | HandsOnVR.Unity/Assets/HandsOnVR/Scripts/Core/Grabber.cs:316-359 | the list becomes the measured entries in ascending order, and the bookkeeping invariant still holds |
| Ranking.FirstTaken | HandsOnVR.Unity/Assets/HandsOnVR/Scripts/Core/Grabber.cs:238-274 | the first accepting candidate with every candidate up to it within reach, or -1 when every such candidate refused |
| Ranking.SortedTriesAllInReach | HandsOnVR.Unity/Assets/HandsOnVR/Scripts/Core/Grabber.cs:238-274 | on a sorted list, a failed loop means every candidate within reach refused |
| Ranking.ChooseCandidate | HandsOnVR.Unity/Assets/HandsOnVR/Scripts/Core/Grabber.cs:231-274 | sorts only with two or more candidates; the taken one is within reach and accepts, and all before it refused; a failure means every candidate within reach refused |
| Ranking.LoneFreshCandidate | HandsOnVR.Unity/Assets/HandsOnVR/Scripts/Core/Grabber.cs:233-241 | a lone candidate that just entered has distance 0 and is always tried |
| Ranking.LoneStaleCandidate | HandsOnVR.Unity/Assets/HandsOnVR/Scripts/Core/Grabber.cs:233-241 | a lone candidate left Unreached by an earlier sort is never tried |
| Ranking.ChooseCandidateLoneTried | HandsOnVR.Unity/Assets/HandsOnVR/Scripts/Core/Grabber.cs:231-274 | corrected chooser: a lone candidate is kept unsorted and taken exactly when it accepts; with any other number of candidates it is ChooseCandidate |
| Ranking.LoneCandidateAlwaysTried | HandsOnVR.Unity/Assets/HandsOnVR/Scripts/Core/Grabber.cs:233-241 | the corrected chooser tries a lone candidate whatever its recorded distance, and agrees with ChooseCandidate whenever that candidate is within reach |
| Grabbers.PoseSupportsHand | HandsOnVR.Unity/Assets/HandsOnVR/Scripts/Core/PoseTrigger.cs:39-42 | the left flag for Left, the right flag for every other Hand value |
| Grabbers.Initial | HandsOnVR.Unity/Assets/HandsOnVR/Scripts/Core/Grabber.cs:23-44 | a new Grabber has consistent empty bookkeeping, holds nothing and shows no pose |
| Grabbers.OnTriggerEnter | HandsOnVR.Unity/Assets/HandsOnVR/Scripts/Core/Grabber.cs:94-145 | the layer test first; triggers are ignored while holding or posing; a PoseTrigger sets the pose exactly when it supports the hand; a Grabbable's first collider fires OnGrabbableEnter and may set its proximity pose; the invariant is kept |
| Grabbers.OnTriggerExit | HandsOnVR.Unity/Assets/HandsOnVR/Scripts/Core/Grabber.cs:148-198 | the pose trigger's own exit clears the pose; the last collider out empties the list and clears the pose without an event; a Grabbable leaving clears only its own pose; the invariant is kept |
| Grabbers.EnterThenExitRestores | HandsOnVR.Unity/Assets/HandsOnVR/Scripts/Core/Grabber.cs:94-198 | idle and unposed, enter then exit restores the Grabber exactly; the exit event answers the enter event except for the last collider out |
| Grabbers.Dispatch | HandsOnVR.Unity/Assets/HandsOnVR/Scripts/Core/Grabber.cs:204-213 | a grab begins exactly on Grip.Began with something in range; otherwise a held object is released exactly on Grip.Ended |
| Grabbers.GripDispatch | HandsOnVR.Unity/Assets/HandsOnVR/Scripts/Core/Grabber.cs:204-213 | driven by a ButtonState, a held object is released exactly on the frame the grip ends, and a grab never begins on that frame |
| Grabbers.BeginGrab | HandsOnVR.Unity/Assets/HandsOnVR/Scripts/Core/Grabber.cs:231-275 | success holds a Grabbable in range that accepted, with every candidate before it within reach and refused; colliders off, pose cleared, OnGrabBegin fired; a failure means every candidate within reach refused, and changes only the list order |
| Grabbers.EndGrab | HandsOnVR.Unity/Assets/HandsOnVR/Scripts/Core/Grabber.cs:287-307 | nothing is held afterwards and OnGrabEnd reports what was held |
| Grabbers.Release | HandsOnVR.Unity/Assets/HandsOnVR/Scripts/Core/Grabber.cs:310-313 | EndGrab when holding; otherwise nothing |
| Grabbers.Update | HandsOnVR.Unity/Assets/HandsOnVR/Scripts/Core/Grabber.cs:201-228 | only GrabBegin and GrabEnd fire, each on its own grip edge; the hand colliders come back exactly when nothing is held or in range |
| Grabbers.AttachOnGrab | HandsOnVR.Unity/Assets/HandsOnVR/Scripts/Core/Grabber.cs:246-259 | a second hand gives its anchor and target to the first holder's attacher; a first hand attaches the body to its own |
| Grabbers.AttachEstablishes | HandsOnVR.Unity/Assets/HandsOnVR/Scripts/Core/Grabber.cs:246-259 | after an accepted grab the attachers agree with the holders: two-handed exactly when there is a second holder |
| Grabbers.Cleared | HandsOnVR.Unity/Assets/HandsOnVR/Scripts/Core/Grabber.cs:303-304 | both grabs cleared; engagement and DisableForce kept |
| Grabbers.EndGrabHold | HandsOnVR.Unity/Assets/HandsOnVR/Scripts/Core/Grabber.cs:287-307 | the holders follow Grabbable.Release; a first hand letting go hands the body to the second by the anchor its attacher held; the hand letting go is left idle; other attachers are untouched |
| Grabbers.EndGrabKeepsAttached | HandsOnVR.Unity/Assets/HandsOnVR/Scripts/Core/Grabber.cs:287-307 | the attachers stay in agreement with the holders, and the hand letting go holds and pulls nothing |
| Grabbers.TwoHandHandOff | HandsOnVR.Unity/Assets/HandsOnVR/Scripts/Core/Grabber.cs:290-299 | either hand letting go leaves the other as the only holder, one-handed, pulling by its own anchor, with no OnReleased |
| Grabbers.GrabThenEndRestores | HandsOnVR.Unity/Assets/HandsOnVR/Scripts/Core/Grabber.cs:246-307 | a one-handed grab and its release restore the attachers exactly and fire OnReleased |
| Attachers.SetGrab | HandsOnVR.Unity/Assets/HandsOnVR/Scripts/Core/GrabAttacher.cs:44-49 | records body, anchor and hand; engagement and the second grab are kept |
| Attachers.SetSecondGrab | HandsOnVR.Unity/Assets/HandsOnVR/Scripts/Core/GrabAttacher.cs:51-55 | records anchor and target; two-handed exactly when both are set |
| Attachers.ClearedHoldsNothing | HandsOnVR.Unity/Assets/HandsOnVR/Scripts/Core/GrabAttacher.cs:44-55 | clearing both grabs leaves a one-handed attacher holding nothing, and a second clear changes nothing |
| Attachers.DriveMass | HandsOnVR.Unity/Assets/HandsOnVR/Scripts/Core/GrabAttacher.cs:66 | halved while two-handed, otherwise the body's mass |
| Attachers.Gain | HandsOnVR.Unity/Assets/HandsOnVR/Scripts/Core/GrabAttacher.cs:67 | the linear gain lies in (0,60] and is 60 for a massless body |
| Attachers.GainDecreasing | HandsOnVR.Unity/Assets/HandsOnVR/Scripts/Core/GrabAttacher.cs:67 | a heavier body never gets a larger gain |
| Attachers.Ramp | HandsOnVR.Unity/Assets/HandsOnVR/Scripts/Core/GrabAttacher.cs:80 | each ramp step closes the gap to 1 by an eighth |
| Attachers.RampIfLoose | HandsOnVR.Unity/Assets/HandsOnVR/Scripts/Core/GrabAttacher.cs:78-81 | ramps only below 1, and stays within [e,1] |
| Attachers.FixedUpdate | HandsOnVR.Unity/Assets/HandsOnVR/Scripts/Core/GrabAttacher.cs:58-136 | DisableForce does nothing; a missing body disengages fully; otherwise the ramped engagement drives it, two-handed exactly when both second fields are set, with a signed turn unless the axis is infinite; the first hand pulls with half the mass while two-handed and the second hand with the whole mass |
| Attachers.Engagement | HandsOnVR.Unity/Assets/HandsOnVR/Scripts/Core/GrabAttacher.cs:78-81 | engagement after n driven steps stays within [e,1] |
| Attachers.EngagementGap | HandsOnVR.Unity/Assets/HandsOnVR/Scripts/Core/GrabAttacher.cs:78-81 | after n steps the gap to 1 is 0.875^n times the first gap |
| Attachers.GapShrinks | HandsOnVR.Unity/Assets/HandsOnVR/Scripts/Core/GrabAttacher.cs:78-81 | every driven step shrinks the gap to 1 by the factor 0.875 |
| Attachers.SecondHandGainNotLarger | HandsOnVR.Unity/Assets/HandsOnVR/Scripts/Core/GrabAttacher.cs:64-90 | while two-handed, the second hand's pull uses the unhalved mass, so its gain is never larger than the first hand's |
| Attachers.DrivenStepsRamp | HandsOnVR.Unity/Assets/HandsOnVR/Scripts/Core/GrabAttacher.cs:58-81 | n FixedUpdate calls with a body ramp the engagement exactly as Engagement says |
| Attachers.SnapOrient | HandsOnVR.Unity/Assets/HandsOnVR/Scripts/Core/GrabAttacher.cs:138-152 | an error without target or body; otherwise each flagged Euler component is taken from the target and the others are kept |
| Attachers.SnapOrientIdempotent | HandsOnVR.Unity/Assets/HandsOnVR/Scripts/Core/GrabAttacher.cs:145-150 | snapping twice is snapping once; the default mask copies the whole target and the empty mask copies nothing |
| Joints.Restart | HandsOnVR.Unity/Assets/HandsOnVR/Scripts/Joints/GrabJoint.cs:47 | a new grab starts at 0 exactly when there is an engage time, else at 1 |
| Joints.SetGrab | HandsOnVR.Unity/Assets/HandsOnVR/Scripts/Joints/GrabJoint.cs:43-48 | records body and anchor, restarts the engagement, and keeps the second grab |
| Joints.SetSecondGrab | HandsOnVR.Unity/Assets/HandsOnVR/Scripts/Joints/GrabJoint.cs:50-55 | records anchor and target, restarts the engagement, and keeps the first grab |
| Joints.RampStep | HandsOnVR.Unity/Assets/HandsOnVR/Scripts/Joints/GrabJoint.cs:108-111 | below 1 the engagement moves up within [0,1]; at 1 it stays |
| Joints.FixedUpdate | HandsOnVR.Unity/Assets/HandsOnVR/Scripts/Joints/GrabJoint.cs:59-128 | nothing happens without both bodies; the two-handed blend reads half the old engagement; the velocity blends read the ramped one |
| Joints.Engagement | HandsOnVR.Unity/Assets/HandsOnVR/Scripts/Joints/GrabJoint.cs:108-111 | engagement after n steps stays within [e,1] |
| Joints.EngagementGrows | HandsOnVR.Unity/Assets/HandsOnVR/Scripts/Joints/GrabJoint.cs:108-111 | every step adds dt/engageTime until full |
| Joints.FullAfterEngageTime | HandsOnVR.Unity/Assets/HandsOnVR/Scripts/Joints/GrabJoint.cs:108-111 | from a restart, the joint is fully engaged once the steps cover the engage time |
| LegacyGrabbers.OnTriggerEnter | HandsOnVR.Unity/Assets/HandsOnVR/Scripts/Grabber.cs:91-121 | past the layer test, a new collider of a Grabbable is recorded, and OnGrabbableEnter fires for the Grabbable's first collider |
| LegacyGrabbers.OnTriggerExit | HandsOnVR.Unity/Assets/HandsOnVR/Scripts/Grabber.cs:124-157 | the last collider out empties the list with no event; OnGrabbableExit fires exactly when a Grabbable's last collider leaves |
| LegacyGrabbers.LastExitEmpties | HandsOnVR.Unity/Assets/HandsOnVR/Scripts/Grabber.cs:133-137 | the last collider out leaves the bookkeeping empty |
| LegacyGrabbers.BeginGrab | HandsOnVR.Unity/Assets/HandsOnVR/Scripts/Grabber.cs:201-245 | the core candidate loop: on success the held Grabbable is a candidate within reach that accepted after every candidate before it refused, the solid hand is sent to the chosen anchor and the colliders are switched off; a failure means every candidate within reach refused |
| LegacyGrabbers.EndGrab | HandsOnVR.Unity/Assets/HandsOnVR/Scripts/Grabber.cs:257-278 | nothing is held, the solid hand's anchor is dropped, and OnGrabEnd fires |
| LegacyGrabbers.Release | HandsOnVR.Unity/Assets/HandsOnVR/Scripts/Grabber.cs:281-284 | EndGrab when holding; otherwise nothing |
| LegacyGrabbers.Transition | HandsOnVR.Unity/Assets/HandsOnVR/Scripts/Grabber.cs:183-197 | the transition moves toward the object while holding and back otherwise, within [0,1], and drops the anchor exactly on arrival at the controller |
| LegacyGrabbers.Update | HandsOnVR.Unity/Assets/HandsOnVR/Scripts/Grabber.cs:160-198 | same dispatch and collider rule as the core Grabber, plus the solid hand moving in the right direction |
| LegacyGrabbers.FramesTowardObject | HandsOnVR.Unity/Assets/HandsOnVR/Scripts/Grabber.cs:183-187 | while holding, each frame adds 2 dt until the transition reaches 1 |
| LegacyGrabbers.FramesTowardController | HandsOnVR.Unity/Assets/HandsOnVR/Scripts/Grabber.cs:189-197 | after release, each frame subtracts 2 dt until the transition reaches 0 |
| LegacyGrabbers.TransitionCompletes | HandsOnVR.Unity/Assets/HandsOnVR/Scripts/Grabber.cs:183-197 | once 2 n dt >= 1 the transition has arrived, and a released hand has dropped its anchor |
| LegacyGrabbers.ArrivalDropsAnchor | HandsOnVR.Unity/Assets/HandsOnVR/Scripts/Grabber.cs:189-197 | a released hand that reaches 0 has dropped its anchor |
| LegacyGrabbers.EndGrabHold | HandsOnVR.Unity/Assets/HandsOnVR/Scripts/Grabber.cs:257-278 | the same hand-off as the core Grabber, through GrabJoint's setters |
| LegacyGrabbers.HandOffRestartsEngagement | HandsOnVR.Unity/Assets/HandsOnVR/Scripts/Grabber.cs:261-275 | on each hand-off the remaining hand's joint restarts its engagement |
| ButtonPhysics.SetAxisExact | HandsOnVR.Unity/Assets/HandsOnVR/Scripts/Physics/ButtonPhysics.cs:98-104 | writes exactly the named single axis, and nothing for any other flag value |
| ButtonPhysics.AxisAccessorsAgree | HandsOnVR.Unity/Assets/HandsOnVR/Scripts/Physics/ButtonPhysics.cs:98-111 | on a single axis the private accessors are inverse and agree with the extension; otherwise a read after a write gives z |
| ButtonPhysics.ButtonDown | HandsOnVR.Unity/Assets/HandsOnVR/Scripts/Physics/ButtonPhysics.cs:86-91 | sets IsDown and remembers the press |
| ButtonPhysics.ButtonUp | HandsOnVR.Unity/Assets/HandsOnVR/Scripts/Physics/ButtonPhysics.cs:92-96 | forgets the press and leaves the flags alone |
| ButtonPhysics.FixedUpdate | HandsOnVR.Unity/Assets/HandsOnVR/Scripts/Physics/ButtonPhysics.cs:48-84 | inside, the spring acts and both flags clear; otherwise the flags report the ends reached and the button is held at one; pressed and released fire exactly on new arrivals |
| ButtonPhysics.NormalizedPosition | HandsOnVR.Unity/Assets/HandsOnVR/Scripts/Physics/ButtonPhysics.cs:116-122 | always in [0,1] |
| ButtonPhysics.HeldAtEndIsStable | HandsOnVR.Unity/Assets/HandsOnVR/Scripts/Physics/ButtonPhysics.cs:59-83 | a button held at an end stays there with no event; its normalised position is 0 at up and 1 at down |
| ButtonPhysics.PressThenRelease | HandsOnVR.Unity/Assets/HandsOnVR/Scripts/Physics/ButtonPhysics.cs:59-96 | reaching down fires a press; coming back up fires a release and forgets the press |
| VRGrab.RemoveFirst | VRGrab.Unity/Assets/VRGrab/VRGrab/Scripts/Grabber.cs:56 | List.Remove drops one occurrence and keeps every other element; on a duplicate-free list it removes the element entirely |
| VRGrab.OnTriggerEnter | VRGrab.Unity/Assets/VRGrab/VRGrab/Scripts/Grabber.cs:30-46 | past the single-bit layer test, an unlisted Grabbable is appended; nothing else changes; the list stays duplicate-free |
| VRGrab.OnTriggerExit | VRGrab.Unity/Assets/VRGrab/VRGrab/Scripts/Grabber.cs:49-62 | a listed Grabbable is removed; the colliders come back when the list empties and nothing is held |
| VRGrab.EnterThenExit | VRGrab.Unity/Assets/VRGrab/VRGrab/Scripts/Grabber.cs:30-62 | a new Grabbable that enters and leaves restores the list |
| VRGrab.AppendThenRemove | VRGrab.Unity/Assets/VRGrab/VRGrab/Scripts/Grabber.cs:43-56 | removing an element that was just appended gives back the list |
| VRGrab.Distances | VRGrab.Unity/Assets/VRGrab/VRGrab/Scripts/Grabber.cs:112-133 | one entry per listed Grabbable, in list order: the distance its ray reaches it at, or none |
| VRGrab.FindClosest | VRGrab.Unity/Assets/VRGrab/VRGrab/Scripts/Grabber.cs:106-145 | None exactly when no ray reaches its Grabbable; otherwise the first Grabbable reached at the shortest distance |
| VRGrab.Update | VRGrab.Unity/Assets/VRGrab/VRGrab/Scripts/Grabber.cs:65-103 | a lone Grabbable is taken as is and several go to FindClosest; the joint follows what is held; a release drops it |
| VRGrab.UnreachedBeginForgetsHold | VRGrab.Unity/Assets/VRGrab/VRGrab/Scripts/Grabber.cs:73-90 | when no ray reaches, the Grabber holds nothing while its joint keeps its old body |
| VRGrab.TryGrab | VRGrab.Unity/Assets/VRGrab/VRGrab/Scripts/Grabbable.cs:58-80 | allowed exactly unless the callback says no; then the requester holds it and gets the first anchor, or the object itself; a refusal returns nothing and resets the anchor index |
| VRGrab.LaterGrabTakesOver | VRGrab.Unity/Assets/VRGrab/VRGrab/Scripts/Grabbable.cs:58-80 | a later grab takes over regardless of who held before |

## Left out

- **Physics and rendering.** Forces, velocities, torques, the spring force, rigidbody constraints, Animator parameters, SolidHandMover's motion, ghost opacity and the debug logs are left out. The model keeps the quantities that drive the physics and the bookkeeping around them: engagement, the first hand's drive mass (halved while two-handed), the second hand's mass (the whole body's), gain and signed turn. The pulls and velocities computed from them are not modelled.
- Ranking.Measure: its own contract states only that entries, Grabbables and counts are kept. The distances it computes are stated by Ranking.MeasureFindsShortest, for every collider order.
- **Grabbers.BeginGrab and LegacyGrabbers.BeginGrab** use the chooser as written, Ranking.ChooseCandidate, including its lone-candidate quirk (see Findings).
- **Quaternion and Euler arithmetic, raycasts, `Animator.StringToHash`, component lookups and the frame time.** These are inputs. Properties that depend on them hold for every value of the input.
- **Floating point.** Floats are modelled as reals, so rounding, NaN and infinities are not modelled. The only infinity modelled is `float.IsInfinity(axis.x)`, which arrives as a flag.
- **The two modules are not composed.** Grabbers.BeginGrab and LegacyGrabbers.BeginGrab receive Grabbable.TryGrab's verdict as an oracle `accept`. The Grabbable side is modelled in Grabbables, and the two-hand attacher bookkeeping in Grabbers.EndGrabHold.
- **Grabbables.AfterTransfer: the transfer's `GrabbedBy.Release()`** is modelled as `Grabbable.Release(first holder)`. This is what that call does when the first Grabber's grabbed object is this one. The model does not follow that Grabber's own EndGrab.
- **Grabber.Awake and MaxRadius.** MaxRadius is taken from the trigger's bounds and is an input.
- **The sort.** List.Sort is not stable. Ranking.SortByDistance is one stable ordering. Its contract states only what every correct sort gives: a sorted permutation.
- **Duplicate dictionary keys.** InTrigger.Enter and InTrigger.Exit require what `Dictionary.Add` and the indexer demand: a fresh collider, and a counted Grabbable. The exceptions that C# throws otherwise are not modelled.
- **PoseTrigger.** Only SupportsHand and the fields the Grabber reads are modelled.
- **Joints.FixedUpdate** requires the reachable-state invariant Joints.Wf. The engagement lies in [0,1], and is 1 when there is no engage time.
- **The older Grabber's `_joint.SetGrab(body, anchor, hand)`** has three arguments, while the GrabJoint file takes two. LegacyGrabbers.EndGrabHold uses the two-argument GrabJoint.
- **ButtonPhysics.HeldAtEndIsStable** requires distinct up and down positions. With equal ends `Mathf.Sign(0) = 1`, the button counts as both up and down, and the two events can fire in the same step. FixedUpdate itself models that case.
- **VRGrab.OnTriggerExit** drops a Grabbable whenever any one of its colliders leaves, even if other colliders remain inside.
- **VRGrab.Update** never calls TryGrab; the source marks this as to do.
- **Angular.Range** uses the half-open [0,360). The source's range of a full turn is unreachable from endpoints wrapped into [-180,180).
- **The current anchor's getters** key on OverrideGrabPose, also for OrientToHand. The model does the same.
- **The core Grabber's OnTriggerExit** fires no OnGrabbableExit when the last collider leaves. It clears the list silently; the model does the same.
- **A refused second grab** resets the current anchor to -1 even though the first holder keeps its anchor. The model does the same.

## Findings

| source | as written | input that shows it | evidently intended | confidence | as-written member | corrected member |
|---|---|---|---|---|---|---|
| HandsOnVR.Unity/Assets/HandsOnVR/Scripts/Utils/AngularLimits.cs:60-62 | Clamp on a wrapped range clamps negative angles to [-180, Start or End] and the others to [End or Start, 180], split at 0 | Start -10, End 10, clockwise: Clamp(-5) = -5, which is outside; Start -30, End -60, CCW: Clamp(-10) = -30 although -10 is inside | an inside angle is kept and an outside one goes to the nearer endpoint | not executed | Angular.ClampWrappedEscapes | Angular.ClampOnArc |
| HandsOnVR.Unity/Assets/HandsOnVR/Scripts/Utils/AngularLimits.cs:76 | Normalize moves every negative angle up by 360 on a wrapped range | Start -30, End -60, CCW, value -10: returns 1 | the angle's fraction of the arc, 20/330 | not executed | Angular.NormalizeSplitsAtZero | Angular.NormalizeOnArc |
| HandsOnVR.Unity/Assets/HandsOnVR/Scripts/Utils/AngularLimits.cs:72-75 | Normalize and Lerp add 360 to the struct's own Start or End on every call on a wrapped range | Start -90, End 90, clockwise: Normalize(-135) gives 0.25 and then 1; after Lerp(0.5), -135 is no longer inside | the limits are not changed by a query | not executed | Angular.NormalizeRepeatDiffers | Angular.NormalizeLerpOnArc |
| HandsOnVR.Unity/Assets/HandsOnVR/Scripts/Core/Grabbable.cs:171 | the anchor a second hand may not take is the REQUESTING Grabber's GrabbedAnchor, which is null when it begins a grab | AllowBothHands with one mirrored anchor: right hand grabs anchor 0, then left hand is also handed anchor 0 | the second hand is kept off the anchor the first holder holds | not executed | Grabbables.SecondGrabSharesAnchor | Grabbables.SecondGrabApartRefused |
| HandsOnVR.Unity/Assets/HandsOnVR/Scripts/Core/Grabber.cs:233-241 | a lone candidate is never re-measured, so a stale Unreached or far distance left by an earlier sort stops the loop before it is tried | two Grabbables in range; the grip sorts them and g's ray is blocked, so g is left Unreached; the grab fails, the other Grabbable leaves, and the next grip does not try g | a lone candidate is tried, as a freshly entered one is | not executed | Ranking.LoneStaleCandidate | Ranking.LoneCandidateAlwaysTried |
