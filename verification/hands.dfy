/** Hands, orientations and the engine's rotation operations. */
module Hands {
  import opened Vectors

  /**
   * `Hand` is a flags enum (Left = 1, Right = 2).  Besides the two single
   * hands a field of that type can hold both flags or neither, and the code
   * treats those as "not Left".
   */
  datatype Hand = Left | Right | Both | Neither

  /** The second hand of a two-handed hold: Right when the first was Left, Left otherwise. */
  function OtherHand(first: Hand): (r: Hand)
    ensures first == Left <==> r == Right
    ensures r == Left || r == Right
  {
    if first == Left then Right else Left
  }

  /** A quaternion, kept as its four components. */
  datatype Quat = Quat(x: real, y: real, z: real, w: real)

  const Identity := Quat(0.0, 0.0, 0.0, 1.0)

  /**
   * The engine's rotation arithmetic, which the model does not compute:
   * quaternion product and inverse, rotating a vector, and converting to
   * and from Euler angles.  Every caller receives these as an input.
   */
  datatype Rotations = Rotations(
    mul: (Quat, Quat) -> Quat,
    inverse: Quat -> Quat,
    rotate: (Quat, Vec3) -> Vec3,
    eulerAngles: Quat -> Vec3,
    fromEuler: Vec3 -> Quat)

  /**
   * An angle of ToAngleAxis, in [0, 360] degrees, as a signed turn: angles
   * past half a turn count the other way.
   */
  function SignedAngle(angle: real): (r: real)
    ensures 0.0 <= angle <= 360.0 ==> -180.0 < r <= 180.0
    ensures 0.0 <= angle <= 360.0 ==> (r == 0.0 <==> angle == 0.0 || angle == 360.0)
    ensures r == angle || r == angle - 360.0
  {
    if angle > 180.0 then angle - 360.0 else angle
  }
}
