/**
 * Three-component vectors, the engine's `Axis` flags and the axis accessors
 * of Vector3Extensions.
 */
module Vectors {

  datatype Vec3 = Vec3(x: real, y: real, z: real)

  const Zero := Vec3(0.0, 0.0, 0.0)

  function Add(a: Vec3, b: Vec3): Vec3 {
    Vec3(a.x + b.x, a.y + b.y, a.z + b.z)
  }

  function Sub(a: Vec3, b: Vec3): Vec3 {
    Vec3(a.x - b.x, a.y - b.y, a.z - b.z)
  }

  /**
   * `Axis` is a flags enum (X = 1, Y = 2, Z = 4): any combination of the
   * three flags is a value of the type, so accessors that compare against
   * one flag must say what every other value does.
   */
  datatype Axis = Axis(x: bool, y: bool, z: bool)

  const X := Axis(true, false, false)
  const Y := Axis(false, true, false)
  const Z := Axis(false, false, true)
  const AllAxes := Axis(true, true, true)

  /** Vector3Extensions.GetAxis: X reads x, Y reads y, every other value reads z. */
  function GetAxis(v: Vec3, axis: Axis): (r: real)
    ensures axis == X ==> r == v.x
    ensures axis == Y ==> r == v.y
    ensures axis != X && axis != Y ==> r == v.z
  {
    if axis == X then v.x else if axis == Y then v.y else v.z
  }

  /**
   * Vector3Extensions.SetAxis: writes x for X, y for Y, and z for every
   * other value; the other two components are kept.
   */
  function SetAxis(v: Vec3, axis: Axis, value: real): (r: Vec3)
    ensures GetAxis(r, axis) == value
    ensures axis == X ==> r.y == v.y && r.z == v.z
    ensures axis == Y ==> r.x == v.x && r.z == v.z
    ensures axis != X && axis != Y ==> r.x == v.x && r.y == v.y
  {
    if axis == X then v.(x := value)
    else if axis == Y then v.(y := value)
    else v.(z := value)
  }

  /** Writing back the value an axis already holds changes nothing. */
  lemma SetWhatIsThere(v: Vec3, axis: Axis)
    ensures SetAxis(v, axis, GetAxis(v, axis)) == v
  {
  }

  /** SetAxis is idempotent, and a second write to the same axis overrides the first. */
  lemma SetTwice(v: Vec3, axis: Axis, a: real, b: real)
    ensures SetAxis(SetAxis(v, axis, a), axis, a) == SetAxis(v, axis, a)
    ensures SetAxis(SetAxis(v, axis, a), axis, b) == SetAxis(v, axis, b)
  {
  }
}
