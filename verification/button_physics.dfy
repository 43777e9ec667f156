/**
 * ButtonPhysics: a physical push button sliding along one axis between an
 * up and a down position.  Inside the open interval a spring pushes it
 * up; at or past either end it is held at that end and the edge events
 * fire.  The spring force and the rigidbody are physics and left out; the
 * position along the axis, the two flags and the events are modelled.
 */
module ButtonPhysics {
  import opened Vectors
  import Mathf

  /** The button's settings and the flags it keeps between frames. */
  datatype Button = Button(
    axis: Axis,
    upPosition: real,
    downPosition: real,
    isDown: bool,
    isUp: bool,
    wasPressed: bool)

  /** The private SetAxis: writes the component of exactly X, Y or Z, and nothing for any other value. */
  function SetAxisExact(position: Vec3, axis: Axis, value: real): (r: Vec3)
    ensures axis == X ==> r == position.(x := value)
    ensures axis == Y ==> r == position.(y := value)
    ensures axis == Z ==> r == position.(z := value)
    ensures axis != X && axis != Y && axis != Z ==> r == position
  {
    if axis == X then position.(x := value)
    else if axis == Y then position.(y := value)
    else if axis == Z then position.(z := value)
    else position
  }

  /** The axes the button can move along. */
  predicate SingleAxis(axis: Axis) {
    axis == X || axis == Y || axis == Z
  }

  /**
   * On one of the three axes the private SetAxis and GetAxis are inverse,
   * and it agrees with the Vector3 extension; on any other value it
   * writes nothing, so reading back gives z and not the value written.
   */
  lemma AxisAccessorsAgree(position: Vec3, axis: Axis, value: real)
    ensures SingleAxis(axis) ==> GetAxis(SetAxisExact(position, axis, value), axis) == value
    ensures SingleAxis(axis) ==> SetAxisExact(position, axis, value) == SetAxis(position, axis, value)
    ensures !SingleAxis(axis) ==> GetAxis(SetAxisExact(position, axis, value), axis) == position.z
  {
  }

  /** The direction from down to up: Mathf.Sign counts equal ends as upward. */
  predicate MovesUp(b: Button) {
    Mathf.Sign(b.upPosition - b.downPosition) > 0.0
  }

  /** Strictly between the two ends, where the spring acts. */
  predicate Inside(b: Button, pos: real) {
    (MovesUp(b) && pos > b.downPosition && pos < b.upPosition)
    || (!MovesUp(b) && pos > b.upPosition && pos < b.downPosition)
  }

  /** At or beyond the up end, in the direction of movement. */
  predicate AtUp(b: Button, pos: real) {
    if MovesUp(b) then pos >= b.upPosition else pos <= b.upPosition
  }

  /** At or beyond the down end, in the direction of movement. */
  predicate AtDown(b: Button, pos: real) {
    if MovesUp(b) then pos <= b.downPosition else pos >= b.downPosition
  }

  /** What one FixedUpdate did: the button, its local position, whether the spring pushed, and the events. */
  datatype Step = Step(button: Button, position: Vec3, spring: bool, pressed: bool, released: bool)

  /** ButtonDown: the flag is set, a press is remembered, OnButtonPressed fires. */
  function ButtonDown(b: Button): (r: Button)
    ensures r.isDown && r.wasPressed
  {
    b.(isDown := true, wasPressed := true)
  }

  /** ButtonUp: the press is forgotten, OnButtonReleased fires. */
  function ButtonUp(b: Button): (r: Button)
    ensures !r.wasPressed && r.isDown == b.isDown && r.isUp == b.isUp
  {
    b.(wasPressed := false)
  }

  /**
   * FixedUpdate: inside, the spring acts and both flags clear; otherwise
   * the flags say which end the button is at or past, it is held at that
   * end (the up end when it is at both), and an end newly reached fires
   * its event.
   */
  function FixedUpdate(b: Button, position: Vec3): (r: Step)
    ensures var pos := GetAxis(position, b.axis);
      Inside(b, pos) ==> r == Step(b.(isDown := false, isUp := false), position, true, false, false)
    ensures var pos := GetAxis(position, b.axis);
      !Inside(b, pos) ==>
        !r.spring && r.button.isUp == AtUp(b, pos) && r.button.isDown == AtDown(b, pos)
        && (r.button.isUp || r.button.isDown)
        && r.position == SetAxisExact(position, b.axis, if r.button.isUp then b.upPosition else b.downPosition)
    ensures r.pressed <==> !b.isDown && r.button.isDown
    ensures r.released <==> !b.isUp && r.button.isUp
    ensures r.button.axis == b.axis && r.button.upPosition == b.upPosition && r.button.downPosition == b.downPosition
    ensures r.button.wasPressed == (if r.released then false else if r.pressed then true else b.wasPressed)
    ensures b.upPosition != b.downPosition ==> !(r.button.isUp && r.button.isDown) && !(r.pressed && r.released)
  {
    var pos := GetAxis(position, b.axis);
    if Inside(b, pos) then Step(b.(isDown := false, isUp := false), position, true, false, false)
    else
      var up := AtUp(b, pos);
      var down := AtDown(b, pos);
      var b1 := b.(isUp := up, isDown := down);
      var pressed := !b.isDown && down;
      var released := !b.isUp && up;
      var b2 := if pressed then ButtonDown(b1) else b1;
      var b3 := if released then ButtonUp(b2) else b2;
      Step(b3, SetAxisExact(position, b.axis, if up then b.upPosition else b.downPosition), false, pressed, released)
  }

  /** NormalizedPosition: 0 all the way up, 1 all the way down, clamped. */
  function NormalizedPosition(b: Button, position: Vec3): (r: real)
    ensures 0.0 <= r <= 1.0
  {
    Mathf.InverseLerp(b.upPosition, b.downPosition, GetAxis(position, b.axis))
  }

  /**
   * Once held at an end the button stays there: with the two ends apart
   * and the button not moved in between, the next FixedUpdate changes
   * nothing and fires nothing, and the normalised position is 0 at the
   * up end and 1 at the down end.
   */
  lemma HeldAtEndIsStable(b: Button, position: Vec3)
    requires SingleAxis(b.axis) && b.upPosition != b.downPosition
    requires !Inside(b, GetAxis(position, b.axis))
    ensures var s := FixedUpdate(b, position);
      var again := FixedUpdate(s.button, s.position);
      again.button == s.button && again.position == s.position && !again.pressed && !again.released && !again.spring
    ensures var s := FixedUpdate(b, position);
      NormalizedPosition(s.button, s.position) == (if s.button.isUp then 0.0 else 1.0)
  {
    var s := FixedUpdate(b, position);
    AxisAccessorsAgree(position, b.axis, if s.button.isUp then b.upPosition else b.downPosition);
  }

  /**
   * A press and its release: from the spring's side, reaching the down
   * end fires OnButtonPressed; coming back from there to the up end fires
   * OnButtonReleased and forgets the press.
   */
  lemma PressThenRelease(b: Button, position: Vec3)
    requires SingleAxis(b.axis) && b.upPosition != b.downPosition && !b.isUp && !b.isDown
    ensures var down := FixedUpdate(b, SetAxisExact(position, b.axis, b.downPosition));
      down.pressed && !down.released && down.button.wasPressed
      && var up := FixedUpdate(down.button, SetAxisExact(down.position, b.axis, b.upPosition));
      up.released && !up.pressed && !up.button.wasPressed && up.button.isUp
  {
    AxisAccessorsAgree(position, b.axis, b.downPosition);
    var down := FixedUpdate(b, SetAxisExact(position, b.axis, b.downPosition));
    AxisAccessorsAgree(down.position, b.axis, b.upPosition);
  }
}
