/**
 * ButtonState: edge detection and held time for one analog controller
 * button.  The HandsOnVR and VRGrab copies of the class are identical in
 * behaviour; both are described by this module.
 */
module ButtonStates {

  /** The four private fields of the class. */
  datatype ButtonState = ButtonState(analog: real, wasActive: bool, threshold: real, heldTime: real)

  /** The default activation threshold of the constructor. */
  const DefaultThreshold: real := 0.5

  /** The constructor: only the threshold is set; the other fields start at their defaults. */
  function New(threshold: real): (s: ButtonState)
    ensures s.threshold == threshold
    ensures !Ended(s) && s.heldTime == 0.0
    ensures IsActive(s) <==> threshold <= 0.0
    ensures Began(s) <==> IsActive(s)
  {
    ButtonState(0.0, false, threshold, 0.0)
  }

  /** The button is pressed at least as far as the threshold. */
  predicate IsActive(s: ButtonState) {
    s.analog >= s.threshold
  }

  /** Became active on the last update. */
  predicate Began(s: ButtonState) {
    IsActive(s) && !s.wasActive
  }

  /** Became inactive on the last update. */
  predicate Ended(s: ButtonState) {
    s.wasActive && !IsActive(s)
  }

  /**
   * One frame: `dt` is the engine's unscaled frame time.  Began and Ended
   * report exactly the edges between the state before and after, and the
   * held time is zero whenever the button is not active.
   */
  function Update(s: ButtonState, analog: real, dt: real): (r: ButtonState)
    ensures r.threshold == s.threshold && r.analog == analog
    ensures IsActive(r) <==> analog >= s.threshold
    ensures Began(r) <==> !IsActive(s) && IsActive(r)
    ensures Ended(r) <==> IsActive(s) && !IsActive(r)
    ensures !IsActive(r) ==> r.heldTime == 0.0
    ensures Began(r) ==> r.heldTime == 0.0
    ensures IsActive(s) && IsActive(r) ==> r.heldTime == s.heldTime + dt
  {
    var wasActive := IsActive(s);
    var next := ButtonState(analog, wasActive, s.threshold, s.heldTime);
    if wasActive && IsActive(next) then next.(heldTime := s.heldTime + dt)
    else next.(heldTime := 0.0)
  }

  /** A button can never both begin and end on the same frame. */
  lemma EdgesExclusive(s: ButtonState, analog: real, dt: real)
    ensures !(Began(Update(s, analog, dt)) && Ended(Update(s, analog, dt)))
  {
  }

  /** One frame of input: the analog value and the frame time. */
  datatype Frame = Frame(analog: real, dt: real)

  /** A sequence of updates, one per frame. */
  function Run(s: ButtonState, frames: seq<Frame>): (r: ButtonState)
    ensures r.threshold == s.threshold
    decreases |frames|
  {
    if |frames| == 0 then s
    else Run(Update(s, frames[0].analog, frames[0].dt), frames[1..])
  }

  function SumDt(frames: seq<Frame>): real
    decreases |frames|
  {
    if |frames| == 0 then 0.0 else frames[0].dt + SumDt(frames[1..])
  }

  predicate AllActive(frames: seq<Frame>, threshold: real) {
    forall i :: 0 <= i < |frames| ==> frames[i].analog >= threshold
  }

  /** While the button stays active, each frame adds its time to the held time. */
  lemma {:induction false} HeldTimeAccumulates(s: ButtonState, frames: seq<Frame>)
    requires IsActive(s) && AllActive(frames, s.threshold)
    ensures IsActive(Run(s, frames))
    ensures Run(s, frames).heldTime == s.heldTime + SumDt(frames)
    decreases |frames|
  {
    if |frames| > 0 {
      var s1 := Update(s, frames[0].analog, frames[0].dt);
      assert AllActive(frames[1..], s1.threshold) by {
        forall i | 0 <= i < |frames[1..]| ensures frames[1..][i].analog >= s1.threshold {
          assert frames[1..][i] == frames[i + 1];
        }
      }
      HeldTimeAccumulates(s1, frames[1..]);
    }
  }

  /**
   * HeldTime is the time since the press began: after a press from an
   * inactive state followed by frames that keep it active, the held time is
   * the sum of the frame times after the frame in which it began.
   */
  lemma HeldTimeSincePress(s: ButtonState, frames: seq<Frame>)
    requires !IsActive(s) && |frames| > 0 && AllActive(frames, s.threshold)
    ensures IsActive(Run(s, frames))
    ensures Run(s, frames).heldTime == SumDt(frames[1..])
  {
    var s1 := Update(s, frames[0].analog, frames[0].dt);
    assert AllActive(frames[1..], s1.threshold) by {
      forall i | 0 <= i < |frames[1..]| ensures frames[1..][i].analog >= s1.threshold {
        assert frames[1..][i] == frames[i + 1];
      }
    }
    HeldTimeAccumulates(s1, frames[1..]);
  }

  /** With non-negative frame times the held time never goes negative. */
  lemma {:induction false} HeldTimeNonNegative(s: ButtonState, frames: seq<Frame>)
    requires s.heldTime >= 0.0
    requires forall i :: 0 <= i < |frames| ==> frames[i].dt >= 0.0
    ensures Run(s, frames).heldTime >= 0.0
    decreases |frames|
  {
    if |frames| > 0 {
      var s1 := Update(s, frames[0].analog, frames[0].dt);
      assert forall i :: 0 <= i < |frames[1..]| ==> frames[1..][i].dt >= 0.0 by {
        forall i | 0 <= i < |frames[1..]| ensures frames[1..][i].dt >= 0.0 {
          assert frames[1..][i] == frames[i + 1];
        }
      }
      HeldTimeNonNegative(s1, frames[1..]);
    }
  }

  /** A press and release at the default threshold, frame by frame. */
  lemma PressAndRelease()
    ensures var s0 := New(DefaultThreshold);
      var s1 := Update(s0, 0.0, 0.1);
      var s2 := Update(s1, 0.6, 0.1);
      var s3 := Update(s2, 0.6, 0.1);
      var s4 := Update(s3, 0.2, 0.1);
      !Began(s1) && !Ended(s1)
      && Began(s2) && !Ended(s2) && s2.heldTime == 0.0
      && !Began(s3) && !Ended(s3) && s3.heldTime == 0.1
      && !Began(s4) && Ended(s4) && s4.heldTime == 0.0
  {
  }
}
