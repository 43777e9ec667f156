/**
 * The proximity bookkeeping both HandsOnVR Grabbers keep: the colliders
 * inside the trigger volume with the Grabbable of each (`_grabbables`, or
 * `_inRange` in the older Grabber), and one GrabbableStats entry per
 * Grabbable in range (`_canGrab`), ranked by a raycast distance when a grab
 * begins.
 */
module Proximity {
  import opened Wrappers
  import opened Colliders
  import Selection

  /** A raycast distance; Unreached stands for float.MaxValue, the value before any ray reached. */
  datatype Distance = At(d: real) | Unreached

  /** `distance > MaxRadius`: Unreached is beyond any reach. */
  predicate BeyondReach(dist: Distance, maxRadius: real) {
    dist.Unreached? || dist.d > maxRadius
  }

  /** The order CompareGrabbables sorts by: `a` is no farther than `b`. */
  predicate NoFarther(a: Distance, b: Distance) {
    b.Unreached? || (a.At? && a.d <= b.d)
  }

  /** GrabbableStats: a Grabbable in range, how many of its colliders are inside, and its shortest distance. */
  datatype Stats = Stats(grabbable: GrabbableId, colliders: int, distance: Distance)

  /** The collider dictionary and the candidate list. */
  datatype Proximity = Proximity(inRange: map<ColliderId, GrabbableId>, canGrab: seq<Stats>)

  const Empty := Proximity(map[], [])

  predicate Listed(s: seq<Stats>, g: GrabbableId) {
    exists i :: 0 <= i < |s| && s[i].grabbable == g
  }

  predicate NoDuplicates(s: seq<Stats>) {
    forall i, j :: 0 <= i < j < |s| ==> s[i].grabbable != s[j].grabbable
  }

  /**
   * The bookkeeping invariant: no Grabbable is listed twice, each listed
   * Grabbable's count is the number of its recorded colliders and at least
   * 1, and the Grabbable of every recorded collider is listed.
   */
  predicate Consistent(p: Proximity) {
    NoDuplicates(p.canGrab)
    && (forall i :: 0 <= i < |p.canGrab| ==>
          p.canGrab[i].colliders == Count(p.inRange, p.canGrab[i].grabbable) && p.canGrab[i].colliders >= 1)
    && (forall c :: c in p.inRange ==> Listed(p.canGrab, p.inRange[c]))
  }

  /** The position of the first entry for `g`, or -1 (List.FindIndex). */
  function IndexOf(s: seq<Stats>, g: GrabbableId): (i: int)
    ensures -1 <= i < |s|
    ensures i == -1 <==> !Listed(s, g)
    ensures i >= 0 ==> s[i].grabbable == g && forall j :: 0 <= j < i ==> s[j].grabbable != g
  {
    if |s| == 0 then -1
    else if s[0].grabbable == g then 0
    else
      var k := IndexOf(s[1..], g);
      assert forall j :: 0 <= j < |s| - 1 ==> s[1..][j] == s[j + 1];
      if k == -1 then -1 else k + 1
  }

  /** The entry lookup of OnTriggerEnter: count one more collider for the first entry of `g`, if any. */
  function IncrementFirst(s: seq<Stats>, g: GrabbableId): (r: (seq<Stats>, bool))
    ensures r.1 <==> Listed(s, g)
    ensures !r.1 ==> r.0 == s
    ensures r.1 ==> var i := IndexOf(s, g); r.0 == s[i := s[i].(colliders := s[i].colliders + 1)]
  {
    var i := IndexOf(s, g);
    if i >= 0 then (s[i := s[i].(colliders := s[i].colliders + 1)], true) else (s, false)
  }

  /**
   * The entry loop of OnTriggerExit: each entry for `g` loses one collider,
   * and the first that reaches 0 is removed and ends the loop.
   */
  function DecrementMatching(s: seq<Stats>, g: GrabbableId): (r: (seq<Stats>, bool))
    ensures !Listed(s, g) ==> r == (s, false)
    // An entry is removed exactly when some entry for `g` counted a single collider.
    ensures r.1 <==> LastColliderEntry(s, g)
    ensures |r.0| == if r.1 then |s| - 1 else |s|
  {
    if |s| == 0 then (s, false)
    else
      LastColliderEntryCons(s, g);
      if s[0].grabbable == g then
        var d := s[0].(colliders := s[0].colliders - 1);
        if d.colliders == 0 then (s[1..], true)
        else
          var rest := DecrementMatching(s[1..], g);
          ([d] + rest.0, rest.1)
      else
        var rest := DecrementMatching(s[1..], g);
        assert !Listed(s, g) ==> !Listed(s[1..], g) && [s[0]] + s[1..] == s;
        ([s[0]] + rest.0, rest.1)
  }

  /** Some entry for `g` counts exactly one collider. */
  predicate LastColliderEntry(s: seq<Stats>, g: GrabbableId) {
    exists i :: 0 <= i < |s| && s[i].grabbable == g && s[i].colliders == 1
  }

  lemma LastColliderEntryCons(s: seq<Stats>, g: GrabbableId)
    requires |s| > 0
    ensures LastColliderEntry(s, g) <==> (s[0].grabbable == g && s[0].colliders == 1) || LastColliderEntry(s[1..], g)
  {
    if LastColliderEntry(s, g) {
      var i :| 0 <= i < |s| && s[i].grabbable == g && s[i].colliders == 1;
      if i > 0 {
        assert s[1..][i - 1] == s[i];
      }
    }
    if LastColliderEntry(s[1..], g) {
      var i :| 0 <= i < |s| - 1 && s[1..][i].grabbable == g && s[1..][i].colliders == 1;
      assert s[i + 1] == s[1..][i];
    }
  }

  /**
   * Without duplicates the loop touches only the entry of `g`: it loses one
   * collider, and is removed when that was its last.
   */
  lemma {:induction false} DecrementOnlyEntry(s: seq<Stats>, g: GrabbableId)
    requires NoDuplicates(s) && Listed(s, g)
    ensures var i := IndexOf(s, g);
      DecrementMatching(s, g) ==
        if s[i].colliders == 1 then (s[..i] + s[i + 1..], true)
        else (s[i := s[i].(colliders := s[i].colliders - 1)], false)
  {
    var i := IndexOf(s, g);
    if i == 0 {
      DecrementFirstEntry(s, g);
    } else {
      var t := s[1..];
      assert NoDuplicates(t) && t[i - 1].grabbable == g;
      DecrementOnlyEntry(t, g);
      DecrementLaterEntry(s, g, i);
    }
  }

  /** The entry of `g` at the head loses one collider, or goes. */
  lemma DecrementFirstEntry(s: seq<Stats>, g: GrabbableId)
    requires NoDuplicates(s) && |s| > 0 && s[0].grabbable == g
    ensures DecrementMatching(s, g) ==
        if s[0].colliders == 1 then (s[..0] + s[1..], true)
        else (s[0 := s[0].(colliders := s[0].colliders - 1)], false)
  {
    var d := s[0].(colliders := s[0].colliders - 1);
    assert !Listed(s[1..], g);
    assert s[..0] + s[1..] == s[1..];
    ConsUpdate(s, 0, d);
  }

  /** An entry of `g` further down is reached through the tail. */
  lemma DecrementLaterEntry(s: seq<Stats>, g: GrabbableId, i: int)
    requires 0 < i < |s| && s[0].grabbable != g && s[i].grabbable == g
    requires DecrementMatching(s[1..], g) ==
        if s[i].colliders == 1 then (s[1..][..i - 1] + s[1..][i..], true)
        else (s[1..][i - 1 := s[i].(colliders := s[i].colliders - 1)], false)
    ensures DecrementMatching(s, g) ==
        if s[i].colliders == 1 then (s[..i] + s[i + 1..], true)
        else (s[i := s[i].(colliders := s[i].colliders - 1)], false)
  {
    var rest := DecrementMatching(s[1..], g);
    assert DecrementMatching(s, g) == ([s[0]] + rest.0, rest.1);
    if s[i].colliders == 1 {
      ConsRemove(s, i);
    } else {
      ConsUpdate(s, i, s[i].(colliders := s[i].colliders - 1));
    }
  }

  lemma ConsRemove(s: seq<Stats>, i: int)
    requires 0 < i < |s|
    ensures [s[0]] + (s[1..][..i - 1] + s[1..][i..]) == s[..i] + s[i + 1..]
  {
  }

  lemma ConsUpdate(s: seq<Stats>, i: int, x: Stats)
    requires 0 <= i < |s|
    ensures i == 0 ==> [x] + s[1..] == s[0 := x]
    ensures i > 0 ==> [s[0]] + s[1..][i - 1 := x] == s[i := x]
  {
  }

  /**
   * OnTriggerEnter for a collider of Grabbable `g` that passed the layer
   * test: a recorded collider changes nothing; otherwise it is recorded,
   * and `g` either gets one more collider or a fresh entry with one
   * collider and distance 0, which raises OnGrabbableEnter.
   */
  function Enter(p: Proximity, c: ColliderId, g: GrabbableId): (r: (Proximity, Option<GrabbableId>))
    ensures c in p.inRange ==> r == (p, None)
    ensures c !in p.inRange ==> r.0.inRange == p.inRange[c := g]
    ensures c !in p.inRange ==> (r.1 == Some(g) <==> !Listed(p.canGrab, g))
    ensures r.1.Some? ==> r.1 == Some(g)
    ensures c !in p.inRange && !Listed(p.canGrab, g) ==> r.0.canGrab == p.canGrab + [Stats(g, 1, At(0.0))]
    ensures c !in p.inRange && Listed(p.canGrab, g) ==>
      var i := IndexOf(p.canGrab, g);
      r.0.canGrab == p.canGrab[i := p.canGrab[i].(colliders := p.canGrab[i].colliders + 1)]
    ensures Consistent(p) && c !in p.inRange ==> (r.1 == Some(g) <==> Count(p.inRange, g) == 0)
  {
    if c in p.inRange then (p, None)
    else
      var inRange := p.inRange[c := g];
      var (canGrab, found) := IncrementFirst(p.canGrab, g);
      if found then (Proximity(inRange, canGrab), None)
      else
        assert Consistent(p) ==> Count(p.inRange, g) == 0 by {
          if Consistent(p) {
            CountPositive(p.inRange, g);
          }
        }
        (Proximity(inRange, p.canGrab + [Stats(g, 1, At(0.0))]), Some(g))
  }

  /**
   * OnTriggerExit for a collider: an unrecorded one changes nothing;
   * otherwise it is forgotten, and when no collider is left the list is
   * cleared without any event, else its Grabbable loses one collider and
   * leaves the list, raising OnGrabbableExit, when it has none left.
   */
  function Exit(p: Proximity, c: ColliderId): (r: (Proximity, Option<GrabbableId>))
    ensures c !in p.inRange ==> r == (p, None)
    ensures c in p.inRange ==> r.0.inRange == p.inRange - {c}
    ensures c in p.inRange && |p.inRange| == 1 ==> r.0.canGrab == [] && r.1.None?
    ensures r.1.Some? ==> c in p.inRange && r.1 == Some(p.inRange[c])
    ensures Consistent(p) && c in p.inRange && |p.inRange| > 1 ==>
      var g := p.inRange[c];
      (r.1.Some? <==> Count(p.inRange, g) == 1) && (r.1.Some? ==> !Listed(r.0.canGrab, g))
  {
    if c !in p.inRange then (p, None)
    else
      var g := p.inRange[c];
      var inRange := p.inRange - {c};
      assert |inRange| == |p.inRange| - 1;
      if |inRange| == 0 then (Proximity(inRange, []), None)
      else
        var (canGrab, removed) := DecrementMatching(p.canGrab, g);
        DecrementReports(p, c);
        (Proximity(inRange, canGrab), if removed then Some(g) else None)
  }

  /**
   * With the invariant, the entry loop removes the Grabbable's entry, and
   * reports it, exactly when the collider leaving was its last.
   */
  lemma DecrementReports(p: Proximity, c: ColliderId)
    requires c in p.inRange
    ensures var g := p.inRange[c];
      var (canGrab, removed) := DecrementMatching(p.canGrab, g);
      Consistent(p) ==> (removed <==> Count(p.inRange, g) == 1) && (removed ==> !Listed(canGrab, g))
  {
    var g := p.inRange[c];
    var (canGrab, removed) := DecrementMatching(p.canGrab, g);
    if Consistent(p) {
      DecrementOnlyEntry(p.canGrab, g);
      var i := IndexOf(p.canGrab, g);
      if removed {
        RemoveAtShifts(p.canGrab, i);
        forall j | 0 <= j < |canGrab|
          ensures canGrab[j].grabbable != g
        {
          if j < i {
            assert canGrab[j] == p.canGrab[j];
          } else {
            assert canGrab[j] == p.canGrab[j + 1];
          }
        }
      }
    }
  }

  /** Recording a collider keeps the bookkeeping invariant. */
  lemma EnterKeepsConsistent(p: Proximity, c: ColliderId, g: GrabbableId)
    requires Consistent(p)
    ensures Consistent(Enter(p, c, g).0)
  {
    if c !in p.inRange {
      if Listed(p.canGrab, g) {
        var i := IndexOf(p.canGrab, g);
        IncrementedEntryConsistent(p.inRange, c, g, p.canGrab, i);
      } else {
        AddedEntryConsistent(p.inRange, c, g, p.canGrab);
      }
    }
  }

  /** Recording one more collider of a listed Grabbable and raising its count keeps the invariant. */
  lemma IncrementedEntryConsistent(m: map<ColliderId, GrabbableId>, c: ColliderId, g: GrabbableId, s: seq<Stats>, i: int)
    requires Consistent(Proximity(m, s)) && c !in m
    requires 0 <= i < |s| && s[i].grabbable == g
    ensures Consistent(Proximity(m[c := g], s[i := s[i].(colliders := s[i].colliders + 1)]))
  {
    var m1 := m[c := g];
    var s1 := s[i := s[i].(colliders := s[i].colliders + 1)];
    forall j | 0 <= j < |s1|
      ensures s1[j].colliders == Count(m1, s1[j].grabbable)
    {
      CountAfterAdd(m, c, g, s1[j].grabbable);
    }
    forall d | d in m1
      ensures Listed(s1, m1[d])
    {
      if d != c {
        var j :| 0 <= j < |s| && s[j].grabbable == m[d];
        assert s1[j].grabbable == m1[d];
      } else {
        assert s1[i].grabbable == g;
      }
    }
  }

  /** Recording the first collider of a Grabbable with a fresh entry keeps the invariant. */
  lemma AddedEntryConsistent(m: map<ColliderId, GrabbableId>, c: ColliderId, g: GrabbableId, s: seq<Stats>)
    requires Consistent(Proximity(m, s)) && c !in m && !Listed(s, g)
    ensures Consistent(Proximity(m[c := g], s + [Stats(g, 1, At(0.0))]))
  {
    var m1 := m[c := g];
    var s1 := s + [Stats(g, 1, At(0.0))];
    CountPositive(m, g);
    forall j | 0 <= j < |s1|
      ensures s1[j].colliders == Count(m1, s1[j].grabbable)
    {
      CountAfterAdd(m, c, g, s1[j].grabbable);
    }
    forall d | d in m1
      ensures Listed(s1, m1[d])
    {
      if d != c {
        var j :| 0 <= j < |s| && s[j].grabbable == m[d];
        assert s1[j].grabbable == m1[d];
      } else {
        assert s1[|s|].grabbable == g;
      }
    }
  }

  /** Forgetting a collider keeps the bookkeeping invariant. */
  lemma ExitKeepsConsistent(p: Proximity, c: ColliderId)
    requires Consistent(p)
    ensures Consistent(Exit(p, c).0)
  {
    if c in p.inRange && |p.inRange| > 1 {
      var g := p.inRange[c];
      var s := p.canGrab;
      ExitShape(p, c);
      DecrementOnlyEntry(s, g);
      var i := IndexOf(s, g);
      var m1 := p.inRange - {c};
      if s[i].colliders == 1 {
        var s1 := s[..i] + s[i + 1..];
        assert DecrementMatching(s, g).0 == s1;
        RemovedEntryConsistent(p.inRange, c, s, i);
        assert Consistent(Proximity(m1, s1));
      } else {
        var s1 := s[i := s[i].(colliders := s[i].colliders - 1)];
        assert DecrementMatching(s, g).0 == s1;
        DecrementedEntryConsistent(p.inRange, c, s, i);
        assert Consistent(Proximity(m1, s1));
      }
    }
  }

  /** Past the last collider, OnTriggerExit's list is what the entry loop leaves. */
  lemma ExitShape(p: Proximity, c: ColliderId)
    requires c in p.inRange && |p.inRange| > 1
    ensures Exit(p, c).0 == Proximity(p.inRange - {c}, DecrementMatching(p.canGrab, p.inRange[c]).0)
  {
    assert |p.inRange - {c}| == |p.inRange| - 1;
  }

  /** Forgetting the last collider of a Grabbable and dropping its entry keeps the invariant. */
  lemma RemovedEntryConsistent(m: map<ColliderId, GrabbableId>, c: ColliderId, s: seq<Stats>, i: int)
    requires Consistent(Proximity(m, s)) && c in m
    requires 0 <= i < |s| && s[i].grabbable == m[c] && s[i].colliders == 1
    ensures Consistent(Proximity(m - {c}, s[..i] + s[i + 1..]))
  {
    var m1 := m - {c};
    var s1 := s[..i] + s[i + 1..];
    RemoveAtShifts(s, i);
    forall j | 0 <= j < |s1|
      ensures s1[j].colliders == Count(m1, s1[j].grabbable) && s1[j].colliders >= 1
    {
      CountAfterRemove(m, c, s1[j].grabbable);
    }
    forall d | d in m1
      ensures Listed(s1, m1[d])
    {
      RemovedStillListed(m, c, s, i, d);
    }
  }

  /** Dropping entry `i` shifts the later entries down by one and keeps them distinct. */
  lemma RemoveAtShifts(s: seq<Stats>, i: int)
    requires 0 <= i < |s| && NoDuplicates(s)
    ensures forall j :: 0 <= j < |s| - 1 ==> (s[..i] + s[i + 1..])[j] == if j < i then s[j] else s[j + 1]
    ensures NoDuplicates(s[..i] + s[i + 1..])
  {
  }

  /** A collider that stays recorded still has its Grabbable listed once the emptied entry is dropped. */
  lemma RemovedStillListed(m: map<ColliderId, GrabbableId>, c: ColliderId, s: seq<Stats>, i: int, d: ColliderId)
    requires Consistent(Proximity(m, s)) && c in m
    requires 0 <= i < |s| && s[i].grabbable == m[c] && s[i].colliders == 1
    requires d in m && d != c
    ensures Listed(s[..i] + s[i + 1..], m[d])
  {
    var h := m[d];
    var m1 := m - {c};
    CountAfterRemove(m, c, h);
    assert h != m[c] by {
      assert d in m1 && m1[d] == h;
      CountPositive(m1, h);
    }
    var j :| 0 <= j < |s| && s[j].grabbable == h;
    RemoveAtShifts(s, i);
    if j < i {
      assert (s[..i] + s[i + 1..])[j].grabbable == h;
    } else {
      assert (s[..i] + s[i + 1..])[j - 1].grabbable == h;
    }
  }

  /** Forgetting one of several colliders of a Grabbable and lowering its count keeps the invariant. */
  lemma DecrementedEntryConsistent(m: map<ColliderId, GrabbableId>, c: ColliderId, s: seq<Stats>, i: int)
    requires Consistent(Proximity(m, s)) && c in m
    requires 0 <= i < |s| && s[i].grabbable == m[c] && s[i].colliders != 1
    ensures Consistent(Proximity(m - {c}, s[i := s[i].(colliders := s[i].colliders - 1)]))
  {
    var g := m[c];
    var m1 := m - {c};
    var s1 := s[i := s[i].(colliders := s[i].colliders - 1)];
    forall h
      ensures Count(m1, h) == if h == g then Count(m, h) - 1 else Count(m, h)
    {
      CountAfterRemove(m, c, h);
    }
    forall d | d in m1
      ensures Listed(s1, m1[d])
    {
      var j :| 0 <= j < |s| && s[j].grabbable == m[d];
      assert s1[j].grabbable == m1[d];
    }
  }

  /** With no collider recorded, no Grabbable is listed. */
  lemma NothingInRange(p: Proximity)
    requires Consistent(p) && p.inRange == map[]
    ensures p.canGrab == []
  {
    HeadCounted(p);
    forall h
      ensures Count(p.inRange, h) == 0
    {
      assert Owned(p.inRange, h) == {};
    }
  }

  /** The first listed Grabbable owns at least one recorded collider. */
  lemma HeadCounted(p: Proximity)
    requires Consistent(p)
    ensures |p.canGrab| > 0 ==> Count(p.inRange, p.canGrab[0].grabbable) >= 1
  {
  }

  /** A collider that enters and leaves again leaves the bookkeeping as it was, and reports the same Grabbable twice or not at all. */
  lemma EnterThenExit(p: Proximity, c: ColliderId, g: GrabbableId)
    requires Consistent(p) && c !in p.inRange
    ensures Exit(Enter(p, c, g).0, c).0 == p
    ensures |p.inRange| > 0 ==> Exit(Enter(p, c, g).0, c).1 == Enter(p, c, g).1
  {
    var p1 := Enter(p, c, g).0;
    assert p1.inRange - {c} == p.inRange;
    if |p.inRange| == 0 {
      assert p.inRange == map[];
      NothingInRange(p);
    } else {
      assert |p1.inRange| > 1 by {
        assert p1.inRange.Keys == p.inRange.Keys + {c};
      }
      EnterKeepsConsistent(p, c, g);
      var back := DecrementAfterIncrement(p, c, g);
      assert Exit(p1, c).0.canGrab == p.canGrab;
    }
  }

  /** The entry loop of OnTriggerExit undoes what OnTriggerEnter did to the list. */
  lemma DecrementAfterIncrement(p: Proximity, c: ColliderId, g: GrabbableId) returns (back: (seq<Stats>, bool))
    requires Consistent(p) && c !in p.inRange
    requires Consistent(Enter(p, c, g).0)
    ensures back == DecrementMatching(Enter(p, c, g).0.canGrab, g)
    ensures back.0 == p.canGrab
    ensures back.1 <==> Enter(p, c, g).1.Some?
  {
    back := DecrementMatching(Enter(p, c, g).0.canGrab, g);
    if Listed(p.canGrab, g) {
      DecrementAfterIncrementListed(p.canGrab, g);
    } else {
      DecrementAfterAppend(p.canGrab, g);
    }
  }

  /** Lowering again the count just raised gives back the list, with no removal. */
  lemma DecrementAfterIncrementListed(s: seq<Stats>, g: GrabbableId)
    requires NoDuplicates(s) && Listed(s, g)
    requires forall j :: 0 <= j < |s| ==> s[j].colliders >= 1
    ensures DecrementMatching(IncrementFirst(s, g).0, g) == (s, false)
  {
    var i := IndexOf(s, g);
    var t := IncrementFirst(s, g).0;
    assert forall j :: 0 <= j < |t| ==> t[j].grabbable == s[j].grabbable;
    assert IndexOf(t, g) == i;
    DecrementOnlyEntry(t, g);
    IncrementThenDecrement(s, i);
  }

  /** Removing the fresh entry just appended gives back the list. */
  lemma DecrementAfterAppend(s: seq<Stats>, g: GrabbableId)
    requires NoDuplicates(s) && !Listed(s, g)
    ensures DecrementMatching(s + [Stats(g, 1, At(0.0))], g) == (s, true)
  {
    var t := s + [Stats(g, 1, At(0.0))];
    assert NoDuplicates(t);
    assert t[|s|].grabbable == g;
    assert IndexOf(t, g) == |s|;
    DecrementOnlyEntry(t, g);
    assert t[..|s|] + t[|s| + 1..] == s;
  }

  lemma IncrementThenDecrement(s: seq<Stats>, i: int)
    requires 0 <= i < |s|
    ensures var t := s[i := s[i].(colliders := s[i].colliders + 1)];
      t[i := t[i].(colliders := t[i].colliders - 1)] == s
  {
    var t := s[i := s[i].(colliders := s[i].colliders + 1)];
    assert t[i].(colliders := t[i].colliders - 1) == s[i];
  }
}
