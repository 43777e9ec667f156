/**
 * The ranking step of both HandsOnVR Grabbers when a grab begins:
 * SortGrabbables measures each Grabbable in range by raycasting to each of
 * its colliders and sorts the list by the shortest distance found; BeginGrab
 * then tries the candidates in that order up to the reach of the trigger
 * volume.
 */
module Ranking {
  import opened Wrappers
  import opened Colliders
  import opened Proximity
  import Selection

  /** One raycast hit: the collider hit and its distance along the ray. */
  datatype Hit = Hit(collider: ColliderId, distance: real)

  /**
   * The "find nearest hit" loop: the first hit with the smallest distance,
   * or None (the default RaycastHit, whose collider is null) when the ray
   * hit nothing.
   */
  function NearestHit(hits: seq<Hit>): (r: Option<Hit>)
    ensures r.None? <==> |hits| == 0
    ensures r.Some? ==> forall j :: 0 <= j < |hits| ==> r.value.distance <= hits[j].distance
    ensures r.Some? ==>
      exists k :: 0 <= k < |hits| && hits[k] == r.value && (forall j :: 0 <= j < k ==> r.value.distance < hits[j].distance)
  {
    var ds := seq(|hits|, i requires 0 <= i < |hits| => Some(hits[i].distance));
    assert forall j :: 0 <= j < |hits| ==> ds[j] == Some(hits[j].distance);
    var k := Selection.FirstMin(ds);
    assert |hits| > 0 ==> !Selection.NoneRated(ds) by {
      if |hits| > 0 {
        assert ds[0].Some?;
      }
    }
    if k == -1 then None
    else
      assert forall j :: 0 <= j < |hits| ==> hits[k].distance <= hits[j].distance by {
        forall j | 0 <= j < |hits|
          ensures hits[k].distance <= hits[j].distance
        {
          assert ds[j].Some?;
        }
      }
      assert forall j :: 0 <= j < k ==> hits[k].distance < hits[j].distance by {
        forall j | 0 <= j < k
          ensures hits[k].distance < hits[j].distance
        {
          assert ds[j].Some?;
        }
      }
      Some(hits[k])
  }

  /**
   * The distance at which the ray aimed at collider `c` reaches it, when
   * its nearest hit is `c` itself; `rays` gives the hits of the ray aimed
   * at each collider.
   */
  function ReachOf(rays: ColliderId -> seq<Hit>, c: ColliderId): (r: Option<real>)
    ensures r.Some? <==> NearestHit(rays(c)).Some? && NearestHit(rays(c)).value.collider == c
    ensures r.Some? ==> r.value == NearestHit(rays(c)).value.distance
  {
    match NearestHit(rays(c))
    case Some(h) => if h.collider == c then Some(h.distance) else None
    case None => None
  }

  /** Entries with the same Grabbables and counts, position by position; only distances may differ. */
  predicate SameEntries(s: seq<Stats>, r: seq<Stats>) {
    |r| == |s| && forall i :: 0 <= i < |s| ==> r[i].grabbable == s[i].grabbable && r[i].colliders == s[i].colliders
  }

  /** ResetDistance on every entry. */
  function ResetDistances(s: seq<Stats>): (r: seq<Stats>)
    ensures SameEntries(s, r)
    ensures forall i :: 0 <= i < |r| ==> r[i].distance.Unreached?
  {
    seq(|s|, i requires 0 <= i < |s| => s[i].(distance := Unreached))
  }

  /** TryDistance: keep the shorter of the recorded distance and `value`. */
  function TryDistance(st: Stats, value: real): (r: Stats)
    ensures r.grabbable == st.grabbable && r.colliders == st.colliders
    ensures NoFarther(r.distance, st.distance) && NoFarther(r.distance, At(value))
    ensures r.distance == st.distance || r.distance == At(value)
  {
    if st.distance.Unreached? || value < st.distance.d then st.(distance := At(value)) else st
  }

  /** Every collider of `order` is recorded and its Grabbable listed. */
  predicate Aimable(s: seq<Stats>, m: map<ColliderId, GrabbableId>, order: seq<ColliderId>) {
    forall k :: 0 <= k < |order| ==> order[k] in m && Listed(s, m[order[k]])
  }

  /** One pass of the collider loop: a ray that reaches its collider offers its distance to the collider's Grabbable. */
  function MeasureOne(s: seq<Stats>, m: map<ColliderId, GrabbableId>, c: ColliderId, rays: ColliderId -> seq<Hit>): (r: seq<Stats>)
    requires c in m && Listed(s, m[c])
    ensures SameEntries(s, r)
    ensures ReachOf(rays, c).None? ==> r == s
    // A reaching ray touches only the first entry of the collider's Grabbable, which keeps the shorter distance.
    ensures ReachOf(rays, c).Some? ==>
      var i := IndexOf(s, m[c]);
      0 <= i && |r| == |s| && r[i].grabbable == m[c]
      && (forall j :: 0 <= j < |s| && j != i ==> r[j] == s[j])
      && NoFarther(r[i].distance, s[i].distance) && NoFarther(r[i].distance, At(ReachOf(rays, c).value))
      && (r[i].distance == s[i].distance || r[i].distance == At(ReachOf(rays, c).value))
  {
    var reach := ReachOf(rays, c);
    if reach.Some? then
      var i := IndexOf(s, m[c]);
      s[i := TryDistance(s[i], reach.value)]
    else s
  }

  /** The collider loop, over the colliders in the dictionary's enumeration order `order`. */
  function Measure(s: seq<Stats>, m: map<ColliderId, GrabbableId>, order: seq<ColliderId>, rays: ColliderId -> seq<Hit>): (r: seq<Stats>)
    requires Aimable(s, m, order)
    ensures SameEntries(s, r)
    decreases |order|
  {
    if |order| == 0 then s
    else
      var front := order[..|order| - 1];
      var s1 := Measure(s, m, front, rays);
      var c := order[|order| - 1];
      assert Listed(s1, m[c]) by {
        var i :| 0 <= i < |s| && s[i].grabbable == m[c];
        assert s1[i].grabbable == m[c];
      }
      MeasureOne(s1, m, c, rays)
  }

  /** The ray aimed at `c` reaches it and `c` belongs to `g`. */
  predicate ReachesFor(m: map<ColliderId, GrabbableId>, rays: ColliderId -> seq<Hit>, c: ColliderId, g: GrabbableId) {
    c in m && m[c] == g && ReachOf(rays, c).Some?
  }

  /**
   * `d` is the shortest distance at which a ray of `order` reached a
   * collider of `g`, or Unreached when no such ray reached its collider.
   */
  predicate IsShortest(d: Distance, m: map<ColliderId, GrabbableId>, order: seq<ColliderId>, rays: ColliderId -> seq<Hit>, g: GrabbableId) {
    (d.Unreached? <==> forall k :: 0 <= k < |order| ==> !ReachesFor(m, rays, order[k], g))
    && (d.At? ==>
          (exists k :: 0 <= k < |order| && ReachesFor(m, rays, order[k], g) && ReachOf(rays, order[k]).value == d.d)
          && (forall k :: 0 <= k < |order| && ReachesFor(m, rays, order[k], g) ==> d.d <= ReachOf(rays, order[k]).value))
  }

  /**
   * Starting from reset distances, the collider loop leaves each Grabbable
   * with the shortest distance at which a ray reached one of its colliders,
   * and Unreached when every ray to it was blocked.
   */
  lemma {:induction false} MeasureFindsShortest(s: seq<Stats>, m: map<ColliderId, GrabbableId>, order: seq<ColliderId>, rays: ColliderId -> seq<Hit>)
    requires NoDuplicates(s) && Aimable(s, m, order)
    requires forall i :: 0 <= i < |s| ==> s[i].distance.Unreached?
    ensures forall i :: 0 <= i < |s| ==> IsShortest(Measure(s, m, order, rays)[i].distance, m, order, rays, s[i].grabbable)
  {
    if |order| > 0 {
      var front := order[..|order| - 1];
      assert Aimable(s, m, front);
      MeasureFindsShortest(s, m, front, rays);
      var s1 := Measure(s, m, front, rays);
      var c := order[|order| - 1];
      forall i | 0 <= i < |s|
        ensures IsShortest(Measure(s, m, order, rays)[i].distance, m, order, rays, s[i].grabbable)
      {
        ShortestStep(s, s1, m, front, c, rays, i);
        assert front + [c] == order;
      }
    }
  }

  /** One more collider of the loop keeps every entry's distance the shortest so far. */
  lemma ShortestStep(s: seq<Stats>, s1: seq<Stats>, m: map<ColliderId, GrabbableId>, front: seq<ColliderId>, c: ColliderId,
                     rays: ColliderId -> seq<Hit>, i: int)
    requires NoDuplicates(s) && SameEntries(s, s1) && c in m && Listed(s1, m[c])
    requires 0 <= i < |s| && IsShortest(s1[i].distance, m, front, rays, s[i].grabbable)
    ensures IsShortest(MeasureOne(s1, m, c, rays)[i].distance, m, front + [c], rays, s[i].grabbable)
  {
    var g := s[i].grabbable;
    var r := MeasureOne(s1, m, c, rays);
    if ReachOf(rays, c).Some? && m[c] == g {
      assert IndexOf(s1, m[c]) == i by {
        var j := IndexOf(s1, m[c]);
        assert s[j].grabbable == g;
      }
      assert r[i] == TryDistance(s1[i], ReachOf(rays, c).value);
      ShortestExtendHit(s1[i], m, front, c, rays, g);
    } else {
      assert r[i] == s1[i] by {
        if ReachOf(rays, c).Some? {
          var j := IndexOf(s1, m[c]);
          assert j != i;
        }
      }
      ShortestExtendMiss(s1[i].distance, m, front, c, rays, g);
    }
  }

  /** A collider whose ray does not reach it for `g` leaves the shortest distance as it was. */
  lemma ShortestExtendMiss(d: Distance, m: map<ColliderId, GrabbableId>, front: seq<ColliderId>, c: ColliderId,
                           rays: ColliderId -> seq<Hit>, g: GrabbableId)
    requires IsShortest(d, m, front, rays, g) && !ReachesFor(m, rays, c, g)
    ensures IsShortest(d, m, front + [c], rays, g)
  {
    var order := front + [c];
    forall k | 0 <= k < |order|
      ensures ReachesFor(m, rays, order[k], g) <==> k < |front| && ReachesFor(m, rays, front[k], g)
      ensures k < |front| ==> order[k] == front[k]
    {
      if k < |front| {
        assert order[k] == front[k];
      } else {
        assert order[k] == c;
      }
    }
    if d.At? {
      var k :| 0 <= k < |front| && ReachesFor(m, rays, front[k], g) && ReachOf(rays, front[k]).value == d.d;
      assert order[k] == front[k];
    }
  }

  /** A collider whose ray reaches it for `g` offers its distance, and the shorter one is kept. */
  lemma ShortestExtendHit(st: Stats, m: map<ColliderId, GrabbableId>, front: seq<ColliderId>, c: ColliderId,
                          rays: ColliderId -> seq<Hit>, g: GrabbableId)
    requires IsShortest(st.distance, m, front, rays, g) && ReachesFor(m, rays, c, g)
    ensures IsShortest(TryDistance(st, ReachOf(rays, c).value).distance, m, front + [c], rays, g)
  {
    var order := front + [c];
    var v := ReachOf(rays, c).value;
    var d := TryDistance(st, v).distance;
    assert order[|front|] == c;
    assert d.At? && d.d <= v;
    forall k | 0 <= k < |order| && ReachesFor(m, rays, order[k], g)
      ensures d.d <= ReachOf(rays, order[k]).value
    {
      if k < |front| {
        assert order[k] == front[k];
      }
    }
    if d != At(v) {
      var k :| 0 <= k < |front| && ReachesFor(m, rays, front[k], g) && ReachOf(rays, front[k]).value == st.distance.d;
      assert order[k] == front[k];
    }
  }

  /** The shortest distance does not depend on the order in which the same colliders are aimed at. */
  lemma ShortestUnique(d1: Distance, d2: Distance, m: map<ColliderId, GrabbableId>, o1: seq<ColliderId>, o2: seq<ColliderId>,
                       rays: ColliderId -> seq<Hit>, g: GrabbableId)
    requires forall c :: c in o1 <==> c in o2
    requires IsShortest(d1, m, o1, rays, g) && IsShortest(d2, m, o2, rays, g)
    ensures d1 == d2
  {
    assert (exists k :: 0 <= k < |o1| && ReachesFor(m, rays, o1[k], g)) <==> (exists k :: 0 <= k < |o2| && ReachesFor(m, rays, o2[k], g)) by {
      if k1 :| 0 <= k1 < |o1| && ReachesFor(m, rays, o1[k1], g) {
        assert o1[k1] in o2;
        var k2 :| 0 <= k2 < |o2| && o2[k2] == o1[k1];
      }
      if k2 :| 0 <= k2 < |o2| && ReachesFor(m, rays, o2[k2], g) {
        assert o2[k2] in o1;
        var k1 :| 0 <= k1 < |o1| && o1[k1] == o2[k2];
      }
    }
    if d1.At? && d2.At? {
      var k1 :| 0 <= k1 < |o1| && ReachesFor(m, rays, o1[k1], g) && ReachOf(rays, o1[k1]).value == d1.d;
      var k2 :| 0 <= k2 < |o2| && ReachesFor(m, rays, o2[k2], g) && ReachOf(rays, o2[k2]).value == d2.d;
      assert o1[k1] in o2;
      var j2 :| 0 <= j2 < |o2| && o2[j2] == o1[k1];
      assert o2[k2] in o1;
      var j1 :| 0 <= j1 < |o1| && o1[j1] == o2[k2];
      assert d2.d <= d1.d && d1.d <= d2.d;
    }
  }

  /**
   * The dictionary's enumeration order does not matter: enumerating the
   * same colliders in any order measures every Grabbable alike.
   */
  lemma MeasureOrderFree(s: seq<Stats>, m: map<ColliderId, GrabbableId>, o1: seq<ColliderId>, o2: seq<ColliderId>, rays: ColliderId -> seq<Hit>)
    requires NoDuplicates(s) && Aimable(s, m, o1) && Aimable(s, m, o2)
    requires forall i :: 0 <= i < |s| ==> s[i].distance.Unreached?
    requires forall c :: c in o1 <==> c in o2
    ensures Measure(s, m, o1, rays) == Measure(s, m, o2, rays)
  {
    var r1 := Measure(s, m, o1, rays);
    var r2 := Measure(s, m, o2, rays);
    MeasureFindsShortest(s, m, o1, rays);
    MeasureFindsShortest(s, m, o2, rays);
    forall i | 0 <= i < |s|
      ensures r1[i] == r2[i]
    {
      ShortestUnique(r1[i].distance, r2[i].distance, m, o1, o2, rays, s[i].grabbable);
    }
  }

  /** Ascending by distance, Unreached last. */
  predicate Sorted(s: seq<Stats>) {
    forall i, j :: 0 <= i < j < |s| ==> NoFarther(s[i].distance, s[j].distance)
  }

  /** Insert `x` into a sorted list before the first entry that is not nearer than it. */
  function Insert(x: Stats, s: seq<Stats>): (r: seq<Stats>)
    requires Sorted(s)
    ensures Sorted(r)
    ensures multiset(r) == multiset(s) + multiset{x}
    ensures NoDuplicates(s) && (forall j :: 0 <= j < |s| ==> s[j].grabbable != x.grabbable) ==> NoDuplicates(r)
  {
    if |s| == 0 then [x]
    else if NoFarther(x.distance, s[0].distance) then
      PrependSorted(x, s);
      PrependNoDuplicates(x, s);
      [x] + s
    else
      var rest := Insert(x, s[1..]);
      assert s == [s[0]] + s[1..];
      InsertBehindHead(x, s, rest);
      [s[0]] + rest
  }

  /** When `x` goes after the head, the head stays in front of the rest with `x` inserted. */
  lemma InsertBehindHead(x: Stats, s: seq<Stats>, rest: seq<Stats>)
    requires |s| > 0 && Sorted(s) && !NoFarther(x.distance, s[0].distance)
    requires Sorted(rest) && multiset(rest) == multiset(s[1..]) + multiset{x}
    requires NoDuplicates(s[1..]) && (forall j :: 0 <= j < |s[1..]| ==> s[1..][j].grabbable != x.grabbable) ==> NoDuplicates(rest)
    ensures Sorted([s[0]] + rest)
    ensures NoDuplicates(s) && (forall j :: 0 <= j < |s| ==> s[j].grabbable != x.grabbable) ==> NoDuplicates([s[0]] + rest)
  {
    forall j | 0 <= j < |rest|
      ensures NoFarther(s[0].distance, rest[j].distance)
      ensures rest[j].grabbable == x.grabbable || rest[j] in s[1..]
      ensures NoDuplicates(s) && rest[j] in s[1..] ==> rest[j].grabbable != s[0].grabbable
    {
      assert rest[j] in multiset(rest);
      if NoDuplicates(s) && rest[j] in s[1..] {
        var k :| 0 <= k < |s| - 1 && s[1..][k] == rest[j];
        assert s[k + 1] == rest[j];
      }
    }
    PrependSorted(s[0], rest);
    if NoDuplicates(s) && (forall j :: 0 <= j < |s| ==> s[j].grabbable != x.grabbable) {
      assert NoDuplicates(s[1..]);
      PrependNoDuplicates(s[0], rest);
    }
  }

  /** An entry no farther than the head of a sorted list can go in front of it. */
  lemma PrependSorted(x: Stats, s: seq<Stats>)
    requires Sorted(s)
    requires |s| > 0 ==> NoFarther(x.distance, s[0].distance)
    ensures Sorted([x] + s)
  {
    var r := [x] + s;
    forall i, j | 0 <= i < j < |r|
      ensures NoFarther(r[i].distance, r[j].distance)
    {
      if i == 0 && j > 1 {
        assert NoFarther(s[0].distance, s[j - 1].distance);
      }
    }
  }

  lemma PrependNoDuplicates(x: Stats, s: seq<Stats>)
    ensures NoDuplicates(s) && (forall j :: 0 <= j < |s| ==> s[j].grabbable != x.grabbable) ==> NoDuplicates([x] + s)
  {
    if NoDuplicates(s) && (forall j :: 0 <= j < |s| ==> s[j].grabbable != x.grabbable) {
      var r := [x] + s;
      forall i, j | 0 <= i < j < |r|
        ensures r[i].grabbable != r[j].grabbable
      {
        if i > 0 {
          assert r[i] == s[i - 1] && r[j] == s[j - 1];
        }
      }
    }
  }

  /** Insertion sort by distance: the same entries, in ascending order. */
  function SortByDistance(s: seq<Stats>): (r: seq<Stats>)
    ensures Sorted(r)
    ensures multiset(r) == multiset(s)
    ensures |r| == |s|
    ensures NoDuplicates(s) ==> NoDuplicates(r)
  {
    if |s| == 0 then []
    else
      var rest := SortByDistance(s[1..]);
      InsertHead(s, rest);
      Insert(s[0], rest)
  }

  /** Inserting the head into the sorted tail sorts the whole list. */
  lemma InsertHead(s: seq<Stats>, rest: seq<Stats>)
    requires |s| > 0 && Sorted(rest) && multiset(rest) == multiset(s[1..])
    requires NoDuplicates(s[1..]) ==> NoDuplicates(rest)
    ensures var r := Insert(s[0], rest);
      multiset(r) == multiset(s) && |r| == |s| && (NoDuplicates(s) ==> NoDuplicates(r))
  {
    assert s == [s[0]] + s[1..];
    HeadNotInTail(s, rest);
    var r := Insert(s[0], rest);
    assert |r| == |multiset(r)|;
    if NoDuplicates(s) {
      assert NoDuplicates(s[1..]);
    }
  }

  /** Without duplicates, the head's Grabbable is nowhere in a rearrangement of the tail. */
  lemma HeadNotInTail(s: seq<Stats>, rest: seq<Stats>)
    requires |s| > 0 && multiset(rest) == multiset(s[1..])
    ensures NoDuplicates(s) ==> forall j :: 0 <= j < |rest| ==> rest[j].grabbable != s[0].grabbable
  {
    if NoDuplicates(s) {
      forall j | 0 <= j < |rest|
        ensures rest[j].grabbable != s[0].grabbable
      {
        assert rest[j] in multiset(s[1..]);
        var k :| 0 <= k < |s| - 1 && s[1..][k] == rest[j];
        assert s[k + 1] == rest[j];
      }
    }
  }

  /** The dictionary enumerates each recorded collider exactly once. */
  predicate Enumerates(order: seq<ColliderId>, m: map<ColliderId, GrabbableId>) {
    (forall c :: c in m ==> c in order) && (forall c :: c in order ==> c in m)
    && (forall i, j :: 0 <= i < j < |order| ==> order[i] != order[j])
  }

  /** The same entries in another order keep the bookkeeping invariant. */
  lemma PermutedConsistent(m: map<ColliderId, GrabbableId>, s: seq<Stats>, r: seq<Stats>)
    requires Consistent(Proximity(m, s)) && NoDuplicates(r) && multiset(r) == multiset(s)
    ensures Consistent(Proximity(m, r))
  {
    forall i | 0 <= i < |r|
      ensures r[i].colliders == Count(m, r[i].grabbable) && r[i].colliders >= 1
    {
      assert r[i] in multiset(s);
      var j :| 0 <= j < |s| && s[j] == r[i];
    }
    forall c | c in m
      ensures Listed(r, m[c])
    {
      var j :| 0 <= j < |s| && s[j].grabbable == m[c];
      assert s[j] in multiset(r);
      var i :| 0 <= i < |r| && r[i] == s[j];
    }
  }

  /**
   * SortGrabbables: every distance reset, then measured by the collider
   * loop, then the list sorted by distance.
   */
  function SortGrabbables(p: Proximity, order: seq<ColliderId>, rays: ColliderId -> seq<Hit>): (r: seq<Stats>)
    requires Consistent(p) && Enumerates(order, p.inRange)
    ensures Sorted(r)
    ensures multiset(r) == multiset(Measure(ResetDistances(p.canGrab), p.inRange, order, rays))
    ensures Consistent(Proximity(p.inRange, r))
  {
    var reset := ResetDistances(p.canGrab);
    assert Aimable(reset, p.inRange, order) by {
      forall k | 0 <= k < |order|
        ensures order[k] in p.inRange && Listed(reset, p.inRange[order[k]])
      {
        var j :| 0 <= j < |p.canGrab| && p.canGrab[j].grabbable == p.inRange[order[k]];
        assert reset[j].grabbable == p.canGrab[j].grabbable;
      }
    }
    var measured := Measure(reset, p.inRange, order, rays);
    assert Consistent(Proximity(p.inRange, measured)) by {
      forall c | c in p.inRange
        ensures Listed(measured, p.inRange[c])
      {
        var j :| 0 <= j < |p.canGrab| && p.canGrab[j].grabbable == p.inRange[c];
        assert measured[j].grabbable == p.canGrab[j].grabbable;
      }
    }
    var r := SortByDistance(measured);
    PermutedConsistent(p.inRange, measured, r);
    r
  }

  /**
   * The try-next-candidate loop of BeginGrab: walk the list in order,
   * give up at the first candidate beyond reach, and stop at the first one
   * `accept` (the Grabbable's TryGrab) takes.  -1 when nothing is taken.
   */
  function FirstTaken(s: seq<Stats>, maxRadius: real, accept: GrabbableId -> bool, from: nat): (k: int)
    requires from <= |s|
    decreases |s| - from
    ensures k == -1 || from <= k < |s|
    ensures k >= 0 ==> accept(s[k].grabbable)
    ensures k >= 0 ==> forall j :: from <= j <= k ==> !BeyondReach(s[j].distance, maxRadius)
    ensures k >= 0 ==> forall j :: from <= j < k ==> !accept(s[j].grabbable)
    ensures k == -1 ==> forall j :: from <= j < |s| && (forall i :: from <= i <= j ==> !BeyondReach(s[i].distance, maxRadius)) ==>
                           !accept(s[j].grabbable)
  {
    if from == |s| then -1
    else if BeyondReach(s[from].distance, maxRadius) then -1
    else if accept(s[from].grabbable) then from
    else FirstTaken(s, maxRadius, accept, from + 1)
  }

  /** In a sorted list, everything after a candidate beyond reach is beyond reach too. */
  lemma SortedReachCutoff(s: seq<Stats>, maxRadius: real, i: int, j: int)
    requires Sorted(s) && 0 <= i <= j < |s|
    requires BeyondReach(s[i].distance, maxRadius)
    ensures BeyondReach(s[j].distance, maxRadius)
  {
    if i < j {
      assert NoFarther(s[i].distance, s[j].distance);
    }
  }

  /**
   * On a sorted list the loop tries exactly the candidates within reach:
   * when nothing is taken, every candidate within reach refused.
   */
  lemma SortedTriesAllInReach(s: seq<Stats>, maxRadius: real, accept: GrabbableId -> bool)
    requires Sorted(s)
    requires FirstTaken(s, maxRadius, accept, 0) == -1
    ensures forall j :: 0 <= j < |s| && !BeyondReach(s[j].distance, maxRadius) ==> !accept(s[j].grabbable)
  {
    forall j | 0 <= j < |s| && !BeyondReach(s[j].distance, maxRadius)
      ensures !accept(s[j].grabbable)
    {
      forall i | 0 <= i <= j
        ensures !BeyondReach(s[i].distance, maxRadius)
      {
        if BeyondReach(s[i].distance, maxRadius) {
          SortedReachCutoff(s, maxRadius, i, j);
        }
      }
    }
  }

  /**
   * BeginGrab's choice: with more than one candidate the list is first
   * re-measured and sorted; a lone candidate keeps whatever distance it
   * already has.  Returns the list as left behind and the index taken.
   */
  function ChooseCandidate(p: Proximity, maxRadius: real, order: seq<ColliderId>, rays: ColliderId -> seq<Hit>,
                           accept: GrabbableId -> bool): (r: (seq<Stats>, int))
    requires Consistent(p) && Enumerates(order, p.inRange)
    ensures Consistent(Proximity(p.inRange, r.0))
    ensures |p.canGrab| <= 1 ==> r.0 == p.canGrab
    ensures |p.canGrab| > 1 ==> Sorted(r.0)
    ensures |p.canGrab| > 1 ==> multiset(r.0) == multiset(Measure(ResetDistances(p.canGrab), p.inRange, order, rays))
    ensures r.1 == -1 || (0 <= r.1 < |r.0| && accept(r.0[r.1].grabbable) && !BeyondReach(r.0[r.1].distance, maxRadius))
    ensures r.1 >= 0 ==> forall j :: 0 <= j < r.1 ==> !accept(r.0[j].grabbable) && !BeyondReach(r.0[j].distance, maxRadius)
    ensures r.1 == -1 ==>
      forall j :: 0 <= j < |r.0| && !BeyondReach(r.0[j].distance, maxRadius) ==> !accept(r.0[j].grabbable)
  {
    var list := if |p.canGrab| > 1 then SortGrabbables(p, order, rays) else p.canGrab;
    var k := FirstTaken(list, maxRadius, accept, 0);
    if k == -1 then
      SortedTriesAllInReach(list, maxRadius, accept);
      (list, k)
    else
      (list, k)
  }

  /** A lone candidate that has just entered has distance 0, so it is always tried. */
  lemma LoneFreshCandidate(p: Proximity, maxRadius: real, order: seq<ColliderId>, rays: ColliderId -> seq<Hit>,
                           accept: GrabbableId -> bool, g: GrabbableId)
    requires Consistent(p) && Enumerates(order, p.inRange)
    requires p.canGrab == [Stats(g, 1, At(0.0))] && maxRadius >= 0.0
    ensures ChooseCandidate(p, maxRadius, order, rays, accept).1 == (if accept(g) then 0 else -1)
  {
  }

  /**
   * A lone candidate is never re-measured: one left Unreached by an earlier
   * sort is never tried, however close it is now.
   */
  lemma LoneStaleCandidate(p: Proximity, maxRadius: real, order: seq<ColliderId>, rays: ColliderId -> seq<Hit>,
                           accept: GrabbableId -> bool, g: GrabbableId, n: int)
    requires Consistent(p) && Enumerates(order, p.inRange)
    requires p.canGrab == [Stats(g, n, Unreached)]
    ensures ChooseCandidate(p, maxRadius, order, rays, accept).1 == -1
  {
  }

  /**
   * BeginGrab's choice as evidently intended: a lone candidate is tried
   * without measuring it, as a freshly entered one is, whatever distance
   * an earlier sort left on it; several candidates are ranked as before.
   */
  function ChooseCandidateLoneTried(p: Proximity, maxRadius: real, order: seq<ColliderId>, rays: ColliderId -> seq<Hit>,
                                    accept: GrabbableId -> bool): (r: (seq<Stats>, int))
    requires Consistent(p) && Enumerates(order, p.inRange)
    ensures Consistent(Proximity(p.inRange, r.0))
    ensures |p.canGrab| <= 1 ==> r.0 == p.canGrab
    ensures r.1 == -1 || (0 <= r.1 < |r.0| && accept(r.0[r.1].grabbable))
    ensures |p.canGrab| != 1 ==> r == ChooseCandidate(p, maxRadius, order, rays, accept)
  {
    if |p.canGrab| == 1 then (p.canGrab, if accept(p.canGrab[0].grabbable) then 0 else -1)
    else ChooseCandidate(p, maxRadius, order, rays, accept)
  }

  /**
   * With the correction a lone candidate is tried whatever its recorded
   * distance, and wherever the source already tries it the two agree.
   */
  lemma LoneCandidateAlwaysTried(p: Proximity, maxRadius: real, order: seq<ColliderId>, rays: ColliderId -> seq<Hit>,
                                 accept: GrabbableId -> bool)
    requires Consistent(p) && Enumerates(order, p.inRange) && |p.canGrab| == 1
    ensures var g := p.canGrab[0].grabbable;
      ChooseCandidateLoneTried(p, maxRadius, order, rays, accept).1 == (if accept(g) then 0 else -1)
    ensures !BeyondReach(p.canGrab[0].distance, maxRadius) ==>
      ChooseCandidateLoneTried(p, maxRadius, order, rays, accept) == ChooseCandidate(p, maxRadius, order, rays, accept)
  {
    var list := p.canGrab;
    assert FirstTaken(list, maxRadius, accept, 0) == (if BeyondReach(list[0].distance, maxRadius) then -1
      else if accept(list[0].grabbable) then 0 else FirstTaken(list, maxRadius, accept, 1));
  }
}
