/**
 * GrabbableInTrigger: which Grabbables have colliders inside a trigger,
 * with a count of colliders per Grabbable, reporting a Grabbable when its
 * first collider enters and when its last collider leaves.
 */
module InTrigger {
  import opened Wrappers
  import opened Colliders

  /** The two dictionaries: colliders per Grabbable, and the Grabbable of each recorded collider. */
  datatype Tracker = Tracker(counts: map<GrabbableId, int>, colliders: map<ColliderId, GrabbableId>)

  const Empty := Tracker(map[], map[])

  /**
   * Every counted Grabbable's count is the number of its recorded colliders
   * and at least 1, and every recorded collider's Grabbable is counted.
   */
  predicate Consistent(t: Tracker) {
    (forall g :: g in t.counts ==> t.counts[g] == Count(t.colliders, g) && t.counts[g] >= 1)
    && (forall c :: c in t.colliders ==> t.colliders[c] in t.counts)
  }

  /**
   * Enter: a collider without a Grabbable (`owner` None) is ignored;
   * otherwise the collider is recorded, which the dictionary allows only
   * for a collider not yet recorded, and the Grabbable is returned when
   * this is its first collider.
   */
  function Enter(t: Tracker, c: ColliderId, owner: Option<GrabbableId>): (r: (Tracker, Option<GrabbableId>))
    requires owner.Some? ==> c !in t.colliders
    ensures owner.None? ==> r == (t, None)
    ensures owner.Some? ==> r.0.colliders == t.colliders[c := owner.value]
    ensures owner.Some? ==> r.0.counts.Keys == t.counts.Keys + {owner.value}
    ensures owner.Some? ==> forall g :: g in t.counts && g != owner.value ==> r.0.counts[g] == t.counts[g]
    ensures Consistent(t) && owner.Some? ==> (r.1 == owner <==> Count(t.colliders, owner.value) == 0)
    ensures r.1.Some? ==> r.1 == owner
  {
    match owner
    case None => (t, None)
    case Some(g) =>
      var colliders := t.colliders[c := g];
      if g in t.counts then
        (Tracker(t.counts[g := t.counts[g] + 1], colliders), None)
      else
        (Tracker(t.counts[g := 1], colliders), Some(g))
  }

  /**
   * Exit: an unrecorded collider is ignored; otherwise it is forgotten and
   * its Grabbable's count drops by one, and when the count reaches 0 the
   * Grabbable is forgotten and returned.  The count must exist, as the
   * dictionary lookup demands.
   */
  function Exit(t: Tracker, c: ColliderId): (r: (Tracker, Option<GrabbableId>))
    requires c in t.colliders ==> t.colliders[c] in t.counts
    ensures c !in t.colliders ==> r == (t, None)
    ensures c in t.colliders ==> r.0.colliders == t.colliders - {c}
    ensures c in t.colliders ==> (r.1.Some? <==> t.counts[t.colliders[c]] == 1)
    ensures c in t.colliders && r.1.Some? ==> r.1 == Some(t.colliders[c]) && r.0.counts == t.counts - {t.colliders[c]}
    ensures c in t.colliders && r.1.None? ==> r.0.counts == t.counts[t.colliders[c] := t.counts[t.colliders[c]] - 1]
  {
    if c !in t.colliders then (t, None)
    else
      var g := t.colliders[c];
      var colliders := t.colliders - {c};
      var n := t.counts[g] - 1;
      if n == 0 then
        (Tracker(t.counts - {g}, colliders), Some(g))
      else
        (Tracker(t.counts[g := n], colliders), None)
  }

  /** Clear: both dictionaries become empty. */
  function Clear(t: Tracker): (r: Tracker)
    ensures r.counts == map[] && r.colliders == map[]
    ensures Consistent(r)
  {
    Empty
  }

  /** Enter keeps the counts consistent with the recorded colliders. */
  lemma EnterKeepsConsistent(t: Tracker, c: ColliderId, owner: Option<GrabbableId>)
    requires Consistent(t)
    requires owner.Some? ==> c !in t.colliders
    ensures Consistent(Enter(t, c, owner).0)
  {
    if owner.Some? {
      var g := owner.value;
      var r := Enter(t, c, owner).0;
      forall h | h in r.counts
        ensures r.counts[h] == Count(r.colliders, h) && r.counts[h] >= 1
      {
        CountAfterAdd(t.colliders, c, g, h);
        if h == g && g !in t.counts {
          NotCountedOwnsNothing(t, g);
        }
      }
    }
  }

  /** A Grabbable that is not counted owns no recorded collider. */
  lemma NotCountedOwnsNothing(t: Tracker, g: GrabbableId)
    requires Consistent(t) && g !in t.counts
    ensures Count(t.colliders, g) == 0
  {
    CountPositive(t.colliders, g);
  }

  /** Exit keeps the counts consistent with the recorded colliders. */
  lemma ExitKeepsConsistent(t: Tracker, c: ColliderId)
    requires Consistent(t)
    ensures Consistent(Exit(t, c).0)
  {
    if c in t.colliders {
      var g := t.colliders[c];
      var r := Exit(t, c).0;
      forall h | h in r.counts
        ensures r.counts[h] == Count(r.colliders, h) && r.counts[h] >= 1
      {
        CountAfterRemove(t.colliders, c, h);
      }
      forall d | d in r.colliders
        ensures r.colliders[d] in r.counts
      {
        if r.colliders[d] == g {
          CountAfterRemove(t.colliders, c, g);
          CountPositive(r.colliders, g);
        }
      }
    }
  }

  /** Exit reports a Grabbable exactly when the collider leaving was its last one. */
  lemma ExitReportsLastCollider(t: Tracker, c: ColliderId)
    requires Consistent(t) && c in t.colliders
    ensures var g := t.colliders[c];
      Exit(t, c).1 == Some(g) <==> Count(t.colliders, g) == 1
    ensures var g := t.colliders[c];
      Exit(t, c).1.Some? ==> Count(Exit(t, c).0.colliders, g) == 0 && g !in Exit(t, c).0.counts
  {
    CountAfterRemove(t.colliders, c, t.colliders[c]);
  }

  /** A collider that enters and leaves again leaves the tracker as it was. */
  lemma EnterThenExit(t: Tracker, c: ColliderId, owner: Option<GrabbableId>)
    requires Consistent(t)
    requires owner.Some? ==> c !in t.colliders
    ensures owner.Some? ==> Exit(Enter(t, c, owner).0, c).0 == t
    ensures owner.Some? ==> Exit(Enter(t, c, owner).0, c).1 == Enter(t, c, owner).1
  {
    if owner.Some? {
      var g := owner.value;
      var t1 := Enter(t, c, owner).0;
      assert t1.colliders - {c} == t.colliders;
      if g in t.counts {
        assert t1.counts[g := t1.counts[g] - 1] == t.counts;
      } else {
        assert t1.counts - {g} == t.counts;
      }
    }
  }
}
