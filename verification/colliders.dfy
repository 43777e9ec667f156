/**
 * Colliders recorded against the Grabbable that owns them, and how many
 * each Grabbable owns: the bookkeeping the Grabbers and
 * GrabbableInTrigger keep as a Collider-to-Grabbable dictionary.
 */
module Colliders {
  import Anchors

  /** Identifies a Collider. */
  type ColliderId = nat

  type GrabbableId = Anchors.GrabbableId

  /** The colliders recorded against `g`. */
  function Owned(m: map<ColliderId, GrabbableId>, g: GrabbableId): set<ColliderId> {
    set c | c in m && m[c] == g
  }

  /** How many colliders are recorded against `g`. */
  function Count(m: map<ColliderId, GrabbableId>, g: GrabbableId): nat {
    |Owned(m, g)|
  }

  /** `g` owns a recorded collider exactly when its count is positive. */
  lemma CountPositive(m: map<ColliderId, GrabbableId>, g: GrabbableId)
    ensures Count(m, g) > 0 <==> exists c :: c in m && m[c] == g
  {
    if exists c :: c in m && m[c] == g {
      var c :| c in m && m[c] == g;
      assert c in Owned(m, g);
    } else {
      assert Owned(m, g) == {};
    }
  }

  /** Recording a new collider adds one to its owner's count and leaves every other count alone. */
  lemma CountAfterAdd(m: map<ColliderId, GrabbableId>, c: ColliderId, g: GrabbableId, h: GrabbableId)
    requires c !in m
    ensures Count(m[c := g], h) == if h == g then Count(m, h) + 1 else Count(m, h)
  {
    if h == g {
      assert Owned(m[c := g], h) == Owned(m, h) + {c};
    } else {
      assert Owned(m[c := g], h) == Owned(m, h);
    }
  }

  /** Forgetting a recorded collider takes one from its owner's count and leaves every other count alone. */
  lemma CountAfterRemove(m: map<ColliderId, GrabbableId>, c: ColliderId, h: GrabbableId)
    requires c in m
    ensures Count(m - {c}, h) == if h == m[c] then Count(m, h) - 1 else Count(m, h)
  {
    if h == m[c] {
      assert Owned(m - {c}, h) == Owned(m, h) - {c};
    } else {
      assert Owned(m - {c}, h) == Owned(m, h);
    }
  }
}
