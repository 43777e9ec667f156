/**
 * ComponentExtensions.GetComponentInParent(includeInactive): walk from a
 * component's own transform up the parent chain and return the first
 * component of the wanted type on a node that is considered.
 */
module ComponentSearch {
  import opened Wrappers

  /**
   * One transform on the chain: whether its game object is active, and the
   * component of the searched type on it, if any (the engine's GetComponent).
   */
  datatype Node<C> = Node(activeSelf: bool, component: Option<C>)

  /** A node is looked at when inactive nodes are included or the node is active. */
  predicate Considered<C>(n: Node<C>, includeInactive: bool) {
    includeInactive || n.activeSelf
  }

  /** A node that ends the walk: considered, and carrying the component. */
  predicate Hit<C>(n: Node<C>, includeInactive: bool) {
    Considered(n, includeInactive) && n.component.Some?
  }

  /**
   * Reference definition: the component of the first node, from the start of
   * the chain (the component's own transform) to the root, that is a Hit.
   */
  function FirstHit<C>(chain: seq<Node<C>>, includeInactive: bool): (r: Option<C>)
    ensures r.None? <==> forall i :: 0 <= i < |chain| ==> !Hit(chain[i], includeInactive)
    ensures r.Some? ==>
      exists k :: (0 <= k < |chain| && Hit(chain[k], includeInactive) && chain[k].component == r
        && forall j :: 0 <= j < k ==> !Hit(chain[j], includeInactive))
  {
    if |chain| == 0 then None
    else if Hit(chain[0], includeInactive) then chain[0].component
    else
      var rest := FirstHit(chain[1..], includeInactive);
      assert forall i :: 1 <= i < |chain| ==> chain[i] == chain[1..][i - 1];
      rest
  }

  /**
   * The loop of the source.  `steps` counts the nodes visited; the walk
   * stops after the first hit or at the root.
   */
  method GetComponentInParent<C>(chain: seq<Node<C>>, includeInactive: bool)
    returns (result: Option<C>, steps: nat)
    ensures result == FirstHit(chain, includeInactive)
    ensures steps <= |chain|
    ensures result.None? ==> steps == |chain|
    ensures result.Some? ==> 0 < steps && Hit(chain[steps - 1], includeInactive)
  {
    result := None;
    steps := 0;
    while steps < |chain| && result.None?
      invariant steps <= |chain|
      invariant result.None? ==> forall j :: 0 <= j < steps ==> !Hit(chain[j], includeInactive)
      invariant result.Some? ==>
        (0 < steps && Hit(chain[steps - 1], includeInactive) && result == chain[steps - 1].component
         && forall j :: 0 <= j < steps - 1 ==> !Hit(chain[j], includeInactive))
      decreases |chain| - steps
    {
      var here := chain[steps];
      if includeInactive || here.activeSelf {
        result := here.component;
      }
      steps := steps + 1;
    }
    FirstHitIsFirst(chain, includeInactive, if result.Some? then steps - 1 else |chain|);
  }

  /** FirstHit is determined by the index of the first hit, if any. */
  lemma FirstHitIsFirst<C>(chain: seq<Node<C>>, includeInactive: bool, k: nat)
    requires k <= |chain|
    requires forall j :: 0 <= j < k ==> !Hit(chain[j], includeInactive)
    requires k < |chain| ==> Hit(chain[k], includeInactive)
    ensures FirstHit(chain, includeInactive) == if k < |chain| then chain[k].component else None
  {
  }

  /** With includeInactive set, the activity flags do not matter. */
  lemma {:induction false} IncludeInactiveIgnoresActivity<C>(a: seq<Node<C>>, b: seq<Node<C>>)
    requires |a| == |b|
    requires forall i :: 0 <= i < |a| ==> a[i].component == b[i].component
    ensures FirstHit(a, true) == FirstHit(b, true)
  {
    if |a| > 0 {
      IncludeInactiveIgnoresActivity(a[1..], b[1..]);
    }
  }

  /**
   * Without includeInactive, an inactive node is passed over exactly as if it
   * had no component, and the walk goes on to its parent.
   */
  lemma {:induction false} InactiveNodesAreSkipped<C>(chain: seq<Node<C>>, i: nat)
    requires i < |chain| && !chain[i].activeSelf
    ensures FirstHit(chain, false) == FirstHit(chain[i := Node(false, None)], false)
  {
    if i > 0 {
      InactiveNodesAreSkipped(chain[1..], i - 1);
      assert chain[i := Node(false, None)][1..] == chain[1..][i - 1 := Node(false, None)];
    }
  }
}
