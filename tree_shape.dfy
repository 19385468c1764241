/**
 * The structural invariants of the store and the termination measures the walks
 * over it use.
 */
module TreeShape {
  import opened TreeTypes

  /** The id the visualizer walks from (`getVisibleNodeIds(treeNodes, 'root')`). */
  const RootId: string := "root"

  /** A present child listed by a present node sits deeper than that node. Enough for the downward walks to end. */
  ghost predicate Layered(m: NodeMap)
  {
    forall k, c :: k in m.entries && c in m.entries[k].childrenIds && c in m.entries ==>
      m.entries[k].depth < m.entries[c].depth
  }

  /** A present parent sits above its child. Enough for the upward walk to end. */
  ghost predicate ParentsShallower(m: NodeMap)
  {
    forall k {:trigger m.entries[k].parentId} ::
      k in m.entries && Truthy(m.entries[k].parentId) && m.entries[k].parentId.value in m.entries ==>
      m.entries[m.entries[k].parentId.value].depth < m.entries[k].depth
  }

  /** Every record is stored under its own id. */
  ghost predicate IdsAreKeys(m: NodeMap)
  {
    forall k :: k in m.entries ==> m.entries[k].id == k
  }

  /** Every listed child is present and names its lister as parent. */
  ghost predicate ChildrenPresent(m: NodeMap)
  {
    forall k, c :: k in m.entries && c in m.entries[k].childrenIds ==>
      c in m.entries && m.entries[c].parentId == Some(k)
  }

  /** The parent of `k` is present, lists `k`, and sits one level above it. */
  ghost predicate ParentLink(m: NodeMap, k: string)
    requires k in m.entries && m.entries[k].parentId.Some?
  {
    var p := m.entries[k].parentId.value;
    && p in m.entries
    && k in m.entries[p].childrenIds
    && m.entries[k].depth == m.entries[p].depth + 1
  }

  ghost predicate IsRoot(m: NodeMap, r: string)
  {
    r in m.entries && m.entries[r].parentId.None?
  }

  /**
   * The store's invariants: the map is consistent, ids are non-empty and equal
   * their keys, children lists are duplicate-free, parent and child links agree,
   * depth grows by one along each link, and exactly one node (at depth 0) has no
   * parent.
   */
  ghost predicate WellFormed(m: NodeMap)
  {
    && m.Valid()
    && "" !in m.entries
    && IdsAreKeys(m)
    && ChildrenDistinct(m)
    && ChildrenPresent(m)
    && ParentsLinked(m)
    && SingleRoot(m)
  }

  ghost predicate ChildrenDistinct(m: NodeMap)
  {
    forall k :: k in m.entries ==> Distinct(m.entries[k].childrenIds)
  }

  ghost predicate ParentsLinked(m: NodeMap)
  {
    // Instantiated only where a proof names `ParentLink(m, k)`: a free trigger
    // would let the solver climb parent links without end.
    forall k {:trigger ParentLink(m, k)} :: k in m.entries && m.entries[k].parentId.Some? ==> ParentLink(m, k)
  }

  /** Exactly one node has no parent, and it is at depth 0. */
  ghost predicate SingleRoot(m: NodeMap)
  {
    && (exists r :: IsRoot(m, r))
    && (forall r, s :: IsRoot(m, r) && IsRoot(m, s) ==> r == s)
    && (forall r :: IsRoot(m, r) ==> m.entries[r].depth == 0)
  }

  lemma WellFormedWalks(m: NodeMap)
    requires ChildrenPresent(m) && ParentsLinked(m)
    ensures Layered(m) && ParentsShallower(m)
  {
    forall k, c | k in m.entries && c in m.entries[k].childrenIds && c in m.entries
      ensures m.entries[k].depth < m.entries[c].depth
    {
      assert ParentLink(m, c);
    }
    forall k | k in m.entries && Truthy(m.entries[k].parentId) && m.entries[k].parentId.value in m.entries
      ensures m.entries[m.entries[k].parentId.value].depth < m.entries[k].depth
    {
      assert ParentLink(m, k);
    }
  }

  /** A child listed by a present node is present, names it as parent, and sits one level below it. */
  lemma ChildLinked(m: NodeMap, k: string, c: string)
    requires ChildrenPresent(m) && ParentsLinked(m)
    requires k in m.entries && c in m.entries[k].childrenIds
    ensures c in m.entries && m.entries[c].parentId == Some(k) && m.entries[c].depth == m.entries[k].depth + 1
  {
    assert ParentLink(m, c);
  }

  /** The same for the `i`-th child. */
  lemma ChildAt(m: NodeMap, k: string, i: nat)
    requires ChildrenPresent(m) && ParentsLinked(m)
    requires k in m.entries && i < |m.entries[k].childrenIds|
    ensures var c := m.entries[k].childrenIds[i];
      c in m.entries && m.entries[c].parentId == Some(k) && m.entries[c].depth == m.entries[k].depth + 1
  {
    ChildLinked(m, k, m.entries[k].childrenIds[i]);
  }

  /** In a well-formed map a parent id is truthy exactly when it is present. */
  lemma WellFormedTruthy(m: NodeMap, k: string)
    requires WellFormed(m) && k in m.entries
    ensures Truthy(m.entries[k].parentId) <==> m.entries[k].parentId.Some?
  {
    if m.entries[k].parentId.Some? {
      assert ParentLink(m, k);
    }
  }

  /** An upper bound on the depths of the keys in `ks`. */
  ghost function DepthBoundOver(m: map<string, TreeNode>, ks: set<string>): (b: nat)
    requires ks <= m.Keys
    ensures forall k :: k in ks ==> m[k].depth <= b
    decreases ks
  {
    if ks == {} then 0
    else
      var k :| k in ks;
      var rest := DepthBoundOver(m, ks - {k});
      if m[k].depth > rest then m[k].depth else rest
  }

  ghost function DepthBound(m: NodeMap): (b: nat)
    ensures forall k :: k in m.entries ==> m.entries[k].depth <= b
  {
    DepthBoundOver(m.entries, m.entries.Keys)
  }

  /** Termination measure of the downward walks: it drops from a node to each present child. */
  ghost function Rank(m: NodeMap, id: string): nat
  {
    if id in m.entries then DepthBound(m) + 1 - m.entries[id].depth else 0
  }
}
