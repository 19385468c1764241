/** `getVisibleNodeIds`: the ids a viewer sees, given which nodes are collapsed. */
module Visibility {
  import opened TreeTypes
  import opened TreeShape
  import opened Paths
  import opened Walks

  /**
   * The visible ids below and including `nodeId`: the pre-order walk that enters
   * only expanded nodes. An absent id yields nothing; otherwise the id comes first.
   */
  function VisibleIds(m: NodeMap, nodeId: string): (r: seq<string>)
    requires Layered(m)
    ensures nodeId !in m.entries ==> r == []
    ensures nodeId in m.entries ==> |r| > 0 && r[0] == nodeId
    ensures nodeId in m.entries && !m.entries[nodeId].isExpanded ==> r == [nodeId]
  {
    PreOrder(m, nodeId, true)
  }

  /**
   * The recursive walk that pushes onto a `result` array shared by all calls;
   * the array is threaded through as an argument and a result.
   */
  method GetVisibleNodeIds(m: NodeMap, nodeId: string, result: seq<string>) returns (r: seq<string>)
    requires Layered(m)
    ensures r == result + VisibleIds(m, nodeId)
    decreases Rank(m, nodeId), 1
  {
    var node := m.Get(nodeId);
    if node.None? {
      return result;
    }
    r := result + [nodeId];
    if node.value.isExpanded {
      var cs := node.value.childrenIds;
      var i := 0;
      while i < |cs|
        invariant 0 <= i <= |cs|
        invariant r + PreOrderFrom(m, nodeId, true, i) == result + VisibleIds(m, nodeId)
      {
        r := VisitChild(m, nodeId, i, r);
        i := i + 1;
      }
    }
  }

  /** The `forEach` callback: walk the `i`-th child of `nodeId` onto the result. */
  method VisitChild(m: NodeMap, nodeId: string, i: nat, result: seq<string>) returns (r: seq<string>)
    requires Layered(m) && nodeId in m.entries && i < |m.entries[nodeId].childrenIds|
    ensures r + PreOrderFrom(m, nodeId, true, i + 1) == result + PreOrderFrom(m, nodeId, true, i)
    decreases Rank(m, nodeId), 0
  {
    var c := m.entries[nodeId].childrenIds[i];
    PreOrderFromStep(m, nodeId, true, i);
    r := GetVisibleNodeIds(m, c, result);
    ConcatAssoc(result, PreOrder(m, c, true), PreOrderFrom(m, nodeId, true, i + 1));
  }

  /**
   * Pre-order over expanded nodes: each visible id after the first has its
   * parent earlier in the list, and that parent is expanded.
   */
  lemma VisibleParentsEarlier(m: NodeMap, r: string)
    requires WellFormed(m)
    ensures Layered(m)
    ensures var v := VisibleIds(m, r);
      forall j :: 0 < j < |v| ==>
        && v[j] in m.entries
        && m.entries[v[j]].parentId.Some?
        && m.entries[v[j]].parentId.value in v[..j]
        && m.entries[v[j]].parentId.value in m.entries
        && m.entries[m.entries[v[j]].parentId.value].isExpanded
  {
    WellFormedWalks(m);
    ParentsEarlier(m, r, true);
    var v := VisibleIds(m, r);
    assert v == PreOrder(m, r, true);
    forall j | 0 < j < |v|
      ensures m.entries[m.entries[v[j]].parentId.value].isExpanded
    {
      assert Enters(m, m.entries[v[j]].parentId.value, true);
    }
  }

  /**
   * Which ids are visible from a present start `r`: `r` itself, and every present
   * node whose parent is visible and expanded; nothing else.
   */
  lemma VisibleExactly(m: NodeMap, r: string, x: string)
    requires WellFormed(m) && r in m.entries
    ensures Layered(m)
    ensures x in VisibleIds(m, r) <==>
      || x == r
      || (&& x in m.entries
          && m.entries[x].parentId.Some?
          && m.entries[x].parentId.value in VisibleIds(m, r)
          && m.entries[x].parentId.value in m.entries
          && m.entries[m.entries[x].parentId.value].isExpanded)
  {
    WellFormedWalks(m);
    var v := VisibleIds(m, r);
    if x in v && x != r {
      var j :| 0 <= j < |v| && v[j] == x;
      VisibleParentsEarlier(m, r);
      assert j > 0;
      assert v[..j] <= v;
    }
    if x != r && x in m.entries && m.entries[x].parentId.Some? {
      var q := m.entries[x].parentId.value;
      if q in v && q in m.entries && m.entries[q].isExpanded {
        assert ParentLink(m, x);
        PreOrderClosed(m, r, true, q, x);
      }
    }
  }

  /** In a well-formed tree no id is listed twice. */
  lemma VisibleDistinct(m: NodeMap, r: string)
    requires WellFormed(m)
    ensures Layered(m)
    ensures Distinct(VisibleIds(m, r))
  {
    PreOrderDistinct(m, r, true);
  }

  /** Every proper ancestor of `x` (every id on its path before it) is expanded. */
  ghost predicate AncestorsExpanded(m: NodeMap, x: string)
    requires ParentsShallower(m)
  {
    forall y :: y in PathTo(m, x) && y != x ==> y in m.entries && m.entries[y].isExpanded
  }

  /** A node's proper ancestors are expanded exactly when its parent's are and the parent is expanded. */
  lemma AncestorsExpandedStep(m: NodeMap, x: string)
    requires WellFormed(m) && x in m.entries && m.entries[x].parentId.Some?
    ensures ParentsShallower(m) && m.entries[x].parentId.value in m.entries
    ensures var q := m.entries[x].parentId.value;
      AncestorsExpanded(m, x) <==> AncestorsExpanded(m, q) && m.entries[q].isExpanded
  {
    var q := m.entries[x].parentId.value;
    PathOfChild(m, x);
    AncestorShallower(m, x, q);
    assert PathTo(m, x) == PathTo(m, q) + [x];
    assert x !in PathTo(m, q);
    PathLinks(m, q);
  }

  /** The root has no proper ancestors. */
  lemma AncestorsExpandedRoot(m: NodeMap, x: string)
    requires WellFormed(m) && IsRoot(m, x)
    ensures ParentsShallower(m) && AncestorsExpanded(m, x)
  {
    PathOfRoot(m, x);
  }

  /**
   * Seen from the root, a node is visible exactly when it is present and all its
   * proper ancestors are expanded.
   */
  lemma {:induction false} VisibleIffAncestorsExpanded(m: NodeMap, root: string, x: string)
    requires WellFormed(m) && IsRoot(m, root)
    ensures Layered(m) && ParentsShallower(m)
    ensures x in VisibleIds(m, root) <==> x in m.entries && AncestorsExpanded(m, x)
    decreases if x in m.entries then m.entries[x].depth else 0
  {
    WellFormedWalks(m);
    VisibleExactly(m, root, x);
    if x in m.entries {
      if m.entries[x].parentId.Some? {
        var q := m.entries[x].parentId.value;
        assert ParentLink(m, x);
        VisibleIffAncestorsExpanded(m, root, q);
        AncestorsExpandedStep(m, x);
      } else {
        assert IsRoot(m, x);
        AncestorsExpandedRoot(m, x);
      }
    }
  }
}
