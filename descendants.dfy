/**
 * `countDescendants` and the descendant collection of the delete handler
 * (`getDescendants`), both walks over every child regardless of expansion.
 */
module Descendants {
  import opened TreeTypes
  import opened TreeShape
  import opened Paths
  import opened Walks

  /** The node and everything below it, in pre-order. */
  function Subtree(m: NodeMap, id: string): (r: seq<string>)
    requires Layered(m)
    ensures r == [] <==> id !in m.entries
    ensures id in m.entries ==> r[0] == id
  {
    PreOrder(m, id, false)
  }

  /**
   * What `countDescendants` computes: 0 for an absent node or a leaf, otherwise
   * the number of listed children plus the counts of all of them.
   */
  function CountOf(m: NodeMap, id: string): (n: nat)
    requires Layered(m)
    ensures id !in m.entries ==> n == 0
    ensures id in m.entries ==> n >= |m.entries[id].childrenIds|
    decreases Rank(m, id), 1, 0
  {
    if id !in m.entries || |m.entries[id].childrenIds| == 0 then 0
    else |m.entries[id].childrenIds| + CountFrom(m, id, 0)
  }

  function CountFrom(m: NodeMap, id: string, i: nat): (n: nat)
    requires Layered(m) && id in m.entries && i <= |m.entries[id].childrenIds|
    decreases Rank(m, id), 0, |m.entries[id].childrenIds| - i
  {
    var cs := m.entries[id].childrenIds;
    if i == |cs| then 0 else CountOf(m, cs[i]) + CountFrom(m, id, i + 1)
  }

  /** The recursive count with its `count` accumulator. */
  method CountDescendants(m: NodeMap, nodeId: string) returns (count: nat)
    requires Layered(m)
    ensures count == CountOf(m, nodeId)
    decreases Rank(m, nodeId)
  {
    var node := m.Get(nodeId);
    if node.None? || |node.value.childrenIds| == 0 {
      return 0;
    }
    var cs := node.value.childrenIds;
    count := |cs|;
    var i := 0;
    while i < |cs|
      invariant 0 <= i <= |cs|
      invariant count + CountFrom(m, nodeId, i) == CountOf(m, nodeId)
    {
      var sub := CountDescendants(m, cs[i]);
      count := count + sub;
      i := i + 1;
    }
  }

  /** When every listed child is present, the count is the size of the subtree less the node itself. */
  lemma {:induction false} CountIsSubtreeSize(m: NodeMap, id: string)
    requires Layered(m) && ChildrenPresent(m)
    ensures CountOf(m, id) == if id in m.entries then |Subtree(m, id)| - 1 else 0
    decreases Rank(m, id), 1, 0
  {
    if id in m.entries {
      CountFromIsSize(m, id, 0);
    }
  }

  lemma {:induction false} CountFromIsSize(m: NodeMap, id: string, i: nat)
    requires Layered(m) && ChildrenPresent(m) && id in m.entries && i <= |m.entries[id].childrenIds|
    ensures CountFrom(m, id, i) + (|m.entries[id].childrenIds| - i) == |PreOrderFrom(m, id, false, i)|
    decreases Rank(m, id), 0, |m.entries[id].childrenIds| - i
  {
    var cs := m.entries[id].childrenIds;
    if i < |cs| {
      assert cs[i] in m.entries;
      CountIsSubtreeSize(m, cs[i]);
      CountFromIsSize(m, id, i + 1);
    }
  }

  /** Going down and going up agree: `x` is in the subtree of `a` iff `a` is on the path of `x`. */
  lemma {:induction false} SubtreeIsAncestry(m: NodeMap, a: string, x: string)
    requires WellFormed(m)
    ensures Layered(m) && ParentsShallower(m)
    ensures x in Subtree(m, a) <==> a in m.entries && x in m.entries && a in PathTo(m, x)
    decreases if x in m.entries then m.entries[x].depth else 0
  {
    WellFormedWalks(m);
    if x in Subtree(m, a) {
      PreOrderAncestor(m, a, false, x);
      PreOrderBelow(m, a, false);
    }
    if a in m.entries && x in m.entries && a in PathTo(m, x) && x != a {
      WellFormedTruthy(m, x);
      var px := m.entries[x].parentId;
      if px.Some? {
        assert ParentLink(m, x);
        assert PathTo(m, x) == PathTo(m, px.value) + [x];
        SubtreeIsAncestry(m, a, px.value);
        PreOrderClosed(m, a, false, px.value, x);
      } else {
        assert PathTo(m, x) == [x];
      }
    }
  }

  /** The strict descendants of `a`: every other present node with `a` on its path. */
  ghost function StrictDescendants(m: NodeMap, a: string): set<string>
    requires ParentsShallower(m)
  {
    set x | x in m.entries && x != a && a in PathTo(m, x)
  }

  /** In a well-formed tree `countDescendants` is the number of strict descendants. */
  lemma CountIsDescendantCount(m: NodeMap, a: string)
    requires WellFormed(m)
    ensures Layered(m) && ParentsShallower(m)
    ensures CountOf(m, a) == |StrictDescendants(m, a)|
  {
    WellFormedWalks(m);
    var sub := Subtree(m, a);
    forall x
      ensures x in StrictDescendants(m, a) <==> x in Elems(sub) - {a}
    {
      SubtreeIsAncestry(m, a, x);
      PathLinks(m, x);
    }
    assert StrictDescendants(m, a) == Elems(sub) - {a};
    CountIsSubtreeSize(m, a);
    if a in m.entries {
      PreOrderDistinct(m, a, false);
      DistinctCard(sub);
      assert a in Elems(sub);
    } else {
      assert sub == [];
    }
  }

  /** The ids below the `i`-th child and its later siblings: that child's subtree, then the rest. */
  lemma SubtreeElemsStep(m: NodeMap, id: string, i: nat)
    requires Layered(m) && id in m.entries && i < |m.entries[id].childrenIds|
    ensures var c := m.entries[id].childrenIds[i];
      && Rank(m, c) < Rank(m, id)
      && Elems(PreOrderFrom(m, id, false, i)) == Elems(Subtree(m, c)) + Elems(PreOrderFrom(m, id, false, i + 1))
  {
  }

  /** The nested `getDescendants`: adds a present node and, recursively, its children to `ids`. */
  method CollectDescendants(m: NodeMap, id: string, ids: set<string>) returns (r: set<string>)
    requires Layered(m)
    ensures r == ids + Elems(Subtree(m, id))
    decreases Rank(m, id)
  {
    var node := m.Get(id);
    if node.None? {
      return ids;
    }
    r := ids + {id};
    var cs := node.value.childrenIds;
    var i := 0;
    while i < |cs|
      invariant 0 <= i <= |cs|
      invariant r + Elems(PreOrderFrom(m, id, false, i)) == ids + Elems(Subtree(m, id))
    {
      SubtreeElemsStep(m, id, i);
      r := CollectDescendants(m, cs[i], r);
      i := i + 1;
    }
  }
}
