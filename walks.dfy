/**
 * The pre-order walk down `childrenIds` shared by `getVisibleNodeIds` (which
 * enters only expanded nodes) and the descendant walks of `countDescendants` and
 * the delete handler (which enter every node), with the facts both rely on.
 */
module Walks {
  import opened TreeTypes
  import opened TreeShape
  import opened Paths

  /**
   * The ids met by a pre-order walk from `id`: nothing for an absent id, else
   * `id` followed by the walks of its children in order; when `expandedOnly`
   * holds, the children of a collapsed node are skipped.
   */
  function PreOrder(m: NodeMap, id: string, expandedOnly: bool): (r: seq<string>)
    requires Layered(m)
    ensures r == [] <==> id !in m.entries
    ensures id in m.entries ==> r[0] == id
    ensures id in m.entries && expandedOnly && !m.entries[id].isExpanded ==> r == [id]
    decreases Rank(m, id), 1, 0
  {
    if id !in m.entries then []
    else [id] + (if Enters(m, id, expandedOnly) then PreOrderFrom(m, id, expandedOnly, 0) else [])
  }

  /** The walks of the children of `id` from the `i`-th on, concatenated. */
  function PreOrderFrom(m: NodeMap, id: string, expandedOnly: bool, i: nat): (r: seq<string>)
    requires Layered(m) && id in m.entries && i <= |m.entries[id].childrenIds|
    decreases Rank(m, id), 0, |m.entries[id].childrenIds| - i
  {
    var cs := m.entries[id].childrenIds;
    if i == |cs| then []
    else PreOrder(m, cs[i], expandedOnly) + PreOrderFrom(m, id, expandedOnly, i + 1)
  }

  /** One step along the children: the `i`-th child's walk, then the rest; the child ranks lower. */
  lemma PreOrderFromStep(m: NodeMap, id: string, expandedOnly: bool, i: nat)
    requires Layered(m) && id in m.entries && i < |m.entries[id].childrenIds|
    ensures var c := m.entries[id].childrenIds[i];
      && Rank(m, c) < Rank(m, id)
      && PreOrderFrom(m, id, expandedOnly, i) == PreOrder(m, c, expandedOnly) + PreOrderFrom(m, id, expandedOnly, i + 1)
  {
  }

  /** Does the walk descend into the children of `id`? */
  predicate Enters(m: NodeMap, id: string, expandedOnly: bool)
    requires id in m.entries
  {
    !expandedOnly || m.entries[id].isExpanded
  }

  /** Every id met is present and at least as deep as the start. */
  lemma {:induction false} PreOrderBelow(m: NodeMap, id: string, b: bool)
    requires Layered(m)
    ensures forall x :: x in PreOrder(m, id, b) ==> x in m.entries && m.entries[x].depth >= m.entries[id].depth
    decreases Rank(m, id), 1, 0
  {
    if id in m.entries && Enters(m, id, b) {
      PreOrderFromBelow(m, id, b, 0);
    }
  }

  lemma {:induction false} PreOrderFromBelow(m: NodeMap, id: string, b: bool, i: nat)
    requires Layered(m) && id in m.entries && i <= |m.entries[id].childrenIds|
    ensures forall x :: x in PreOrderFrom(m, id, b, i) ==> x in m.entries && m.entries[x].depth > m.entries[id].depth
    decreases Rank(m, id), 0, |m.entries[id].childrenIds| - i
  {
    var cs := m.entries[id].childrenIds;
    if i < |cs| {
      PreOrderBelow(m, cs[i], b);
      PreOrderFromBelow(m, id, b, i + 1);
    }
  }

  /** An id met among the children's walks is met in the walk of one particular child. */
  lemma {:induction false} PreOrderFromWhich(m: NodeMap, id: string, b: bool, i: nat, x: string) returns (j: nat)
    requires Layered(m) && id in m.entries && i <= |m.entries[id].childrenIds|
    requires x in PreOrderFrom(m, id, b, i)
    ensures i <= j < |m.entries[id].childrenIds| && x in PreOrder(m, m.entries[id].childrenIds[j], b)
    decreases |m.entries[id].childrenIds| - i
  {
    var cs := m.entries[id].childrenIds;
    if x in PreOrder(m, cs[i], b) {
      j := i;
    } else {
      j := PreOrderFromWhich(m, id, b, i + 1, x);
    }
  }

  /** The walk of the `j`-th child is part of the children's walks from `i` on, for `i <= j`. */
  lemma {:induction false} PreOrderFromHas(m: NodeMap, id: string, b: bool, i: nat, j: nat)
    requires Layered(m) && id in m.entries && i <= j < |m.entries[id].childrenIds|
    ensures forall x :: x in PreOrder(m, m.entries[id].childrenIds[j], b) ==> x in PreOrderFrom(m, id, b, i)
    decreases j - i
  {
    if i < j {
      PreOrderFromHas(m, id, b, i + 1, j);
    }
  }

  /** The walk is closed under stepping to a present child of a node it enters. */
  lemma {:induction false} PreOrderClosed(m: NodeMap, id: string, b: bool, p: string, c: string)
    requires Layered(m)
    requires p in PreOrder(m, id, b)
    requires p in m.entries && Enters(m, p, b) && c in m.entries[p].childrenIds && c in m.entries
    ensures c in PreOrder(m, id, b)
    decreases Rank(m, id)
  {
    var cs := m.entries[id].childrenIds;
    if p == id {
      var k :| 0 <= k < |cs| && cs[k] == c;
      PreOrderFromHas(m, id, b, 0, k);
    } else {
      var j := PreOrderFromWhich(m, id, b, 0, p);
      PreOrderClosed(m, cs[j], b, p, c);
      PreOrderFromHas(m, id, b, 0, j);
    }
  }

  /**
   * Every element of `s` is present and has a parent that is present, entered
   * by the walk (expanded when `b`), and is in `earlier` or earlier in `s`.
   */
  ghost predicate Anchored(m: NodeMap, s: seq<string>, earlier: set<string>, b: bool)
  {
    forall j :: 0 <= j < |s| ==>
      && s[j] in m.entries
      && m.entries[s[j]].parentId.Some?
      && var q := m.entries[s[j]].parentId.value;
         && q in m.entries
         && Enters(m, q, b)
         && (q in earlier || q in s[..j])
  }

  lemma AnchoredConcat(m: NodeMap, s: seq<string>, t: seq<string>, earlier: set<string>, b: bool)
    requires Anchored(m, s, earlier, b)
    requires Anchored(m, t, earlier + (set x | x in s), b)
    ensures Anchored(m, s + t, earlier, b)
  {
    var st := s + t;
    forall j | 0 <= j < |s|
      ensures st[j] == s[j] && st[..j] == s[..j]
    {
    }
    forall j | |s| <= j < |st|
      ensures var q := m.entries[st[j]].parentId.value; q in earlier || q in st[..j]
    {
      var q := m.entries[st[j]].parentId.value;
      assert st[j] == t[j - |s|];
      if q in t[..j - |s|] {
        assert t[..j - |s|] == st[|s|..j];
      } else if q in s {
        assert s == st[..|s|];
      }
    }
  }

  lemma AnchoredWider(m: NodeMap, s: seq<string>, earlier: set<string>, wider: set<string>, b: bool)
    requires Anchored(m, s, earlier, b) && earlier <= wider
    ensures Anchored(m, s, wider, b)
  {
  }

  /** The walk from a child `c` of an entered node `q` is anchored at `q`. */
  lemma {:induction false} PreOrderAnchored(m: NodeMap, c: string, q: string, b: bool)
    requires Layered(m) && ChildrenPresent(m)
    requires c in m.entries && m.entries[c].parentId == Some(q) && q in m.entries && Enters(m, q, b)
    ensures Anchored(m, PreOrder(m, c, b), {q}, b)
    decreases Rank(m, c), 1
  {
    var s := PreOrder(m, c, b);
    assert Anchored(m, [c], {q}, b);
    if Enters(m, c, b) {
      PreOrderFromAnchored(m, c, b, 0);
      AnchoredWider(m, PreOrderFrom(m, c, b, 0), {c}, {q} + (set x | x in [c]), b);
      AnchoredConcat(m, [c], PreOrderFrom(m, c, b, 0), {q}, b);
    }
  }

  lemma {:induction false} PreOrderFromAnchored(m: NodeMap, id: string, b: bool, i: nat)
    requires Layered(m) && ChildrenPresent(m)
    requires id in m.entries && Enters(m, id, b) && i <= |m.entries[id].childrenIds|
    ensures Anchored(m, PreOrderFrom(m, id, b, i), {id}, b)
    decreases Rank(m, id), 0, |m.entries[id].childrenIds| - i
  {
    var cs := m.entries[id].childrenIds;
    if i < |cs| {
      PreOrderAnchored(m, cs[i], id, b);
      PreOrderFromAnchored(m, id, b, i + 1);
      var head := PreOrder(m, cs[i], b);
      AnchoredWider(m, PreOrderFrom(m, id, b, i + 1), {id}, {id} + (set x | x in head), b);
      AnchoredConcat(m, head, PreOrderFrom(m, id, b, i + 1), {id}, b);
    }
  }

  /**
   * Pre-order: every id after the first has its parent earlier in the walk,
   * and that parent is one the walk enters.
   */
  lemma ParentsEarlier(m: NodeMap, id: string, b: bool)
    requires Layered(m) && ChildrenPresent(m)
    ensures var s := PreOrder(m, id, b);
      forall j :: 0 < j < |s| ==>
        && s[j] in m.entries
        && m.entries[s[j]].parentId.Some?
        && var q := m.entries[s[j]].parentId.value;
           q in s[..j] && q in m.entries && Enters(m, q, b)
  {
    var s := PreOrder(m, id, b);
    if id in m.entries && Enters(m, id, b) {
      var t := PreOrderFrom(m, id, b, 0);
      PreOrderFromAnchored(m, id, b, 0);
      forall j | 0 < j < |s|
        ensures m.entries[s[j]].parentId.value in s[..j]
      {
        assert s[j] == t[j - 1];
        assert s[..j] == [id] + t[..j - 1];
      }
    }
  }

  /** Every id met by a walk from `a` has `a` on its path. */
  lemma {:induction false} PreOrderAncestor(m: NodeMap, a: string, b: bool, x: string)
    requires WellFormed(m)
    ensures Layered(m) && ParentsShallower(m)
    ensures x in PreOrder(m, a, b) ==> a in PathTo(m, x)
    decreases Rank(m, a)
  {
    WellFormedWalks(m);
    if x in PreOrder(m, a, b) {
      if x == a {
        PathLinks(m, x);
      } else {
        var cs := m.entries[a].childrenIds;
        assert Enters(m, a, b);
        var j := PreOrderFromWhich(m, a, b, 0, x);
        var c := cs[j];
        PreOrderAncestor(m, c, b, x);
        PreOrderBelow(m, c, b);
        assert c in m.entries[a].childrenIds;
        assert m.entries[c].parentId == Some(a);
        PathClosedUpward(m, x, c);
      }
    }
  }

  /** In a well-formed tree a walk meets no id twice. */
  lemma {:induction false} PreOrderDistinct(m: NodeMap, a: string, b: bool)
    requires WellFormed(m)
    ensures Layered(m)
    ensures Distinct(PreOrder(m, a, b))
    decreases Rank(m, a), 1, 0
  {
    WellFormedWalks(m);
    if a in m.entries && Enters(m, a, b) {
      var t := PreOrderFrom(m, a, b, 0);
      PreOrderFromDistinct(m, a, b, 0);
      PreOrderFromBelow(m, a, b, 0);
      assert a !in t;
      assert PreOrder(m, a, b) == [a] + t;
    }
  }

  lemma {:induction false} PreOrderFromDistinct(m: NodeMap, a: string, b: bool, i: nat)
    requires WellFormed(m) && a in m.entries && i <= |m.entries[a].childrenIds|
    ensures Layered(m)
    ensures Distinct(PreOrderFrom(m, a, b, i))
    decreases Rank(m, a), 0, |m.entries[a].childrenIds| - i
  {
    WellFormedWalks(m);
    var cs := m.entries[a].childrenIds;
    if i < |cs| {
      var head := PreOrder(m, cs[i], b);
      var rest := PreOrderFrom(m, a, b, i + 1);
      PreOrderDistinct(m, cs[i], b);
      PreOrderFromDistinct(m, a, b, i + 1);
      forall x | x in head
        ensures x !in rest
      {
        SiblingWalksApart(m, a, b, i, x);
      }
      DistinctConcat(head, rest);
    }
  }

  /** An id met in the walk of the `i`-th child is not met in the walks of the later children. */
  lemma SiblingWalksApart(m: NodeMap, a: string, b: bool, i: nat, x: string)
    requires WellFormed(m) && a in m.entries && i < |m.entries[a].childrenIds|
    requires Layered(m) && x in PreOrder(m, m.entries[a].childrenIds[i], b)
    ensures x !in PreOrderFrom(m, a, b, i + 1)
  {
    var cs := m.entries[a].childrenIds;
    if x in PreOrderFrom(m, a, b, i + 1) {
      var j := PreOrderFromWhich(m, a, b, i + 1, x);
      ChildAt(m, a, i);
      ChildAt(m, a, j);
      ChildrenApart(m, a, i, j);
      WalksMeetSameDepth(m, cs[i], cs[j], b, x);
      assert false;
    }
  }

  lemma ChildrenApart(m: NodeMap, a: string, i: nat, j: nat)
    requires ChildrenDistinct(m) && a in m.entries && i < j < |m.entries[a].childrenIds|
    ensures m.entries[a].childrenIds[i] != m.entries[a].childrenIds[j]
  {
    assert Distinct(m.entries[a].childrenIds);
  }

  /** Two nodes at one depth whose walks meet are the same node. */
  lemma WalksMeetSameDepth(m: NodeMap, c1: string, c2: string, b: bool, x: string)
    requires WellFormed(m) && c1 in m.entries && c2 in m.entries
    requires m.entries[c1].depth == m.entries[c2].depth
    requires Layered(m) && x in PreOrder(m, c1, b) && x in PreOrder(m, c2, b)
    ensures c1 == c2
  {
    WellFormedWalks(m);
    PreOrderAncestor(m, c1, b, x);
    PreOrderAncestor(m, c2, b, x);
    PreOrderBelow(m, c1, b);
    var path := PathTo(m, x);
    PathAtDepth(m, x, c1);
    PathAtDepth(m, x, c2);
  }
}
