/** `getPathToNode`: the chain of ancestors of a node, root first. */
module Paths {
  import opened TreeTypes
  import opened TreeShape

  /**
   * The path the source builds: the node's own id last, preceded by the path of
   * its parent while the parent id is truthy and present in the map.
   */
  function PathTo(m: NodeMap, id: string): (path: seq<string>)
    requires ParentsShallower(m)
    ensures path == [] <==> id !in m.entries
    ensures id in m.entries ==> |path| <= m.entries[id].depth + 1 && path[|path| - 1] == m.entries[id].id
    decreases if id in m.entries then m.entries[id].depth + 1 else 0
  {
    if id !in m.entries then []
    else
      var node := m.entries[id];
      (if Truthy(node.parentId) then PathTo(m, node.parentId.value) else []) + [node.id]
  }

  /** The `while (current)` loop with `unshift`, proved to build `PathTo`. */
  method GetPathToNode(m: NodeMap, nodeId: string) returns (path: seq<string>)
    requires ParentsShallower(m)
    ensures path == PathTo(m, nodeId)
  {
    path := [];
    ghost var key := nodeId;
    var current := m.Get(nodeId);
    while current.Some?
      invariant current.Some? ==> key in m.entries && current.value == m.entries[key]
      invariant PathTo(m, nodeId) == (if current.Some? then PathTo(m, key) else []) + path
      decreases if current.Some? then current.value.depth + 1 else 0
    {
      var node := current.value;
      ghost var up := if Truthy(node.parentId) then PathTo(m, node.parentId.value) else [];
      assert PathTo(m, key) == up + [node.id];
      ConcatAssoc(up, [node.id], path);
      path := [node.id] + path;
      if Truthy(node.parentId) {
        key := node.parentId.value;
        current := m.Get(node.parentId.value);
      } else {
        current := None;
      }
    }
  }

  /** Does the node stored under `k` have a parent the walk would step to? */
  ghost predicate HasPresentParent(m: NodeMap, k: string)
    requires k in m.entries
  {
    Truthy(m.entries[k].parentId) && m.entries[k].parentId.value in m.entries
  }

  /**
   * An absent id gives the empty path. Otherwise the path ends with the id,
   * every element is present and is the parent of the next one, and it starts at
   * a node whose parent the walk cannot follow.
   */
  lemma {:induction false} PathLinks(m: NodeMap, id: string)
    requires ParentsShallower(m) && IdsAreKeys(m)
    ensures var path := PathTo(m, id);
      && (path == [] <==> id !in m.entries)
      && (forall x :: x in path ==> x in m.entries)
      && (id in m.entries ==> path[|path| - 1] == id && !HasPresentParent(m, path[0]))
      && (forall i :: 0 <= i < |path| - 1 ==> m.entries[path[i + 1]].parentId == Some(path[i]))
    decreases if id in m.entries then m.entries[id].depth + 1 else 0
  {
    if id in m.entries {
      var node := m.entries[id];
      if HasPresentParent(m, id) {
        PathLinks(m, node.parentId.value);
        var up := PathTo(m, node.parentId.value);
        assert PathTo(m, id) == up + [id];
      } else {
        assert PathTo(m, id) == [id];
      }
    }
  }

  /** In a well-formed tree the path of a node at depth d has d + 1 entries, the k-th at depth k. */
  lemma {:induction false} PathDepths(m: NodeMap, id: string)
    requires WellFormed(m) && id in m.entries
    ensures ParentsShallower(m)
    ensures var path := PathTo(m, id);
      && |path| == m.entries[id].depth + 1
      && forall i :: 0 <= i < |path| ==> path[i] in m.entries && m.entries[path[i]].depth == i
    decreases m.entries[id].depth
  {
    WellFormedWalks(m);
    WellFormedTruthy(m, id);
    var node := m.entries[id];
    if node.parentId.Some? {
      assert ParentLink(m, id);
      PathDepths(m, node.parentId.value);
    } else {
      assert IsRoot(m, id);
    }
  }

  /** The root's path is the root alone. */
  lemma PathOfRoot(m: NodeMap, r: string)
    requires WellFormed(m) && IsRoot(m, r)
    ensures ParentsShallower(m)
    ensures PathTo(m, r) == [r]
  {
    WellFormedWalks(m);
  }

  /** A node on the path of `x` has the node at depth `depth(y)` of that path equal to itself. */
  lemma PathAtDepth(m: NodeMap, x: string, y: string)
    requires WellFormed(m) && x in m.entries
    ensures ParentsShallower(m)
    ensures y in PathTo(m, x) ==> y in m.entries && m.entries[y].depth < |PathTo(m, x)| && PathTo(m, x)[m.entries[y].depth] == y
  {
    PathDepths(m, x);
  }

  /** Following a parent link from a path member stays on the path. */
  lemma {:induction false} PathClosedUpward(m: NodeMap, x: string, y: string)
    requires WellFormed(m) && x in m.entries && y in m.entries && m.entries[y].parentId.Some?
    ensures ParentsShallower(m)
    ensures y in PathTo(m, x) ==> m.entries[y].parentId.value in PathTo(m, x)
    decreases m.entries[x].depth
  {
    WellFormedWalks(m);
    WellFormedTruthy(m, x);
    WellFormedTruthy(m, y);
    if y in PathTo(m, x) {
      var px := m.entries[x].parentId;
      if y == x {
        assert ParentLink(m, x);
        PathLinks(m, px.value);
      } else {
        assert px.Some?;
        assert ParentLink(m, x);
        PathClosedUpward(m, px.value, y);
      }
    }
  }

  /** A node with a parent has its parent's path followed by itself. */
  lemma PathOfChild(m: NodeMap, c: string)
    requires WellFormed(m) && c in m.entries && m.entries[c].parentId.Some?
    ensures ParentsShallower(m)
    ensures m.entries[c].parentId.value in m.entries
    ensures PathTo(m, c) == PathTo(m, m.entries[c].parentId.value) + [c]
  {
    WellFormedWalks(m);
    WellFormedTruthy(m, c);
    assert ParentLink(m, c);
  }

  /** An ancestor sits above its descendant, strictly unless it is the node itself. */
  lemma AncestorShallower(m: NodeMap, a: string, x: string)
    requires WellFormed(m) && x in m.entries
    ensures ParentsShallower(m)
    ensures a in PathTo(m, x) ==>
      && a in m.entries
      && m.entries[a].depth <= m.entries[x].depth
      && (a != x ==> m.entries[a].depth < m.entries[x].depth)
  {
    PathDepths(m, x);
    PathAtDepth(m, x, a);
    WellFormedWalks(m);
    PathLinks(m, x);
  }
}
