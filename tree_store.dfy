/**
 * The snapshot transformers behind the visualizer's handlers: each takes the
 * current id -> node map and returns the next one. The `TreeVisualizer` class
 * applies them in place; the lemmas here say what they change and that they keep
 * the store well formed.
 */
module TreeStore {
  import opened TreeTypes
  import opened TreeShape
  import opened Paths
  import opened Walks
  import opened Visibility
  import opened Descendants
  import opened Search

  /** Two records agree on everything the tree's structure depends on. */
  predicate SameLinks(a: TreeNode, b: TreeNode)
  {
    a.id == b.id && a.childrenIds == b.childrenIds && a.parentId == b.parentId && a.depth == b.depth
  }

  /** `r` differs from `m` at most in labels and expansion flags. */
  ghost predicate SameShape(m: NodeMap, r: NodeMap)
  {
    && r.keys == m.keys
    && (forall k :: k in r.entries <==> k in m.entries)
    && (forall k :: k in m.entries ==> k in r.entries && SameLinks(m.entries[k], r.entries[k]))
  }

  /** Changing only labels and expansion flags keeps a store well formed, with the same root. */
  lemma {:induction false} SameShapeWellFormed(m: NodeMap, r: NodeMap)
    requires WellFormed(m) && SameShape(m, r)
    ensures WellFormed(r)
    ensures forall x :: IsRoot(r, x) <==> IsRoot(m, x)
  {
    assert r.Valid();
    assert IdsAreKeys(r) && ChildrenDistinct(r) by {
      forall k | k in r.entries
        ensures r.entries[k].id == k && Distinct(r.entries[k].childrenIds)
      {
        assert SameLinks(m.entries[k], r.entries[k]);
      }
    }
    assert ChildrenPresent(r) by {
      forall k, c | k in r.entries && c in r.entries[k].childrenIds
        ensures c in r.entries && r.entries[c].parentId == Some(k)
      {
        assert SameLinks(m.entries[k], r.entries[k]);
        assert SameLinks(m.entries[c], r.entries[c]);
      }
    }
    assert ParentsLinked(r) by {
      forall k | k in r.entries && r.entries[k].parentId.Some?
        ensures ParentLink(r, k)
      {
        assert SameLinks(m.entries[k], r.entries[k]);
        assert ParentLink(m, k);
        var p := m.entries[k].parentId.value;
        assert SameLinks(m.entries[p], r.entries[p]);
      }
    }
    forall x
      ensures IsRoot(r, x) <==> IsRoot(m, x)
    {
      if x in m.entries {
        assert SameLinks(m.entries[x], r.entries[x]);
      }
    }
    var root :| IsRoot(m, root);
    assert IsRoot(r, root);
  }

  /** Changing only labels and expansion flags leaves every path as it was. */
  lemma {:induction false} SameShapePath(m: NodeMap, r: NodeMap, x: string)
    requires ParentsShallower(m) && SameShape(m, r)
    ensures ParentsShallower(r) && PathTo(r, x) == PathTo(m, x)
    decreases if x in m.entries then m.entries[x].depth + 1 else 0
  {
    assert ParentsShallower(r) by {
      forall k | k in r.entries && Truthy(r.entries[k].parentId) && r.entries[k].parentId.value in r.entries
        ensures r.entries[r.entries[k].parentId.value].depth < r.entries[k].depth
      {
        assert m.entries[k].parentId == r.entries[k].parentId;
      }
    }
    if x in m.entries {
      var node := m.entries[x];
      assert SameLinks(node, r.entries[x]);
      if Truthy(node.parentId) {
        SameShapePath(m, r, node.parentId.value);
      }
    }
  }

  /** `handleToggle`: flip the expansion of a present node; nothing else changes. */
  function Toggled(m: NodeMap, nodeId: string): (r: NodeMap)
    ensures r.keys == m.keys && r.entries.Keys == m.entries.Keys
    ensures forall k :: k in m.entries && k != nodeId ==> r.entries[k] == m.entries[k]
    ensures nodeId in m.entries ==>
      r.entries[nodeId] == m.entries[nodeId].(isExpanded := !m.entries[nodeId].isExpanded)
  {
    match m.Get(nodeId)
    case None => m
    case Some(node) => m.Set(nodeId, node.(isExpanded := !node.isExpanded))
  }

  /** Toggling twice restores the map. */
  lemma {:induction false} ToggleTwice(m: NodeMap, nodeId: string)
    ensures Toggled(Toggled(m, nodeId), nodeId) == m
  {
    var r := Toggled(Toggled(m, nodeId), nodeId);
    assert r.entries == m.entries;
  }

  /** Toggling keeps the store well formed, with the same root. */
  lemma ToggleWellFormed(m: NodeMap, nodeId: string)
    requires WellFormed(m)
    ensures WellFormed(Toggled(m, nodeId))
    ensures forall x :: IsRoot(Toggled(m, nodeId), x) <==> IsRoot(m, x)
  {
    SameShapeWellFormed(m, Toggled(m, nodeId));
  }

  /** `handleRenameNode`: a present node takes the new label verbatim; nothing else changes. */
  function Renamed(m: NodeMap, nodeId: string, newLabel: string): (r: NodeMap)
    ensures r.keys == m.keys && r.entries.Keys == m.entries.Keys
    ensures forall k :: k in m.entries && k != nodeId ==> r.entries[k] == m.entries[k]
    ensures nodeId in m.entries ==> r.entries[nodeId] == m.entries[nodeId].(labelText := newLabel)
  {
    match m.Get(nodeId)
    case None => m
    case Some(node) => m.Set(nodeId, node.(labelText := newLabel))
  }

  /** Renaming keeps the store well formed, with the same root. */
  lemma RenameWellFormed(m: NodeMap, nodeId: string, newLabel: string)
    requires WellFormed(m)
    ensures WellFormed(Renamed(m, nodeId, newLabel))
    ensures forall x :: IsRoot(Renamed(m, nodeId, newLabel), x) <==> IsRoot(m, x)
  {
    SameShapeWellFormed(m, Renamed(m, nodeId, newLabel));
  }

  /** The node `handleAddNode` creates: a collapsed leaf labelled "New Node". */
  function NewNode(newId: string, parentId: string, depth: nat): (n: TreeNode)
    ensures n.id == newId && n.labelText == "New Node" && n.parentId == Some(parentId) && n.depth == depth
    ensures n.childrenIds == [] && !n.isExpanded
  {
    TreeNode(newId, "New Node", [], Some(parentId), false, depth)
  }

  /**
   * `handleAddNode` with the fresh id given: the parent lists the new id last and
   * is expanded, then the new node is stored. An absent parent changes nothing.
   */
  function WithChild(m: NodeMap, parentId: string, newId: string): (r: NodeMap)
    ensures m.Valid() ==> r.Valid()
    ensures parentId !in m.entries ==> r == m
    ensures parentId in m.entries && newId !in m.entries ==>
      && r.keys == m.keys + [newId]
      && r.entries.Keys == m.entries.Keys + {newId}
      && r.entries[newId].parentId == Some(parentId)
      && r.entries[parentId].childrenIds == m.entries[parentId].childrenIds + [newId]
  {
    match m.Get(parentId)
    case None => m
    case Some(parent) =>
      m.Set(parentId, parent.(childrenIds := parent.childrenIds + [newId], isExpanded := true))
       .Set(newId, NewNode(newId, parentId, parent.depth + 1))
  }

  /**
   * Adding under a present parent with a fresh id: the map grows by exactly the
   * new node, whose key goes last; the parent gains the child and is expanded;
   * every other entry is unchanged.
   */
  lemma AddEffect(m: NodeMap, parentId: string, newId: string)
    requires m.Valid() && newId !in m.entries
    ensures parentId !in m.entries ==> WithChild(m, parentId, newId) == m
    ensures parentId in m.entries ==>
      var r := WithChild(m, parentId, newId);
      var parent := m.entries[parentId];
      && r.Valid()
      && r.keys == m.keys + [newId]
      && r.entries.Keys == m.entries.Keys + {newId}
      && |r.entries| == |m.entries| + 1
      && r.entries[newId] == NewNode(newId, parentId, parent.depth + 1)
      && r.entries[parentId] == parent.(childrenIds := parent.childrenIds + [newId], isExpanded := true)
      && forall k :: k in m.entries && k != parentId ==> r.entries[k] == m.entries[k]
  {
    if parentId in m.entries {
      var r := WithChild(m, parentId, newId);
      assert r.entries.Keys == m.entries.Keys + {newId};
    }
  }

  /** What adding `newId` under the present `parentId` does to the entries of `m`. */
  ghost predicate AddedTo(m: NodeMap, r: NodeMap, parentId: string, newId: string)
    requires parentId in m.entries
  {
    var parent := m.entries[parentId];
    && r.Valid()
    && r.entries.Keys == m.entries.Keys + {newId}
    && r.entries[newId] == NewNode(newId, parentId, parent.depth + 1)
    && r.entries[parentId] == parent.(childrenIds := parent.childrenIds + [newId], isExpanded := true)
    && forall k :: k in m.entries && k != parentId ==> r.entries[k] == m.entries[k]
  }

  lemma {:induction false} AddedLinks(m: NodeMap, r: NodeMap, parentId: string, newId: string)
    requires WellFormed(m) && newId !in m.entries && newId != "" && parentId in m.entries
    requires AddedTo(m, r, parentId, newId)
    ensures "" !in r.entries && IdsAreKeys(r) && ChildrenDistinct(r) && ChildrenPresent(r)
  {
    var parent := m.entries[parentId];
    assert newId !in parent.childrenIds by {
      if newId in parent.childrenIds {
        ChildLinked(m, parentId, newId);
      }
    }
    DistinctConcat(parent.childrenIds, [newId]);
    forall k | k in r.entries
      ensures r.entries[k].id == k && Distinct(r.entries[k].childrenIds)
    {
    }
    forall k, c | k in r.entries && c in r.entries[k].childrenIds
      ensures c in r.entries && r.entries[c].parentId == Some(k)
    {
      AddedChildLinked(m, r, parentId, newId, k, c);
    }
  }

  /** After the add, every listed child is present and names its lister. */
  lemma AddedChildLinked(m: NodeMap, r: NodeMap, parentId: string, newId: string, k: string, c: string)
    requires WellFormed(m) && newId !in m.entries && parentId in m.entries
    requires AddedTo(m, r, parentId, newId)
    requires k in r.entries && c in r.entries[k].childrenIds
    ensures c in r.entries && r.entries[c].parentId == Some(k)
  {
    if k != newId && c != newId {
      assert c in m.entries[k].childrenIds;
      ChildLinked(m, k, c);
    }
  }

  lemma {:induction false} AddedParents(m: NodeMap, r: NodeMap, parentId: string, newId: string)
    requires WellFormed(m) && newId !in m.entries && parentId in m.entries
    requires AddedTo(m, r, parentId, newId)
    ensures ParentsLinked(r) && SingleRoot(r)
    ensures forall x :: IsRoot(r, x) <==> IsRoot(m, x)
  {
    forall k | k in r.entries && r.entries[k].parentId.Some?
      ensures ParentLink(r, k)
    {
      if k != newId {
        assert ParentLink(m, k);
      }
    }
    forall x
      ensures IsRoot(r, x) <==> IsRoot(m, x)
    {
    }
    var root :| IsRoot(m, root);
    assert IsRoot(r, root);
  }

  /** Adding a child with a fresh, non-empty id keeps the store well formed, with the same root. */
  lemma {:induction false} AddWellFormed(m: NodeMap, parentId: string, newId: string)
    requires WellFormed(m) && newId !in m.entries && newId != ""
    ensures WellFormed(WithChild(m, parentId, newId))
    ensures forall x :: IsRoot(WithChild(m, parentId, newId), x) <==> IsRoot(m, x)
  {
    AddEffect(m, parentId, newId);
    if parentId in m.entries {
      var r := WithChild(m, parentId, newId);
      assert AddedTo(m, r, parentId, newId);
      AddedLinks(m, r, parentId, newId);
      AddedParents(m, r, parentId, newId);
    }
  }

  /**
   * `handleDeleteNode`: nothing happens to an absent node or to one whose parent
   * id is falsy (the root). Otherwise the node and everything `getDescendants`
   * reaches below it leave the map, and the former parent drops the id from its
   * children.
   */
  function Deleted(m: NodeMap, nodeId: string): (r: NodeMap)
    requires Layered(m)
    ensures m.Valid() ==> r.Valid()
    ensures r.entries.Keys <= m.entries.Keys
    ensures nodeId !in m.entries || !Truthy(m.entries[nodeId].parentId) ==> r == m
    ensures nodeId in m.entries && Truthy(m.entries[nodeId].parentId) ==> nodeId !in r.entries
  {
    match m.Get(nodeId)
    case None => m
    case Some(node) =>
      if !Truthy(node.parentId) then m
      else
        var rest := m.DeleteAll(Elems(Subtree(m, nodeId)));
        var p := node.parentId.value;
        match rest.Get(p)
        case None => rest
        case Some(parent) => rest.Set(p, parent.(childrenIds := Without(parent.childrenIds, {nodeId})))
  }

  /** `k` is present and `nodeId` is not on its path: the delete keeps it. */
  ghost predicate Kept(m: NodeMap, nodeId: string, k: string)
    requires ParentsShallower(m)
  {
    k in m.entries && nodeId !in PathTo(m, k)
  }

  /** What deleting `nodeId`, whose parent is `p`, does to the entries of `m`. */
  ghost predicate DeletedFrom(m: NodeMap, r: NodeMap, nodeId: string, p: string)
    requires ParentsShallower(m) && p in m.entries
  {
    && r.Valid()
    && (forall k :: k in r.entries <==> Kept(m, nodeId, k))
    && p in r.entries
    && r.entries[p] == m.entries[p].(childrenIds := Without(m.entries[p].childrenIds, {nodeId}))
    && (forall k :: k in r.entries && k != p ==> r.entries[k] == m.entries[k])
  }

  /**
   * Deleting from a well-formed store: an absent node or the root leaves it as it
   * was; otherwise exactly the node and its descendants (the nodes with it on
   * their path) go, the others keep their order, and only the former parent's
   * record changes, losing the id from its children.
   */
  lemma {:induction false} DeleteEffect(m: NodeMap, nodeId: string)
    requires WellFormed(m)
    ensures Layered(m) && ParentsShallower(m)
    ensures nodeId !in m.entries || m.entries[nodeId].parentId.None? ==> Deleted(m, nodeId) == m
    ensures nodeId in m.entries && m.entries[nodeId].parentId.Some? ==>
      var p := m.entries[nodeId].parentId.value;
      && p in m.entries
      && DeletedFrom(m, Deleted(m, nodeId), nodeId, p)
      && Deleted(m, nodeId).keys == Without(m.keys, Elems(Subtree(m, nodeId)))
  {
    WellFormedWalks(m);
    if nodeId in m.entries {
      WellFormedTruthy(m, nodeId);
      var node := m.entries[nodeId];
      if node.parentId.Some? {
        DeletedKeys(m, nodeId);
        var r := Deleted(m, nodeId);
        forall k
          ensures k in r.entries <==> Kept(m, nodeId, k)
        {
          SubtreeIsAncestry(m, nodeId, k);
        }
      }
    }
  }
  /**
   * Deleting keeps the order of what stays: the remaining keys keep their
   * relative order, and so do the former parent's remaining children.
   */
  lemma DeleteKeepsOrder(m: NodeMap, nodeId: string)
    requires WellFormed(m)
    ensures Layered(m)
    ensures InOrderOf(m.keys, Deleted(m, nodeId).keys)
    ensures nodeId in m.entries && m.entries[nodeId].parentId.Some? ==>
      var p := m.entries[nodeId].parentId.value;
      && p in m.entries && p in Deleted(m, nodeId).entries
      && InOrderOf(m.entries[p].childrenIds, Deleted(m, nodeId).entries[p].childrenIds)
  {
    DeleteEffect(m, nodeId);
    if nodeId in m.entries && m.entries[nodeId].parentId.Some? {
      var p := m.entries[nodeId].parentId.value;
      WithoutInOrder(m.keys, Elems(Subtree(m, nodeId)));
      WithoutInOrder(m.entries[p].childrenIds, {nodeId});
    } else {
      forall i, j | 0 <= i < j < |m.keys|
        ensures IndexOf(m.keys, m.keys[i]) < IndexOf(m.keys, m.keys[j])
      {
        IndexOfAt(m.keys, i);
        IndexOfAt(m.keys, j);
      }
    }
  }


  /** `r` is what deleting `nodeId`, a child of `p`, does to the well-formed `m`. */
  ghost predicate Deleting(m: NodeMap, r: NodeMap, nodeId: string, p: string)
  {
    && WellFormed(m) && nodeId in m.entries && m.entries[nodeId].parentId == Some(p)
    && ParentsShallower(m) && p in m.entries && DeletedFrom(m, r, nodeId, p)
  }

  lemma {:induction false} DeletedLinks(m: NodeMap, r: NodeMap, nodeId: string, p: string)
    requires Deleting(m, r, nodeId, p)
    ensures "" !in r.entries && IdsAreKeys(r) && ChildrenDistinct(r) && ChildrenPresent(r)
  {
    DeletedRecords(m, r, nodeId, p);
    DeletedChildren(m, r, nodeId, p);
  }

  /** Every child still listed after the delete is present and names its lister. */
  lemma DeletedChildren(m: NodeMap, r: NodeMap, nodeId: string, p: string)
    requires Deleting(m, r, nodeId, p)
    ensures ChildrenPresent(r)
  {
    forall k | k in r.entries
      ensures forall c :: c in r.entries[k].childrenIds ==> c in r.entries && r.entries[c].parentId == Some(k)
    {
      DeletedChildrenOf(m, r, nodeId, p, k);
    }
  }

  /** The children the delete leaves listed under `k` are present and name `k`. */
  lemma DeletedChildrenOf(m: NodeMap, r: NodeMap, nodeId: string, p: string, k: string)
    requires Deleting(m, r, nodeId, p) && k in r.entries
    ensures forall c :: c in r.entries[k].childrenIds ==> c in r.entries && r.entries[c].parentId == Some(k)
  {
    forall c | c in r.entries[k].childrenIds
      ensures c in r.entries && r.entries[c].parentId == Some(k)
    {
      DeletedChildStays(m, r, nodeId, p, k, c);
    }
  }

  /** The records left by the delete are stored under their ids and list no child twice. */
  lemma DeletedRecords(m: NodeMap, r: NodeMap, nodeId: string, p: string)
    requires Deleting(m, r, nodeId, p)
    ensures "" !in r.entries && IdsAreKeys(r) && ChildrenDistinct(r)
  {
    forall k | k in r.entries
      ensures r.entries[k].id == k && Distinct(r.entries[k].childrenIds)
    {
    }
  }

  /** A child still listed after the delete was not deleted, and still names its parent. */
  lemma DeletedChildStays(m: NodeMap, r: NodeMap, nodeId: string, p: string, k: string, c: string)
    requires Deleting(m, r, nodeId, p)
    requires k in r.entries && c in r.entries[k].childrenIds
    ensures c in r.entries && r.entries[c].parentId == Some(k)
  {
    assert c in m.entries[k].childrenIds;
    ChildLinked(m, k, c);
    PathOfChild(m, c);
    assert c != nodeId;
    assert Kept(m, nodeId, c);
  }

  lemma {:induction false} DeletedParents(m: NodeMap, r: NodeMap, nodeId: string, p: string)
    requires Deleting(m, r, nodeId, p)
    ensures ParentsLinked(r) && SingleRoot(r)
    ensures forall x :: IsRoot(r, x) <==> IsRoot(m, x)
  {
    forall k | k in r.entries && r.entries[k].parentId.Some?
      ensures ParentLink(r, k)
    {
      DeletedParentStays(m, r, nodeId, p, k);
    }
    DeletedRoots(m, r, nodeId, p);
  }

  /** A node kept by the delete keeps its link to its parent. */
  lemma DeletedParentStays(m: NodeMap, r: NodeMap, nodeId: string, p: string, k: string)
    requires Deleting(m, r, nodeId, p)
    requires k in r.entries && r.entries[k].parentId.Some?
    ensures ParentLink(r, k)
  {
    assert ParentLink(m, k);
    PathOfChild(m, k);
    assert k != nodeId;
  }

  /** The delete keeps the root and makes no new one. */
  lemma DeletedRoots(m: NodeMap, r: NodeMap, nodeId: string, p: string)
    requires Deleting(m, r, nodeId, p)
    ensures SingleRoot(r)
    ensures forall x :: IsRoot(r, x) <==> IsRoot(m, x)
  {
    forall x
      ensures IsRoot(r, x) <==> IsRoot(m, x)
    {
      if IsRoot(m, x) {
        PathOfRoot(m, x);
        assert x != nodeId && Kept(m, nodeId, x);
      } else if x in r.entries {
        assert Kept(m, nodeId, x);
        assert r.entries[x].parentId == m.entries[x].parentId;
      }
    }
  }

  /** Deleting keeps the store well formed, with the same root. */
  lemma {:induction false} DeleteWellFormed(m: NodeMap, nodeId: string)
    requires WellFormed(m)
    ensures Layered(m)
    ensures WellFormed(Deleted(m, nodeId))
    ensures forall x :: IsRoot(Deleted(m, nodeId), x) <==> IsRoot(m, x)
  {
    DeleteEffect(m, nodeId);
    if nodeId in m.entries && m.entries[nodeId].parentId.Some? {
      var p := m.entries[nodeId].parentId.value;
      var r := Deleted(m, nodeId);
      DeletedLinks(m, r, nodeId, p);
      DeletedParents(m, r, nodeId, p);
    }
  }

  lemma CardMinus<T>(a: set<T>, b: set<T>)
    requires b <= a
    ensures |a - b| == |a| - |b|
  {
    assert a == (a - b) + b;
  }

  /** Deleting a non-root node removes the node and the `countDescendants` nodes below it. */
  lemma {:induction false} DeleteCount(m: NodeMap, nodeId: string)
    requires WellFormed(m) && nodeId in m.entries && m.entries[nodeId].parentId.Some?
    ensures Layered(m)
    ensures |Deleted(m, nodeId).entries| == |m.entries| - CountOf(m, nodeId) - 1
  {
    WellFormedWalks(m);
    var sub := Subtree(m, nodeId);
    var gone := Elems(sub);
    assert |gone| == CountOf(m, nodeId) + 1 by {
      PreOrderDistinct(m, nodeId, false);
      DistinctCard(sub);
      CountIsSubtreeSize(m, nodeId);
    }
    assert gone <= m.entries.Keys by {
      PreOrderBelow(m, nodeId, false);
    }
    DeletedKeys(m, nodeId);
    CardMinus(m.entries.Keys, gone);
  }

  /** Deleting a non-root node leaves exactly the keys outside its subtree. */
  lemma DeletedKeys(m: NodeMap, nodeId: string)
    requires WellFormed(m) && nodeId in m.entries && m.entries[nodeId].parentId.Some?
    ensures Layered(m)
    ensures m.entries[nodeId].parentId.value in m.entries.Keys - Elems(Subtree(m, nodeId))
    ensures Deleted(m, nodeId).entries.Keys == m.entries.Keys - Elems(Subtree(m, nodeId))
  {
    WellFormedWalks(m);
    WellFormedTruthy(m, nodeId);
    var p := m.entries[nodeId].parentId.value;
    assert ParentLink(m, nodeId);
    SubtreeIsAncestry(m, nodeId, p);
    AncestorShallower(m, nodeId, p);
  }

  /** One step of the auto-expand loop: a present, collapsed node is expanded. */
  function ExpandOne(m: NodeMap, id: string): (r: NodeMap)
    ensures r.keys == m.keys && r.entries.Keys == m.entries.Keys
    ensures id in m.entries ==> r.entries[id] == m.entries[id].(isExpanded := true)
    ensures forall k :: k in m.entries && k != id ==> r.entries[k] == m.entries[k]
  {
    match m.Get(id)
    case Some(node) => if !node.isExpanded then m.Set(id, node.(isExpanded := true)) else m
    case None => m
  }

  /**
   * The auto-expand loop over `path`: afterwards every present id of the path is
   * expanded, nothing is collapsed, and nothing but expansion flags changes.
   */
  function ExpandedAlong(m: NodeMap, path: seq<string>): (r: NodeMap)
    ensures r.keys == m.keys && r.entries.Keys == m.entries.Keys
    ensures forall k :: k in m.entries ==> r.entries[k] == m.entries[k].(isExpanded := r.entries[k].isExpanded)
    ensures forall k :: k in m.entries && m.entries[k].isExpanded ==> r.entries[k].isExpanded
    ensures forall k :: k in path && k in m.entries ==> r.entries[k].isExpanded
    ensures forall k :: k in m.entries && k !in path ==> r.entries[k] == m.entries[k]
    decreases |path|
  {
    if path == [] then m
    else ExpandOne(ExpandedAlong(m, path[..|path| - 1]), path[|path| - 1])
  }

  /** Expanding along a path changes only expansion flags. */
  lemma ExpandedShape(m: NodeMap, path: seq<string>)
    ensures SameShape(m, ExpandedAlong(m, path))
    ensures m.Valid() ==> ExpandedAlong(m, path).Valid()
  {
  }

  /** When every present id of the path is already expanded, the map comes back unchanged. */
  lemma {:induction false} ExpandNothing(m: NodeMap, path: seq<string>)
    requires forall k :: k in path && k in m.entries ==> m.entries[k].isExpanded
    ensures ExpandedAlong(m, path) == m
    decreases |path|
  {
    if path != [] {
      var init := path[..|path| - 1];
      assert forall k :: k in init ==> k in path;
      ExpandNothing(m, init);
    }
  }

  /** Expanding along the same path twice is expanding once. */
  lemma ExpandTwice(m: NodeMap, path: seq<string>)
    ensures ExpandedAlong(ExpandedAlong(m, path), path) == ExpandedAlong(m, path)
  {
    ExpandNothing(ExpandedAlong(m, path), path);
  }

  /**
   * The auto-expand effect: when the current match index is within the matches of
   * the query, every node on the path to that match is expanded; otherwise
   * nothing changes.
   */
  function AutoExpanded(m: NodeMap, query: string, index: nat): (r: NodeMap)
    requires m.Valid() && ParentsShallower(m)
    ensures r.keys == m.keys && r.entries.Keys == m.entries.Keys
    ensures forall k :: k in m.entries ==> r.entries[k] == m.entries[k].(isExpanded := r.entries[k].isExpanded)
    ensures forall k :: k in m.entries && m.entries[k].isExpanded ==> r.entries[k].isExpanded
    ensures index >= |SearchResult(m, query)| ==> r == m
    ensures index < |SearchResult(m, query)| ==>
      forall k :: k in PathTo(m, SearchResult(m, query)[index]) && k in m.entries ==> r.entries[k].isExpanded
  {
    var matches := SearchResult(m, query);
    if |matches| > 0 && index < |matches| then ExpandedAlong(m, PathTo(m, matches[index])) else m
  }

  /** Auto-expanding is idempotent: run again on its own result it changes nothing. */
  lemma {:induction false} AutoExpandTwice(m: NodeMap, query: string, index: nat)
    requires m.Valid() && ParentsShallower(m)
    ensures var r := AutoExpanded(m, query, index);
      && r.Valid() && ParentsShallower(r) && SameShape(m, r)
      && AutoExpanded(r, query, index) == r
  {
    var r := AutoExpanded(m, query, index);
    var matches := SearchResult(m, query);
    if |matches| > 0 && index < |matches| {
      var x := matches[index];
      var path := PathTo(m, x);
      ExpandedShape(m, path);
      SameShapePath(m, r, x);
      ExpandTwice(m, path);
    }
    SameShapePath(m, r, "");
    SearchSameLabels(m, r, query);
  }

  /** On a well-formed store, auto-expanding keeps it well formed, with the same root. */
  lemma {:induction false} AutoExpandWellFormed(m: NodeMap, query: string, index: nat)
    requires WellFormed(m)
    ensures ParentsShallower(m)
    ensures WellFormed(AutoExpanded(m, query, index))
    ensures forall x :: IsRoot(AutoExpanded(m, query, index), x) <==> IsRoot(m, x)
  {
    WellFormedWalks(m);
    AutoExpandTwice(m, query, index);
    SameShapeWellFormed(m, AutoExpanded(m, query, index));
  }

  /** Expanding along the path of a present node expands every proper ancestor of it. */
  lemma {:induction false} ExpandedPathAncestors(m: NodeMap, x: string)
    requires ParentsShallower(m) && IdsAreKeys(m) && x in m.entries
    ensures ParentsShallower(ExpandedAlong(m, PathTo(m, x)))
    ensures AncestorsExpanded(ExpandedAlong(m, PathTo(m, x)), x)
  {
    var path := PathTo(m, x);
    var r := ExpandedAlong(m, path);
    ExpandedShape(m, path);
    SameShapePath(m, r, x);
    PathLinks(m, x);
  }

  /** Auto-expanding makes the current match visible from the root. */
  lemma {:induction false} AutoExpandShowsMatch(m: NodeMap, query: string, index: nat, root: string)
    requires WellFormed(m) && IsRoot(m, root)
    ensures ParentsShallower(m) && Layered(AutoExpanded(m, query, index))
    ensures var matches := SearchResult(m, query);
      |matches| > 0 && index < |matches| ==> matches[index] in VisibleIds(AutoExpanded(m, query, index), root)
  {
    AutoExpandWellFormed(m, query, index);
    var r := AutoExpanded(m, query, index);
    WellFormedWalks(r);
    var matches := SearchResult(m, query);
    if |matches| > 0 && index < |matches| {
      var x := matches[index];
      SearchExactly(m, query);
      ExpandedPathAncestors(m, x);
      VisibleIffAncestorsExpanded(r, root, x);
    }
  }
}
