/**
 * The visualizer's state and its handlers. Each React state cell is a field;
 * each handler is a method that reassigns the fields the source's setters
 * update. A store update passed to `setTreeNodes` as a function of the
 * previous map is a method on map values here, proved to produce the map the
 * TreeStore functions describe; the class methods apply it and keep the store
 * well formed.
 */
module Visualizer {
  import opened TreeTypes
  import opened TreeShape
  import opened Paths
  import opened Walks
  import opened Visibility
  import opened Descendants
  import opened JsText
  import opened Search
  import opened Flatten
  import opened TreeStore
  import opened Navigation
  import opened LayoutEngine

  /** The store is well formed with `RootId` as its root (so both walks terminate). */
  ghost predicate Sound(m: NodeMap)
  {
    && WellFormed(m)
    && IsRoot(m, RootId)
    && Layered(m)
    && ParentsShallower(m)
  }

  /** A seed the visualizer can start from: unique non-empty ids, rooted at `RootId`. */
  ghost predicate Startable(seed: TreeNodeData)
  {
    ValidSeed(seed) && seed.id == RootId
  }

  lemma InitialStartable()
    ensures Startable(InitialTreeData)
  {
    InitialSeedValid();
  }

  lemma SeedSound(seed: TreeNodeData)
    requires Startable(seed)
    ensures Sound(Flatten.Flatten(seed, None, 0))
  {
    FlattenWellFormed(seed);
    WellFormedWalks(Flatten.Flatten(seed, None, 0));
  }

  /** The `handleToggle` update of the previous map. */
  method ToggleUpdate(prev: NodeMap, nodeId: string) returns (newMap: NodeMap)
    ensures newMap == Toggled(prev, nodeId)
  {
    newMap := prev;
    var node := newMap.Get(nodeId);
    if node.Some? {
      newMap := newMap.Set(nodeId, node.value.(isExpanded := !node.value.isExpanded));
    }
  }

  /** The `handleAddNode` update of the previous map, with the generated id passed in. */
  method AddUpdate(prev: NodeMap, parentId: string, newId: string) returns (newMap: NodeMap)
    ensures newMap == WithChild(prev, parentId, newId)
  {
    newMap := prev;
    var parentNode := newMap.Get(parentId);
    if parentNode.Some? {
      var parent := parentNode.value;
      var newNode := TreeNode(newId, "New Node", [], Some(parentId), false, parent.depth + 1);
      var updatedParent := parent.(childrenIds := parent.childrenIds + [newId], isExpanded := true);
      newMap := newMap.Set(parentId, updatedParent);
      newMap := newMap.Set(newId, newNode);
    }
  }

  /**
   * The `handleDeleteNode` update: collect the subtree with `getDescendants`,
   * delete each collected id (in any order), then drop the id from the former
   * parent's children.
   */
  method DeleteUpdate(prev: NodeMap, nodeId: string) returns (newMap: NodeMap)
    requires Layered(prev)
    ensures newMap == Deleted(prev, nodeId)
  {
    var nodeToDelete := prev.Get(nodeId);
    if nodeToDelete.None? || !Truthy(nodeToDelete.value.parentId) {
      return prev;
    }
    newMap := prev;
    var nodesToRemove := CollectDescendants(newMap, nodeId, {});
    var remaining := nodesToRemove;
    prev.DeleteNone();
    assert nodesToRemove - remaining == {};
    while remaining != {}
      invariant remaining <= nodesToRemove
      invariant newMap == prev.DeleteAll(nodesToRemove - remaining)
      decreases remaining
    {
      var id :| id in remaining;
      prev.DeleteAllStep(nodesToRemove - remaining, id);
      assert (nodesToRemove - remaining) + {id} == nodesToRemove - (remaining - {id});
      newMap := newMap.Delete(id);
      remaining := remaining - {id};
    }
    assert nodesToRemove - remaining == Elems(Subtree(prev, nodeId));
    var parentId := nodeToDelete.value.parentId.value;
    var parentNode := newMap.Get(parentId);
    if parentNode.Some? {
      newMap := newMap.Set(parentId, parentNode.value.(childrenIds := Without(parentNode.value.childrenIds, {nodeId})));
    }
  }

  /** The `handleRenameNode` update of the previous map. */
  method RenameUpdate(prev: NodeMap, nodeId: string, newLabel: string) returns (newMap: NodeMap)
    ensures newMap == Renamed(prev, nodeId, newLabel)
  {
    newMap := prev;
    var node := newMap.Get(nodeId);
    if node.Some? {
      newMap := newMap.Set(nodeId, node.value.(labelText := newLabel));
    }
  }

  /**
   * The auto-expand update: expand each collapsed node of `path`, and return the
   * previous map itself when nothing changed.
   */
  method ExpandUpdate(prev: NodeMap, path: seq<string>) returns (result: NodeMap)
    ensures result == ExpandedAlong(prev, path)
  {
    var newMap := prev;
    var changed := false;
    for i := 0 to |path|
      invariant newMap == ExpandedAlong(prev, path[..i])
      invariant !changed ==> newMap == prev
    {
      assert path[..i + 1][..i] == path[..i];
      var node := newMap.Get(path[i]);
      if node.Some? && !node.value.isExpanded {
        newMap := newMap.Set(path[i], node.value.(isExpanded := true));
        changed := true;
      }
    }
    assert path[..|path|] == path;
    result := if changed then newMap else prev;
  }

  lemma ToggleSound(m: NodeMap, nodeId: string)
    requires Sound(m)
    ensures Sound(Toggled(m, nodeId))
  {
    ToggleWellFormed(m, nodeId);
    WellFormedWalks(Toggled(m, nodeId));
  }

  lemma AddSound(m: NodeMap, parentId: string, newId: string)
    requires Sound(m) && newId !in m.entries && newId != ""
    ensures Sound(WithChild(m, parentId, newId))
  {
    AddWellFormed(m, parentId, newId);
    WellFormedWalks(WithChild(m, parentId, newId));
  }

  lemma DeleteSound(m: NodeMap, nodeId: string)
    requires Sound(m)
    ensures Sound(Deleted(m, nodeId))
  {
    DeleteWellFormed(m, nodeId);
    WellFormedWalks(Deleted(m, nodeId));
  }

  lemma RenameSound(m: NodeMap, nodeId: string, newLabel: string)
    requires Sound(m)
    ensures Sound(Renamed(m, nodeId, newLabel))
  {
    RenameWellFormed(m, nodeId, newLabel);
    WellFormedWalks(Renamed(m, nodeId, newLabel));
  }

  /**
   * The auto-expand effect's update: when the index picks a match, expand along
   * the path `getPathToNode` gives for it; otherwise keep the map.
   */
  method AutoExpandUpdate(prev: NodeMap, query: string, index: nat) returns (newMap: NodeMap)
    requires prev.Valid() && ParentsShallower(prev)
    ensures newMap == AutoExpanded(prev, query, index)
  {
    newMap := prev;
    var searchMatches := SearchNodes(prev, query);
    if |searchMatches| > 0 && index < |searchMatches| {
      var matchId := searchMatches[index];
      var path := GetPathToNode(prev, matchId);
      newMap := ExpandUpdate(prev, path);
    }
  }

  lemma AutoExpandSound(m: NodeMap, query: string, index: nat)
    requires Sound(m)
    ensures Sound(AutoExpanded(m, query, index))
  {
    AutoExpandWellFormed(m, query, index);
    WellFormedWalks(AutoExpanded(m, query, index));
  }

  class TreeVisualizer {
    /** The seed the view starts from and resets to (`initialTreeData`). */
    const initialData: TreeNodeData
    var treeNodes: NodeMap
    var hoveredNodeId: Option<string>
    var selectedNodeId: Option<string>
    var searchQuery: string
    var currentMatchIndex: nat

    ghost predicate Valid()
      reads this
    {
      Startable(initialData) && Sound(treeNodes)
    }

    /** The initial state: the flattened seed, no hover, no selection, an empty query, index 0. */
    constructor (seed: TreeNodeData)
      requires Startable(seed)
      ensures Valid() && initialData == seed
      ensures treeNodes == Flatten.Flatten(seed, None, 0)
      ensures hoveredNodeId == None && selectedNodeId == None
      ensures searchQuery == "" && currentMatchIndex == 0
    {
      var m := FlattenTreeData(seed, None, 0);
      SeedSound(seed);
      initialData := seed;
      treeNodes := m;
      hoveredNodeId := None;
      selectedNodeId := None;
      searchQuery := "";
      currentMatchIndex := 0;
    }

    /** `handleToggle`. */
    method HandleToggle(nodeId: string)
      requires Valid()
      modifies this
      ensures Valid()
      ensures treeNodes == Toggled(old(treeNodes), nodeId)
      ensures hoveredNodeId == old(hoveredNodeId) && selectedNodeId == old(selectedNodeId)
      ensures searchQuery == old(searchQuery) && currentMatchIndex == old(currentMatchIndex)
    {
      ToggleSound(treeNodes, nodeId);
      treeNodes := ToggleUpdate(treeNodes, nodeId);
    }

    /** `handleAddNode`, with the generated id passed in: it must be new and non-empty. */
    method HandleAddNode(parentId: string, newId: string)
      requires Valid() && newId !in treeNodes.entries && newId != ""
      modifies this
      ensures Valid()
      ensures treeNodes == WithChild(old(treeNodes), parentId, newId)
      ensures hoveredNodeId == old(hoveredNodeId) && selectedNodeId == old(selectedNodeId)
      ensures searchQuery == old(searchQuery) && currentMatchIndex == old(currentMatchIndex)
    {
      AddSound(treeNodes, parentId, newId);
      treeNodes := AddUpdate(treeNodes, parentId, newId);
    }

    /** `handleDeleteNode`. */
    method HandleDeleteNode(nodeId: string)
      requires Valid()
      modifies this
      ensures Valid()
      ensures treeNodes == Deleted(old(treeNodes), nodeId)
      ensures hoveredNodeId == old(hoveredNodeId) && selectedNodeId == old(selectedNodeId)
      ensures searchQuery == old(searchQuery) && currentMatchIndex == old(currentMatchIndex)
    {
      DeleteSound(treeNodes, nodeId);
      treeNodes := DeleteUpdate(treeNodes, nodeId);
    }

    /** `handleRenameNode`: the label is replaced verbatim. */
    method HandleRenameNode(nodeId: string, newLabel: string)
      requires Valid()
      modifies this
      ensures Valid()
      ensures treeNodes == Renamed(old(treeNodes), nodeId, newLabel)
      ensures hoveredNodeId == old(hoveredNodeId) && selectedNodeId == old(selectedNodeId)
      ensures searchQuery == old(searchQuery) && currentMatchIndex == old(currentMatchIndex)
    {
      RenameSound(treeNodes, nodeId, newLabel);
      treeNodes := RenameUpdate(treeNodes, nodeId, newLabel);
    }

    /**
     * The rename dialog's submit: a name that trims to nothing is refused and the
     * dialog stays open; any other name, untrimmed, is sent to `HandleRenameNode`.
     */
    method SubmitRename(nodeId: string, newName: string) returns (submitted: bool)
      requires Valid()
      modifies this
      ensures Valid()
      ensures submitted <==> exists i :: 0 <= i < |newName| && !IsWhitespace(newName[i])
      ensures treeNodes == if submitted then Renamed(old(treeNodes), nodeId, newName) else old(treeNodes)
      ensures hoveredNodeId == old(hoveredNodeId) && selectedNodeId == old(selectedNodeId)
      ensures searchQuery == old(searchQuery) && currentMatchIndex == old(currentMatchIndex)
    {
      TrimEmpty(newName);
      submitted := Trim(newName) != "";
      if submitted {
        HandleRenameNode(nodeId, newName);
      }
    }

    /**
     * The auto-expand effect: when the current index picks a match, every
     * collapsed node on the path to it is expanded.
     */
    method AutoExpandToMatch()
      requires Valid()
      modifies this
      ensures Valid()
      ensures treeNodes == AutoExpanded(old(treeNodes), searchQuery, currentMatchIndex)
      ensures hoveredNodeId == old(hoveredNodeId) && selectedNodeId == old(selectedNodeId)
      ensures searchQuery == old(searchQuery) && currentMatchIndex == old(currentMatchIndex)
    {
      AutoExpandSound(treeNodes, searchQuery, currentMatchIndex);
      treeNodes := AutoExpandUpdate(treeNodes, searchQuery, currentMatchIndex);
    }

    /** `handleNextMatch`. */
    method HandleNextMatch()
      requires Valid()
      modifies this
      ensures Valid() && treeNodes == old(treeNodes) && searchQuery == old(searchQuery)
      ensures currentMatchIndex == NextIndex(old(currentMatchIndex), |SearchResult(treeNodes, searchQuery)|)
      ensures hoveredNodeId == old(hoveredNodeId) && selectedNodeId == old(selectedNodeId)
    {
      var searchMatches := SearchNodes(treeNodes, searchQuery);
      if |searchMatches| > 0 {
        currentMatchIndex := (currentMatchIndex + 1) % |searchMatches|;
      }
    }

    /** `handlePrevMatch`. */
    method HandlePrevMatch()
      requires Valid()
      modifies this
      ensures Valid() && treeNodes == old(treeNodes) && searchQuery == old(searchQuery)
      ensures currentMatchIndex == PrevIndex(old(currentMatchIndex), |SearchResult(treeNodes, searchQuery)|)
      ensures hoveredNodeId == old(hoveredNodeId) && selectedNodeId == old(selectedNodeId)
    {
      var searchMatches := SearchNodes(treeNodes, searchQuery);
      if |searchMatches| > 0 {
        currentMatchIndex := if currentMatchIndex == 0 then |searchMatches| - 1 else currentMatchIndex - 1;
      }
    }

    /** `handleSearchChange`: a new query restarts at the first match. */
    method HandleSearchChange(value: string)
      requires Valid()
      modifies this
      ensures Valid()
      ensures searchQuery == value && currentMatchIndex == 0
      ensures treeNodes == old(treeNodes)
      ensures hoveredNodeId == old(hoveredNodeId) && selectedNodeId == old(selectedNodeId)
    {
      searchQuery := value;
      currentMatchIndex := 0;
    }

    /** `onNodeClick`. */
    method OnNodeClick(id: string)
      requires Valid()
      modifies this
      ensures Valid()
      ensures selectedNodeId == ClickSelection(old(selectedNodeId), id)
      ensures treeNodes == old(treeNodes) && hoveredNodeId == old(hoveredNodeId)
      ensures searchQuery == old(searchQuery) && currentMatchIndex == old(currentMatchIndex)
    {
      selectedNodeId := if selectedNodeId == Some(id) then None else Some(id);
    }

    /** `onNodeMouseEnter`. */
    method OnNodeMouseEnter(id: string)
      requires Valid()
      modifies this
      ensures Valid()
      ensures hoveredNodeId == Some(id)
      ensures treeNodes == old(treeNodes) && selectedNodeId == old(selectedNodeId)
      ensures searchQuery == old(searchQuery) && currentMatchIndex == old(currentMatchIndex)
    {
      hoveredNodeId := Some(id);
    }

    /** `onNodeMouseLeave`. */
    method OnNodeMouseLeave()
      requires Valid()
      modifies this
      ensures Valid()
      ensures hoveredNodeId == None
      ensures treeNodes == old(treeNodes) && selectedNodeId == old(selectedNodeId)
      ensures searchQuery == old(searchQuery) && currentMatchIndex == old(currentMatchIndex)
    {
      hoveredNodeId := None;
    }

    /** `handleReset`: the seed again, no query, no selection, index 0; the hover is left as it was. */
    method HandleReset()
      requires Valid()
      modifies this
      ensures Valid()
      ensures treeNodes == Flatten.Flatten(initialData, None, 0)
      ensures searchQuery == "" && selectedNodeId == None && currentMatchIndex == 0
      ensures hoveredNodeId == old(hoveredNodeId)
    {
      SeedSound(initialData);
      treeNodes := FlattenTreeData(initialData, None, 0);
      searchQuery := "";
      selectedNodeId := None;
      currentMatchIndex := 0;
    }

    /**
     * The layout effect: lay out the ids visible from the root, with the current
     * hover, selection and search matches.
     */
    method ComputeLayout(place: (LayoutGraph, string) -> Point) returns (result: LayoutResult)
      requires Valid()
      ensures result == ViewOf(treeNodes, hoveredNodeId, selectedNodeId, searchQuery, place)
    {
      var m := treeNodes;
      var visibleIds := GetVisibleNodeIds(m, RootId, []);
      var searchMatches := SearchNodes(m, searchQuery);
      PreOrderBelow(m, RootId, true);
      result := CalculateLayout(m, visibleIds, hoveredNodeId, selectedNodeId, searchMatches, place);
      assert visibleIds == VisibleIds(m, RootId);
    }
  }

  /** The view `calculateLayout` produces for the ids visible from the root of a sound store. */
  function ViewOf(m: NodeMap, hovered: Option<string>, selected: Option<string>, query: string,
                  place: (LayoutGraph, string) -> Point): LayoutResult
    requires Sound(m)
  {
    VisibleTreeEdges(m, RootId);
    var v := VisibleIds(m, RootId);
    var links := LinksUpTo(m, v, |v|);
    LayoutResult(
      ToLayoutNodes(m, v, GraphOf(m, v), place, hovered, selected, SearchResult(m, query)),
      StyledEdges(links, hovered, selected))
  }

  /**
   * The view of a sound store shows one node per id visible from the root, in
   * visit order, flagged as a search match exactly when the search finds it;
   * every visible node but the root hangs from its parent by exactly one edge.
   */
  lemma ViewIsTree(m: NodeMap, hovered: Option<string>, selected: Option<string>, query: string,
                   place: (LayoutGraph, string) -> Point)
    requires Sound(m)
    ensures var v := VisibleIds(m, RootId);
      var view := ViewOf(m, hovered, selected, query, place);
      && |v| > 0 && v[0] == RootId
      && |view.nodes| == |v|
      && (forall i :: 0 <= i < |v| ==> view.nodes[i].id == v[i] && v[i] in m.entries)
      && (forall i :: 0 <= i < |v| ==>
            (view.nodes[i].data.isSearchMatch <==> v[i] in SearchResult(m, query)))
      && |view.edges| == |v| - 1
      && (forall i :: 0 <= i < |v| - 1 ==>
            && view.edges[i].target == v[i + 1]
            && m.entries[v[i + 1]].parentId == Some(view.edges[i].source))
  {
    VisibleTreeEdges(m, RootId);
  }
}
