# Tree visualizer core in Dafny

This project models the core of a tree visualizer. The tree is kept as an id -> node map whose
iteration order is that of a JavaScript `Map`. The model covers:

- the queries over that map: flattening the nested seed, the visible ids, the descendant count,
  the label search and the path to a node;
- the visualizer's handlers that change the map and the UI state: toggle, add child, delete
  subtree, rename, auto-expand of the path to the current search match, next/previous match,
  search change, node click, hover and reset;
- the layout post-processing that turns the visible ids into positioned nodes and styled
  parent-child edges, with the placement engine kept abstract.

Files and modules:

- `tree_types.dfy` (`TreeTypes`) holds the values:
  - the node record `TreeNode` and the seed node `TreeNodeData`;
  - `NodeMap`, an insertion-ordered key sequence plus a `map`. `Set` keeps an existing key's place
    and appends a new key. `Delete` drops the key from the order.
- `tree_shape.dfy` (`TreeShape`) states the store's invariant `WellFormed`:
  - ids are non-empty and equal their keys;
  - children lists are duplicate-free;
  - every listed child is present and names its lister as parent;
  - every parent is present, lists its child and sits one level above it;
  - there is exactly one root, at depth 0.

  It also holds the termination measures the walks use.
- `flatten.dfy`, `visibility.dfy`, `descendants.dfy`, `search.dfy` and `paths.dfy` model the five
  query functions. Each has a specification function and an imperative method (loops, the shared
  `result` accumulator, the `while`/`unshift` loop) proved to compute it. `walks.dfy` holds the
  pre-order walk shared by the visible-ids and descendant walks. `text.dfy` holds JavaScript's
  `trim`, `toLowerCase` and `includes` on strings.
- `tree_store.dfy` (`TreeStore`) models each handler's update as a function from the previous map
  to the next one. It proves what each update changes, and that each keeps the map well formed
  with the same root.
- `navigation.dfy` holds the cyclic match index and the click selection.
- `layout.dfy` (`LayoutEngine`) models `calculateLayout`. The graph-building loops are a method.
  The node conversion is a pure function. The placement engine is a function parameter `place`.
- `visualizer.dfy` (`Visualizer`) holds the class `TreeVisualizer`:
  - its fields are the React state cells `treeNodes`, `hoveredNodeId`, `selectedNodeId`,
    `searchQuery` and `currentMatchIndex`;
  - each handler is a method that reassigns them;
  - each `setTreeNodes(prev => ...)` updater is a method on map values, proved equal to its
    `TreeStore` function.

## Model

| member | source | states |
|---|---|---|
| TreeTypes.NodeMap.Set | src/components/tree/TreeVisualizer.tsx:128-129 | `Map.set` stores the value. An existing key keeps its place in the iteration order; a new key is appended. Validity of the order is kept. |
| TreeTypes.NodeMap.Delete | src/components/tree/TreeVisualizer.tsx:159 | `Map.delete` removes the entry. The key leaves the order and the other keys keep theirs. |
| TreeTypes.NodeMap.DeleteAll | src/components/tree/TreeVisualizer.tsx:159 | Deleting a whole set of keys removes exactly those entries and filters them out of the order. |
| TreeTypes.NodeMap.DeleteAllStep | src/components/tree/TreeVisualizer.tsx:159 | Deleting one more key after a batch equals deleting the enlarged batch, so the visiting order of the `Set` does not matter. |
| TreeTypes.Without | src/components/tree/TreeVisualizer.tsx:166 | `filter` keeps exactly the elements not removed. It never grows the list and keeps it duplicate-free. |
| TreeTypes.WithoutInOrder | src/components/tree/TreeVisualizer.tsx:166 | On a duplicate-free list, `filter` keeps the relative order: of two kept elements, the one earlier in the result is earlier in the input. |
| TreeTypes.WithoutTwice | src/components/tree/TreeVisualizer.tsx:159-166 | Filtering by two sets in turn is filtering by their union. |
| TreeTypes.DistinctCard | src/components/tree/TreeVisualizer.tsx:155-159 | A duplicate-free list has as many elements as its set, which links the collected `Set` to the walk. |
| TreeShape.WellFormedWalks | src/types/tree.ts:89-93 | In a well-formed map, children sit deeper than their lister and parents sit shallower, so the downward walks and the upward path loop terminate. |
| TreeShape.WellFormedTruthy | src/types/tree.ts:143 | In a well-formed map a node's `parentId` is truthy exactly when it is non-null. |
| TreeShape.ChildLinked | src/types/tree.ts:62 | A child listed by a node of a well-formed map is present, names that node as parent, and is one level deeper. |
| Flatten.ChildIds | src/types/tree.ts:62 | `children.map(c => c.id)` has one id per seed child, in order. |
| Flatten.Record | src/types/tree.ts:59-66 | The flat record of a seed node keeps its id and label. It takes the given parent id and depth, has one child id per seed child, and is expanded unless the seed says `false` (`?? true`). |
| Flatten.MergeFrom | src/types/tree.ts:72 | Copying a child map into the accumulator keeps the ordered map valid. |
| Flatten.Flatten | src/types/tree.ts:52-76 | The map `flattenTreeData` returns is a valid ordered map. |
| Flatten.FlattenChildren | src/types/tree.ts:70-73 | The `children.forEach` of `flattenTreeData` keeps the map valid. |
| Flatten.FlattenTreeData | src/types/tree.ts:52-76 | The recursion with its `forEach` loop returns exactly `Flatten(data, parentId, depth)`. |
| Flatten.AddChild | src/types/tree.ts:70-73 | One turn of the `forEach`, flattening the i-th child and copying it in, advances the loop's specification by one child. |
| Flatten.MergeInto | src/types/tree.ts:72 | The `childMap.forEach((v, k) => map.set(k, v))` loop computes `MergeFrom`. |
| Flatten.RecordsOf | src/types/tree.ts:59-66 | Reference definition: the seed's records in pre-order, the first being the seed's own record with the given parent id and depth. |
| Flatten.SetAllKeys | src/types/tree.ts:68-72 | Setting records with fresh, distinct ids appends exactly their ids to the key order. |
| Flatten.SetAllEntries | src/types/tree.ts:68-72 | Setting records with distinct ids stores each under its id and leaves all other keys as they were. |
| Flatten.SetAllTable | src/types/tree.ts:68-72 | Setting distinct records into an empty map gives a valid map whose order is their ids and which stores each record under its id. |
| Flatten.MergeTable | src/types/tree.ts:72 | Merging such a table into an accumulator equals setting the remaining records one by one. |
| Flatten.FlattenIsTable | src/types/tree.ts:52-76 | With distinct ids, flattening equals setting the pre-order records into an empty map. |
| Flatten.FlattenContents | src/types/tree.ts:57-73 | With distinct ids, the keys are the seed's ids in pre-order. Each id stores its record: own label, the seed children's ids in order, the id of the node it hangs from, its depth, and `isExpanded` defaulting to true. The top record has the given parent and depth. |
| Flatten.FlattenWellFormed | src/types/tree.ts:52-76 | Flattening a seed with unique non-empty ids from the top gives a well-formed map rooted at the seed's id. That root has null parent and depth 0, and each child has its parent's id and depth + 1. |
| Flatten.InitialSeedValid | src/types/tree.ts:25-49 | The initial tree's ids are root, ha, a1, a2, b, b1, b2, each once, so it is a valid seed. |
| Walks.PreOrderBelow | src/types/tree.ts:84-92 | Every id the walk meets is present and at least as deep as the start. |
| Walks.PreOrder | src/types/tree.ts:79-96 | The walk is empty exactly for an absent id, otherwise starts at the id. When collapsed nodes are skipped, a collapsed start yields itself alone. |
| Walks.PreOrderClosed | src/types/tree.ts:89-92 | The walk is closed under stepping to a present child of a node it enters. |
| Walks.ParentsEarlier | src/types/tree.ts:87-93 | In pre-order, every id after the first has its parent earlier in the walk, and the walk enters that parent. |
| Walks.PreOrderAncestor | src/types/tree.ts:89-92 | Every id met by a walk from `a` has `a` on its path to the root. |
| Walks.PreOrderDistinct | src/types/tree.ts:79-96 | In a well-formed tree a walk meets no id twice. |
| Walks.PreOrderFromStep | src/types/tree.ts:90-92 | The walk over the children is the walk of the i-th child followed by the rest, and the child has a lower termination rank. |
| Walks.WalksMeetSameDepth | src/types/tree.ts:90-92 | Two distinct nodes at one depth have disjoint walks. |
| Visibility.VisibleIds | src/types/tree.ts:79-96 | An absent id gives `[]`. A present id comes first. A collapsed node shows only itself. |
| Visibility.GetVisibleNodeIds | src/types/tree.ts:79-96 | The recursion pushing onto the shared `result` leaves `result + VisibleIds(m, nodeId)`. For an absent id the accumulator comes back unchanged. |
| Visibility.VisitChild | src/types/tree.ts:90-92 | One `forEach` callback appends exactly the child's visible walk. |
| Visibility.VisibleParentsEarlier | src/types/tree.ts:87-93 | Every visible id other than the start has its parent listed earlier, and that parent is expanded. |
| Visibility.VisibleExactly | src/types/tree.ts:84-93 | An id is visible iff it is the start, or it is present and its parent is visible and expanded. |
| Visibility.VisibleDistinct | src/types/tree.ts:79-96 | In a well-formed tree no id is listed twice. |
| Visibility.AncestorsExpandedStep | src/types/tree.ts:89-92 | A node's proper ancestors are all expanded iff its parent's are and the parent itself is. |
| Visibility.AncestorsExpandedRoot | src/types/tree.ts:84-89 | The root has no proper ancestor to be collapsed. |
| Visibility.VisibleIffAncestorsExpanded | src/types/tree.ts:79-96 | From the root, an id is visible iff it is present and every proper ancestor on its path is expanded. |
| Descendants.CountDescendants | src/types/tree.ts:99-112 | The recursion accumulating `count` computes `CountOf`, which is 0 for an absent node or a leaf and otherwise the number of children plus their counts. |
| Descendants.CountOf | src/types/tree.ts:99-112 | An absent node counts 0. A present node counts at least its number of listed children; the exact value is in CountIsDescendantCount. |
| Descendants.Subtree | src/components/tree/TreeVisualizer.tsx:147-153 | The descendant walk is empty exactly for an absent id, otherwise it starts at the id; SubtreeIsAncestry characterises its members. |
| Descendants.CountIsSubtreeSize | src/types/tree.ts:99-112 | The count is the length of the full descendant walk minus the node itself, or 0 for an absent id. |
| Descendants.CountFromIsSize | src/types/tree.ts:106-109 | The loop's partial sum plus the remaining children equals the length of the remaining children's walks. |
| Descendants.SubtreeIsAncestry | src/components/tree/TreeVisualizer.tsx:147-153 | An id is reached by the descendant walk from `a` iff both are present and `a` is on the id's path. |
| Descendants.CountIsDescendantCount | src/types/tree.ts:99-112 | In a well-formed tree the count equals the size of the strict-descendant set: the present nodes other than `a` that have `a` on their path. |
| Descendants.SubtreeElemsStep | src/components/tree/TreeVisualizer.tsx:151 | The ids below the i-th child and its later siblings are that child's subtree plus the rest, and the child ranks lower. |
| Descendants.CollectDescendants | src/components/tree/TreeVisualizer.tsx:147-153 | `getDescendants` adds to the set exactly the node and every descendant reached through present children. |
| JsText.TrimEmpty | src/types/tree.ts:119 | `query.trim()` is empty iff every character is JavaScript whitespace. |
| JsText.TrimStart | src/types/tree.ts:119 | Stripping leading whitespace never lengthens the string and leaves it empty or starting with a non-whitespace character. |
| JsText.TrimEnd | src/types/tree.ts:119 | Stripping trailing whitespace never lengthens the string and leaves it empty or ending with a non-whitespace character. |
| JsText.Trim | src/types/tree.ts:119 | `trim()` never lengthens the string and leaves it empty or with non-whitespace at both ends; TrimEmpty says when it is empty. |
| JsText.TrimStartEmpty | src/types/tree.ts:119 | Trimming the front empties a string iff it is all whitespace; otherwise the first character left is not whitespace. |
| JsText.TrimEndKeepsFirst | src/types/tree.ts:119 | Trimming the end keeps a non-whitespace first character. |
| JsText.Lower | src/types/tree.ts:122 | The ASCII lower-casing that stands for `toLowerCase` keeps the length of the string. |
| JsText.Upper | src/types/tree.ts:122 | The ASCII upper-casing keeps the length of the string. |
| JsText.ContainsAt | src/types/tree.ts:125 | `includes` holds iff the substring occurs at some index. |
| JsText.Contains | src/types/tree.ts:125 | `includes` of the empty string always holds; ContainsAt gives the full meaning, an occurrence at some index. |
| JsText.LowerOfUpper | src/types/tree.ts:122-125 | Lower-casing an upper-cased string equals lower-casing the original. |
| JsText.UpperKeepsBlank | src/types/tree.ts:119 | Upper-casing a query does not change whether it trims to empty. |
| Search.SearchResult | src/types/tree.ts:115-131 | An empty or whitespace-only query gives `[]`. |
| Search.MatchesUpTo | src/types/tree.ts:124-128 | The `forEach` pushes at most one id per visited entry; MatchesMembers and MatchesOrdered give which ones and in what order. |
| Search.SearchNodes | src/types/tree.ts:115-131 | The `forEach` pushing matching ids computes `SearchResult`. |
| Search.MatchesMembers | src/types/tree.ts:124-128 | After the first n keys, the matches are exactly those keys whose lower-cased label contains the lower-cased query. |
| Search.MatchesOrdered | src/types/tree.ts:124-128 | The matches come in the map's iteration order. |
| Search.SearchExactly | src/types/tree.ts:119-130 | The result holds exactly the present ids whose lower-cased label contains the lower-cased, untrimmed query, provided the trimmed query is non-empty. The ids are in key order and each appears once. |
| Search.SearchIgnoresCase | src/types/tree.ts:119-125 | Searching for the upper-cased query gives the same result. |
| Search.SearchSameLabels | src/types/tree.ts:124-128 | Two maps with the same key order, ids and labels give the same search result, so expansion changes do not move matches. |
| Paths.GetPathToNode | src/types/tree.ts:134-147 | The `while`/`unshift` loop computes `PathTo`, the upward walk along truthy, present parent ids. |
| Paths.PathTo | src/types/tree.ts:134-147 | The path is empty exactly for an absent id. Otherwise it ends with the node's id and has at most depth + 1 entries, so the loop stops. PathLinks and PathDepths give the rest. |
| Paths.PathLinks | src/types/tree.ts:138-146 | The path is `[]` iff the id is absent. Otherwise it ends with the id, each element is present and is the parent of the next, and it starts at a node whose parent the loop cannot follow. |
| Paths.PathDepths | src/types/tree.ts:141-144 | In a well-formed tree the path of a node at depth d has d + 1 entries, the k-th at depth k. |
| Paths.PathOfRoot | src/types/tree.ts:134-147 | On a well-formed tree the path of the root is `[root]`. |
| Paths.PathAtDepth | src/types/tree.ts:141-144 | A node on a path sits at the index given by its depth. |
| Paths.PathClosedUpward | src/types/tree.ts:141-144 | The parent of a node on a path is also on it. |
| Paths.PathOfChild | src/types/tree.ts:142-143 | A node with a parent has its parent's path followed by itself. |
| Paths.AncestorShallower | src/types/tree.ts:141-144 | An ancestor on the path is no deeper than the node, and strictly shallower unless it is the node. |
| TreeStore.SameShapeWellFormed | src/components/tree/TreeVisualizer.tsx:93-100 | Changing only labels and expansion flags keeps the map well formed with the same root. |
| TreeStore.SameShapePath | src/components/tree/TreeVisualizer.tsx:203-216 | Changing only labels and expansion flags leaves every path as it was. |
| TreeStore.Toggled | src/components/tree/TreeVisualizer.tsx:91-101 | Toggle flips the target's `isExpanded` only. Every other entry and the key order are unchanged, and an absent id changes nothing. |
| TreeStore.ToggleTwice | src/components/tree/TreeVisualizer.tsx:91-101 | Toggling twice restores the map. |
| TreeStore.ToggleWellFormed | src/components/tree/TreeVisualizer.tsx:93-100 | Toggling keeps the map well formed with the same root. |
| TreeStore.Renamed | src/components/tree/TreeVisualizer.tsx:174-184 | A present node takes the new label verbatim. Everything else, including the key order, is unchanged. |
| TreeStore.RenameWellFormed | src/components/tree/TreeVisualizer.tsx:176-183 | Renaming keeps the map well formed with the same root. |
| TreeStore.AddEffect | src/components/tree/TreeVisualizer.tsx:103-133 | An absent parent leaves the map unchanged. Otherwise the map grows by exactly the new node {"New Node", no children, the parent, collapsed, parent depth + 1}, whose key goes last. The parent lists the new id last and is expanded, and every other entry is unchanged. |
| TreeStore.NewNode | src/components/tree/TreeVisualizer.tsx:112-119 | The created node has the fresh id, the label "New Node", no children, the parent's id, is collapsed, and sits at the given depth. |
| TreeStore.WithChild | src/components/tree/TreeVisualizer.tsx:105-132 | An absent parent returns the map unchanged. Under a present parent with a fresh id, the key order gains the id last, the new node names the parent, the parent lists the id last, and validity is kept. AddEffect gives the whole effect. |
| TreeStore.AddedLinks | src/components/tree/TreeVisualizer.tsx:112-129 | After the add, ids stay non-empty and equal their keys, children lists stay duplicate-free, and every listed child is present and names its lister. |
| TreeStore.AddedParents | src/components/tree/TreeVisualizer.tsx:112-129 | After the add, every parent link holds with depth + 1, and the root is the same single root. |
| TreeStore.AddWellFormed | src/components/tree/TreeVisualizer.tsx:105-131 | Adding with a fresh non-empty id keeps the map well formed with the same root. |
| TreeStore.DeleteEffect | src/components/tree/TreeVisualizer.tsx:135-172 | An absent id or the root returns the map untouched. Otherwise exactly the nodes with the deleted id on their path are removed, the remaining keys keep their order, and only the former parent's record changes, losing the id from its children. |
| TreeStore.Deleted | src/components/tree/TreeVisualizer.tsx:137-171 | An absent id or one without a truthy parent returns the map unchanged. Otherwise the id is gone and no key is added, and validity is kept. DeleteEffect gives the whole effect. |
| TreeStore.DeleteKeepsOrder | src/components/tree/TreeVisualizer.tsx:155-168 | After a delete, the remaining keys keep their relative order, and so do the former parent's remaining children. |
| TreeStore.DeletedLinks | src/components/tree/TreeVisualizer.tsx:155-168 | After the delete, ids stay non-empty and equal their keys, children lists stay duplicate-free, and every listed child is present and names its lister. |
| TreeStore.DeletedChildStays | src/components/tree/TreeVisualizer.tsx:159-166 | A child still listed after the delete was not removed, and still names its lister. |
| TreeStore.DeletedParents | src/components/tree/TreeVisualizer.tsx:155-168 | After the delete, every parent link holds and the root is the same single root. |
| TreeStore.DeletedParentStays | src/components/tree/TreeVisualizer.tsx:159-166 | A node kept by the delete keeps its link to its present parent. |
| TreeStore.DeletedRoots | src/components/tree/TreeVisualizer.tsx:138-142 | The delete keeps the root, because the root is never deleted, and makes no new root. |
| TreeStore.DeleteWellFormed | src/components/tree/TreeVisualizer.tsx:137-170 | Deleting keeps the map well formed with the same root. |
| TreeStore.DeletedKeys | src/components/tree/TreeVisualizer.tsx:155-168 | Deleting a non-root node leaves exactly the keys outside its subtree; the former parent is one of them. |
| TreeStore.DeleteCount | src/components/tree/TreeVisualizer.tsx:155-159 | Deleting a non-root node removes exactly `countDescendants` + 1 entries. |
| TreeStore.ExpandedAlong | src/components/tree/TreeVisualizer.tsx:206-216 | Expanding along a path keeps the keys and order. Every present id on the path ends expanded, no node is collapsed, ids off the path are unchanged, and only expansion flags change. |
| TreeStore.ExpandOne | src/components/tree/TreeVisualizer.tsx:210-214 | One step of the path loop expands a present node and changes no other entry or key. |
| TreeStore.ExpandNothing | src/components/tree/TreeVisualizer.tsx:208-216 | When every present id on the path is already expanded, the map comes back unchanged. |
| TreeStore.ExpandTwice | src/components/tree/TreeVisualizer.tsx:206-216 | Expanding along the same path twice equals expanding once. |
| TreeStore.AutoExpandTwice | src/components/tree/TreeVisualizer.tsx:200-217 | Auto-expand keeps the shape of the map. Run again on its own result, it changes nothing. |
| TreeStore.AutoExpandWellFormed | src/components/tree/TreeVisualizer.tsx:200-217 | Auto-expand keeps the map well formed with the same root. |
| TreeStore.AutoExpanded | src/components/tree/TreeVisualizer.tsx:200-217 | When the index is outside the matches, the map is unchanged. Otherwise every present node on the match's path ends expanded. Either way keys, order and everything but expansion flags stay, and nothing is collapsed. |
| TreeStore.ExpandedPathAncestors | src/components/tree/TreeVisualizer.tsx:203-216 | Expanding along a node's path expands every proper ancestor of that node. |
| TreeStore.AutoExpandShowsMatch | src/components/tree/TreeVisualizer.tsx:200-217 | When the index picks a match, auto-expand makes that match visible from the root. |
| Navigation.NextIndex | src/components/tree/TreeVisualizer.tsx:267-271 | With n > 0 matches the next index stays below n; with none the index is unchanged. |
| Navigation.PrevIndex | src/components/tree/TreeVisualizer.tsx:273-279 | With n > 0 matches and an index in range, the previous index stays below n; with none the index is unchanged. |
| Navigation.NextPrevInverse | src/components/tree/TreeVisualizer.tsx:267-279 | Within range, next and previous undo each other. |
| Navigation.NextCycles | src/components/tree/TreeVisualizer.tsx:267-271 | k presses of next move the index k places forward, wrapping past n - 1 to 0, and n presses return to the start. |
| Navigation.WrapStep | src/components/tree/TreeVisualizer.tsx:269 | `(i + 1) % n` is `i + 1`, or 0 from the last index. |
| Navigation.ClickSelection | src/components/tree/TreeVisualizer.tsx:242-244 | Clicking the selected id clears the selection; clicking any other id selects it. |
| Navigation.ClickTwice | src/components/tree/TreeVisualizer.tsx:242-244 | Clicking the same id twice restores a selection that was empty or that id. |
| LayoutEngine.Styled | src/lib/layoutEngine.ts:49-66 | Edge id `source + "-" + target`. Tier is Selected iff either end is the selected id, Hovered iff not selected and either end is hovered, Plain otherwise. `animated` holds iff the tier is not Plain. |
| LayoutEngine.StyledEdges | src/lib/layoutEngine.ts:44-69 | One styled edge per graph link, in the same order. |
| LayoutEngine.ToLayoutNode | src/lib/layoutEngine.ts:75-100 | Position is the centre minus half of 160 x 80. Label, `isExpanded` and depth are copied, `childCount` is the number of children and `hasChildren` iff it is positive. The hover and selection flags are id equality and `isSearchMatch` is membership in the matches. |
| LayoutEngine.ToLayoutNodes | src/lib/layoutEngine.ts:75-101 | One output node per visible id, in the same order, each placed at the engine's centre for that id. |
| LayoutEngine.CalculateLayout | src/lib/layoutEngine.ts:15-104 | The two `forEach` loops and the `map` give the styled edges for the links and the converted nodes. It requires every visible id to be present, as `get(id)!` does. |
| LayoutEngine.GraphNodesUpTo | src/lib/layoutEngine.ts:35-40 | The first loop adds at most one graph node per visible id; GraphNodesExactly says which. |
| LayoutEngine.LinksUpTo | src/lib/layoutEngine.ts:44-48 | The second loop adds at most one link per visible id; LinksExactly says which. |
| LayoutEngine.GraphNodesExactly | src/lib/layoutEngine.ts:35-40 | The graph's nodes are exactly the visible ids present in the map, each 160 x 80. When all are present they come in visible order. |
| LayoutEngine.LinksExactly | src/lib/layoutEngine.ts:44-48 | A link `parent -> id` exists iff the id is visible and present, its parent id is truthy, and that parent is visible. There is at most one link per visible id. |
| LayoutEngine.LinksInOrder | src/lib/layoutEngine.ts:44-69 | Over duplicate-free visible ids, links come in visible order of their targets. |
| LayoutEngine.LinksAfterFirst | src/lib/layoutEngine.ts:44-69 | When exactly the ids after the first have a visible parent, there is one link per visible id after the first, in order. |
| LayoutEngine.VisibleTreeEdges | src/lib/layoutEngine.ts:44-69 | For the visible ids of a well-formed tree, the links connect each visible id after the root to its parent, in visible order. |
| Visualizer.InitialStartable | src/types/tree.ts:25-49 | The initial tree is rooted at "root" and has unique non-empty ids. |
| Visualizer.SeedSound | src/components/tree/TreeVisualizer.tsx:35-37 | Flattening a startable seed gives a well-formed map rooted at "root". |
| Visualizer.ToggleUpdate | src/components/tree/TreeVisualizer.tsx:93-100 | The `handleToggle` updater computes `Toggled`. |
| Visualizer.AddUpdate | src/components/tree/TreeVisualizer.tsx:105-132 | The `handleAddNode` updater computes `WithChild`. |
| Visualizer.DeleteUpdate | src/components/tree/TreeVisualizer.tsx:137-171 | The `handleDeleteNode` updater computes `Deleted`: it collects the subtree, deletes each id, then filters the parent's children. |
| Visualizer.RenameUpdate | src/components/tree/TreeVisualizer.tsx:176-183 | The `handleRenameNode` updater computes `Renamed`. |
| Visualizer.ExpandUpdate | src/components/tree/TreeVisualizer.tsx:206-217 | The path loop with its `changed` flag computes `ExpandedAlong`. |
| Visualizer.AutoExpandUpdate | src/components/tree/TreeVisualizer.tsx:201-217 | The effect's guard, path lookup and update compute `AutoExpanded`. |
| Visualizer.ToggleSound | src/components/tree/TreeVisualizer.tsx:93-100 | Toggle keeps the store well formed and rooted at "root". |
| Visualizer.AddSound | src/components/tree/TreeVisualizer.tsx:105-132 | Add with a fresh non-empty id keeps the store well formed and rooted at "root". |
| Visualizer.DeleteSound | src/components/tree/TreeVisualizer.tsx:137-171 | Delete keeps the store well formed and rooted at "root". |
| Visualizer.RenameSound | src/components/tree/TreeVisualizer.tsx:176-183 | Rename keeps the store well formed and rooted at "root". |
| Visualizer.AutoExpandSound | src/components/tree/TreeVisualizer.tsx:200-217 | Auto-expand keeps the store well formed and rooted at "root". |
| Visualizer.TreeVisualizer.constructor | src/components/tree/TreeVisualizer.tsx:35-44 | The initial state is the flattened seed, no hover, no selection, an empty query and index 0. |
| Visualizer.TreeVisualizer.HandleToggle | src/components/tree/TreeVisualizer.tsx:91-101 | The store becomes `Toggled` of the old one and stays sound. No other field changes. |
| Visualizer.TreeVisualizer.HandleAddNode | src/components/tree/TreeVisualizer.tsx:103-133 | The store becomes `WithChild` of the old one and stays sound. No other field changes. |
| Visualizer.TreeVisualizer.HandleDeleteNode | src/components/tree/TreeVisualizer.tsx:135-172 | The store becomes `Deleted` of the old one and stays sound. No other field changes. |
| Visualizer.TreeVisualizer.HandleRenameNode | src/components/tree/TreeVisualizer.tsx:174-184 | The store becomes `Renamed` of the old one and stays sound. No other field changes. |
| Visualizer.TreeVisualizer.SubmitRename | src/components/tree/TreeNode.tsx:69-75 | A rename is sent iff the new name has a non-whitespace character. The name is then applied untrimmed; otherwise nothing changes. |
| Visualizer.TreeVisualizer.AutoExpandToMatch | src/components/tree/TreeVisualizer.tsx:200-217 | The store becomes `AutoExpanded` for the current query and index and stays sound. No other field changes. |
| Visualizer.TreeVisualizer.HandleNextMatch | src/components/tree/TreeVisualizer.tsx:267-271 | The index becomes `NextIndex` over the number of current matches. Nothing else changes. |
| Visualizer.TreeVisualizer.HandlePrevMatch | src/components/tree/TreeVisualizer.tsx:273-279 | The index becomes `PrevIndex` over the number of current matches. Nothing else changes. |
| Visualizer.TreeVisualizer.HandleSearchChange | src/components/tree/TreeVisualizer.tsx:282-285 | The query is set and the index resets to 0. Nothing else changes. |
| Visualizer.TreeVisualizer.OnNodeClick | src/components/tree/TreeVisualizer.tsx:242-244 | The selection becomes `ClickSelection` of the old one. Nothing else changes. |
| Visualizer.TreeVisualizer.OnNodeMouseEnter | src/components/tree/TreeVisualizer.tsx:234-236 | The hovered id becomes the entered node's id. Nothing else changes. |
| Visualizer.TreeVisualizer.OnNodeMouseLeave | src/components/tree/TreeVisualizer.tsx:238-240 | The hover is cleared. Nothing else changes. |
| Visualizer.TreeVisualizer.HandleReset | src/components/tree/TreeVisualizer.tsx:259-264 | The store is the flattened initial seed again, and the query, selection and match index are cleared. The hover is kept. |
| Visualizer.TreeVisualizer.ComputeLayout | src/components/tree/TreeVisualizer.tsx:62-74 | The layout effect computes the view of the visible ids from "root", with the current hover, selection and search matches. |
| Visualizer.ViewIsTree | src/components/tree/TreeVisualizer.tsx:62-74 | The view starts at "root" and has one node per visible id, in order, flagged as a match iff the id is in the search result. It has one edge fewer than nodes, each edge joining a visible id to its parent. |

## Left out

- The placement engine (dagre) is the parameter `place`, a function from the built graph and an id to a centre point. Its layered placement is not modelled. The graph configuration is kept as a constant record.
- Stroke colours, stroke widths and the drop-shadow filter of edges are presentation. Only the three-tier choice is kept.
- The React hooks and the `window` event bus are plumbing. Each handler is a direct method call, and each `setTreeNodes(prev => ...)` updater is a method on the previous map.
- Timers (`setTimeout`, `clearTimeout`), `fitView`, `setCenter` panning, the zoom controls and `console.log` are viewport, timing or output. They are not modelled.
- `Date.now()` is a clock read. The new node's id is a parameter that must be non-empty and not already in the map.
- JsText.Lower: maps ASCII letters only, not the full Unicode case mapping of `toLowerCase`, under which some characters change length (U+0130 becomes two code units).
- The seed's optional `depth` field is never read by the source and is not kept.
- Visualizer.DeleteUpdate: deletes the collected ids in an arbitrary order rather than the `Set`'s insertion order. The result is the same for every order (TreeTypes.NodeMap.DeleteAllStep).
- Flatten.FlattenContents: characterises the flattened map only for seeds with unique ids. With repeated ids, later records overwrite earlier ones, and that case is not described.
- Visualizer.TreeVisualizer.constructor: takes the seed as a parameter. `InitialStartable` shows that the initial tree qualifies, and `HandleReset` returns to that seed.
- Visualizer.TreeVisualizer.AutoExpandToMatch: the effect reads its path from the rendered snapshot and updates the latest one. Here both are the same map, so interleavings of several queued updates are not modelled.
- The JSX components, dialogs, context menus, animation and page metadata hold no store logic and are not part of this model. The rename guard of `TreeNode.tsx` is modelled in `SubmitRename`.
- The constant React Flow types, `smoothstep` for edges and `treeNode` for nodes (`src/lib/layoutEngine.ts:56`, `:85`), carry no logic and are not kept.
- Positions are exact `real` numbers, not IEEE doubles. Rounding in the offset by half the node size is not modelled.
- Visualizer.TreeVisualizer.AutoExpandToMatch: the effect re-runs after every change of the store, query or index. While a search has a match, it immediately re-expands any collapsed ancestor of the current match. The class leaves that call to its caller, so the model does not force it after each handler.
