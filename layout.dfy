/**
 * `calculateLayout`: turns the visible ids into positioned nodes and styled
 * parent-child edges. The placement engine (dagre) is a parameter `place`
 * that maps the built graph and a node id to that node's centre.
 */
module LayoutEngine {
  import opened TreeTypes
  import opened TreeShape
  import opened Visibility
  import opened Search

  const NodeWidth: int := 160
  const NodeHeight: int := 80
  const HorizontalSpacing: int := 60
  const VerticalSpacing: int := 100

  datatype GraphConfig = GraphConfig(rankdir: string, nodesep: int, ranksep: int, marginx: int, marginy: int)

  /** Top to bottom, with the spacing constants as node and rank separation and 50-unit margins. */
  const Config: GraphConfig := GraphConfig("TB", HorizontalSpacing, VerticalSpacing, 50, 50)

  datatype GraphNode = GraphNode(id: string, width: int, height: int)
  datatype GraphEdge = GraphEdge(source: string, target: string)

  /** What the placement engine is given. */
  datatype LayoutGraph = LayoutGraph(config: GraphConfig, nodes: seq<GraphNode>, edges: seq<GraphEdge>)

  datatype Point = Point(x: real, y: real)

  /** Which of the three edge colours is used: selection wins over hovering. */
  datatype Tier = Plain | Hovered | Selected

  datatype Edge = Edge(id: string, source: string, target: string, animated: bool, tier: Tier)

  datatype NodeData = NodeData(
    labelText: string,
    hasChildren: bool,
    childCount: nat,
    isExpanded: bool,
    depth: nat,
    isHovered: bool,
    isSelected: bool,
    isSearchMatch: bool)

  datatype LayoutNode = LayoutNode(id: string, position: Point, data: NodeData)

  datatype LayoutResult = LayoutResult(nodes: seq<LayoutNode>, edges: seq<Edge>)

  /** Does `id` get an edge: it is present and its parent id is truthy and among the visible ids. */
  predicate HasVisibleParent(m: NodeMap, visibleIds: seq<string>, id: string)
  {
    && id in m.entries
    && Truthy(m.entries[id].parentId)
    && m.entries[id].parentId.value in visibleIds
  }

  /** The graph nodes the first loop adds for `visibleIds[..n]`. */
  function GraphNodesUpTo(m: NodeMap, visibleIds: seq<string>, n: nat): (r: seq<GraphNode>)
    requires n <= |visibleIds|
    ensures |r| <= n
  {
    if n == 0 then []
    else
      var id := visibleIds[n - 1];
      GraphNodesUpTo(m, visibleIds, n - 1) + (if id in m.entries then [GraphNode(id, NodeWidth, NodeHeight)] else [])
  }

  /** The parent-child links the second loop adds for `visibleIds[..n]`. */
  function LinksUpTo(m: NodeMap, visibleIds: seq<string>, n: nat): (r: seq<GraphEdge>)
    requires n <= |visibleIds|
    ensures |r| <= n
  {
    if n == 0 then []
    else
      var id := visibleIds[n - 1];
      LinksUpTo(m, visibleIds, n - 1) +
        (if HasVisibleParent(m, visibleIds, id) then [GraphEdge(m.entries[id].parentId.value, id)] else [])
  }

  /** The graph handed to the placement engine. */
  function GraphOf(m: NodeMap, visibleIds: seq<string>): LayoutGraph
  {
    LayoutGraph(Config, GraphNodesUpTo(m, visibleIds, |visibleIds|), LinksUpTo(m, visibleIds, |visibleIds|))
  }

  /**
   * The styled edge for a link: its id joins the two ids with a dash, it is
   * animated exactly when either end is hovered or selected, and its colour
   * tier is Selected if either end is selected, else Hovered if either end is
   * hovered, else Plain.
   */
  function Styled(link: GraphEdge, hovered: Option<string>, selected: Option<string>): (e: Edge)
    ensures e.id == link.source + "-" + link.target
    ensures e.source == link.source && e.target == link.target
    ensures e.animated <==> e.tier != Plain
    ensures e.tier == Selected <==> selected == Some(link.source) || selected == Some(link.target)
    ensures e.tier == Hovered <==>
      && selected != Some(link.source) && selected != Some(link.target)
      && (hovered == Some(link.source) || hovered == Some(link.target))
  {
    var isHovered := hovered == Some(link.source) || hovered == Some(link.target);
    var isSelected := selected == Some(link.source) || selected == Some(link.target);
    Edge(link.source + "-" + link.target, link.source, link.target, isHovered || isSelected,
      if isSelected then Selected else if isHovered then Hovered else Plain)
  }

  /** The edges of the links, in link order. */
  function StyledEdges(links: seq<GraphEdge>, hovered: Option<string>, selected: Option<string>): (r: seq<Edge>)
    ensures |r| == |links|
    ensures forall i :: 0 <= i < |links| ==> r[i] == Styled(links[i], hovered, selected)
  {
    seq(|links|, i requires 0 <= i < |links| => Styled(links[i], hovered, selected))
  }

  /** The React Flow node for a present id whose centre the engine placed at `centre`. */
  function ToLayoutNode(m: NodeMap, id: string, centre: Point, hovered: Option<string>, selected: Option<string>,
                        searchMatches: seq<string>): (n: LayoutNode)
    requires id in m.entries
    ensures n.id == id
    ensures n.position.x + (NodeWidth as real) / 2.0 == centre.x
    ensures n.position.y + (NodeHeight as real) / 2.0 == centre.y
    ensures n.data.labelText == m.entries[id].labelText && n.data.isExpanded == m.entries[id].isExpanded
    ensures n.data.depth == m.entries[id].depth
    ensures n.data.childCount == |m.entries[id].childrenIds| && (n.data.hasChildren <==> n.data.childCount > 0)
    ensures n.data.isHovered <==> hovered == Some(id)
    ensures n.data.isSelected <==> selected == Some(id)
    ensures n.data.isSearchMatch <==> id in searchMatches
  {
    var node := m.entries[id];
    LayoutNode(id,
      Point(centre.x - (NodeWidth as real) / 2.0, centre.y - (NodeHeight as real) / 2.0),
      NodeData(node.labelText, |node.childrenIds| > 0, |node.childrenIds|, node.isExpanded, node.depth,
        hovered == Some(id), selected == Some(id), id in searchMatches))
  }

  /** The `visibleIds.map` conversion: one node per visible id, in the same order, each placed by the engine. */
  function ToLayoutNodes(m: NodeMap, visibleIds: seq<string>, g: LayoutGraph, place: (LayoutGraph, string) -> Point,
                         hovered: Option<string>, selected: Option<string>, searchMatches: seq<string>): (r: seq<LayoutNode>)
    requires forall id :: id in visibleIds ==> id in m.entries
    ensures |r| == |visibleIds|
    ensures forall i :: 0 <= i < |r| ==>
      r[i] == ToLayoutNode(m, visibleIds[i], place(g, visibleIds[i]), hovered, selected, searchMatches)
  {
    seq(|visibleIds|, i requires 0 <= i < |visibleIds| =>
      ToLayoutNode(m, visibleIds[i], place(g, visibleIds[i]), hovered, selected, searchMatches))
  }

  /**
   * The graph-building loops of `calculateLayout` and the conversion. Every visible id must be present: the
   * conversion loop dereferences each lookup unconditionally.
   */
  method CalculateLayout(m: NodeMap, visibleIds: seq<string>, hovered: Option<string>, selected: Option<string>,
                         searchMatches: seq<string>, place: (LayoutGraph, string) -> Point)
    returns (result: LayoutResult)
    requires forall id :: id in visibleIds ==> id in m.entries
    ensures result.edges == StyledEdges(LinksUpTo(m, visibleIds, |visibleIds|), hovered, selected)
    ensures result.nodes == ToLayoutNodes(m, visibleIds, GraphOf(m, visibleIds), place, hovered, selected, searchMatches)
  {
    var graphNodes: seq<GraphNode> := [];
    for i := 0 to |visibleIds|
      invariant graphNodes == GraphNodesUpTo(m, visibleIds, i)
    {
      var treeNode := m.Get(visibleIds[i]);
      if treeNode.Some? {
        graphNodes := graphNodes + [GraphNode(visibleIds[i], NodeWidth, NodeHeight)];
      }
    }

    var graphEdges: seq<GraphEdge> := [];
    var edges: seq<Edge> := [];
    for i := 0 to |visibleIds|
      invariant graphEdges == LinksUpTo(m, visibleIds, i)
      invariant |edges| == |graphEdges|
      invariant forall j :: 0 <= j < |edges| ==> edges[j] == Styled(graphEdges[j], hovered, selected)
    {
      var id := visibleIds[i];
      var treeNode := m.Get(id);
      if treeNode.Some? && Truthy(treeNode.value.parentId) && treeNode.value.parentId.value in visibleIds {
        var parentId := treeNode.value.parentId.value;
        graphEdges := graphEdges + [GraphEdge(parentId, id)];
        var isHovered := hovered == Some(parentId) || hovered == Some(id);
        var isSelected := selected == Some(parentId) || selected == Some(id);
        var tier := if isSelected then Selected else if isHovered then Hovered else Plain;
        edges := edges + [Edge(parentId + "-" + id, parentId, id, isHovered || isSelected, tier)];
      }
    }

    var g := LayoutGraph(Config, graphNodes, graphEdges);
    var nodes := ToLayoutNodes(m, visibleIds, g, place, hovered, selected, searchMatches);
    assert edges == StyledEdges(graphEdges, hovered, selected);
    result := LayoutResult(nodes, edges);
  }

  /** The engine is given one node of the fixed size per visible id present in the map, in visit order. */
  lemma {:induction false} GraphNodesExactly(m: NodeMap, visibleIds: seq<string>, n: nat)
    requires n <= |visibleIds|
    ensures forall g :: g in GraphNodesUpTo(m, visibleIds, n) <==>
      g.id in visibleIds[..n] && g.id in m.entries && g.width == NodeWidth && g.height == NodeHeight
    ensures (forall id :: id in visibleIds ==> id in m.entries) ==>
      |GraphNodesUpTo(m, visibleIds, n)| == n &&
      forall i :: 0 <= i < n ==> GraphNodesUpTo(m, visibleIds, n)[i].id == visibleIds[i]
  {
    if n > 0 {
      GraphNodesExactly(m, visibleIds, n - 1);
      TakeLast(visibleIds, n);
      var id := visibleIds[n - 1];
      if id in m.entries {
        var prev := GraphNodesUpTo(m, visibleIds, n - 1);
        var r := GraphNodesUpTo(m, visibleIds, n);
        assert r == prev + [GraphNode(id, NodeWidth, NodeHeight)];
        assert forall i :: 0 <= i < |prev| ==> r[i] == prev[i];
      } else {
        assert id in visibleIds && id !in m.entries;
      }
    }
  }

  /**
   * A link runs from a visible parent to a visible child exactly when the child
   * is present, and its truthy parent id names that parent; there is at most one link per visible id.
   */
  lemma {:induction false} LinksExactly(m: NodeMap, visibleIds: seq<string>, n: nat, e: GraphEdge)
    requires n <= |visibleIds|
    ensures |LinksUpTo(m, visibleIds, n)| <= n
    ensures e in LinksUpTo(m, visibleIds, n) <==>
      && e.target in visibleIds[..n]
      && HasVisibleParent(m, visibleIds, e.target)
      && m.entries[e.target].parentId == Some(e.source)
      && e.source in visibleIds
  {
    if n > 0 {
      LinksExactly(m, visibleIds, n - 1, e);
      TakeLast(visibleIds, n);
    }
  }

  /** Over duplicate-free visible ids, the links come in visit order of their targets, one per target. */
  lemma {:induction false} LinksInOrder(m: NodeMap, visibleIds: seq<string>, n: nat)
    requires n <= |visibleIds| && Distinct(visibleIds)
    ensures var links := LinksUpTo(m, visibleIds, n);
      forall i, j :: 0 <= i < j < |links| ==>
        links[i].target in visibleIds && links[j].target in visibleIds &&
        IndexOf(visibleIds, links[i].target) < IndexOf(visibleIds, links[j].target) < n
  {
    if n > 0 {
      LinksInOrder(m, visibleIds, n - 1);
      var id := visibleIds[n - 1];
      var prev := LinksUpTo(m, visibleIds, n - 1);
      var links := LinksUpTo(m, visibleIds, n);
      assert IndexOf(visibleIds, id) == n - 1 by {
        var p := IndexOf(visibleIds, id);
        assert visibleIds[p] == visibleIds[n - 1];
      }
      forall e | e in prev
        ensures e.target in visibleIds && IndexOf(visibleIds, e.target) < n - 1
      {
        LinksExactly(m, visibleIds, n - 1, e);
        var q :| 0 <= q < n - 1 && visibleIds[..n - 1][q] == e.target;
        var p := IndexOf(visibleIds, e.target);
        assert visibleIds[p] == visibleIds[q];
      }
      if HasVisibleParent(m, visibleIds, id) {
        forall i, j | 0 <= i < j < |links|
          ensures links[i].target in visibleIds && links[j].target in visibleIds &&
            IndexOf(visibleIds, links[i].target) < IndexOf(visibleIds, links[j].target) < n
        {
          if j == |links| - 1 {
            assert links[i] in prev;
          } else {
            assert links[i] == prev[i] && links[j] == prev[j];
          }
        }
      } else {
        assert links == prev;
        forall i, j | 0 <= i < j < |links|
          ensures links[i].target in visibleIds && links[j].target in visibleIds &&
            IndexOf(visibleIds, links[i].target) < IndexOf(visibleIds, links[j].target) < n
        {
          assert links[i] in prev && links[j] in prev;
        }
      }
    }
  }

  /**
   * When exactly the ids after the first have a visible parent, the links are
   * one per such id, in order: the i-th link ends at `visibleIds[i + 1]`.
   */
  lemma {:induction false} LinksAfterFirst(m: NodeMap, visibleIds: seq<string>, n: nat)
    requires n <= |visibleIds|
    requires forall j :: 0 <= j < |visibleIds| ==> (HasVisibleParent(m, visibleIds, visibleIds[j]) <==> j > 0)
    ensures |LinksUpTo(m, visibleIds, n)| == if n == 0 then 0 else n - 1
    ensures forall i :: 0 <= i < |LinksUpTo(m, visibleIds, n)| ==> LinksUpTo(m, visibleIds, n)[i].target == visibleIds[i + 1]
  {
    if n > 0 {
      LinksAfterFirst(m, visibleIds, n - 1);
    }
  }

  /**
   * Laid out from the root of a well-formed store, the visible ids form a tree:
   * every visible id but the root gets exactly one edge, from its parent, in
   * visit order, so there is one edge fewer than there are nodes.
   */
  lemma VisibleTreeEdges(m: NodeMap, root: string)
    requires WellFormed(m) && IsRoot(m, root)
    ensures Layered(m)
    ensures var v := VisibleIds(m, root);
      && (forall id :: id in v ==> id in m.entries)
      && |LinksUpTo(m, v, |v|)| == |v| - 1
      && (forall i :: 0 <= i < |v| - 1 ==>
            && v[i + 1] in m.entries && m.entries[v[i + 1]].parentId.Some?
            && LinksUpTo(m, v, |v|)[i] == GraphEdge(m.entries[v[i + 1]].parentId.value, v[i + 1]))
  {
    VisibleParentsEarlier(m, root);
    var v := VisibleIds(m, root);
    forall j | 0 <= j < |v|
      ensures HasVisibleParent(m, v, v[j]) <==> j > 0
    {
      if j > 0 {
        WellFormedTruthy(m, v[j]);
        assert m.entries[v[j]].parentId.value in v;
      }
    }
    LinksAfterFirst(m, v, |v|);
    forall i | 0 <= i < |v| - 1
      ensures && v[i + 1] in m.entries && m.entries[v[i + 1]].parentId.Some?
              && LinksUpTo(m, v, |v|)[i] == GraphEdge(m.entries[v[i + 1]].parentId.value, v[i + 1])
    {
      assert 0 < i + 1 < |v|;
      var e := LinksUpTo(m, v, |v|)[i];
      LinksExactly(m, v, |v|, e);
    }
  }
}
