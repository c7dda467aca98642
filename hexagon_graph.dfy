/** `impl Graph<Cell>` of graph-ds/src/hexagon_graph.rs: graphs whose nodes are hexagon cells.
    The cell type that file imports is the `HexCell` of hexagon_graph/cell.rs. The node map is a
    bijection between cells and slots; here it is its left-to-right direction, and `BiInsert`
    states what inserting into a bijection does. */
module HexagonGraph {
  import opened Wrappers
  import opened GraphDs
  import opened HexCells

  /** No two cells map to the same slot. */
  ghost predicate Injective(m: map<HexCell, nat>) {
    forall c, d :: c in m && d in m && c != d ==> m[c] != m[d]
  }

  /** `BiMap::insert(l, r)`: the pairs whose left is `l` or whose right is `r` are removed,
      then `(l, r)` is added. */
  function BiInsert(m: map<HexCell, nat>, l: HexCell, r: nat): map<HexCell, nat> {
    (map k | k in m && k != l && m[k] != r :: m[k])[l := r]
  }

  /** Every cell of the node map names a slot that holds the node of that cell. */
  ghost predicate MapPointsToNodes(s: GraphState<HexCell>) {
    forall c :: c in s.nodeMap ==>
      Slot(s.nodes, s.nodeMap[c]).Some? && Slot(s.nodes, s.nodeMap[c]).value.id == c
  }

  /** The invariant the operations of this file keep. */
  ghost predicate Valid(s: GraphState<HexCell>) {
    MapPointsToNodes(s) && WellFormedEdges(s.nodes, s.edges)
  }

  /** The state after `add_node(node)`: the node in a new last slot, its cell mapped there. */
  function AddNodeState(s: GraphState<HexCell>, node: Node<HexCell>): GraphState<HexCell> {
    GraphState(s.nodes + [Some(node)], s.edges, BiInsert(s.nodeMap, node.id, |s.nodes|))
  }

  /** The state after looking up or creating the node of a cell, and the slot of that node;
      None when the lookup panics: the mapped slot is out of range or empty. */
  function Endpoint(s: GraphState<HexCell>, c: HexCell): (r: Option<(GraphState<HexCell>, nat)>)
    ensures r.Some? ==> r.value.1 < |r.value.0.nodes| && r.value.0.nodes[r.value.1].Some?
    ensures r.Some? ==> |s.nodes| <= |r.value.0.nodes| && r.value.0.nodes[..|s.nodes|] == s.nodes
    ensures r.Some? ==> r.value.0.edges == s.edges
  {
    if c in s.nodeMap then
      if Slot(s.nodes, s.nodeMap[c]).Some? then Some((s, s.nodeMap[c])) else None
    else
      Some((AddNodeState(s, Node(c, None)), |s.nodes|))
  }

  /** The state after `build_and_add_egde(from, to, weight, capacity)`, or None when it panics.
      The edge goes to the list keyed by the id of the node in the start slot. */
  function BuildEdgeState(s: GraphState<HexCell>, from: HexCell, to: HexCell,
                          weight: Option<real>, capacity: Option<real>): Option<GraphState<HexCell>>
  {
    match Endpoint(s, from)
    case None => None
    case Some((s1, a)) =>
      match Endpoint(s1, to)
      case None => None
      case Some((s2, b)) =>
        assert s2.nodes[a] == s1.nodes[a] by {
          assert s2.nodes[..|s1.nodes|][a] == s1.nodes[a];
        }
        Some(s2.(edges := PushEdge(s2.edges, s2.nodes[a].value.id, Edge(a, b, weight, capacity))))
  }

  // ---------------------------------------------------------------------------------------
  // the methods

  /** `add_node`: the returned handle is the new slot. */
  method AddNode(g: Graph<HexCell>, node: Node<HexCell>) returns (r: Result<nat>)
    modifies g
    ensures g.State() == AddNodeState(old(g.State()), node)
    ensures r == Ok(|old(g.nodes)|)
  {
    var nodeId := |g.nodes|;
    g.nodeMap := BiInsert(g.nodeMap, node.id, nodeId);
    g.nodes := g.nodes + [Some(node)];
    r := Ok(nodeId);
  }

  /** `build_and_add_egde`. The result is None where the source panics; the state is then
      whatever the steps before the panic left. */
  method BuildAndAddEdge(g: Graph<HexCell>, from: HexCell, to: HexCell,
                         weight: Option<real>, capacity: Option<real>) returns (r: Option<Result<bool>>)
    modifies g
    ensures r.None? <==> BuildEdgeState(old(g.State()), from, to, weight, capacity).None?
    ensures r.Some? ==>
      r.value == Ok(true) && g.State() == BuildEdgeState(old(g.State()), from, to, weight, capacity).value
  {
    var startNode: nat;
    if from in g.nodeMap {
      var index := g.nodeMap[from];
      if index >= |g.nodes| || g.nodes[index].None? {
        return None;
      }
      startNode := index;
    } else {
      var added := AddNode(g, Node(from, None));
      startNode := added.value;
    }
    var endNode: nat;
    if to in g.nodeMap {
      var index := g.nodeMap[to];
      if index >= |g.nodes| || g.nodes[index].None? {
        return None;
      }
      endNode := index;
    } else {
      var added := AddNode(g, Node(to, None));
      endNode := added.value;
    }
    var start := g.Upgrade(startNode);
    g.edges := PushEdge(g.edges, start.value.id, Edge(startNode, endNode, weight, capacity));
    r := Some(Ok(true));
  }

  // ---------------------------------------------------------------------------------------
  // properties

  /** Inserting into a bijection: the new pair is present, every other pair was there before
      and does not use the new right value, every old pair on neither side survives, and no two
      cells share a slot afterwards. */
  lemma BiInsertEffect(m: map<HexCell, nat>, l: HexCell, r: nat)
    ensures l in BiInsert(m, l, r) && BiInsert(m, l, r)[l] == r
    ensures forall k :: k in BiInsert(m, l, r) && k != l ==> k in m && BiInsert(m, l, r)[k] == m[k] && m[k] != r
    ensures forall k :: k in m && k != l && m[k] != r ==> k in BiInsert(m, l, r)
    ensures Injective(m) ==> Injective(BiInsert(m, l, r))
  {
  }

  /** The invariant makes the node map injective. */
  lemma ValidInjective(s: GraphState<HexCell>)
    requires Valid(s)
    ensures Injective(s.nodeMap)
  {
    forall c, d | c in s.nodeMap && d in s.nodeMap && c != d
      ensures s.nodeMap[c] != s.nodeMap[d]
    {
      assert Slot(s.nodes, s.nodeMap[c]).value.id == c;
    }
  }

  /** `add_node` appends exactly one slot holding the node and maps its cell to that slot; no
      other cell is remapped, since no cell of a map that points to nodes uses the new slot. */
  lemma AddNodeMapped(s: GraphState<HexCell>, node: Node<HexCell>)
    requires MapPointsToNodes(s)
    ensures var s' := AddNodeState(s, node);
      MapPointsToNodes(s') && |s'.nodes| == |s.nodes| + 1 && s'.nodes[..|s.nodes|] == s.nodes &&
      s'.nodes[|s.nodes|] == Some(node) && s'.nodeMap == s.nodeMap[node.id := |s.nodes|]
  {
    var s' := AddNodeState(s, node);
    assert s'.nodes[..|s.nodes|] == s.nodes;
    assert s'.nodeMap == s.nodeMap[node.id := |s.nodes|];
    forall c | c in s'.nodeMap
      ensures Slot(s'.nodes, s'.nodeMap[c]).Some? && Slot(s'.nodes, s'.nodeMap[c]).value.id == c
    {
      if c != node.id {
        assert Slot(s'.nodes, s.nodeMap[c]) == Slot(s.nodes, s.nodeMap[c]);
      }
    }
  }

  /** `add_node` keeps the invariant. */
  lemma AddNodeKeepsValid(s: GraphState<HexCell>, node: Node<HexCell>)
    requires Valid(s)
    ensures Valid(AddNodeState(s, node))
  {
    AddNodeMapped(s, node);
    GrowWellFormed(s.nodes, [Some(node)], s.edges);
  }

  /** When the node map points to nodes, the lookup of one endpoint succeeds: a mapped cell
      keeps its slot, an absent one gets a new last slot; the map still points to nodes and the
      slot holds the cell. */
  lemma MappedEndpoint(s: GraphState<HexCell>, c: HexCell)
    requires MapPointsToNodes(s)
    ensures Endpoint(s, c).Some?
    ensures var (s', slot) := Endpoint(s, c).value;
      MapPointsToNodes(s') && s'.nodes[slot].value.id == c &&
      slot == (if c in s.nodeMap then s.nodeMap[c] else |s.nodes|) &&
      |s'.nodes| == |s.nodes| + (if c in s.nodeMap then 0 else 1) &&
      s'.nodeMap == (if c in s.nodeMap then s.nodeMap else s.nodeMap[c := |s.nodes|])
  {
    if c !in s.nodeMap {
      AddNodeMapped(s, Node(c, None));
    }
  }

  /** On a valid graph the lookups of `build_and_add_egde` never panic. */
  lemma ValidBuildSucceeds(s: GraphState<HexCell>, from: HexCell, to: HexCell,
                           weight: Option<real>, capacity: Option<real>)
    requires Valid(s)
    ensures BuildEdgeState(s, from, to, weight, capacity).Some?
  {
    if from !in s.nodeMap {
      AddNodeKeepsValid(s, Node(from, None));
    }
  }

  /** A panic needs a cell mapped to an out-of-range or empty slot. */
  lemma BuildPanicsOnDanglingMap(s: GraphState<HexCell>, from: HexCell, to: HexCell,
                                 weight: Option<real>, capacity: Option<real>)
    requires from in s.nodeMap && Slot(s.nodes, s.nodeMap[from]).None?
    ensures BuildEdgeState(s, from, to, weight, capacity).None?
  {
  }

  /** `build_and_add_egde` keeps the invariant. */
  lemma BuildEdgeKeepsValid(s: GraphState<HexCell>, from: HexCell, to: HexCell,
                            weight: Option<real>, capacity: Option<real>)
    requires Valid(s)
    ensures BuildEdgeState(s, from, to, weight, capacity).Some?
    ensures Valid(BuildEdgeState(s, from, to, weight, capacity).value)
  {
    MappedEndpoint(s, from);
    var (s1, a) := Endpoint(s, from).value;
    if from !in s.nodeMap {
      AddNodeKeepsValid(s, Node(from, None));
    }
    MappedEndpoint(s1, to);
    var (s2, b) := Endpoint(s1, to).value;
    if to !in s1.nodeMap {
      AddNodeKeepsValid(s1, Node(to, None));
    }
    assert s2.nodes[a] == s1.nodes[a] by {
      assert s2.nodes[..|s1.nodes|][a] == s1.nodes[a];
    }
    PushEdgeWellFormed(s2.nodes, s2.edges, s2.nodes[a].value.id, Edge(a, b, weight, capacity));
  }

  /** When the node map points to nodes (as on every valid graph), `build_and_add_egde`
      creates a node only for an endpoint absent from the node map (one node for a self-loop
      on an absent cell), and the old slots are unchanged. */
  lemma BuildEdgeNodes(s: GraphState<HexCell>, from: HexCell, to: HexCell,
                       weight: Option<real>, capacity: Option<real>)
    requires MapPointsToNodes(s)
    ensures BuildEdgeState(s, from, to, weight, capacity).Some?
    ensures var s' := BuildEdgeState(s, from, to, weight, capacity).value;
      |s'.nodes| == |s.nodes| + (if from in s.nodeMap then 0 else 1) +
                                (if to in s.nodeMap || to == from then 0 else 1) &&
      s'.nodes[..|s.nodes|] == s.nodes
  {
    MappedEndpoint(s, from);
    var (s1, a) := Endpoint(s, from).value;
    MappedEndpoint(s1, to);
    var (s2, b) := Endpoint(s1, to).value;
    assert s2.nodes[..|s.nodes|] == s.nodes by {
      assert s2.nodes[..|s.nodes|] == s2.nodes[..|s1.nodes|][..|s.nodes|];
    }
    assert BuildEdgeState(s, from, to, weight, capacity).value.nodes == s2.nodes;
  }

  /** Afterwards both endpoints are mapped, and a cell that was mapped keeps its slot. */
  lemma BuildEdgeMapsEndpoints(s: GraphState<HexCell>, from: HexCell, to: HexCell,
                       weight: Option<real>, capacity: Option<real>)
    requires MapPointsToNodes(s)
    ensures BuildEdgeState(s, from, to, weight, capacity).Some?
    ensures var s' := BuildEdgeState(s, from, to, weight, capacity).value;
      from in s'.nodeMap && to in s'.nodeMap &&
      (from in s.nodeMap ==> s'.nodeMap[from] == s.nodeMap[from]) &&
      (to in s.nodeMap ==> s'.nodeMap[to] == s.nodeMap[to])
  {
    MappedEndpoint(s, from);
    var (s1, a) := Endpoint(s, from).value;
    MappedEndpoint(s1, to);
    var (s2, b) := Endpoint(s1, to).value;
    assert BuildEdgeState(s, from, to, weight, capacity).value.nodeMap == s2.nodeMap;
  }

  /** The edge built is the last entry of the list of `from` and joins the slots the node map
      gives `from` and `to`. */
  lemma BuildEdgeEdges(s: GraphState<HexCell>, from: HexCell, to: HexCell,
                       weight: Option<real>, capacity: Option<real>)
    requires MapPointsToNodes(s)
    ensures BuildEdgeState(s, from, to, weight, capacity).Some?
    ensures var s' := BuildEdgeState(s, from, to, weight, capacity).value;
      from in s'.nodeMap && to in s'.nodeMap && from in s'.edges &&
      s'.edges[from] == (if from in s.edges then s.edges[from] else []) +
                        [Edge(s'.nodeMap[from], s'.nodeMap[to], weight, capacity)]
  {
    MappedEndpoint(s, from);
    var (s1, a) := Endpoint(s, from).value;
    MappedEndpoint(s1, to);
    var (s2, b) := Endpoint(s1, to).value;
    assert s2.nodes[a] == s1.nodes[a] by {
      assert s2.nodes[..|s1.nodes|][a] == s1.nodes[a];
    }
    var s' := s2.(edges := PushEdge(s2.edges, from, Edge(a, b, weight, capacity)));
    assert BuildEdgeState(s, from, to, weight, capacity) == Some(s');
    assert s'.nodeMap[from] == a && s'.nodeMap[to] == b;
  }

  /** The lists of the other cells are unchanged. */
  lemma BuildEdgeKeepsOtherLists(s: GraphState<HexCell>, from: HexCell, to: HexCell,
                       weight: Option<real>, capacity: Option<real>)
    requires MapPointsToNodes(s)
    ensures BuildEdgeState(s, from, to, weight, capacity).Some?
    ensures var s' := BuildEdgeState(s, from, to, weight, capacity).value;
      forall k :: k in s.edges && k != from ==> k in s'.edges && s'.edges[k] == s.edges[k]
  {
    MappedEndpoint(s, from);
    var (s1, a) := Endpoint(s, from).value;
    MappedEndpoint(s1, to);
    var (s2, b) := Endpoint(s1, to).value;
    assert s2.nodes[a] == s1.nodes[a] by {
      assert s2.nodes[..|s1.nodes|][a] == s1.nodes[a];
    }
    var s' := s2.(edges := PushEdge(s2.edges, from, Edge(a, b, weight, capacity)));
    assert BuildEdgeState(s, from, to, weight, capacity) == Some(s');
  }

  /** Adding the same edge again creates no node and appends a second copy of the edge. */
  lemma RepeatedBuildAddsNoNodes(s: GraphState<HexCell>, from: HexCell, to: HexCell,
                                 weight: Option<real>, capacity: Option<real>)
    requires Valid(s)
    ensures BuildEdgeState(s, from, to, weight, capacity).Some?
    ensures var s1 := BuildEdgeState(s, from, to, weight, capacity).value;
      BuildEdgeState(s1, from, to, weight, capacity).Some? &&
      var s2 := BuildEdgeState(s1, from, to, weight, capacity).value;
      s2.nodes == s1.nodes && s2.nodeMap == s1.nodeMap &&
      |s2.edges[from]| == |s1.edges[from]| + 1
  {
    BuildEdgeKeepsValid(s, from, to, weight, capacity);
    BuildEdgeMapsEndpoints(s, from, to, weight, capacity);
    var s1 := BuildEdgeState(s, from, to, weight, capacity).value;
    BuildEdgeNodes(s1, from, to, weight, capacity);
    BuildEdgeEdges(s1, from, to, weight, capacity);
  }
}
