/** `impl Graph<u64>` of graph-ds/src/u64_graph.rs: graphs whose node ids are the indices of
    their slots. A `u64` id is a `nat` here, and `id as usize` is the identity on it. Each
    operation is a method on the graph object, specified by a function on its state. */
module U64Graph {
  import opened Wrappers
  import opened GraphDs

  /** Every live node's id is the index of its slot, as `add_node` assigns it. */
  ghost predicate IdsAreSlots(nodes: seq<Option<Node<nat>>>) {
    forall i :: 0 <= i < |nodes| && nodes[i].Some? ==> nodes[i].value.id == i
  }

  /** The invariant the operations of this file keep. */
  ghost predicate Valid(s: GraphState<nat>) {
    IdsAreSlots(s.nodes) && WellFormedEdges(s.nodes, s.edges)
  }

  /** The state after `add_node`: a new last slot holding a node whose id is the old number of
      slots and whose layer is the argument's. */
  function AddNodeState(s: GraphState<nat>, layer: Option<int>): GraphState<nat> {
    var node: Node<nat> := Node(|s.nodes|, layer);
    s.(nodes := s.nodes + [Some(node)])
  }

  /** The slot an endpoint of `build_and_add_egde` ends up in: the requested one while it holds
      a node, otherwise the slot `add_node` appends. */
  function Resolve(nodes: seq<Option<Node<nat>>>, id: nat): nat {
    if id < |nodes| && nodes[id].Some? then id else |nodes|
  }

  /** The state after making sure an endpoint exists. */
  function WithEndpoint(s: GraphState<nat>, n: Node<nat>): (r: GraphState<nat>)
    ensures Resolve(s.nodes, n.id) < |r.nodes| && r.nodes[Resolve(s.nodes, n.id)].Some?
    ensures |s.nodes| <= |r.nodes| <= |s.nodes| + 1 && r.nodes[..|s.nodes|] == s.nodes
    ensures r.edges == s.edges && r.nodeMap == s.nodeMap
  {
    if n.id < |s.nodes| && s.nodes[n.id].Some? then s else AddNodeState(s, n.layer)
  }

  /** The state after `build_and_add_egde(from, to, weight, capacity)`. The edge goes to the list
      keyed by the id of the node in the start slot. */
  function BuildEdgeState(s: GraphState<nat>, from: Node<nat>, to: Node<nat>,
                          weight: Option<real>, capacity: Option<real>): GraphState<nat>
  {
    var s1 := WithEndpoint(s, from);
    var a := Resolve(s.nodes, from.id);
    var s2 := WithEndpoint(s1, to);
    var b := Resolve(s1.nodes, to.id);
    assert s2.nodes[a] == s1.nodes[a] by {
      assert s2.nodes[..|s1.nodes|][a] == s1.nodes[a];
    }
    s2.(edges := PushEdge(s2.edges, s2.nodes[a].value.id, Edge(a, b, weight, capacity)))
  }

  /** The state after a `remove_node` of the node with this id, or the error it returns. */
  function RemoveNodeState(s: GraphState<nat>, id: nat): Result<GraphState<nat>> {
    if id < |s.nodes| && s.nodes[id].Some? then
      Ok(s.(nodes := s.nodes[id := None], edges := s.edges - {s.nodes[id].value.id}))
    else
      Err("node not found")
  }

  // ---------------------------------------------------------------------------------------
  // the methods

  /** `add_node`: the returned handle is the new slot. */
  method AddNode(g: Graph<nat>, node: Node<nat>) returns (r: Result<nat>)
    modifies g
    ensures g.State() == AddNodeState(old(g.State()), node.layer)
    ensures r == Ok(|old(g.nodes)|)
  {
    var added: Node<nat> := Node(|g.nodes|, node.layer);
    g.nodes := g.nodes + [Some(added)];
    r := Ok(|g.nodes| - 1);
  }

  /** `build_and_add_egde`: reuse or create both endpoints, then push the edge. */
  method BuildAndAddEdge(g: Graph<nat>, from: Node<nat>, to: Node<nat>,
                         weight: Option<real>, capacity: Option<real>) returns (r: Result<bool>)
    modifies g
    ensures g.State() == BuildEdgeState(old(g.State()), from, to, weight, capacity)
    ensures r == Ok(true)
  {
    var startNode: nat;
    if from.id < |g.nodes| && g.nodes[from.id].Some? {
      startNode := from.id;
    } else {
      var added := AddNode(g, from);
      startNode := added.value;
    }
    var endNode: nat;
    if to.id < |g.nodes| && g.nodes[to.id].Some? {
      endNode := to.id;
    } else {
      var added := AddNode(g, to);
      endNode := added.value;
    }
    var start := g.Upgrade(startNode);
    g.edges := PushEdge(g.edges, start.value.id, Edge(startNode, endNode, weight, capacity));
    r := Ok(true);
  }

  /** `remove_node`: empty the slot and drop the node's own edge list. */
  method RemoveNode(g: Graph<nat>, node: Node<nat>) returns (r: Result<bool>)
    modifies g
    ensures RemoveNodeState(old(g.State()), node.id).Ok? ==>
      r == Ok(true) && g.State() == RemoveNodeState(old(g.State()), node.id).value
    ensures RemoveNodeState(old(g.State()), node.id).Err? ==>
      r == Err("node not found") && g.State() == old(g.State())
  {
    if node.id >= |g.nodes| {
      return Err("node not found");
    }
    var nodeRef := g.nodes[node.id];
    if nodeRef.None? {
      return Err("node not found");
    }
    g.edges := g.edges - {nodeRef.value.id};
    g.nodes := g.nodes[node.id := None];
    r := Ok(true);
  }

  /** A search on a graph built by these operations never reaches the `unwrap` panic of `bfs`. */
  method SearchValid(g: Graph<nat>, start: nat, end: Option<nat>, fuel: nat) returns (r: BfsResult<nat>)
    requires Valid(g.State())
    ensures !r.Panicked?
    ensures r == BfsErr("start node not found in adjacency list") <==> start !in g.edges
  {
    ghost var parents;
    r, parents := g.Bfs(start, end, fuel);
  }

  // ---------------------------------------------------------------------------------------
  // properties

  /** `add_node` keeps the invariant, leaves the old slots alone and the new node's id is its
      slot. */
  lemma AddNodeKeepsValid(s: GraphState<nat>, layer: Option<int>)
    requires Valid(s)
    ensures Valid(AddNodeState(s, layer))
    ensures var s' := AddNodeState(s, layer);
      |s'.nodes| == |s.nodes| + 1 && s'.nodes[..|s.nodes|] == s.nodes &&
      Slot(s'.nodes, |s.nodes|).Some? && Slot(s'.nodes, |s.nodes|).value.id == |s.nodes| &&
      Slot(s'.nodes, |s.nodes|).value.layer == layer
  {
    GrowWellFormed(s.nodes, AddNodeState(s, layer).nodes[|s.nodes|..], s.edges);
    assert s.nodes + AddNodeState(s, layer).nodes[|s.nodes|..] == AddNodeState(s, layer).nodes;
  }

  /** `build_and_add_egde` keeps the invariant. */
  lemma BuildEdgeKeepsValid(s: GraphState<nat>, from: Node<nat>, to: Node<nat>,
                            weight: Option<real>, capacity: Option<real>)
    requires Valid(s)
    ensures Valid(BuildEdgeState(s, from, to, weight, capacity))
  {
    var s1 := WithEndpoint(s, from);
    var a := Resolve(s.nodes, from.id);
    var s2 := WithEndpoint(s1, to);
    var b := Resolve(s1.nodes, to.id);
    AddNodeKeepsValid(s, from.layer);
    AddNodeKeepsValid(s1, to.layer);
    assert Valid(s2);
    assert s2.nodes[a] == s1.nodes[a] by {
      assert s2.nodes[..|s1.nodes|][a] == s1.nodes[a];
    }
    PushEdgeWellFormed(s2.nodes, s2.edges, s2.nodes[a].value.id, Edge(a, b, weight, capacity));
  }

  /** On a valid graph, `build_and_add_egde` reuses an occupied requested slot and otherwise
      appends a node whose id is the old number of slots, not the requested id; both endpoints
      are alive afterwards; the edge is the last entry of the list keyed by its start slot; the
      old slots and the other lists are unchanged. */
  lemma BuildEdgeEffect(s: GraphState<nat>, from: Node<nat>, to: Node<nat>,
                        weight: Option<real>, capacity: Option<real>)
    requires Valid(s)
    ensures var s' := BuildEdgeState(s, from, to, weight, capacity);
      var a := Resolve(s.nodes, from.id);
      var b := Resolve(WithEndpoint(s, from).nodes, to.id);
      (from.id < |s.nodes| && s.nodes[from.id].Some? ==> a == from.id) &&
      (!(from.id < |s.nodes| && s.nodes[from.id].Some?) ==>
        a == |s.nodes| && Slot(s'.nodes, a).Some? && Slot(s'.nodes, a).value.id == |s.nodes| &&
        Slot(s'.nodes, a).value.layer == from.layer) &&
      Slot(s'.nodes, a).Some? && Slot(s'.nodes, b).Some? &&
      a in s'.edges && s'.edges[a] == (if a in s.edges then s.edges[a] else []) + [Edge(a, b, weight, capacity)] &&
      s'.nodes[..|s.nodes|] == s.nodes && |s'.nodes| <= |s.nodes| + 2 &&
      s'.nodeMap == s.nodeMap
    ensures var s' := BuildEdgeState(s, from, to, weight, capacity);
      forall k :: k in s.edges && k != Resolve(s.nodes, from.id) ==> k in s'.edges && s'.edges[k] == s.edges[k]
  {
    var s1 := WithEndpoint(s, from);
    var a := Resolve(s.nodes, from.id);
    var s2 := WithEndpoint(s1, to);
    AddNodeKeepsValid(s, from.layer);
    assert s2.nodes[a] == s1.nodes[a] by {
      assert s2.nodes[..|s1.nodes|][a] == s1.nodes[a];
    }
    assert s2.nodes[..|s.nodes|] == s.nodes by {
      assert s2.nodes[..|s.nodes|] == s2.nodes[..|s1.nodes|][..|s.nodes|];
    }
  }

  /** A self-loop on a node that is not in the graph creates two nodes, one per endpoint, and
      joins them: the second lookup happens after the first node was appended at another slot. */
  lemma AbsentSelfLoopMakesTwoNodes()
    ensures var s' := BuildEdgeState(GraphState([], map[], map[]), Node(5, None), Node(5, None), None, None);
      s'.nodes == [Some(Node(0, None)), Some(Node(1, None))] &&
      s'.edges == map[0 := [Edge(0, 1, None, None)]]
  {
    var s0: GraphState<nat> := GraphState([], map[], map[]);
    var s1 := WithEndpoint(s0, Node(5, None));
    assert s1.nodes == [Some(Node(0, None))];
    var s2 := WithEndpoint(s1, Node(5, None));
    assert s2.nodes == [Some(Node(0, None)), Some(Node(1, None))];
    assert [] + [Edge(0, 1, None, None)] == [Edge(0, 1, None, None)];
  }

  /** A missing start node is appended at the first free slot, and a requested end id that
      names that slot then resolves to the node just created: the edge is a self-loop. */
  lemma FreshStartCapturesEnd()
    ensures var s' := BuildEdgeState(GraphState([], map[], map[]), Node(7, None), Node(0, Some(2)), None, None);
      s'.nodes == [Some(Node(0, None))] && s'.edges == map[0 := [Edge(0, 0, None, None)]]
  {
    var s0: GraphState<nat> := GraphState([], map[], map[]);
    var s1 := WithEndpoint(s0, Node(7, None));
    assert s1.nodes == [Some(Node(0, None))];
    assert WithEndpoint(s1, Node(0, Some(2))) == s1;
    assert [] + [Edge(0, 0, None, None)] == [Edge(0, 0, None, None)];
  }

  /** `remove_node` fails exactly on an id out of range or an empty slot; on success it empties
      that slot alone, keeps the number of slots and deletes that node's edge list only. */
  lemma RemoveNodeEffect(s: GraphState<nat>, id: nat)
    requires Valid(s)
    ensures RemoveNodeState(s, id).Err? <==> id >= |s.nodes| || s.nodes[id].None?
    ensures RemoveNodeState(s, id).Ok? ==>
      var s' := RemoveNodeState(s, id).value;
      |s'.nodes| == |s.nodes| && Slot(s'.nodes, id).None? &&
      (forall i :: 0 <= i < |s.nodes| && i != id ==> s'.nodes[i] == s.nodes[i]) &&
      id !in s'.edges &&
      (forall k :: k in s.edges && k != id ==> k in s'.edges && s'.edges[k] == s.edges[k]) &&
      s'.nodeMap == s.nodeMap
  {
  }

  /** `remove_node` keeps the invariant: the edges leaving the removed node were all in its own
      list. Edges into it remain and no longer upgrade. */
  lemma RemoveNodeKeepsValid(s: GraphState<nat>, id: nat)
    requires Valid(s)
    ensures RemoveNodeState(s, id).Ok? ==> Valid(RemoveNodeState(s, id).value)
  {
    if RemoveNodeState(s, id).Ok? {
      var s' := RemoveNodeState(s, id).value;
      forall k, e | k in s'.edges && e in s'.edges[k]
        ensures Slot(s'.nodes, e.from).Some? && Slot(s'.nodes, e.from).value.id == k && e.to < |s'.nodes|
      {
        assert Slot(s.nodes, e.from).value.id == k;
        assert e.from != id;
      }
    }
  }

  /** A second `remove_node` of the same id fails. */
  lemma RemoveNodeTwiceFails(s: GraphState<nat>, id: nat)
    requires RemoveNodeState(s, id).Ok?
    ensures RemoveNodeState(RemoveNodeState(s, id).value, id) == Err("node not found")
  {
  }
}
