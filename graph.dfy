/** The generic graph container of graph-ds/src/lib.rs: a vector of optional nodes, adjacency
    lists keyed by node id, a cell -> slot map, and the queue-driven search `bfs`.
    A `Weak<Node>` held by an edge is the index of the slot its node was stored in (slots are
    never reused); upgrading it succeeds while that slot still holds the node. Weights are
    reals. */
module GraphDs {
  import opened Wrappers

  datatype Node<T> = Node(id: T, layer: Option<int>)

  /** An edge: the slots of its endpoints, an optional weight and capacity. */
  datatype Edge = Edge(from: nat, to: nat, weight: Option<real>, capacity: Option<real>)

  /** `edge.weight.unwrap_or(1.0)`. */
  function WeightOr1(e: Edge): real {
    match e.weight
    case Some(w) => w
    case None => 1.0
  }

  /** The result of `bfs`: an error, the (path, distances) pair, a panic of `unwrap` on a
      dropped source node, or the fuel bound reached before the search or the backtrace ended. */
  datatype BfsResult<T> =
    | BfsErr(message: string)
    | BfsOk(path: Option<seq<T>>, distances: map<T, real>)
    | Panicked
    | OutOfFuel

  // ---------------------------------------------------------------------------------------
  // backtrace paths

  /** The node before position i of a backtrace from x. */
  function Prev<T>(p: seq<T>, x: T, i: nat): T
    requires i <= |p|
  {
    if i == 0 then x else p[i - 1]
  }

  /** p lists parent after parent, starting from the parent of x. */
  predicate FollowsParents<T(!new)>(p: seq<T>, parents: map<T, T>, x: T) {
    forall i :: 0 <= i < |p| ==> Prev(p, x, i) in parents && p[i] == parents[Prev(p, x, i)]
  }

  /** The complete backtrace from x: it follows parents until a node without parent. */
  predicate IsBacktrace<T(!new)>(p: seq<T>, parents: map<T, T>, x: T) {
    FollowsParents(p, parents, x) && Prev(p, x, |p|) !in parents
  }

  lemma FollowsParentsTail<T(!new)>(p: seq<T>, parents: map<T, T>, x: T)
    requires p != [] && FollowsParents(p, parents, x)
    ensures x in parents && p[0] == parents[x]
    ensures FollowsParents(p[1..], parents, p[0])
    ensures Prev(p[1..], p[0], |p| - 1) == Prev(p, x, |p|)
  {
    assert Prev(p, x, 0) == x;
    forall i | 0 <= i < |p[1..]|
      ensures Prev(p[1..], p[0], i) in parents && p[1..][i] == parents[Prev(p[1..], p[0], i)]
    {
      assert Prev(p[1..], p[0], i) == Prev(p, x, i + 1);
    }
  }

  /** The backtrace from a node is unique. */
  lemma {:induction false} BacktraceUnique<T(!new)>(p: seq<T>, q: seq<T>, parents: map<T, T>, x: T)
    requires IsBacktrace(p, parents, x) && IsBacktrace(q, parents, x)
    ensures p == q
    decreases |p|
  {
    if p != [] && q != [] {
      FollowsParentsTail(p, parents, x);
      FollowsParentsTail(q, parents, x);
      BacktraceUnique(p[1..], q[1..], parents, p[0]);
      assert p == [p[0]] + p[1..] && q == [q[0]] + q[1..];
    } else if p != [] {
      FollowsParentsTail(p, parents, x);
    } else if q != [] {
      FollowsParentsTail(q, parents, x);
    }
  }

  /** A node that is its own parent has no backtrace: the loop following parents never ends. */
  lemma {:induction false} SelfParentHasNoBacktrace<T(!new)>(p: seq<T>, parents: map<T, T>, x: T)
    requires x in parents && parents[x] == x
    ensures !IsBacktrace(p, parents, x)
  {
    if FollowsParents(p, parents, x) {
      SelfParentPrefix(p, parents, x, |p|);
    }
  }

  lemma {:induction false} SelfParentPrefix<T(!new)>(p: seq<T>, parents: map<T, T>, x: T, i: nat)
    requires x in parents && parents[x] == x && FollowsParents(p, parents, x) && i <= |p|
    ensures Prev(p, x, i) == x
  {
    if i > 0 {
      SelfParentPrefix(p, parents, x, i - 1);
    }
  }

  /** The `while let Some(parent) = parents.get(&current)` loop of `bfs`, with a fuel bound. */
  method Backtrace<T(!new)>(parents: map<T, T>, target: T, fuel: nat) returns (path: Option<seq<T>>)
    ensures path.Some? ==> IsBacktrace(path.value, parents, target)
    ensures path.None? ==> forall q :: IsBacktrace(q, parents, target) ==> |q| > fuel
  {
    var p: seq<T> := [];
    var current := target;
    var steps := fuel;
    while current in parents
      invariant FollowsParents(p, parents, target) && current == Prev(p, target, |p|)
      invariant |p| + steps == fuel
      invariant forall q :: IsBacktrace(q, parents, target) ==> |q| > |p| - 1 && q[..|p|] == p
      decreases steps
    {
      if steps == 0 {
        forall q | IsBacktrace(q, parents, target) ensures |q| > fuel {
          BacktraceExtends(q, p, parents, target);
        }
        return None;
      }
      forall q | IsBacktrace(q, parents, target) ensures |q| > |p| && q[..|p| + 1] == p + [parents[current]] {
        BacktraceExtends(q, p, parents, target);
      }
      ghost var p0 := p;
      p := p + [parents[current]];
      assert forall i :: 0 <= i <= |p0| ==> Prev(p, target, i) == Prev(p0, target, i);
      current := parents[current];
      steps := steps - 1;
    }
    return Some(p);
  }

  /** A complete backtrace extends every partial one that has not reached its end. */
  lemma BacktraceExtends<T(!new)>(q: seq<T>, p: seq<T>, parents: map<T, T>, x: T)
    requires IsBacktrace(q, parents, x) && FollowsParents(p, parents, x)
    requires |q| >= |p| && q[..|p|] == p && Prev(p, x, |p|) in parents
    ensures |q| > |p| && q[|p|] == parents[Prev(p, x, |p|)]
  {
    if |q| > |p| {
      assert Prev(q, x, |p|) == Prev(p, x, |p|);
    }
  }

  // ---------------------------------------------------------------------------------------
  // graph states

  /** The three fields of a graph as one value, for stating what an update does. */
  datatype GraphState<T> = GraphState(nodes: seq<Option<Node<T>>>, edges: map<T, seq<Edge>>, nodeMap: map<T, nat>)

  /** `Weak::upgrade` of the handle to a slot: the node while the slot still holds it. */
  function Slot<T>(nodes: seq<Option<Node<T>>>, slot: nat): (r: Option<Node<T>>)
    ensures r.Some? <==> slot < |nodes| && nodes[slot].Some?
    ensures r.Some? ==> r == nodes[slot]
  {
    if slot < |nodes| then nodes[slot] else None
  }

  /** Every stored edge's source node is alive and its id is the key of the list holding the
      edge; the target slot was allocated. */
  ghost predicate WellFormedEdges<T>(nodes: seq<Option<Node<T>>>, edges: map<T, seq<Edge>>) {
    forall k, e :: k in edges && e in edges[k] ==>
      Slot(nodes, e.from).Some? && Slot(nodes, e.from).value.id == k && e.to < |nodes|
  }

  /** `edges.entry(k).or_insert_with(Vec::new).push(e)`. */
  function PushEdge<T>(edges: map<T, seq<Edge>>, k: T, e: Edge): map<T, seq<Edge>> {
    edges[k := (if k in edges then edges[k] else []) + [e]]
  }

  /** Pushing an edge whose source is alive under the key of its id keeps the edges well formed. */
  lemma PushEdgeWellFormed<T>(nodes: seq<Option<Node<T>>>, edges: map<T, seq<Edge>>, k: T, e: Edge)
    requires WellFormedEdges(nodes, edges)
    requires Slot(nodes, e.from).Some? && Slot(nodes, e.from).value.id == k && e.to < |nodes|
    ensures WellFormedEdges(nodes, PushEdge(edges, k, e))
  {
    var edges' := PushEdge(edges, k, e);
    forall k': T, e': Edge | k' in edges' && e' in edges'[k']
      ensures Slot(nodes, e'.from).Some? && Slot(nodes, e'.from).value.id == k' && e'.to < |nodes|
    {
      if k' == k && e' !in (if k in edges then edges[k] else []) {
        assert e' == e;
      }
    }
  }

  /** Appending slots leaves every stored edge well formed. */
  lemma GrowWellFormed<T>(nodes: seq<Option<Node<T>>>, extra: seq<Option<Node<T>>>, edges: map<T, seq<Edge>>)
    requires WellFormedEdges(nodes, edges)
    ensures WellFormedEdges(nodes + extra, edges)
  {
    forall k: T, e: Edge | k in edges && e in edges[k]
      ensures Slot(nodes + extra, e.from) == Slot(nodes, e.from)
    {
    }
  }

  // ---------------------------------------------------------------------------------------
  // the graph

  class Graph<T(==, !new)> {
    var nodes: seq<Option<Node<T>>>
    var edges: map<T, seq<Edge>>
    var nodeMap: map<T, nat>

    /** `Graph::new`: no nodes, no edges, an empty node map. */
    constructor ()
      ensures nodes == [] && edges == map[] && nodeMap == map[]
    {
      nodes := [];
      edges := map[];
      nodeMap := map[];
    }

    /** The fields as one value. */
    function State(): GraphState<T>
      reads this
    {
      GraphState(nodes, edges, nodeMap)
    }

    /** `Weak::upgrade` of the handle to a slot. */
    function Upgrade(slot: nat): (r: Option<Node<T>>)
      reads this
      ensures r.Some? <==> slot < |nodes| && nodes[slot].Some?
    {
      Slot(nodes, slot)
    }

    /** The edge is stored in one of the adjacency lists. */
    ghost predicate IsEdge(e: Edge)
      reads this
    {
      exists k :: k in edges && e in edges[k]
    }

    /** The stored edges are well formed. */
    ghost predicate EdgesWellFormed()
      reads this
    {
      WellFormedEdges(nodes, edges)
    }

    /** The queue entries pushed for the edges of `start` before the loop: each edge with its
        weight, or 1 when it has none. */
    function StartEntries(list: seq<Edge>): (q: seq<(real, Edge)>)
      ensures |q| == |list|
      ensures forall j :: 0 <= j < |q| ==> q[j] == (WeightOr1(list[j]), list[j])
    {
      seq(|list|, j requires 0 <= j < |list| => (WeightOr1(list[j]), list[j]))
    }

    /** The entries pushed for the out-edges of a popped node at distance `base`: only edges
        whose target is alive and not explored, in list order. */
    function Expand(base: real, list: seq<Edge>, explored: set<T>): (q: seq<(real, Edge)>)
      reads this
    {
      if list == [] then []
      else
        var n := |list| - 1;
        var e := list[n];
        Expand(base, list[..n], explored) +
          match Upgrade(e.to)
          case Some(t) => if t.id !in explored then [(base + WeightOr1(e), e)] else []
          case None => []
    }

    /** What an expansion queues: an edge of the list, alive and unexplored target, distance
        the base plus the weight (1 when missing); and every such edge is queued. */
    lemma ExpandEntries(base: real, list: seq<Edge>, explored: set<T>)
      ensures forall j :: 0 <= j < |Expand(base, list, explored)| ==>
        var entry := Expand(base, list, explored)[j];
        entry.1 in list && Upgrade(entry.1.to).Some? && Upgrade(entry.1.to).value.id !in explored &&
        entry.0 == base + WeightOr1(entry.1)
      ensures forall e :: e in list && Upgrade(e.to).Some? && Upgrade(e.to).value.id !in explored ==>
        (base + WeightOr1(e), e) in Expand(base, list, explored)
    {
      ExpandSound(base, list, explored);
      ExpandComplete(base, list, explored);
    }

    /** Every queued entry is a listed edge with an alive, unexplored target, at the base
        plus its weight. */
    lemma {:induction false} ExpandSound(base: real, list: seq<Edge>, explored: set<T>)
      ensures forall j :: 0 <= j < |Expand(base, list, explored)| ==>
        var entry := Expand(base, list, explored)[j];
        entry.1 in list && Upgrade(entry.1.to).Some? && Upgrade(entry.1.to).value.id !in explored &&
        entry.0 == base + WeightOr1(entry.1)
    {
      if list != [] {
        var n := |list| - 1;
        ExpandSound(base, list[..n], explored);
        var front := Expand(base, list[..n], explored);
        var q := Expand(base, list, explored);
        var e := list[n];
        var tail := match Upgrade(e.to)
          case Some(t) => if t.id !in explored then [(base + WeightOr1(e), e)] else []
          case None => [];
        assert q == front + tail;
        forall j | 0 <= j < |q|
          ensures q[j].1 in list && Upgrade(q[j].1.to).Some? && Upgrade(q[j].1.to).value.id !in explored &&
            q[j].0 == base + WeightOr1(q[j].1)
        {
          if j < |front| {
            assert q[j] == front[j];
            assert front[j].1 in list[..n];
            var i :| 0 <= i < n && list[..n][i] == front[j].1;
            assert list[i] == q[j].1;
          } else {
            assert tail != [];
            assert Upgrade(e.to).Some? && Upgrade(e.to).value.id !in explored;
            assert q[j] == (base + WeightOr1(e), e);
          }
        }
      }
    }

    /** Every listed edge with an alive, unexplored target is queued at the base plus its
        weight. */
    lemma {:induction false} ExpandComplete(base: real, list: seq<Edge>, explored: set<T>)
      ensures forall e :: e in list && Upgrade(e.to).Some? && Upgrade(e.to).value.id !in explored ==>
        (base + WeightOr1(e), e) in Expand(base, list, explored)
    {
      if list != [] {
        var n := |list| - 1;
        ExpandComplete(base, list[..n], explored);
        var front := Expand(base, list[..n], explored);
        var q := Expand(base, list, explored);
        var e := list[n];
        var tail := match Upgrade(e.to)
          case Some(t) => if t.id !in explored then [(base + WeightOr1(e), e)] else []
          case None => [];
        assert q == front + tail;
        forall e | e in list && Upgrade(e.to).Some? && Upgrade(e.to).value.id !in explored
          ensures (base + WeightOr1(e), e) in q
        {
          if e == list[n] {
            assert q[|front|] == (base + WeightOr1(e), e);
          } else {
            assert e in list[..n] by {
              var i :| 0 <= i < |list| && list[i] == e;
              assert list[..n][i] == e;
            }
          }
        }
      }
    }

    /** The `for_each` over the start node's edges. */
    method QueueStartEdges(list: seq<Edge>) returns (q: seq<(real, Edge)>)
      ensures q == StartEntries(list)
    {
      q := [];
      for i := 0 to |list|
        invariant q == StartEntries(list[..i])
      {
        assert list[..i + 1][..i] == list[..i];
        q := q + [(WeightOr1(list[i]), list[i])];
      }
      assert list[..|list|] == list;
    }

    /** The `for_each` over a popped target's edges, pushing onto the back of the queue. */
    method QueueUnexplored(q0: seq<(real, Edge)>, base: real, list: seq<Edge>, explored: set<T>)
      returns (q: seq<(real, Edge)>)
      ensures q == q0 + Expand(base, list, explored)
    {
      q := q0;
      for i := 0 to |list|
        invariant q == q0 + Expand(base, list[..i], explored)
      {
        var e := list[i];
        assert list[..i + 1][..i] == list[..i];
        var target := Upgrade(e.to);
        if target.Some? && target.value.id !in explored {
          q := q + [(base + WeightOr1(e), e)];
        }
      }
      assert list[..|list|] == list;
    }

    /** The edge `e` is stored and runs from the live node `p` to the live node `k`. */
    ghost predicate ParentEdge(k: T, p: T)
      reads this
    {
      exists e :: IsEdge(e) && Upgrade(e.to).Some? && Upgrade(e.to).value.id == k &&
        Upgrade(e.from).Some? && Upgrade(e.from).value.id == p
    }

    /** Every recorded parent is the source of a stored edge into its child. */
    ghost predicate ParentsAreEdges(parents: map<T, T>)
      reads this
    {
      forall k :: k in parents ==> ParentEdge(k, parents[k])
    }

    /** Every queued entry holds a stored edge. */
    ghost predicate QueuedEdgesStored(q: seq<(real, Edge)>)
      reads this
    {
      forall j :: 0 <= j < |q| ==> IsEdge(q[j].1)
    }

    lemma RecordParent(parents: map<T, T>, e: Edge)
      requires ParentsAreEdges(parents) && IsEdge(e)
      requires Upgrade(e.to).Some? && Upgrade(e.from).Some?
      ensures ParentsAreEdges(parents[Upgrade(e.to).value.id := Upgrade(e.from).value.id])
    {
      assert ParentEdge(Upgrade(e.to).value.id, Upgrade(e.from).value.id);
    }

    lemma StartEdgesStored(start: T)
      requires start in edges
      ensures QueuedEdgesStored(StartEntries(edges[start]))
    {
      forall j | 0 <= j < |edges[start]| ensures IsEdge(edges[start][j]) {
        assert edges[start][j] in edges[start];
      }
    }

    lemma ExpandStored(q0: seq<(real, Edge)>, base: real, t: T, explored: set<T>)
      requires t in edges && QueuedEdgesStored(q0)
      ensures QueuedEdgesStored(q0 + Expand(base, edges[t], explored))
    {
      ExpandEntries(base, edges[t], explored);
      var q := q0 + Expand(base, edges[t], explored);
      forall j | 0 <= j < |q| ensures IsEdge(q[j].1) {
        if j >= |q0| {
          assert q[j] == Expand(base, edges[t], explored)[j - |q0|];
        }
      }
    }

    /** Some queue entry holds the edge `e`. */
    ghost predicate Queued(q: seq<(real, Edge)>, e: Edge) {
      exists j :: 0 <= j < |q| && q[j].1 == e
    }

    /** Every live out-target of an explored node is explored, or its edge is still queued. */
    ghost predicate Closed(explored: set<T>, q: seq<(real, Edge)>)
      reads this
    {
      forall k, e :: k in explored && k in edges && e in edges[k] && Upgrade(e.to).Some? ==>
        Upgrade(e.to).value.id in explored || Queued(q, e)
    }

    /** `b` is reached from `a` along the live edges of the adjacency lists. */
    ghost predicate Step(a: T, b: T)
      reads this
    {
      a in edges && exists e :: e in edges[a] && Upgrade(e.to).Some? && Upgrade(e.to).value.id == b
    }

    /** w is a walk from a to b, one live edge per step. */
    ghost predicate IsWalk(w: seq<T>, a: T, b: T)
      reads this
    {
      |w| >= 1 && w[0] == a && w[|w| - 1] == b &&
      forall i :: 0 <= i < |w| - 1 ==> Step(w[i], w[i + 1])
    }

    /** The start node's edges are all queued before the loop. */
    lemma ClosedStart(start: T)
      requires start in edges
      ensures Closed({start}, StartEntries(edges[start]))
    {
      var q := StartEntries(edges[start]);
      forall e | e in edges[start] ensures Queued(q, e) {
        var j :| 0 <= j < |edges[start]| && edges[start][j] == e;
        assert q[j].1 == e;
      }
    }

    /** Popping an entry whose target is dropped keeps the closure. */
    lemma ClosedPopDead(explored: set<T>, q: seq<(real, Edge)>)
      requires Closed(explored, q) && q != [] && Upgrade(q[0].1.to).None?
      ensures Closed(explored, q[1..])
    {
      forall k, e | k in explored && k in edges && e in edges[k] && Upgrade(e.to).Some? &&
        Upgrade(e.to).value.id !in explored
        ensures Queued(q[1..], e)
      {
        var j :| 0 <= j < |q| && q[j].1 == e;
        assert j != 0;
        assert q[1..][j - 1].1 == e;
      }
    }

    /** Popping an entry whose target `t` is alive, exploring `t` and queueing its unexplored
        out-edges keeps the closure. */
    lemma ClosedPopLive(explored: set<T>, q: seq<(real, Edge)>, t: T, base: real)
      requires Closed(explored, q) && q != []
      requires Upgrade(q[0].1.to).Some? && Upgrade(q[0].1.to).value.id == t
      ensures t !in edges ==> Closed(explored + {t}, q[1..])
      ensures t in edges ==> Closed(explored + {t}, q[1..] + Expand(base, edges[t], explored + {t}))
    {
      var x := explored + {t};
      var more := if t in edges then Expand(base, edges[t], x) else [];
      var q2 := q[1..] + more;
      if t in edges {
        ExpandEntries(base, edges[t], x);
      }
      forall k, e | k in x && k in edges && e in edges[k] && Upgrade(e.to).Some? &&
        Upgrade(e.to).value.id !in x
        ensures Queued(q2, e)
      {
        if k == t {
          assert (base + WeightOr1(e), e) in more;
          var i :| 0 <= i < |more| && more[i] == (base + WeightOr1(e), e);
          assert q2[|q| - 1 + i].1 == e;
        } else {
          var j :| 0 <= j < |q| && q[j].1 == e;
          assert j != 0;
          assert q2[j - 1].1 == e;
        }
      }
      assert t !in edges ==> q2 == q[1..];
    }

    /** Nodes reached by a walk from a closed set of nodes stay inside it. */
    lemma {:induction false} WalkStaysIn(s: set<T>, w: seq<T>, a: T, b: T)
      requires forall k, e :: k in s && k in edges && e in edges[k] && Upgrade(e.to).Some? ==>
        Upgrade(e.to).value.id in s
      requires a in s && IsWalk(w, a, b)
      ensures b in s
      decreases |w|
    {
      if |w| > 1 {
        var w' := w[..|w| - 1];
        assert IsWalk(w', a, w[|w| - 2]) by {
          forall i | 0 <= i < |w'| - 1 ensures Step(w'[i], w'[i + 1]) {
            assert Step(w[i], w[i + 1]);
          }
        }
        WalkStaysIn(s, w', a, w[|w| - 2]);
        assert Step(w[|w| - 2], b);
      }
    }

    /** Once the queue is empty, the recorded nodes are closed under live edges and hold every
        node reachable from the start. */
    lemma Exhausted(explored: set<T>, distances: map<T, real>, start: T)
      requires Closed(explored, []) && start in distances
      requires forall k :: k in explored <==> k in distances
      ensures forall k, e :: k in distances && k in edges && e in edges[k] && Upgrade(e.to).Some? ==>
        Upgrade(e.to).value.id in distances
      ensures forall w, b :: IsWalk(w, start, b) ==> b in distances
    {
      forall w, b | IsWalk(w, start, b) ensures b in distances {
        WalkStaysIn(distances.Keys, w, start, b);
      }
    }

    /** `bfs(start, end)`. The loops run for at most `fuel` steps each; `parents` is the map the
        search builds, returned as a ghost value so the path can be stated against it. */
    method Bfs(start: T, end: Option<T>, fuel: nat) returns (r: BfsResult<T>, ghost parents: map<T, T>)
      ensures r == BfsErr("start node not found in adjacency list") <==> start !in edges
      ensures r.BfsOk? ==> forall k :: k in r.distances <==> k == start || k in parents
      ensures r.BfsOk? ==> ParentsAreEdges(parents)
      ensures r.BfsOk? && r.path.Some? ==>
        end.Some? && end.value in parents && IsBacktrace(r.path.value, parents, end.value)
      ensures r.BfsOk? && r.path.None? && end.Some? ==>
        end.value !in parents && (end.value in r.distances ==> end.value == start)
      ensures EdgesWellFormed() ==> !r.Panicked?
      ensures r.BfsOk? && r.path.None? ==>
        forall k, e :: k in r.distances && k in edges && e in edges[k] && Upgrade(e.to).Some? ==>
          Upgrade(e.to).value.id in r.distances
      ensures forall w, b :: r.BfsOk? && r.path.None? && IsWalk(w, start, b) ==> b in r.distances
      ensures forall w :: r.BfsOk? && end.Some? && end.value != start && IsWalk(w, start, end.value) ==>
        r.path.Some?
    {
      var parentMap: map<T, T> := map[];
      var explored: set<T> := {start};
      var distances: map<T, real> := map[start := 0.0];
      if start !in edges {
        return BfsErr("start node not found in adjacency list"), parentMap;
      }
      var q := QueueStartEdges(edges[start]);
      StartEdgesStored(start);
      ClosedStart(start);
      var steps := fuel;
      while q != []
        invariant forall k :: k in distances <==> k == start || k in parentMap
        invariant QueuedEdgesStored(q)
        invariant end.Some? ==> end.value !in parentMap
        invariant ParentsAreEdges(parentMap)
        invariant forall k :: k in explored <==> k in distances
        invariant Closed(explored, q)
        decreases steps
      {
        if steps == 0 {
          return OutOfFuel, parentMap;
        }
        steps := steps - 1;
        var (currentDistance, edge) := q[0];
        assert IsEdge(edge);
        ghost var q0, explored0 := q, explored;
        q := q[1..];
        var target := Upgrade(edge.to);
        if target.None? {
          ClosedPopDead(explored, q0);
          continue;
        }
        var t := target.value.id;
        distances := distances[t := currentDistance];
        explored := explored + {t};
        var source := Upgrade(edge.from);
        if source.None? {
          return Panicked, parentMap;
        }
        RecordParent(parentMap, edge);
        parentMap := parentMap[t := source.value.id];
        if end.Some? && t == end.value {
          var path := Backtrace(parentMap, t, fuel);
          if path.None? {
            return OutOfFuel, parentMap;
          }
          return BfsOk(path, distances), parentMap;
        }
        ClosedPopLive(explored0, q0, t, currentDistance);
        if t in edges {
          ExpandStored(q, currentDistance, t, explored);
          q := QueueUnexplored(q, currentDistance, edges[t], explored);
        }
      }
      Exhausted(explored, distances, start);
      return BfsOk(None, distances), parentMap;
    }
  }
}
