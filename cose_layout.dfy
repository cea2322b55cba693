/**
 * The CoSE layout task of a partition (layout/cose/CoseLayoutAlgorithmTask.java):
 * builds the compound graph node by node, routes the edges, lets the engine
 * run, writes the engine's leaf centres back into the layout nodes and moves
 * the nodes, unless the layout task is cancelled or the engine fails on the way.
 *
 * The layout task's `cancelled` flag is set from another thread; it is modelled as a
 * schedule of the polls that see it set. Polls are numbered in program
 * order: poll i after the i-th node (0 <= i < N), poll N + j before the j-th
 * edge, poll N + E before the engine runs and poll N + E + 1 after it. Once
 * set the flag stays set, so a schedule is the first poll that sees it.
 */
module CoseLayout {
  import opened Wrappers
  import opened Clusters
  import opened CoseGraph

  /** A Cytoscape LayoutNode: a node view's centre, which the layout rewrites, and its size. */
  class LayoutNode {
    const node: NodeRef
    const width: real
    const height: real
    var x: real
    var y: real

    constructor (node: NodeRef, x: real, y: real, width: real, height: real)
      ensures this.node == node && this.x == x && this.y == y
      ensures this.width == width && this.height == height
    {
      this.node := node;
      this.width := width;
      this.height := height;
      this.x := x;
      this.y := y;
    }

    function State(): NodeState
      reads this
    {
      NodeState(node, x, y, width, height)
    }
  }

  /** What the layout task reads from each node, in partition order. */
  function States(nodes: seq<LayoutNode>): (r: seq<NodeState>)
    reads nodes
    ensures |r| == |nodes|
    ensures forall i :: 0 <= i < |nodes| ==> r[i] == nodes[i].State()
  {
    if nodes == [] then [] else States(nodes[..|nodes| - 1]) + [nodes[|nodes| - 1].State()]
  }

  /** A node view moved to a location. */
  datatype Move = Move(node: NodeRef, location: Point)

  function MovesOf(nodes: seq<LayoutNode>): (r: seq<Move>)
    reads nodes
    ensures |r| == |nodes|
    ensures forall i :: 0 <= i < |nodes| ==> r[i] == Move(nodes[i].node, Point(nodes[i].x, nodes[i].y))
  {
    if nodes == [] then [] else MovesOf(nodes[..|nodes| - 1]) + [Move(nodes[|nodes| - 1].node, Point(nodes[|nodes| - 1].x, nodes[|nodes| - 1].y))]
  }

  /** A Cytoscape LayoutPartition: its nodes and edges, and the node moves it has made. */
  class LayoutPartition {
    const nodeList: seq<LayoutNode>
    const edgeList: seq<LayoutEdge>
    var moves: seq<Move>

    /** A partition holds each node once. */
    ghost predicate Valid()
      reads this
    {
      forall i, j :: 0 <= i < j < |nodeList| ==> nodeList[i].node != nodeList[j].node
    }

    constructor (nodeList: seq<LayoutNode>, edgeList: seq<LayoutEdge>)
      ensures this.nodeList == nodeList && this.edgeList == edgeList && moves == []
    {
      this.nodeList := nodeList;
      this.edgeList := edgeList;
      moves := [];
    }

    /** moveNodeToLocation: moves the node's view to the node's current centre. */
    method MoveNodeToLocation(n: LayoutNode)
      modifies this`moves
      ensures moves == old(moves) + [Move(n.node, Point(n.x, n.y))]
    {
      moves := moves + [Move(n.node, Point(n.x, n.y))];
    }
  }

  datatype CancelSchedule = NeverCancelled | CancelledFromPoll(poll: nat)

  /** Whether the poll numbered `poll` sees the flag set. */
  predicate Sees(cancel: CancelSchedule, poll: nat)
  {
    cancel.CancelledFromPoll? && cancel.poll <= poll
  }

  /** The nodes the node loop handles: up to and including the one after which it sees the flag. */
  function NodesHandled(cancel: CancelSchedule, n: nat): (r: nat)
    ensures r <= n && (n > 0 ==> r > 0)
    ensures r > 1 ==> !Sees(cancel, r - 2)
    ensures r < n ==> Sees(cancel, r - 1)
  {
    if cancel.CancelledFromPoll? && cancel.poll < n then cancel.poll + 1 else n
  }

  /** The edges the edge loop handles when its first poll is `firstPoll`: those before the first poll that sees the flag. */
  function EdgesHandled(cancel: CancelSchedule, firstPoll: nat, e: nat): (r: nat)
    ensures r <= e
    ensures r > 0 ==> !Sees(cancel, firstPoll + r - 1)
    ensures r < e ==> Sees(cancel, firstPoll + r)
  {
    if cancel.CancelledFromPoll? && cancel.poll < firstPoll + e then
      if cancel.poll <= firstPoll then 0 else cancel.poll - firstPoll
    else e
  }

  /** What the physics engine does: fail, or settle every body at a final centre (by body number). */
  datatype Physics = Throws | Converges(centre: nat -> Point)

  datatype LayoutOutcome = NoClusters | Cancelled | EngineFailed | Moved

  /** VNode.update: a leaf's vertex takes the body's final centre; a group's vertex (null) ignores it. */
  method VNodeUpdate(layoutNode: LayoutNode?, centre: Point)
    modifies layoutNode
    ensures layoutNode != null ==> layoutNode.x == centre.x && layoutNode.y == centre.y
  {
    if layoutNode != null {
      layoutNode.x := centre.x;
      layoutNode.y := centre.y;
    }
  }

  /**
   * The engine's update pass after convergence: every body's vertex is
   * updated with that body's final centre, so each node with a leaf takes its
   * leaf's centre and every other node keeps its place.
   */
  method ApplyPositions(nodes: seq<LayoutNode>, bodies: seq<Body>, centre: nat -> Point)
    requires forall i, j :: 0 <= i < j < |nodes| ==> nodes[i] != nodes[j]
    requires forall b :: 0 <= b < |bodies| && bodies[b].vertex.Leaf? ==> bodies[b].vertex.index < |nodes|
    requires LeavesUnique(bodies)
    modifies nodes
    ensures forall b :: 0 <= b < |bodies| && bodies[b].vertex.Leaf? ==>
      Point(nodes[bodies[b].vertex.index].x, nodes[bodies[b].vertex.index].y) == centre(b)
    ensures forall i :: 0 <= i < |nodes| && (forall b :: 0 <= b < |bodies| ==> bodies[b].vertex != Leaf(i)) ==>
      nodes[i].x == old(nodes[i].x) && nodes[i].y == old(nodes[i].y)
  {
    var k := 0;
    while k < |bodies|
      invariant 0 <= k <= |bodies|
      invariant forall b :: 0 <= b < k && bodies[b].vertex.Leaf? ==>
        Point(nodes[bodies[b].vertex.index].x, nodes[bodies[b].vertex.index].y) == centre(b)
      invariant forall i :: 0 <= i < |nodes| && (forall b :: 0 <= b < k ==> bodies[b].vertex != Leaf(i)) ==>
        nodes[i].x == old(nodes[i].x) && nodes[i].y == old(nodes[i].y)
    {
      var v := bodies[k].vertex;
      var layoutNode: LayoutNode? := if v.Leaf? then nodes[v.index] else null;
      VNodeUpdate(layoutNode, centre(k));
      k := k + 1;
    }
  }

  /** The final loop: every node of the partition is moved once, in partition order. */
  method MoveAll(partition: LayoutPartition)
    modifies partition`moves
    ensures partition.moves == old(partition.moves) + MovesOf(partition.nodeList)
  {
    var i := 0;
    while i < |partition.nodeList|
      invariant 0 <= i <= |partition.nodeList|
      invariant partition.moves == old(partition.moves) + MovesOf(partition.nodeList[..i])
    {
      partition.MoveNodeToLocation(partition.nodeList[i]);
      assert partition.nodeList[..i + 1][..i] == partition.nodeList[..i];
      i := i + 1;
    }
    assert partition.nodeList[..i] == partition.nodeList;
  }

  class CoseLayoutTask {
    const useCatchallCluster: bool

    constructor (useCatchallCluster: bool)
      ensures this.useCatchallCluster == useCatchallCluster
    {
      this.useCatchallCluster := useCatchallCluster;
    }

    /** getClusterKey: scans the clusters in iteration order for the first that holds the node. */
    method GetClusterKey(clusters: seq<Cluster>, n: NodeRef) returns (r: Option<ClusterKey>)
      ensures r == KeyOf(clusters, useCatchallCluster, n)
    {
      var i := 0;
      while i < |clusters|
        invariant 0 <= i <= |clusters|
        invariant forall j :: 0 <= j < i ==> !clusters[j].Contains(n)
      {
        if clusters[i].Contains(n) {
          return Some(ClusterKey(clusters[i]));
        }
        i := i + 1;
      }
      if useCatchallCluster {
        return Some(ClusterKey(null));
      }
      return None;
    }

    /**
     * The node loop of layoutPhase1: the graph built from the nodes handled
     * before the loop sees the flag (the node after which it sees it included).
     */
    method BuildCompound(nodes: seq<LayoutNode>, clusters: seq<Cluster>, boxOf: Cluster -> Box, cancel: CancelSchedule)
      returns (c: Compound, handled: nat, cancelled: bool)
      ensures handled == NodesHandled(cancel, |nodes|)
      ensures cancelled <==> handled > 0 && Sees(cancel, handled - 1)
      ensures c == Build(States(nodes)[..handled], KeysFor(States(nodes), clusters, useCatchallCluster)[..handled], boxOf)
    {
      ghost var states := States(nodes);
      ghost var keys := KeysFor(states, clusters, useCatchallCluster);
      c := EmptyCompound;
      cancelled := false;
      var i := 0;
      while i < |nodes| && !cancelled
        invariant 0 <= i <= |nodes|
        invariant i > 1 ==> !Sees(cancel, i - 2)
        invariant cancelled <==> i > 0 && Sees(cancel, i - 1)
        invariant c == Build(states[..i], keys[..i], boxOf)
      {
        BuildPrefixStep(states, keys, boxOf, i);
        c := PlaceNode(c, nodes[i], i, clusters, boxOf);
        i := i + 1;
        cancelled := Sees(cancel, i - 1);
      }
      handled := i;
    }

    /**
     * The body of the node loop for the node at `index`: the node's cluster
     * key (getClusterKey); the key's group and subgraph, created on first use
     * (createParentNode); then the node's leaf (createLNode) in that subgraph,
     * or in the root graph when the node has no key.
     */
    method PlaceNode(c: Compound, n: LayoutNode, index: nat, clusters: seq<Cluster>, boxOf: Cluster -> Box)
      returns (r: Compound)
      ensures r == AddNode(c, n.State(), index, KeyOf(clusters, useCatchallCluster, n.node), boxOf)
    {
      var clusterKey := GetClusterKey(clusters, n.node);
      var s := NodeState(n.node, n.x, n.y, n.width, n.height);
      r := c;
      if clusterKey.Some? {
        var parent: nat;
        if clusterKey.value in r.clusterToGraph {
          parent := r.clusterToGraph[clusterKey.value];
        } else {
          parent := |r.bodies|;
          r := r.(bodies := r.bodies + [GroupBody(clusterKey.value, boxOf)],
                  clusterToGraph := r.clusterToGraph[clusterKey.value := parent]);
        }
        var ln := |r.bodies|;
        r := r.(bodies := r.bodies + [LeafBody(s, index, Some(parent))],
                nodeToNode := r.nodeToNode[s.node := ln],
                nodeToParentNode := r.nodeToParentNode[ln := parent]);
      } else {
        var ln := |r.bodies|;
        r := r.(bodies := r.bodies + [LeafBody(s, index, None)],
                nodeToNode := r.nodeToNode[s.node := ln]);
      }
    }

    /**
     * The edge loop of layoutPhase1: routes the edges handled before a poll
     * sees the flag, one createLEdge per edge.
     */
    method RouteEdges(c: Compound, edges: seq<LayoutEdge>, cancel: CancelSchedule, firstPoll: nat)
      returns (routed: seq<CompoundEdge>, handled: nat)
      ensures handled == EdgesHandled(cancel, firstPoll, |edges|)
      ensures routed == RouteAll(c, edges[..handled])
    {
      routed := [];
      var j := 0;
      while j < |edges| && !Sees(cancel, firstPoll + j)
        invariant 0 <= j <= |edges|
        invariant j > 0 ==> !Sees(cancel, firstPoll + j - 1)
        invariant routed == RouteAll(c, edges[..j])
      {
        var le := edges[j];
        var source := Lookup(c.nodeToNode, le.source);
        var target := Lookup(c.nodeToNode, le.target);
        var sourceParent := if source.Some? then Lookup(c.nodeToParentNode, source.value) else None;
        var targetParent := if target.Some? then Lookup(c.nodeToParentNode, target.value) else None;
        var edge: Option<CompoundEdge>;
        if sourceParent == targetParent {
          edge := Link(source, target);
        } else if sourceParent.None? {
          edge := Link(source, targetParent);
        } else if targetParent.None? {
          edge := Link(target, sourceParent);
        } else {
          edge := Link(sourceParent, targetParent);
        }
        assert edge == RouteEdge(c, le);
        if edge.Some? {
          routed := routed + [edge.value];
        }
        assert edges[..j + 1][..j] == edges[..j] && edges[..j + 1][j] == le;
        j := j + 1;
      }
      handled := j;
    }

    /**
     * layoutPartition: with no clusters to lay out nothing happens; otherwise
     * phase 1 runs.
     */
    method LayoutPartition(partition: LayoutPartition, clusters: seq<Cluster>, boxOf: Cluster -> Box,
                           cancel: CancelSchedule, physics: Physics)
      returns (outcome: LayoutOutcome)
      requires partition.Valid()
      modifies partition`moves, partition.nodeList
      ensures outcome == NoClusters <==> clusters == []
      ensures outcome == NoClusters ==> unchanged(partition) && unchanged(partition.nodeList)
      ensures outcome != NoClusters ==>
        PhaseOneEnded(|partition.nodeList|, |partition.edgeList|, cancel, physics, outcome)
      ensures outcome == Moved ==> partition.moves == old(partition.moves) + MovesOf(partition.nodeList)
      ensures outcome != Moved ==> partition.moves == old(partition.moves)
    {
      if clusters == [] {
        return NoClusters;
      }
      ghost var graph;
      outcome, graph := LayoutPhase1(partition, clusters, boxOf, cancel, physics);
    }

    /**
     * The two loops of layoutPhase1: the node loop, which returns from the
     * task (`stopped`) when a poll after a node sees the flag, then the edge
     * loop. Unless a poll up to the one before the engine sees the flag, the
     * graph holds every node and every edge.
     */
    method BuildGraph(nodes: seq<LayoutNode>, edges: seq<LayoutEdge>, clusters: seq<Cluster>, boxOf: Cluster -> Box,
                      cancel: CancelSchedule)
      returns (graph: Compound, stopped: bool)
      ensures stopped <==> |nodes| > 0 && Sees(cancel, |nodes| - 1)
      ensures stopped ==> Sees(cancel, |nodes| + |edges|)
      ensures !stopped ==>
        graph == Assemble(States(nodes), KeysFor(States(nodes), clusters, useCatchallCluster),
                          edges[..EdgesHandled(cancel, |nodes|, |edges|)], boxOf)
      ensures !Sees(cancel, |nodes| + |edges|) ==>
        !stopped && graph == Assemble(States(nodes), KeysFor(States(nodes), clusters, useCatchallCluster), edges, boxOf)
    {
      ghost var states := States(nodes);
      ghost var keys := KeysFor(states, clusters, useCatchallCluster);
      var c, handled, cancelled := BuildCompound(nodes, clusters, boxOf, cancel);
      if cancelled {
        return c, true;
      }
      assert handled == |nodes| && states[..handled] == states && keys[..handled] == keys;
      var routed, edgesHandled := RouteEdges(c, edges, cancel, |nodes|);
      graph, stopped := c.(edges := routed), false;
      if !Sees(cancel, |nodes| + |edges|) {
        assert edges[..edgesHandled] == edges;
      }
    }

    /**
     * layoutPhase1: builds the compound graph from the partition's nodes and
     * edges, runs the engine, and moves every node to its leaf's final centre,
     * stopping at the first poll that sees the layout task cancelled. `graph` is the
     * compound graph the engine is given.
     */
    method LayoutPhase1(partition: LayoutPartition, clusters: seq<Cluster>, boxOf: Cluster -> Box,
                        cancel: CancelSchedule, physics: Physics)
      returns (outcome: LayoutOutcome, ghost graph: Compound)
      requires partition.Valid()
      modifies partition`moves, partition.nodeList
      ensures PhaseOneEnded(|partition.nodeList|, |partition.edgeList|, cancel, physics, outcome)
      ensures !Sees(cancel, |partition.nodeList| + |partition.edgeList|) ==>
        var states := old(States(partition.nodeList));
        graph == Assemble(states, KeysFor(states, clusters, useCatchallCluster), partition.edgeList, boxOf)
      ensures Positioned(|partition.nodeList|, |partition.edgeList|, cancel, physics) ==>
        forall i :: 0 <= i < |partition.nodeList| ==>
          partition.nodeList[i].node in graph.nodeToNode &&
          Point(partition.nodeList[i].x, partition.nodeList[i].y) == physics.centre(graph.nodeToNode[partition.nodeList[i].node])
      ensures !Positioned(|partition.nodeList|, |partition.edgeList|, cancel, physics) ==> unchanged(partition.nodeList)
      ensures outcome == Moved ==> partition.moves == old(partition.moves) + MovesOf(partition.nodeList)
      ensures outcome != Moved ==> partition.moves == old(partition.moves)
    {
      var nodes, edges := partition.nodeList, partition.edgeList;
      var g, stopped := BuildGraph(nodes, edges, clusters, boxOf, cancel);
      graph := g;
      if stopped || Sees(cancel, |nodes| + |edges|) {
        assert Sees(cancel, |nodes| + |edges|);
        outcome := Cancelled;
        assert PhaseOneEnded(|nodes|, |edges|, cancel, physics, outcome);
      } else {
        BuiltLeaves(nodes, edges, clusters, useCatchallCluster, boxOf);
        outcome := RunEngine(partition, g, physics, Sees(cancel, |nodes| + |edges| + 1));
        assert PhaseOneEnded(|nodes|, |edges|, cancel, physics, outcome);
      }
    }
  }

  /**
   * Each node of `nodes` has exactly one leaf body, the one nodeToNode names
   * for it, and every leaf body stands for one of the nodes.
   */
  ghost predicate LeavesOf(nodes: seq<LayoutNode>, c: Compound)
  {
    (forall b :: 0 <= b < |c.bodies| && c.bodies[b].vertex.Leaf? ==> c.bodies[b].vertex.index < |nodes|) &&
    LeavesUnique(c.bodies) &&
    (forall i :: 0 <= i < |nodes| ==>
      nodes[i].node in c.nodeToNode && c.nodeToNode[nodes[i].node] < |c.bodies| &&
      c.bodies[c.nodeToNode[nodes[i].node]].vertex == Leaf(i))
  }

  /** The graph the node loop builds from a whole partition gives each of its nodes one leaf. */
  lemma BuiltLeaves(nodes: seq<LayoutNode>, edges: seq<LayoutEdge>, clusters: seq<Cluster>, useCatchall: bool, boxOf: Cluster -> Box)
    requires forall i, j :: 0 <= i < j < |nodes| ==> nodes[i].node != nodes[j].node
    ensures LeavesOf(nodes, Assemble(States(nodes), KeysFor(States(nodes), clusters, useCatchall), edges, boxOf))
  {
    var states := States(nodes);
    var keys := KeysFor(states, clusters, useCatchall);
    assert forall i :: 0 <= i < |nodes| ==> states[i].node == nodes[i].node;
    BuildWellBuilt(states, keys, boxOf);
    LeafOfEachNode(states, keys, boxOf, Build(states, keys, boxOf));
  }

  /**
   * runLayout and the rest of layoutPhase1: an engine that throws ends the
   * task with nothing changed; one that converges has its update pass take
   * every node to its leaf's final centre, and then, unless the poll after the
   * run sees the flag, every node is moved.
   */
  method RunEngine(partition: LayoutPartition, c: Compound, physics: Physics, cancelledAfterRun: bool)
    returns (outcome: LayoutOutcome)
    requires partition.Valid()
    requires LeavesOf(partition.nodeList, c)
    modifies partition`moves, partition.nodeList
    ensures physics.Throws? ==> outcome == EngineFailed && unchanged(partition.nodeList)
    ensures physics.Converges? ==> outcome == if cancelledAfterRun then Cancelled else Moved
    ensures physics.Converges? ==> forall i :: 0 <= i < |partition.nodeList| ==>
      partition.nodeList[i].node in c.nodeToNode &&
      Point(partition.nodeList[i].x, partition.nodeList[i].y) == physics.centre(c.nodeToNode[partition.nodeList[i].node])
    ensures outcome == Moved ==> partition.moves == old(partition.moves) + MovesOf(partition.nodeList)
    ensures outcome != Moved ==> partition.moves == old(partition.moves)
  {
    if physics.Throws? {
      return EngineFailed;
    }
    var nodes := partition.nodeList;
    ApplyPositions(nodes, c.bodies, physics.centre);
    assert forall i :: 0 <= i < |nodes| ==>
      nodes[i].node in c.nodeToNode && Point(nodes[i].x, nodes[i].y) == physics.centre(c.nodeToNode[nodes[i].node]) by {
      forall i | 0 <= i < |nodes|
        ensures nodes[i].node in c.nodeToNode && Point(nodes[i].x, nodes[i].y) == physics.centre(c.nodeToNode[nodes[i].node])
      {
        var b := c.nodeToNode[nodes[i].node];
        assert c.bodies[b].vertex == Leaf(i);
      }
    }
    if cancelledAfterRun {
      return Cancelled;
    }
    MoveAll(partition);
    outcome := Moved;
  }

  /**
   * How phase 1 ends for a partition of n nodes and e edges: cancelled when a
   * poll up to the one before the engine sees the flag, else as the engine
   * goes, and cancelled again when the poll after the engine sees it.
   */
  predicate PhaseOneEnded(n: nat, e: nat, cancel: CancelSchedule, physics: Physics, outcome: LayoutOutcome)
  {
    (Sees(cancel, n + e) ==> outcome == Cancelled) &&
    (!Sees(cancel, n + e) && physics.Throws? ==> outcome == EngineFailed) &&
    (!Sees(cancel, n + e) && physics.Converges? && Sees(cancel, n + e + 1) ==> outcome == Cancelled) &&
    (!Sees(cancel, n + e) && physics.Converges? && !Sees(cancel, n + e + 1) ==> outcome == Moved)
  }

  /** The engine runs to completion, so its update pass moves the nodes. */
  predicate Positioned(n: nat, e: nat, cancel: CancelSchedule, physics: Physics)
  {
    physics.Converges? && !Sees(cancel, n + e)
  }
}
