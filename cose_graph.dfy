/**
 * The compound graph that the CoSE layout task (layout/cose/CoseLayoutAlgorithmTask.java)
 * hands to the physics engine, as values.
 *
 * Each partition node becomes a leaf body; each distinct cluster key becomes
 * one group body in the root graph whose subgraph holds the leaves of that
 * key; each original edge is re-attached to leaves or groups so that it
 * never crosses from one graph into another. Bodies are numbered in the order
 * the layout task adds them; a body's `graph` is None for the root graph and
 * Some(g) for the subgraph owned by group body g.
 */
module CoseGraph {
  import opened Wrappers
  import opened Clusters

  datatype Point = Point(x: real, y: real)

  /** A partition node as the layout task reads it: its node, centre and size. */
  datatype NodeState = NodeState(node: NodeRef, x: real, y: real, width: real, height: real)

  /** An edge of the partition, by its end nodes. */
  datatype LayoutEdge = LayoutEdge(source: NodeRef, target: NodeRef)

  /** A cluster's CoordinateData, reduced to the box it describes. */
  datatype Box = Box(centerX: real, centerY: real, width: real, height: real)

  const ZeroBox: Box := Box(0.0, 0.0, 0.0, 0.0)

  /** Wraps a cluster, or null for the catch-all group; equal exactly when the clusters are the same object. */
  datatype ClusterKey = ClusterKey(cluster: Cluster?)

  /** ClusterKey.equals: compares the wrapped clusters by reference. */
  function KeyEquals(a: ClusterKey, b: ClusterKey): (r: bool)
    ensures r <==> a == b
  {
    a.cluster == b.cluster
  }

  /** Two different cluster objects never share a group, even with the same members. */
  lemma SameMembersDifferentKeys(c1: Cluster, c2: Cluster)
    requires c1 != c2 && c1.GetNodes() == c2.GetNodes()
    ensures !KeyEquals(ClusterKey(c1), ClusterKey(c2))
  {
  }

  /** ClusterKey.getCoordinateData: the cluster's box, or an all-zero box for the catch-all key. */
  function KeyBox(k: ClusterKey, boxOf: Cluster -> Box): (b: Box)
    ensures k.cluster == null ==> b == ZeroBox
  {
    if k.cluster == null then ZeroBox else boxOf(k.cluster)
  }

  /** What a body stands for: the partition node at `index`, or the group of a key. */
  datatype Vertex = Leaf(index: nat) | Group(key: ClusterKey)

  /** An engine node: its vertex, the graph it was added to, its top-left corner and its size. */
  datatype Body = Body(vertex: Vertex, graph: Option<nat>, left: real, top: real, width: real, height: real)

  datatype CompoundEdge = CompoundEdge(source: nat, target: nat)

  /** The engine's view of a body's centre. */
  function Centre(b: Body): Point
  {
    Point(b.left + b.width / 2.0, b.top + b.height / 2.0)
  }

  /** createLNode: the top-left corner is the node's centre less half its size; the size is copied. */
  function LeafBody(s: NodeState, index: nat, graph: Option<nat>): (b: Body)
    ensures Centre(b) == Point(s.x, s.y)
    ensures b.width == s.width && b.height == s.height
    ensures b.vertex == Leaf(index) && b.graph == graph
  {
    Body(Leaf(index), graph, s.x - s.width / 2.0, s.y - s.height / 2.0, s.width, s.height)
  }

  /** createParentNode on the root graph, with the same translation from the key's box. */
  function GroupBody(k: ClusterKey, boxOf: Cluster -> Box): (b: Body)
    ensures Centre(b) == Point(KeyBox(k, boxOf).centerX, KeyBox(k, boxOf).centerY)
    ensures b.width == KeyBox(k, boxOf).width && b.height == KeyBox(k, boxOf).height
    ensures b.vertex == Group(k) && b.graph == None
    ensures k.cluster == null ==> b.left == 0.0 && b.top == 0.0 && b.width == 0.0 && b.height == 0.0
  {
    var d := KeyBox(k, boxOf);
    Body(Group(k), None, d.centerX - d.width / 2.0, d.centerY - d.height / 2.0, d.width, d.height)
  }

  // ---------------------------------------------------------------------
  // Cluster keys

  /** The position of the first cluster, in iteration order, that holds `n`. */
  function FirstContaining(clusters: seq<Cluster>, n: NodeRef): (r: Option<nat>)
    ensures r.Some? ==> r.value < |clusters| && clusters[r.value].Contains(n)
    ensures r.Some? ==> forall j :: 0 <= j < r.value ==> !clusters[j].Contains(n)
    ensures r.None? <==> forall j :: 0 <= j < |clusters| ==> !clusters[j].Contains(n)
  {
    if clusters == [] then None
    else if clusters[0].Contains(n) then Some(0)
    else
      match FirstContaining(clusters[1..], n)
      case None => None
      case Some(i) => Some(i + 1)
  }

  /**
   * getClusterKey: the key of the first cluster holding `n`; failing that the
   * catch-all key when it is enabled, and no key otherwise.
   */
  function KeyOf(clusters: seq<Cluster>, useCatchall: bool, n: NodeRef): (r: Option<ClusterKey>)
    ensures r.Some? && r.value.cluster != null ==>
      exists i :: 0 <= i < |clusters| && clusters[i] == r.value.cluster && clusters[i].Contains(n) &&
        forall j :: 0 <= j < i ==> !clusters[j].Contains(n)
    ensures (r.None? || r.value.cluster == null) <==> forall j :: 0 <= j < |clusters| ==> !clusters[j].Contains(n)
    ensures r.None? ==> !useCatchall
    ensures r == Some(ClusterKey(null)) <==> useCatchall && forall j :: 0 <= j < |clusters| ==> !clusters[j].Contains(n)
  {
    match FirstContaining(clusters, n)
    case Some(i) => Some(ClusterKey(clusters[i]))
    case None => if useCatchall then Some(ClusterKey(null)) else None
  }

  /** With the catch-all enabled, every node that no cluster holds lands in the one shared catch-all group. */
  lemma UnclusteredShareCatchall(clusters: seq<Cluster>, a: NodeRef, b: NodeRef)
    requires forall j :: 0 <= j < |clusters| ==> !clusters[j].Contains(a) && !clusters[j].Contains(b)
    ensures KeyOf(clusters, true, a) == KeyOf(clusters, true, b) == Some(ClusterKey(null))
  {
  }

  /** When the clusters are disjoint, a member of a cluster gets that cluster's key whatever the iteration order. */
  lemma DisjointClustersKeyIsOwner(clusters: seq<Cluster>, useCatchall: bool, i: nat, n: NodeRef)
    requires i < |clusters| && clusters[i].Contains(n)
    requires forall j :: 0 <= j < |clusters| && j != i ==> !clusters[j].Contains(n)
    ensures KeyOf(clusters, useCatchall, n) == Some(ClusterKey(clusters[i]))
  {
    var r := FirstContaining(clusters, n);
    assert r.Some?;
  }

  // ---------------------------------------------------------------------
  // Building the compound graph

  /** The engine's graph manager and the layout task's three maps, as the layout task fills them. */
  datatype Compound = Compound(
    bodies: seq<Body>,
    edges: seq<CompoundEdge>,
    clusterToGraph: map<ClusterKey, nat>,
    nodeToNode: map<NodeRef, nat>,
    nodeToParentNode: map<nat, nat>)

  const EmptyCompound: Compound := Compound([], [], map[], map[], map[])

  /** createParentNode, and the new subgraph recorded under its key. */
  function AddGroup(c: Compound, k: ClusterKey, boxOf: Cluster -> Box): (r: Compound)
    ensures r.bodies == c.bodies + [GroupBody(k, boxOf)] && k in r.clusterToGraph && r.clusterToGraph[k] == |c.bodies|
    ensures r.nodeToNode == c.nodeToNode && r.nodeToParentNode == c.nodeToParentNode
  {
    c.(bodies := c.bodies + [GroupBody(k, boxOf)],
       clusterToGraph := c.clusterToGraph[k := |c.bodies|])
  }

  /** createLNode into the root graph (None) or a group's subgraph, recorded in nodeToNode and, under a group, in nodeToParentNode. */
  function AddLeaf(c: Compound, s: NodeState, index: nat, graph: Option<nat>): (r: Compound)
  {
    c.(bodies := c.bodies + [LeafBody(s, index, graph)],
       nodeToNode := c.nodeToNode[s.node := |c.bodies|],
       nodeToParentNode := if graph.Some? then c.nodeToParentNode[|c.bodies| := graph.value] else c.nodeToParentNode)
  }

  /**
   * One turn of the node loop: a keyed node gets its key's group (added on
   * first use) and a leaf in the group's subgraph; a keyless node gets a leaf
   * in the root graph.
   */
  function AddNode(c: Compound, s: NodeState, index: nat, key: Option<ClusterKey>, boxOf: Cluster -> Box): (r: Compound)
  {
    match key
    case None => AddLeaf(c, s, index, None)
    case Some(k) =>
      if k in c.clusterToGraph then AddLeaf(c, s, index, Some(c.clusterToGraph[k]))
      else AddLeaf(AddGroup(c, k, boxOf), s, index, Some(|c.bodies|))
  }

  /** The key of every node, in partition order. */
  function KeysFor(states: seq<NodeState>, clusters: seq<Cluster>, useCatchall: bool): (keys: seq<Option<ClusterKey>>)
    ensures |keys| == |states|
    ensures forall i :: 0 <= i < |states| ==> keys[i] == KeyOf(clusters, useCatchall, states[i].node)
  {
    seq(|states|, i requires 0 <= i < |states| => KeyOf(clusters, useCatchall, states[i].node))
  }

  /** The compound graph after the node loop has handled every node of `states`, whose keys are `keys`. */
  function Build(states: seq<NodeState>, keys: seq<Option<ClusterKey>>, boxOf: Cluster -> Box): (r: Compound)
    requires |keys| == |states|
  {
    if states == [] then EmptyCompound
    else
      var m := |states| - 1;
      AddNode(Build(states[..m], keys[..m], boxOf), states[m], m, keys[m], boxOf)
  }

  /** The compound graph handed to the engine: the nodes' graph with the routed edges. */
  function Assemble(states: seq<NodeState>, keys: seq<Option<ClusterKey>>, edges: seq<LayoutEdge>, boxOf: Cluster -> Box): (r: Compound)
    requires |keys| == |states|
    ensures |r.edges| <= |edges|
  {
    var built := Build(states, keys, boxOf);
    built.(edges := RouteAll(built, edges))
  }

  /** Handling one more node of a sequence extends the graph built from its prefix by that node. */
  lemma BuildPrefixStep(states: seq<NodeState>, keys: seq<Option<ClusterKey>>, boxOf: Cluster -> Box, i: nat)
    requires |keys| == |states| && i < |states|
    ensures Build(states[..i + 1], keys[..i + 1], boxOf)
         == AddNode(Build(states[..i], keys[..i], boxOf), states[i], i, keys[i], boxOf)
  {
    assert states[..i + 1][..i] == states[..i] && keys[..i + 1][..i] == keys[..i];
  }

  predicate DistinctNodes(states: seq<NodeState>)
  {
    forall i, j :: 0 <= i < j < |states| ==> states[i].node != states[j].node
  }

  /** The graph a node's leaf belongs in: its key's subgraph, or the root graph when it has no key. */
  function LeafGraph(key: Option<ClusterKey>, clusterToGraph: map<ClusterKey, nat>): Option<nat>
  {
    if key.Some? && key.value in clusterToGraph then Some(clusterToGraph[key.value]) else None
  }

  /** The distinct keys among `keys`. */
  function KeySet(keys: seq<Option<ClusterKey>>): set<ClusterKey>
  {
    set i | 0 <= i < |keys| && keys[i].Some? :: keys[i].value
  }

  /** nodeToNode holds exactly the partition's nodes. */
  ghost predicate LeafDomain(states: seq<NodeState>, c: Compound)
  {
    forall r :: r in c.nodeToNode <==> exists i :: 0 <= i < |states| && states[i].node == r
  }

  /** Each node's leaf is placed and sized from the node, in the graph of its key. */
  ghost predicate LeafPlacement(states: seq<NodeState>, keys: seq<Option<ClusterKey>>, c: Compound)
    requires |keys| == |states|
  {
    forall i :: 0 <= i < |states| ==>
      states[i].node in c.nodeToNode && c.nodeToNode[states[i].node] < |c.bodies| &&
      c.bodies[c.nodeToNode[states[i].node]] == LeafBody(states[i], i, LeafGraph(keys[i], c.clusterToGraph))
  }

  /** Every leaf body is the one nodeToNode names for its node. */
  ghost predicate LeafIndexed(states: seq<NodeState>, c: Compound)
  {
    forall b :: 0 <= b < |c.bodies| && c.bodies[b].vertex.Leaf? ==>
      c.bodies[b].vertex.index < |states| && states[c.bodies[b].vertex.index].node in c.nodeToNode &&
      c.nodeToNode[states[c.bodies[b].vertex.index].node] == b
  }

  /** Every node has exactly one leaf, placed and sized from the node, in the graph of its key. */
  ghost predicate LeavesBuilt(states: seq<NodeState>, keys: seq<Option<ClusterKey>>, c: Compound)
    requires |keys| == |states|
  {
    LeafDomain(states, c) && LeafPlacement(states, keys, c) && LeafIndexed(states, c)
  }

  /** Exactly one group per key of `ks`, in the root graph, placed from the key's box, beside `leaves` leaves. */
  ghost predicate GroupsBuilt(leaves: nat, ks: set<ClusterKey>, boxOf: Cluster -> Box, c: Compound)
  {
    |c.bodies| == leaves + |c.clusterToGraph| &&
    c.clusterToGraph.Keys == ks &&
    (forall k :: k in c.clusterToGraph ==>
      c.clusterToGraph[k] < |c.bodies| && c.bodies[c.clusterToGraph[k]] == GroupBody(k, boxOf)) &&
    (forall b :: 0 <= b < |c.bodies| && c.bodies[b].vertex.Group? ==>
      c.bodies[b].vertex.key in c.clusterToGraph && c.clusterToGraph[c.bodies[b].vertex.key] == b)
  }

  /** A leaf has a parent entry exactly when its node has a key, and the entry is that key's group. */
  ghost predicate ParentsBuilt(states: seq<NodeState>, keys: seq<Option<ClusterKey>>, c: Compound)
    requires |keys| == |states|
  {
    (forall i :: 0 <= i < |states| && states[i].node in c.nodeToNode ==>
      (c.nodeToNode[states[i].node] in c.nodeToParentNode <==> keys[i].Some?)) &&
    (forall i :: 0 <= i < |states| && states[i].node in c.nodeToNode && c.nodeToNode[states[i].node] in c.nodeToParentNode ==>
      keys[i].Some? && keys[i].value in c.clusterToGraph &&
      c.nodeToParentNode[c.nodeToNode[states[i].node]] == c.clusterToGraph[keys[i].value]) &&
    (forall l :: l in c.nodeToParentNode ==> exists r :: r in c.nodeToNode && c.nodeToNode[r] == l)
  }

  ghost predicate WellBuilt(states: seq<NodeState>, keys: seq<Option<ClusterKey>>, boxOf: Cluster -> Box, c: Compound)
  {
    |keys| == |states| &&
    LeavesBuilt(states, keys, c) &&
    GroupsBuilt(|states|, KeySet(keys), boxOf, c) &&
    ParentsBuilt(states, keys, c) &&
    c.edges == []
  }

  lemma KeySetAppend(keys: seq<Option<ClusterKey>>, key: Option<ClusterKey>)
    ensures KeySet(keys + [key]) == KeySet(keys) + (if key.Some? then {key.value} else {})
  {
    var ks := keys + [key];
    forall k | k in KeySet(keys)
      ensures k in KeySet(ks)
    {
      var i :| 0 <= i < |keys| && keys[i].Some? && keys[i].value == k;
      assert ks[i] == keys[i];
    }
    if key.Some? {
      assert ks[|keys|] == key;
    }
  }

  /** A key already in the set, or no key, leaves the set as it is. */
  lemma KeySetAppendKnown(keys: seq<Option<ClusterKey>>, key: Option<ClusterKey>)
    requires key.Some? ==> key.value in KeySet(keys)
    ensures KeySet(keys + [key]) == KeySet(keys)
  {
    KeySetAppend(keys, key);
  }

  lemma AddGroupGroups(leaves: nat, ks: set<ClusterKey>, boxOf: Cluster -> Box, c: Compound, k: ClusterKey)
    requires GroupsBuilt(leaves, ks, boxOf, c) && k !in ks
    ensures GroupsBuilt(leaves, ks + {k}, boxOf, AddGroup(c, k, boxOf))
  {
    var c1 := AddGroup(c, k, boxOf);
    assert c1.clusterToGraph.Keys == c.clusterToGraph.Keys + {k};
    forall b | 0 <= b < |c1.bodies| && c1.bodies[b].vertex.Group?
      ensures c1.bodies[b].vertex.key in c1.clusterToGraph && c1.clusterToGraph[c1.bodies[b].vertex.key] == b
    {
      if b < |c.bodies| {
        assert c1.bodies[b] == c.bodies[b];
      }
    }
  }

  lemma AddLeafGroups(leaves: nat, ks: set<ClusterKey>, boxOf: Cluster -> Box, c: Compound, s: NodeState, index: nat, graph: Option<nat>)
    requires GroupsBuilt(leaves, ks, boxOf, c)
    ensures GroupsBuilt(leaves + 1, ks, boxOf, AddLeaf(c, s, index, graph))
  {
    var c1 := AddLeaf(c, s, index, graph);
    forall b | 0 <= b < |c1.bodies| && c1.bodies[b].vertex.Group?
      ensures c1.bodies[b].vertex.key in c1.clusterToGraph && c1.clusterToGraph[c1.bodies[b].vertex.key] == b
    {
      assert b < |c.bodies| && c1.bodies[b] == c.bodies[b];
    }
  }

  /** Adding a group for a new key moves no leaf. */
  lemma AddGroupLeaves(states: seq<NodeState>, keys: seq<Option<ClusterKey>>, boxOf: Cluster -> Box, c: Compound, k: ClusterKey)
    requires |keys| == |states|
    requires LeavesBuilt(states, keys, c) && KeySet(keys) <= c.clusterToGraph.Keys && k !in c.clusterToGraph
    ensures LeavesBuilt(states, keys, AddGroup(c, k, boxOf))
  {
    var c1 := AddGroup(c, k, boxOf);
    forall i | 0 <= i < |states|
      ensures LeafGraph(keys[i], c1.clusterToGraph) == LeafGraph(keys[i], c.clusterToGraph)
    {
      if keys[i].Some? {
        assert keys[i].value in KeySet(keys);
      }
    }
    forall b | 0 <= b < |c1.bodies| && c1.bodies[b].vertex.Leaf?
      ensures c1.bodies[b].vertex.index < |states| && c1.nodeToNode[states[c1.bodies[b].vertex.index].node] == b
    {
      assert b < |c.bodies| && c1.bodies[b] == c.bodies[b];
    }
  }

  lemma AddLeafDomain(states: seq<NodeState>, c: Compound, s: NodeState, index: nat, graph: Option<nat>)
    requires LeafDomain(states, c)
    ensures LeafDomain(states + [s], AddLeaf(c, s, index, graph))
  {
    var c1 := AddLeaf(c, s, index, graph);
    var st := states + [s];
    forall r
      ensures r in c1.nodeToNode <==> exists i :: 0 <= i < |st| && st[i].node == r
    {
      if r in c.nodeToNode {
        var i :| 0 <= i < |states| && states[i].node == r;
        assert st[i].node == r;
      }
      if r == s.node {
        assert st[|states|].node == r;
      }
      if exists i :: 0 <= i < |st| && st[i].node == r {
        var i :| 0 <= i < |st| && st[i].node == r;
        if i < |states| {
          assert states[i].node == r;
        }
      }
    }
  }

  /** Adding the leaf of a node not seen before, in the graph of its key. */
  lemma AddLeafPlacement(states: seq<NodeState>, keys: seq<Option<ClusterKey>>, c: Compound, s: NodeState, key: Option<ClusterKey>, graph: Option<nat>)
    requires |keys| == |states|
    requires LeafPlacement(states, keys, c)
    requires s.node !in c.nodeToNode
    requires graph == LeafGraph(key, c.clusterToGraph)
    ensures LeafPlacement(states + [s], keys + [key], AddLeaf(c, s, |states|, graph))
  {
    var c1 := AddLeaf(c, s, |states|, graph);
    var st, ks := states + [s], keys + [key];
    forall i | 0 <= i < |st|
      ensures st[i].node in c1.nodeToNode && c1.nodeToNode[st[i].node] < |c1.bodies| &&
        c1.bodies[c1.nodeToNode[st[i].node]] == LeafBody(st[i], i, LeafGraph(ks[i], c1.clusterToGraph))
    {
      if i < |states| {
        assert st[i] == states[i] && ks[i] == keys[i];
        assert c1.bodies[c.nodeToNode[states[i].node]] == c.bodies[c.nodeToNode[states[i].node]];
      }
    }
  }

  lemma AddLeafIndexed(states: seq<NodeState>, c: Compound, s: NodeState, graph: Option<nat>)
    requires LeafIndexed(states, c)
    requires s.node !in c.nodeToNode
    ensures LeafIndexed(states + [s], AddLeaf(c, s, |states|, graph))
  {
    var c1 := AddLeaf(c, s, |states|, graph);
    var st := states + [s];
    forall b | 0 <= b < |c1.bodies| && c1.bodies[b].vertex.Leaf?
      ensures c1.bodies[b].vertex.index < |st| && st[c1.bodies[b].vertex.index].node in c1.nodeToNode &&
        c1.nodeToNode[st[c1.bodies[b].vertex.index].node] == b
    {
      if b < |c.bodies| {
        assert c1.bodies[b] == c.bodies[b];
        var i := c.bodies[b].vertex.index;
        assert st[i] == states[i];
      }
    }
  }

  lemma AddLeafLeaves(states: seq<NodeState>, keys: seq<Option<ClusterKey>>, c: Compound, s: NodeState, key: Option<ClusterKey>, graph: Option<nat>)
    requires |keys| == |states|
    requires LeavesBuilt(states, keys, c)
    requires forall i :: 0 <= i < |states| ==> states[i].node != s.node
    requires graph == LeafGraph(key, c.clusterToGraph)
    ensures LeavesBuilt(states + [s], keys + [key], AddLeaf(c, s, |states|, graph))
  {
    assert s.node !in c.nodeToNode;
    AddLeafDomain(states, c, s, |states|, graph);
    AddLeafPlacement(states, keys, c, s, key, graph);
    AddLeafIndexed(states, c, s, graph);
  }

  /** Adding a group touches no parent entry. */
  lemma AddGroupParents(states: seq<NodeState>, keys: seq<Option<ClusterKey>>, boxOf: Cluster -> Box, c: Compound, k: ClusterKey)
    requires |keys| == |states|
    requires ParentsBuilt(states, keys, c) && k !in c.clusterToGraph
    ensures ParentsBuilt(states, keys, AddGroup(c, k, boxOf))
  {
  }

  /** Adding the leaf of a node not seen before records its parent exactly when it has a key. */
  lemma AddLeafParents(states: seq<NodeState>, keys: seq<Option<ClusterKey>>, c: Compound, s: NodeState, key: Option<ClusterKey>, graph: Option<nat>)
    requires |keys| == |states|
    requires LeafDomain(states, c) && ParentsBuilt(states, keys, c)
    requires forall l :: l in c.nodeToNode.Values ==> l < |c.bodies|
    requires forall i :: 0 <= i < |states| ==> states[i].node != s.node
    requires key.Some? ==> key.value in c.clusterToGraph && graph == Some(c.clusterToGraph[key.value])
    requires key.None? ==> graph == None
    ensures ParentsBuilt(states + [s], keys + [key], AddLeaf(c, s, |states|, graph))
  {
    assert s.node !in c.nodeToNode;
    AddLeafParentEntries(states, keys, c, s, key, graph);
    AddLeafParentsOwned(c, s, |states|, graph);
  }

  /** The parent entry of each leaf after the step is the one its key calls for. */
  lemma AddLeafParentEntries(states: seq<NodeState>, keys: seq<Option<ClusterKey>>, c: Compound, s: NodeState, key: Option<ClusterKey>, graph: Option<nat>)
    requires |keys| == |states|
    requires LeafDomain(states, c) && ParentsBuilt(states, keys, c) && s.node !in c.nodeToNode
    requires forall l :: l in c.nodeToNode.Values ==> l < |c.bodies|
    requires key.Some? ==> key.value in c.clusterToGraph && graph == Some(c.clusterToGraph[key.value])
    requires key.None? ==> graph == None
    ensures var c1, st, ks := AddLeaf(c, s, |states|, graph), states + [s], keys + [key];
      forall i :: 0 <= i < |st| && st[i].node in c1.nodeToNode ==>
        (c1.nodeToNode[st[i].node] in c1.nodeToParentNode <==> ks[i].Some?) &&
        (c1.nodeToNode[st[i].node] in c1.nodeToParentNode ==>
          ks[i].Some? && ks[i].value in c1.clusterToGraph &&
          c1.nodeToParentNode[c1.nodeToNode[st[i].node]] == c1.clusterToGraph[ks[i].value])
  {
    var c1 := AddLeaf(c, s, |states|, graph);
    var st, ks := states + [s], keys + [key];
    forall l | l in c.nodeToParentNode
      ensures l < |c.bodies|
    {
      var r :| r in c.nodeToNode && c.nodeToNode[r] == l;
      assert l in c.nodeToNode.Values;
    }
    forall i | 0 <= i < |st| && st[i].node in c1.nodeToNode
      ensures c1.nodeToNode[st[i].node] in c1.nodeToParentNode <==> ks[i].Some?
      ensures c1.nodeToNode[st[i].node] in c1.nodeToParentNode ==>
        ks[i].Some? && ks[i].value in c1.clusterToGraph &&
        c1.nodeToParentNode[c1.nodeToNode[st[i].node]] == c1.clusterToGraph[ks[i].value]
    {
      if i < |states| {
        assert st[i] == states[i] && ks[i] == keys[i];
        assert c.nodeToNode[states[i].node] in c.nodeToNode.Values;
        assert c1.nodeToNode[st[i].node] == c.nodeToNode[states[i].node];
      }
    }
  }

  /** Every parent entry after the step still belongs to some node's leaf. */
  lemma AddLeafParentsOwned(c: Compound, s: NodeState, index: nat, graph: Option<nat>)
    requires s.node !in c.nodeToNode
    requires forall l :: l in c.nodeToParentNode ==> exists r :: r in c.nodeToNode && c.nodeToNode[r] == l
    ensures var c1 := AddLeaf(c, s, index, graph);
      forall l :: l in c1.nodeToParentNode ==> exists r :: r in c1.nodeToNode && c1.nodeToNode[r] == l
  {
    var c1 := AddLeaf(c, s, index, graph);
    forall l | l in c1.nodeToParentNode
      ensures exists r :: r in c1.nodeToNode && c1.nodeToNode[r] == l
    {
      if l in c.nodeToParentNode {
        var r :| r in c.nodeToNode && c.nodeToNode[r] == l;
        assert c1.nodeToNode[r] == l;
      } else {
        assert c1.nodeToNode[s.node] == l;
      }
    }
  }

  /** The facts about the state before a step that both kinds of step use. */
  lemma LeafIndicesInRange(states: seq<NodeState>, keys: seq<Option<ClusterKey>>, boxOf: Cluster -> Box, c: Compound)
    requires WellBuilt(states, keys, boxOf, c)
    ensures forall l :: l in c.nodeToNode.Values ==> l < |c.bodies|
  {
    forall l | l in c.nodeToNode.Values
      ensures l < |c.bodies|
    {
      var r :| r in c.nodeToNode && c.nodeToNode[r] == l;
      var i :| 0 <= i < |states| && states[i].node == r;
    }
  }

  /** Each node index is the vertex of at most one body. */
  ghost predicate LeavesUnique(bodies: seq<Body>)
  {
    forall b1, b2 :: 0 <= b1 < b2 < |bodies| && bodies[b1].vertex.Leaf? && bodies[b2].vertex.Leaf? ==>
      bodies[b1].vertex.index != bodies[b2].vertex.index
  }

  /**
   * In a well-built graph every node has exactly one leaf body, the one
   * nodeToNode names, and no leaf stands for a node outside the partition.
   */
  lemma LeafOfEachNode(states: seq<NodeState>, keys: seq<Option<ClusterKey>>, boxOf: Cluster -> Box, c: Compound)
    requires WellBuilt(states, keys, boxOf, c)
    ensures forall b :: 0 <= b < |c.bodies| && c.bodies[b].vertex.Leaf? ==> c.bodies[b].vertex.index < |states|
    ensures LeavesUnique(c.bodies)
    ensures forall i :: 0 <= i < |states| ==>
      states[i].node in c.nodeToNode && c.nodeToNode[states[i].node] < |c.bodies| &&
      c.bodies[c.nodeToNode[states[i].node]].vertex == Leaf(i)
  {
  }

  /** Creating the group of a new key keeps every leaf and parent entry and adds the key's group. */
  lemma GroupStep(states: seq<NodeState>, keys: seq<Option<ClusterKey>>, boxOf: Cluster -> Box, c: Compound, k: ClusterKey)
    requires WellBuilt(states, keys, boxOf, c)
    requires k !in c.clusterToGraph
    ensures var g := AddGroup(c, k, boxOf);
      LeavesBuilt(states, keys, g) && ParentsBuilt(states, keys, g) &&
      GroupsBuilt(|states|, KeySet(keys) + {k}, boxOf, g) &&
      (forall l :: l in g.nodeToNode.Values ==> l < |g.bodies|) &&
      g.edges == [] && g.clusterToGraph[k] == |c.bodies|
  {
    LeafIndicesInRange(states, keys, boxOf, c);
    AddGroupGroups(|states|, KeySet(keys), boxOf, c, k);
    AddGroupLeaves(states, keys, boxOf, c, k);
    AddGroupParents(states, keys, boxOf, c, k);
  }

  /** Adding the leaf of a node not seen before, in the graph of its key, completes a well-built graph. */
  lemma LeafStep(states: seq<NodeState>, keys: seq<Option<ClusterKey>>, ks: set<ClusterKey>, boxOf: Cluster -> Box,
                 c: Compound, s: NodeState, key: Option<ClusterKey>)
    requires |keys| == |states|
    requires LeavesBuilt(states, keys, c) && ParentsBuilt(states, keys, c) && GroupsBuilt(|states|, ks, boxOf, c)
    requires (forall l :: l in c.nodeToNode.Values ==> l < |c.bodies|) && c.edges == []
    requires forall i :: 0 <= i < |states| ==> states[i].node != s.node
    requires key.Some? ==> key.value in c.clusterToGraph
    requires KeySet(keys + [key]) == ks
    ensures WellBuilt(states + [s], keys + [key], boxOf, AddLeaf(c, s, |states|, LeafGraph(key, c.clusterToGraph)))
  {
    var graph := LeafGraph(key, c.clusterToGraph);
    AddLeafGroups(|states|, ks, boxOf, c, s, |states|, graph);
    AddLeafLeaves(states, keys, c, s, key, graph);
    AddLeafParents(states, keys, c, s, key, graph);
  }

  /** A node whose key has no group yet: the group is created, then the leaf in its subgraph. */
  lemma AddNodeNewKey(states: seq<NodeState>, keys: seq<Option<ClusterKey>>, boxOf: Cluster -> Box, c: Compound, s: NodeState, k: ClusterKey)
    requires WellBuilt(states, keys, boxOf, c)
    requires forall i :: 0 <= i < |states| ==> states[i].node != s.node
    requires k !in c.clusterToGraph
    ensures WellBuilt(states + [s], keys + [Some(k)], boxOf, AddLeaf(AddGroup(c, k, boxOf), s, |states|, Some(|c.bodies|)))
  {
    KeySetAppend(keys, Some(k));
    GroupStep(states, keys, boxOf, c, k);
    LeafStep(states, keys, KeySet(keys) + {k}, boxOf, AddGroup(c, k, boxOf), s, Some(k));
  }

  /** A keyless node, or one whose key already has its group: only the leaf is added. */
  lemma AddNodeKnownKey(states: seq<NodeState>, keys: seq<Option<ClusterKey>>, boxOf: Cluster -> Box, c: Compound, s: NodeState, key: Option<ClusterKey>)
    requires WellBuilt(states, keys, boxOf, c)
    requires forall i :: 0 <= i < |states| ==> states[i].node != s.node
    requires key.Some? ==> key.value in c.clusterToGraph
    ensures WellBuilt(states + [s], keys + [key], boxOf, AddLeaf(c, s, |states|, LeafGraph(key, c.clusterToGraph)))
  {
    assert key.Some? ==> key.value in KeySet(keys);
    KeySetAppendKnown(keys, key);
    LeafIndicesInRange(states, keys, boxOf, c);
    LeafStep(states, keys, KeySet(keys), boxOf, c, s, key);
  }

  /** One turn of the node loop, for a node not seen before, keeps all three invariants. */
  lemma AddNodeWellBuilt(states: seq<NodeState>, keys: seq<Option<ClusterKey>>, boxOf: Cluster -> Box, c: Compound, s: NodeState, key: Option<ClusterKey>)
    requires WellBuilt(states, keys, boxOf, c)
    requires forall i :: 0 <= i < |states| ==> states[i].node != s.node
    ensures WellBuilt(states + [s], keys + [key], boxOf, AddNode(c, s, |states|, key, boxOf))
  {
    if key.Some? && key.value !in c.clusterToGraph {
      AddNodeNewKey(states, keys, boxOf, c, s, key.value);
    } else {
      AddNodeKnownKey(states, keys, boxOf, c, s, key);
    }
  }

  /** The node loop's result: one leaf per node, one group per key, a parent entry exactly for keyed leaves. */
  lemma {:induction false} BuildWellBuilt(states: seq<NodeState>, keys: seq<Option<ClusterKey>>, boxOf: Cluster -> Box)
    requires |keys| == |states| && DistinctNodes(states)
    ensures WellBuilt(states, keys, boxOf, Build(states, keys, boxOf))
  {
    if states != [] {
      var m := |states| - 1;
      var prev, pk := states[..m], keys[..m];
      assert prev + [states[m]] == states && pk + [keys[m]] == keys;
      BuildWellBuilt(prev, pk, boxOf);
      AddNodeWellBuilt(prev, pk, boxOf, Build(prev, pk, boxOf), states[m], keys[m]);
    }
  }

  // ---------------------------------------------------------------------
  // Routing the edges

  /** createLEdge: an edge between two engine nodes, or nothing when either is missing. */
  function Link(source: Option<nat>, target: Option<nat>): (r: Option<CompoundEdge>)
    ensures r.Some? <==> source.Some? && target.Some?
    ensures r.Some? ==> r.value == CompoundEdge(source.value, target.value)
  {
    if source.Some? && target.Some? then Some(CompoundEdge(source.value, target.value)) else None
  }

  function Lookup<K, V>(m: map<K, V>, k: K): Option<V>
  {
    if k in m then Some(m[k]) else None
  }

  /**
   * One turn of the edge loop: leaves when both ends share a parent (or both
   * have none), the free end and the other end's group when one end is free
   * (free target first), and the two groups otherwise.
   */
  function RouteEdge(c: Compound, e: LayoutEdge): (r: Option<CompoundEdge>)
    ensures r.Some? ==> e.source in c.nodeToNode && e.target in c.nodeToNode
  {
    var source := Lookup(c.nodeToNode, e.source);
    var target := Lookup(c.nodeToNode, e.target);
    var sourceParent := if source.Some? then Lookup(c.nodeToParentNode, source.value) else None;
    var targetParent := if target.Some? then Lookup(c.nodeToParentNode, target.value) else None;
    if sourceParent == targetParent then Link(source, target)
    else if sourceParent.None? then Link(source, targetParent)
    else if targetParent.None? then Link(target, sourceParent)
    else Link(sourceParent, targetParent)
  }

  /** The compound edges the edge loop adds for `edges`, in order. */
  function RouteAll(c: Compound, edges: seq<LayoutEdge>): (r: seq<CompoundEdge>)
    ensures |r| <= |edges|
  {
    if edges == [] then []
    else
      var m := |edges| - 1;
      match RouteEdge(c, edges[m])
      case Some(ce) => RouteAll(c, edges[..m]) + [ce]
      case None => RouteAll(c, edges[..m])
  }

  /** An edge is kept exactly when both of its end nodes are in the partition. */
  lemma RouteEdgeKept(states: seq<NodeState>, keys: seq<Option<ClusterKey>>, boxOf: Cluster -> Box, c: Compound, e: LayoutEdge)
    requires WellBuilt(states, keys, boxOf, c)
    ensures RouteEdge(c, e).Some? <==> e.source in c.nodeToNode && e.target in c.nodeToNode
  {
  }

  /**
   * The four-way rule in terms of the end nodes' keys: two ends with the same
   * key (or both keyless) are joined leaf to leaf; a keyless end is joined to
   * the other end's group, the keyless end first; ends with different keys
   * are joined group to group.
   */
  lemma RouteEdgeByKeys(states: seq<NodeState>, keys: seq<Option<ClusterKey>>, boxOf: Cluster -> Box, c: Compound,
                        e: LayoutEdge, i: nat, j: nat)
    requires WellBuilt(states, keys, boxOf, c)
    requires i < |states| && j < |states| && states[i].node == e.source && states[j].node == e.target
    ensures keys[i].Some? ==> keys[i].value in c.clusterToGraph
    ensures keys[j].Some? ==> keys[j].value in c.clusterToGraph
    ensures e.source in c.nodeToNode && e.target in c.nodeToNode
    ensures var s, t := c.nodeToNode[e.source], c.nodeToNode[e.target];
      RouteEdge(c, e) == Some(
        if keys[i] == keys[j] then CompoundEdge(s, t)
        else if keys[i].None? then CompoundEdge(s, c.clusterToGraph[keys[j].value])
        else if keys[j].None? then CompoundEdge(t, c.clusterToGraph[keys[i].value])
        else CompoundEdge(c.clusterToGraph[keys[i].value], c.clusterToGraph[keys[j].value]))
  {
    ParentOfLeaf(states, keys, boxOf, c, i);
    ParentOfLeaf(states, keys, boxOf, c, j);
    if keys[i].Some? && keys[j].Some? {
      GroupsDistinct(|states|, KeySet(keys), boxOf, c, keys[i].value, keys[j].value);
    }
    RouteEdgeRule(c, e, keys[i], keys[j]);
  }

  /** The four-way rule from the ends' parent entries, for any map in which different keys have different groups. */
  lemma RouteEdgeRule(c: Compound, e: LayoutEdge, ki: Option<ClusterKey>, kj: Option<ClusterKey>)
    requires e.source in c.nodeToNode && e.target in c.nodeToNode
    requires ki.Some? ==> ki.value in c.clusterToGraph
    requires kj.Some? ==> kj.value in c.clusterToGraph
    requires Lookup(c.nodeToParentNode, c.nodeToNode[e.source]) == if ki.Some? then Some(c.clusterToGraph[ki.value]) else None
    requires Lookup(c.nodeToParentNode, c.nodeToNode[e.target]) == if kj.Some? then Some(c.clusterToGraph[kj.value]) else None
    requires ki.Some? && kj.Some? ==> (c.clusterToGraph[ki.value] == c.clusterToGraph[kj.value] <==> ki == kj)
    ensures var s, t := c.nodeToNode[e.source], c.nodeToNode[e.target];
      RouteEdge(c, e) == Some(
        if ki == kj then CompoundEdge(s, t)
        else if ki.None? then CompoundEdge(s, c.clusterToGraph[kj.value])
        else if kj.None? then CompoundEdge(t, c.clusterToGraph[ki.value])
        else CompoundEdge(c.clusterToGraph[ki.value], c.clusterToGraph[kj.value]))
  {
  }

  /** A node's leaf has its key's group as parent, and no parent when the node has no key. */
  lemma ParentOfLeaf(states: seq<NodeState>, keys: seq<Option<ClusterKey>>, boxOf: Cluster -> Box, c: Compound, i: nat)
    requires WellBuilt(states, keys, boxOf, c) && i < |states|
    ensures states[i].node in c.nodeToNode
    ensures keys[i].Some? ==> keys[i].value in c.clusterToGraph
    ensures Lookup(c.nodeToParentNode, c.nodeToNode[states[i].node]) ==
      if keys[i].Some? then Some(c.clusterToGraph[keys[i].value]) else None
  {
    if keys[i].Some? {
      assert keys[i].value in KeySet(keys);
    }
  }

  /** Different keys have different groups. */
  lemma GroupsDistinct(leaves: nat, ks: set<ClusterKey>, boxOf: Cluster -> Box, c: Compound, k1: ClusterKey, k2: ClusterKey)
    requires GroupsBuilt(leaves, ks, boxOf, c) && k1 in c.clusterToGraph && k2 in c.clusterToGraph
    ensures c.clusterToGraph[k1] == c.clusterToGraph[k2] <==> k1 == k2
  {
    assert c.bodies[c.clusterToGraph[k1]].vertex == Group(k1);
    assert c.bodies[c.clusterToGraph[k2]].vertex == Group(k2);
  }

  /**
   * A routed edge joins two bodies of the same graph: two leaves of one
   * subgraph, or two root bodies (free leaves and groups).
   */
  lemma RoutedEdgeWithinOneGraph(states: seq<NodeState>, keys: seq<Option<ClusterKey>>, boxOf: Cluster -> Box, c: Compound, e: LayoutEdge)
    requires WellBuilt(states, keys, boxOf, c)
    requires RouteEdge(c, e).Some?
    ensures var ce := RouteEdge(c, e).value;
      ce.source < |c.bodies| && ce.target < |c.bodies| && c.bodies[ce.source].graph == c.bodies[ce.target].graph
  {
    var s, t := c.nodeToNode[e.source], c.nodeToNode[e.target];
    LeafInItsGraph(states, keys, boxOf, c, e.source);
    LeafInItsGraph(states, keys, boxOf, c, e.target);
  }

  /** A leaf sits in its parent's subgraph when it has a parent, in the root graph otherwise; a parent is a root group. */
  lemma LeafInItsGraph(states: seq<NodeState>, keys: seq<Option<ClusterKey>>, boxOf: Cluster -> Box, c: Compound, r: NodeRef)
    requires WellBuilt(states, keys, boxOf, c)
    requires r in c.nodeToNode
    ensures var l := c.nodeToNode[r];
      l < |c.bodies| && c.bodies[l].graph == Lookup(c.nodeToParentNode, l) &&
      (l in c.nodeToParentNode ==> c.nodeToParentNode[l] < |c.bodies| && c.bodies[c.nodeToParentNode[l]].graph == None)
  {
    var i :| 0 <= i < |states| && states[i].node == r;
    if keys[i].Some? {
      assert keys[i].value in KeySet(keys);
    }
  }

  /** No deduplication: with every end node in the partition, each original edge yields exactly one compound edge. */
  lemma {:induction false} RouteAllCount(states: seq<NodeState>, keys: seq<Option<ClusterKey>>, boxOf: Cluster -> Box, c: Compound, edges: seq<LayoutEdge>)
    requires WellBuilt(states, keys, boxOf, c)
    requires forall j :: 0 <= j < |edges| ==> edges[j].source in c.nodeToNode && edges[j].target in c.nodeToNode
    ensures |RouteAll(c, edges)| == |edges|
  {
    forall j | 0 <= j < |edges|
      ensures RouteEdge(c, edges[j]).Some?
    {
      RouteEdgeKept(states, keys, boxOf, c, edges[j]);
    }
    RouteAllKeepsEach(c, edges);
  }

  /** When every edge routes, the loop adds one compound edge per edge. */
  lemma {:induction false} RouteAllKeepsEach(c: Compound, edges: seq<LayoutEdge>)
    requires forall j :: 0 <= j < |edges| ==> RouteEdge(c, edges[j]).Some?
    ensures |RouteAll(c, edges)| == |edges|
  {
    if edges != [] {
      var m := |edges| - 1;
      var init := edges[..m];
      assert forall j :: 0 <= j < |init| ==> init[j] == edges[j];
      RouteAllKeepsEach(c, init);
    }
  }

  /** Every compound edge the loop adds stays within one graph. */
  lemma {:induction false} RouteAllWithinGraphs(states: seq<NodeState>, keys: seq<Option<ClusterKey>>, boxOf: Cluster -> Box, c: Compound, edges: seq<LayoutEdge>)
    requires WellBuilt(states, keys, boxOf, c)
    ensures forall ce :: ce in RouteAll(c, edges) ==>
      ce.source < |c.bodies| && ce.target < |c.bodies| && c.bodies[ce.source].graph == c.bodies[ce.target].graph
  {
    RouteAllFromEdges(c, edges);
    forall ce | ce in RouteAll(c, edges)
      ensures ce.source < |c.bodies| && ce.target < |c.bodies| && c.bodies[ce.source].graph == c.bodies[ce.target].graph
    {
      var j :| 0 <= j < |edges| && RouteEdge(c, edges[j]) == Some(ce);
      RoutedEdgeWithinOneGraph(states, keys, boxOf, c, edges[j]);
    }
  }

  /** Each compound edge the loop adds is the routing of one of the edges. */
  lemma {:induction false} RouteAllFromEdges(c: Compound, edges: seq<LayoutEdge>)
    ensures forall ce :: ce in RouteAll(c, edges) ==> exists j :: 0 <= j < |edges| && RouteEdge(c, edges[j]) == Some(ce)
  {
    if edges != [] {
      var m := |edges| - 1;
      var init := edges[..m];
      RouteAllFromEdges(c, init);
      forall ce | ce in RouteAll(c, init)
        ensures exists j :: 0 <= j < |edges| && RouteEdge(c, edges[j]) == Some(ce)
      {
        var j :| 0 <= j < |init| && RouteEdge(c, init[j]) == Some(ce);
        assert init[j] == edges[j];
      }
    }
  }
}
