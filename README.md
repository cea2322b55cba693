# AutoAnnotate core, modelled in Dafny

AutoAnnotate is a Cytoscape app that groups the nodes of a network view into
clusters, labels them and lays them out. This project models five parts of it
and proves properties of each:

- **The cluster-aware CoSE layout task** (`CoseLayoutAlgorithmTask`):
  - Each node of a layout partition gets a cluster key. The first cluster that
    holds the node wins; an unclustered node gets the shared catch-all key when
    that is enabled, and no key otherwise.
  - One group body is created per distinct key, in the root graph, and it
    owns a subgraph.
  - Each node gets one leaf body, placed from its centre and size, in its
    key's subgraph, or in the root graph when it has no key.
  - Each edge is re-attached by a four-way rule, so that no edge crosses from
    one graph into another.
  - The physics engine runs, its final centres are written back into the
    layout nodes, and every node is moved.
  - The `cancelled` flag is polled after every node, before every edge, before
    the engine and after it. A cancellation seen at any poll, an engine
    failure, or an empty cluster set stops the layout task before any node is moved.
  - `cose_graph.dfy` holds the compound graph as values, with the proofs that
    it has one leaf per node, one group per key and one routed edge per edge.
  - `cose_layout.dfy` holds the layout task itself, as a class over the layout
    nodes and the partition, with its loops and their invariants.
- **`LongAggregator.aggregate`**: folds the optional long cells of a column
  into NONE (null), MIN, MAX, SUM, AVG or MEDIAN. The imperative row loop and
  the in-place sort are proved against a functional specification.
  - SUM and AVG add up the values in a `double`, as Java does: the running
    total is rounded to the nearest double after each addition (IEEE 754,
    53-bit significand, ties to even), and AVG's quotient is rounded before the
    cast truncates it.
  - While every running total stays within 2^53 in magnitude, SUM is the
    exact sum and AVG the exact sum divided by the count, truncated toward
    zero. Past that, rounding can push AVG below MIN (`AvgCanFallBelowMin`).
  - MIN, MAX and MEDIAN are proved to be consistent with each other, and so
    is AVG within the same range.
  - Null cells are proved irrelevant.
  - An empty MEDIAN is proved to fail.
- **`ClusterBoostedLabelMakerFactory`**: the id and default options of the
  "adjacent words" label maker, and the saved form `"maxWords,clusterBonus"` of
  its options.
  - Java's `String.split(",")` and `Integer.parseInt` are modelled as Java
    defines them.
  - The saved form round-trips for every pair of ints.
  - A string parses back only if it is two int fields joined by one comma
    and followed only by commas (`AcceptedShape`). Conversely, every such
    string parses back (`AcceptedIfShaped`).
- **`Cluster`**: an immutable labelled set of nodes, copied from the caller's
  collection at construction.
- **`ModelManager`**: the get-or-create registry of one `NetworkViewSet` per
  network view, and the gate through which events reach the event bus.
  - The event bus is modelled as the log of the events it received.
  - The view-change handler posts one `ClusterChanged` per affected cluster,
    each exactly once.

Files: `wrappers.dfy` (Option), `clusters.dfy`, `cose_graph.dfy`,
`cose_layout.dfy`, `long_aggregator.dfy`, `cluster_boosted.dfy`,
`model_manager.dfy`.

Inputs the code receives from the host are parameters of the model:
- the clusters, as a sequence in the iteration order of the Java set;
- each cluster's bounding box (`boxOf`), standing in for `CoordinateData.forNodes`;
- the cancellation flag, as the first poll that sees it set;
- the engine's behaviour (`Physics`): it throws, or it converges with a final
  centre for each body;
- the host's current network view.

Behaviour of the code worth knowing:
- Clusters may overlap. A node held by several clusters gets the key of the
  first of them in iteration order (`KeyOf`). `DisjointClustersKeyIsOwner`
  shows that for disjoint clusters the order does not matter.
- An edge between a clustered node and a free node is created with the free
  end first, whichever end was the source (`createLEdge(target, sourceParent)`).
  `RouteEdgeByKeys` states that order.
- `CoseLayoutAlgorithmTask.getClusters` treats `getActiveAnnotationSet` as
  returning an `Optional`, while `ModelManager.handleEvent(ViewChangedEvent)`
  dereferences it directly. `AnnotationSet` and `NetworkViewSet` are not part
  of this model. The model follows `ModelManager`: a missing active annotation
  set makes the handler throw once a geometry record arrives.

## Model

| member | source | states |
|---|---|---|
| Clusters.Cluster.constructor | AutoAnnotate/src/main/java/org/baderlab/autoannotate/internal/model/Cluster.java:17-21 | a node is a member exactly when it occurs in the caller's collection; the count is at most the collection's length and equals it when nothing repeats; label and toString are the given text; fields are constants, so later changes to the caller's array cannot reach the cluster |
| Clusters.Cluster.GetNodes | AutoAnnotate/src/main/java/org/baderlab/autoannotate/internal/model/Cluster.java:43-45 | the returned set agrees with `contains` on every node |
| Clusters.Cluster.NodeCount | AutoAnnotate/src/main/java/org/baderlab/autoannotate/internal/model/Cluster.java:39-41 | the count is the size of the member set |
| Clusters.Cluster.ToString | AutoAnnotate/src/main/java/org/baderlab/autoannotate/internal/model/Cluster.java:47-50 | toString returns the same text as getLabel |
| Clusters.Cluster.Contains | AutoAnnotate/src/main/java/org/baderlab/autoannotate/internal/model/Cluster.java:35-37 | a node is contained exactly when it is in the set copied at construction |
| Clusters.Cluster.GetLabel | AutoAnnotate/src/main/java/org/baderlab/autoannotate/internal/model/Cluster.java:31-33 | the label is the text given at construction, never changed |
| Clusters.DistinctCount | AutoAnnotate/src/main/java/org/baderlab/autoannotate/internal/model/Cluster.java:19 | copying a collection into a set keeps at most its length, and exactly its length iff no element repeats |
| CoseGraph.KeyEquals | AutoAnnotate/src/main/java/org/baderlab/autoannotate/internal/layout/cose/CoseLayoutAlgorithmTask.java:90-96 | two keys are equal exactly when they wrap the same cluster object (or both the null catch-all) |
| CoseGraph.SameMembersDifferentKeys | AutoAnnotate/src/main/java/org/baderlab/autoannotate/internal/layout/cose/CoseLayoutAlgorithmTask.java:85-96 | two different cluster objects with the same members never share a key |
| CoseGraph.LeafBody | AutoAnnotate/src/main/java/org/baderlab/autoannotate/internal/layout/cose/CoseLayoutAlgorithmTask.java:214-223 | a leaf's centre is the node's centre, its size is the node's size, and it stands for that node in the given graph |
| CoseGraph.GroupBody | AutoAnnotate/src/main/java/org/baderlab/autoannotate/internal/layout/cose/CoseLayoutAlgorithmTask.java:225-234 | a group's centre and size are those of its key's box, it sits in the root graph, and the catch-all group is an all-zero box (lines 102-107) |
| CoseGraph.KeyBox | AutoAnnotate/src/main/java/org/baderlab/autoannotate/internal/layout/cose/CoseLayoutAlgorithmTask.java:102-107 | the catch-all key (no cluster) has the all-zero box |
| CoseGraph.FirstContaining | AutoAnnotate/src/main/java/org/baderlab/autoannotate/internal/layout/cose/CoseLayoutAlgorithmTask.java:202-206 | the result is a cluster holding the node with no earlier one holding it, and None exactly when no cluster holds it |
| CoseGraph.KeyOf | AutoAnnotate/src/main/java/org/baderlab/autoannotate/internal/layout/cose/CoseLayoutAlgorithmTask.java:201-211 | a real key is the first cluster holding the node; the catch-all key is given exactly when it is enabled and no cluster holds the node; no key only when the catch-all is disabled |
| CoseGraph.UnclusteredShareCatchall | AutoAnnotate/src/main/java/org/baderlab/autoannotate/internal/layout/cose/CoseLayoutAlgorithmTask.java:207-208 | with the catch-all enabled, any two unclustered nodes get the same catch-all key |
| CoseGraph.DisjointClustersKeyIsOwner | AutoAnnotate/src/main/java/org/baderlab/autoannotate/internal/layout/cose/CoseLayoutAlgorithmTask.java:201-206 | when exactly one cluster holds a node, its key is that cluster's, whatever the iteration order |
| CoseGraph.KeysFor | AutoAnnotate/src/main/java/org/baderlab/autoannotate/internal/layout/cose/CoseLayoutAlgorithmTask.java:133-134 | one key per partition node, each the node's getClusterKey |
| CoseGraph.AddGroup | AutoAnnotate/src/main/java/org/baderlab/autoannotate/internal/layout/cose/CoseLayoutAlgorithmTask.java:139-142 | a new key's group body is appended and recorded under the key at its index; the leaf maps are unchanged |
| CoseGraph.BuildPrefixStep | AutoAnnotate/src/main/java/org/baderlab/autoannotate/internal/layout/cose/CoseLayoutAlgorithmTask.java:133-156 | handling one more node extends the graph built from the earlier nodes by that node's step |
| CoseGraph.AddGroupGroups | AutoAnnotate/src/main/java/org/baderlab/autoannotate/internal/layout/cose/CoseLayoutAlgorithmTask.java:139-142 | creating the group of a new key keeps exactly one group per key, recorded under its key |
| CoseGraph.AddNodeNewKey | AutoAnnotate/src/main/java/org/baderlab/autoannotate/internal/layout/cose/CoseLayoutAlgorithmTask.java:139-149 | a node whose key has no group yet gets a new group and a leaf in its subgraph, keeping the graph well built |
| CoseGraph.AddNodeKnownKey | AutoAnnotate/src/main/java/org/baderlab/autoannotate/internal/layout/cose/CoseLayoutAlgorithmTask.java:143-153 | a node whose key already has a group reuses it, and a keyless node gets a root leaf, keeping the graph well built |
| CoseGraph.AddNodeWellBuilt | AutoAnnotate/src/main/java/org/baderlab/autoannotate/internal/layout/cose/CoseLayoutAlgorithmTask.java:133-153 | one turn of the node loop, for a node not seen before, keeps one leaf per node, one group per key and a parent entry exactly for keyed leaves |
| CoseGraph.BuildWellBuilt | AutoAnnotate/src/main/java/org/baderlab/autoannotate/internal/layout/cose/CoseLayoutAlgorithmTask.java:133-153 | after the node loop over distinct nodes: every node has exactly one leaf, placed from the node, in its key's subgraph or the root graph; one group per distinct key; a parent entry exactly for keyed leaves, naming the key's group |
| CoseGraph.LeafOfEachNode | AutoAnnotate/src/main/java/org/baderlab/autoannotate/internal/layout/cose/CoseLayoutAlgorithmTask.java:147-152 | every partition node has exactly one leaf body, the one nodeToNode names, and no leaf stands for another node |
| CoseGraph.Link | AutoAnnotate/src/main/java/org/baderlab/autoannotate/internal/layout/cose/CoseLayoutAlgorithmTask.java:238-245 | an edge is created exactly when both ends exist, between those ends |
| CoseGraph.RouteEdge | AutoAnnotate/src/main/java/org/baderlab/autoannotate/internal/layout/cose/CoseLayoutAlgorithmTask.java:163-177 | an edge yields a compound edge only when both of its end nodes have leaves |
| CoseGraph.RouteAll | AutoAnnotate/src/main/java/org/baderlab/autoannotate/internal/layout/cose/CoseLayoutAlgorithmTask.java:159-178 | the edge loop adds at most one compound edge per edge |
| CoseGraph.Assemble | AutoAnnotate/src/main/java/org/baderlab/autoannotate/internal/layout/cose/CoseLayoutAlgorithmTask.java:133-181 | the graph handed to the engine has at most one edge per partition edge |
| CoseGraph.RouteEdgeKept | AutoAnnotate/src/main/java/org/baderlab/autoannotate/internal/layout/cose/CoseLayoutAlgorithmTask.java:163-177 | an edge yields a compound edge exactly when both end nodes are in the partition |
| CoseGraph.RouteEdgeByKeys | AutoAnnotate/src/main/java/org/baderlab/autoannotate/internal/layout/cose/CoseLayoutAlgorithmTask.java:166-177 | same key or both keyless: leaf to leaf; keyless source: source leaf to target's group; keyless target: target leaf to source's group; different keys: group to group |
| CoseGraph.ParentOfLeaf | AutoAnnotate/src/main/java/org/baderlab/autoannotate/internal/layout/cose/CoseLayoutAlgorithmTask.java:147-152 | a node's leaf has its key's group as parent, and no parent when the node has no key |
| CoseGraph.GroupsDistinct | AutoAnnotate/src/main/java/org/baderlab/autoannotate/internal/layout/cose/CoseLayoutAlgorithmTask.java:136-142 | different keys have different groups |
| CoseGraph.RoutedEdgeWithinOneGraph | AutoAnnotate/src/main/java/org/baderlab/autoannotate/internal/layout/cose/CoseLayoutAlgorithmTask.java:166-177 | a routed edge joins two bodies of the same graph |
| CoseGraph.LeafInItsGraph | AutoAnnotate/src/main/java/org/baderlab/autoannotate/internal/layout/cose/CoseLayoutAlgorithmTask.java:140-151 | a leaf sits in its parent's subgraph when it has a parent and in the root graph otherwise; a parent is a group in the root graph |
| CoseGraph.RouteAllCount | AutoAnnotate/src/main/java/org/baderlab/autoannotate/internal/layout/cose/CoseLayoutAlgorithmTask.java:159-178 | when every edge has both ends in the partition, the edge loop adds exactly one compound edge per edge, with no deduplication |
| CoseGraph.RouteAllKeepsEach | AutoAnnotate/src/main/java/org/baderlab/autoannotate/internal/layout/cose/CoseLayoutAlgorithmTask.java:159-178 | when every edge routes, the loop adds one compound edge per edge |
| CoseGraph.RouteAllFromEdges | AutoAnnotate/src/main/java/org/baderlab/autoannotate/internal/layout/cose/CoseLayoutAlgorithmTask.java:159-178 | every compound edge the loop adds is the routing of one of the edges |
| CoseGraph.RouteAllWithinGraphs | AutoAnnotate/src/main/java/org/baderlab/autoannotate/internal/layout/cose/CoseLayoutAlgorithmTask.java:159-178 | no compound edge crosses from one graph into another |
| CoseLayout.States | AutoAnnotate/src/main/java/org/baderlab/autoannotate/internal/layout/cose/CoseLayoutAlgorithmTask.java:133 | the layout task reads each node's centre and size, in partition order |
| CoseLayout.LayoutPartition.MoveNodeToLocation | AutoAnnotate/src/main/java/org/baderlab/autoannotate/internal/layout/cose/CoseLayoutAlgorithmTask.java:196 | a move of the node to its current centre is recorded |
| CoseLayout.NodesHandled | AutoAnnotate/src/main/java/org/baderlab/autoannotate/internal/layout/cose/CoseLayoutAlgorithmTask.java:133-156 | the node loop handles the nodes up to and including the one after which it sees the flag, and all of them when it never does |
| CoseLayout.EdgesHandled | AutoAnnotate/src/main/java/org/baderlab/autoannotate/internal/layout/cose/CoseLayoutAlgorithmTask.java:160 | the edge loop handles exactly the edges before the first poll that sees the flag |
| CoseLayout.VNodeUpdate | AutoAnnotate/src/main/java/org/baderlab/autoannotate/internal/layout/cose/CoseLayoutAlgorithmTask.java:256-263 | a real layout node takes the body's centre; a group's vertex changes nothing |
| CoseLayout.ApplyPositions | AutoAnnotate/src/main/java/org/baderlab/autoannotate/internal/layout/cose/CoseLayoutAlgorithmTask.java:256-263 | the update pass over all bodies gives every node with a leaf that leaf's final centre and leaves every other node where it was |
| CoseLayout.MoveAll | AutoAnnotate/src/main/java/org/baderlab/autoannotate/internal/layout/cose/CoseLayoutAlgorithmTask.java:195-196 | every partition node is moved exactly once, in partition order |
| CoseLayout.CoseLayoutTask.GetClusterKey | AutoAnnotate/src/main/java/org/baderlab/autoannotate/internal/layout/cose/CoseLayoutAlgorithmTask.java:201-211 | the scan returns the key `KeyOf` specifies |
| CoseLayout.CoseLayoutTask.BuildCompound | AutoAnnotate/src/main/java/org/baderlab/autoannotate/internal/layout/cose/CoseLayoutAlgorithmTask.java:133-156 | the node loop builds the graph of exactly the nodes handled before it sees the flag, and reports whether it saw it |
| CoseLayout.CoseLayoutTask.PlaceNode | AutoAnnotate/src/main/java/org/baderlab/autoannotate/internal/layout/cose/CoseLayoutAlgorithmTask.java:134-153 | the loop body adds the group on first use of a key and the node's leaf, as `AddNode` specifies |
| CoseLayout.CoseLayoutTask.RouteEdges | AutoAnnotate/src/main/java/org/baderlab/autoannotate/internal/layout/cose/CoseLayoutAlgorithmTask.java:159-178 | the edge loop routes, in order, exactly the edges before the first poll that sees the flag |
| CoseLayout.CoseLayoutTask.BuildGraph | AutoAnnotate/src/main/java/org/baderlab/autoannotate/internal/layout/cose/CoseLayoutAlgorithmTask.java:133-181 | the layout task returns from the node loop exactly when a node poll sees the flag; unless a poll up to the one before the engine sees it, the graph holds every node and every routed edge |
| CoseLayout.CoseLayoutTask.LayoutPhase1 | AutoAnnotate/src/main/java/org/baderlab/autoannotate/internal/layout/cose/CoseLayoutAlgorithmTask.java:124-198 | the outcome is Cancelled, EngineFailed or Moved by the polls and the engine; nodes are moved, each exactly once, only in the Moved case; when the engine converges uncancelled every node takes its leaf's final centre, and otherwise no node changes |
| CoseLayout.CoseLayoutTask.LayoutPartition | AutoAnnotate/src/main/java/org/baderlab/autoannotate/internal/layout/cose/CoseLayoutAlgorithmTask.java:110-117 | with no clusters nothing changes; otherwise phase 1 runs with all of its guarantees |
| CoseLayout.BuiltLeaves | AutoAnnotate/src/main/java/org/baderlab/autoannotate/internal/layout/cose/CoseLayoutAlgorithmTask.java:133-153 | the graph built from a whole partition gives each of its nodes one leaf, and each leaf stands for one node |
| CoseLayout.RunEngine | AutoAnnotate/src/main/java/org/baderlab/autoannotate/internal/layout/cose/CoseLayoutAlgorithmTask.java:183-197 | a throwing engine ends the layout task with no node changed; a converging one sets every node to its leaf's final centre and then moves every node, unless the poll after the run sees the flag |
| LongAggregation.GetAttributeHandlingTypes | AutoAnnotate/src/main/java/org/baderlab/autoannotate/internal/data/aggregators/LongAggregator.java:39-57 | exactly NONE, AVG, MIN, MAX, MEDIAN and SUM are supported |
| LongAggregation.Present | AutoAnnotate/src/main/java/org/baderlab/autoannotate/internal/data/aggregators/LongAggregator.java:81-84 | the non-null values are at most as many as the rows |
| LongAggregation.PresentMembers | AutoAnnotate/src/main/java/org/baderlab/autoannotate/internal/data/aggregators/LongAggregator.java:82-84 | the values folded are exactly those of the non-null cells |
| LongAggregation.PresentStep | AutoAnnotate/src/main/java/org/baderlab/autoannotate/internal/data/aggregators/LongAggregator.java:81-84 | a null cell adds nothing and a non-null cell adds its value |
| LongAggregation.MaxOf | AutoAnnotate/src/main/java/org/baderlab/autoannotate/internal/data/aggregators/LongAggregator.java:69-70 | MAX of no value is Long.MIN_VALUE |
| LongAggregation.MaxOfIsGreatest | AutoAnnotate/src/main/java/org/baderlab/autoannotate/internal/data/aggregators/LongAggregator.java:87-89 | MAX of at least one value is one of them and no value exceeds it |
| LongAggregation.MinOf | AutoAnnotate/src/main/java/org/baderlab/autoannotate/internal/data/aggregators/LongAggregator.java:72-73 | MIN of no value starts from (double) Long.MAX_VALUE |
| LongAggregation.MinOfIsLeast | AutoAnnotate/src/main/java/org/baderlab/autoannotate/internal/data/aggregators/LongAggregator.java:90-92 | MIN of at least one value is one of them and no value is below it |
| LongAggregation.RoundHalfEven | AutoAnnotate/src/main/java/org/baderlab/autoannotate/internal/data/aggregators/LongAggregator.java:94 | the rounded quotient is the truncated quotient, or one more when there is a remainder |
| LongAggregation.RoundHalfEvenNearest | AutoAnnotate/src/main/java/org/baderlab/autoannotate/internal/data/aggregators/LongAggregator.java:94 | the rounding is to nearest, ties to even: within half the divisor, and exactly half only for an even result |
| LongAggregation.RoundToDoubleExact | AutoAnnotate/src/main/java/org/baderlab/autoannotate/internal/data/aggregators/LongAggregator.java:85-94 | an integer of magnitude at most 2^53 is a double, so rounding leaves it unchanged |
| LongAggregation.RoundToDoubleNearest | AutoAnnotate/src/main/java/org/baderlab/autoannotate/internal/data/aggregators/LongAggregator.java:94 | past 2^53 the sum rounds to a multiple of its binade's spacing u (2^52 u <= x < 2^53 u), within u/2, the even multiple on a tie |
| LongAggregation.RoundedQuotientBetween | AutoAnnotate/src/main/java/org/baderlab/autoannotate/internal/data/aggregators/LongAggregator.java:116-119 | the double quotient a / d, truncated, stays between lo and hi when a lies between d lo and d hi and the bounds are at most 2^53 |
| LongAggregation.FoldStep | AutoAnnotate/src/main/java/org/baderlab/autoannotate/internal/data/aggregators/LongAggregator.java:86-98 | one more value adds to the exact sum, adds to the double sum and rounds it, and updates the maximum and minimum as the switch does |
| LongAggregation.TruncDivRemainder | AutoAnnotate/src/main/java/org/baderlab/autoannotate/internal/data/aggregators/LongAggregator.java:113 | the division rounds toward zero: the remainder has the dividend's sign and is smaller than the divisor |
| LongAggregation.ToLong | AutoAnnotate/src/main/java/org/baderlab/autoannotate/internal/data/aggregators/LongAggregator.java:119 | the cast keeps values in the long range and saturates outside it |
| LongAggregation.MedianOfSorted | AutoAnnotate/src/main/java/org/baderlab/autoannotate/internal/data/aggregators/LongAggregator.java:110-119 | an empty list fails at index -1, and only it; otherwise the median is a value in the long range |
| LongAggregation.AggregateSpec | AutoAnnotate/src/main/java/org/baderlab/autoannotate/internal/data/aggregators/LongAggregator.java:60-120 | NONE alone gives null; MEDIAN of no value alone fails; every other result is a long |
| LongAggregation.Running | AutoAnnotate/src/main/java/org/baderlab/autoannotate/internal/data/aggregators/LongAggregator.java:67-78 | before any value the running value is Long.MIN_VALUE for MAX, (double) Long.MAX_VALUE for MIN, and 0.0 otherwise |
| LongAggregation.Insert | AutoAnnotate/src/main/java/org/baderlab/autoannotate/internal/data/aggregators/LongAggregator.java:109 | inserting into an ascending sequence gives an ascending permutation with the element added |
| LongAggregation.SortSeq | AutoAnnotate/src/main/java/org/baderlab/autoannotate/internal/data/aggregators/LongAggregator.java:109 | the result is ascending and a permutation of the input |
| LongAggregation.SortInPlace | AutoAnnotate/src/main/java/org/baderlab/autoannotate/internal/data/aggregators/LongAggregator.java:109 | the array ends ascending and a permutation of its old contents |
| LongAggregation.SortedUnique | AutoAnnotate/src/main/java/org/baderlab/autoannotate/internal/data/aggregators/LongAggregator.java:109 | two ascending orders of the same values are equal, so the sorted array is determined by the values |
| LongAggregation.SortedArray | AutoAnnotate/src/main/java/org/baderlab/autoannotate/internal/data/aggregators/LongAggregator.java:107-109 | the new array holds the values in ascending order |
| LongAggregation.PickMedian | AutoAnnotate/src/main/java/org/baderlab/autoannotate/internal/data/aggregators/LongAggregator.java:110-113 | the middle element for an odd length, the halved sum of the two middle ones for an even length, index -1 for an empty array |
| LongAggregation.MedianOfList | AutoAnnotate/src/main/java/org/baderlab/autoannotate/internal/data/aggregators/LongAggregator.java:106-114 | the MEDIAN post-processing gives the median of the sorted values |
| LongAggregation.FoldValue | AutoAnnotate/src/main/java/org/baderlab/autoannotate/internal/data/aggregators/LongAggregator.java:86-102 | the switch turns the running value of the earlier values into that of one more value |
| LongAggregation.Accumulate | AutoAnnotate/src/main/java/org/baderlab/autoannotate/internal/data/aggregators/LongAggregator.java:68-103 | the count is the number of non-null cells, the running value is the fold of exactly those values, and MEDIAN's list holds them in row order |
| LongAggregation.Aggregate | AutoAnnotate/src/main/java/org/baderlab/autoannotate/internal/data/aggregators/LongAggregator.java:60-120 | the method returns the specified aggregation for every handling type; NONE gives null |
| LongAggregation.NullCellIgnored | AutoAnnotate/src/main/java/org/baderlab/autoannotate/internal/data/aggregators/LongAggregator.java:82-84 | inserting a null cell anywhere changes no result |
| LongAggregation.SumBounds | AutoAnnotate/src/main/java/org/baderlab/autoannotate/internal/data/aggregators/LongAggregator.java:93-98 | the sum of n values lies between n times MIN and n times MAX |
| LongAggregation.TruncDivBetween | AutoAnnotate/src/main/java/org/baderlab/autoannotate/internal/data/aggregators/LongAggregator.java:113 | the halved sum of two values between lo and hi, truncated as long division does, lies between lo and hi (and likewise for any n) |
| LongAggregation.AvgBetweenMinAndMax | AutoAnnotate/src/main/java/org/baderlab/autoannotate/internal/data/aggregators/LongAggregator.java:96-119 | AVG of at least one value lies between MIN and MAX, provided every running total is at most 2^53 in magnitude |
| LongAggregation.SumExactInRange | AutoAnnotate/src/main/java/org/baderlab/autoannotate/internal/data/aggregators/LongAggregator.java:93-95 | while every running total is at most 2^53 in magnitude, SUM is the exact sum |
| LongAggregation.AvgExactInRange | AutoAnnotate/src/main/java/org/baderlab/autoannotate/internal/data/aggregators/LongAggregator.java:96-119 | while every running total is at most 2^53 in magnitude, AVG is the exact sum divided by the count, truncated toward zero |
| LongAggregation.RoundedQuotientExact | AutoAnnotate/src/main/java/org/baderlab/autoannotate/internal/data/aggregators/LongAggregator.java:116-119 | for a dividend of at most 2^53 in magnitude, the double quotient truncated by the cast equals the exact quotient truncated toward zero |
| LongAggregation.SumRoundsPast2To53 | AutoAnnotate/src/main/java/org/baderlab/autoannotate/internal/data/aggregators/LongAggregator.java:93-95 | SUM of 2^53 and 1 is 2^53: the tie rounds to the even neighbour |
| LongAggregation.AvgCanFallBelowMin | AutoAnnotate/src/main/java/org/baderlab/autoannotate/internal/data/aggregators/LongAggregator.java:96-119 | five copies of 2^53 - 1 have MIN 2^53 - 1 and AVG 2^53 - 2, so past 2^53 AVG can fall below MIN |
| LongAggregation.DoubleSumExact | AutoAnnotate/src/main/java/org/baderlab/autoannotate/internal/data/aggregators/LongAggregator.java:93-98 | while every running total is at most 2^53 in magnitude, the double sum is the exact sum |
| LongAggregation.SortedWithinBounds | AutoAnnotate/src/main/java/org/baderlab/autoannotate/internal/data/aggregators/LongAggregator.java:109 | every sorted value is one of the values, between MIN and MAX |
| LongAggregation.MedianOfSortedWithin | AutoAnnotate/src/main/java/org/baderlab/autoannotate/internal/data/aggregators/LongAggregator.java:110-113 | the median of a non-empty sequence within bounds is within them, and an element for an odd length |
| LongAggregation.MedianWithin | AutoAnnotate/src/main/java/org/baderlab/autoannotate/internal/data/aggregators/LongAggregator.java:106-114 | MEDIAN of at least one value is a value between MIN and MAX, and one of the values for an odd count |
| LongAggregation.MedianBetweenMinAndMax | AutoAnnotate/src/main/java/org/baderlab/autoannotate/internal/data/aggregators/LongAggregator.java:106-114 | over the rows: MEDIAN lies between MIN and MAX, and is one of the values for an odd count |
| LongAggregation.EmptyInput | AutoAnnotate/src/main/java/org/baderlab/autoannotate/internal/data/aggregators/LongAggregator.java:68-119 | with no values MEDIAN fails at index -1, MAX is Long.MIN_VALUE, MIN is Long.MAX_VALUE, and SUM and AVG are 0 |
| ClusterBoostedLabels.GetId | AutoAnnotate/src/main/java/org/baderlab/autoannotate/internal/labels/makers/ClusterBoostedLabelMakerFactory.java:21-23 | the id is always "clusterBoosted" |
| ClusterBoostedLabels.GetDefaultContext | AutoAnnotate/src/main/java/org/baderlab/autoannotate/internal/labels/makers/ClusterBoostedLabelMakerFactory.java:31-33 | the defaults are 4 words and a bonus of 8, saved as "4,8" |
| ClusterBoostedLabels.IntToString | AutoAnnotate/src/main/java/org/baderlab/autoannotate/internal/labels/makers/ClusterBoostedLabelMakerFactory.java:56 | the decimal form is non-empty, holds no comma, and starts with '-' exactly for negative values |
| ClusterBoostedLabels.ParseInt | AutoAnnotate/src/main/java/org/baderlab/autoannotate/internal/labels/makers/ClusterBoostedLabelMakerFactory.java:66-67 | only a non-empty, comma-free string can parse |
| ClusterBoostedLabels.ParseIntRoundTrip | AutoAnnotate/src/main/java/org/baderlab/autoannotate/internal/labels/makers/ClusterBoostedLabelMakerFactory.java:56-67 | parseInt reads back what toString wrote, for every int |
| ClusterBoostedLabels.SerializeContext | AutoAnnotate/src/main/java/org/baderlab/autoannotate/internal/labels/makers/ClusterBoostedLabelMakerFactory.java:55-57 | the saved form is the decimal text of maxWords, one comma, and the decimal text of clusterBonus, neither of which holds a comma |
| ClusterBoostedLabels.Split | AutoAnnotate/src/main/java/org/baderlab/autoannotate/internal/labels/makers/ClusterBoostedLabelMakerFactory.java:61 | no field holds a comma, and when the string holds a comma the last field is not empty |
| ClusterBoostedLabels.FieldsOfPair | AutoAnnotate/src/main/java/org/baderlab/autoannotate/internal/labels/makers/ClusterBoostedLabelMakerFactory.java:61 | two comma-free strings joined by one comma split back into those two fields |
| ClusterBoostedLabels.JoinFields | AutoAnnotate/src/main/java/org/baderlab/autoannotate/internal/labels/makers/ClusterBoostedLabelMakerFactory.java:61 | joining a string's fields with commas gives back the string |
| ClusterBoostedLabels.DeserializeContext | AutoAnnotate/src/main/java/org/baderlab/autoannotate/internal/labels/makers/ClusterBoostedLabelMakerFactory.java:60-72 | a string without a comma never deserializes |
| ClusterBoostedLabels.RoundTrip | AutoAnnotate/src/main/java/org/baderlab/autoannotate/internal/labels/makers/ClusterBoostedLabelMakerFactory.java:55-68 | deserializing the saved form gives back the same options, for every pair of ints |
| ClusterBoostedLabels.AcceptedShape | AutoAnnotate/src/main/java/org/baderlab/autoannotate/internal/labels/makers/ClusterBoostedLabelMakerFactory.java:60-72 | a string deserializes only if it is two fields that parse to the result, the second non-empty, joined by one comma and followed only by commas |
| ClusterBoostedLabels.FieldsOfShaped | AutoAnnotate/src/main/java/org/baderlab/autoannotate/internal/labels/makers/ClusterBoostedLabelMakerFactory.java:61 | "a,b" followed by k commas splits into a, b and k empty fields before the trailing ones are dropped |
| ClusterBoostedLabels.AcceptedIfShaped | AutoAnnotate/src/main/java/org/baderlab/autoannotate/internal/labels/makers/ClusterBoostedLabelMakerFactory.java:60-72 | two fields that parse, joined by one comma and followed by any number of commas, deserialize to the options they spell |
| ClusterBoostedLabels.TrailingEmptyFieldRefused | AutoAnnotate/src/main/java/org/baderlab/autoannotate/internal/labels/makers/ClusterBoostedLabelMakerFactory.java:61-63 | "4," splits into one field and is refused |
| ClusterBoostedLabels.EmptyLeadingFieldRefused | AutoAnnotate/src/main/java/org/baderlab/autoannotate/internal/labels/makers/ClusterBoostedLabelMakerFactory.java:65-71 | ",8" has an empty first field, which does not parse, and is refused |
| Model.AffectedClusters | AutoAnnotate/src/main/java/org/baderlab/autoannotate/internal/model/ModelManager.java:99-122 | the affected clusters are among the active clusters |
| Model.AffectedClustersAppend | AutoAnnotate/src/main/java/org/baderlab/autoannotate/internal/model/ModelManager.java:103-122 | the affected clusters of a payload are the union of those of its parts |
| Model.NonGeometryAffectsNothing | AutoAnnotate/src/main/java/org/baderlab/autoannotate/internal/model/ModelManager.java:104-111 | records for edges, the network, or properties other than X, Y, width and height affect no cluster |
| Model.CollectAffectedClusters | AutoAnnotate/src/main/java/org/baderlab/autoannotate/internal/model/ModelManager.java:99-122 | a cluster is collected exactly when it is active and holds the node of some X, Y, width or height record |
| Model.ModelManager.constructor | AutoAnnotate/src/main/java/org/baderlab/autoannotate/internal/model/ModelManager.java:34-36 | events are not silenced and no set is registered |
| Model.ModelManager.GetNetworkViewSet | AutoAnnotate/src/main/java/org/baderlab/autoannotate/internal/model/ModelManager.java:39-46 | returns the registered set of the view if there is one, and otherwise a fresh set that is registered from then on; no other entry changes |
| Model.ModelManager.GetActiveNetworkViewSet | AutoAnnotate/src/main/java/org/baderlab/autoannotate/internal/model/ModelManager.java:48-51 | a lookup of the current view's set that is null exactly when there is no current view or it has no set, and never inserts |
| Model.ModelManager.PostEvent | AutoAnnotate/src/main/java/org/baderlab/autoannotate/internal/model/ModelManager.java:57-61 | the event reaches the bus exactly when events are not silenced |
| Model.ModelManager.SetSilenceEvents | AutoAnnotate/src/main/java/org/baderlab/autoannotate/internal/model/ModelManager.java:63-65 | sets the silence flag |
| Model.ModelManager.HandleSetSelectedNetworkViews | AutoAnnotate/src/main/java/org/baderlab/autoannotate/internal/model/ModelManager.java:67-72 | announces the current view's set, or null, unless silenced |
| Model.ModelManager.HandleNetworkViewAboutToBeDestroyed | AutoAnnotate/src/main/java/org/baderlab/autoannotate/internal/model/ModelManager.java:74-82 | removes exactly the view's entry and announces the removed set only if there was one |
| Model.ModelManager.IsNetworkViewSetSelected | AutoAnnotate/src/main/java/org/baderlab/autoannotate/internal/model/ModelManager.java:84-89 | with no current view: holds iff the set is null; otherwise a null set throws and a set is selected iff its view is the current view |
| Model.ModelManager.SelectedIffActive | AutoAnnotate/src/main/java/org/baderlab/autoannotate/internal/model/ModelManager.java:84-89 | a registered set is reported selected exactly when it is the active set |
| Model.ModelManager.HandleViewChanged | AutoAnnotate/src/main/java/org/baderlab/autoannotate/internal/model/ModelManager.java:94-129 | no active set throws; a change of another view does nothing; with no active annotation set, a geometry record throws; otherwise one ClusterChanged per affected cluster, each once, unless silenced |
| Model.ModelManager.PostClusterChanges | AutoAnnotate/src/main/java/org/baderlab/autoannotate/internal/model/ModelManager.java:124-126 | the bus receives exactly one ClusterChanged per affected cluster, and nothing else, unless silenced |
| Model.AnnounceOneMore | AutoAnnotate/src/main/java/org/baderlab/autoannotate/internal/model/ModelManager.java:124-126 | posting one more not-yet-announced cluster keeps each cluster announced exactly once |

## Left out

- The CoSE physics (`layout.runLayout()`) is an external library. It is the `Physics` parameter: the engine throws, or it converges with a final centre for every body. Forces, iteration and floating-point behaviour are not modelled.
- An engine that throws after it has already updated some nodes is not modelled: `Throws` leaves every node unchanged.
- The `LayoutOptionsPack` settings written in the layout task's constructor set global library state and are not modelled.
- `Cluster.getCoordinateData`, `Cluster.getParent` and `CoordinateData.forNodes` are not part of this model. A cluster's bounding box is the input `boxOf`.
- `getClusters` reads the active annotation set through the `ModelManager`. Here the clusters are a parameter, in the iteration order of the Java set.
- `ClusterKey.hashCode`, which uses identity hashing, is not modelled. Map keys are compared by reference identity, as `equals` does.
- `ClusterKey.toString`, which only names the subgraph, is not modelled. Neither is the `VEdge` update, which does nothing.
- Doubles in the layout are exact reals. Rounding of the centre-to-corner translation is not modelled.
- The locking and view rendering behind `LayoutPartition.moveNodeToLocation` are not modelled. A move is recorded as the node and its centre.
- LongAggregator: table and row reads are replaced by the sequence of optional cell values. Each value is at most 2^53 in magnitude (`ExactLong`), so `v.doubleValue()` is exact. A larger long would be rounded on conversion, which is not modelled. Doubles are modelled only at integer values, which is all that SUM, MIN, MAX and MEDIAN produce; AVG's one fractional quotient is rounded and truncated in a single step (`RoundedQuotient`). `AggregateSpec` writes the NaN of an AVG over no value as 0, the value Java's `(long)` cast gives it.
- LongAggregator: the `int` row count, which overflows past 2^31 - 1 non-null rows, is unbounded here. The double sum itself never reaches infinity: once it passes 2^107 in magnitude, a value of at most 2^53 is less than half the spacing of doubles there and the rounding drops it, as `DoubleSum` does.
- `LongAggregation.AvgBetweenMinAndMax`: like `AvgExactInRange`, which gives AVG's value, it holds only while every running total of the values stays within 2^53 in magnitude (`SumsExact`). Beyond that the double rounding of the sum lets AVG fall outside [MIN, MAX]: `AvgCanFallBelowMin` gives five copies of 2^53 - 1 whose AVG is 2^53 - 2, and `SumRoundsPast2To53` shows a SUM that loses its last addend.
- `CoseGraph.AddLeaf`, `CoseGraph.AddNode` and `CoseGraph.Build` carry no contract of their own. A contract on them is visible to every proof about the well-built invariant and makes those proofs too expensive. What they do is stated by `AddGroupGroups`, `AddNodeNewKey`, `AddNodeKnownKey`, `AddNodeWellBuilt`, `BuildPrefixStep`, `BuildWellBuilt` and `LeafOfEachNode`.
- Integer.parseInt: non-ASCII Unicode digits, which Java also accepts, are not modelled; only '0' to '9' are digits.
- `ClusterBoostedOptions` is taken to store its two constructor arguments; its source is not part of this model. The UI, label-maker and description members of the factory are not modelled.
- ModelManager: the event bus is the log `posted`. `CyApplicationManager` is the field `currentView`. `synchronized` and the debug output are not modelled.
- `ModelManager.getNetworkViewSets`, a read-only view of the registered sets, is not modelled.
- `NetworkViewSet` is reduced to its view and the clusters of its active annotation set. Its own source is not part of this model.
- `Model.ModelManager.PostClusterChanges`: the order in which a Java `HashSet` is iterated is not modelled. The contract fixes the posted events as a set, each exactly once, and leaves their order open.
- `CoseLayout.CoseLayoutTask.LayoutPhase1`: when the edge loop is cancelled part-way, the graph is stated only through `BuildGraph`, since no node is moved then.
