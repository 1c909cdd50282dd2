# Graph store and path reconstruction (ericchhuang/graphs), modelled in Dafny

This project models the core of a small Java graph library:

- **The graph store of `GraphObj`**, shared by directed and undirected graphs. The vertex list is kept
  strictly ascending. The edge list holds one `[u, v]` record per directed edge; an undirected edge is a
  record and its mirror. Removing an edge never deletes a record: it overwrites the slot with the
  tombstone `[0, 0]`. Positions therefore never shift, and an edge's id is its 1-based position.
- **The directed queries of `DirectedGraph`**: `isDirected`, `inDegree` and `predecessors`, computed over
  the live records that `edges()` yields.
- **Path reconstruction in `ShortestPaths`**: `getDest`, `pathTo(v)` and `pathTo()`. `pathTo(v)` walks
  the predecessor table back from `v`, fails on a revisit, reverses the walk, and fails unless the walk
  starts at the source.

Modules:

- `Wrappers` (`wrappers.dfy`): `Option`, `Result`, `Outcome` and the error kinds. Each kind stands for one
  of the `IllegalArgumentException`s the Java code throws.
- `Sequences` (`sequences.dfy`): distinctness and ascending order, `Reverse` (`Collections.reverse`) and
  `IndexOf` (`List.remove(Object)`).
- `EdgeRecords` (`edge_records.dfy`): the `Edge` record and the tombstone. It defines, as functions, what
  each linear scan computes: counts, the live records, targets, sources, neighbours, and the position of
  the last matching record. It also defines what `remove` leaves behind, and the two shape invariants of
  the record list. The lemmas about these functions live here.
- `GraphObj` (`graph_obj.dfy`): `class Graph`, with the fields `directed`, `vertices` and `records`.
  Every Java operation is a method (or a function, where the Java is a single expression). Each method is
  proved against the `EdgeRecords` functions. `Valid()` is the class invariant:
  - the vertex list is strictly ascending and positive;
  - an undirected record list is mirror-paired, meaning slots `2k` and `2k + 1` hold `[u, v]` and `[v, u]`;
  - a directed record list repeats no record except the tombstone.

  Every mutating method keeps `Valid()`.
- `DirectedGraph` (`directed_graph.dfy`): the directed constructor, `InDegree` and `Predecessors` over a
  `Graph` whose `directed` flag is set, and lemmas on how `remove(u, v)` and `add(u, v)` move the in-degree.
- `PathReconstruction` (`shortest_paths.dfy`): `class ShortestPaths`. It holds the graph, the source, the
  destination, and the predecessor table as a `map<int, int>`, where a vertex with no entry stands for a
  `null` label. `IsChain(pred, v, p)` says that `p` is the predecessor chain ending at `v`. It is unique
  (`ChainUnique`), and it has no duplicates (`ChainsAreDistinct`). `PathTo` succeeds exactly when that
  chain exists and starts at the source, and in that case it returns the chain.
- `Scenarios` (`scenarios.dfy`): client code that replays the unit tests' expectations from the contracts
  above alone:
  - ten `add()` calls return 1 to 10;
  - removing 2, 5, 6 and 7 leaves `vertexSize` 6, and `add()` then reuses 2 and then 5;
  - edge ids are 1, 2, 3, then 3 again for `(3,1)` after `remove(2,1)`, and 4 for the re-added `(2,1)`;
  - `edgeSize` is 3, then 2;
  - with edges `(2,1), (3,1), (4,1), (1,3)`, `inDegree(1)` is 3, then 2 after `remove(2,1)`, then 3 again
    after re-adding it;
  - `predecessors(1)` has length 3 and holds 2, 3 and 4;
  - `predecessors(3)` yields exactly 2, 1, 4, and directed `successors(3)` yields exactly 2, 1, 4;
  - `edges()` after `remove(1,3)` yields exactly `[1,2], [1,4], [3,1]`;
  - an undirected self-loop plus one edge give out-degree 2;
  - an undirected self-loop at 3 plus three edges give `degree(3)` 4, then 3 after `remove(3,4)`,
    when `successors(3)` yields exactly 3, 2, 1;
  - `pathTo` rebuilds `[1, 2, 3, 4]`, and fails on a predecessor cycle.

  These follow graph/GraphTest.java:21-39, 41-58, 80-98 and 113-186.

An undirected self-loop contributes 1 to `outDegree`: the code counts the records incident to `v` (a
self-loop's two records `[v, v], [v, v]`) and halves the count, and graph/GraphTest.java:174-180 expects
degree 4 for a self-loop and three edges.

## Model

| member | source | states |
|---|---|---|
| Sequences.Reverse | graph/ShortestPaths.java:119 | the reversed list has the same length, and position i holds the element at position n-1-i |
| Sequences.IndexOf | graph/GraphObj.java:130 | the index of the first occurrence of x, which `List.remove(Object)` deletes |
| Sequences.AscendingCardinality | graph/GraphObj.java:22-24 | a strictly ascending list has as many distinct values as slots, so the list size is the number of vertices |
| EdgeRecords.LiveRecords | graph/GraphObj.java:188-196 | the records with both entries non-zero, in order: as many as `CountLive` counts, and e is among them iff e is a live record of the list |
| EdgeRecords.Targets | graph/GraphObj.java:169-171 | the targets of records sourced at v, in record order with repeats: CountFrom of them, and w is among them iff [v, w] is a record |
| EdgeRecords.Sources | graph/DirectedGraph.java:35-39 | the sources of records targeting v, in record order: CountTo of them, and w is among them iff [w, v] is a record |
| EdgeRecords.Neighbours | graph/GraphObj.java:172-179 | the undirected successor list: distinct, and w is in it iff [w, v] or [v, w] is a record |
| EdgeRecords.FirstOfferIsFirst | graph/GraphObj.java:172-179 | the position FirstOffer gives is the first record offering w as a neighbour of v (the endpoint across from v): no earlier record offers w, and the record there does |
| EdgeRecords.NeighbourStepKeepsOrder | graph/GraphObj.java:173-178 | one step of the undirected successors loop keeps the collected list holding exactly the offered neighbours, ordered by first offer |
| EdgeRecords.NeighboursInFirstOfferOrder | graph/GraphObj.java:167-182 | undirected successors(v) holds exactly the neighbours some record offers, listed in the order of their first offering records: an earlier neighbour's first offer always precedes a later one's |
| EdgeRecords.LastIndex | graph/GraphObj.java:211-217 | 0 iff e is absent; otherwise k is the 1-based position of e and no later slot holds e |
| EdgeRecords.PairedLiveEven | graph/GraphObj.java:39-41 | in a mirror-paired list the live records are even in number, so `size / 2` loses nothing |
| EdgeRecords.PairedIncidentEven | graph/GraphObj.java:61-63 | in a mirror-paired list the records incident to v are even in number, so `edges / 2` is exact |
| EdgeRecords.PairedSymmetric | graph/GraphObj.java:115-120 | in a mirror-paired list a record is present iff its mirror is, so undirected contains(u, v) == contains(v, u) |
| EdgeRecords.AppendPairPaired | graph/GraphObj.java:111-120 | appending a record and its mirror keeps the list mirror-paired |
| EdgeRecords.ScrubEdgePaired | graph/GraphObj.java:151-158 | undirected remove(u, v), which tombstones [u, v] and [v, u], keeps the list mirror-paired |
| EdgeRecords.ScrubVertexPaired | graph/GraphObj.java:131-138 | tombstoning every record naming v keeps the list mirror-paired |
| EdgeRecords.AppendNoDuplicates | graph/GraphObj.java:107-114 | appending a record that is not yet present keeps the directed list free of repeated records |
| EdgeRecords.ScrubEdgeNoDuplicates | graph/GraphObj.java:151-154 | remove(u, v) keeps the directed list free of repeated records |
| EdgeRecords.ScrubVertexNoDuplicates | graph/GraphObj.java:131-138 | remove(v) keeps the directed list free of repeated records |
| EdgeRecords.IncidentAfterAddedPair | graph/GraphObj.java:111-120 | an undirected add(u, w) adds 2 records incident to v when v is u or w and none otherwise, so degree(v) grows by exactly one |
| EdgeRecords.LastIndexUnderScrub | graph/GraphObj.java:151-158 | remove(u, v) leaves the edge id of every other non-tombstone record unchanged |
| EdgeRecords.OccursOnce | graph/GraphObj.java:107-109 | without repeated records, a non-tombstone record occurs once if present and never otherwise |
| GraphObj.InsertKeepsAscending | graph/GraphObj.java:95-96 | inserting r at index r-1, after the slots holding 1..r-1 and before larger values, keeps the list ascending and positive |
| GraphObj.FirstGapIsSmallestUnused | graph/GraphObj.java:94-101 | the first slot i not holding i+1 gives the smallest unused id i+1; inserting it there keeps the list ascending, and adds exactly that value |
| GraphObj.RemoveAtKeepsAscending | graph/GraphObj.java:129-130 | deleting one slot keeps the list ascending and positive, and removes exactly that value |
| GraphObj.ScrubKeepsPartlyScrubbed | graph/GraphObj.java:131-138 | one remove(x, y) call of remove(v)'s loop keeps earlier slots naming v tombstoned and slots not naming v untouched, and tombstones the current slot if it is [x, y] |
| GraphObj.Graph.constructor | graph/GraphObj.java:16-19 | a new graph has no vertices and no records, and satisfies the invariant |
| GraphObj.Graph.ContainsVertex | graph/GraphObj.java:71-73 | a contained id is positive |
| GraphObj.Graph.VertexSize | graph/GraphObj.java:22-24 | the number of distinct vertices |
| GraphObj.Graph.MaxVertex | graph/GraphObj.java:27-29 | None exactly on an empty graph; otherwise a vertex that is no smaller than any vertex |
| GraphObj.Graph.Vertices | graph/GraphObj.java:162-164 | the vertices in ascending order, holding exactly the ids that are contained |
| GraphObj.Graph.CheckMyVertex | graph/GraphObj.java:199-203 | passes iff v is a vertex, and otherwise fails with "vertex not from Graph" |
| GraphObj.Graph.ContainsEdge | graph/GraphObj.java:76-87 | true iff the record [u, v] is in the list (tombstones scanned too); when undirected, also iff [v, u] is |
| GraphObj.Graph.AddVertex | graph/GraphObj.java:90-103 | returns the smallest unused positive id, inserted at index r-1; the list stays ascending, is one longer, and keeps every old vertex |
| GraphObj.Graph.AddEdge | graph/GraphObj.java:106-125 | an existing record gives "Edge already exists" and no change; a record with neither endpoint a vertex gives "Vertices do not exist" and no change; otherwise [u, v] (and [v, u] when undirected) is appended, and the result is the new edge's id: the 1-based position of the last [u, v] |
| GraphObj.Graph.RemoveEdge | graph/GraphObj.java:143-159 | same length; every [u, v] slot (and [v, u] when undirected) becomes [0, 0] and all others stay; the edge is then absent; no change if it was absent |
| GraphObj.Graph.RemoveVertex | graph/GraphObj.java:128-140 | a non-vertex changes nothing; otherwise v leaves the vertex list with the rest in order, every record naming v becomes [0, 0], the other records stay, and no live record names v |
| GraphObj.Graph.Successors | graph/GraphObj.java:167-182 | when directed, the list of targets of v's records; when undirected, the neighbours of v without repeats, w being among them iff [v, w] is a record, ordered by the position of the first record offering each |
| GraphObj.Graph.Edges | graph/GraphObj.java:188-196 | exactly the non-tombstone records, in list order |
| GraphObj.Graph.EdgeSize | graph/GraphObj.java:32-43 | the number of live records, halved exactly when undirected |
| GraphObj.Graph.OutDegree | graph/GraphObj.java:49-65 | 0 for a non-vertex; when directed, the records sourced at v; when undirected, half the records incident to v, exactly |
| GraphObj.Graph.EdgeId | graph/GraphObj.java:206-220 | 0 iff [u, v] is absent; otherwise the 1-based position of its last record |
| DirectedGraph.NewDirectedGraph | graph/DirectedGraph.java:14-17 | an empty graph whose isDirected() is true, so add and remove never mirror |
| DirectedGraph.InDegree | graph/DirectedGraph.java:20-30 | 0 for a non-vertex; otherwise the live records targeting v |
| DirectedGraph.Predecessors | graph/DirectedGraph.java:33-41 | the sources of live records targeting v, in record order: as many as inDegree counts for a vertex, and w is among them iff [w, v] is a live record |
| DirectedGraph.InDegreeAfterRemoveEdge | graph/DirectedGraph.java:23-27 | removing a present live edge (u, v) lowers inDegree(v) by exactly one |
| DirectedGraph.LiveTargetsAfterScrub | graph/DirectedGraph.java:23-27 | remove(u, v) lowers the live in-count of v by the number of copies of [u, v] |
| DirectedGraph.InDegreeAfterAddEdge | graph/DirectedGraph.java:23-27 | appending a live (u, w) raises inDegree(w) by one and leaves every other in-degree unchanged, so re-adding a removed edge restores it |
| PathReconstruction.ChainEntriesDiffer | graph/ShortestPaths.java:112-118 | two positions of a predecessor chain never hold the same vertex |
| PathReconstruction.ChainsAreDistinct | graph/ShortestPaths.java:112-118 | a predecessor chain has no duplicates |
| PathReconstruction.ChainsAgreeFromEnd | graph/ShortestPaths.java:112-114 | two chains ending at v agree position by position, counted from the end |
| PathReconstruction.ChainUnique | graph/ShortestPaths.java:112-114 | at most one chain ends at v: the table determines the path |
| PathReconstruction.FollowsStep | graph/ShortestPaths.java:113-114 | one step of the walk keeps it aligned with every chain ending at v |
| PathReconstruction.WalkNeverRevisits | graph/ShortestPaths.java:115-117 | while the walk follows a chain, the next vertex back was never walked, so a revisit means that no chain ends at v |
| PathReconstruction.ShortestPaths.constructor | graph/ShortestPaths.java:26-33 | records graph, source and destination, with an empty predecessor table |
| PathReconstruction.ShortestPaths.FromSource | graph/ShortestPaths.java:21-23 | the same with destination 0 |
| PathReconstruction.ShortestPaths.SetPredecessorLabel | graph/ShortestPaths.java:62 | the table afterwards maps w to v and is otherwise unchanged |
| PathReconstruction.ShortestPaths.ClearPredecessorLabel | graph/ShortestPaths.java:50 | the table afterwards has no entry for w (a null label) and is otherwise unchanged |
| PathReconstruction.ShortestPaths.GetDest | graph/ShortestPaths.java:74-79 | the destination if the graph contains it, 0 otherwise; so the result is 0 or a vertex |
| PathReconstruction.ShortestPaths.PathTo | graph/ShortestPaths.java:109-124 | success returns the chain ending at v: it starts at the source, each later element's entry is the one before, it ends at v and has no duplicates; failure ("No path to v") happens only when no chain ending at v starts at the source |
| PathReconstruction.ShortestPaths.PathToDest | graph/ShortestPaths.java:128-130 | pathTo(getDest()) with the same guarantees |
| Scenarios.IntoThreeSources | graph/DirectedGraph.java:33-41 | after edges (2,3), (1,3), (4,3) the predecessors of 3 are exactly [2, 1, 4], in record order |
| Scenarios.OutOfThreeTargets | graph/GraphObj.java:167-171 | after edges (3,2), (3,1), (3,4) the directed successors of 3 are exactly [2, 1, 4], in record order |
| Scenarios.FourEdgesLive | graph/GraphObj.java:188-196 | edges() skips the tombstone left by remove(1,3): exactly [1,2], [1,4], [3,1] |
| Scenarios.StarIncident | graph/GraphObj.java:49-65 | a self-loop and three edges at 3 give 8 incident records (degree 4); with (3,4) tombstoned, 6 (degree 3) |
| Scenarios.StarNeighbours | graph/GraphObj.java:172-179 | the undirected successors of 3 after those edges and remove(3,4) are exactly [3, 2, 1]: the self-loop and each mirror collected once |

## Left out

- The static backing fields (graph/GraphObj.java:223-225) are modelled as per-instance fields of `Graph`.
  In the Java code every constructor resets storage shared by all graphs. That is evidently not intended,
  and reproducing shared mutable state would obscure every contract.
- GraphObj.Graph.MaxVertex: on an empty graph the Java code fails an index check, and the model returns
  `None` in its place.
- Java's 32-bit `int` is not modelled: ids, counts and edge ids are unbounded. An overflow would need more
  than 2^31 vertices or records.
- `Iteration` and the lazy iterators of `vertices()`, `successors()`, `predecessors()` and `edges()` are
  modelled as the sequence they would yield. `Iteration` is not part of this model.
- `Collections.reverse` is modelled on values (`Reverse`) rather than in place on the list object.
- The undirected graph class is not among the modelled files. It is modelled by `directed == false`,
  together with GraphObj's `!isDirected()` branches.
- `degree` and the rest of the `Graph` base class are not part of this model. Only `checkMyVertex` and the
  GraphObj overrides are modelled.
- `setPaths` (graph/ShortestPaths.java:47-66) and `DistanceComparator` are left out. Both are Dijkstra/A*
  relaxation over `double` weights, including positive infinity, with a `java.util.PriorityQueue` whose
  order depends on mutable weights. Only its predecessor-label writes are modelled (`SetPredecessorLabel` for
  `setLabel(w, v)`, `ClearPredecessorLabel` for `setLabel(vertex, null)`).
- The hooks `getWeight`, `setWeight`, `getPredecessor`, `setPredecessor` and `estimatedDistance` are left
  out. They are abstract hooks or floating-point defaults. The predecessor table that `pathTo` reads is
  written only by the two label writes above.
- `getSource`, `getLG` and `shortestPath` are left out. They are field getters: the source is the `source`
  field.
- `LabeledGraph` is not part of this model. Its label store is the finite map `pred`. A label read for a
  vertex with no entry is `null`, so a walk from a vertex outside the table is the one-element path.
- `SimpleShortestPaths`, `DepthFirstTraversal` and `Traversal` are left out. They delegate to classes that
  are not part of this model.
- The JUnit tests are not modelled as tests. Their expected values are re-derived from the contracts in
  the `Scenarios` module.
- Exceptions are modelled as `Err`/`Fail` results. An operation that fails leaves the state unchanged,
  exactly as the Java code throws before mutating anything.
