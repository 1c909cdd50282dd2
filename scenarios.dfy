/** Client programs that replay the expectations of the repository's unit
    tests against the contracts alone: each assert follows from the
    postconditions of the graph and path operations. */
module Scenarios {

  import opened Wrappers
  import opened Sequences
  import opened EdgeRecords
  import opened GraphObj
  import opened DirectedGraph
  import opened PathReconstruction

  /** The vertex list 1, ..., n. */
  function UpTo(n: nat): seq<int> {
    seq(n, k requires 0 <= k < n => k + 1)
  }

  lemma UpToMembers(n: nat)
    ensures forall x :: x in UpTo(n) <==> 1 <= x <= n
  {
    forall x | 1 <= x <= n ensures x in UpTo(n) {
      assert UpTo(n)[x - 1] == x;
    }
  }

  lemma UpToHas(n: nat, x: int)
    requires 1 <= x <= n
    ensures x in UpTo(n)
  {
    assert UpTo(n)[x - 1] == x;
  }

  /** The smallest unused id is unique. */
  lemma SmallestUnusedUnique(s: seq<int>, r: int, m: int)
    requires IsSmallestUnused(s, r) && IsSmallestUnused(s, m)
    ensures r == m
  {
  }

  /** A graph of vertices 1, ..., 10 and no edges, built by ten add() calls
      that return 1, ..., 10 in turn. */
  method TenVertices(directed: bool) returns (g: Graph)
    ensures fresh(g) && g.Valid() && g.directed == directed
    ensures g.vertices == UpTo(10) && g.records == []
  {
    g := new Graph(directed);
    for i := 0 to 10
      invariant g.Valid() && g.directed == directed
      invariant g.vertices == UpTo(i) && g.records == []
    {
      ghost var before := g.vertices;
      var r := g.AddVertex();
      UpToMembers(i);
      SmallestUnusedUnique(before, r, i + 1);
      assert g.vertices == UpTo(i + 1) by {
        assert before[..i] == before && before[i..] == [];
      }
    }
  }

  /** Ten vertices with 2 and 5 removed again. */
  method WithoutTwoAndFive() returns (g: Graph)
    ensures fresh(g) && g.Valid() && !g.directed
    ensures forall x :: g.ContainsVertex(x) <==> 1 <= x <= 10 && x != 2 && x != 5
    ensures |g.vertices| == 8
  {
    g := TenVertices(false);
    UpToMembers(10);
    g.RemoveVertex(2);
    assert forall x :: g.ContainsVertex(x) <==> 1 <= x <= 10 && x != 2;
    g.RemoveVertex(5);
  }

  /** Ten vertices with 2, 5, 6 and 7 removed again. */
  method WithoutTwoFiveSixSeven() returns (g: Graph)
    ensures fresh(g) && g.Valid() && !g.directed
    ensures forall x :: g.ContainsVertex(x) <==> 1 <= x <= 10 && x != 2 && x != 5 && x != 6 && x != 7
    ensures |g.vertices| == 6
  {
    g := WithoutTwoAndFive();
    g.RemoveVertex(6);
    assert forall x :: g.ContainsVertex(x) <==> 1 <= x <= 10 && x != 2 && x != 5 && x != 6;
    g.RemoveVertex(7);
  }

  /** Removing 2, 5, 6 and 7 leaves six vertices; add() then reuses 2, then 5. */
  method VertexReuse() {
    var g := WithoutTwoFiveSixSeven();
    assert g.VertexSize() == 6;
    assert g.ContainsVertex(1) && !g.ContainsVertex(2) && g.ContainsVertex(3) && g.ContainsVertex(4);
    assert !g.ContainsVertex(5);
    ghost var before := g.vertices;
    var a := g.AddVertex();
    SmallestUnusedUnique(before, a, 2);
    assert a == 2;
    assert g.ContainsVertex(1) && g.ContainsVertex(2) && g.ContainsVertex(3);
    assert g.ContainsVertex(4) && !g.ContainsVertex(5);
    before := g.vertices;
    var b := g.AddVertex();
    SmallestUnusedUnique(before, b, 5);
    assert b == 5;
  }

  /** CountLive of a three-record list, unfolded position by position. */
  lemma LiveCount(es: seq<Edge>)
    requires |es| == 3
    ensures CountLive(es) == (if IsLive(es[0]) then 1 else 0) + (if IsLive(es[1]) then 1 else 0)
                             + (if IsLive(es[2]) then 1 else 0)
  {
    assert es[..2][..1] == es[..1];
    assert CountLive(es[..1]) == (if IsLive(es[0]) then 1 else 0) by {
      assert es[..1][..0] == [];
    }
    assert CountLive(es[..2]) == CountLive(es[..1]) + (if IsLive(es[1]) then 1 else 0);
  }

  /** add(1,2) and add(2,1) on ten directed vertices return the ids 1
      and 2. */
  method TwoEdges() returns (g: Graph)
    ensures fresh(g) && g.Valid() && g.directed && g.vertices == UpTo(10)
    ensures g.records == [Edge(1, 2), Edge(2, 1)]
  {
    g := TenVertices(true);
    UpToHas(10, 1);
    UpToHas(10, 2);
    var c := g.ContainsEdge(1, 2);
    assert !c;
    var r1 := g.AddEdge(1, 2);
    assert r1 == Ok(1);
    var r2 := g.AddEdge(2, 1);
    assert r2 == Ok(2);
  }

  /** A third edge, add(3,1), gets id 3. */
  method ThreeEdges() returns (g: Graph)
    ensures fresh(g) && g.Valid() && g.directed && g.vertices == UpTo(10)
    ensures g.records == [Edge(1, 2), Edge(2, 1), Edge(3, 1)]
  {
    g := TwoEdges();
    UpToHas(10, 3);
    var r3 := g.AddEdge(3, 1);
    assert r3 == Ok(3);
  }

  /** Three edges count three; after remove(2,1) two remain, edgeId(3,1) is
      still 3 and re-adding (2,1) gets the fresh id 4. */
  method EdgeIds() {
    var g := ThreeEdges();
    LiveCount([Edge(1, 2), Edge(2, 1), Edge(3, 1)]);
    var n := g.EdgeSize();
    assert n == 3;
    g.RemoveEdge(2, 1);
    assert g.records == [Edge(1, 2), Tombstone, Edge(3, 1)];
    LiveCount([Edge(1, 2), Tombstone, Edge(3, 1)]);
    n := g.EdgeSize();
    assert n == 2;
    var id := g.EdgeId(3, 1);
    assert id == 3;
    UpToHas(10, 2);
    var r4 := g.AddEdge(2, 1);
    assert r4 == Ok(4);
  }

  /** Ten directed vertices and the edges (2,1), (3,1), (4,1). */
  method ThreeIntoOne() returns (g: Graph)
    ensures fresh(g) && g.Valid() && g.directed
    ensures g.records == [Edge(2, 1), Edge(3, 1), Edge(4, 1)]
    ensures g.vertices == UpTo(10)
  {
    g := TwoIntoOne();
    UpToHas(10, 4);
    var r := g.AddEdge(4, 1);
  }

  /** Ten directed vertices and the edges (2,1), (3,1). */
  method TwoIntoOne() returns (g: Graph)
    ensures fresh(g) && g.Valid() && g.directed
    ensures g.records == [Edge(2, 1), Edge(3, 1)]
    ensures g.vertices == UpTo(10)
  {
    g := TenVertices(true);
    UpToHas(10, 2);
    UpToHas(10, 3);
    var r := g.AddEdge(2, 1);
    r := g.AddEdge(3, 1);
  }

  /** Ten directed vertices and the edges (2,1), (3,1), (4,1), (1,3). */
  method InDegreeGraph() returns (g: Graph)
    ensures fresh(g) && g.Valid() && g.directed
    ensures g.records == [Edge(2, 1), Edge(3, 1), Edge(4, 1), Edge(1, 3)]
    ensures g.vertices == UpTo(10)
  {
    g := ThreeIntoOne();
    UpToHas(10, 1);
    var r := g.AddEdge(1, 3);
  }

  /** Three live records into 1 count three. */
  lemma IntoOneCount()
    ensures CountTo(LiveRecords([Edge(2, 1), Edge(3, 1), Edge(4, 1)]), 1) == 3
  {
    InDegreeAfterAddEdge([], 2, 1, 1);
    assert [] + [Edge(2, 1)] == [Edge(2, 1)];
    InDegreeAfterAddEdge([Edge(2, 1)], 3, 1, 1);
    assert [Edge(2, 1)] + [Edge(3, 1)] == [Edge(2, 1), Edge(3, 1)];
    InDegreeAfterAddEdge([Edge(2, 1), Edge(3, 1)], 4, 1, 1);
    assert [Edge(2, 1), Edge(3, 1)] + [Edge(4, 1)] == [Edge(2, 1), Edge(3, 1), Edge(4, 1)];
  }

  /** The edge (1,3) out of 1 does not count towards the in-degree of 1. */
  lemma InDegreeGraphCount()
    ensures CountTo(LiveRecords([Edge(2, 1), Edge(3, 1), Edge(4, 1), Edge(1, 3)]), 1) == 3
  {
    IntoOneCount();
    InDegreeAfterAddEdge([Edge(2, 1), Edge(3, 1), Edge(4, 1)], 1, 3, 1);
    assert [Edge(2, 1), Edge(3, 1), Edge(4, 1)] + [Edge(1, 3)] == [Edge(2, 1), Edge(3, 1), Edge(4, 1), Edge(1, 3)];
  }

  /** In-degree of 1 is 3 after edges (2,1), (3,1), (4,1), (1,3); removing
      (2,1) gives 2; re-adding it gives 3 again. */
  method InDegrees() {
    var g := InDegreeGraph();
    UpToHas(10, 1);
    UpToHas(10, 2);
    var d := InDegree(g, 1);
    InDegreeGraphCount();
    assert d == 3;
    ghost var three := g.records;
    g.RemoveEdge(2, 1);
    InDegreeAfterRemoveEdge(three, 2, 1);
    assert g.ContainsVertex(1);
    d := InDegree(g, 1);
    assert d == 2;
    ghost var two := g.records;
    assert 2 in g.vertices;
    var r := g.AddEdge(2, 1);
    InDegreeAfterAddEdge(two, 2, 1, 1);
    assert g.ContainsVertex(1);
    d := InDegree(g, 1);
    assert d == 3;
  }

  /** predecessors(1) holds exactly 2, 3 and 4, once each. */
  method PredecessorList() {
    var g := ThreeIntoOne();
    UpToHas(10, 1);
    var ps := Predecessors(g, 1);
    assert 2 in ps && 3 in ps && 4 in ps;
    IntoOneCount();
    assert |ps| == 3;
  }

  /** Undirected: a self-loop at 3 and the edge (2,3) give out-degree 2. */
  method UndirectedDegree() {
    var g := TenVertices(false);
    UpToHas(10, 2);
    UpToHas(10, 3);
    var r := g.AddEdge(3, 3);
    r := g.AddEdge(2, 3);
    assert g.records == [Edge(3, 3), Edge(3, 3), Edge(2, 3), Edge(3, 2)];
    var s := g.Successors(3);
    assert forall w :: w in s <==> w == 2 || w == 3;
    var d := g.OutDegree(3);
    IncidentCount(g.records, 3);
    assert d == 2;
  }

  /** CountIncident of a four-record list, unfolded position by position. */
  lemma IncidentCount(es: seq<Edge>, v: int)
    requires |es| == 4
    ensures CountIncident(es, v) == (if Mentions(es[0], v) then 1 else 0) + (if Mentions(es[1], v) then 1 else 0)
                                    + (if Mentions(es[2], v) then 1 else 0) + (if Mentions(es[3], v) then 1 else 0)
  {
    assert es[..3][..2] == es[..2] && es[..2][..1] == es[..1] && es[..1][..0] == [];
    assert CountIncident(es[..1], v) == (if Mentions(es[0], v) then 1 else 0);
    assert CountIncident(es[..2], v) == CountIncident(es[..1], v) + (if Mentions(es[1], v) then 1 else 0);
    assert CountIncident(es[..3], v) == CountIncident(es[..2], v) + (if Mentions(es[2], v) then 1 else 0);
  }

  /** Walking back from 5 in a table where 5 and 6 point at each other
      never leaves {5, 6}. */
  lemma {:induction false} ChainInCycle(pred: map<int, int>, p: seq<int>, k: nat)
    requires 5 in pred && 6 in pred && pred[5] == 6 && pred[6] == 5
    ensures IsChain(pred, 5, p) && k < |p| ==> p[|p| - 1 - k] == 5 || p[|p| - 1 - k] == 6
  {
    if k > 0 {
      ChainInCycle(pred, p, k - 1);
    }
  }

  /** So no chain ends at 5: its first element would need to lack an entry. */
  lemma NoChainInCycle(pred: map<int, int>, p: seq<int>)
    requires 5 in pred && 6 in pred && pred[5] == 6 && pred[6] == 5
    ensures !IsChain(pred, 5, p)
  {
    ChainInCycle(pred, p, if |p| > 0 then |p| - 1 else 0);
  }

  /** Path reconstruction over a hand-filled predecessor table. */
  method Paths() {
    var g := TenVertices(true);
    UpToHas(10, 4);
    var sp := new ShortestPaths(g, 1, 4);
    sp.SetPredecessorLabel(2, 1);
    sp.SetPredecessorLabel(3, 2);
    sp.SetPredecessorLabel(4, 3);
    assert sp.GetDest() == 4;
    var p := sp.PathToDest();
    assert IsChain(sp.pred, 4, [1, 2, 3, 4]);
    assert p.Ok?;
    ChainUnique(sp.pred, 4, p.value, [1, 2, 3, 4]);
    assert p.value == [1, 2, 3, 4];
    // A cycle 5 -> 6 -> 5: no chain ends at 5, so pathTo(5) fails.
    sp.SetPredecessorLabel(5, 6);
    sp.SetPredecessorLabel(6, 5);
    var q := sp.PathTo(5);
    forall c ensures !IsChain(sp.pred, 5, c) {
      NoChainInCycle(sp.pred, c);
    }
    assert q.Err?;
  }

  // ---------------------------------------------------------------------
  // Orders pinned down by the iteration tests. Each scan extends its
  // result by one record at a time, so a concrete list is evaluated by
  // appending its records one by one.

  lemma SnocPrefix(es: seq<Edge>, e: Edge)
    ensures (es + [e])[..|es|] == es
  {
  }

  lemma LiveRecordsSnoc(es: seq<Edge>, e: Edge)
    ensures LiveRecords(es + [e]) == LiveRecords(es) + (if IsLive(e) then [e] else [])
  {
    SnocPrefix(es, e);
  }

  lemma TargetsSnoc(es: seq<Edge>, e: Edge, v: int)
    ensures Targets(es + [e], v) == Targets(es, v) + (if e.src == v then [e.dst] else [])
  {
    SnocPrefix(es, e);
  }

  lemma SourcesSnoc(es: seq<Edge>, e: Edge, v: int)
    ensures Sources(es + [e], v) == Sources(es, v) + (if e.dst == v then [e.src] else [])
  {
    SnocPrefix(es, e);
  }

  lemma NeighboursSnoc(es: seq<Edge>, e: Edge, v: int)
    ensures Neighbours(es + [e], v) == NeighbourStep(Neighbours(es, v), e, v)
  {
    SnocPrefix(es, e);
  }

  lemma IncidentSnoc(es: seq<Edge>, e: Edge, v: int)
    ensures CountIncident(es + [e], v) == CountIncident(es, v) + (if Mentions(e, v) then 1 else 0)
  {
    SnocPrefix(es, e);
  }

  /** Ten directed vertices and the edges (2,3), (1,3), (4,3). */
  method ThreeIntoThree() returns (g: Graph)
    ensures fresh(g) && g.Valid() && g.directed && g.vertices == UpTo(10)
    ensures g.records == [Edge(2, 3), Edge(1, 3), Edge(4, 3)]
  {
    g := TenVertices(true);
    UpToHas(10, 1);
    UpToHas(10, 2);
    UpToHas(10, 4);
    var r := g.AddEdge(2, 3);
    r := g.AddEdge(1, 3);
    r := g.AddEdge(4, 3);
  }

  /** The live sources of 3 over those records, in order. */
  lemma IntoThreeSources()
    ensures Sources(LiveRecords([Edge(2, 3), Edge(1, 3), Edge(4, 3)]), 3) == [2, 1, 4]
  {
    var s0: seq<Edge> := [];
    var s1 := s0 + [Edge(2, 3)];
    var s2 := s1 + [Edge(1, 3)];
    var s3 := s2 + [Edge(4, 3)];
    assert s3 == [Edge(2, 3), Edge(1, 3), Edge(4, 3)];
    LiveRecordsSnoc(s0, Edge(2, 3));
    LiveRecordsSnoc(s1, Edge(1, 3));
    LiveRecordsSnoc(s2, Edge(4, 3));
    assert LiveRecords(s3) == s3;
    SourcesSnoc(s0, Edge(2, 3), 3);
    assert Sources(s1, 3) == [2];
    SourcesSnoc(s1, Edge(1, 3), 3);
    assert Sources(s2, 3) == [2, 1];
    SourcesSnoc(s2, Edge(4, 3), 3);
  }

  /** predecessors(3) after add(2,3), add(1,3), add(4,3) yields 2, 1, 4. */
  method PredecessorOrder() {
    var g := ThreeIntoThree();
    var ps := Predecessors(g, 3);
    IntoThreeSources();
    assert ps == [2, 1, 4];
  }

  /** Ten directed vertices and the edges (3,2), (3,1), (3,4). */
  method ThreeOutOfThree() returns (g: Graph)
    ensures fresh(g) && g.Valid() && g.directed && g.vertices == UpTo(10)
    ensures g.records == [Edge(3, 2), Edge(3, 1), Edge(3, 4)]
  {
    g := TenVertices(true);
    UpToHas(10, 3);
    var r := g.AddEdge(3, 2);
    r := g.AddEdge(3, 1);
    r := g.AddEdge(3, 4);
  }

  /** The targets of 3 over those records, in order. */
  lemma OutOfThreeTargets()
    ensures Targets([Edge(3, 2), Edge(3, 1), Edge(3, 4)], 3) == [2, 1, 4]
  {
    var s0: seq<Edge> := [];
    var s1 := s0 + [Edge(3, 2)];
    var s2 := s1 + [Edge(3, 1)];
    var s3 := s2 + [Edge(3, 4)];
    assert s3 == [Edge(3, 2), Edge(3, 1), Edge(3, 4)];
    TargetsSnoc(s0, Edge(3, 2), 3);
    assert Targets(s1, 3) == [2];
    TargetsSnoc(s1, Edge(3, 1), 3);
    assert Targets(s2, 3) == [2, 1];
    TargetsSnoc(s2, Edge(3, 4), 3);
  }

  /** Directed successors(3) after add(3,2), add(3,1), add(3,4) yields
      2, 1, 4. */
  method SuccessorOrder() {
    var g := ThreeOutOfThree();
    var ss := g.Successors(3);
    OutOfThreeTargets();
    assert ss == [2, 1, 4];
  }

  /** Ten directed vertices, the edges (1,2), (1,3), (1,4), (3,1), and then
      remove(1,3). */
  method FourEdgesOneRemoved() returns (g: Graph)
    ensures fresh(g) && g.Valid() && g.directed
    ensures g.records == [Edge(1, 2), Tombstone, Edge(1, 4), Edge(3, 1)]
  {
    g := TenVertices(true);
    UpToHas(10, 1);
    var r := g.AddEdge(1, 2);
    r := g.AddEdge(1, 3);
    r := g.AddEdge(1, 4);
    r := g.AddEdge(3, 1);
    g.RemoveEdge(1, 3);
  }

  /** The live records of the first two slots of that list. */
  lemma FourEdgesLiveFront()
    ensures LiveRecords([Edge(1, 2), Tombstone]) == [Edge(1, 2)]
  {
    var s0: seq<Edge> := [];
    var s1 := s0 + [Edge(1, 2)];
    var s2 := s1 + [Tombstone];
    assert s2 == [Edge(1, 2), Tombstone];
    LiveRecordsSnoc(s0, Edge(1, 2));
    assert LiveRecords(s1) == [Edge(1, 2)];
    LiveRecordsSnoc(s1, Tombstone);
  }

  /** The live records of that list skip the tombstone. */
  lemma FourEdgesLive()
    ensures LiveRecords([Edge(1, 2), Tombstone, Edge(1, 4), Edge(3, 1)])
            == [Edge(1, 2), Edge(1, 4), Edge(3, 1)]
  {
    var s2 := [Edge(1, 2), Tombstone];
    var s3 := s2 + [Edge(1, 4)];
    var s4 := s3 + [Edge(3, 1)];
    assert s4 == [Edge(1, 2), Tombstone, Edge(1, 4), Edge(3, 1)];
    FourEdgesLiveFront();
    LiveRecordsSnoc(s2, Edge(1, 4));
    assert LiveRecords(s3) == [Edge(1, 2), Edge(1, 4)];
    LiveRecordsSnoc(s3, Edge(3, 1));
  }

  /** edges() after add(1,2), add(1,3), add(1,4), add(3,1) and remove(1,3)
      yields [1,2], [1,4], [3,1]: the tombstone is skipped. */
  method EdgeOrder() {
    var g := FourEdgesOneRemoved();
    var es := g.Edges();
    FourEdgesLive();
    assert es == [Edge(1, 2), Edge(1, 4), Edge(3, 1)];
  }

  /** Ten undirected vertices with a self-loop at 3 and the edges (2,3),
      (1,3), (4,3). */
  method Star() returns (g: Graph)
    ensures fresh(g) && g.Valid() && !g.directed && g.vertices == UpTo(10)
    ensures g.records == [Edge(3, 3), Edge(3, 3), Edge(2, 3), Edge(3, 2),
                          Edge(1, 3), Edge(3, 1), Edge(4, 3), Edge(3, 4)]
  {
    g := TenVertices(false);
    UpToHas(10, 3);
    var r := g.AddEdge(3, 3);
    r := g.AddEdge(2, 3);
    r := g.AddEdge(1, 3);
    r := g.AddEdge(4, 3);
  }

  /** The incident count of 3 over the first six records of Star, and over
      two more records. */
  lemma StarIncident(x: Edge, y: Edge)
    ensures CountIncident([Edge(3, 3), Edge(3, 3), Edge(2, 3), Edge(3, 2), Edge(1, 3), Edge(3, 1), x, y], 3)
            == 6 + (if Mentions(x, 3) then 1 else 0) + (if Mentions(y, 3) then 1 else 0)
  {
    var s0: seq<Edge> := [];
    var s1 := s0 + [Edge(3, 3)];
    var s2 := s1 + [Edge(3, 3)];
    var s3 := s2 + [Edge(2, 3)];
    var s4 := s3 + [Edge(3, 2)];
    var s5 := s4 + [Edge(1, 3)];
    var s6 := s5 + [Edge(3, 1)];
    var s7 := s6 + [x];
    var s8 := s7 + [y];
    IncidentSnoc(s0, Edge(3, 3), 3);
    IncidentSnoc(s1, Edge(3, 3), 3);
    IncidentSnoc(s2, Edge(2, 3), 3);
    IncidentSnoc(s3, Edge(3, 2), 3);
    IncidentSnoc(s4, Edge(1, 3), 3);
    IncidentSnoc(s5, Edge(3, 1), 3);
    IncidentSnoc(s6, x, 3);
    IncidentSnoc(s7, y, 3);
    assert s8 == [Edge(3, 3), Edge(3, 3), Edge(2, 3), Edge(3, 2), Edge(1, 3), Edge(3, 1), x, y];
  }

  /** The undirected neighbours of 3 over the first four records of Star. */
  lemma StarNeighboursFront()
    ensures Neighbours([Edge(3, 3), Edge(3, 3), Edge(2, 3), Edge(3, 2)], 3) == [3, 2]
  {
    var s0: seq<Edge> := [];
    var s1 := s0 + [Edge(3, 3)];
    var s2 := s1 + [Edge(3, 3)];
    var s3 := s2 + [Edge(2, 3)];
    var s4 := s3 + [Edge(3, 2)];
    assert s4 == [Edge(3, 3), Edge(3, 3), Edge(2, 3), Edge(3, 2)];
    NeighboursSnoc(s0, Edge(3, 3), 3);
    assert Neighbours(s1, 3) == [3];
    NeighboursSnoc(s1, Edge(3, 3), 3);
    assert Neighbours(s2, 3) == [3];
    NeighboursSnoc(s2, Edge(2, 3), 3);
    assert Neighbours(s3, 3) == [3, 2];
    NeighboursSnoc(s3, Edge(3, 2), 3);
  }

  /** The undirected neighbours of 3 over Star with (3,4) removed. */
  lemma StarNeighbours()
    ensures Neighbours([Edge(3, 3), Edge(3, 3), Edge(2, 3), Edge(3, 2),
                        Edge(1, 3), Edge(3, 1), Tombstone, Tombstone], 3) == [3, 2, 1]
  {
    var s4 := [Edge(3, 3), Edge(3, 3), Edge(2, 3), Edge(3, 2)];
    var s5 := s4 + [Edge(1, 3)];
    var s6 := s5 + [Edge(3, 1)];
    var s7 := s6 + [Tombstone];
    var s8 := s7 + [Tombstone];
    assert s8 == [Edge(3, 3), Edge(3, 3), Edge(2, 3), Edge(3, 2), Edge(1, 3), Edge(3, 1), Tombstone, Tombstone];
    StarNeighboursFront();
    NeighboursSnoc(s4, Edge(1, 3), 3);
    assert Neighbours(s5, 3) == [3, 2, 1];
    NeighboursSnoc(s5, Edge(3, 1), 3);
    assert Neighbours(s6, 3) == [3, 2, 1];
    NeighboursSnoc(s6, Tombstone, 3);
    assert Neighbours(s7, 3) == [3, 2, 1];
    NeighboursSnoc(s7, Tombstone, 3);
  }

  /** Undirected: with a self-loop at 3 and edges (2,3), (1,3), (4,3) the
      degree of 3 is 4 (the self-loop counts once); after remove(3,4) it is
      3, and successors(3) yields 3, 2, 1. */
  method UndirectedStar() {
    var g := Star();
    UpToHas(10, 3);
    var d := g.OutDegree(3);
    StarIncident(Edge(4, 3), Edge(3, 4));
    assert d == 4;
    g.RemoveEdge(3, 4);
    assert g.records == [Edge(3, 3), Edge(3, 3), Edge(2, 3), Edge(3, 2),
                         Edge(1, 3), Edge(3, 1), Tombstone, Tombstone];
    d := g.OutDegree(3);
    StarIncident(Tombstone, Tombstone);
    assert d == 3;
    var s := g.Successors(3);
    StarNeighbours();
    assert s == [3, 2, 1];
  }
}
