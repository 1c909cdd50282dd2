/** DirectedGraph: a GraphObj whose isDirected() is true, with in-degree and
    predecessors computed over the live records that edges() yields. */
module DirectedGraph {

  import opened EdgeRecords
  import opened GraphObj

  /** new DirectedGraph(): an empty graph that never mirrors records. */
  method NewDirectedGraph() returns (g: Graph)
    ensures fresh(g) && g.Valid()
    ensures g.directed && g.vertices == [] && g.records == []
  {
    g := new Graph(true);
  }

  /** inDegree(v): 0 for a non-vertex, otherwise the live records whose
      target is v. */
  method InDegree(g: Graph, v: int) returns (n: nat)
    requires g.Valid() && g.directed
    ensures !g.ContainsVertex(v) ==> n == 0
    ensures g.ContainsVertex(v) ==> n == CountTo(LiveRecords(g.records), v)
  {
    n := 0;
    if g.ContainsVertex(v) {
      var live := g.Edges();
      for i := 0 to |live|
        invariant n == CountTo(live[..i], v)
      {
        assert live[..i + 1][..i] == live[..i];
        if live[i].dst == v {
          n := n + 1;
        }
      }
      assert live[..|live|] == live;
    }
  }

  /** predecessors(v): the source of every live record targeting v, in record
      order; as many as inDegree(v) counts for a vertex. */
  method Predecessors(g: Graph, v: int) returns (r: seq<int>)
    requires g.Valid() && g.directed
    ensures r == Sources(LiveRecords(g.records), v)
    ensures g.ContainsVertex(v) ==> |r| == CountTo(LiveRecords(g.records), v)
    ensures forall w :: w in r <==> Edge(w, v) in g.records && IsLive(Edge(w, v))
  {
    var live := g.Edges();
    r := [];
    for i := 0 to |live|
      invariant r == Sources(live[..i], v)
    {
      assert live[..i + 1][..i] == live[..i];
      if live[i].dst == v {
        r := r + [live[i].src];
      }
    }
    assert live[..|live|] == live;
  }

  /** Tombstones never count: removing a recorded edge (u, v) of a directed
      graph lowers the in-degree of v by exactly one. */
  lemma {:induction false} InDegreeAfterRemoveEdge(es: seq<Edge>, u: int, v: int)
    requires NoDuplicateRecords(es) && Edge(u, v) in es && IsLive(Edge(u, v))
    ensures CountTo(LiveRecords(ScrubEdge(es, u, v, true)), v) == CountTo(LiveRecords(es), v) - 1
  {
    OccursOnce(es, Edge(u, v));
    LiveTargetsAfterScrub(es, u, v);
  }

  /** The in-degree lost by remove(u, v) in a directed graph is the number of
      copies of the live record [u, v]. */
  lemma {:induction false} LiveTargetsAfterScrub(es: seq<Edge>, u: int, v: int)
    requires IsLive(Edge(u, v))
    ensures CountTo(LiveRecords(ScrubEdge(es, u, v, true)), v) + Occurrences(es, Edge(u, v))
            == CountTo(LiveRecords(es), v)
  {
    if es != [] {
      var n := |es|;
      var r := ScrubEdge(es, u, v, true);
      assert r[..n - 1] == ScrubEdge(es[..n - 1], u, v, true);
      LiveTargetsAfterScrub(es[..n - 1], u, v);
      CountToAppend(LiveRecords(r[..n - 1]), if IsLive(r[n - 1]) then [r[n - 1]] else [], v);
      CountToAppend(LiveRecords(es[..n - 1]), if IsLive(es[n - 1]) then [es[n - 1]] else [], v);
    }
  }

  /** Appending a live record (u, w), as add(u, w) does, raises the in-degree
      of w by one and leaves every other in-degree alone; together with
      InDegreeAfterRemoveEdge, re-adding a removed edge restores the
      in-degree. */
  lemma InDegreeAfterAddEdge(es: seq<Edge>, u: int, w: int, v: int)
    requires IsLive(Edge(u, w))
    ensures CountTo(LiveRecords(es + [Edge(u, w)]), v) == CountTo(LiveRecords(es), v) + (if w == v then 1 else 0)
  {
    assert (es + [Edge(u, w)])[..|es|] == es;
    CountToAppend(LiveRecords(es), [Edge(u, w)], v);
  }

  lemma {:induction false} CountToAppend(a: seq<Edge>, b: seq<Edge>, v: int)
    ensures CountTo(a + b, v) == CountTo(a, v) + CountTo(b, v)
    decreases |b|
  {
    if b != [] {
      var n := |b|;
      assert (a + b)[..|a + b| - 1] == a + b[..n - 1];
      assert (a + b)[|a + b| - 1] == b[n - 1];
      CountToAppend(a, b[..n - 1], v);
      assert CountTo(a + b, v) == CountTo(a + b[..n - 1], v) + (if b[n - 1].dst == v then 1 else 0);
    } else {
      assert a + b == a;
    }
  }
}
