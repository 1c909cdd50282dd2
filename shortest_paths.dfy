/** ShortestPaths: destination lookup and path reconstruction from the
    predecessor table that the search fills in. The table is the vertex-label
    store of a LabeledGraph; here it is a finite map, and a vertex with no
    entry stands for a null label. */
module PathReconstruction {

  import opened Wrappers
  import opened Sequences
  import opened GraphObj

  /** p is a predecessor chain ending at v: every element after the first is
      the table entry of the next one, and the first has no entry (the walk
      from v stops there). */
  ghost predicate IsChain(pred: map<int, int>, v: int, p: seq<int>) {
    && |p| >= 1
    && p[|p| - 1] == v
    && p[0] !in pred
    && forall i :: 1 <= i < |p| ==> p[i] in pred && pred[p[i]] == p[i - 1]
  }

  /** Two positions of a chain never hold the same vertex: a repeat would make
      the walk cycle before reaching the entry-less first element. */
  lemma {:induction false} ChainEntriesDiffer(pred: map<int, int>, v: int, p: seq<int>, i: nat, j: nat)
    requires IsChain(pred, v, p) && i < j < |p|
    ensures p[i] != p[j]
    decreases i
  {
    if i > 0 {
      ChainEntriesDiffer(pred, v, p, i - 1, j - 1);
    }
  }

  /** A chain has no duplicates. */
  lemma ChainsAreDistinct(pred: map<int, int>, v: int, p: seq<int>)
    requires IsChain(pred, v, p)
    ensures Distinct(p)
  {
    forall i, j | 0 <= i < j < |p| ensures p[i] != p[j] {
      ChainEntriesDiffer(pred, v, p, i, j);
    }
  }

  /** Chains ending at the same vertex agree position by position, counted
      from the end. */
  lemma {:induction false} ChainsAgreeFromEnd(pred: map<int, int>, v: int, p: seq<int>, q: seq<int>, k: nat)
    requires IsChain(pred, v, p) && IsChain(pred, v, q) && k < |p| && k < |q|
    ensures p[|p| - 1 - k] == q[|q| - 1 - k]
  {
    if k > 0 {
      ChainsAgreeFromEnd(pred, v, p, q, k - 1);
    }
  }

  /** There is at most one chain ending at v: the table determines the path. */
  lemma ChainUnique(pred: map<int, int>, v: int, p: seq<int>, q: seq<int>)
    requires IsChain(pred, v, p) && IsChain(pred, v, q)
    ensures p == q
  {
    // Aligned from the end, the shorter chain's entry-less first element
    // would face an element of the longer one that has an entry.
    var m := if |p| < |q| then |p| else |q|;
    ChainsAgreeFromEnd(pred, v, p, q, m - 1);
    assert |p| == |q|;
    forall k | 0 <= k < |p| ensures p[k] == q[k] {
      ChainsAgreeFromEnd(pred, v, p, q, |p| - 1 - k);
    }
  }

  /** The walk so far (path, from v backwards, and the next vertex back) is
      the reversal of a tail of chain p. */
  ghost predicate Follows(path: seq<int>, back: Option<int>, p: seq<int>) {
    && |path| <= |p|
    && (forall k :: 0 <= k < |path| ==> path[k] == p[|p| - 1 - k])
    && (back.Some? <==> |path| < |p|)
    && (back.Some? ==> back.value == p[|p| - 1 - |path|])
  }

  /** One step of the walk keeps it aligned with every chain ending at v. */
  lemma FollowsStep(pred: map<int, int>, v: int, path: seq<int>, b: int, p: seq<int>)
    requires IsChain(pred, v, p) && Follows(path, Some(b), p)
    ensures Follows(path + [b], if b in pred then Some(pred[b]) else None, p)
  {
    var m := |p| - 1 - |path|;
    assert p[m] == b;
    if b in pred {
      assert m >= 1;
    } else {
      assert m == 0;
    }
  }

  /** While the walk follows a chain ending at v, the next vertex back is
      never one already walked; so a revisit means no chain ends at v. */
  lemma WalkNeverRevisits(pred: map<int, int>, v: int, path: seq<int>, back: int, p: seq<int>)
    ensures IsChain(pred, v, p) && Follows(path, Some(back), p) ==> back !in path
  {
    if IsChain(pred, v, p) && Follows(path, Some(back), p) {
      forall k | 0 <= k < |path| ensures path[k] != back {
        ChainEntriesDiffer(pred, v, p, |p| - 1 - |path|, |p| - 1 - k);
      }
    }
  }

  class ShortestPaths {
    /** _G: the graph searched. */
    const graph: Graph
    /** _source and _dest (0 when no destination is configured). */
    const source: int
    const dest: int
    /** _shortestpath: each vertex's predecessor label; no entry is null. */
    var pred: map<int, int>

    /** ShortestPaths(G, source, dest), with an empty predecessor store. */
    constructor (g: Graph, source: int, dest: int)
      ensures graph == g && this.source == source && this.dest == dest && pred == map[]
    {
      graph := g;
      this.source := source;
      this.dest := dest;
      pred := map[];
    }

    /** ShortestPaths(G, source): no destination. */
    constructor FromSource(g: Graph, source: int)
      ensures graph == g && this.source == source && dest == 0 && pred == map[]
    {
      graph := g;
      this.source := source;
      dest := 0;
      pred := map[];
    }

    /** The predecessor write of the relaxation step, setLabel(w, v). */
    method SetPredecessorLabel(w: int, v: int)
      modifies this`pred
      ensures pred == old(pred)[w := v]
    {
      pred := pred[w := v];
    }

    /** The reset of setPaths, setLabel(vertex, null). */
    method ClearPredecessorLabel(w: int)
      modifies this`pred
      ensures pred == old(pred) - {w}
    {
      pred := pred - {w};
    }

    /** getDest(): the configured destination while the graph contains it,
        and 0 otherwise. */
    function GetDest(): (r: int)
      reads this, graph
      requires graph.Valid()
      ensures graph.ContainsVertex(dest) ==> r == dest
      ensures !graph.ContainsVertex(dest) ==> r == 0
      ensures r == 0 || graph.ContainsVertex(r)
    {
      if graph.ContainsVertex(dest) then dest else 0
    }

    /** pathTo(v): walks predecessor links back from v, failing as soon as the
        walk revisits a vertex; reverses the walk and fails unless it starts
        at the source. Succeeds exactly when the chain ending at v starts at
        the source, and then returns that chain. */
    method PathTo(v: int) returns (r: Result<seq<int>>)
      ensures r.Ok? ==> IsChain(pred, v, r.value) && r.value[0] == source
      ensures r.Ok? ==> r.value[|r.value| - 1] == v && Distinct(r.value)
      ensures r.Err? ==> r.error == NoPathTo(v)
      ensures r.Err? ==> forall p :: IsChain(pred, v, p) ==> p[0] != source
    {
      var back: Option<int> := Some(v);
      var path: seq<int> := [];
      while back.Some?
        invariant |path| == 0 ==> back == Some(v)
        invariant |path| > 0 ==> path[0] == v
        invariant forall k :: 0 <= k < |path| - 1 ==> path[k] in pred && pred[path[k]] == path[k + 1]
        invariant |path| > 0 && back.Some? ==> path[|path| - 1] in pred && pred[path[|path| - 1]] == back.value
        invariant back.None? ==> |path| > 0 && path[|path| - 1] !in pred
        invariant back.Some? ==> back.value !in path && forall x :: x in path ==> x in pred
        invariant Distinct(path)
        invariant forall p :: IsChain(pred, v, p) ==> Follows(path, back, p)
        decreases |pred.Keys - set x | x in path|, if back.Some? then 1 else 0
      {
        var b := back.value;
        ghost var before := path;
        forall p | IsChain(pred, v, p)
          ensures Follows(path + [b], if b in pred then Some(pred[b]) else None, p)
        {
          FollowsStep(pred, v, path, b, p);
        }
        path := path + [b];
        back := if b in pred then Some(pred[b]) else None;
        if b in pred {
          assert (pred.Keys - set x | x in path) == (pred.Keys - set x | x in before) - {b};
        }
        if back.Some? && back.value in path {
          forall p ensures !IsChain(pred, v, p) {
            WalkNeverRevisits(pred, v, path, back.value, p);
          }
          return Err(NoPathTo(v));
        }
      }
      var rev := Reverse(path);
      if rev[0] != source {
        return Err(NoPathTo(v));
      }
      assert IsChain(pred, v, rev) by {
        forall i | 1 <= i < |rev| ensures rev[i] in pred && pred[rev[i]] == rev[i - 1] {
          assert rev[i] == path[|path| - 1 - i] && rev[i - 1] == path[|path| - 1 - i + 1];
        }
      }
      ChainsAreDistinct(pred, v, rev);
      return Ok(rev);
    }

    /** pathTo(): pathTo(getDest()). */
    method PathToDest() returns (r: Result<seq<int>>)
      requires graph.Valid()
      ensures r.Ok? ==> IsChain(pred, GetDest(), r.value) && r.value[0] == source
      ensures r.Ok? ==> r.value[|r.value| - 1] == GetDest() && Distinct(r.value)
      ensures r.Err? ==> r.error == NoPathTo(GetDest())
      ensures r.Err? ==> forall p :: IsChain(pred, GetDest(), p) ==> p[0] != source
    {
      var d := GetDest();
      r := PathTo(d);
    }
  }
}
