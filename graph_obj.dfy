/** GraphObj: the vertex list and edge-record list shared by directed and
    undirected graphs, with the operations that add, remove and scan them. */
module GraphObj {

  import opened Wrappers
  import opened Sequences
  import opened EdgeRecords

  /** add() returns the smallest positive integer that is not yet a vertex. */
  predicate IsSmallestUnused(s: seq<int>, r: int) {
    r >= 1 && r !in s && forall k :: 1 <= k < r ==> k in s
  }

  /** Inserting r at index r - 1 keeps the list strictly ascending when the
      first r - 1 slots hold 1, ..., r - 1 and every later value exceeds r. */
  lemma InsertKeepsAscending(s: seq<int>, r: int)
    requires StrictlyAscending(s) && AllPositive(s)
    requires 1 <= r <= |s| + 1
    requires forall j :: 0 <= j < r - 1 ==> s[j] == j + 1
    requires r - 1 < |s| ==> s[r - 1] > r
    ensures StrictlyAscending(s[..r - 1] + [r] + s[r - 1..])
    ensures AllPositive(s[..r - 1] + [r] + s[r - 1..])
  {
    var t := s[..r - 1] + [r] + s[r - 1..];
    forall j | 0 <= j < |t| ensures t[j] > 0 && (j < r - 1 ==> t[j] < r) && (j >= r ==> t[j] > r) {
      if j >= r {
        assert t[j] == s[j - 1];
        assert s[j - 1] >= s[r - 1];
      }
    }
  }

  /** The first slot i that does not hold i + 1 marks the smallest unused
      id, and inserting it there keeps the list ascending. */
  lemma FirstGapIsSmallestUnused(s: seq<int>, i: nat)
    requires StrictlyAscending(s) && AllPositive(s) && i <= |s|
    requires forall j :: 0 <= j < i ==> s[j] == j + 1
    requires i == |s| || s[i] != i + 1
    ensures IsSmallestUnused(s, i + 1)
    ensures StrictlyAscending(s[..i] + [i + 1] + s[i..]) && AllPositive(s[..i] + [i + 1] + s[i..])
    ensures forall x :: x in s[..i] + [i + 1] + s[i..] <==> x in s || x == i + 1
  {
    InsertMembers(s, i, i + 1);
    if i < |s| {
      // s[i] is neither i + 1 nor any smaller positive id already placed
      assert i > 0 ==> s[i] > s[i - 1] == i;
      assert s[i] > i + 1;
    }
    assert forall j :: i <= j < |s| ==> s[j] > i + 1 by {
      forall j | i <= j < |s| ensures s[j] > i + 1 {
        assert s[j] >= s[i];
      }
    }
    assert forall k :: 1 <= k < i + 1 ==> k in s by {
      forall k | 1 <= k < i + 1 ensures k in s {
        assert s[k - 1] == k;
      }
    }
    assert i + 1 !in s by {
      forall j | 0 <= j < |s| ensures s[j] != i + 1 {
        if j < i { assert s[j] == j + 1; }
      }
    }
    InsertKeepsAscending(s, i + 1);
  }

  /** Inserting y anywhere adds exactly y to the members. */
  lemma InsertMembers(s: seq<int>, i: nat, y: int)
    requires i <= |s|
    ensures forall x :: x in s[..i] + [y] + s[i..] <==> x in s || x == y
  {
    assert s == s[..i] + s[i..];
  }

  /** Deleting one slot of a strictly ascending list keeps it strictly
      ascending and removes exactly that value. */
  lemma RemoveAtKeepsAscending(s: seq<int>, k: nat)
    requires StrictlyAscending(s) && AllPositive(s) && k < |s|
    ensures StrictlyAscending(s[..k] + s[k + 1..]) && AllPositive(s[..k] + s[k + 1..])
    ensures forall x :: x in s[..k] + s[k + 1..] <==> x in s && x != s[k]
  {
    var t := s[..k] + s[k + 1..];
    forall a, b | 0 <= a < b < |t| ensures t[a] < t[b] {
      assert t[a] == s[if a < k then a else a + 1] && t[b] == s[if b < k then b else b + 1];
    }
    forall a | 0 <= a < |t| ensures t[a] > 0 && t[a] != s[k] {
      assert t[a] == s[if a < k then a else a + 1];
    }
    assert s == s[..k] + [s[k]] + s[k + 1..];
  }

  /** The state of the records part-way through remove(v)'s loop: slots not
      naming v are untouched, those before lo that name v are tombstones, and
      those from lo on are untouched or already tombstones. */
  ghost predicate PartlyScrubbed(orig: seq<Edge>, cur: seq<Edge>, v: int, lo: int) {
    && |cur| == |orig|
    && (forall j :: 0 <= j < |cur| && !Mentions(orig[j], v) ==> cur[j] == orig[j])
    && (forall j :: 0 <= j < |cur| && j < lo && Mentions(orig[j], v) ==> cur[j] == Tombstone)
    && (forall j :: 0 <= j < |cur| && lo <= j && Mentions(orig[j], v) ==>
          cur[j] == orig[j] || cur[j] == Tombstone)
  }

  /** One remove(x, y) call of remove(v)'s loop, where x or y is v, keeps the
      loop's state and settles slot lo when that slot is the record [x, y]. */
  lemma ScrubKeepsPartlyScrubbed(orig: seq<Edge>, cur: seq<Edge>, v: int, lo: int, x: int, y: int, d: bool)
    requires v != 0 && (x == v || y == v) && 0 <= lo < |cur|
    requires PartlyScrubbed(orig, cur, v, lo)
    ensures PartlyScrubbed(orig, ScrubEdge(cur, x, y, d), v, lo)
    ensures cur[lo] == Edge(x, y) || cur[lo] == Tombstone ==> ScrubEdge(cur, x, y, d)[lo] == Tombstone
  {
  }

  class Graph {
    /** isDirected(): fixed by the concrete class. */
    const directed: bool
    /** _vertices: the live vertex ids. */
    var vertices: seq<int>
    /** _edges: the edge records, tombstones included. */
    var records: seq<Edge>

    ghost predicate Valid()
      reads this
    {
      && StrictlyAscending(vertices)
      && AllPositive(vertices)
      && (!directed ==> MirrorPaired(records))
      && (directed ==> NoDuplicateRecords(records))
    }

    /** A new, empty graph. */
    constructor (directed: bool)
      ensures Valid()
      ensures this.directed == directed && vertices == [] && records == []
    {
      this.directed := directed;
      vertices := [];
      records := [];
    }

    /** contains(u): membership in the vertex list. */
    predicate ContainsVertex(u: int)
      reads this
      requires Valid()
      ensures ContainsVertex(u) ==> u >= 1
    {
      u in vertices
    }

    /** vertexSize(): the number of ids v with contains(v). */
    function VertexSize(): (n: nat)
      reads this
      requires Valid()
      ensures n == |set x | x in vertices|
    {
      AscendingCardinality(vertices);
      |vertices|
    }

    /** maxVertex(): the last vertex of the list. On an empty graph the Java
        code fails an index check; here that is None. */
    function MaxVertex(): (r: Option<int>)
      reads this
      requires Valid()
      ensures r.None? <==> vertices == []
      ensures r.Some? ==> r.value in vertices && forall x :: x in vertices ==> x <= r.value
    {
      if vertices == [] then None else Some(vertices[|vertices| - 1])
    }

    /** vertices(): in ascending order. */
    function Vertices(): (r: seq<int>)
      reads this
      requires Valid()
      ensures StrictlyAscending(r) && AllPositive(r)
      ensures forall x :: x in r <==> ContainsVertex(x)
    {
      vertices
    }

    /** checkMyVertex(v): fails exactly for a non-vertex. */
    function CheckMyVertex(v: int): (r: Outcome)
      reads this
      requires Valid()
      ensures r == Pass <==> ContainsVertex(v)
      ensures r.Fail? ==> r.error == VertexNotFromGraph
    {
      if !ContainsVertex(v) then Fail(VertexNotFromGraph) else Pass
    }

    /** contains(u, v): the scan for a record equal to [u, v]; tombstones are
        scanned too, as in the Java loop. */
    method ContainsEdge(u: int, v: int) returns (b: bool)
      requires Valid()
      ensures b == (Edge(u, v) in records)
      ensures !directed ==> b == (Edge(v, u) in records)
    {
      b := false;
      for i := 0 to |records|
        invariant b == (Edge(u, v) in records[..i])
      {
        assert records[..i + 1] == records[..i] + [records[i]];
        if records[i] == Edge(u, v) {
          b := true;
        }
      }
      assert records[..|records|] == records;
      if !directed {
        PairedSymmetric(records, Edge(u, v));
      }
    }

    /** add(): inserts the smallest unused positive id at its sorted position. */
    method AddVertex() returns (r: int)
      requires Valid()
      modifies this`vertices
      ensures Valid()
      ensures IsSmallestUnused(old(vertices), r)
      ensures 1 <= r <= |old(vertices)| + 1
      ensures vertices == old(vertices)[..r - 1] + [r] + old(vertices)[r - 1..]
      ensures forall x :: x in vertices <==> x in old(vertices) || x == r
    {
      var added := false;
      r := 0;
      var i := 0;
      while !added
        invariant !added ==> vertices == old(vertices) && 0 <= i <= |vertices|
        invariant !added ==> forall j :: 0 <= j < i ==> vertices[j] == j + 1
        invariant added ==> 1 <= r <= |old(vertices)| + 1 && i == r
        invariant added ==> IsSmallestUnused(old(vertices), r)
        invariant added ==> vertices == old(vertices)[..r - 1] + [r] + old(vertices)[r - 1..]
        invariant added ==> Valid()
        decreases if added then 0 else |vertices| - i + 1
      {
        if |vertices| <= i || vertices[i] != i + 1 {
          FirstGapIsSmallestUnused(vertices, i);
          vertices := vertices[..i] + [i + 1] + vertices[i..];
          r := i + 1;
          added := true;
        }
        i := i + 1;
      }
    }

    /** add(u, v): refuses an existing record, and a record neither of whose
        endpoints is a vertex; otherwise appends [u, v] (and [v, u] when
        undirected) and returns edgeId(u, v). */
    method AddEdge(u: int, v: int) returns (r: Result<int>)
      requires Valid()
      modifies this`records
      ensures Valid()
      ensures Edge(u, v) in old(records) ==> r == Err(EdgeAlreadyExists) && records == old(records)
      ensures Edge(u, v) !in old(records) && !ContainsVertex(u) && !ContainsVertex(v) ==>
                r == Err(VerticesDoNotExist) && records == old(records)
      ensures Edge(u, v) !in old(records) && (ContainsVertex(u) || ContainsVertex(v)) ==>
                && records == old(records) + (if directed then [Edge(u, v)] else [Edge(u, v), Edge(v, u)])
                && r == Ok(|old(records)| + (if !directed && u == v then 2 else 1))
                && r.value == LastIndex(records, Edge(u, v))
    {
      var present := ContainsEdge(u, v);
      if present {
        return Err(EdgeAlreadyExists);
      }
      if u in vertices || v in vertices {
        if directed {
          AppendNoDuplicates(records, Edge(u, v));
        } else {
          AppendPairPaired(records, Edge(u, v));
        }
        records := records + [Edge(u, v)];
        if !directed {
          records := records + [Edge(v, u)];
        }
        assert records[..|old(records)|] == old(records);
        var id := EdgeId(u, v);
        return Ok(id);
      } else {
        return Err(VerticesDoNotExist);
      }
    }

    /** remove(u, v): overwrites every slot equal to [u, v] (and to [v, u]
        when undirected) with the tombstone; the list keeps its length. */
    method RemoveEdge(u: int, v: int)
      requires Valid()
      modifies this`records
      ensures Valid()
      ensures records == ScrubEdge(old(records), u, v, directed)
      ensures |records| == |old(records)|
      ensures forall i :: 0 <= i < |records| ==>
                records[i] == (if old(records)[i] == Edge(u, v) || (!directed && old(records)[i] == Edge(v, u))
                               then Tombstone else old(records)[i])
      ensures Edge(u, v) != Tombstone ==> Edge(u, v) !in records
      ensures !directed && Edge(v, u) != Tombstone ==> Edge(v, u) !in records
      ensures Edge(u, v) !in old(records) && (directed || Edge(v, u) !in old(records)) ==>
                records == old(records)
    {
      for i := 0 to |records|
        invariant |records| == |old(records)|
        invariant forall j :: 0 <= j < i ==> records[j] == ScrubOne(old(records)[j], u, v, directed)
        invariant forall j :: i <= j < |records| ==> records[j] == old(records)[j]
      {
        if records[i] == Edge(u, v) {
          records := records[i := Tombstone];
        }
        if !directed && records[i] == Edge(v, u) {
          records := records[i := Tombstone];
        }
      }
      assert records == ScrubEdge(old(records), u, v, directed);
      if directed {
        ScrubEdgeNoDuplicates(old(records), u, v, directed);
      } else {
        ScrubEdgePaired(old(records), u, v);
      }
    }

    /** remove(v): for a vertex, deletes it from the vertex list and, for
        every record naming it, calls remove(u, v) as the Java loop does;
        the effect is that exactly the records naming v become tombstones.
        A non-vertex changes nothing. */
    method RemoveVertex(v: int)
      requires Valid()
      modifies this
      ensures Valid()
      ensures !old(ContainsVertex(v)) ==> vertices == old(vertices) && records == old(records)
      ensures old(ContainsVertex(v)) ==>
                && vertices == old(vertices)[..IndexOf(old(vertices), v)] + old(vertices)[IndexOf(old(vertices), v) + 1..]
                && records == ScrubVertex(old(records), v)
      ensures !ContainsVertex(v)
      ensures forall x :: ContainsVertex(x) <==> old(ContainsVertex(x)) && x != v
      ensures |records| == |old(records)|
      ensures forall i :: 0 <= i < |records| && !Mentions(old(records)[i], v) ==> records[i] == old(records)[i]
      ensures old(ContainsVertex(v)) ==>
                forall i :: 0 <= i < |records| && records[i] != Tombstone ==> !Mentions(records[i], v)
    {
      if v in vertices {
        var k := IndexOf(vertices, v);
        ghost var vs := vertices;
        RemoveAtKeepsAscending(vs, k);
        vertices := vertices[..k] + vertices[k + 1..];
        var i := 0;
        while i < |records|
          invariant Valid()
          invariant vertices == vs[..k] + vs[k + 1..]
          invariant 0 <= i <= |records|
          invariant PartlyScrubbed(old(records), records, v, i)
        {
          var element := records[i];
          if element.src == v {
            ScrubKeepsPartlyScrubbed(old(records), records, v, i, v, element.dst, directed);
            RemoveEdge(v, element.dst);
          }
          if element.dst == v {
            ScrubKeepsPartlyScrubbed(old(records), records, v, i, element.src, v, directed);
            RemoveEdge(element.src, v);
          }
          i := i + 1;
        }
        assert records == ScrubVertex(old(records), v);
        // The invariant also follows from the removal's overall effect.
        if directed {
          ScrubVertexNoDuplicates(old(records), v);
        } else {
          ScrubVertexPaired(old(records), v);
        }
      }
    }

    /** successors(v): directed, the targets of records sourced at v in record
        order; undirected, the neighbours of v once each in order of first
        occurrence. */
    method Successors(v: int) returns (r: seq<int>)
      requires Valid()
      ensures directed ==> r == Targets(records, v)
      ensures !directed ==> r == Neighbours(records, v)
      ensures !directed ==> Distinct(r) && forall w :: w in r <==> Edge(v, w) in records
      ensures !directed ==> InFirstOfferOrder(records, v, r)
    {
      r := [];
      for i := 0 to |records|
        invariant directed ==> r == Targets(records[..i], v)
        invariant !directed ==> r == Neighbours(records[..i], v)
      {
        assert records[..i + 1][..i] == records[..i];
        var element := records[i];
        if directed && element.src == v {
          r := r + [element.dst];
        } else if !directed {
          if element.dst == v && element.src !in r {
            r := r + [element.src];
          } else if element.src == v && element.dst !in r {
            r := r + [element.dst];
          }
        }
      }
      assert records[..|records|] == records;
      if !directed {
        forall w ensures Edge(w, v) in records <==> Edge(v, w) in records {
          PairedSymmetric(records, Edge(v, w));
        }
        NeighboursInFirstOfferOrder(records, v);
      }
    }

    /** edges(): the live records, in list order. */
    method Edges() returns (r: seq<Edge>)
      ensures r == LiveRecords(records)
    {
      r := [];
      for i := 0 to |records|
        invariant r == LiveRecords(records[..i])
      {
        assert records[..i + 1][..i] == records[..i];
        var element := records[i];
        if element.src != 0 && element.dst != 0 {
          r := r + [element];
        }
      }
      assert records[..|records|] == records;
    }

    /** edgeSize(): the live records, halved when undirected; the halving is
        exact because undirected records come in mirrored pairs. */
    method EdgeSize() returns (n: nat)
      requires Valid()
      ensures directed ==> n == CountLive(records) == |LiveRecords(records)|
      ensures !directed ==> 2 * n == CountLive(records) == |LiveRecords(records)|
    {
      var size := 0;
      for i := 0 to |records|
        invariant size == CountLive(records[..i])
      {
        assert records[..i + 1][..i] == records[..i];
        var element := records[i];
        if element.src != 0 && element.dst != 0 {
          size := size + 1;
        }
      }
      assert records[..|records|] == records;
      if !directed {
        PairedLiveEven(records);
        return size / 2;
      }
      return size;
    }

    /** outDegree(v): 0 for a non-vertex; directed, the records sourced at v;
        undirected, half the records incident to v (exactly half, so an
        undirected self-loop counts once). */
    method OutDegree(v: int) returns (n: nat)
      requires Valid()
      ensures !ContainsVertex(v) ==> n == 0
      ensures ContainsVertex(v) && directed ==> n == CountFrom(records, v) == |Targets(records, v)|
      ensures ContainsVertex(v) && !directed ==> 2 * n == CountIncident(records, v)
    {
      var edges := 0;
      if v in vertices {
        for i := 0 to |records|
          invariant directed ==> edges == CountFrom(records[..i], v)
          invariant !directed ==> edges == CountIncident(records[..i], v)
        {
          assert records[..i + 1][..i] == records[..i];
          var element := records[i];
          if directed && element.src == v {
            edges := edges + 1;
          } else if !directed && (element.src == v || element.dst == v) {
            edges := edges + 1;
          }
        }
        assert records[..|records|] == records;
      }
      if !directed {
        PairedIncidentEven(records, v);
        return edges / 2;
      }
      return edges;
    }

    /** edgeId(u, v): 0 when [u, v] is not recorded, otherwise the 1-based
        position of its last record. */
    method EdgeId(u: int, v: int) returns (id: nat)
      requires Valid()
      ensures id == LastIndex(records, Edge(u, v))
      ensures id == 0 <==> Edge(u, v) !in records
      ensures id > 0 ==> id <= |records| && records[id - 1] == Edge(u, v)
                         && forall j :: id <= j < |records| ==> records[j] != Edge(u, v)
    {
      var present := ContainsEdge(u, v);
      if present {
        id := 0;
        for i := 0 to |records|
          invariant id == LastIndex(records[..i], Edge(u, v))
        {
          assert records[..i + 1][..i] == records[..i];
          if records[i] == Edge(u, v) {
            id := i + 1;
          }
        }
        assert records[..|records|] == records;
      } else {
        id := 0;
      }
    }
  }
}
