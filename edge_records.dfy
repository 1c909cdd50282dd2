/** The edge-record list of GraphObj as a value: a sequence of [u, v] slots,
    where removal overwrites a slot with [0, 0] instead of deleting it.
    Every query of GraphObj and DirectedGraph is a scan over this list; the
    functions below say what each scan computes, and the lemmas relate them. */
module EdgeRecords {

  import opened Sequences

  /** One slot of the list: the int[2] pair [src, dst]. */
  datatype Edge = Edge(src: int, dst: int)

  /** What remove writes into a slot: a fresh int[2], that is [0, 0]. */
  const Tombstone: Edge := Edge(0, 0)

  function Mirror(e: Edge): Edge {
    Edge(e.dst, e.src)
  }

  /** The filter of edges() and edgeSize(): both entries non-zero. */
  predicate IsLive(e: Edge) {
    e.src != 0 && e.dst != 0
  }

  predicate Mentions(e: Edge, v: int) {
    e.src == v || e.dst == v
  }

  // ---------------------------------------------------------------------
  // Counting scans. Each is defined from the end of the list, the way a
  // left-to-right loop extends its accumulator.

  function CountLive(es: seq<Edge>): nat {
    if es == [] then 0
    else CountLive(es[..|es| - 1]) + (if IsLive(es[|es| - 1]) then 1 else 0)
  }

  /** Records whose source is v. */
  function CountFrom(es: seq<Edge>, v: int): nat {
    if es == [] then 0
    else CountFrom(es[..|es| - 1], v) + (if es[|es| - 1].src == v then 1 else 0)
  }

  /** Records whose target is v. */
  function CountTo(es: seq<Edge>, v: int): nat {
    if es == [] then 0
    else CountTo(es[..|es| - 1], v) + (if es[|es| - 1].dst == v then 1 else 0)
  }

  /** Records with v as either endpoint (a self-loop counts once per record). */
  function CountIncident(es: seq<Edge>, v: int): nat {
    if es == [] then 0
    else CountIncident(es[..|es| - 1], v) + (if Mentions(es[|es| - 1], v) then 1 else 0)
  }

  function Occurrences(es: seq<Edge>, e: Edge): nat {
    if es == [] then 0
    else Occurrences(es[..|es| - 1], e) + (if es[|es| - 1] == e then 1 else 0)
  }

  // ---------------------------------------------------------------------
  // Listing scans.

  /** edges(): the live records, in list order. */
  function LiveRecords(es: seq<Edge>): (r: seq<Edge>)
    ensures |r| == CountLive(es)
    ensures forall e :: e in r <==> e in es && IsLive(e)
  {
    if es == [] then []
    else
      assert es == es[..|es| - 1] + [es[|es| - 1]];
      LiveRecords(es[..|es| - 1]) + (if IsLive(es[|es| - 1]) then [es[|es| - 1]] else [])
  }

  /** Directed successors(v): the target of every record sourced at v,
      in record order, duplicates kept. */
  function Targets(es: seq<Edge>, v: int): (r: seq<int>)
    ensures |r| == CountFrom(es, v)
    ensures forall w :: w in r <==> Edge(v, w) in es
  {
    if es == [] then []
    else
      assert es == es[..|es| - 1] + [es[|es| - 1]];
      Targets(es[..|es| - 1], v) + (if es[|es| - 1].src == v then [es[|es| - 1].dst] else [])
  }

  /** Directed predecessors(v): the source of every record targeting v. */
  function Sources(es: seq<Edge>, v: int): (r: seq<int>)
    ensures |r| == CountTo(es, v)
    ensures forall w :: w in r <==> Edge(w, v) in es
  {
    if es == [] then []
    else
      assert es == es[..|es| - 1] + [es[|es| - 1]];
      Sources(es[..|es| - 1], v) + (if es[|es| - 1].dst == v then [es[|es| - 1].src] else [])
  }

  /** One step of the undirected successors(v) loop: a record targeting v
      contributes its source, otherwise a record sourced at v contributes its
      target, in each case only if not already collected. */
  function NeighbourStep(acc: seq<int>, e: Edge, v: int): seq<int> {
    if e.dst == v && e.src !in acc then acc + [e.src]
    else if e.src == v && e.dst !in acc then acc + [e.dst]
    else acc
  }

  /** Undirected successors(v): every neighbour of v once, in order of first
      occurrence. */
  function Neighbours(es: seq<Edge>, v: int): (r: seq<int>)
    ensures Distinct(r)
    ensures forall w :: w in r <==> Edge(w, v) in es || Edge(v, w) in es
  {
    if es == [] then []
    else
      assert es == es[..|es| - 1] + [es[|es| - 1]];
      NeighbourStep(Neighbours(es[..|es| - 1], v), es[|es| - 1], v)
  }

  /** A record incident to v offers the endpoint across from v as a
      neighbour (v itself for a self-loop). */
  predicate Offers(e: Edge, v: int, w: int) {
    (e.dst == v && e.src == w) || (e.src == v && e.dst == w)
  }

  /** The 0-based position of the first record offering w as a neighbour of
      v, or |es| when no record does (FirstOfferIsFirst). */
  function FirstOffer(es: seq<Edge>, v: int, w: int): (k: nat)
    ensures k <= |es|
  {
    if es == [] then 0
    else
      var k := FirstOffer(es[..|es| - 1], v, w);
      if k < |es| - 1 then k
      else if Offers(es[|es| - 1], v, w) then |es| - 1
      else |es|
  }

  /** FirstOffer is the first offering position: no record before it offers
      w, and the record there does. */
  lemma {:induction false} FirstOfferIsFirst(es: seq<Edge>, v: int, w: int)
    ensures forall q :: 0 <= q < FirstOffer(es, v, w) ==> !Offers(es[q], v, w)
    ensures FirstOffer(es, v, w) < |es| ==> Offers(es[FirstOffer(es, v, w)], v, w)
  {
    if es != [] {
      var front := es[..|es| - 1];
      FirstOfferIsFirst(front, v, w);
      forall q | 0 <= q < FirstOffer(es, v, w) ensures !Offers(es[q], v, w) {
        if q < |front| {
          assert es[q] == front[q];
        }
      }
      if FirstOffer(es, v, w) < |front| {
        assert es[FirstOffer(es, v, w)] == front[FirstOffer(es, v, w)];
      }
    }
  }

  /** Appending a record moves the first offer of w only when no earlier
      record offers w. */
  lemma FirstOfferSnoc(es: seq<Edge>, e: Edge, v: int, w: int)
    ensures FirstOffer(es + [e], v, w)
            == if FirstOffer(es, v, w) < |es| then FirstOffer(es, v, w)
               else if Offers(e, v, w) then |es| else |es| + 1
  {
    assert (es + [e])[..|es|] == es;
  }

  /** r holds exactly the neighbours that some record of es offers, ordered
      by the position of the first record offering each. */
  ghost predicate InFirstOfferOrder(es: seq<Edge>, v: int, r: seq<int>) {
    && (forall w :: w in r <==> FirstOffer(es, v, w) < |es|)
    && (forall i, j :: 0 <= i < j < |r| ==> FirstOffer(es, v, r[i]) < FirstOffer(es, v, r[j]))
  }

  /** The step that collects a new neighbour o appends it after every
      neighbour already collected. */
  lemma AppendOfferKeepsOrder(es: seq<Edge>, e: Edge, v: int, acc: seq<int>, o: int)
    requires InFirstOfferOrder(es, v, acc)
    requires Offers(e, v, o) && o !in acc
    requires forall w :: Offers(e, v, w) ==> w == o
    ensures InFirstOfferOrder(es + [e], v, acc + [o])
  {
    var n := |es|;
    var r := acc + [o];
    FirstOfferSnoc(es, e, v, o);
    forall w ensures w in r <==> FirstOffer(es + [e], v, w) < n + 1 {
      FirstOfferSnoc(es, e, v, w);
    }
    forall i, j | 0 <= i < j < |r| ensures FirstOffer(es + [e], v, r[i]) < FirstOffer(es + [e], v, r[j]) {
      assert r[i] == acc[i];
      FirstOfferSnoc(es, e, v, acc[i]);
      if j < |acc| {
        assert r[j] == acc[j];
        FirstOfferSnoc(es, e, v, acc[j]);
      }
    }
  }

  /** The step that collects nothing keeps the order, since the record offers
      nothing new. */
  lemma SkipOfferKeepsOrder(es: seq<Edge>, e: Edge, v: int, acc: seq<int>)
    requires InFirstOfferOrder(es, v, acc)
    requires forall w :: Offers(e, v, w) ==> w in acc
    ensures InFirstOfferOrder(es + [e], v, acc)
  {
    var n := |es|;
    forall w ensures w in acc <==> FirstOffer(es + [e], v, w) < n + 1 {
      FirstOfferSnoc(es, e, v, w);
    }
    forall i, j | 0 <= i < j < |acc| ensures FirstOffer(es + [e], v, acc[i]) < FirstOffer(es + [e], v, acc[j]) {
      FirstOfferSnoc(es, e, v, acc[i]);
      FirstOfferSnoc(es, e, v, acc[j]);
    }
  }

  /** One step of the undirected successors(v) loop keeps the collected list
      in first-offer order. */
  lemma NeighbourStepKeepsOrder(es: seq<Edge>, e: Edge, v: int, acc: seq<int>)
    requires InFirstOfferOrder(es, v, acc)
    ensures InFirstOfferOrder(es + [e], v, NeighbourStep(acc, e, v))
  {
    // A record offers at most one neighbour: the endpoint across from v.
    var o := if e.dst == v then e.src else e.dst;
    assert forall w :: Offers(e, v, w) ==> w == o;
    if Offers(e, v, o) && o !in acc {
      assert NeighbourStep(acc, e, v) == acc + [o];
      AppendOfferKeepsOrder(es, e, v, acc, o);
    } else {
      assert NeighbourStep(acc, e, v) == acc;
      SkipOfferKeepsOrder(es, e, v, acc);
    }
  }

  /** Undirected successors(v) lists exactly the neighbours that some record
      offers, ordered by the position of the first record offering each. */
  lemma {:induction false} NeighboursInFirstOfferOrder(es: seq<Edge>, v: int)
    ensures InFirstOfferOrder(es, v, Neighbours(es, v))
  {
    if es != [] {
      var front := es[..|es| - 1];
      assert es == front + [es[|es| - 1]];
      NeighboursInFirstOfferOrder(front, v);
      NeighbourStepKeepsOrder(front, es[|es| - 1], v, Neighbours(front, v));
    }
  }

  /** edgeId: the 1-based position of the last record equal to e, 0 if none. */
  function LastIndex(es: seq<Edge>, e: Edge): (k: nat)
    ensures k <= |es|
    ensures k == 0 <==> e !in es
    ensures k > 0 ==> es[k - 1] == e && forall j :: k <= j < |es| ==> es[j] != e
  {
    if es == [] then 0
    else if es[|es| - 1] == e then |es|
    else
      assert es == es[..|es| - 1] + [es[|es| - 1]];
      LastIndex(es[..|es| - 1], e)
  }

  // ---------------------------------------------------------------------
  // The two in-place removals, slot by slot.

  /** What remove(u, v) leaves in one slot. */
  function ScrubOne(e: Edge, u: int, v: int, directed: bool): Edge {
    if e == Edge(u, v) || (!directed && e == Edge(v, u)) then Tombstone else e
  }

  /** remove(u, v): the list after every matching slot is overwritten. */
  function ScrubEdge(es: seq<Edge>, u: int, v: int, directed: bool): seq<Edge> {
    seq(|es|, i requires 0 <= i < |es| => ScrubOne(es[i], u, v, directed))
  }

  /** remove(v) on a vertex: the list after every slot naming v is overwritten. */
  function ScrubVertex(es: seq<Edge>, v: int): seq<Edge> {
    seq(|es|, i requires 0 <= i < |es| => if Mentions(es[i], v) then Tombstone else es[i])
  }

  // ---------------------------------------------------------------------
  // Shape invariants of the list.

  /** Undirected graphs append each edge as a record and its mirror, and
      remove both together: slots 2k and 2k+1 are always mirrors. */
  predicate MirrorPaired(es: seq<Edge>) {
    |es| % 2 == 0 &&
    forall i :: 0 <= i < |es| - 1 && i % 2 == 0 ==> es[i + 1] == Mirror(es[i])
  }

  /** add(u, v) refuses an existing record, so only tombstones repeat. */
  predicate NoDuplicateRecords(es: seq<Edge>) {
    forall i, j :: 0 <= i < j < |es| && es[i] == es[j] ==> es[i] == Tombstone
  }

  // ---------------------------------------------------------------------
  // Lemmas.

  lemma {:induction false} PairedLiveEven(es: seq<Edge>)
    requires MirrorPaired(es)
    ensures CountLive(es) % 2 == 0
  {
    if es != [] {
      var n := |es|;
      var front := es[..n - 2];
      assert es[..n - 1][..n - 2] == front;
      assert es[n - 1] == Mirror(es[n - 2]);
      assert MirrorPaired(front) by {
        forall i | 0 <= i < |front| - 1 && i % 2 == 0
          ensures front[i + 1] == Mirror(front[i])
        {
          assert es[i + 1] == Mirror(es[i]);
        }
      }
      PairedLiveEven(front);
    }
  }

  lemma {:induction false} PairedIncidentEven(es: seq<Edge>, v: int)
    requires MirrorPaired(es)
    ensures CountIncident(es, v) % 2 == 0
  {
    if es != [] {
      var n := |es|;
      var front := es[..n - 2];
      assert es[..n - 1][..n - 2] == front;
      assert es[n - 1] == Mirror(es[n - 2]);
      assert MirrorPaired(front) by {
        forall i | 0 <= i < |front| - 1 && i % 2 == 0
          ensures front[i + 1] == Mirror(front[i])
        {
          assert es[i + 1] == Mirror(es[i]);
        }
      }
      PairedIncidentEven(front, v);
    }
  }

  /** In a paired list a record is present exactly when its mirror is:
      contains(u, v) == contains(v, u) in an undirected graph. */
  lemma PairedSymmetric(es: seq<Edge>, e: Edge)
    requires MirrorPaired(es)
    ensures e in es <==> Mirror(e) in es
  {
    forall x | x in es ensures Mirror(x) in es {
      var i :| 0 <= i < |es| && es[i] == x;
      if i % 2 == 0 {
        assert es[i + 1] == Mirror(x);
      } else {
        assert es[i] == Mirror(es[i - 1]);
        assert Mirror(x) == es[i - 1];
      }
    }
    assert Mirror(Mirror(e)) == e;
  }

  lemma AppendPairPaired(es: seq<Edge>, e: Edge)
    requires MirrorPaired(es)
    ensures MirrorPaired(es + [e, Mirror(e)])
  {
    var r := es + [e, Mirror(e)];
    forall i | 0 <= i < |r| - 1 && i % 2 == 0 ensures r[i + 1] == Mirror(r[i]) {
      if i < |es| {
        assert r[i] == es[i] && r[i + 1] == es[i + 1];
      }
    }
  }

  lemma ScrubEdgePaired(es: seq<Edge>, u: int, v: int)
    requires MirrorPaired(es)
    ensures MirrorPaired(ScrubEdge(es, u, v, false))
  {
    var r := ScrubEdge(es, u, v, false);
    forall i | 0 <= i < |r| - 1 && i % 2 == 0 ensures r[i + 1] == Mirror(r[i]) {
      assert es[i + 1] == Mirror(es[i]);
    }
  }

  lemma ScrubVertexPaired(es: seq<Edge>, v: int)
    requires MirrorPaired(es)
    ensures MirrorPaired(ScrubVertex(es, v))
  {
    var r := ScrubVertex(es, v);
    forall i | 0 <= i < |r| - 1 && i % 2 == 0 ensures r[i + 1] == Mirror(r[i]) {
      assert es[i + 1] == Mirror(es[i]);
    }
  }

  lemma AppendNoDuplicates(es: seq<Edge>, e: Edge)
    requires NoDuplicateRecords(es) && e !in es
    ensures NoDuplicateRecords(es + [e])
  {
  }

  lemma ScrubEdgeNoDuplicates(es: seq<Edge>, u: int, v: int, directed: bool)
    requires NoDuplicateRecords(es)
    ensures NoDuplicateRecords(ScrubEdge(es, u, v, directed))
  {
  }

  lemma ScrubVertexNoDuplicates(es: seq<Edge>, v: int)
    requires NoDuplicateRecords(es)
    ensures NoDuplicateRecords(ScrubVertex(es, v))
  {
  }

  /** Adding an undirected edge (a record and its mirror) raises the incident
      count of each endpoint by two, for a self-loop too; halved, every added
      incident edge raises outDegree by exactly one. */
  lemma IncidentAfterAddedPair(es: seq<Edge>, u: int, w: int, v: int)
    ensures CountIncident(es + [Edge(u, w), Edge(w, u)], v)
            == CountIncident(es, v) + (if u == v || w == v then 2 else 0)
  {
    var r := es + [Edge(u, w), Edge(w, u)];
    assert r[..|r| - 1] == es + [Edge(u, w)];
    assert (es + [Edge(u, w)])[..|es|] == es;
  }

  /** remove(u, v) leaves the position of every other edge where it was:
      edgeId of any record other than the removed one(s) is unchanged. */
  lemma {:induction false} LastIndexUnderScrub(es: seq<Edge>, u: int, v: int, directed: bool, e: Edge)
    requires e != Tombstone && e != Edge(u, v) && (directed || e != Edge(v, u))
    ensures LastIndex(ScrubEdge(es, u, v, directed), e) == LastIndex(es, e)
  {
    if es != [] {
      var n := |es|;
      var r := ScrubEdge(es, u, v, directed);
      assert r[..n - 1] == ScrubEdge(es[..n - 1], u, v, directed);
      assert r[n - 1] == e <==> es[n - 1] == e;
      LastIndexUnderScrub(es[..n - 1], u, v, directed, e);
    }
  }

  /** Without duplicates, a non-tombstone record occurs at most once. */
  lemma {:induction false} OccursOnce(es: seq<Edge>, e: Edge)
    requires NoDuplicateRecords(es) && e != Tombstone
    ensures Occurrences(es, e) == if e in es then 1 else 0
  {
    if es != [] {
      var n := |es|;
      var front := es[..n - 1];
      assert es == front + [es[n - 1]];
      OccursOnce(front, e);
      if es[n - 1] == e {
        assert e !in front by {
          forall i | 0 <= i < |front| ensures front[i] != e {
            assert es[i] == front[i];
          }
        }
      }
    }
  }
}
