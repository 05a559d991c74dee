/**
 * Constraint topology derived from a triangle index buffer
 * (findTriNeighbors and the constructor loop of src/physics/ClothPhysics.ts).
 *
 * Triangle t of `tri` is tri[3t], tri[3t+1], tri[3t+2].  Half-edge h = 3t+j
 * runs from tri[h] to tri[Next(h)], and Third(h) is the corner of the same
 * triangle that is not on it.  The neighbour table maps each half-edge to
 * the half-edge of the adjacent triangle on the same edge, or to -1.
 */
module Topology {

  /** A half-edge as the neighbour search records it: its vertex pair in
      canonical (min, max) order and its own index. */
  datatype HalfEdge = HalfEdge(id0: nat, id1: nat, edgeNr: nat)

  function Min(a: nat, b: nat): nat { if a < b then a else b }
  function Max(a: nat, b: nat): nat { if a < b then b else a }

  /** The end vertex slot of half-edge h: the next corner of its triangle. */
  function Next(h: nat): nat
  {
    if h % 3 == 2 then h - 2 else h + 1
  }

  /** The corner of h's triangle that is on neither end of h. */
  function Third(h: nat): nat
  {
    if h % 3 == 0 then h + 2 else h - 1
  }

  predicate Triangles(tri: seq<nat>) { |tri| % 3 == 0 }

  /** The record the search builds for half-edge h. */
  function HalfEdgeAt(tri: seq<nat>, h: nat): (e: HalfEdge)
    requires Triangles(tri) && h < |tri|
    ensures e.edgeNr == h && e.id0 <= e.id1
  {
    InTriangle(tri, h);
    HalfEdge(Min(tri[h], tri[Next(h)]), Max(tri[h], tri[Next(h)]), h)
  }

  /** The corners Next and Third of a half-edge lie in the same triangle. */
  lemma InTriangle(tri: seq<nat>, h: nat)
    requires Triangles(tri) && h < |tri|
    ensures Next(h) < |tri| && Third(h) < |tri|
  {
  }

  /** The record of h names the two ends of h, smaller first. */
  lemma HalfEdgeEnds(tri: seq<nat>, h: nat)
    requires Triangles(tri) && h < |tri|
    ensures Next(h) < |tri|
    ensures {HalfEdgeAt(tri, h).id0, HalfEdgeAt(tri, h).id1} == {tri[h], tri[Next(h)]}
  {
    InTriangle(tri, h);
  }

  /** All half-edges, in the order the search pushes them. */
  function HalfEdges(tri: seq<nat>): (s: seq<HalfEdge>)
    requires Triangles(tri)
    ensures |s| == |tri|
  {
    seq(|tri|, h requires 0 <= h < |tri| => HalfEdgeAt(tri, h))
  }

  /** Two records describe the same undirected edge. */
  predicate SameKey(e: HalfEdge, f: HalfEdge) { e.id0 == f.id0 && e.id1 == f.id1 }

  /** The sort comparator's "strictly before": lexicographic on (id0, id1). */
  predicate Before(e: HalfEdge, f: HalfEdge)
  {
    e.id0 < f.id0 || (e.id0 == f.id0 && e.id1 < f.id1)
  }

  /** "Not after": the order a sorted list satisfies between any two positions. */
  predicate KeyLe(e: HalfEdge, f: HalfEdge) { !Before(f, e) }

  predicate SortedByKey(s: seq<HalfEdge>)
  {
    forall i, j :: 0 <= i < j < |s| ==> KeyLe(s[i], s[j])
  }

  /** Exchanges two entries of the edge list. */
  method Swap(a: array<HalfEdge>, i: nat, j: nat)
    requires i < a.Length && j < a.Length
    modifies a
    ensures a[i] == old(a[j]) && a[j] == old(a[i])
    ensures forall k :: 0 <= k < a.Length && k != i && k != j ==> a[k] == old(a[k])
    ensures multiset(a[..]) == multiset(old(a[..]))
  {
    a[i], a[j] := a[j], a[i];
  }

  /** Sorts the edge list in place by (id0, id1), as the comparator at
      ClothPhysics.ts:25 orders it; an insertion sort stands in for the
      library sort, whose order among equal keys is unspecified anyway. */
  method SortEdges(a: array<HalfEdge>)
    modifies a
    ensures SortedByKey(a[..])
    ensures multiset(a[..]) == multiset(old(a[..]))
  {
    var i := 0;
    while i < a.Length
      invariant 0 <= i <= a.Length
      invariant forall k, l :: 0 <= k < l < i ==> KeyLe(a[k], a[l])
      invariant multiset(a[..]) == multiset(old(a[..]))
    {
      var j := i;
      while 0 < j && Before(a[j], a[j - 1])
        invariant 0 <= j <= i
        invariant forall k, l :: 0 <= k < l < j ==> KeyLe(a[k], a[l])
        invariant forall k, l :: j <= k < l <= i ==> KeyLe(a[k], a[l])
        invariant forall k, l :: 0 <= k < j < l <= i ==> KeyLe(a[k], a[l])
        invariant multiset(a[..]) == multiset(old(a[..]))
      {
        Swap(a, j - 1, j);
        j := j - 1;
      }
      i := i + 1;
    }
  }

  /** Lines 12-25 of findTriNeighbors: push every half-edge, then sort. */
  method SortedHalfEdges(triIds: seq<nat>) returns (edges: array<HalfEdge>)
    requires Triangles(triIds)
    ensures fresh(edges)
    ensures SortedByKey(edges[..])
    ensures multiset(edges[..]) == multiset(HalfEdges(triIds))
  {
    var list: seq<HalfEdge> := [];
    var numTris := |triIds| / 3;
    for i := 0 to numTris
      invariant |list| == 3 * i
      invariant forall h :: 0 <= h < |list| ==> list[h] == HalfEdgeAt(triIds, h)
    {
      for j := 0 to 3
        invariant |list| == 3 * i + j
        invariant forall h :: 0 <= h < |list| ==> list[h] == HalfEdgeAt(triIds, h)
      {
        var id0 := triIds[3 * i + j];
        var id1 := triIds[3 * i + (j + 1) % 3];
        list := list + [HalfEdge(Min(id0, id1), Max(id0, id1), 3 * i + j)];
      }
    }
    assert list == HalfEdges(triIds);
    edges := new HalfEdge[|list|](k requires 0 <= k < |list| => list[k]);
    assert edges[..] == list;
    SortEdges(edges);
  }

  /** A neighbour table of the right size whose links are irreflexive,
      symmetric and join half-edges on the same undirected edge; at most one
      partner per half-edge follows from symmetry. */
  ghost predicate WellLinked(tri: seq<nat>, nb: seq<int>)
  {
    && Triangles(tri)
    && |nb| == |tri|
    && forall h :: 0 <= h < |nb| ==> LinkOk(tri, nb, h)
  }

  /** Half-edge h is unlinked, or linked to a different half-edge on the
      same edge that is linked back to it. */
  ghost predicate LinkOk(tri: seq<nat>, nb: seq<int>, h: nat)
    requires Triangles(tri) && |nb| == |tri| && h < |nb|
  {
    nb[h] == -1 ||
    (0 <= nb[h] < |nb| && nb[h] != h && nb[nb[h]] == h
     && SameKey(HalfEdgeAt(tri, h), HalfEdgeAt(tri, nb[h])))
  }

  /** In a well-linked table no two half-edges share a partner. */
  lemma PartnerUnique(tri: seq<nat>, nb: seq<int>, h: nat, g: nat)
    requires WellLinked(tri, nb) && h < |nb| && g < |nb|
    requires nb[h] >= 0 && nb[h] == nb[g]
    ensures h == g
  {
    assert LinkOk(tri, nb, h) && LinkOk(tri, nb, g);
  }

  /** A well-linked table is in range for the constructor loop. */
  lemma WellLinkedInRange(tri: seq<nat>, nb: seq<int>)
    requires WellLinked(tri, nb)
    ensures NeighborsInRange(tri, nb)
  {
    forall h | 0 <= h < |nb| ensures -1 <= nb[h] < |tri| {
      assert LinkOk(tri, nb, h);
    }
  }

  /** What a permutation of the half-edge list looks like position by position. */
  lemma PermutedHalfEdges(tri: seq<nat>, E: seq<HalfEdge>)
    requires Triangles(tri) && multiset(E) == multiset(HalfEdges(tri))
    ensures |E| == |tri|
    ensures forall p :: 0 <= p < |E| ==> E[p].edgeNr < |tri| && E[p] == HalfEdgeAt(tri, E[p].edgeNr)
    ensures DistinctEdgeNrs(E)
    ensures forall h :: 0 <= h < |tri| ==> HalfEdgeAt(tri, h) in E
  {
    var all := HalfEdges(tri);
    assert |E| == |multiset(E)| == |multiset(all)| == |all|;
    forall p | 0 <= p < |E|
      ensures E[p].edgeNr < |tri| && E[p] == HalfEdgeAt(tri, E[p].edgeNr)
    {
      assert E[p] in multiset(all);
      var h :| 0 <= h < |all| && all[h] == E[p];
    }
    forall p, q | 0 <= p < q < |E| ensures E[p].edgeNr != E[q].edgeNr {
      if E[p].edgeNr == E[q].edgeNr {
        MultiplicityOfRepeat(E, p, q);
        AtMostOnce(all, E[p]);
        assert false;
      }
    }
    forall h | 0 <= h < |tri| ensures HalfEdgeAt(tri, h) in E {
      assert all[h] in multiset(E);
    }
  }

  /** A value found at two positions occurs at least twice. */
  lemma MultiplicityOfRepeat(s: seq<HalfEdge>, p: nat, q: nat)
    requires p < q < |s| && s[p] == s[q]
    ensures multiset(s)[s[p]] >= 2
  {
    assert s == s[..q] + s[q..];
    assert s[p] in s[..q];
    assert s[q] == s[q..][0];
  }

  /** In the list of all half-edges every record occurs at most once. */
  lemma AtMostOnce(all: seq<HalfEdge>, x: HalfEdge)
    requires forall h :: 0 <= h < |all| ==> all[h].edgeNr == h
    ensures multiset(all)[x] <= 1
  {
    var k := 0;
    while k < |all|
      invariant 0 <= k <= |all|
      invariant multiset(all[..k])[x] <= 1
      invariant multiset(all[..k])[x] == 1 ==> x.edgeNr < k
    {
      assert all[..k + 1] == all[..k] + [all[k]];
      k := k + 1;
    }
    assert all[..k] == all;
  }

  /** The partner findTriNeighbors gives the entry at sorted position p:
      positions are read in fixed pairs (0, 1), (2, 3), ..., and a pair is
      linked when both entries have the same key. */
  function PairedPartner(E: seq<HalfEdge>, p: nat): int
    requires p < |E|
  {
    var q := if p % 2 == 0 then p + 1 else p - 1;
    if q < |E| && SameKey(E[p], E[q]) then E[q].edgeNr else -1
  }

  /** No two entries of E name the same half-edge. */
  predicate DistinctEdgeNrs(E: seq<HalfEdge>)
  {
    forall p, q :: 0 <= p < q < |E| ==> E[p].edgeNr != E[q].edgeNr
  }

  /** The entries at sorted positions below n carry their paired partner. */
  predicate PairedBelow(E: seq<HalfEdge>, nb: seq<int>, n: nat)
  {
    forall p :: 0 <= p < n && p < |E| ==> E[p].edgeNr < |nb| && nb[E[p].edgeNr] == PairedPartner(E, p)
  }

  /** The entries at sorted positions n and above are still unlinked. */
  predicate UnlinkedFrom(E: seq<HalfEdge>, nb: seq<int>, n: nat)
  {
    forall p :: n <= p < |E| ==> E[p].edgeNr < |nb| && nb[E[p].edgeNr] == -1
  }

  /** The table after linking half-edges a and b to each other. */
  function LinkPair(nb: seq<int>, a: nat, b: nat): (r: seq<int>)
    requires a < |nb| && b < |nb|
    ensures |r| == |nb| && r[a] == b && r[b] == a
    ensures forall k :: 0 <= k < |nb| && k != a && k != b ==> r[k] == nb[k]
  {
    nb[a := b][b := a]
  }

  /** Linking two unlinked half-edges on the same edge keeps the table well linked. */
  lemma LinkKeepsWellLinked(tri: seq<nat>, nb: seq<int>, a: nat, b: nat)
    requires WellLinked(tri, nb) && a < |nb| && b < |nb| && a != b
    requires nb[a] == -1 && nb[b] == -1
    requires SameKey(HalfEdgeAt(tri, a), HalfEdgeAt(tri, b))
    ensures WellLinked(tri, LinkPair(nb, a, b))
  {
    var r := LinkPair(nb, a, b);
    forall h | 0 <= h < |r| ensures LinkOk(tri, r, h) {
      if h != a && h != b {
        assert LinkOk(tri, nb, h);
        if nb[h] != -1 {
          assert LinkOk(tri, nb, nb[h]);
        }
      }
    }
  }

  /** A step of the as-written sweep that reads the pair (n, n+1) and links it. */
  lemma PairLinkStep(E: seq<HalfEdge>, nb: seq<int>, n: nat)
    requires DistinctEdgeNrs(E) && n % 2 == 0 && n + 1 < |E| && SameKey(E[n], E[n + 1])
    requires PairedBelow(E, nb, n) && UnlinkedFrom(E, nb, n)
    ensures E[n].edgeNr < |nb| && E[n + 1].edgeNr < |nb|
    ensures PairedBelow(E, LinkPair(nb, E[n].edgeNr, E[n + 1].edgeNr), n + 2)
    ensures UnlinkedFrom(E, LinkPair(nb, E[n].edgeNr, E[n + 1].edgeNr), n + 2)
  {
    var a, b := E[n].edgeNr, E[n + 1].edgeNr;
    assert a < |nb| && b < |nb|;
    var r := LinkPair(nb, a, b);
    forall p | 0 <= p < n + 2 && p < |E| ensures E[p].edgeNr < |r| && r[E[p].edgeNr] == PairedPartner(E, p) {
      if p < n {
        assert E[p].edgeNr != a && E[p].edgeNr != b;
        assert r[E[p].edgeNr] == nb[E[p].edgeNr];
      } else if p == n {
        assert PairedPartner(E, n) == b;
      } else {
        assert PairedPartner(E, n + 1) == a;
      }
    }
    forall p | n + 2 <= p < |E| ensures E[p].edgeNr < |r| && r[E[p].edgeNr] == -1 {
      assert E[p].edgeNr != a && E[p].edgeNr != b;
      assert r[E[p].edgeNr] == nb[E[p].edgeNr];
    }
  }

  /** A step of the as-written sweep that reads the pair (n, n+1) and finds
      different keys: both stay unlinked. */
  lemma PairSkipStep(E: seq<HalfEdge>, nb: seq<int>, n: nat)
    requires n % 2 == 0 && n + 1 < |E| && !SameKey(E[n], E[n + 1])
    requires PairedBelow(E, nb, n) && UnlinkedFrom(E, nb, n)
    ensures PairedBelow(E, nb, n + 2) && UnlinkedFrom(E, nb, n + 2)
  {
    forall p | 0 <= p < n + 2 && p < |E|
      ensures E[p].edgeNr < |nb| && nb[E[p].edgeNr] == PairedPartner(E, p)
    {
      if p == n {
        assert PairedPartner(E, n) == -1;
      } else if p == n + 1 {
        assert PairedPartner(E, n + 1) == -1;
      }
    }
  }


  /** The last step of the as-written sweep when the list has odd length:
      the final entry has no pair and stays unlinked. */
  lemma PairLastStep(E: seq<HalfEdge>, nb: seq<int>, n: nat)
    requires n + 1 == |E| && n % 2 == 0
    requires PairedBelow(E, nb, n) && UnlinkedFrom(E, nb, n)
    ensures PairedBelow(E, nb, n + 1)
  {
    assert PairedPartner(E, n) == -1;
  }

  /** The sorted list E orders the half-edges of tri. */
  ghost predicate SortedHalfEdgeList(tri: seq<nat>, E: seq<HalfEdge>)
  {
    Triangles(tri) && SortedByKey(E) && multiset(E) == multiset(HalfEdges(tri))
  }

  /** Adjacent sorted entries with the same key are two different
      half-edges of tri on one undirected edge. */
  lemma SortedNeighboursOnOneEdge(tri: seq<nat>, E: seq<HalfEdge>, n: nat)
    requires SortedHalfEdgeList(tri, E) && n + 1 < |E| && SameKey(E[n], E[n + 1])
    ensures DistinctEdgeNrs(E) && |E| == |tri|
    ensures E[n].edgeNr < |tri| && E[n + 1].edgeNr < |tri| && E[n].edgeNr != E[n + 1].edgeNr
    ensures SameKey(HalfEdgeAt(tri, E[n].edgeNr), HalfEdgeAt(tri, E[n + 1].edgeNr))
  {
    PermutedHalfEdges(tri, E);
  }

  /** Before sweeping, no entry of the all -1 table is linked. */
  lemma SweepStart(tri: seq<nat>, E: seq<HalfEdge>, nb: seq<int>)
    requires SortedHalfEdgeList(tri, E)
    requires |nb| == |tri| && forall k :: 0 <= k < |nb| ==> nb[k] == -1
    ensures |E| == |nb| && WellLinked(tri, nb)
    ensures PairedBelow(E, nb, 0) && RunStartsLinkedBelow(E, nb, 0) && UnlinkedFrom(E, nb, 0)
  {
    PermutedHalfEdges(tri, E);
    forall h | 0 <= h < |nb| ensures LinkOk(tri, nb, h) {
    }
  }

  /** What the as-written sweep knows before reading position n. */
  ghost predicate PairSweepState(tri: seq<nat>, E: seq<HalfEdge>, nb: seq<int>, n: nat)
  {
    && |E| == |nb| == |tri| && n <= |E|
    && (n % 2 == 0 || n == |E|)
    && PairedBelow(E, nb, n) && UnlinkedFrom(E, nb, n)
    && WellLinked(tri, nb)
  }

  /** The table and next position after the as-written sweep reads
      position n: positions n and n+1 are linked when their keys agree, and
      the sweep moves past both. */
  function PairSweepNext(E: seq<HalfEdge>, nb: seq<int>, n: nat): (seq<int>, nat)
    requires n < |E| && UnlinkedFrom(E, nb, n)
  {
    if n + 1 < |E| then
      (if SameKey(E[n], E[n + 1]) then LinkPair(nb, E[n].edgeNr, E[n + 1].edgeNr) else nb, n + 2)
    else (nb, n + 1)
  }

  /** One read of the as-written sweep keeps its state. */
  lemma PairSweepStep(tri: seq<nat>, E: seq<HalfEdge>, nb: seq<int>, n: nat)
    requires SortedHalfEdgeList(tri, E) && PairSweepState(tri, E, nb, n) && n < |E|
    ensures PairSweepState(tri, E, PairSweepNext(E, nb, n).0, PairSweepNext(E, nb, n).1)
  {
    if n + 1 == |E| {
      PairLastStep(E, nb, n);
      assert PairSweepNext(E, nb, n) == (nb, n + 1);
    } else if SameKey(E[n], E[n + 1]) {
      SortedNeighboursOnOneEdge(tri, E, n);
      PairLinkStep(E, nb, n);
      LinkKeepsWellLinked(tri, nb, E[n].edgeNr, E[n + 1].edgeNr);
      var r := LinkPair(nb, E[n].edgeNr, E[n + 1].edgeNr);
      assert PairSweepNext(E, nb, n) == (r, n + 2);
      assert PairSweepState(tri, E, r, n + 2);
    } else {
      PairSkipStep(E, nb, n);
      assert PairSweepNext(E, nb, n) == (nb, n + 2);
      assert PairSweepState(tri, E, nb, n + 2);
    }
  }

  /** findTriNeighbors as written.  The sweep consumes the sorted list two
      entries at a time, so only positions 2k and 2k+1 are ever linked. */
  method FindTriNeighbors(triIds: seq<nat>) returns (neighbors: seq<int>, ghost sorted: seq<HalfEdge>)
    requires Triangles(triIds)
    ensures SortedByKey(sorted) && multiset(sorted) == multiset(HalfEdges(triIds))
    ensures |sorted| == |neighbors| == |triIds|
    ensures PairedBelow(sorted, neighbors, |sorted|)
    ensures WellLinked(triIds, neighbors)
  {
    var edges := SortedHalfEdges(triIds);
    sorted := edges[..];
    var numTris := |triIds| / 3;
    var nb := new int[3 * numTris](_ => -1);
    SweepStart(triIds, sorted, nb[..]);
    var nr := 0;
    while nr < edges.Length
      invariant 0 <= nr <= edges.Length && edges[..] == sorted
      invariant PairSweepState(triIds, sorted, nb[..], nr)
      decreases edges.Length - nr
    {
      PairSweepStep(triIds, sorted, nb[..], nr);
      nr := PairSweepRead(edges, nb, nr);
    }
    neighbors := nb[..];
  }

  /** One pass of the as-written sweep's loop body, reading position nr:
      returns the next position to read. */
  method PairSweepRead(edges: array<HalfEdge>, nb: array<int>, nr0: nat) returns (nr: nat)
    requires nr0 < edges.Length && UnlinkedFrom(edges[..], nb[..], nr0)
    modifies nb
    ensures (nb[..], nr) == PairSweepNext(edges[..], old(nb[..]), nr0)
  {
    nr := nr0;
    var e0 := edges[nr];
    nr := nr + 1;
    if nr < edges.Length {
      var e1 := edges[nr];
      if e0.id0 == e1.id0 && e0.id1 == e1.id1 {
        ghost var before := nb[..];
        nb[e0.edgeNr] := e1.edgeNr;
        nb[e1.edgeNr] := e0.edgeNr;
        assert nb[..] == LinkPair(before, e0.edgeNr, e1.edgeNr);
      }
      nr := nr + 1;
    }
  }

  /** Position p starts a run of equal keys in the sorted list. */
  predicate RunStart(E: seq<HalfEdge>, p: nat)
    requires p < |E|
  {
    p == 0 || !SameKey(E[p - 1], E[p])
  }

  /** Below sorted position n, the first two entries of every run of equal
      keys are linked to each other. */
  predicate RunStartsLinkedBelow(E: seq<HalfEdge>, nb: seq<int>, n: nat)
  {
    forall p :: 0 <= p < n && p + 1 < |E| && RunStart(E, p) && SameKey(E[p], E[p + 1])
      ==> E[p].edgeNr < |nb| && nb[E[p].edgeNr] == E[p + 1].edgeNr
  }

  /** One step of the corrected sweep that links positions n and n+1. */
  lemma {:induction false} RunLinkStep(E: seq<HalfEdge>, nb: seq<int>, n: nat)
    requires DistinctEdgeNrs(E) && n + 1 < |E| && SameKey(E[n], E[n + 1])
    requires RunStartsLinkedBelow(E, nb, n) && UnlinkedFrom(E, nb, n)
    ensures E[n].edgeNr < |nb| && E[n + 1].edgeNr < |nb|
    ensures RunStartsLinkedBelow(E, LinkPair(nb, E[n].edgeNr, E[n + 1].edgeNr), n + 2)
    ensures UnlinkedFrom(E, LinkPair(nb, E[n].edgeNr, E[n + 1].edgeNr), n + 2)
  {
    assert UnlinkedFrom(E, nb, n + 2);
    var r := LinkPair(nb, E[n].edgeNr, E[n + 1].edgeNr);
    forall p | 0 <= p < n + 2 && p + 1 < |E| && RunStart(E, p) && SameKey(E[p], E[p + 1])
      ensures E[p].edgeNr < |r| && r[E[p].edgeNr] == E[p + 1].edgeNr
    {
      if p < n {
        assert E[p].edgeNr != E[n].edgeNr && E[p].edgeNr != E[n + 1].edgeNr;
      }
    }
    forall p | n + 2 <= p < |E| ensures E[p].edgeNr < |r| && r[E[p].edgeNr] == -1 {
      assert E[p].edgeNr != E[n].edgeNr && E[p].edgeNr != E[n + 1].edgeNr;
    }
  }

  /** A step of the corrected sweep that links nothing: position n does not
      share its key with the next one, or is the last. */
  lemma RunSkipStep(E: seq<HalfEdge>, nb: seq<int>, n: nat)
    requires n < |E| && (n + 1 == |E| || !SameKey(E[n], E[n + 1]))
    requires RunStartsLinkedBelow(E, nb, n) && UnlinkedFrom(E, nb, n)
    ensures RunStartsLinkedBelow(E, nb, n + 1) && UnlinkedFrom(E, nb, n + 1)
  {
  }

  /** h and g are the only two half-edges on their undirected edge. */
  ghost predicate SharedByExactlyTwo(tri: seq<nat>, h: nat, g: nat)
  {
    && Triangles(tri) && h < |tri| && g < |tri| && h != g
    && SameKey(HalfEdgeAt(tri, h), HalfEdgeAt(tri, g))
    && forall f :: 0 <= f < |tri| && SameKey(HalfEdgeAt(tri, f), HalfEdgeAt(tri, h)) ==> f == h || f == g
  }

  /** What the corrected sweep knows before reading position n. */
  ghost predicate RunSweepState(tri: seq<nat>, E: seq<HalfEdge>, nb: seq<int>, n: nat)
  {
    && |E| == |nb| == |tri| && n <= |E|
    && RunStartsLinkedBelow(E, nb, n) && UnlinkedFrom(E, nb, n)
    && WellLinked(tri, nb)
  }

  /** The table and next position after the corrected sweep reads
      position n: when n and n+1 share a key they are linked and the sweep
      moves past both, otherwise it moves past n only. */
  function RunSweepNext(E: seq<HalfEdge>, nb: seq<int>, n: nat): (seq<int>, nat)
    requires n < |E| && UnlinkedFrom(E, nb, n)
  {
    if n + 1 < |E| && SameKey(E[n], E[n + 1]) then (LinkPair(nb, E[n].edgeNr, E[n + 1].edgeNr), n + 2)
    else (nb, n + 1)
  }

  /** One read of the corrected sweep keeps its state. */
  lemma RunSweepStep(tri: seq<nat>, E: seq<HalfEdge>, nb: seq<int>, n: nat)
    requires SortedHalfEdgeList(tri, E) && RunSweepState(tri, E, nb, n) && n < |E|
    ensures RunSweepState(tri, E, RunSweepNext(E, nb, n).0, RunSweepNext(E, nb, n).1)
  {
    if n + 1 < |E| && SameKey(E[n], E[n + 1]) {
      SortedNeighboursOnOneEdge(tri, E, n);
      RunLinkStep(E, nb, n);
      LinkKeepsWellLinked(tri, nb, E[n].edgeNr, E[n + 1].edgeNr);
    } else {
      RunSkipStep(E, nb, n);
    }
  }

  /** findTriNeighbors with the sweep corrected: the second entry is consumed
      only when it was linked to the first, so every run of equal keys is
      met at its start and its first two entries are linked. */
  method FindTriNeighborsCorrected(triIds: seq<nat>) returns (neighbors: seq<int>, ghost sorted: seq<HalfEdge>)
    requires Triangles(triIds)
    ensures SortedByKey(sorted) && multiset(sorted) == multiset(HalfEdges(triIds))
    ensures |sorted| == |neighbors| == |triIds|
    ensures RunStartsLinkedBelow(sorted, neighbors, |sorted|)
    ensures WellLinked(triIds, neighbors)
    ensures forall h: nat, g: nat :: SharedByExactlyTwo(triIds, h, g) ==> neighbors[h] == g
  {
    var edges := SortedHalfEdges(triIds);
    sorted := edges[..];
    var numTris := |triIds| / 3;
    var nb := new int[3 * numTris](_ => -1);
    SweepStart(triIds, sorted, nb[..]);
    var nr := 0;
    while nr < edges.Length
      invariant 0 <= nr <= edges.Length && edges[..] == sorted
      invariant RunSweepState(triIds, sorted, nb[..], nr)
      decreases edges.Length - nr
    {
      RunSweepStep(triIds, sorted, nb[..], nr);
      nr := RunSweepRead(edges, nb, nr);
    }
    neighbors := nb[..];
    ExactlySharedEdgesLinked(triIds, sorted, neighbors);
  }

  /** One pass of the corrected sweep's loop body, reading position nr:
      returns the next position to read. */
  method RunSweepRead(edges: array<HalfEdge>, nb: array<int>, nr0: nat) returns (nr: nat)
    requires nr0 < edges.Length && UnlinkedFrom(edges[..], nb[..], nr0)
    modifies nb
    ensures (nb[..], nr) == RunSweepNext(edges[..], old(nb[..]), nr0)
  {
    nr := nr0;
    var e0 := edges[nr];
    nr := nr + 1;
    if nr < edges.Length {
      var e1 := edges[nr];
      if e0.id0 == e1.id0 && e0.id1 == e1.id1 {
        ghost var before := nb[..];
        nb[e0.edgeNr] := e1.edgeNr;
        nb[e1.edgeNr] := e0.edgeNr;
        assert nb[..] == LinkPair(before, e0.edgeNr, e1.edgeNr);
        nr := nr + 1;
      }
    }
  }

  /** If the first two entries of every run are linked, an edge shared by
      exactly two half-edges links them to each other. */
  lemma ExactlySharedEdgesLinked(tri: seq<nat>, E: seq<HalfEdge>, nb: seq<int>)
    requires Triangles(tri) && SortedByKey(E) && multiset(E) == multiset(HalfEdges(tri))
    requires WellLinked(tri, nb)
    requires RunStartsLinkedBelow(E, nb, |E|)
    ensures forall h: nat, g: nat :: SharedByExactlyTwo(tri, h, g) ==> nb[h] == g
  {
    forall h: nat, g: nat | SharedByExactlyTwo(tri, h, g) ensures nb[h] == g {
      SharedPairLinked(tri, E, nb, h, g);
    }
  }

  /** One edge shared by exactly two half-edges h and g: the run of its key
      has length two, so the sweep links h and g. */
  lemma SharedPairLinked(tri: seq<nat>, E: seq<HalfEdge>, nb: seq<int>, h: nat, g: nat)
    requires Triangles(tri) && SortedByKey(E) && multiset(E) == multiset(HalfEdges(tri))
    requires WellLinked(tri, nb)
    requires RunStartsLinkedBelow(E, nb, |E|)
    requires SharedByExactlyTwo(tri, h, g)
    ensures nb[h] == g
  {
    var ph := SortedPosition(tri, E, h);
    var pg := SortedPosition(tri, E, g);
    if ph < pg {
      AdjacentInRun(tri, E, h, g, ph, pg);
    } else {
      AdjacentInRun(tri, E, g, h, pg, ph);
      assert LinkOk(tri, nb, g);
    }
  }

  /** Every half-edge has a position in a permutation of the half-edge list. */
  lemma SortedPosition(tri: seq<nat>, E: seq<HalfEdge>, h: nat) returns (p: nat)
    requires Triangles(tri) && multiset(E) == multiset(HalfEdges(tri)) && h < |tri|
    ensures p < |E| == |tri| && E[p].edgeNr == h
  {
    PermutedHalfEdges(tri, E);
    assert HalfEdgeAt(tri, h) in E;
    p :| 0 <= p < |E| && E[p] == HalfEdgeAt(tri, h);
  }

  /** The two sorted positions of an edge shared by exactly two half-edges
      are adjacent, and the first starts its run. */
  lemma AdjacentInRun(tri: seq<nat>, E: seq<HalfEdge>, h: nat, g: nat, ph: nat, pg: nat)
    requires Triangles(tri) && SortedByKey(E) && multiset(E) == multiset(HalfEdges(tri))
    requires SharedByExactlyTwo(tri, h, g) || SharedByExactlyTwo(tri, g, h)
    requires ph < pg < |E| && E[ph].edgeNr == h && E[pg].edgeNr == g
    ensures pg == ph + 1 && RunStart(E, ph) && SameKey(E[ph], E[pg])
  {
    PermutedHalfEdges(tri, E);
    assert E[ph] == HalfEdgeAt(tri, h) && E[pg] == HalfEdgeAt(tri, g);
    // the entry after ph lies between two equal keys, so it shares them
    assert KeyLe(E[ph], E[ph + 1]) && KeyLe(E[ph + 1], E[pg]);
    var f := E[ph + 1].edgeNr;
    assert E[ph + 1] == HalfEdgeAt(tri, f);
    assert SameKey(HalfEdgeAt(tri, f), HalfEdgeAt(tri, h)) && SameKey(HalfEdgeAt(tri, f), HalfEdgeAt(tri, g));
    assert f != h;
    assert f == g;
    if ph > 0 {
      var f0 := E[ph - 1].edgeNr;
      assert f0 != h && f0 != g;
      assert E[ph - 1] == HalfEdgeAt(tri, f0);
      assert SameKey(HalfEdgeAt(tri, f0), HalfEdgeAt(tri, g)) == SameKey(HalfEdgeAt(tri, f0), HalfEdgeAt(tri, h));
      assert !SameKey(HalfEdgeAt(tri, f0), HalfEdgeAt(tri, h));
    }
  }

  /** The two-triangle quad of the worked example: vertices 0-1-2-3 split
      along the diagonal 0-2. */
  const QuadTris: seq<nat> := [0, 1, 2, 0, 2, 3]

  /** The half-edges of QuadTris, by index. */
  lemma QuadHalfEdges()
    ensures HalfEdgeAt(QuadTris, 0) == HalfEdge(0, 1, 0) && HalfEdgeAt(QuadTris, 1) == HalfEdge(1, 2, 1)
    ensures HalfEdgeAt(QuadTris, 2) == HalfEdge(0, 2, 2) && HalfEdgeAt(QuadTris, 3) == HalfEdge(0, 2, 3)
    ensures HalfEdgeAt(QuadTris, 4) == HalfEdge(2, 3, 4) && HalfEdgeAt(QuadTris, 5) == HalfEdge(0, 3, 5)
  {
  }

  /** Where each half-edge of QuadTris sits in a sorted order of them. */
  lemma QuadPositions(E: seq<HalfEdge>) returns (p0: nat, p1: nat, p2: nat, p3: nat, p4: nat, p5: nat)
    requires SortedHalfEdgeList(QuadTris, E)
    ensures |E| == 6 && p0 < 6 && p1 < 6 && p2 < 6 && p3 < 6 && p4 < 6 && p5 < 6
    ensures E[p0] == HalfEdge(0, 1, 0) && E[p1] == HalfEdge(1, 2, 1) && E[p2] == HalfEdge(0, 2, 2)
    ensures E[p3] == HalfEdge(0, 2, 3) && E[p4] == HalfEdge(2, 3, 4) && E[p5] == HalfEdge(0, 3, 5)
  {
    PermutedHalfEdges(QuadTris, E);
    QuadHalfEdges();
    p0 :| 0 <= p0 < 6 && E[p0] == HalfEdgeAt(QuadTris, 0);
    p1 :| 0 <= p1 < 6 && E[p1] == HalfEdgeAt(QuadTris, 1);
    p2 :| 0 <= p2 < 6 && E[p2] == HalfEdgeAt(QuadTris, 2);
    p3 :| 0 <= p3 < 6 && E[p3] == HalfEdgeAt(QuadTris, 3);
    p4 :| 0 <= p4 < 6 && E[p4] == HalfEdgeAt(QuadTris, 4);
    p5 :| 0 <= p5 < 6 && E[p5] == HalfEdgeAt(QuadTris, 5);
  }

  /** In a sorted list an entry with a strictly smaller key comes first. */
  lemma SortedBefore(E: seq<HalfEdge>, p: nat, q: nat)
    requires SortedByKey(E) && p < |E| && q < |E| && Before(E[p], E[q])
    ensures p < q
  {
  }

  /** Six distinct positions 0 .. 5, where p0 precedes all others and p2, p3
      precede p1, p4, p5: p0 is 0 and p2, p3 are 1 and 2. */
  lemma SixPositions(p0: nat, p1: nat, p2: nat, p3: nat, p4: nat, p5: nat)
    requires p1 < 6 && p4 < 6 && p5 < 6 && p2 != p3 && p1 != p4 && p1 != p5 && p4 != p5
    requires p0 < p2 && p0 < p3 && p2 < p1 && p2 < p4 && p2 < p5 && p3 < p1 && p3 < p4 && p3 < p5
    ensures p0 == 0 && {p2, p3} == {1, 2} && p1 > 2 && p4 > 2 && p5 > 2
  {
  }

  /** In every sorted order of the half-edges of QuadTris the two copies of
      the diagonal (0, 2) sit at positions 1 and 2. */
  lemma QuadDiagonalPositions(E: seq<HalfEdge>)
    requires SortedHalfEdgeList(QuadTris, E)
    ensures |E| == 6
    ensures E[0] == HalfEdge(0, 1, 0)
    ensures E[1].id0 == 0 && E[1].id1 == 2 && E[2].id0 == 0 && E[2].id1 == 2
    ensures {E[1].edgeNr, E[2].edgeNr} == {2, 3}
    ensures E[3].id0 != 0 || E[3].id1 != 2
  {
    var p0, p1, p2, p3, p4, p5 := QuadPositions(E);
    SortedBefore(E, p0, p2);
    SortedBefore(E, p0, p3);
    SortedBefore(E, p2, p1);
    SortedBefore(E, p2, p4);
    SortedBefore(E, p2, p5);
    SortedBefore(E, p3, p1);
    SortedBefore(E, p3, p4);
    SortedBefore(E, p3, p5);
    SixPositions(p0, p1, p2, p3, p4, p5);
  }

  /** The as-written sweep leaves the shared diagonal of QuadTris unlinked:
      its two half-edges sit at sorted positions 1 and 2, which are read as
      parts of the pairs (0, 1) and (2, 3). */
  lemma AsWrittenMissesSharedDiagonal(E: seq<HalfEdge>, neighbors: seq<int>)
    requires SortedHalfEdgeList(QuadTris, E) && |neighbors| == |QuadTris|
    requires PairedBelow(E, neighbors, |E|)
    ensures SharedByExactlyTwo(QuadTris, 2, 3)
    ensures neighbors[2] == -1 && neighbors[3] == -1
  {
    QuadDiagonalPositions(E);
    QuadHalfEdges();
    assert PairedPartner(E, 1) == -1 && PairedPartner(E, 2) == -1;
    assert neighbors[E[1].edgeNr] == -1 && neighbors[E[2].edgeNr] == -1;
    QuadDiagonalShared();
  }

  // ---------------------------------------------------------------------
  // Stretching pairs and bending quads (the constructor loop)

  /** Every neighbour entry is -1 or a half-edge index. */
  predicate NeighborsInRange(tri: seq<nat>, nb: seq<int>)
  {
    Triangles(tri) && |nb| == |tri| && forall h :: 0 <= h < |nb| ==> -1 <= nb[h] < |tri|
  }

  /** Half-edge h contributes a stretching pair: it has no neighbour, or it
      is the copy of its edge that runs from the smaller index. */
  predicate Emits(tri: seq<nat>, nb: seq<int>, h: nat)
    requires NeighborsInRange(tri, nb) && h < |tri|
  {
    nb[h] < 0 || tri[h] < tri[Next(h)]
  }

  /** Half-edge h contributes a bending quad: it has a neighbour. */
  predicate Linked(tri: seq<nat>, nb: seq<int>, h: nat)
    requires NeighborsInRange(tri, nb) && h < |tri|
  {
    nb[h] >= 0
  }

  function EmitCount(tri: seq<nat>, nb: seq<int>, k: nat): nat
    requires NeighborsInRange(tri, nb) && k <= |tri|
  {
    if k == 0 then 0 else EmitCount(tri, nb, k - 1) + (if Emits(tri, nb, k - 1) then 1 else 0)
  }

  function LinkCount(tri: seq<nat>, nb: seq<int>, k: nat): nat
    requires NeighborsInRange(tri, nb) && k <= |tri|
  {
    if k == 0 then 0 else LinkCount(tri, nb, k - 1) + (if Linked(tri, nb, k - 1) then 1 else 0)
  }

  /** The quad of a linked half-edge h: its two ends, then the off vertex of
      its own triangle and that of the neighbour's triangle. */
  function Quad(tri: seq<nat>, nb: seq<int>, h: nat): seq<nat>
    requires NeighborsInRange(tri, nb) && h < |tri| && Linked(tri, nb, h)
  {
    InTriangle(tri, h);
    InTriangle(tri, nb[h]);
    [tri[h], tri[Next(h)], tri[Third(h)], tri[Third(nb[h])]]
  }

  /** The stretching ids the loop pushes for half-edges 0 .. k-1. */
  function StretchList(tri: seq<nat>, nb: seq<int>, k: nat): (r: seq<nat>)
    requires NeighborsInRange(tri, nb) && k <= |tri|
    ensures |r| == 2 * EmitCount(tri, nb, k)
  {
    if k == 0 then []
    else StretchList(tri, nb, k - 1) + (if Emits(tri, nb, k - 1) then [tri[k - 1], tri[Next(k - 1)]] else [])
  }

  /** The bending ids the loop pushes for half-edges 0 .. k-1. */
  function QuadList(tri: seq<nat>, nb: seq<int>, k: nat): (r: seq<nat>)
    requires NeighborsInRange(tri, nb) && k <= |tri|
    ensures |r| == 4 * LinkCount(tri, nb, k)
  {
    if k == 0 then []
    else QuadList(tri, nb, k - 1) + (if Linked(tri, nb, k - 1) then Quad(tri, nb, k - 1) else [])
  }

  /** Every stretching id is a vertex of the mesh. */
  lemma {:induction false} StretchListInMesh(tri: seq<nat>, nb: seq<int>, k: nat)
    requires NeighborsInRange(tri, nb) && k <= |tri|
    ensures forall q :: 0 <= q < |StretchList(tri, nb, k)| ==> StretchList(tri, nb, k)[q] in tri
  {
    if k > 0 {
      StretchListInMesh(tri, nb, k - 1);
      InTriangle(tri, k - 1);
    }
  }

  /** Every bending id is a vertex of the mesh. */
  lemma {:induction false} QuadListInMesh(tri: seq<nat>, nb: seq<int>, k: nat)
    requires NeighborsInRange(tri, nb) && k <= |tri|
    ensures forall q :: 0 <= q < |QuadList(tri, nb, k)| ==> QuadList(tri, nb, k)[q] in tri
  {
    if k > 0 {
      QuadListInMesh(tri, nb, k - 1);
      InTriangle(tri, k - 1);
      if Linked(tri, nb, k - 1) {
        InTriangle(tri, nb[k - 1]);
      }
    }
  }

  /** Each emitting half-edge h appears as the pair number EmitCount(h),
      with its two ends in its own direction. */
  lemma {:induction false} StretchListAt(tri: seq<nat>, nb: seq<int>, k: nat, h: nat)
    requires NeighborsInRange(tri, nb) && h < k <= |tri| && Emits(tri, nb, h)
    ensures 2 * EmitCount(tri, nb, h) + 1 < |StretchList(tri, nb, k)|
    ensures StretchList(tri, nb, k)[2 * EmitCount(tri, nb, h)] == tri[h]
    ensures StretchList(tri, nb, k)[2 * EmitCount(tri, nb, h) + 1] == tri[Next(h)]
  {
    if h < k - 1 {
      StretchListAt(tri, nb, k - 1, h);
    }
  }

  /** Each linked half-edge h appears as quad number LinkCount(h). */
  lemma {:induction false} QuadListAt(tri: seq<nat>, nb: seq<int>, k: nat, h: nat)
    requires NeighborsInRange(tri, nb) && h < k <= |tri| && Linked(tri, nb, h)
    ensures 4 * LinkCount(tri, nb, h) + 3 < |QuadList(tri, nb, k)|
    ensures QuadList(tri, nb, k)[4 * LinkCount(tri, nb, h)..4 * LinkCount(tri, nb, h) + 4] == Quad(tri, nb, h)
  {
    var a := 4 * LinkCount(tri, nb, h);
    if h < k - 1 {
      QuadListAt(tri, nb, k - 1, h);
      var prev := QuadList(tri, nb, k - 1);
      var tail := if Linked(tri, nb, k - 1) then Quad(tri, nb, k - 1) else [];
      assert QuadList(tri, nb, k) == prev + tail;
      assert (prev + tail)[a..a + 4] == prev[a..a + 4];
    } else {
      assert QuadList(tri, nb, k) == QuadList(tri, nb, h) + Quad(tri, nb, h);
    }
  }

  /** The constructor loop (ClothPhysics.ts:88-109): one stretching pair per
      emitting half-edge and one quad per linked half-edge, in half-edge order. */
  method BuildConstraints(triIds: seq<nat>, neighbors: seq<int>) returns (edgeIds: seq<nat>, triPairIds: seq<nat>)
    requires NeighborsInRange(triIds, neighbors)
    ensures edgeIds == StretchList(triIds, neighbors, |triIds|)
    ensures triPairIds == QuadList(triIds, neighbors, |triIds|)
  {
    edgeIds, triPairIds := [], [];
    var numTris := |triIds| / 3;
    assert 3 * numTris == |triIds|;
    for i := 0 to numTris
      invariant edgeIds == StretchList(triIds, neighbors, 3 * i)
      invariant triPairIds == QuadList(triIds, neighbors, 3 * i)
    {
      edgeIds, triPairIds := AddTriangle(triIds, neighbors, i, edgeIds, triPairIds);
    }
  }

  /** The inner loop of the constructor loop: the three half-edges of triangle i. */
  method AddTriangle(triIds: seq<nat>, neighbors: seq<int>, i: nat, edgeIds: seq<nat>, triPairIds: seq<nat>)
    returns (edgeIds': seq<nat>, triPairIds': seq<nat>)
    requires NeighborsInRange(triIds, neighbors) && 3 * i + 3 <= |triIds|
    requires edgeIds == StretchList(triIds, neighbors, 3 * i)
    requires triPairIds == QuadList(triIds, neighbors, 3 * i)
    ensures edgeIds' == StretchList(triIds, neighbors, 3 * i + 3)
    ensures triPairIds' == QuadList(triIds, neighbors, 3 * i + 3)
  {
    edgeIds', triPairIds' := AddHalfEdge(triIds, neighbors, i, 0, edgeIds, triPairIds);
    edgeIds', triPairIds' := AddHalfEdge(triIds, neighbors, i, 1, edgeIds', triPairIds');
    edgeIds', triPairIds' := AddHalfEdge(triIds, neighbors, i, 2, edgeIds', triPairIds');
  }

  /** The body of the constructor loop for corner j of triangle i: push the
      stretching pair when the half-edge emits one, and the quad when it is
      linked. */
  method AddHalfEdge(triIds: seq<nat>, neighbors: seq<int>, i: nat, j: nat, edgeIds: seq<nat>, triPairIds: seq<nat>)
    returns (edgeIds': seq<nat>, triPairIds': seq<nat>)
    requires NeighborsInRange(triIds, neighbors) && j < 3 && 3 * i + j < |triIds|
    requires edgeIds == StretchList(triIds, neighbors, 3 * i + j)
    requires triPairIds == QuadList(triIds, neighbors, 3 * i + j)
    ensures edgeIds' == StretchList(triIds, neighbors, 3 * i + j + 1)
    ensures triPairIds' == QuadList(triIds, neighbors, 3 * i + j + 1)
  {
    var h := 3 * i + j;
    SlotCorners(i, j);
    ConstraintStep(triIds, neighbors, h);
    var id0 := triIds[h];
    var id1 := triIds[3 * i + (j + 1) % 3];
    assert id1 == triIds[Next(h)];
    var n := neighbors[h];
    if n < 0 || id0 < id1 {
      edgeIds' := edgeIds + [id0, id1];
    } else {
      edgeIds' := edgeIds;
    }
    if n >= 0 {
      var ni := n / 3;
      var nj := n % 3;
      var id2 := triIds[3 * i + (j + 2) % 3];
      NeighborCorner(n);
      var id3 := triIds[3 * ni + (nj + 2) % 3];
      assert id2 == triIds[Third(h)] && id3 == triIds[Third(n)];
      triPairIds' := triPairIds + [id0, id1, id2, id3];
    } else {
      triPairIds' := triPairIds;
    }
  }

  /** What the loop appends for half-edge h. */
  lemma ConstraintStep(tri: seq<nat>, nb: seq<int>, h: nat)
    requires NeighborsInRange(tri, nb) && h < |tri|
    ensures Next(h) < |tri| && Third(h) < |tri| && (nb[h] >= 0 ==> Third(nb[h]) < |tri|)
    ensures StretchList(tri, nb, h + 1)
            == if nb[h] < 0 || tri[h] < tri[Next(h)] then StretchList(tri, nb, h) + [tri[h], tri[Next(h)]] else StretchList(tri, nb, h)
    ensures QuadList(tri, nb, h + 1)
            == if nb[h] >= 0 then QuadList(tri, nb, h) + [tri[h], tri[Next(h)], tri[Third(h)], tri[Third(nb[h])]] else QuadList(tri, nb, h)
  {
    InTriangle(tri, h);
    if nb[h] >= 0 {
      InTriangle(tri, nb[h]);
    }
  }

  /** The loop's corner arithmetic on (triangle, corner) gives Next and Third. */
  lemma SlotCorners(i: nat, j: nat)
    requires j < 3
    ensures Next(3 * i + j) == 3 * i + (j + 1) % 3 && Third(3 * i + j) == 3 * i + (j + 2) % 3
  {
    assert (3 * i + j) % 3 == j;
  }

  /** The same arithmetic from a flat half-edge index n. */
  lemma NeighborCorner(n: nat)
    ensures Third(n) == 3 * (n / 3) + (n % 3 + 2) % 3
  {
  }

  /** The two half-edges of a linked pair both contribute a quad: the same
      edge, with the two off vertices in opposite order, so each bending
      constraint is listed twice. */
  lemma LinkedPairGivesTwoQuads(tri: seq<nat>, nb: seq<int>, h: nat)
    requires WellLinked(tri, nb) && h < |tri| && nb[h] >= 0
    ensures NeighborsInRange(tri, nb)
    ensures Linked(tri, nb, nb[h]) && nb[nb[h]] == h
    ensures {Quad(tri, nb, h)[0], Quad(tri, nb, h)[1]} == {Quad(tri, nb, nb[h])[0], Quad(tri, nb, nb[h])[1]}
    ensures Quad(tri, nb, h)[2] == Quad(tri, nb, nb[h])[3] && Quad(tri, nb, h)[3] == Quad(tri, nb, nb[h])[2]
  {
    WellLinkedInRange(tri, nb);
    var g := nb[h];
    assert LinkOk(tri, nb, h);
    HalfEdgeEnds(tri, h);
    HalfEdgeEnds(tri, g);
    InTriangle(tri, h);
    InTriangle(tri, g);
  }

  /** A shared, non-degenerate edge becomes exactly one stretching pair iff
      the two triangles traverse it in opposite directions. */
  lemma SharedEdgeEmittedOnce(tri: seq<nat>, nb: seq<int>, h: nat)
    requires WellLinked(tri, nb) && h < |tri| && nb[h] >= 0
    requires tri[h] != tri[Next(h)]
    ensures NeighborsInRange(tri, nb)
    ensures (Emits(tri, nb, h) != Emits(tri, nb, nb[h])) <==> tri[h] == tri[Next(nb[h])]
  {
    WellLinkedInRange(tri, nb);
    var g := nb[h];
    assert LinkOk(tri, nb, h);
    HalfEdgeEnds(tri, h);
    HalfEdgeEnds(tri, g);
  }

  // ---------------------------------------------------------------------
  // The constraints of the split quad, as written and corrected

  /** In a well-linked table for QuadTris only the diagonal half-edges 2
      and 3 can be linked: every other edge has a single half-edge. */
  lemma QuadOnlyDiagonalLinked(nb: seq<int>)
    requires WellLinked(QuadTris, nb)
    ensures NeighborsInRange(QuadTris, nb)
    ensures nb[0] == -1 && nb[1] == -1 && nb[4] == -1 && nb[5] == -1
    ensures nb[2] == -1 || nb[2] == 3
  {
    WellLinkedInRange(QuadTris, nb);
    QuadHalfEdges();
    assert LinkOk(QuadTris, nb, 0) && LinkOk(QuadTris, nb, 1) && LinkOk(QuadTris, nb, 2);
    assert LinkOk(QuadTris, nb, 4) && LinkOk(QuadTris, nb, 5);
  }

  /** With the as-written table the split quad gets every half-edge as a
      stretching pair, the diagonal 0-2 twice, and no bending quad. */
  lemma AsWrittenQuadConstraints(E: seq<HalfEdge>, nb: seq<int>)
    requires SortedHalfEdgeList(QuadTris, E) && WellLinked(QuadTris, nb) && PairedBelow(E, nb, |E|)
    ensures NeighborsInRange(QuadTris, nb)
    ensures StretchList(QuadTris, nb, 6) == [0, 1, 1, 2, 2, 0, 0, 2, 2, 3, 3, 0]
    ensures QuadList(QuadTris, nb, 6) == []
  {
    AsWrittenMissesSharedDiagonal(E, nb);
    QuadOnlyDiagonalLinked(nb);
    assert StretchList(QuadTris, nb, 1) == [0, 1];
    assert StretchList(QuadTris, nb, 2) == [0, 1, 1, 2];
    assert StretchList(QuadTris, nb, 3) == [0, 1, 1, 2, 2, 0];
    assert StretchList(QuadTris, nb, 4) == [0, 1, 1, 2, 2, 0, 0, 2];
    assert StretchList(QuadTris, nb, 5) == [0, 1, 1, 2, 2, 0, 0, 2, 2, 3];
    assert QuadList(QuadTris, nb, 2) == [];
    assert QuadList(QuadTris, nb, 4) == [];
  }

  /** With the corrected table the diagonal is linked: five stretching pairs,
      the diagonal once, and two bending quads across it. */
  lemma CorrectedQuadConstraints(nb: seq<int>)
    requires WellLinked(QuadTris, nb)
    requires forall h: nat, g: nat :: SharedByExactlyTwo(QuadTris, h, g) ==> nb[h] == g
    ensures NeighborsInRange(QuadTris, nb)
    ensures StretchList(QuadTris, nb, 6) == [0, 1, 1, 2, 0, 2, 2, 3, 3, 0]
    ensures QuadList(QuadTris, nb, 6) == [2, 0, 1, 3, 0, 2, 3, 1]
  {
    QuadDiagonalShared();
    assert nb[2] == 3 && nb[3] == 2;
    QuadOnlyDiagonalLinked(nb);
    assert Quad(QuadTris, nb, 2) == [2, 0, 1, 3] && Quad(QuadTris, nb, 3) == [0, 2, 3, 1];
    assert StretchList(QuadTris, nb, 1) == [0, 1];
    assert StretchList(QuadTris, nb, 2) == [0, 1, 1, 2];
    assert StretchList(QuadTris, nb, 3) == [0, 1, 1, 2];
    assert StretchList(QuadTris, nb, 4) == [0, 1, 1, 2, 0, 2];
    assert StretchList(QuadTris, nb, 5) == [0, 1, 1, 2, 0, 2, 2, 3];
    assert QuadList(QuadTris, nb, 2) == [];
    assert QuadList(QuadTris, nb, 3) == [2, 0, 1, 3];
    assert QuadList(QuadTris, nb, 4) == [2, 0, 1, 3, 0, 2, 3, 1];
  }

  /** Half-edges 2 and 3 are the only two on the diagonal 0-2, in either order. */
  lemma QuadDiagonalShared()
    ensures SharedByExactlyTwo(QuadTris, 2, 3) && SharedByExactlyTwo(QuadTris, 3, 2)
  {
    QuadHalfEdges();
    forall f | 0 <= f < |QuadTris| && SameKey(HalfEdgeAt(QuadTris, f), HalfEdgeAt(QuadTris, 2))
      ensures f == 2 || f == 3
    {
    }
  }
}
