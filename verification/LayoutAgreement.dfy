/** On a cold cache the reader makes the requests, and fetches the bytes, that both layout simulators predict. */
module LayoutAgreement {
  import opened Sorting
  import opened RangeCoalescing
  import opened GraphSearch
  import opened RecordCodec
  import opened ArtifactFile
  import opened ReadSpec
  import opened RangeReader

  /** The simulators' byte gap for the reader's gap, which counts records on version 1 and bytes on version 2. */
  function ByteGap(artifact: RangeArtifact, gap: nat): nat {
    if artifact.version >= 2 then gap else gap * artifact.recordBytes
  }

  /** Clear the cache, prefetch, and run both simulators on the same ids at the same gap. */
  method ColdPrefetch(artifact: RangeArtifact, ids: seq<nat>, permutation: seq<nat>, gap: nat)
    returns (requests: nat, traceRequests: nat, traceBytes: int, ranges: nat, filler: int, ghost positions: seq<nat>)
    requires artifact.Valid() && AllBelow(ids, artifact.count) && |permutation| == artifact.count
    requires forall id: nat :: id < |permutation| ==> permutation[id] == SlotOf(artifact.layout, id)
    modifies artifact
    ensures artifact.Valid() && forall id :: id in ids ==> id in artifact.cache
    ensures SlotsOf(positions, ids, permutation)
    ensures requests == traceRequests == artifact.rangeRequests && artifact.rangeBytes == traceBytes
    ensures ids != [] ==> ranges == requests && artifact.rangeBytes == |positions| * artifact.recordBytes + filler
  {
    hide *;
    GapsAgree(artifact, gap);
    Inside(artifact, ids);
    ghost var slots;
    requests, slots := PrefetchCold(artifact, ids, gap);
    var nodes;
    traceRequests, traceBytes, nodes, positions := CoalescedRuns(ids, permutation, artifact.recordBytes, artifact.SlotGap(gap));
    ColdSlots(artifact.index, artifact.layout, slots, ids, positions, permutation);
    var listed := SortedPositions(ids, permutation);
    ghost var rows;
    ranges, filler, rows := CoalesceRows(listed, artifact.recordBytes, ByteGap(artifact, gap));
    SamePositions(ids, permutation, positions, listed, rows);
    FillerSplits(Covered(Runs(positions, artifact.SlotGap(gap))), |positions|, artifact.recordBytes);
  }

  method PrefetchCold(artifact: RangeArtifact, ids: seq<nat>, gap: nat) returns (requests: nat, ghost slots: seq<nat>)
    requires artifact.Valid() && AllBelow(ids, artifact.count)
    modifies artifact
    ensures artifact.Valid() && forall id :: id in ids ==> id in artifact.cache
    ensures MissingSlots(artifact.layout, slots, ids, {})
    ensures requests == artifact.rangeRequests == |Runs(slots, artifact.SlotGap(gap))|
    ensures artifact.rangeBytes == Covered(Runs(slots, artifact.SlotGap(gap))) * artifact.recordBytes
  {
    artifact.Known();
    hide IsArtifact, IsNode, RecordBytes, AfterRuns, Runs, Covered, MissingSlots;
    artifact.ClearCache();
    artifact.ResetStats();
    ghost var cold := artifact.State();
    requests, slots := artifact.Prefetch(ids, gap);
    AfterRunsTotals(artifact.index, artifact.layout, cold, Runs(slots, artifact.SlotGap(gap)));
  }

  lemma Inside(artifact: RangeArtifact, ids: seq<nat>)
    requires artifact.Valid() && AllBelow(ids, artifact.count)
    ensures ValidLayout(artifact.index, artifact.layout) && AllBelow(ids, artifact.index.graph.count)
    ensures artifact.count == artifact.index.graph.count && forall k :: 0 <= k < |ids| ==> ids[k] < artifact.count
  {
    artifact.Known();
  }

  lemma GapsAgree(artifact: RangeArtifact, gap: nat)
    requires artifact.Valid()
    ensures artifact.recordBytes > 0 && ByteGap(artifact, gap) / artifact.recordBytes == artifact.SlotGap(gap)
  {
    artifact.Known();
    hide IsArtifact, RecordBytes, IsNode;
    Quotient(gap, artifact.recordBytes);
  }

  lemma Quotient(q: nat, size: nat)
    requires size > 0
    ensures q * size / size == q
  {
    var r := q * size / size;
    assert r * size <= q * size < (r + 1) * size;
    if r < q { MulAtMost(r + 1, q, size); }
    if q < r { MulAtMost(q + 1, r, size); }
  }

  lemma FillerSplits(covered: int, n: nat, size: nat)
    ensures covered * size == n * size + (covered - n) * size
  {}

  lemma SamePositions(ids: seq<nat>, permutation: seq<nat>, positions: seq<nat>, listed: seq<nat>, rows: seq<nat>)
    requires forall k :: 0 <= k < |ids| ==> ids[k] < |permutation|
    requires SlotsOf(positions, ids, permutation) && SlotsOf(listed, ids, permutation)
    requires Distinct(listed) ==> Increasing(rows) && Elements(rows) == Elements(listed)
    ensures rows == positions && listed == positions
  {
    forall x ensures x in positions <==> x in listed {
      assert x in Elements(positions) <==> x in Elements(listed);
    }
    forall x ensures x in rows <==> x in listed {
      assert x in Elements(rows) <==> x in Elements(listed);
    }
    IncreasingUnique(positions, listed);
    IncreasingUnique(rows, listed);
  }
}
