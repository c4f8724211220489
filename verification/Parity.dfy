/** The whole way round: export an index, open the file, read it back, and search it lazily and from memory. */
module Parity {
  import opened Wrappers
  import opened Finite
  import opened GraphSearch
  import opened RecordCodec
  import opened ArtifactFile
  import opened ReadSpec
  import opened CustomPages
  import opened RangeReader
  import opened RangeSearch
  import opened ReaderRuns
  import BatchWidth

  /** Export, open, and make any reader calls; without `clearCache` among them no upper-level node goes missing. */
  method ExportAndOpen(index: Index, order: seq<nat>, parts: nat, custom: PageLayout, calls: seq<Call>)
    returns (r: Result<RangeArtifact>, answers: seq<Node>, layout: Layout)
    requires ValidIndex(index) && IsPermutation(order, index.graph.count)
    requires custom.Valid() && PagesInside(custom, index.graph.count)
    requires forall k :: 0 <= k < |calls| ==> InRange(calls[k], index.graph.count)
    modifies custom`pageCache
    ensures custom.Valid() && (r.Success? <==> Fits(HeaderWords(index, layout), U32_LIMIT))
    ensures r.Success? ==> fresh(r.value) && r.value.Valid() && r.value.index == index && r.value.count == index.graph.count
    ensures r.Success? ==> Answers(index, ReadIds(calls), answers)
    ensures r.Success? && ClearCache !in calls ==> !RouterMissing(index, r.value.cache.Keys)
  {
    hide IsArtifact, HasMagic, ValidLayout, ValidIndex, HeaderWords, Fits, Answers, RouterMissing, InRange, IsPermutation;
    var file;
    answers := [];
    file, layout := ExportSplitRangeArtifact(index, order, parts);
    if file.Failure? { return Failure(file.error), answers, layout; }
    MagicWritten(file.value, index, layout);
    var reading := Open(file.value, index, layout);
    var artifact := reading.value;
    OpenedCount(artifact);
    RoutersResident(artifact, artifact.cache.Keys);
    ghost var before := artifact.cache.Keys;
    answers := RunCalls(artifact, custom, calls, 1);
    if ClearCache !in calls && RouterMissing(index, artifact.cache.Keys) {
      MissingBefore(index, before, artifact.cache.Keys);
    }
    r := Success(artifact);
  }

  /** Every node written by the split exporter is read back as it was, whatever reader calls came in between. */
  method ExportAndRead(index: Index, order: seq<nat>, parts: nat, custom: PageLayout, calls: seq<Call>)
    returns (r: Result<seq<Node>>, layout: Layout)
    requires ValidIndex(index) && IsPermutation(order, index.graph.count)
    requires custom.Valid() && PagesInside(custom, index.graph.count)
    requires forall k :: 0 <= k < |calls| ==> InRange(calls[k], index.graph.count)
    modifies custom`pageCache
    ensures r.Success? <==> Fits(HeaderWords(index, layout), U32_LIMIT)
    ensures r.Success? ==> Answers(index, ReadIds(calls), r.value)
  {
    hide *;
    var reading, answers;
    reading, answers, layout := ExportAndOpen(index, order, parts, custom, calls);
    if reading.Failure? { return Failure(reading.error), layout; }
    r := Success(answers);
  }

  lemma OpenedCount(artifact: RangeArtifact)
    requires artifact.Valid()
    ensures artifact.count == artifact.index.graph.count && artifact.dim == artifact.index.dim
  {}

  lemma MagicWritten(file: seq<byte>, index: Index, layout: Layout)
    requires IsArtifact(file, index, layout)
    ensures HasMagic(file)
  {
    HeaderValues(file, index, layout);
  }

  /** One query of the parity run: the artifact's cache and counters are cleared, then both searches answer. */
  method CheckQuery(
    index: Index, artifact: RangeArtifact, query: seq<real>, k: nat, efSearch: nat, gap: nat, expansionBatch: nat,
    dequantize: Dequantize)
    returns (same: bool, expected: seq<nat>, actual: seq<nat>)
    requires artifact.Valid() && artifact.index == index && |query| == index.dim
    modifies artifact
    ensures artifact.Valid() && same == (expected == actual)
    ensures ValidIndex(index)
    ensures expected == ResidentSearch(index.graph, Dist(index, query, dequantize), k, efSearch)
    ensures actual == BatchedSearch(index.graph, Dist(index, query, dequantize), k, efSearch, Width(expansionBatch))
    ensures expansionBatch == 1 ==> same
    ensures Max(efSearch, k) >= index.graph.count ==>
      && |actual| == |expected|
      && (forall i :: 0 <= i < |expected| ==>
           Dist(index, query, dequantize)(actual[i]) == Dist(index, query, dequantize)(expected[i]))
      && ((forall m, n :: 0 <= m < n < index.graph.count ==>
             Dist(index, query, dequantize)(m) != Dist(index, query, dequantize)(n)) ==> same)
  {
    artifact.Known();
    hide *;
    artifact.ClearCache();
    artifact.ResetStats();
    expected := SnapshotSearch(index, query, k, efSearch, dequantize);
    var o := Options(gap, 0, 0, false, expansionBatch);
    NoPagesNoThrow(artifact, o, expansionBatch);
    var answer := LazySearch(artifact, null, query, k, efSearch, o, dequantize);
    actual := answer.value;
    same := expected == actual;
    if Max(efSearch, k) >= index.graph.count {
      BatchWidth.ExhaustiveBatchesAgree(index.graph, Dist(index, query, dequantize), k, efSearch, BatchSize(o));
    }
  }

  /** An omitted batch size is the default one. */
  function Width(expansionBatch: nat): nat {
    if expansionBatch == 0 then OPERATIONAL_EXPANSION_BATCH else expansionBatch
  }

  lemma NoPagesNoThrow(artifact: RangeArtifact, o: Options, expansionBatch: nat)
    requires artifact.Valid() && o.pageSize == 0 && o.expansionBatch == expansionBatch
    ensures Working(artifact, null) && !MayThrow(artifact, null, o)
    ensures BatchSize(o) == Width(expansionBatch) && (expansionBatch == 1 ==> BatchSize(o) == 1)
  {}

  /** The run over all queries: with single expansion every one of them matches. */
  method ExactMatches(
    index: Index, artifact: RangeArtifact, queries: seq<seq<real>>, k: nat, efSearch: nat, gap: nat, expansionBatch: nat,
    dequantize: Dequantize)
    returns (exact: nat)
    requires artifact.Valid() && artifact.index == index
    requires forall i :: 0 <= i < |queries| ==> |queries[i]| == index.dim
    modifies artifact
    ensures artifact.Valid() && exact <= |queries| && (expansionBatch == 1 ==> exact == |queries|)
  {
    hide *;
    exact := 0;
    for i := 0 to |queries|
      invariant artifact.Valid() && exact <= i && (expansionBatch == 1 ==> exact == i)
    {
      var same, expected, actual := CheckQuery(index, artifact, queries[i], k, efSearch, gap, expansionBatch, dequantize);
      if same { exact := exact + 1; }
    }
  }

  /** With the router segment resident no upper-level node is missing. */
  lemma RoutersResident(artifact: RangeArtifact, cached: set<nat>)
    requires artifact.Valid() && artifact.version == 2
    requires SlotIds(artifact.layout, 0, artifact.layout.routers) <= cached
    ensures !RouterMissing(artifact.index, cached)
  {
    artifact.Known();
    hide IsArtifact, RecordBytes;
    forall id: nat | id < artifact.index.graph.count && artifact.index.levels[id] > 0
      ensures id in SlotIds(artifact.layout, 0, artifact.layout.routers)
    {
      SlotExists(artifact.index, artifact.layout, id);
    }
  }

  /**
   A stream of page-mode queries: while no upper-level node is missing every one is answered, and clearing the
   cache before each query fails at once on a version 2 artifact whose entry point is above the base level.
   */
  method PageSweep(
    artifact: RangeArtifact, queries: seq<seq<real>>, k: nat, efSearch: nat, pageSize: nat, clearCachePerQuery: bool,
    dequantize: Dequantize)
    returns (r: Result<seq<seq<nat>>>)
    requires artifact.Valid() && pageSize > 0
    requires forall i :: 0 <= i < |queries| ==> |queries[i]| == artifact.index.dim
    modifies artifact
    ensures artifact.Valid() && EntryIn(artifact.index) && ValidGraph(artifact.index.graph)
    ensures artifact.version != 2 ==> r.Success?
    ensures !clearCachePerQuery && !RouterMissing(artifact.index, old(artifact.cache.Keys)) ==> r.Success?
    ensures
      artifact.version == 2 && clearCachePerQuery && queries != [] && EntryMissing(artifact.index, {}) ==> r.Failure?
    ensures r.Success? ==> Answered(artifact.index, queries, r.value, k, efSearch, dequantize)
  {
    EntryAlwaysIn(artifact);
    hide *;
    var answers := [];
    ghost var index, resident := artifact.index, artifact.cache.Keys;
    NoneAnswered(index, queries, k, efSearch, dequantize);
    for i := 0 to |queries|
      invariant artifact.Valid() && |answers| == i
      invariant !clearCachePerQuery ==> resident <= artifact.cache.Keys
      invariant artifact.version == 2 && clearCachePerQuery && EntryMissing(index, {}) ==> i == 0
      invariant Answered(index, queries[..i], answers, k, efSearch, dequantize)
    {
      ghost var before := artifact.cache.Keys;
      var answer := PageQuery(artifact, queries[i], k, efSearch, pageSize, clearCachePerQuery, dequantize);
      if answer.Failure? {
        if !clearCachePerQuery { MissingBefore(index, resident, before); }
        return Failure(answer.error);
      }
      OneMoreAnswered(index, queries, i, answers, answer.value, k, efSearch, dequantize);
      answers := answers + [answer.value];
    }
    assert queries[..|queries|] == queries;
    r := Success(answers);
  }

  /** Each answer is the batched search, at the default batch, of its query. */
  ghost predicate Answered(
    index: Index, queries: seq<seq<real>>, answers: seq<seq<nat>>, k: nat, efSearch: nat, dequantize: Dequantize)
  {
    && ValidGraph(index.graph) && |answers| == |queries|
    && forall i :: 0 <= i < |queries| ==>
         answers[i] == BatchedSearch(index.graph, Dist(index, queries[i], dequantize), k, efSearch, OPERATIONAL_EXPANSION_BATCH)
  }

  lemma NoneAnswered(index: Index, queries: seq<seq<real>>, k: nat, efSearch: nat, dequantize: Dequantize)
    requires ValidGraph(index.graph)
    ensures Answered(index, queries[..0], [], k, efSearch, dequantize)
  {}

  lemma OneMoreAnswered(
    index: Index, queries: seq<seq<real>>, i: nat, answers: seq<seq<nat>>, answer: seq<nat>, k: nat, efSearch: nat,
    dequantize: Dequantize)
    requires ValidGraph(index.graph) && i < |queries| && Answered(index, queries[..i], answers, k, efSearch, dequantize)
    requires
      answer == BatchedSearch(index.graph, Dist(index, queries[i], dequantize), k, efSearch, OPERATIONAL_EXPANSION_BATCH)
    ensures Answered(index, queries[..i + 1], answers + [answer], k, efSearch, dequantize)
  {
    hide BatchedSearch, Dist, ValidGraph;
    assert queries[..i + 1] == queries[..i] + [queries[i]];
  }

  method PageQuery(
    artifact: RangeArtifact, query: seq<real>, k: nat, efSearch: nat, pageSize: nat, clearCache: bool,
    dequantize: Dequantize)
    returns (r: Result<seq<nat>>)
    requires artifact.Valid() && pageSize > 0 && |query| == artifact.index.dim
    modifies artifact
    ensures artifact.Valid() && EntryIn(artifact.index) && ValidGraph(artifact.index.graph)
    ensures !clearCache ==> old(artifact.cache.Keys) <= artifact.cache.Keys
    ensures r.Failure? ==>
      artifact.version == 2 && (clearCache || RouterMissing(artifact.index, old(artifact.cache.Keys)))
    ensures artifact.version == 2 && clearCache && EntryMissing(artifact.index, {}) ==> r.Failure?
    ensures r.Success? ==>
      r.value == BatchedSearch(artifact.index.graph, Dist(artifact.index, query, dequantize), k, efSearch,
                               OPERATIONAL_EXPANSION_BATCH)
  {
    hide IsArtifact, IsNode, RecordBytes, Dist, BatchedSearch, ValidGraph, RouterMissing, EntryIn, BatchSize;
    if clearCache { artifact.ClearCache(); }
    artifact.ResetStats();
    var o := Options(0, pageSize, 0, false, 0);
    PageMode(artifact, o);
    r := LazySearch(artifact, null, query, k, efSearch, o, dequantize);
  }

  lemma EntryAlwaysIn(artifact: RangeArtifact)
    requires artifact.Valid()
    ensures EntryIn(artifact.index) && ValidGraph(artifact.index.graph)
  {
    artifact.Known();
  }

  lemma PageMode(artifact: RangeArtifact, o: Options)
    requires artifact.Valid() && o.pageSize > 0 && o.expansionBatch == 0
    ensures Working(artifact, null) && (MayThrow(artifact, null, o) <==> artifact.version == 2)
    ensures BatchSize(o) == OPERATIONAL_EXPANSION_BATCH && (artifact.version == 1 || artifact.version == 2)
  {
    artifact.Known();
  }

  /**
   Export, open, make any reader calls, then search lazily with any gap, page mode and look-ahead: with single
   expansion the ids are those the resident search of the original index returns.
   */
  method ExportAndSearch(
    index: Index, order: seq<nat>, parts: nat, custom: PageLayout, calls: seq<Call>, usePages: bool,
    query: seq<real>, k: nat, efSearch: nat, o: Options, dequantize: Dequantize)
    returns (lazy: Result<seq<nat>>, resident: seq<nat>, layout: Layout)
    requires ValidIndex(index) && IsPermutation(order, index.graph.count) && |query| == index.dim
    requires custom.Valid() && PagesInside(custom, index.graph.count)
    requires forall k :: 0 <= k < |calls| ==> InRange(calls[k], index.graph.count)
    modifies custom
    ensures lazy.Success? && BatchSize(o) == 1 ==> lazy.value == resident
    ensures lazy.Failure? ==>
      !Fits(HeaderWords(index, layout), U32_LIMIT) || (o.pageSize > 0 && !usePages && ClearCache in calls)
    ensures resident == ResidentSearch(index.graph, Dist(index, query, dequantize), k, efSearch)
  {
    resident := SnapshotSearch(index, query, k, efSearch, dequantize);
    hide IsArtifact, ValidLayout, ValidIndex, HeaderWords, Fits, RouterMissing, InRange, IsPermutation, Dist, ResidentSearch, BatchedSearch;
    var reading, answers;
    reading, answers, layout := ExportAndOpen(index, order, parts, custom, calls);
    if reading.Failure? { return Failure(reading.error), resident, layout; }
    lazy := LazySearch(reading.value, if usePages then custom else null, query, k, efSearch, o, dequantize);
  }
}
