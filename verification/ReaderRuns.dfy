/** Whole runs of reader calls, in any order: what is read never depends on what was fetched, cached or cleared before. */
module ReaderRuns {
  import opened GraphSearch
  import opened RecordCodec
  import opened ArtifactFile
  import opened ReadSpec
  import opened CustomPages
  import opened RangeReader

  datatype Call =
    | Prefetch(ids: seq<nat>, gap: nat)
    | PrefetchPages(ids: seq<nat>, pageSize: nat)
    | PrefetchCustomPages(ids: seq<nat>, gap: nat)
    | LoadRouter
    | LoadPrefix(records: nat, chunkBytes: nat)
    | LoadNodes(ids: seq<nat>)
    | LoadUpper
    | ClearCache
    | ResetStats
    | ReadNode(id: nat)
    | ReadNodeDirect(id: nat)

  ghost predicate InRange(call: Call, count: nat) {
    match call
    case Prefetch(ids, _) => AllBelow(ids, count)
    case PrefetchPages(ids, _) => AllBelow(ids, count)
    case PrefetchCustomPages(ids, _) => AllBelow(ids, count)
    case LoadNodes(ids) => AllBelow(ids, count)
    case ReadNode(id) => id < count
    case ReadNodeDirect(id) => id < count
    case _ => true
  }

  function ReadId(call: Call): (r: seq<nat>) {
    match call
    case ReadNode(id) => [id]
    case ReadNodeDirect(id) => [id]
    case _ => []
  }

  /** The ids read, in order. */
  function ReadIds(calls: seq<Call>): (r: seq<nat>) {
    if calls == [] then [] else ReadIds(calls[..|calls| - 1]) + ReadId(calls[|calls| - 1])
  }

  ghost predicate Answers(index: Index, ids: seq<nat>, nodes: seq<Node>) {
    |nodes| == |ids| && forall k :: 0 <= k < |ids| ==> IsNode(index, ids[k], nodes[k])
  }

  /** Page calls, if this is one, use pages of `n` records. */
  predicate AtPageSize(artifact: RangeArtifact, call: Call, n: nat) {
    call.PrefetchPages? ==> artifact.RecordsPerPage(call.pageSize) == n
  }

  predicate AllAtPageSize(artifact: RangeArtifact, calls: seq<Call>, n: nat) {
    forall k :: 0 <= k < |calls| ==> AtPageSize(artifact, calls[k], n)
  }

  /** A call that marks no page and only adds to the cache, or drops all marks, leaves every marked page loaded. */
  lemma StillLoaded(layout: Layout, before: Reading, after: Reading, n: nat)
    requires PagesLoaded(layout, before, n)
    requires (after.pages == before.pages && before.cached <= after.cached) || after.pages == {}
    ensures PagesLoaded(layout, after, n)
  {}

  method Step(artifact: RangeArtifact, custom: PageLayout, call: Call, ghost n: nat) returns (answer: seq<Node>)
    requires artifact.Valid() && custom.Valid() && InRange(call, artifact.count)
    requires forall p, k :: 0 <= p < |custom.pages| && 0 <= k < |custom.pages[p]| ==> custom.pages[p][k] < artifact.count
    modifies artifact, custom`pageCache
    ensures artifact.Valid() && custom.Valid()
    ensures Answers(artifact.index, ReadId(call), answer)
    ensures !call.ClearCache? ==> old(artifact.cache.Keys) <= artifact.cache.Keys
    ensures PagesLoaded(artifact.layout, old(artifact.State()), n) && AtPageSize(artifact, call, n) ==>
      PagesLoaded(artifact.layout, artifact.State(), n)
  {
    hide IsNode, IsArtifact, RecordBytes, PagesLoaded, AfterRequest, AfterRuns, AfterPages, AfterCustomPages;
    ghost var before := artifact.State();
    answer := Perform(artifact, custom, call);
    if PagesLoaded(artifact.layout, before, n) && AtPageSize(artifact, call, n) {
      if !call.PrefetchPages? {
        StillLoaded(artifact.layout, before, artifact.State(), n);
      } else if artifact.State() != before {
        var pages :| artifact.State() == AfterPages(artifact.index, artifact.layout, before, n, pages);
        AfterPagesLoaded(artifact.index, artifact.layout, before, n, pages);
      }
    }
  }

  method CallPrefetch(artifact: RangeArtifact, ids: seq<nat>, gap: nat)
    requires artifact.Valid() && AllBelow(ids, artifact.count)
    modifies artifact
    ensures artifact.Valid() && artifact.pageCache == old(artifact.pageCache) && old(artifact.cache.Keys) <= artifact.cache.Keys
  {
    hide *;
    ghost var slots;
    var n;
    n, slots := artifact.Prefetch(ids, gap);
  }

  method CallPrefetchPages(artifact: RangeArtifact, ids: seq<nat>, pageSize: nat)
    requires artifact.Valid() && AllBelow(ids, artifact.count)
    modifies artifact
    ensures artifact.Valid() && old(artifact.cache.Keys) <= artifact.cache.Keys
    ensures
      || artifact.State() == old(artifact.State())
      || exists pages :: artifact.State() ==
           AfterPages(artifact.index, artifact.layout, old(artifact.State()), artifact.RecordsPerPage(pageSize), pages)
  {
    hide *;
    ghost var pages;
    var r;
    r, pages := artifact.PrefetchPages(ids, pageSize);
  }

  method CallPrefetchCustomPages(artifact: RangeArtifact, custom: PageLayout, ids: seq<nat>, gap: nat)
    requires artifact.Valid() && custom.Valid() && AllBelow(ids, artifact.count)
    requires forall p, k :: 0 <= p < |custom.pages| && 0 <= k < |custom.pages[p]| ==> custom.pages[p][k] < artifact.count
    modifies artifact, custom`pageCache
    ensures artifact.Valid() && custom.Valid()
    ensures artifact.pageCache == old(artifact.pageCache) && old(artifact.cache.Keys) <= artifact.cache.Keys
  {
    hide *;
    ghost var pageIds, residual, slots;
    var n;
    n, pageIds, residual, slots := artifact.PrefetchCustomPages(ids, custom, gap);
  }

  method CallReadNode(artifact: RangeArtifact, id: nat) returns (node: Node)
    requires artifact.Valid() && id < artifact.count
    modifies artifact
    ensures artifact.Valid() && IsNode(artifact.index, id, node)
    ensures artifact.pageCache == old(artifact.pageCache) && old(artifact.cache.Keys) <= artifact.cache.Keys
  {
    hide IsNode, IsArtifact, RecordBytes, SlotIds, SlotOf;
    node := artifact.ReadNode(id);
  }

  method Perform(artifact: RangeArtifact, custom: PageLayout, call: Call) returns (answer: seq<Node>)
    requires artifact.Valid() && custom.Valid() && InRange(call, artifact.count)
    requires forall p, k :: 0 <= p < |custom.pages| && 0 <= k < |custom.pages[p]| ==> custom.pages[p][k] < artifact.count
    modifies artifact, custom`pageCache
    ensures artifact.Valid() && custom.Valid()
    ensures Answers(artifact.index, ReadId(call), answer)
    ensures !call.ClearCache? ==> old(artifact.cache.Keys) <= artifact.cache.Keys
    ensures !call.PrefetchPages? ==>
      || (artifact.State().pages == old(artifact.State()).pages && old(artifact.State()).cached <= artifact.State().cached)
      || artifact.State().pages == {}
    ensures call.PrefetchPages? ==>
      || artifact.State() == old(artifact.State())
      || exists pages :: artifact.State() ==
           AfterPages(artifact.index, artifact.layout, old(artifact.State()), artifact.RecordsPerPage(call.pageSize), pages)
  {
    hide IsNode, IsArtifact, RecordBytes, AfterPages, SlotIds;
    answer := [];
    match call
    case Prefetch(ids, gap) => CallPrefetch(artifact, ids, gap);
    case PrefetchPages(ids, pageSize) => CallPrefetchPages(artifact, ids, pageSize);
    case PrefetchCustomPages(ids, gap) => CallPrefetchCustomPages(artifact, custom, ids, gap);
    case LoadRouter => var records, bytes := artifact.LoadRouterSegment();
    case LoadPrefix(records, chunkBytes) => var loaded, bytes := artifact.LoadOrdinalPrefix(records, chunkBytes);
    case LoadNodes(ids) => var n := artifact.LoadNodeSet(ids);
    case LoadUpper => var n := artifact.LoadUpperLayerNodes();
    case ClearCache => artifact.ClearCache();
    case ResetStats => artifact.ResetStats();
    case ReadNode(id) => var node := CallReadNode(artifact, id); answer := [node];
    case ReadNodeDirect(id) => var node := artifact.ReadNodeDirect(id); answer := [node];
  }

  /** Over any run, page failures included, the cache stays coherent and every read returns the exported node. */
  method RunCalls(artifact: RangeArtifact, custom: PageLayout, calls: seq<Call>, ghost n: nat) returns (answers: seq<Node>)
    requires artifact.Valid() && custom.Valid()
    requires forall k :: 0 <= k < |calls| ==> InRange(calls[k], artifact.count)
    requires forall p, k :: 0 <= p < |custom.pages| && 0 <= k < |custom.pages[p]| ==> custom.pages[p][k] < artifact.count
    modifies artifact, custom`pageCache
    ensures artifact.Valid() && custom.Valid()
    ensures Answers(artifact.index, ReadIds(calls), answers)
    ensures ClearCache !in calls ==> old(artifact.cache.Keys) <= artifact.cache.Keys
    ensures PagesLoaded(artifact.layout, old(artifact.State()), n) && AllAtPageSize(artifact, calls, n) ==>
      PagesLoaded(artifact.layout, artifact.State(), n)
  {
    hide IsNode, IsArtifact, RecordBytes, PagesLoaded;
    answers := [];
    for i := 0 to |calls|
      invariant artifact.Valid() && custom.Valid()
      invariant Answers(artifact.index, ReadIds(calls[..i]), answers)
      invariant ClearCache !in calls ==> old(artifact.cache.Keys) <= artifact.cache.Keys
      invariant PagesLoaded(artifact.layout, old(artifact.State()), n) && AllAtPageSize(artifact, calls, n) ==>
        PagesLoaded(artifact.layout, artifact.State(), n)
    {
      assert calls[..i + 1][..i] == calls[..i];
      var answer := Step(artifact, custom, calls[i], n);
      answers := answers + answer;
    }
    assert calls[..|calls|] == calls;
  }
}
