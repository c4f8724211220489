/**
 The two searches as the source runs them: over mutable heaps and visit marks, the resident one reading the
 parsed index, the lazy one reading through the range artifact with prefetching and speculation.
 */
module RangeSearch {
  import opened Wrappers
  import opened Sorting
  import opened Finite
  import opened MinHeaps
  import opened GraphSearch
  import opened RecordCodec
  import opened ArtifactFile
  import opened ReadSpec
  import opened CustomPages
  import opened RangeReader
  import PageBound

  /** How a stored code becomes a coordinate: from the scale and offset bit patterns and the byte. */
  type Dequantize = (nat, nat, byte) -> real

  /** Squared distance over the first n coordinates. */
  function L2(query: seq<real>, codes: seq<byte>, scale: nat, offset: nat, n: nat, dequantize: Dequantize): real
    requires n <= |query| && n <= |codes|
  {
    if n == 0 then 0.0
    else
      var diff := query[n - 1] - dequantize(scale, offset, codes[n - 1]);
      L2(query, codes, scale, offset, n - 1, dequantize) + diff * diff
  }

  ghost function NodeDistance(query: seq<real>, node: Node, dequantize: Dequantize): real {
    if |node.qdata| == |query| then L2(query, node.qdata, node.scale, node.offset, |query|, dequantize) else 0.0
  }

  /** Distance from the query to each node of the index. */
  ghost function Dist(index: Index, query: seq<real>, dequantize: Dequantize): nat -> real {
    (id: nat) => if ValidIndex(index) && id < index.graph.count then NodeDistance(query, NodeOf(index, id), dequantize) else 0.0
  }

  /** The coordinates the codes of a node stand for. */
  ghost function Coordinates(node: Node, dequantize: Dequantize): (v: seq<real>)
    ensures |v| == |node.qdata|
    ensures forall d :: 0 <= d < |v| ==> v[d] == dequantize(node.scale, node.offset, node.qdata[d])
  {
    seq(|node.qdata|, d requires 0 <= d < |node.qdata| => dequantize(node.scale, node.offset, node.qdata[d]))
  }

  /** The loops add up the squared distance to those coordinates. */
  lemma {:induction false} DistanceSoFar(query: seq<real>, node: Node, n: nat, dequantize: Dequantize)
    requires n <= |query| == |node.qdata|
    ensures L2(query, node.qdata, node.scale, node.offset, n, dequantize)
      == PageBound.SquaredDistance(query[..n], Coordinates(node, dequantize)[..n])
  {
    if n == 0 {
    } else {
      DistanceSoFar(query, node, n - 1, dequantize);
      var v := Coordinates(node, dequantize);
      assert query[..n][..n - 1] == query[..n - 1] && v[..n][..n - 1] == v[..n - 1];
      PageBound.LastCoordinate(query[..n], v[..n]);
    }
  }

  /** Never negative, and zero exactly when the query is what the codes stand for. */
  lemma NodeDistanceMeans(query: seq<real>, node: Node, dequantize: Dequantize)
    requires |query| == |node.qdata|
    ensures NodeDistance(query, node, dequantize) == PageBound.SquaredDistance(query, Coordinates(node, dequantize)) >= 0.0
    ensures NodeDistance(query, node, dequantize) == 0.0
      <==> forall d :: 0 <= d < |query| ==> query[d] == dequantize(node.scale, node.offset, node.qdata[d])
  {
    var v := Coordinates(node, dequantize);
    DistanceSoFar(query, node, |query|, dequantize);
    assert query[..|query|] == query && v[..|query|] == v;
    PageBound.ZeroDistance(query, v);
    assert query == v <==> forall d :: 0 <= d < |query| ==> query[d] == v[d];
  }

  /** For a node of the index: from its scale, its offset and its row of the flat code array. */
  lemma DistMeans(index: Index, query: seq<real>, id: nat, dequantize: Dequantize) returns (v: seq<real>)
    requires ValidIndex(index) && id < index.graph.count && |query| == index.dim
    ensures |v| == index.dim && 0 <= id * index.dim && id * index.dim + index.dim <= |index.qdata|
    ensures forall d :: 0 <= d < |v| ==> v[d] == dequantize(index.scales[id], index.offsets[id], index.qdata[id * index.dim + d])
    ensures Dist(index, query, dequantize)(id) == PageBound.SquaredDistance(query, v) >= 0.0
    ensures Dist(index, query, dequantize)(id) == 0.0 <==> query == v
  {
    var node := NodeOf(index, id);
    RowInside(id, index.graph.count, index.dim);
    v := Coordinates(node, dequantize);
    NodeDistanceMeans(query, node, dequantize);
    PageBound.ZeroDistance(query, v);
  }

  method L2Node(query: seq<real>, node: Node, dequantize: Dequantize) returns (sum: real)
    requires |node.qdata| == |query|
    ensures sum == NodeDistance(query, node, dequantize)
  {
    sum := 0.0;
    for d := 0 to |query|
      invariant sum == L2(query, node.qdata, node.scale, node.offset, d, dequantize)
    {
      var decoded := dequantize(node.scale, node.offset, node.qdata[d]);
      var diff := query[d] - decoded;
      sum := sum + diff * diff;
    }
  }

  /** `l2Snapshot` reads its row straight out of the flat code array. */
  method L2Snapshot(index: Index, query: seq<real>, id: nat, dequantize: Dequantize) returns (sum: real)
    requires ValidIndex(index) && id < index.graph.count && |query| == index.dim
    ensures sum == Dist(index, query, dequantize)(id)
  {
    var qoff := id * index.dim;
    RowInside(id, index.graph.count, index.dim);
    var scale, offset := index.scales[id], index.offsets[id];
    ghost var row := RowOf(index, id);
    sum := 0.0;
    for d := 0 to index.dim
      invariant sum == L2(query, row, scale, offset, d, dequantize)
    {
      var decoded := dequantize(scale, offset, index.qdata[qoff + d]);
      var diff := query[d] - decoded;
      sum := sum + diff * diff;
    }
  }

  // ---------- shared heap steps ----------

  ghost predicate SearchHeaps(candidates: MinHeap<Entry>, results: MinHeap<Entry>) {
    candidates != results && candidates.compare == NEAR_FIRST && results.compare == FAR_FIRST
  }

  ghost function HeapsOf(candidates: MinHeap<Entry>, results: MinHeap<Entry>): Heaps
    reads candidates, results
  {
    Heaps(candidates.a, results.a)
  }

  /** The result test and the two pushes, for a node at distance `nd`. */
  method Consider(
    candidates: MinHeap<Entry>, results: MinHeap<Entry>, nd: real, n: nat, ef: nat, ghost dist: nat -> real)
    requires SearchHeaps(candidates, results) && results.a != [] && nd == dist(n)
    modifies candidates, results
    ensures HeapsOf(candidates, results) == Offer(old(HeapsOf(candidates, results)), n, dist, ef)
  {
    hide Pushed;
    hide Popped;
    var currentWorst := results.a[0];
    if |results.a| < ef || nd < currentWorst.dist {
      candidates.Push(Entry(nd, n));
      results.Push(Entry(nd, n));
      if |results.a| > ef {
        var dropped := results.Pop();
      }
    }
  }

  ghost predicate Marks(visited: array<bool>, marked: set<nat>)
    reads visited
  {
    forall i: nat :: (i in marked <==> i < visited.Length && visited[i])
  }

  method FinalIds(results: MinHeap<Entry>, k: nat) returns (ids: seq<nat>)
    ensures ids == Ranked(results.a, k)
  {
    var sorted := StableSort(results.a, NoFarther);
    ids := Ids(sorted[..Min(k, |sorted|)]);
  }

  // ---------- resident search ----------

  /** Upper levels of `snapshotSearch`. */
  method DescendResident(index: Index, query: seq<real>, dequantize: Dequantize) returns (curr: nat)
    requires ValidIndex(index) && |query| == index.dim
    ensures curr == Start(index.graph, Dist(index, query, dequantize))
  {
    hide Dist;
    ghost var g, dist := index.graph, Dist(index, query, dequantize);
    curr := index.graph.entryPoint;
    var currDist := L2Snapshot(index, query, curr, dequantize);
    var level: nat := index.graph.maxLevel;
    while level > 0
      invariant curr < g.count && currDist == dist(curr)
      invariant Descend(g, level, curr, dist) == Start(g, dist)
    {
      curr, currDist := DescendResidentLevel(index, query, dequantize, level, curr, currDist);
      level := level - 1;
    }
  }

  /** One pass over the edges of `start` on a level. */
  method ResidentPass(
    index: Index, query: seq<real>, dequantize: Dequantize, edges: seq<nat>, start: nat, startDist: real)
    returns (curr: nat, currDist: real)
    requires ValidIndex(index) && |query| == index.dim && AllBelow(edges, index.graph.count) && start < index.graph.count
    requires startDist == Dist(index, query, dequantize)(start)
    ensures curr == Scan(edges, start, Dist(index, query, dequantize)) && curr < index.graph.count
    ensures currDist == Dist(index, query, dequantize)(curr)
  {
    hide Dist, ValidIndex;
    ghost var dist := Dist(index, query, dequantize);
    curr, currDist := start, startDist;
    assert edges[0..] == edges;
    for i := 0 to |edges|
      invariant curr < index.graph.count && currDist == dist(curr)
      invariant Scan(edges[i..], curr, dist) == Scan(edges, start, dist)
    {
      var n := edges[i];
      assert edges[i..][0] == n && edges[i..][1..] == edges[i + 1..];
      var d := L2Snapshot(index, query, n, dequantize);
      if d < currDist {
        curr, currDist := n, d;
      }
    }
    assert edges[|edges|..] == [];
  }

  method DescendResidentLevel(
    index: Index, query: seq<real>, dequantize: Dequantize, level: nat, start: nat, startDist: real)
    returns (curr: nat, currDist: real)
    requires ValidIndex(index) && |query| == index.dim && level > 0 && start < index.graph.count
    requires startDist == Dist(index, query, dequantize)(start)
    ensures curr == DescendLevel(index.graph, level, start, Dist(index, query, dequantize))
    ensures currDist == Dist(index, query, dequantize)(curr)
  {
    hide *;
    ghost var g, dist := index.graph, Dist(index, query, dequantize);
    IndexGraph(index);
    curr, currDist := start, startDist;
    var changed := true;
    while changed
      invariant curr < g.count && currDist == dist(curr)
      invariant DescendLevel(g, level, curr, dist) == DescendLevel(g, level, start, dist)
      invariant !changed ==> DescendLevel(g, level, curr, dist) == curr
      decreases NearerThan(g.count, dist, dist(curr)), changed
    {
      UpperInside(g, curr, level);
      DescendLevelStep(g, level, curr, dist);
      var next, nextDist := ResidentPass(index, query, dequantize, UpperEdges(index.graph, curr, level), curr, currDist);
      changed := next != curr;
      if changed { NearerShrinks(g.count, dist, next, curr); }
      curr, currDist := next, nextDist;
    }
  }

  lemma IndexGraph(index: Index)
    requires ValidIndex(index)
    ensures ValidGraph(index.graph) && |index.graph.upper| == index.graph.count
  {
    hide ValidNode;
  }

  lemma UpperInside(g: Graph, id: nat, level: nat)
    requires ValidGraph(g) && id < g.count && level > 0
    ensures id < |g.upper| && AllBelow(UpperEdges(g, id, level), g.count)
  {}

  lemma DescendLevelStep(g: Graph, level: nat, curr: nat, dist: nat -> real)
    requires ValidGraph(g) && level > 0 && curr < g.count
    ensures curr < |g.upper|
    ensures
      var next := Scan(UpperEdges(g, curr, level), curr, dist);
      && next < g.count && (next != curr ==> dist(next) < dist(curr))
      && DescendLevel(g, level, curr, dist) == if next == curr then curr else DescendLevel(g, level, next, dist)
  {
    hide Scan;
    UpperInside(g, curr, level);
  }

  /** `snapshotSearch`. */
  method SnapshotSearch(index: Index, query: seq<real>, k: nat, efSearch: nat, dequantize: Dequantize) returns (ids: seq<nat>)
    requires ValidIndex(index) && |query| == index.dim
    ensures ids == ResidentSearch(index.graph, Dist(index, query, dequantize), k, efSearch)
  {
    hide *;
    IndexGraph(index);
    ghost var dist := Dist(index, query, dequantize);
    var curr := DescendResident(index, query, dequantize);
    var ef := Max(efSearch, k);
    var visited := new bool[index.graph.count](_ => false);
    var candidates := new MinHeap<Entry>(NEAR_FIRST);
    var results := new MinHeap<Entry>(FAR_FIRST);
    var d0 := L2Snapshot(index, query, curr, dequantize);
    candidates.Push(Entry(d0, curr));
    results.Push(Entry(d0, curr));
    visited[curr] := true;
    SinglePush(Entry(d0, curr));
    Seeding(index.graph, curr, dist, candidates, results, visited);
    RunResident(index, query, dequantize, ef, visited, candidates, results, {curr});
    ResidentMeans(index.graph, dist, k, efSearch);
    ids := FinalIds(results, k);
  }

  /** The state both base loops start from. */
  lemma Seeding(
    g: Graph, curr: nat, dist: nat -> real, candidates: MinHeap<Entry>, results: MinHeap<Entry>, visited: array<bool>)
    requires ValidGraph(g) && curr < g.count == visited.Length && candidates != results
    requires candidates.compare == NEAR_FIRST && results.compare == FAR_FIRST
    requires candidates.a == results.a == [Entry(dist(curr), curr)]
    requires forall i :: 0 <= i < visited.Length ==> (visited[i] <==> i == curr)
    ensures SearchHeaps(candidates, results) && HeapsOf(candidates, results) == Seeded(curr, dist)
    ensures Marks(visited, {curr}) && Ready(g, Seeded(curr, dist), {curr})
  {
    SeededReady(g, curr, dist);
  }

  lemma ResidentMeans(g: Graph, dist: nat -> real, k: nat, efSearch: nat)
    requires ValidGraph(g)
    ensures
      var start := Start(g, dist);
      && Ready(g, Seeded(start, dist), {start})
      && ResidentSearch(g, dist, k, efSearch) == Ranked(ResidentLoop(g, dist, Max(efSearch, k), Seeded(start, dist), {start}), k)
  {
    SeededReady(g, Start(g, dist), dist);
  }

  lemma SinglePush(e: Entry)
    ensures Pushed([], e, NEAR_FIRST) == [e] && Pushed([], e, FAR_FIRST) == [e]
  {
  }

  method RunResident(
    index: Index, query: seq<real>, dequantize: Dequantize, ef: nat, visited: array<bool>,
    candidates: MinHeap<Entry>, results: MinHeap<Entry>, ghost marked0: set<nat>)
    requires ValidIndex(index) && |query| == index.dim && visited.Length == index.graph.count
    requires SearchHeaps(candidates, results) && Marks(visited, marked0)
    requires Ready(index.graph, HeapsOf(candidates, results), marked0)
    modifies visited, candidates, results
    ensures results.a == ResidentLoop(index.graph, Dist(index, query, dequantize), ef, old(HeapsOf(candidates, results)), marked0)
  {
    hide Dist;
    hide Pushed;
    hide Popped;
    ghost var g, dist, marked := index.graph, Dist(index, query, dequantize), marked0;
    ghost var answer := ResidentLoop(g, dist, ef, HeapsOf(candidates, results), marked0);
    while |candidates.a| > 0
      invariant SearchHeaps(candidates, results) && Marks(visited, marked)
      invariant Ready(g, HeapsOf(candidates, results), marked)
      invariant ResidentLoop(g, dist, ef, HeapsOf(candidates, results), marked) == answer
      decreases g.count - |marked|, |candidates.a|
    {
      ghost var h := HeapsOf(candidates, results);
      var popped := candidates.Pop();
      var top := popped.value;
      var worst := results.a[0];
      if |results.a| >= ef && top.dist > worst.dist {
        return;
      }
      SingleRound(g, dist, ef, h, marked);
      RoundProgress(g, dist, ef, 1, h, marked);
      BoundedSize(marked, g.count);
      ghost var marked' := Round(g, dist, ef, 1, h, marked).1;
      ExpandResident(index, query, dequantize, ef, top.id, visited, candidates, results, marked);
      marked := marked';
    }
  }

  method ExpandResident(
    index: Index, query: seq<real>, dequantize: Dequantize, ef: nat, id: nat, visited: array<bool>,
    candidates: MinHeap<Entry>, results: MinHeap<Entry>, ghost marked0: set<nat>)
    requires ValidIndex(index) && |query| == index.dim && visited.Length == index.graph.count && id < index.graph.count
    requires SearchHeaps(candidates, results) && Marks(visited, marked0) && results.a != []
    modifies visited, candidates, results
    ensures
      var r := Expand(old(HeapsOf(candidates, results)), marked0, index.graph.base[id], Dist(index, query, dequantize), ef);
      HeapsOf(candidates, results) == r.0 && Marks(visited, r.1)
  {
    hide Dist;
    hide Offer;
    ghost var g, dist, marked := index.graph, Dist(index, query, dequantize), marked0;
    var edges := index.graph.base[id];
    ghost var answer := Expand(HeapsOf(candidates, results), marked0, edges, dist, ef);
    assert edges[0..] == edges;
    for i := 0 to |edges|
      invariant Marks(visited, marked) && results.a != []
      invariant Expand(HeapsOf(candidates, results), marked, edges[i..], dist, ef) == answer
    {
      var n := edges[i];
      assert edges[i..][0] == n && edges[i..][1..] == edges[i + 1..];
      if visited[n] { continue; }
      visited[n] := true;
      marked := marked + {n};
      var nd := L2Snapshot(index, query, n, dequantize);
      Consider(candidates, results, nd, n, ef, dist);
    }
    assert edges[|edges|..] == [];
  }

  // ---------- lazy search ----------

  datatype Options = Options(
    gap: nat, pageSize: nat, lookahead: nat, sameRoundLookahead: bool, expansionBatch: nat)

  const OPERATIONAL_EXPANSION_BATCH: nat := 8

  /** `Math.max(1, options.expansionBatch || 8)`: zero means the default. */
  function BatchSize(o: Options): (r: nat)
    ensures r > 0
    ensures r == 8 <==> o.expansionBatch == 0 || o.expansionBatch == 8
    ensures o.expansionBatch > 0 ==> r == o.expansionBatch
  {
    if o.expansionBatch == 0 then OPERATIONAL_EXPANSION_BATCH else o.expansionBatch
  }

  ghost predicate PagesInside(custom: PageLayout?, count: nat)
    reads custom
  {
    custom != null ==>
      forall p, k :: 0 <= p < |custom.pages| && 0 <= k < |custom.pages[p]| ==> custom.pages[p][k] < count
  }

  ghost predicate Working(artifact: RangeArtifact, custom: PageLayout?)
    reads artifact, custom
  {
    artifact.Valid() && (custom != null ==> custom.Valid()) && PagesInside(custom, artifact.count)
  }

  /** The one way a prefetch can throw: page mode on a version 2 artifact, whose map entries are not ordinals. */
  ghost predicate MayThrow(artifact: RangeArtifact, custom: PageLayout?, o: Options) {
    custom == null && o.pageSize > 0 && artifact.version == 2
  }

  /** Some upper-level node is not cached. Opening a version 2 file caches them all, and only `clearCache` drops any. */
  ghost predicate RouterMissing(index: Index, cached: set<nat>) {
    exists id: nat :: id < index.graph.count && id < |index.levels| && index.levels[id] > 0 && id !in cached
  }

  lemma MissingBefore(index: Index, before: set<nat>, after: set<nat>)
    requires before <= after && RouterMissing(index, after)
    ensures RouterMissing(index, before)
  {
    var id: nat :| id < index.graph.count && id < |index.levels| && index.levels[id] > 0 && id !in after;
    assert id !in before;
  }

  lemma AskedIsMissing(artifact: RangeArtifact, ids: seq<nat>, cached: set<nat>)
    requires artifact.Opened() && AllBelow(ids, artifact.count) && artifact.RouterAsked(ids, cached)
    ensures RouterMissing(artifact.index, cached)
  {
    hide IsArtifact, RecordBytes;
    var id :| id in ids && id !in cached && id < |artifact.index.levels| && artifact.index.levels[id] > 0;
    var k :| 0 <= k < |ids| && ids[k] == id;
  }

  /** One prefetch, in whichever mode: what is cached afterwards, and exactly when it throws. */
  method PrefetchRound(artifact: RangeArtifact, custom: PageLayout?, o: Options, ids: seq<nat>) returns (r: Result<nat>)
    requires Working(artifact, custom) && AllBelow(ids, artifact.count)
    modifies artifact, if custom != null then {custom} else {}
    ensures Working(artifact, custom)
    ensures r.Failure? <==> MayThrow(artifact, custom, o) && artifact.RouterAsked(ids, old(artifact.cache.Keys))
    ensures r.Failure? ==> artifact.State() == old(artifact.State())
    ensures old(artifact.cache.Keys) <= artifact.cache.Keys
    ensures custom == null && o.pageSize == 0 ==> forall id :: id in ids ==> id in artifact.cache
    ensures custom == null && o.pageSize > 0 && artifact.version == 1 ==> forall id :: id in ids ==>
      (id in artifact.cache <==>
        id in old(artifact.cache) || artifact.PageOf(id, artifact.RecordsPerPage(o.pageSize)) !in old(artifact.pageCache))
    ensures custom != null ==> custom.pages == old(custom.pages)
    ensures custom != null && artifact.ByteGapInSlots(o.gap) == 0 ==> forall id :: id in ids ==>
      (id in artifact.cache <==>
        id in old(artifact.cache) || artifact.OffMarkedPages(custom, old(custom.pageCache), id))
  {
    hide IsNode, IsArtifact, RecordBytes, AfterPages, AfterRuns, AfterCustomPages, RunsIds;
    assert ids == [] ==> !artifact.RouterAsked(ids, artifact.cache.Keys);
    if |ids| == 0 { return Success(0); }
    var requests: nat := 0;
    if custom != null {
      ghost var pageIds, residual, slots;
      requests, pageIds, residual, slots := artifact.PrefetchCustomPages(ids, custom, o.gap);
    } else if o.pageSize > 0 {
      ghost var pages;
      r, pages := artifact.PrefetchPages(ids, o.pageSize);
      return;
    } else {
      ghost var slots;
      requests, slots := artifact.Prefetch(ids, o.gap);
    }
    r := Success(requests);
  }

  /** Reading a node through the artifact gives its distance and edges in the exported index. */
  method ReadScored(artifact: RangeArtifact, query: seq<real>, dequantize: Dequantize, id: nat) returns (node: Node, d: real)
    requires artifact.Valid() && id < artifact.count && |query| == artifact.index.dim
    modifies artifact
    ensures artifact.Valid() && IsNode(artifact.index, id, node) && old(artifact.cache.Keys) <= artifact.cache.Keys
    ensures d == Dist(artifact.index, query, dequantize)(id)
  {
    hide IsArtifact;
    node := artifact.ReadNode(id);
    assert |node.qdata| == |query|;
    d := L2Node(query, node, dequantize);
  }

  lemma NodeEdges(index: Index, id: nat, node: Node)
    requires IsNode(index, id, node)
    ensures id < index.graph.count && ValidGraph(index.graph) && node.base == index.graph.base[id]
    ensures AllBelow(node.base, index.graph.count)
    ensures |node.upper| == index.graph.maxLevel
    ensures forall l :: 0 <= l < |node.upper| ==> node.upper[l] == UpperEdges(index.graph, id, l + 1)
    ensures forall l :: 0 <= l < |node.upper| ==> AllBelow(node.upper[l], index.graph.count)
  {
  }

  /** Not seen and not cached. */
  ghost predicate Unread(cache: map<nat, Node>, visited: seq<bool>, n: nat) {
    n < |visited| && !visited[n] && n !in cache
  }

  ghost function CachedBefore(cache: map<nat, Node>, sorted: seq<Entry>, c: nat): set<nat> {
    set j: nat | j in Below(c) && j < |sorted| && sorted[j].id in cache
  }

  /** Candidate c is looked at: cached, within the worst result, and with fewer than `lookahead` cached ones before it. */
  ghost predicate LookedAt(
    cache: map<nat, Node>, sorted: seq<Entry>, results: seq<Entry>, ef: nat, lookahead: nat, c: nat)
    requires c < |sorted| && results != []
  {
    && sorted[c].id in cache && (|results| < ef || sorted[c].dist <= results[0].dist)
    && |CachedBefore(cache, sorted, c)| < lookahead
  }

  /** A base neighbour of one of the first c candidates looked at. */
  ghost predicate Beside(
    cache: map<nat, Node>, sorted: seq<Entry>, results: seq<Entry>, ef: nat, lookahead: nat, c: nat, n: nat)
    requires c <= |sorted| && results != []
  {
    exists j :: 0 <= j < c && LookedAt(cache, sorted, results, ef, lookahead, j) && n in cache[sorted[j].id].base
  }

  ghost predicate NearestFirst(sorted: seq<Entry>) {
    forall i, j :: 0 <= i < j < |sorted| ==> sorted[i].dist <= sorted[j].dist
  }

  lemma CachedBeforeNext(cache: map<nat, Node>, sorted: seq<Entry>, c: nat)
    requires c < |sorted|
    ensures |CachedBefore(cache, sorted, c + 1)| == |CachedBefore(cache, sorted, c)| + if sorted[c].id in cache then 1 else 0
  {
    var before, after := CachedBefore(cache, sorted, c), CachedBefore(cache, sorted, c + 1);
    assert c !in before;
    if sorted[c].id in cache {
      assert after == before + {c};
    } else {
      assert after == before;
    }
  }

  lemma BesideNext(
    cache: map<nat, Node>, sorted: seq<Entry>, results: seq<Entry>, ef: nat, lookahead: nat, c: nat, n: nat)
    requires c < |sorted| && results != []
    ensures Beside(cache, sorted, results, ef, lookahead, c + 1, n)
      <==> Beside(cache, sorted, results, ef, lookahead, c, n)
           || (LookedAt(cache, sorted, results, ef, lookahead, c) && n in cache[sorted[c].id].base)
  {
    hide LookedAt;
  }

  /** Once the look-ahead is used up, or a candidate is beyond the worst result, no later one is looked at. */
  lemma NoneBeside(cache: map<nat, Node>, sorted: seq<Entry>, results: seq<Entry>, ef: nat, lookahead: nat, c: nat)
    requires c < |sorted| && results != [] && NearestFirst(sorted)
    requires |CachedBefore(cache, sorted, c)| >= lookahead || (|results| >= ef && sorted[c].dist > results[0].dist)
    ensures forall n ::
      Beside(cache, sorted, results, ef, lookahead, |sorted|, n) <==> Beside(cache, sorted, results, ef, lookahead, c, n)
  {
    forall j | c <= j < |sorted| ensures !LookedAt(cache, sorted, results, ef, lookahead, j) {
      assert CachedBefore(cache, sorted, c) <= CachedBefore(cache, sorted, j);
      SubsetSize(CachedBefore(cache, sorted, c), CachedBefore(cache, sorted, j));
    }
    hide LookedAt, NearestFirst;
  }

  /** What `Speculate` has named once c candidates are behind it. */
  ghost predicate Speculated(
    cache: map<nat, Node>, visited: seq<bool>, sorted: seq<Entry>, results: seq<Entry>, ef: nat, lookahead: nat, avoid: set<nat>,
    c: nat, speculative: seq<nat>)
    requires c <= |sorted| && results != []
  {
    && Distinct(speculative)
    && forall n :: n in speculative
         <==> n !in avoid && Unread(cache, visited, n) && Beside(cache, sorted, results, ef, lookahead, c, n)
  }

  lemma SpeculatedNext(
    cache: map<nat, Node>, visited: seq<bool>, sorted: seq<Entry>, results: seq<Entry>, ef: nat, lookahead: nat, avoid: set<nat>,
    c: nat, speculative: seq<nat>, added: seq<nat>)
    requires c < |sorted| && results != [] && Speculated(cache, visited, sorted, results, ef, lookahead, avoid, c, speculative)
    requires Distinct(added)
    requires forall n :: n in added <==>
      && n !in avoid + Elements(speculative) && Unread(cache, visited, n)
      && LookedAt(cache, sorted, results, ef, lookahead, c) && n in cache[sorted[c].id].base
    ensures Speculated(cache, visited, sorted, results, ef, lookahead, avoid, c + 1, speculative + added)
  {
    hide LookedAt, Unread, Beside;
    DistinctJoin(speculative, added);
    forall n
      ensures n in speculative + added
        <==> n !in avoid && Unread(cache, visited, n) && Beside(cache, sorted, results, ef, lookahead, c + 1, n)
    {
      BesideNext(cache, sorted, results, ef, lookahead, c, n);
    }
  }

  lemma DistinctJoin(a: seq<nat>, b: seq<nat>)
    requires Distinct(a) && Distinct(b) && forall n :: n in b ==> n !in a
    ensures Distinct(a + b)
  {
    assert forall j :: 0 <= j < |b| ==> b[j] in b && (a + b)[|a| + j] == b[j];
    forall i, j | 0 <= i < j < |a + b| ensures (a + b)[i] != (a + b)[j] {
      if i < |a| <= j { assert (a + b)[j] == b[j - |a|] && b[j - |a|] in b && a[i] in a; }
      if |a| <= i { assert (a + b)[i] == b[i - |a|] && (a + b)[j] == b[j - |a|]; }
    }
  }

  /** The unread nodes of an edge list, each once, leaving out those seen. */
  method AddUnread(artifact: RangeArtifact, edges: seq<nat>, visited: array<bool>, seen: set<nat>) returns (added: seq<nat>)
    requires AllBelow(edges, visited.Length)
    ensures Distinct(added)
    ensures forall n :: n in added <==> n !in seen && Unread(artifact.cache, visited[..], n) && n in edges
  {
    added := [];
    var seenSpeculative := seen;
    for i := 0 to |edges|
      invariant Distinct(added) && seenSpeculative == seen + Elements(added)
      invariant forall n :: n in added <==> n !in seen && Unread(artifact.cache, visited[..], n) && n in edges[..i]
    {
      var n := edges[i];
      assert edges[..i + 1] == edges[..i] + [n];
      if !visited[n] && n !in artifact.cache && n !in seenSpeculative {
        seenSpeculative := seenSpeculative + {n};
        added := added + [n];
      }
    }
    assert edges[..|edges|] == edges;
  }

  /** The candidates nearest first. */
  method SortedCandidates(candidates: MinHeap<Entry>) returns (sorted: seq<Entry>)
    requires candidates.compare == NEAR_FIRST
    ensures NearestFirst(sorted) && multiset(sorted) == multiset(candidates.a)
  {
    HeapOrderings();
    sorted := candidates.Sorted();
    forall i, j | 0 <= i < j < |sorted| ensures sorted[i].dist <= sorted[j].dist {
      assert candidates.compare(sorted[i], sorted[j]) <= 0.0;
    }
  }

  /** Exactly the unread neighbours of the first `lookahead` cached candidates within the worst result, each once. */
  method Speculate(
    artifact: RangeArtifact, candidates: MinHeap<Entry>, results: MinHeap<Entry>, visited: array<bool>,
    ef: nat, lookahead: nat, avoid: set<nat>)
    returns (speculative: seq<nat>, ghost sorted: seq<Entry>)
    requires artifact.Valid() && visited.Length == artifact.count && results.a != [] && candidates.compare == NEAR_FIRST
    ensures AllBelow(speculative, artifact.count) && Distinct(speculative)
    ensures NearestFirst(sorted) && multiset(sorted) == multiset(candidates.a)
    ensures forall n :: n in speculative <==>
      && n !in avoid && Unread(artifact.cache, visited[..], n)
      && Beside(artifact.cache, sorted, results.a, ef, lookahead, |sorted|, n)
  {
    hide IsNode, IsArtifact, RecordBytes, Unread, Beside, LookedAt, CachedBefore, NearestFirst, Distinct;
    speculative := [];
    var worstAfter := results.a[0];
    var considered: nat := 0;
    var byDistance := SortedCandidates(candidates);
    sorted := byDistance;
    NothingSpeculated(artifact.cache, visited[..], sorted, results.a, ef, lookahead, avoid);
    for c := 0 to |byDistance|
      invariant considered == |CachedBefore(artifact.cache, sorted, c)|
      invariant Speculated(artifact.cache, visited[..], sorted, results.a, ef, lookahead, avoid, c, speculative)
    {
      var e := byDistance[c];
      if considered >= lookahead || (|results.a| >= ef && e.dist > worstAfter.dist) {
        NoneBeside(artifact.cache, sorted, results.a, ef, lookahead, c);
        UnreadBelow(artifact, visited, speculative);
        return;
      }
      CachedBeforeNext(artifact.cache, sorted, c);
      CandidateLooked(artifact.cache, sorted, results.a, ef, lookahead, c);
      var added := [];
      if e.id in artifact.cache {
        var node := artifact.cache[e.id];
        NodeEdges(artifact.index, e.id, node);
        added := AddUnread(artifact, node.base, visited, avoid + Elements(speculative));
        considered := considered + 1;
      } else {
        NothingDistinct();
      }
      SpeculatedNext(artifact.cache, visited[..], sorted, results.a, ef, lookahead, avoid, c, speculative, added);
      speculative := speculative + added;
    }
    UnreadBelow(artifact, visited, speculative);
  }

  lemma NothingDistinct()
    ensures Distinct<nat>([])
  {}

  lemma NothingSpeculated(
    cache: map<nat, Node>, visited: seq<bool>, sorted: seq<Entry>, results: seq<Entry>, ef: nat, lookahead: nat, avoid: set<nat>)
    requires results != []
    ensures Speculated(cache, visited, sorted, results, ef, lookahead, avoid, 0, []) && |CachedBefore(cache, sorted, 0)| == 0
  {}

  lemma CandidateLooked(cache: map<nat, Node>, sorted: seq<Entry>, results: seq<Entry>, ef: nat, lookahead: nat, c: nat)
    requires c < |sorted| && results != []
    requires |CachedBefore(cache, sorted, c)| < lookahead && (|results| < ef || sorted[c].dist <= results[0].dist)
    ensures LookedAt(cache, sorted, results, ef, lookahead, c) <==> sorted[c].id in cache
  {}

  lemma UnreadBelow(artifact: RangeArtifact, visited: array<bool>, ns: seq<nat>)
    requires visited.Length == artifact.count && forall n :: n in ns ==> Unread(artifact.cache, visited[..], n)
    ensures AllBelow(ns, artifact.count)
  {
    forall k | 0 <= k < |ns| ensures ns[k] < artifact.count { assert ns[k] in ns; }
  }

  /** One pass of the upper-level loop: prefetch the edges of `start`, then move to each strictly nearer one. */
  method LazyPass(
    artifact: RangeArtifact, custom: PageLayout?, o: Options, query: seq<real>, dequantize: Dequantize,
    edges: seq<nat>, start: nat, startNode: Node, startDist: real)
    returns (r: Result<nat>, currNode: Node, currDist: real)
    requires Working(artifact, custom) && |query| == artifact.index.dim && AllBelow(edges, artifact.count)
    requires IsNode(artifact.index, start, startNode)
    requires startDist == Dist(artifact.index, query, dequantize)(start)
    modifies artifact, if custom != null then {custom} else {}
    ensures Working(artifact, custom)
    ensures old(artifact.cache.Keys) <= artifact.cache.Keys
    ensures r.Failure? ==> MayThrow(artifact, custom, o) && RouterMissing(artifact.index, old(artifact.cache.Keys))
    ensures r.Success? ==> r.value == Scan(edges, start, Dist(artifact.index, query, dequantize))
    ensures r.Success? ==> IsNode(artifact.index, r.value, currNode)
    ensures r.Success? ==> currDist == Dist(artifact.index, query, dequantize)(r.value)
  {
    hide Dist;
    hide IsNode;
    hide IsArtifact;
    hide RecordBytes;
    ghost var dist := Dist(artifact.index, query, dequantize);
    var curr: nat := start;
    currNode, currDist := startNode, startDist;
    var fetched := PrefetchRound(artifact, custom, o, edges);
    if fetched.Failure? {
      AskedIsMissing(artifact, edges, old(artifact.cache.Keys));
      return Failure(fetched.error), currNode, currDist;
    }
    assert edges[0..] == edges;
    for i := 0 to |edges|
      invariant Working(artifact, custom) && IsNode(artifact.index, curr, currNode) && currDist == dist(curr)
      invariant old(artifact.cache.Keys) <= artifact.cache.Keys
      invariant Scan(edges[i..], curr, dist) == Scan(edges, start, dist)
    {
      var n := edges[i];
      assert edges[i..][0] == n && edges[i..][1..] == edges[i + 1..];
      var node, d := ReadScored(artifact, query, dequantize, n);
      if d < currDist {
        curr, currNode, currDist := n, node, d;
      }
    }
    assert edges[|edges|..] == [];
    r := Success(curr);
  }

  /** Upper levels of `lazySearch`. */
  method DescendLazyLevel(
    artifact: RangeArtifact, custom: PageLayout?, o: Options, query: seq<real>, dequantize: Dequantize,
    level: nat, start: nat, startNode: Node, startDist: real)
    returns (r: Result<nat>, currNode: Node, currDist: real)
    requires Working(artifact, custom) && |query| == artifact.index.dim
    requires 0 < level <= artifact.index.graph.maxLevel && IsNode(artifact.index, start, startNode)
    requires startDist == Dist(artifact.index, query, dequantize)(start)
    modifies artifact, if custom != null then {custom} else {}
    ensures Working(artifact, custom)
    ensures old(artifact.cache.Keys) <= artifact.cache.Keys
    ensures r.Failure? ==> MayThrow(artifact, custom, o) && RouterMissing(artifact.index, old(artifact.cache.Keys))
    ensures ValidGraph(artifact.index.graph) && start < artifact.index.graph.count
    ensures r.Success? ==> r.value == DescendLevel(artifact.index.graph, level, start, Dist(artifact.index, query, dequantize))
    ensures r.Success? ==> IsNode(artifact.index, r.value, currNode)
    ensures r.Success? ==> currDist == Dist(artifact.index, query, dequantize)(r.value)
  {
    hide Dist;
    hide IsNode;
    hide IsArtifact;
    hide RecordBytes;
    hide Scan;
    NodeEdges(artifact.index, start, startNode);
    ghost var g, dist := artifact.index.graph, Dist(artifact.index, query, dequantize);
    var curr: nat := start;
    currNode, currDist := startNode, startDist;
    var changed := true;
    while changed
      invariant Working(artifact, custom) && IsNode(artifact.index, curr, currNode)
      invariant old(artifact.cache.Keys) <= artifact.cache.Keys
      invariant curr < g.count && currDist == dist(curr)
      invariant DescendLevel(g, level, curr, dist) == DescendLevel(g, level, start, dist)
      invariant !changed ==> DescendLevel(g, level, curr, dist) == curr
      decreases NearerThan(g.count, dist, dist(curr)), changed
    {
      NodeEdges(artifact.index, curr, currNode);
      ghost var before := artifact.cache.Keys;
      var next;
      next, currNode, currDist :=
        LazyPass(artifact, custom, o, query, dequantize, currNode.upper[level - 1], curr, currNode, currDist);
      if next.Failure? {
        MissingBefore(artifact.index, old(artifact.cache.Keys), before);
        return Failure(next.error), currNode, currDist;
      }
      changed := next.value != curr;
      if changed { NearerShrinks(g.count, dist, next.value, curr); }
      curr := next.value;
    }
    r := Success(curr);
  }

  lemma DescendStep(g: Graph, level: nat, curr: nat, dist: nat -> real)
    requires ValidGraph(g) && curr < g.count
    ensures Descend(g, level, curr, dist)
         == if level == 0 then curr else Descend(g, level - 1, DescendLevel(g, level, curr, dist), dist)
  {
  }

  ghost predicate EntryIn(index: Index) {
    index.graph.entryPoint < index.graph.count && index.graph.entryPoint < |index.levels|
  }

  /** The search starts above the base level, at a node that is not cached. */
  ghost predicate EntryMissing(index: Index, cached: set<nat>)
    requires EntryIn(index)
  {
    index.levels[index.graph.entryPoint] > 0 && index.graph.entryPoint !in cached
  }

  /** Fetch and score the entry point. */
  method ReadEntry(artifact: RangeArtifact, custom: PageLayout?, o: Options, query: seq<real>, dequantize: Dequantize)
    returns (r: Result<nat>, node: Node, d: real)
    requires Working(artifact, custom) && |query| == artifact.index.dim
    modifies artifact, if custom != null then {custom} else {}
    ensures Working(artifact, custom)
    ensures old(artifact.cache.Keys) <= artifact.cache.Keys
    ensures EntryIn(artifact.index)
    ensures r.Failure? <==> MayThrow(artifact, custom, o) && EntryMissing(artifact.index, old(artifact.cache.Keys))
    ensures r.Success? ==> r.value == artifact.index.graph.entryPoint && IsNode(artifact.index, r.value, node)
    ensures r.Success? ==> d == Dist(artifact.index, query, dequantize)(r.value)
  {
    hide Dist;
    hide IsNode;
    hide RecordBytes;
    artifact.Known();
    hide IsArtifact;
    var curr: nat := artifact.entryPoint;
    r := PrefetchRound(artifact, custom, o, [curr]);
    assert [curr][0] == curr;
    if r.Failure? {
      node, d := Node(0, 0, [], [], [], 0, 0), 0.0;
      return;
    }
    node, d := ReadScored(artifact, query, dequantize, curr);
    r := Success(curr);
  }

  method DescendLazy(artifact: RangeArtifact, custom: PageLayout?, o: Options, query: seq<real>, dequantize: Dequantize)
    returns (r: Result<nat>)
    requires Working(artifact, custom) && |query| == artifact.index.dim && ValidGraph(artifact.index.graph)
    modifies artifact, if custom != null then {custom} else {}
    ensures Working(artifact, custom)
    ensures old(artifact.cache.Keys) <= artifact.cache.Keys
    ensures r.Failure? ==> MayThrow(artifact, custom, o) && RouterMissing(artifact.index, old(artifact.cache.Keys))
    ensures EntryIn(artifact.index)
    ensures MayThrow(artifact, custom, o) && EntryMissing(artifact.index, old(artifact.cache.Keys)) ==> r.Failure?
    ensures r.Success? ==> r.value == Start(artifact.index.graph, Dist(artifact.index, query, dequantize))
  {
    hide Dist;
    hide IsNode;
    hide RecordBytes;
    hide IsArtifact;
    hide Descend;
    hide DescendLevel;
    ghost var g, dist := artifact.index.graph, Dist(artifact.index, query, dequantize);
    var currNode, currDist;
    r, currNode, currDist := ReadEntry(artifact, custom, o, query, dequantize);
    if r.Failure? { return; }
    var level: nat := artifact.maxLevel;
    while level > 0
      invariant Working(artifact, custom) && r.Success? && level <= g.maxLevel
      invariant old(artifact.cache.Keys) <= artifact.cache.Keys
      invariant IsNode(artifact.index, r.value, currNode) && r.value < g.count && currDist == dist(r.value)
      invariant Descend(g, level, r.value, dist) == Start(g, dist)
    {
      DescendStep(g, level, r.value, dist);
      ghost var before := artifact.cache.Keys;
      r, currNode, currDist := DescendLazyLevel(artifact, custom, o, query, dequantize, level, r.value, currNode, currDist);
      if r.Failure? {
        MissingBefore(artifact.index, old(artifact.cache.Keys), before);
        return;
      }
      level := level - 1;
    }
    DescendStep(g, 0, r.value, dist);
  }

  lemma TakeBatchStep(cands: seq<Entry>, results: seq<Entry>, ef: nat, size: nat, taken: seq<Entry>)
    requires results != []
    ensures size == 0 || cands == [] || Beyond(cands, results, ef) ==> TakeBatch(cands, results, ef, size) == ([], cands)
    ensures size > 0 && cands != [] && !Beyond(cands, results, ef) ==>
      var t, rest := TakeBatch(cands, results, ef, size), TakeBatch(Popped(cands, NEAR_FIRST), results, ef, size - 1);
      taken + t.0 == taken + [cands[0]] + rest.0 && t.1 == rest.1
  {
  }

  /** Pop candidates until the batch is full or the nearest is beyond the worst result. */
  method FillBatch(candidates: MinHeap<Entry>, results: MinHeap<Entry>, ef: nat, size: nat) returns (batch: seq<Entry>)
    requires SearchHeaps(candidates, results) && results.a != []
    modifies candidates
    ensures (batch, candidates.a) == TakeBatch(old(candidates.a), results.a, ef, size)
  {
    hide Popped;
    hide TakeBatch;
    batch := [];
    ghost var answer := TakeBatch(candidates.a, results.a, ef, size);
    assert [] + answer.0 == answer.0;
    while |batch| < size && |candidates.a| > 0
      invariant |batch| <= size
      invariant answer.0 == batch + TakeBatch(candidates.a, results.a, ef, size - |batch|).0
      invariant answer.1 == TakeBatch(candidates.a, results.a, ef, size - |batch|).1
      decreases size - |batch|
    {
      TakeBatchStep(candidates.a, results.a, ef, size - |batch|, batch);
      var next := candidates.a[0];
      var worst := results.a[0];
      if |results.a| >= ef && next.dist > worst.dist { break; }
      var popped := candidates.Pop();
      batch := batch + [popped.value];
    }
    TakeBatchStep(candidates.a, results.a, ef, size - |batch|, batch);
    assert batch + [] == batch;
  }

  lemma {:induction false} GatherAppend(a: seq<nat>, b: seq<nat>, marked: set<nat>)
    ensures
      var first := Gather(a, marked);
      var second := Gather(b, first.1);
      Gather(a + b, marked) == (first.0 + second.0, second.1)
    decreases |a|
  {
    if a == [] {
      assert a + b == b;
      assert [] + Gather(b, marked).0 == Gather(b, marked).0;
    } else {
      var n, rest := a[0], a[1..];
      assert (a + b)[0] == n && (a + b)[1..] == rest + b;
      GatherAppend(rest, b, marked);
      GatherAppend(rest, b, marked + {n});
      var first := Gather(rest, marked + {n});
      assert [n] + (first.0 + Gather(b, first.1).0) == ([n] + first.0) + Gather(b, first.1).0;
    }
  }

  /** Mark the unvisited among `edges`, in order of meeting. */
  method MarkEdges(edges: seq<nat>, visited: array<bool>, ghost marked0: set<nat>)
    returns (added: seq<nat>, ghost marked: set<nat>)
    requires AllBelow(edges, visited.Length) && Marks(visited, marked0)
    modifies visited
    ensures Marks(visited, marked) && (added, marked) == Gather(edges, marked0)
  {
    hide Gather, AllBelow;
    added, marked := [], marked0;
    GatherNothing(marked0);
    assert edges[..0] == [];
    for e := 0 to |edges|
      invariant Marks(visited, marked) && (added, marked) == Gather(edges[..e], marked0)
    {
      var n := edges[e];
      EdgeInside(edges, visited.Length, e);
      GatherOneMore(edges, e, marked0);
      if !visited[n] {
        visited[n] := true;
        marked := marked + {n};
        added := added + [n];
      }
    }
    assert edges[..|edges|] == edges;
  }

  lemma EdgeInside(edges: seq<nat>, count: nat, e: nat)
    requires AllBelow(edges, count) && e < |edges|
    ensures edges[e] < count
  {}

  lemma GatherOneMore(edges: seq<nat>, e: nat, marked: set<nat>)
    requires e < |edges|
    ensures
      var sofar, n := Gather(edges[..e], marked), edges[e];
      Gather(edges[..e + 1], marked) == if n in sofar.1 then sofar else (sofar.0 + [n], sofar.1 + {n})
  {
    var n, sofar := edges[e], Gather(edges[..e], marked);
    GatherAppend(edges[..e], [n], marked);
    assert edges[..e + 1] == edges[..e] + [n] && [n][1..] == [];
    assert Gather([n], sofar.1) == if n in sofar.1 then ([], sofar.1) else ([n] + [], sofar.1 + {n});
    hide Gather;
    assert sofar.0 + [] == sofar.0 && [n] + [] == [n];
  }

  /** A node read for its base edges. */
  method ReadBase(artifact: RangeArtifact, custom: PageLayout?, id: nat) returns (node: Node)
    requires Working(artifact, custom) && id < artifact.count
    modifies artifact
    ensures Working(artifact, custom) && old(artifact.cache.Keys) <= artifact.cache.Keys
    ensures id < artifact.index.graph.count && ValidGraph(artifact.index.graph) && node.base == artifact.index.graph.base[id]
    ensures AllBelow(node.base, artifact.index.graph.count)
  {
    hide IsNode, IsArtifact, RecordBytes, AfterRequest, SlotOf;
    node := artifact.ReadNode(id);
    NodeEdges(artifact.index, id, node);
  }

  /** Mark the unvisited base neighbours of the batch, in order of meeting. */
  method MarkNeighbours(
    artifact: RangeArtifact, custom: PageLayout?, batch: seq<Entry>, visited: array<bool>, ghost marked0: set<nat>)
    returns (toVisit: seq<nat>, ghost marked: set<nat>)
    requires Working(artifact, custom) && visited.Length == artifact.count && Marks(visited, marked0)
    requires ValidGraph(artifact.index.graph) && InGraph(artifact.index.graph, batch)
    modifies artifact, visited
    ensures Working(artifact, custom) && Marks(visited, marked) && old(artifact.cache.Keys) <= artifact.cache.Keys
    ensures (toVisit, marked) == Gather(EdgesOf(artifact.index.graph, batch), marked0)
  {
    hide IsNode, IsArtifact, RecordBytes, Gather, Marks, ValidGraph;
    ghost var g := artifact.index.graph;
    ghost var seen: seq<nat> := [];
    toVisit, marked := [], marked0;
    assert batch[0..] == batch && [] + EdgesOf(g, batch) == EdgesOf(g, batch);
    GatherNothing(marked0);
    for b := 0 to |batch|
      invariant Working(artifact, custom) && Marks(visited, marked) && old(artifact.cache.Keys) <= artifact.cache.Keys
      invariant EdgesOf(g, batch) == seen + EdgesOf(g, batch[b..])
      invariant (toVisit, marked) == Gather(seen, marked0)
    {
      var node := ReadBase(artifact, custom, batch[b].id);
      assert batch[b..][0] == batch[b] && batch[b..][1..] == batch[b + 1..];
      assert seen + (node.base + EdgesOf(g, batch[b + 1..])) == (seen + node.base) + EdgesOf(g, batch[b + 1..]);
      GatherAppend(seen, node.base, marked0);
      var added;
      added, marked := MarkEdges(node.base, visited, marked);
      toVisit := toVisit + added;
      seen := seen + node.base;
    }
    assert batch[|batch|..] == [] && seen + [] == seen;
  }

  lemma GatherNothing(marked: set<nat>)
    ensures Gather([], marked) == ([], marked)
  {
  }

  method ScoreAll(
    artifact: RangeArtifact, custom: PageLayout?, query: seq<real>, dequantize: Dequantize, ef: nat,
    candidates: MinHeap<Entry>, results: MinHeap<Entry>, toVisit: seq<nat>)
    requires Working(artifact, custom) && |query| == artifact.index.dim && AllBelow(toVisit, artifact.count)
    requires SearchHeaps(candidates, results) && results.a != []
    modifies artifact, candidates, results
    ensures Working(artifact, custom) && old(artifact.cache.Keys) <= artifact.cache.Keys
    ensures HeapsOf(candidates, results)
         == OfferAll(old(HeapsOf(candidates, results)), toVisit, Dist(artifact.index, query, dequantize), ef)
  {
    hide Dist;
    hide IsNode;
    hide IsArtifact;
    hide RecordBytes;
    hide Offer;
    ghost var dist := Dist(artifact.index, query, dequantize);
    ghost var answer := OfferAll(HeapsOf(candidates, results), toVisit, dist, ef);
    assert toVisit[0..] == toVisit;
    for i := 0 to |toVisit|
      invariant Working(artifact, custom) && results.a != [] && old(artifact.cache.Keys) <= artifact.cache.Keys
      invariant OfferAll(HeapsOf(candidates, results), toVisit[i..], dist, ef) == answer
    {
      assert toVisit[i..][0] == toVisit[i] && toVisit[i..][1..] == toVisit[i + 1..];
      var node, nd := ReadScored(artifact, query, dequantize, toVisit[i]);
      Consider(candidates, results, nd, toVisit[i], ef, dist);
    }
    assert toVisit[|toVisit|..] == [];
  }

  /** One round of the base loop: expand, prefetch (with speculation), evaluate, look ahead. */
  method LazyRound(
    artifact: RangeArtifact, custom: PageLayout?, o: Options, query: seq<real>, dequantize: Dequantize, ef: nat,
    batch: seq<Entry>, visited: array<bool>, candidates: MinHeap<Entry>, results: MinHeap<Entry>, ghost marked0: set<nat>)
    returns (r: Result<nat>, ghost marked: set<nat>)
    requires Working(artifact, custom) && |query| == artifact.index.dim
    requires visited.Length == artifact.count && Marks(visited, marked0)
    requires ValidGraph(artifact.index.graph) && InGraph(artifact.index.graph, batch)
    requires SearchHeaps(candidates, results) && results.a != []
    modifies artifact, if custom != null then {custom} else {}, visited, candidates, results
    ensures Working(artifact, custom)
    ensures old(artifact.cache.Keys) <= artifact.cache.Keys
    ensures r.Failure? ==> MayThrow(artifact, custom, o) && RouterMissing(artifact.index, old(artifact.cache.Keys))
    ensures r.Success? ==>
      var gathered := Gather(EdgesOf(artifact.index.graph, batch), marked0);
      && marked == gathered.1 && Marks(visited, marked)
      && HeapsOf(candidates, results)
         == OfferAll(old(HeapsOf(candidates, results)), gathered.0, Dist(artifact.index, query, dequantize), ef)
  {
    hide Dist, IsNode, IsArtifact, RecordBytes, OfferAll, Unread, Beside, NearestFirst, RouterMissing, EdgesOf, Distinct, MayThrow, BatchSize;
    var toVisit;
    toVisit, marked := MarkNeighbours(artifact, custom, batch, visited, marked0);
    NewInGraph(EdgesOf(artifact.index.graph, batch), marked0, artifact.count);
    hide Gather;
    var fetch := toVisit;
    if o.sameRoundLookahead && o.lookahead > 0 && |candidates.a| > 0 {
      ghost var sorted;
      var speculative;
      speculative, sorted := Speculate(artifact, candidates, results, visited, ef, o.lookahead, set n | n in toVisit);
      fetch := toVisit + speculative;
    }
    ghost var before := artifact.cache.Keys;
    r := PrefetchRound(artifact, custom, o, fetch);
    if r.Failure? {
      AskedIsMissing(artifact, fetch, before);
      MissingBefore(artifact.index, old(artifact.cache.Keys), before);
      return;
    }
    ScoreAll(artifact, custom, query, dequantize, ef, candidates, results, toVisit);
    OfferAllNonEmpty(old(HeapsOf(candidates, results)), toVisit, Dist(artifact.index, query, dequantize), ef);
    if !o.sameRoundLookahead && o.lookahead > 0 && |candidates.a| > 0 {
      ghost var sorted;
      var speculative;
      speculative, sorted := Speculate(artifact, candidates, results, visited, ef, o.lookahead, {});
      before := artifact.cache.Keys;
      r := PrefetchRound(artifact, custom, o, speculative);
      if r.Failure? {
        AskedIsMissing(artifact, speculative, before);
        MissingBefore(artifact.index, old(artifact.cache.Keys), before);
      }
    }
  }

  lemma OfferAllNonEmpty(h: Heaps, ns: seq<nat>, dist: nat -> real, ef: nat)
    requires h.results != []
    ensures OfferAll(h, ns, dist, ef).results != []
  {
  }

  method RunLazy(
    artifact: RangeArtifact, custom: PageLayout?, o: Options, query: seq<real>, dequantize: Dequantize, ef: nat,
    visited: array<bool>, candidates: MinHeap<Entry>, results: MinHeap<Entry>, ghost marked0: set<nat>)
    returns (r: Result<nat>)
    requires Working(artifact, custom) && |query| == artifact.index.dim
    requires visited.Length == artifact.count == artifact.index.graph.count && Marks(visited, marked0)
    requires SearchHeaps(candidates, results)
    requires Ready(artifact.index.graph, HeapsOf(candidates, results), marked0)
    modifies artifact, if custom != null then {custom} else {}, visited, candidates, results
    ensures Working(artifact, custom)
    ensures old(artifact.cache.Keys) <= artifact.cache.Keys
    ensures r.Failure? ==> MayThrow(artifact, custom, o) && RouterMissing(artifact.index, old(artifact.cache.Keys))
    ensures r.Success? ==>
      results.a == BatchedLoop(artifact.index.graph, Dist(artifact.index, query, dequantize), ef, BatchSize(o),
                               old(HeapsOf(candidates, results)), marked0).0.results
  {
    hide Dist;
    hide IsNode;
    hide IsArtifact;
    hide RecordBytes;
    hide TakeBatch;
    hide Gather;
    ghost var g, dist, marked := artifact.index.graph, Dist(artifact.index, query, dequantize), marked0;
    var size := BatchSize(o);
    ghost var answer := BatchedLoop(g, dist, ef, size, HeapsOf(candidates, results), marked0).0.results;
    while |candidates.a| > 0
      invariant Working(artifact, custom) && SearchHeaps(candidates, results) && Marks(visited, marked)
      invariant old(artifact.cache.Keys) <= artifact.cache.Keys
      invariant Ready(g, HeapsOf(candidates, results), marked)
      invariant BatchedLoop(g, dist, ef, size, HeapsOf(candidates, results), marked).0.results == answer
      decreases g.count - |marked|, |candidates.a|
    {
      ghost var h := HeapsOf(candidates, results);
      SubBatch(g, h, ef, size);
      var batch := FillBatch(candidates, results, ef, size);
      if |batch| == 0 { break; }
      RoundProgress(g, dist, ef, size, h, marked);
      BoundedSize(marked, g.count);
      ghost var after := Round(g, dist, ef, size, h, marked);
      ghost var marked', before := *, artifact.cache.Keys;
      r, marked' := LazyRound(artifact, custom, o, query, dequantize, ef, batch, visited, candidates, results, marked);
      if r.Failure? {
        MissingBefore(artifact.index, old(artifact.cache.Keys), before);
        return;
      }
      assert after == (HeapsOf(candidates, results), marked');
      marked := marked';
    }
    r := Success(0);
  }

  method SearchBase(
    artifact: RangeArtifact, custom: PageLayout?, query: seq<real>, ef: nat, o: Options, dequantize: Dequantize, curr: nat)
    returns (r: Result<MinHeap<Entry>>)
    requires Working(artifact, custom) && |query| == artifact.index.dim
    requires ValidGraph(artifact.index.graph) && curr < artifact.count == artifact.index.graph.count
    modifies artifact, if custom != null then {custom} else {}
    ensures Working(artifact, custom)
    ensures old(artifact.cache.Keys) <= artifact.cache.Keys
    ensures r.Failure? ==> MayThrow(artifact, custom, o) && RouterMissing(artifact.index, old(artifact.cache.Keys))
    ensures
      var dist := Dist(artifact.index, query, dequantize);
      && Ready(artifact.index.graph, Seeded(curr, dist), {curr})
      && (r.Success? ==>
            r.value.a == BatchedLoop(artifact.index.graph, dist, ef, BatchSize(o), Seeded(curr, dist), {curr}).0.results)
  {
    hide Dist;
    hide IsNode;
    hide IsArtifact;
    hide RecordBytes;
    hide Pushed;
    ghost var dist := Dist(artifact.index, query, dequantize);
    SeededReady(artifact.index.graph, curr, dist);
    var visited := new bool[artifact.count](_ => false);
    var candidates := new MinHeap<Entry>(NEAR_FIRST);
    var results := new MinHeap<Entry>(FAR_FIRST);
    var node, d0 := ReadScored(artifact, query, dequantize, curr);
    SinglePush(Entry(d0, curr));
    candidates.Push(Entry(d0, curr));
    results.Push(Entry(d0, curr));
    visited[curr] := true;
    ghost var before := artifact.cache.Keys;
    var done := RunLazy(artifact, custom, o, query, dequantize, ef, visited, candidates, results, {curr});
    if done.Failure? {
      MissingBefore(artifact.index, old(artifact.cache.Keys), before);
      return Failure(done.error);
    }
    r := Success(results);
  }

  /**
   `lazySearch`: for any starting cache, counters, gap, page mode and look-ahead, the answer is the batched
   search of the exported index. It throws only in page mode on a version 2 artifact with an upper-level node
   missing from the cache, and always when that node is the entry point.
   */
  method LazySearch(
    artifact: RangeArtifact, custom: PageLayout?, query: seq<real>, k: nat, efSearch: nat, o: Options, dequantize: Dequantize)
    returns (r: Result<seq<nat>>)
    requires Working(artifact, custom) && |query| == artifact.index.dim
    modifies artifact, if custom != null then {custom} else {}
    ensures Working(artifact, custom)
    ensures old(artifact.cache.Keys) <= artifact.cache.Keys
    ensures r.Failure? ==> MayThrow(artifact, custom, o) && RouterMissing(artifact.index, old(artifact.cache.Keys))
    ensures ValidGraph(artifact.index.graph) && EntryIn(artifact.index)
    ensures MayThrow(artifact, custom, o) && EntryMissing(artifact.index, old(artifact.cache.Keys)) ==> r.Failure?
    ensures r.Success? ==>
      r.value == BatchedSearch(artifact.index.graph, Dist(artifact.index, query, dequantize), k, efSearch, BatchSize(o))
    ensures r.Success? && BatchSize(o) == 1 ==>
      r.value == ResidentSearch(artifact.index.graph, Dist(artifact.index, query, dequantize), k, efSearch)
  {
    hide Dist;
    hide IsNode;
    hide RecordBytes;
    hide ResidentSearch;
    artifact.Known();
    hide IsArtifact;
    var start := DescendLazy(artifact, custom, o, query, dequantize);
    if start.Failure? { return Failure(start.error); }
    ghost var before := artifact.cache.Keys;
    var found := SearchBase(artifact, custom, query, Max(efSearch, k), o, dequantize, start.value);
    if found.Failure? {
      MissingBefore(artifact.index, old(artifact.cache.Keys), before);
      return Failure(found.error);
    }
    LazyRefinesResident(artifact.index.graph, Dist(artifact.index, query, dequantize), k, efSearch);
    var ids := FinalIds(found.value, k);
    r := Success(ids);
  }
}
