/**
 The range-addressable reader: a decoded-node cache, a page cache and fetch counters over an immutable file.
 `Valid` says that the cache never disagrees with the exported index; each method states the exact set of
 nodes it adds, so together the contracts give the whole new state.
 */
module RangeReader {
  import opened Wrappers
  import opened Sorting
  import opened Finite
  import opened RangeCoalescing
  import opened GraphSearch
  import opened RecordCodec
  import opened RecordIO
  import opened ArtifactLayout
  import opened ArtifactFile
  import opened ReadSpec
  import opened CustomPages

  ghost predicate IsNode(index: Index, id: nat, node: Node) {
    ValidIndex(index) && id < index.graph.count && node == NodeOf(index, id)
  }

  /** What one record of an exported file decodes to. */
  lemma RecordDecodes(index: Index, id: nat)
    requires ValidIndex(index) && id < index.graph.count
    ensures IsNode(index, id, Decode(RecordAt(index, id), ShapeOf(index)))
    ensures Read32(RecordAt(index, id), 0) == id && Read16(RecordAt(index, id), 4) == index.levels[id]
  {
    hide Encode;
    hide Decode;
    NodeFits(index, id);
    DecodeEncode(NodeOf(index, id), ShapeOf(index));
    HeadFields(NodeOf(index, id), ShapeOf(index));
  }

  /** The bytes at a slot's address decode to the slot's node. */
  lemma SlotDecodes(file: seq<byte>, index: Index, layout: Layout, s: nat)
    requires IsArtifact(file, index, layout) && s < |layout.slots|
    ensures
      var a, rec := SlotAddress(index, layout, s), RecordBytes(ShapeOf(index));
      && a + rec <= |file| && layout.slots[s] < index.graph.count
      && Read32(file[a..a + rec], 0) == layout.slots[s]
      && Read16(file[a..a + rec], 4) == index.levels[layout.slots[s]]
      && IsNode(index, layout.slots[s], Decode(file[a..a + rec], ShapeOf(index)))
  {
    hide RecordAt;
    hide Decode;
    hide IsNode;
    assert Region(file, SlotAddress(index, layout, s), RecordAt(index, layout.slots[s]));
    RecordDecodes(index, layout.slots[s]);
  }

  lemma NextAddress(index: Index, layout: Layout, s: nat)
    ensures SlotAddress(index, layout, s + 1) == SlotAddress(index, layout, s) + RecordBytes(ShapeOf(index))
  {
    Distribute(0, 0, s, 0, RecordBytes(ShapeOf(index)));
  }

  lemma AddressOrder(index: Index, layout: Layout, a: nat, b: nat)
    ensures a < b <==> SlotAddress(index, layout, a) < SlotAddress(index, layout, b)
  {
    ScaledOrder(b, a, Origin(layout), RecordBytes(ShapeOf(index)));
  }

  lemma AfterNoRuns(index: Index, layout: Layout, r: Reading)
    ensures AfterRuns(index, layout, r, []) == r
  {
  }

  lemma ScaledSlotsAppend(layout: Layout, found: seq<nat>, id: nat, origin: nat, scale: nat)
    ensures Scaled(RawSlots(layout, found + [id]), origin, scale)
         == Scaled(RawSlots(layout, found), origin, scale) + [origin + SlotOf(layout, id) * scale]
  {
  }

  lemma DecodedNone(r: Reading)
    ensures Decoded(r, {}) == r
  {
    assert r.cached + {} == r.cached && {} - r.cached == {};
  }

  lemma DecodedTwice(r: Reading, a: set<nat>, b: set<nat>)
    ensures Decoded(Decoded(r, a), b) == Decoded(r, a + b)
  {
    AddedSplit(a, b, r.cached);
    assert r.cached + a + b == r.cached + (a + b);
  }

  lemma SortedPages(pages: seq<nat>)
    requires Distinct(pages)
    ensures Increasing(SortedUp(pages)) && forall p :: p in SortedUp(pages) <==> p in pages
  {
    SortIncreasing(pages);
    forall p ensures p in SortedUp(pages) <==> p in pages {
      assert p in Elements(SortedUp(pages)) <==> p in Elements(pages);
    }
  }

  lemma IncreasingDistinct(s: seq<nat>)
    requires Increasing(s)
    ensures Distinct(s)
  {}

  lemma OneRecord(r: nat, rec: nat)
    requires rec > 0 && (r == 1 || r * rec <= rec) && r >= 1
    ensures r == 1
  {
    if r >= 2 { MulAtMost(2, r, rec); }
  }

  lemma TwoRecords(r: nat, rec: nat)
    requires rec > 0 && (r == 1 || r * rec <= 2 * rec) && 2 * rec < (r + 1) * rec
    ensures r == 2
  {
    if r >= 3 { MulAtMost(3, r, rec); }
  }

  lemma WholeRecords(pageSize: nat, rec: nat)
    ensures rec > 0 ==>
      var r := Max(1, pageSize / rec);
      r >= 1 && (r == 1 || r * rec <= pageSize) && pageSize < (r + 1) * rec
  {
    if rec > 0 {
      var q := pageSize / rec;
      assert q * rec <= pageSize < q * rec + rec;
      assert (q + 1) * rec == q * rec + rec;
      assert (1 + 1) * rec == 2 * rec;
    }
  }

  lemma KeysHold(keys: set<nat>, id: nat)
    requires id in keys
    ensures keys + {id} == keys
  {}

  lemma Singleton(before: set<nat>, id: nat)
    requires id !in before
    ensures |before + {id} - before| == 1
  {
    assert before + {id} - before == {id};
  }

  lemma PageStart(ordinal: nat, recordsPerPage: nat, count: nat)
    requires recordsPerPage > 0 && ordinal < count
    ensures (ordinal / recordsPerPage) * recordsPerPage < count
  {
  }

  lemma AfterNoPages(index: Index, layout: Layout, r: Reading, recordsPerPage: nat)
    ensures AfterPages(index, layout, r, recordsPerPage, []) == r
  {
  }

  lemma UnionThen<T>(a: set<T>, b: set<T>, x: T)
    ensures a + b + {x} == a + (b + {x})
  {}

  lemma NewlyAdded<T>(a: set<T>, b: set<T>)
    ensures |a + b| == |a| + |b - a|
  {
    assert a + b == a + (b - a);
  }

  class RangeArtifact {
    const file: seq<byte>
    ghost const index: Index
    ghost const layout: Layout
    const version: nat
    const dim: nat
    const count: nat
    const entryPoint: nat
    const maxLevel: nat
    const M: nat
    const M0: nat
    const recordBytes: nat
    const recordsOffset: nat
    const routerCount: nat
    const baseCount: nat
    const routerRecordsOffset: nat
    const baseRecordsOffset: nat
    const originalToLocation: seq<nat>
    var cache: map<nat, Node>
    var pageCache: set<nat>
    var rangeRequests: nat
    var rangeBytes: nat
    var rangeNodesDecoded: nat
    var currentRanges: seq<(int, int)>

    function shape(): Shape { Shape(dim, maxLevel, M, M0) }

    /** The header fields and the location map are those of the exported artifact. */
    ghost predicate Opened() {
      && IsArtifact(file, index, layout)
      && version == layout.version && shape() == ShapeOf(index) && recordBytes == RecordBytes(ShapeOf(index))
      && count == index.graph.count && entryPoint == index.graph.entryPoint
      && recordsOffset == Origin(layout) && originalToLocation == layout.locations
      && routerCount == layout.routers && baseCount == count - routerCount
      && (version == 1 ==> routerRecordsOffset == 0 && baseRecordsOffset == recordsOffset)
      && (version == 2 ==> routerRecordsOffset == recordsOffset)
      && (version == 2 ==> baseRecordsOffset == recordsOffset + routerCount * recordBytes)
    }

    ghost predicate Coherent(cached: map<nat, Node>) {
      forall id :: id in cached ==> IsNode(index, id, cached[id])
    }

    ghost predicate Valid()
      reads this
    {
      Opened() && Coherent(cache)
    }

    lemma Known()
      requires Opened()
      ensures ValidIndex(index) && ValidLayout(index, layout) && count <= ROUTER_BIT
      ensures |layout.slots| == count == |originalToLocation| && (version == 1 || version == 2)
      ensures recordBytes == RecordBytes(ShapeOf(index)) >= 16
    {
    }

    lemma ValidIsOpened()
      requires Valid()
      ensures Opened()
    {}

    lemma RecordSize()
      requires Valid()
      ensures recordBytes == RecordBytes(ShapeOf(index))
    {
      Known();
    }

    /** Open an exported artifact: header, location map, then (version 2) the resident router segment. */
    constructor (file: seq<byte>, ghost index: Index, ghost layout: Layout)
      requires |file| >= 128 && IsArtifact(file, index, layout)
      ensures Valid() && this.file == file && this.index == index && this.layout == layout
      ensures State() == Reading(SlotIds(layout, 0, layout.routers), {}, 0, 0, 0, [])
    {
      HeaderValues(file, index, layout);
      MapValues(file, index, layout);
      if layout.version == 2 { SplitHeaderValues(file, index, layout); }
      hide IsArtifact;
      hide HasPreamble;
      hide RecordBytes;
      this.file, this.index, this.layout := file, index, layout;
      version := Read32(file, 4);
      dim := Read32(file, 12);
      count := Read32(file, 16);
      entryPoint := Read32(file, 20);
      maxLevel := Read32(file, 24);
      M := Read32(file, 28);
      M0 := Read32(file, 32);
      recordBytes := Read32(file, 40);
      recordsOffset := Read32(file, 48);
      if Read32(file, 4) >= 2 {
        routerCount := Read32(file, 56);
        baseCount := Read32(file, 60);
        routerRecordsOffset := Read32(file, 64);
        baseRecordsOffset := Read32(file, 68);
      } else {
        routerCount := 0;
        baseCount := Read32(file, 16);
        routerRecordsOffset := 0;
        baseRecordsOffset := Read32(file, 48);
      }
      originalToLocation := ReadMap(file, Read32(file, 44), Read32(file, 16));
      cache, pageCache := map[], {};
      rangeRequests, rangeBytes, rangeNodesDecoded, currentRanges := 0, 0, 0, [];
      new;
      hide IsNode;
      Known();
      var records, bytes := LoadRouterSegment();
      ResetStats();
    }

    // ---------- addressing ----------

    function OrdinalForId(id: nat): (r: Result<nat>)
      requires id < |originalToLocation|
    {
      var ordinal := originalToLocation[id];
      if ordinal == 0xffff_ffff || ordinal >= count then Failure("node id is not addressable in artifact") else Success(ordinal)
    }

    function RecordAddressForId(id: nat): (r: Result<nat>)
      requires id < |originalToLocation|
    {
      var location := originalToLocation[id];
      if version >= 2 then
        var ordinal := location % ROUTER_BIT;
        if location / ROUTER_BIT % 2 != 0 then
          if ordinal >= routerCount then Failure("router ordinal outside artifact")
          else Success(routerRecordsOffset + ordinal * recordBytes)
        else if ordinal >= baseCount then Failure("base ordinal outside artifact")
        else Success(baseRecordsOffset + ordinal * recordBytes)
      else if location >= count then Failure("node id is not addressable in artifact")
      else Success(recordsOffset + location * recordBytes)
    }

    /** Both versions put the record of `id` at its slot on one grid; no address lookup of a node fails. */
    lemma AddressIsSlot(id: nat)
      requires Opened() && id < count
      ensures id < |originalToLocation|
      ensures RecordAddressForId(id) == Success(SlotAddress(index, layout, SlotOf(layout, id)))
      ensures version == 1 ==> OrdinalForId(id) == Success(SlotOf(layout, id))
    {
      hide IsArtifact;
      hide RecordBytes;
      Known();
      SlotExists(index, layout, id);
      var s := SlotOf(layout, id);
      assert originalToLocation[id] == LocationOf(layout, s);
      if version == 2 {
        if s < routerCount {
          assert (ROUTER_BIT + s) % ROUTER_BIT == s && (ROUTER_BIT + s) / ROUTER_BIT == 1;
        } else {
          var o := s - routerCount;
          assert o % ROUTER_BIT == o && o / ROUTER_BIT == 0;
          assert s * recordBytes == routerCount * recordBytes + o * recordBytes;
        }
      }
    }

    // ---------- one contiguous read ----------

    ghost function State(): Reading
      reads this
    {
      Reading(cache.Keys, pageCache, rangeRequests, rangeBytes, rangeNodesDecoded, currentRanges)
    }

    method CacheRecordAt(address: nat, ghost s: nat) returns (decoded: nat)
      requires Valid() && s < |layout.slots| && address == SlotAddress(index, layout, s)
      modifies this`cache
      ensures Valid() && cache.Keys == old(cache.Keys) + {layout.slots[s]}
      ensures |cache.Keys| == |old(cache.Keys)| + decoded
    {
      hide Decode;
      hide IsNode;
      hide IsArtifact;
      hide RecordBytes;
      hide SlotAddress;
      SlotDecodes(file, index, layout, s);
      var record := file[address..address + recordBytes];
      var originalId := Read32(record, 0);
      decoded := 0;
      if originalId !in cache {
        var node := DecodeNode(record, shape());
        cache := cache[originalId := node];
        decoded := 1;
      }
      assert |cache| == |cache.Keys|;
    }

    /** Decode the records of one byte range into the cache; already cached nodes are left alone. */
    method CacheRecords(startByte: nat, bytes: nat, ghost a: nat, ghost b: nat) returns (decoded: nat)
      requires Valid() && a <= b <= |layout.slots|
      requires startByte == SlotAddress(index, layout, a) && startByte + bytes == SlotAddress(index, layout, b)
      modifies this`cache
      ensures Valid() && cache.Keys == old(cache.Keys) + SlotIds(layout, a, b)
      ensures decoded == |SlotIds(layout, a, b) - old(cache.Keys)|
    {
      hide *;
      RecordSize();
      ghost var before: set<nat> := cache.Keys;
      decoded := 0;
      var off := 0;
      ghost var s := a;
      SlotIdsEmpty(layout, a);
      while off < bytes
        invariant a <= s <= b && startByte + off == SlotAddress(index, layout, s)
        invariant Valid() && |cache.Keys| == |before| + decoded && cache.Keys == before + SlotIds(layout, a, s)
        decreases b - s
      {
        AddressOrder(index, layout, s, b);
        ghost var read: set<nat> := SlotIds(layout, a, s);
        SlotIdsStep(layout, a, s);
        NextAddress(index, layout, s);
        var one := CacheRecordAt(startByte + off, s);
        UnionThen(before, read, layout.slots[s]);
        decoded := decoded + one;
        off := off + recordBytes;
        s := s + 1;
      }
      AddressOrder(index, layout, s, b);
      NewlyAdded(before, SlotIds(layout, a, b));
    }

    method Flush(startByte: nat, endByte: nat, ghost first: nat, ghost end: nat)
      requires Valid() && first <= end <= |layout.slots|
      requires startByte == SlotAddress(index, layout, first) && endByte == SlotAddress(index, layout, end)
      modifies this
      ensures Valid() && State() == AfterRequest(index, layout, old(State()), first, end)
    {
      hide IsArtifact, SlotIds, IsNode, RecordBytes, SlotAddress, AfterRequest;
      RunLength(index, layout, first, end);
      RequestMeans(index, layout, State(), first, end);
      var bytes := endByte - startByte;
      rangeRequests := rangeRequests + 1;
      rangeBytes := rangeBytes + bytes;
      currentRanges := currentRanges + [(startByte, startByte + bytes)];
      var decoded := CacheRecords(startByte, bytes, first, end);
      rangeNodesDecoded := rangeNodesDecoded + decoded;
    }

    // ---------- prefetch ----------

    /** Read the coalesced runs of ascending ordinals (version 1: ordinal = slot, the gap counts records). */
    method FetchOrdinals(ordinals: seq<nat>, gap: nat) returns (requests: nat)
      requires Valid() && version == 1 && ordinals != [] && Increasing(ordinals)
      requires forall k :: 0 <= k < |ordinals| ==> ordinals[k] < |layout.slots|
      modifies this
      ensures Valid() && State() == AfterRuns(index, layout, old(State()), Runs(ordinals, gap))
      ensures requests == |Runs(ordinals, gap)|
    {
      hide IsArtifact;
      hide IsNode;
      hide RecordBytes;
      hide Runs;
      hide AfterRuns;
      hide AfterRequest;
      requests := 0;
      var runStart: nat, runEnd: nat := ordinals[0], ordinals[0];
      ghost var flushed: seq<Run> := [];
      FirstRun(ordinals, gap);
      AfterNoRuns(index, layout, State());
      for i := 1 to |ordinals|
        invariant Valid() && Runs(ordinals[..i], gap) == flushed + [Run(runStart, runEnd)]
        invariant requests == |flushed| && State() == AfterRuns(index, layout, old(State()), flushed)
      {
        var ordinal := ordinals[i];
        CoalesceStep(layout, ordinals, i, gap, flushed, Run(runStart, runEnd));
        if ordinal <= runEnd + gap + 1 {
          runEnd := ordinal;
        } else {
          FlushOrdinals(runStart, runEnd);
          AfterRunsAppend(index, layout, old(State()), flushed, Run(runStart, runEnd));
          requests := requests + 1;
          flushed := flushed + [Run(runStart, runEnd)];
          runStart, runEnd := ordinal, ordinal;
        }
      }
      assert ordinals[..|ordinals|] == ordinals;
      OpenRunInside(layout, ordinals, |ordinals|, gap, flushed, Run(runStart, runEnd));
      FlushOrdinals(runStart, runEnd);
      AfterRunsAppend(index, layout, old(State()), flushed, Run(runStart, runEnd));
      requests := requests + 1;
    }

    method FlushOrdinals(runStart: nat, runEnd: nat)
      requires Valid() && RunInside(layout, Run(runStart, runEnd))
      modifies this
      ensures Valid() && State() == AfterRequest(index, layout, old(State()), runStart, runEnd + 1)
    {
      hide IsArtifact;
      hide IsNode;
      hide RecordBytes;
      RunLength(index, layout, runStart, runEnd + 1);
      var count := runEnd - runStart + 1;
      var bytes := count * recordBytes;
      var startByte := recordsOffset + runStart * recordBytes;
      Flush(startByte, startByte + bytes, runStart, runEnd + 1);
    }

    /** Read the coalesced runs of ascending record addresses (byte gap); works for either version. */
    method FetchAddresses(addresses: seq<nat>, gap: nat, ghost slots: seq<nat>) returns (requests: nat)
      requires Valid() && addresses != [] && Increasing(slots)
      requires forall k :: 0 <= k < |slots| ==> slots[k] < |layout.slots|
      requires addresses == Scaled(slots, recordsOffset, recordBytes)
      modifies this
      ensures Valid() && State() == AfterRuns(index, layout, old(State()), Runs(slots, gap / recordBytes))
      ensures requests == |Runs(slots, gap / recordBytes)|
    {
      hide IsArtifact;
      hide IsNode;
      hide RecordBytes;
      hide Runs;
      hide AfterRuns;
      hide AfterRequest;
      requests := 0;
      ghost var slotGap := gap / recordBytes;
      ghost var first: nat, last: nat := slots[0], slots[0];
      var runStart, runEnd := addresses[0], addresses[0] + recordBytes;
      NextAddress(index, layout, last);
      ghost var flushed: seq<Run> := [];
      FirstRun(slots, slotGap);
      AfterNoRuns(index, layout, State());
      for i := 1 to |addresses|
        invariant Valid() && Runs(slots[..i], slotGap) == flushed + [Run(first, last)]
        invariant runStart == SlotAddress(index, layout, first) && runEnd == SlotAddress(index, layout, last + 1)
        invariant requests == |flushed| && State() == AfterRuns(index, layout, old(State()), flushed)
      {
        var address := addresses[i];
        CoalesceStep(layout, slots, i, slotGap, flushed, Run(first, last));
        ByteGapIsSlotGap(recordsOffset, recordBytes, last, slots[i], gap);
        NextAddress(index, layout, slots[i]);
        if address <= runEnd + gap {
          runEnd := address + recordBytes;
          last := slots[i];
        } else {
          Flush(runStart, runEnd, first, last + 1);
          AfterRunsAppend(index, layout, old(State()), flushed, Run(first, last));
          requests := requests + 1;
          flushed := flushed + [Run(first, last)];
          runStart, runEnd := address, address + recordBytes;
          first, last := slots[i], slots[i];
        }
      }
      assert slots[..|addresses|] == slots;
      OpenRunInside(layout, slots, |slots|, slotGap, flushed, Run(first, last));
      Flush(runStart, runEnd, first, last + 1);
      AfterRunsAppend(index, layout, old(State()), flushed, Run(first, last));
      requests := requests + 1;
    }

    /** A byte gap as a gap in slots. */
    function ByteGapInSlots(gap: nat): nat {
      if recordBytes > 0 then gap / recordBytes else gap
    }

    /** Version 1 gaps count records, version 2 gaps count bytes: both are a gap in slots. */
    function SlotGap(gap: nat): nat {
      if version >= 2 then ByteGapInSlots(gap) else gap
    }

    ghost predicate Prefetched(before: Reading, slots: seq<nat>, ids: seq<nat>, gap: nat)
      reads this
    {
      && MissingSlots(layout, slots, ids, before.cached)
      && State() == AfterRuns(index, layout, before, Runs(slots, gap))
    }

    lemma AllRequestedCached(before: Reading, slots: seq<nat>, ids: seq<nat>, gap: nat)
      requires Valid() && AllBelow(ids, count) && Prefetched(before, slots, ids, gap)
      ensures before.cached <= cache.Keys && forall id :: id in ids ==> id in cache
      ensures gap == 0 ==> cache.Keys == before.cached + Elements(ids)
    {
      hide IsNode;
      Known();
      AfterRunsTotals(index, layout, before, Runs(slots, gap));
      RunsCoverRequest(index, layout, slots, ids, before.cached, gap);
      if gap == 0 {
        NoOverfetchAtGapZero(index, layout, slots, ids, before.cached);
        assert before.cached + (Elements(ids) - before.cached) == before.cached + Elements(ids);
      }
    }

    lemma NothingMissing(before: Reading, ids: seq<nat>, gap: nat)
      requires Opened() && State() == before && Elements(ids) - before.cached == {}
      ensures Prefetched(before, [], ids, gap)
    {
      hide IsArtifact;
      AfterNoRuns(index, layout, before);
      forall s: nat | s < |layout.slots| ensures !(layout.slots[s] in ids && layout.slots[s] !in before.cached) {
        assert layout.slots[s] in Elements(ids) ==> layout.slots[s] !in Elements(ids) - before.cached;
      }
    }

    /** First uncached meetings in `ids`, and the addresses the source collects for them. */
    method CollectAddresses(ids: seq<nat>) returns (addresses: seq<nat>, ghost found: seq<nat>)
      requires Valid() && AllBelow(ids, count)
      ensures Distinct(found) && Elements(found) == Elements(ids) - cache.Keys && AllBelow(found, count)
      ensures addresses == Scaled(RawSlots(layout, found), recordsOffset, recordBytes)
    {
      hide IsArtifact;
      hide IsNode;
      hide RecordBytes;
      addresses, found := [], [];
      var seen: set<nat> := {};
      for i := 0 to |ids|
        invariant Distinct(found) && Elements(found) == seen == Elements(ids[..i]) - cache.Keys && AllBelow(found, count)
        invariant addresses == Scaled(RawSlots(layout, found), recordsOffset, recordBytes)
      {
        var id := ids[i];
        assert ids[..i + 1] == ids[..i] + [id];
        if id !in cache && id !in seen {
          seen := seen + {id};
          AddressIsSlot(id);
          ScaledSlotsAppend(layout, found, id, recordsOffset, recordBytes);
          addresses := addresses + [RecordAddressForId(id).value];
          found := found + [id];
        }
      }
      assert ids[..|ids|] == ids;
    }

    method CollectOrdinals(ids: seq<nat>) returns (ordinals: seq<nat>, ghost found: seq<nat>)
      requires Valid() && AllBelow(ids, count) && version == 1
      ensures Distinct(found) && Elements(found) == Elements(ids) - cache.Keys && AllBelow(found, count)
      ensures ordinals == Scaled(RawSlots(layout, found), 0, 1)
    {
      hide IsArtifact;
      hide IsNode;
      hide RecordBytes;
      ordinals, found := [], [];
      var seen: set<nat> := {};
      for i := 0 to |ids|
        invariant Distinct(found) && Elements(found) == seen == Elements(ids[..i]) - cache.Keys && AllBelow(found, count)
        invariant ordinals == Scaled(RawSlots(layout, found), 0, 1)
      {
        var id := ids[i];
        assert ids[..i + 1] == ids[..i] + [id];
        if id !in cache && id !in seen {
          seen := seen + {id};
          AddressIsSlot(id);
          ScaledSlotsAppend(layout, found, id, 0, 1);
          ordinals := ordinals + [OrdinalForId(id).value];
          found := found + [id];
        }
      }
      assert ids[..|ids|] == ids;
    }

    /** `prefetchLocations`: byte gap, either version. */
    method PrefetchLocations(ids: seq<nat>, gap: nat) returns (requests: nat, ghost slots: seq<nat>)
      requires Valid() && AllBelow(ids, count)
      modifies this
      ensures Valid() && Prefetched(old(State()), slots, ids, ByteGapInSlots(gap))
      ensures requests == |Runs(slots, ByteGapInSlots(gap))|
      ensures
        var runs := Runs(slots, ByteGapInSlots(gap));
        && rangeRequests == old(rangeRequests) + requests && pageCache == old(pageCache)
        && rangeBytes == old(rangeBytes) + Covered(runs) * recordBytes
        && rangeNodesDecoded == old(rangeNodesDecoded) + |cache.Keys - old(cache.Keys)|
        && currentRanges == old(currentRanges) + RunRanges(recordsOffset, recordBytes, runs)
    {
      hide IsNode;
      Known();
      ghost var before := State();
      var addresses;
      ghost var found;
      addresses, found := CollectAddresses(ids);
      slots := SortedValuesAreSlots(index, layout, ids, cache.Keys, found, addresses, recordsOffset, recordBytes);
      hide IsArtifact;
      if |addresses| == 0 {
        assert Elements(found) == {};
        NothingMissing(before, ids, gap / recordBytes);
        RunsCounted(before, [], ByteGapInSlots(gap));
        return 0, [];
      }
      requests := FetchAddresses(SortedUp(addresses), gap, slots);
      RunsCounted(before, slots, ByteGapInSlots(gap));
    }

    /** The counters after the runs of the slots are read. */
    lemma RunsCounted(before: Reading, slots: seq<nat>, gap: nat)
      requires Opened() && Increasing(slots)
      ensures
        var runs, after := Runs(slots, gap), AfterRuns(index, layout, before, Runs(slots, gap));
        && Covered(runs) >= 0 && after.pages == before.pages
        && Counted(before, after, Covered(runs), recordBytes, RunRanges(recordsOffset, recordBytes, runs))
    {
      hide *;
      AllForward(slots, gap);
      RecordGrid();
      AfterRunsCounted(index, layout, before, Runs(slots, gap));
      AfterRunsTotals(index, layout, before, Runs(slots, gap));
    }

    /** `prefetch`: after it every requested node is cached, and the new state is that of the coalesced runs. */
    method Prefetch(ids: seq<nat>, gap: nat) returns (requests: nat, ghost slots: seq<nat>)
      requires Valid() && AllBelow(ids, count)
      modifies this
      ensures Valid() && Prefetched(old(State()), slots, ids, SlotGap(gap))
      ensures requests == |Runs(slots, SlotGap(gap))|
      ensures
        var runs := Runs(slots, SlotGap(gap));
        && rangeRequests == old(rangeRequests) + requests && pageCache == old(pageCache)
        && rangeBytes == old(rangeBytes) + Covered(runs) * recordBytes
        && rangeNodesDecoded == old(rangeNodesDecoded) + |cache.Keys - old(cache.Keys)|
        && currentRanges == old(currentRanges) + RunRanges(recordsOffset, recordBytes, runs)
      ensures old(cache.Keys) <= cache.Keys && forall id :: id in ids ==> id in cache
    {
      hide IsNode;
      Known();
      ghost var before := State();
      if version >= 2 {
        requests, slots := PrefetchLocations(ids, gap);
        AllRequestedCached(before, slots, ids, SlotGap(gap));
        return;
      }
      var ordinals;
      ghost var found;
      ordinals, found := CollectOrdinals(ids);
      slots := SortedValuesAreSlots(index, layout, ids, cache.Keys, found, ordinals, 0, 1);
      hide IsArtifact;
      if |ordinals| == 0 {
        assert Elements(found) == {};
        NothingMissing(before, ids, gap);
        AllRequestedCached(before, [], ids, gap);
        RunsCounted(before, [], gap);
        return 0, [];
      }
      assert SortedUp(ordinals) == slots;
      requests := FetchOrdinals(SortedUp(ordinals), gap);
      RunsCounted(before, slots, gap);
      AllRequestedCached(before, slots, ids, gap);
    }

    // ---------- reads ----------

    /** `readNode`: whatever the cache holds, the answer is the exported node, and only that node is fetched. */
    method ReadNode(id: nat) returns (node: Node)
      requires Valid() && id < count
      modifies this
      ensures Valid() && IsNode(index, id, node)
      ensures cache.Keys == old(cache.Keys) + {id}
      ensures State() ==
        if id in old(cache) then old(State())
        else AfterRequest(index, layout, old(State()), SlotOf(layout, id), SlotOf(layout, id) + 1)
      ensures id !in old(cache) ==>
        var at := recordsOffset + SlotOf(layout, id) * recordBytes;
        && rangeRequests == old(rangeRequests) + 1 && rangeBytes == old(rangeBytes) + recordBytes
        && rangeNodesDecoded == old(rangeNodesDecoded) + 1 && currentRanges == old(currentRanges) + [(at, at + recordBytes)]
    {
      hide *;
      if id in cache {
        CachedIsNode(id);
        KeysHold(cache.Keys, id);
        return cache[id];
      }
      ghost var before := State();
      StateFields();
      FetchOne(id);
      StateFields();
      ValidIsOpened();
      OneRecordCounted(before, SlotOf(layout, id));
      Singleton(before.cached, id);
      CachedIsNode(id);
      node := cache[id];
    }

    lemma CachedIsNode(id: nat)
      requires Valid() && id in cache
      ensures IsNode(index, id, cache[id])
    {}

    /** A prefetch of one uncached node with no gap. */
    method FetchOne(id: nat)
      requires Valid() && id < count && id !in cache
      modifies this
      ensures Valid() && cache.Keys == old(cache.Keys) + {id} && id in cache
      ensures State() == AfterRequest(index, layout, old(State()), SlotOf(layout, id), SlotOf(layout, id) + 1)
    {
      hide IsNode, IsArtifact, RecordBytes, Prefetched, Runs, AfterRequest, AfterRuns, Covered, RunRanges;
      ghost var before := State();
      ghost var slots;
      var requests;
      requests, slots := Prefetch([id], 0);
      AllRequestedCached(before, slots, [id], 0);
      assert Elements([id]) == {id};
      assert id in [id];
      OneRecordFetched(before, slots, id);
    }

    lemma OneRecordCounted(before: Reading, s: nat)
      requires Opened()
      ensures
        var after, at := AfterRequest(index, layout, before, s, s + 1), recordsOffset + s * recordBytes;
        && after.requests == before.requests + 1 && after.bytes == before.bytes + recordBytes
        && after.decoded == before.decoded + |after.cached - before.cached| && after.ranges == before.ranges + [(at, at + recordBytes)]
    {
      hide *;
      RecordGrid();
      OneCounted(index, layout, before, s, s + 1);
      var rec := recordBytes;
      assert (s + 1) * rec == s * rec + rec;
      CountedFields(before, AfterRequest(index, layout, before, s, s + 1), 1, rec,
        [(recordsOffset + s * rec, recordsOffset + (s + 1) * rec)]);
    }

    lemma OneRecordFetched(before: Reading, slots: seq<nat>, id: nat)
      requires Valid() && id < count && id !in before.cached && Prefetched(before, slots, [id], SlotGap(0))
      ensures State() == AfterRequest(index, layout, before, SlotOf(layout, id), SlotOf(layout, id) + 1)
    {
      hide IsNode;
      Known();
      hide IsArtifact;
      SingleMiss(index, layout, slots, id, before.cached);
      AfterOneRun(index, layout, before, Run(SlotOf(layout, id), SlotOf(layout, id)));
    }

    /** `readNodeDirect`: the same answer with no effect on cache or counters. */
    method ReadNodeDirect(id: nat) returns (node: Node)
      requires Valid() && id < count
      ensures IsNode(index, id, node)
    {
      hide *;
      if id in cache {
        CachedIsNode(id);
        return cache[id];
      }
      ValidIsOpened();
      AddressDecodes(id);
      var address := RecordAddressForId(id).value;
      node := DecodeNode(file[address..address + recordBytes], shape());
    }

    /** The record at the address of a node decodes to it. */
    lemma AddressDecodes(id: nat)
      requires Opened() && id < count
      ensures id < |originalToLocation| && RecordAddressForId(id).Success?
      ensures
        var address := RecordAddressForId(id).value;
        && address + recordBytes <= |file| && recordBytes == RecordBytes(shape())
        && IsNode(index, id, Decode(file[address..address + recordBytes], shape()))
    {
      hide *;
      OpenedFile();
      Known();
      AddressIsSlot(id);
      SlotExists(index, layout, id);
      SlotDecodes(file, index, layout, SlotOf(layout, id));
    }

    lemma OpenedFile()
      requires Opened()
      ensures IsArtifact(file, index, layout) && shape() == ShapeOf(index) && count == index.graph.count
    {
      hide IsArtifact, RecordBytes;
    }

    method ClearCache()
      requires Valid()
      modifies this`cache, this`pageCache
      ensures Valid() && State() == old(State()).(cached := {}, pages := {})
    {
      hide IsArtifact;
      cache := map[];
      pageCache := {};
    }

    method ResetStats()
      requires Valid()
      modifies this
      ensures Valid() && State() == old(State()).(requests := 0, bytes := 0, decoded := 0, ranges := [])
    {
      hide IsArtifact;
      hide IsNode;
      rangeRequests, rangeBytes, rangeNodesDecoded, currentRanges := 0, 0, 0, [];
    }

    // ---------- pages ----------

    /** Page of a node by its map entry; zero when the entry is not an ordinal of the file. */
    function PageOf(id: nat, recordsPerPage: nat): nat
      requires id < |originalToLocation| && recordsPerPage > 0
    {
      var o := OrdinalForId(id);
      if o.Success? then o.value / recordsPerPage else 0
    }

    /** The most whole records that fit the page size, and at least one. */
    function RecordsPerPage(pageSize: nat): (r: nat)
      ensures r >= 1
      ensures recordBytes > 0 ==> (r == 1 || r * recordBytes <= pageSize) && pageSize < (r + 1) * recordBytes
    {
      WholeRecords(pageSize, recordBytes);
      if recordBytes == 0 then 1 else Max(1, pageSize / recordBytes)
    }

    ghost predicate Unaddressable(ids: seq<nat>, cached: set<nat>) {
      exists k :: 0 <= k < |ids| && ids[k] !in cached && ids[k] < |originalToLocation| && OrdinalForId(ids[k]).Failure?
    }

    /** The map entry of a node is no ordinal exactly when it has the router bit, that is for version 2 upper-level nodes. */
    lemma OrdinalFails(id: nat)
      requires Opened() && id < count
      ensures id < |originalToLocation| && id < |index.levels|
      ensures OrdinalForId(id).Failure? <==> version == 2 && index.levels[id] > 0
    {
      Known();
      AddressIsSlot(id);
      SlotExists(index, layout, id);
      var s := SlotOf(layout, id);
      hide IsArtifact, RecordBytes;
      assert originalToLocation[id] == LocationOf(layout, s);
    }

    /** Some requested node is an uncached upper-level one. */
    ghost predicate RouterAsked(ids: seq<nat>, cached: set<nat>) {
      exists id :: id in ids && id !in cached && id < |index.levels| && index.levels[id] > 0
    }

    lemma Addressable(ids: seq<nat>, cached: set<nat>)
      requires Opened() && AllBelow(ids, count)
      ensures Unaddressable(ids, cached) <==> version == 2 && RouterAsked(ids, cached)
    {
      hide IsArtifact, RecordBytes, OrdinalForId;
      forall k | 0 <= k < |ids|
        ensures ids[k] < |originalToLocation| && ids[k] < |index.levels|
        ensures OrdinalForId(ids[k]).Failure? <==> version == 2 && index.levels[ids[k]] > 0
      {
        OrdinalFails(ids[k]);
      }
      if version == 2 && RouterAsked(ids, cached) {
        var id :| id in ids && id !in cached && id < |index.levels| && index.levels[id] > 0;
        var k :| 0 <= k < |ids| && ids[k] == id;
        assert ids[k] !in cached && OrdinalForId(ids[k]).Failure?;
      }
    }

    /** The pages of the uncached ids that are not marked as fetched. */
    ghost predicate NeededPages(pages: seq<nat>, ids: seq<nat>, before: Reading, recordsPerPage: nat) {
      && Increasing(pages)
      && forall p: nat :: p in pages <==>
           && p !in before.pages
           && exists k :: 0 <= k < |ids| && ids[k] !in before.cached && ids[k] < |originalToLocation|
                && recordsPerPage > 0 && PageOf(ids[k], recordsPerPage) == p
    }

    method CollectPages(ids: seq<nat>, recordsPerPage: nat) returns (r: Result<seq<nat>>)
      requires Valid() && AllBelow(ids, count) && recordsPerPage > 0
      ensures r.Failure? <==> Unaddressable(ids, cache.Keys)
      ensures r.Success? ==> NeededPages(r.value, ids, State(), recordsPerPage)
      ensures r.Success? ==> forall k :: 0 <= k < |r.value| ==> r.value[k] * recordsPerPage < count
    {
      hide IsNode;
      hide RecordBytes;
      Known();
      hide IsArtifact;
      var pages: seq<nat> := [];
      for i := 0 to |ids|
        invariant Distinct(pages) && forall k :: 0 <= k < |pages| ==> pages[k] * recordsPerPage < count
        invariant forall k :: 0 <= k < i ==> ids[k] in cache || OrdinalForId(ids[k]).Success?
        invariant forall p: nat :: p in pages <==>
          && p !in pageCache
          && exists k :: 0 <= k < i && ids[k] !in cache && PageOf(ids[k], recordsPerPage) == p
      {
        var id := ids[i];
        if id in cache { continue; }
        var o := OrdinalForId(id);
        if o.Failure? { return Failure(o.error); }
        var page := o.value / recordsPerPage;
        assert PageOf(ids[i], recordsPerPage) == page;
        PageStart(o.value, recordsPerPage, count);
        if page !in pageCache && page !in pages {
          pages := pages + [page];
        }
      }
      SortedPages(pages);
      hide SortedUp, Distinct, OrdinalForId, Increasing, PageOf;
      var sorted := SortedUp(pages);
      forall k | 0 <= k < |sorted| ensures sorted[k] * recordsPerPage < count { assert sorted[k] in pages; }
      r := Success(sorted);
    }

    method PrefetchPages(ids: seq<nat>, pageSize: nat) returns (r: Result<nat>, ghost pages: seq<nat>)
      requires Valid() && AllBelow(ids, count)
      modifies this
      ensures Valid()
      ensures r.Failure? <==> version == 2 && RouterAsked(ids, old(cache.Keys))
      ensures r.Failure? ==> State() == old(State())
      ensures r.Success? ==> NeededPages(pages, ids, old(State()), RecordsPerPage(pageSize)) && r.value == |pages|
      ensures r.Success? ==> State() == AfterPages(index, layout, old(State()), RecordsPerPage(pageSize), pages)
      ensures r.Success? ==>
        var perPage := RecordsPerPage(pageSize);
        && rangeRequests == old(rangeRequests) + |pages| && pageCache == old(pageCache) + Elements(pages)
        && rangeBytes == old(rangeBytes) + |PageSlots(count, perPage, pages)| * recordBytes
        && rangeNodesDecoded == old(rangeNodesDecoded) + |cache.Keys - old(cache.Keys)|
        && currentRanges == old(currentRanges) + PageRanges(recordsOffset, recordBytes, count, perPage, pages)
      ensures old(cache.Keys) <= cache.Keys
      ensures version == 1 ==> forall id :: id in ids ==>
        (id in cache <==> id in old(cache) || PageOf(id, RecordsPerPage(pageSize)) !in old(pageCache))
    {
      hide IsArtifact;
      hide IsNode;
      hide RecordBytes;
      ghost var before := State();
      pages := [];
      var recordsPerPage := RecordsPerPage(pageSize);
      var needed := CollectPages(ids, recordsPerPage);
      Addressable(ids, cache.Keys);
      if needed.Failure? { return Failure(needed.error), []; }
      pages := needed.value;
      hide NeededPages, Unaddressable, RouterAsked;
      ReadPages(needed.value, recordsPerPage);
      r := Success(|needed.value|);
      AfterPagesLoaded(index, layout, before, recordsPerPage, pages);
      PagesCounted(before, recordsPerPage, pages);
      if version == 1 { PagesCoverExactly(ids, before, recordsPerPage, pages); }
    }

    lemma PagesCounted(before: Reading, recordsPerPage: nat, pages: seq<nat>)
      requires Opened() && recordsPerPage > 0 && Increasing(pages)
      requires forall k :: 0 <= k < |pages| ==> pages[k] * recordsPerPage < count
      ensures
        Counted(before, AfterPages(index, layout, before, recordsPerPage, pages), |PageSlots(count, recordsPerPage, pages)|,
          recordBytes, PageRanges(recordsOffset, recordBytes, count, recordsPerPage, pages))
    {
      hide *;
      IncreasingDistinct(pages);
      RecordGrid();
      AfterPagesTotals(index, layout, before, recordsPerPage, pages);
    }

    /** Where the record grid starts, and how wide a record is. */
    lemma RecordGrid()
      requires Opened()
      ensures recordBytes == RecordBytes(ShapeOf(index)) && count == |layout.slots|
      ensures recordsOffset == HeaderSize(layout) + 4 * |layout.locations|
    {
      Known();
    }

    method ReadPages(pages: seq<nat>, recordsPerPage: nat)
      requires Valid() && recordsPerPage > 0
      requires forall k :: 0 <= k < |pages| ==> pages[k] * recordsPerPage < count
      modifies this
      ensures Valid() && State() == AfterPages(index, layout, old(State()), recordsPerPage, pages)
    {
      hide IsArtifact;
      hide IsNode;
      hide RecordBytes;
      hide AfterPages;
      hide AfterPage;
      AfterNoPages(index, layout, State(), recordsPerPage);
      for i := 0 to |pages|
        invariant Valid() && State() == AfterPages(index, layout, old(State()), recordsPerPage, pages[..i])
      {
        ReadPage(pages[i], recordsPerPage);
        AfterPagesAppend(index, layout, old(State()), recordsPerPage, pages[..i], pages[i]);
        assert pages[..i + 1] == pages[..i] + [pages[i]];
      }
      assert pages[..|pages|] == pages;
    }

    method ReadPage(page: nat, recordsPerPage: nat)
      requires Valid() && recordsPerPage > 0 && page * recordsPerPage < count
      modifies this
      ensures Valid() && State() == AfterPage(index, layout, old(State()), recordsPerPage, page)
    {
      hide IsNode, IsArtifact, RecordBytes, SlotAddress, SlotIds, PageEnd, AfterRequest, Min;
      var startOrdinal := page * recordsPerPage;
      PageAddresses(page, recordsPerPage, startOrdinal);
      var n := Min(recordsPerPage, count - startOrdinal);
      var startByte := recordsOffset + startOrdinal * recordBytes;
      pageCache := pageCache + {page};
      Flush(startByte, startByte + n * recordBytes, startOrdinal, PageEnd(count, recordsPerPage, page));
    }

    lemma PageAddresses(page: nat, recordsPerPage: nat, first: nat)
      requires Opened() && first == page * recordsPerPage < count
      ensures count == |layout.slots| && first <= PageEnd(count, recordsPerPage, page) <= count
      ensures recordsOffset + first * recordBytes == SlotAddress(index, layout, first)
      ensures recordsOffset + first * recordBytes + Min(recordsPerPage, count - first) * recordBytes
        == SlotAddress(index, layout, PageEnd(count, recordsPerPage, page))
    {
      Known();
      hide IsArtifact, RecordBytes, IsNode;
      PageEndsAt(count, recordsPerPage, page);
      RunEnd(index, layout, page * recordsPerPage, Min(recordsPerPage, count - page * recordsPerPage));
    }

    /** On version 1 a node lies on the page its map entry names, and on no other. */
    lemma OnItsPage(id: nat, recordsPerPage: nat, p: nat)
      requires Opened() && version == 1 && id < count && recordsPerPage > 0
      ensures id < |originalToLocation| && OrdinalForId(id).Success?
      ensures id in PageIds(layout, recordsPerPage, p) <==> p == PageOf(id, recordsPerPage)
    {
      Known();
      AddressIsSlot(id);
      hide IsArtifact, RecordBytes;
      SlotExists(index, layout, id);
      SlotOnPage(layout, recordsPerPage, SlotOf(layout, id), p);
    }

    /** Version 1: page reads never fail, and leave a requested node uncached exactly when its page was already marked. */
    lemma PagesCoverExactly(ids: seq<nat>, before: Reading, recordsPerPage: nat, pages: seq<nat>)
      requires Opened() && version == 1 && AllBelow(ids, count) && recordsPerPage > 0
      requires NeededPages(pages, ids, before, recordsPerPage)
      ensures count == |originalToLocation| && !Unaddressable(ids, before.cached)
      ensures forall id :: id in ids ==>
        (id in AfterPages(index, layout, before, recordsPerPage, pages).cached
        <==> id in before.cached || PageOf(id, recordsPerPage) !in before.pages)
    {
      Known();
      hide IsArtifact, RecordBytes;
      forall k | 0 <= k < |ids|
        ensures OrdinalForId(ids[k]).Success?
        ensures ids[k] in AfterPages(index, layout, before, recordsPerPage, pages).cached
          <==> ids[k] in before.cached || PageOf(ids[k], recordsPerPage) !in before.pages
      {
        PageCoversExactly(ids, before, recordsPerPage, pages, k);
      }
    }

    lemma PageCoversExactly(ids: seq<nat>, before: Reading, recordsPerPage: nat, pages: seq<nat>, k: nat)
      requires Opened() && version == 1 && AllBelow(ids, count) && recordsPerPage > 0 && k < |ids|
      requires NeededPages(pages, ids, before, recordsPerPage)
      ensures ids[k] < |originalToLocation| && OrdinalForId(ids[k]).Success?
      ensures ids[k] in AfterPages(index, layout, before, recordsPerPage, pages).cached
        <==> ids[k] in before.cached || PageOf(ids[k], recordsPerPage) !in before.pages
    {
      var p := PageOf(ids[k], recordsPerPage);
      OnItsPage(ids[k], recordsPerPage, p);
      AfterPagesCached(index, layout, before, recordsPerPage, pages, ids[k]);
      hide IsArtifact, RecordBytes, AfterPages, PageIds;
      forall q | q in pages && ids[k] in PageIds(layout, recordsPerPage, q) ensures q == p {
        OnItsPage(ids[k], recordsPerPage, q);
      }
      assert ids[k] !in before.cached ==> (p in pages <==> p !in before.pages);
    }

    /** So the request is covered when every marked page is truly loaded at this page size, which page reads preserve. */
    lemma PagesCoverRequest(ids: seq<nat>, before: Reading, recordsPerPage: nat, pages: seq<nat>)
      requires Opened() && version == 1 && AllBelow(ids, count) && recordsPerPage > 0
      requires NeededPages(pages, ids, before, recordsPerPage)
      requires PagesLoaded(layout, before, recordsPerPage)
      ensures !Unaddressable(ids, before.cached)
      ensures
        var after := AfterPages(index, layout, before, recordsPerPage, pages);
        PagesLoaded(layout, after, recordsPerPage) && forall id :: id in ids ==> id in after.cached
    {
      PagesCoverExactly(ids, before, recordsPerPage, pages);
      AfterPagesLoaded(index, layout, before, recordsPerPage, pages);
      hide IsArtifact, RecordBytes, AfterPages;
      forall k | 0 <= k < |ids| ensures PageOf(ids[k], recordsPerPage) in before.pages ==> ids[k] in before.cached {
        OnItsPage(ids[k], recordsPerPage, PageOf(ids[k], recordsPerPage));
      }
    }

    /**
     Marks are page numbers only, so they mean nothing at another page size: once page 0 was read at one record a page,
     asking for the second record at two a page reads nothing, and the node stays uncached.
     */
    lemma PageSizeChangeMisses(before: Reading)
      requires Opened() && version == 1 && count >= 2
      requires before.pages == {0} && before.cached == PageIds(layout, 1, 0)
      ensures layout.slots[1] < count && layout.slots[1] !in before.cached
      ensures PagesLoaded(layout, before, 1) && !PagesLoaded(layout, before, 2)
      ensures layout.slots[1] < |originalToLocation| && PageOf(layout.slots[1], 2) == 0
      ensures NeededPages([], [layout.slots[1]], before, 2)
    {
      Known();
      hide IsArtifact, RecordBytes, IsNode, PageIds;
      var id := layout.slots[1];
      SecondSlot();
      SlotOnPage(layout, 1, 1, 0);
      SlotOnPage(layout, 2, 1, 0);
      assert id in PageIds(layout, 2, 0);
    }

    lemma SecondSlot()
      requires Opened() && version == 1 && count >= 2
      ensures |layout.slots| == count == |originalToLocation| && layout.slots[1] < count && Distinct(layout.slots)
      ensures PageOf(layout.slots[1], 2) == 0
    {
      Known();
      hide IsArtifact, RecordBytes;
      SlotOfSlot(index, layout, 1);
      AddressIsSlot(layout.slots[1]);
    }

    /** That state is one real calls reach: the two requests name the first two records of the file. */
    method ChangePageSize(first: nat, second: nat) returns (requests: nat)
      requires Valid() && version == 1 && |layout.slots| >= 2 && layout.slots[0] == first && layout.slots[1] == second
      modifies this
      ensures Valid() && requests == 0
      ensures second < count && second !in cache && first in cache
    {
      ReadFirstPage(first);
      ghost var before := State();
      FirstTwo(first, second);
      PageSizeChangeMisses(before);
      TwoRecordPages();
      hide IsArtifact, RecordBytes, IsNode, AfterPages, PageIds, NeededPages, RouterAsked, PagesLoaded, PageOf, RecordsPerPage;
      ghost var pages;
      var r;
      r, pages := PrefetchPages([second], 2 * recordBytes);
      SameNeeded(pages, [second], before, 2);
      AfterNoPages(index, layout, before, 2);
      requests := r.value;
    }

    method ReadFirstPage(first: nat)
      requires Valid() && version == 1 && |layout.slots| >= 2 && layout.slots[0] == first
      modifies this
      ensures Valid() && pageCache == {0} && cache.Keys == PageIds(layout, 1, 0)
    {
      FirstTwo(first, layout.slots[1]);
      hide IsArtifact, RecordBytes, IsNode, AfterPages, PageIds, NeededPages, RouterAsked, PageOf, RecordsPerPage;
      ClearCache();
      ghost var empty := State();
      ghost var pages;
      var r;
      r, pages := PrefetchPages([first], recordBytes);
      FirstPageOnly(first, empty, pages);
    }

    lemma FirstTwo(first: nat, second: nat)
      requires Opened() && version == 1 && |layout.slots| >= 2 && layout.slots[0] == first && layout.slots[1] == second
      ensures count >= 2 && first < count && second < count && |originalToLocation| == count
      ensures first in PageIds(layout, 1, 0)
    {
      Known();
      hide IsArtifact, RecordBytes, IsNode, PageIds;
      SlotOfSlot(index, layout, 0);
      SlotOfSlot(index, layout, 1);
      SlotOnPage(layout, 1, 0, 0);
    }

    lemma TwoRecordPages()
      requires Opened()
      ensures RecordsPerPage(2 * recordBytes) == 2
    {
      Known();
      hide *;
      TwoRecords(RecordsPerPage(2 * recordBytes), recordBytes);
    }

    lemma FirstPageOnly(first: nat, empty: Reading, pages: seq<nat>)
      requires Opened() && version == 1 && count >= 2 && layout.slots[0] == first < count
      requires empty.cached == {} && empty.pages == {} && NeededPages(pages, [first], empty, RecordsPerPage(recordBytes))
      ensures RecordsPerPage(recordBytes) == 1
      ensures
        var after := AfterPages(index, layout, empty, 1, pages);
        after.pages == {0} && after.cached == PageIds(layout, 1, 0)
    {
      FirstSlot(first);
      hide IsArtifact, RecordBytes, Opened, NeededPages, AfterPages, PageIds, PageOf, RecordsPerPage, PagesLoaded;
      assert [first][0] == first;
      SameNeeded(pages, [first], empty, 1);
      AfterPagesLoaded(index, layout, empty, 1, pages);
      forall x ensures x in AfterPages(index, layout, empty, 1, pages).cached <==> x in PageIds(layout, 1, 0) {
        AfterPagesCached(index, layout, empty, 1, pages, x);
      }
    }

    lemma FirstSlot(first: nat)
      requires Opened() && version == 1 && count >= 2 && layout.slots[0] == first < count
      ensures first < |originalToLocation| && RecordsPerPage(recordBytes) == 1 && PageOf(first, 1) == 0
    {
      Known();
      hide IsArtifact, RecordBytes;
      SlotOfSlot(index, layout, 0);
      AddressIsSlot(first);
      OneRecord(RecordsPerPage(recordBytes), recordBytes);
    }

    /** The list of needed pages has at most one entry when one node is asked for. */
    lemma SameNeeded(pages: seq<nat>, ids: seq<nat>, before: Reading, recordsPerPage: nat)
      requires NeededPages(pages, ids, before, recordsPerPage) && |ids| == 1 && recordsPerPage > 0
      requires ids[0] < |originalToLocation|
      ensures
        var p := PageOf(ids[0], recordsPerPage);
        pages == if p !in before.pages && ids[0] !in before.cached then [p] else []
    {
      var p := PageOf(ids[0], recordsPerPage);
      assert |pages| > 1 ==> pages[0] < pages[1];
      forall q: nat ensures q in pages <==> q == p && p !in before.pages && ids[0] !in before.cached {
        assert PageOf(ids[0], recordsPerPage) == p;
      }
      forall i | 0 <= i < |pages| ensures pages[i] == p { assert pages[i] in pages; }
      assert p in pages <==> p !in before.pages && ids[0] !in before.cached;
      if pages != [] { assert pages == [pages[0]]; }
    }

    // ---------- bulk loads ----------

    /** `loadRouterSegment`: the router records, without touching the counters. */
    method LoadRouterSegment() returns (records: nat, bytes: nat)
      requires Valid()
      modifies this`cache
      ensures Valid() && State() == old(State()).(cached := old(cache.Keys) + SlotIds(layout, 0, layout.routers))
      ensures records == layout.routers && bytes == layout.routers * recordBytes
    {
      hide IsNode;
      hide RecordBytes;
      Known();
      hide IsArtifact;
      SlotIdsEmpty(layout, 0);
      if version < 2 || routerCount == 0 { return 0, 0; }
      RunLength(index, layout, 0, routerCount);
      bytes := routerCount * recordBytes;
      var decoded := CacheRecords(routerRecordsOffset, bytes, 0, routerCount);
      records := routerCount;
    }

    /** `loadOrdinalPrefix`: the first records of the file in chunks, without touching the counters. */
    method LoadOrdinalPrefix(prefixRecords: nat, chunkBytes: nat) returns (records: nat, bytes: nat)
      requires Valid()
      modifies this`cache
      ensures Valid() && records == Min(prefixRecords, count) && bytes == records * recordBytes
      ensures State() == old(State()).(cached := old(cache.Keys) + SlotIds(layout, 0, records))
    {
      hide IsNode;
      hide RecordBytes;
      Known();
      hide IsArtifact;
      hide SlotIds;
      var n := Min(prefixRecords, count);
      SlotIdsEmpty(layout, 0);
      var chunkRecords := Max(1, chunkBytes / recordBytes);
      var startOrdinal: nat := 0;
      ghost var done: nat := 0;
      while startOrdinal < n
        invariant Valid() && done == Min(startOrdinal, n)
        invariant cache.Keys == old(cache.Keys) + SlotIds(layout, 0, done)
      {
        var m := Min(chunkRecords, n - startOrdinal);
        ReadChunk(startOrdinal, m);
        SlotIdsSplit(layout, 0, startOrdinal, startOrdinal + m);
        done := startOrdinal + m;
        startOrdinal := startOrdinal + chunkRecords;
      }
      return n, n * recordBytes;
    }

    /** `loadUpperLayerNodes`: one streaming pass over the records, then exactly the nodes above level 0 are cached. */
    method LoadUpperLayerNodes() returns (records: nat)
      requires Valid()
      modifies this
      ensures Valid() && pageCache == old(pageCache)
      ensures cache.Keys == old(cache.Keys) + set id: nat | id < count && index.levels[id] > 0
      ensures records == |(set id: nat | id < count && index.levels[id] > 0) - old(cache.Keys)|
      ensures State() == if records == 0 then old(State()) else Reading(cache.Keys, pageCache, 0, 0, 0, [])
    {
      hide IsNode;
      hide RecordBytes;
      Known();
      var ids := UpperIds();
      hide IsArtifact;
      assert Elements(ids) == set id: nat | id < count && index.levels[id] > 0;
      records := LoadNodeSet(ids);
    }

    method UpperIds() returns (ids: seq<nat>)
      requires Valid()
      ensures AllBelow(ids, count) && forall id: nat :: id < count ==> (id in ids <==> index.levels[id] > 0)
    {
      hide IsNode;
      hide IsArtifact;
      hide RecordBytes;
      hide Decode;
      Known();
      ids := [];
      for s := 0 to count
        invariant AllBelow(ids, count)
        invariant forall id: nat :: id in ids <==> exists t :: 0 <= t < s && layout.slots[t] == id && index.levels[id] > 0
      {
        SlotDecodes(file, index, layout, s);
        var address := recordsOffset + s * recordBytes;
        var record := file[address..address + recordBytes];
        if Read16(record, 4) > 0 { ids := ids + [Read32(record, 0)]; }
      }
      forall id: nat | id < count ensures id in ids <==> index.levels[id] > 0 {
        SlotExists(index, layout, id);
      }
    }

    method ReadChunk(startOrdinal: nat, n: nat)
      requires Valid() && startOrdinal + n <= count
      modifies this`cache
      ensures Valid() && cache.Keys == old(cache.Keys) + SlotIds(layout, startOrdinal, startOrdinal + n)
    {
      hide IsNode;
      hide RecordBytes;
      Known();
      hide IsArtifact;
      RunLength(index, layout, startOrdinal, startOrdinal + n);
      var bytes := n * recordBytes;
      var decoded := CacheRecords(recordsOffset + startOrdinal * recordBytes, bytes, startOrdinal, startOrdinal + n);
    }

    /** `loadNodeSet`: exactly the given nodes become resident; the counters restart when anything was read. */
    method LoadNodeSet(ids: seq<nat>) returns (records: nat)
      requires Valid() && AllBelow(ids, count)
      modifies this
      ensures Valid() && cache.Keys == old(cache.Keys) + Elements(ids) && pageCache == old(pageCache)
      ensures records == |Elements(ids) - old(cache.Keys)|
      ensures State() == if records == 0 then old(State()) else Reading(cache.Keys, pageCache, 0, 0, 0, [])
    {
      hide IsNode;
      hide IsArtifact;
      hide RecordBytes;
      ghost var before := State();
      var addresses;
      ghost var found;
      addresses, found := CollectAddresses(ids);
      DistinctSize(found);
      records := |addresses|;
      if |addresses| > 0 {
        var requests;
        ghost var slots;
        requests, slots := Prefetch(ids, 0);
        AllRequestedCached(before, slots, ids, 0);
        AfterRunsTotals(index, layout, before, Runs(slots, SlotGap(0)));
        ResetStats();
      } else {
        assert Elements(found) == {};
        forall x | x in Elements(ids) ensures x in cache.Keys {
          assert x !in Elements(ids) - cache.Keys;
        }
        assert cache.Keys == cache.Keys + Elements(ids);
      }
    }

    // ---------- custom pages ----------

    /** Ids that are neither cached nor on a custom page. */
    ghost predicate Residual(residual: seq<nat>, ids: seq<nat>, cached: set<nat>, assignedNodes: set<nat>) {
      forall x :: x in residual <==> x in ids && x !in cached && x !in assignedNodes
    }

    /** Entry k of the request is uncached and on page p. */
    ghost predicate Asks(ids: seq<nat>, k: nat, cached: set<nat>, nodeToPage: map<nat, nat>, p: nat)
      requires k < |ids|
    {
      ids[k] !in cached && ids[k] in nodeToPage && nodeToPage[ids[k]] == p
    }

    ghost predicate AskedBefore(ids: seq<nat>, cached: set<nat>, nodeToPage: map<nat, nat>, p: nat, q: nat) {
      exists k :: 0 <= k < |ids| && Asks(ids, k, cached, nodeToPage, p) && forall m :: 0 <= m <= k ==> !Asks(ids, m, cached, nodeToPage, q)
    }

    /** The pages stand in the order in which the request first asks for them. */
    ghost predicate FirstAsked(pageIds: seq<nat>, ids: seq<nat>, cached: set<nat>, nodeToPage: map<nat, nat>) {
      forall i, j :: 0 <= i < j < |pageIds| ==> AskedBefore(ids, cached, nodeToPage, pageIds[i], pageIds[j])
    }

    lemma FirstAskedNext(pageIds: seq<nat>, ids: seq<nat>, id: nat, cached: set<nat>, nodeToPage: map<nat, nat>)
      requires FirstAsked(pageIds, ids, cached, nodeToPage)
      ensures FirstAsked(pageIds, ids + [id], cached, nodeToPage)
    {
      forall i, j | 0 <= i < j < |pageIds| ensures AskedBefore(ids + [id], cached, nodeToPage, pageIds[i], pageIds[j]) {
        AskedBeforeNext(ids, id, cached, nodeToPage, pageIds[i], pageIds[j]);
      }
    }

    lemma AskedBeforeNext(ids: seq<nat>, id: nat, cached: set<nat>, nodeToPage: map<nat, nat>, p: nat, q: nat)
      requires AskedBefore(ids, cached, nodeToPage, p, q)
      ensures AskedBefore(ids + [id], cached, nodeToPage, p, q)
    {
      var k :| 0 <= k < |ids| && Asks(ids, k, cached, nodeToPage, p) && forall m :: 0 <= m <= k ==> !Asks(ids, m, cached, nodeToPage, q);
      assert Asks(ids + [id], k, cached, nodeToPage, p);
      forall m | 0 <= m <= k ensures !Asks(ids + [id], m, cached, nodeToPage, q) { assert !Asks(ids, m, cached, nodeToPage, q); }
    }

    lemma FirstAskedAdds(pageIds: seq<nat>, ids: seq<nat>, id: nat, cached: set<nat>, nodeToPage: map<nat, nat>, marked: set<nat>)
      requires FirstAsked(pageIds, ids, cached, nodeToPage) && NeededCustomPages(pageIds, ids, cached, nodeToPage, marked)
      requires id in nodeToPage && nodeToPage[id] !in pageIds && nodeToPage[id] !in marked
      ensures FirstAsked(pageIds + [nodeToPage[id]], ids + [id], cached, nodeToPage)
    {
      var p := nodeToPage[id];
      FirstAskedNext(pageIds, ids, id, cached, nodeToPage);
      forall i | 0 <= i < |pageIds| ensures AskedBefore(ids, cached, nodeToPage, pageIds[i], p) {
        assert pageIds[i] in pageIds;
        var k :| 0 <= k < |ids| && ids[k] !in cached && ids[k] in nodeToPage && nodeToPage[ids[k]] == pageIds[i];
        assert Asks(ids, k, cached, nodeToPage, pageIds[i]);
        assert forall m :: 0 <= m <= k ==> !Asks(ids, m, cached, nodeToPage, p);
      }
      forall i | 0 <= i < |pageIds| ensures AskedBefore(ids + [id], cached, nodeToPage, pageIds[i], p) {
        AskedBeforeNext(ids, id, cached, nodeToPage, pageIds[i], p);
      }
      hide AskedBefore, NeededCustomPages;
    }

    /** Custom pages of the uncached ids that are not marked as fetched. */
    ghost predicate NeededCustomPages(
      pageIds: seq<nat>, ids: seq<nat>, cached: set<nat>, nodeToPage: map<nat, nat>, marked: set<nat>)
    {
      && Distinct(pageIds)
      && forall p :: p in pageIds <==>
           p !in marked && exists k :: 0 <= k < |ids| && ids[k] !in cached && ids[k] in nodeToPage && nodeToPage[ids[k]] == p
    }

    lemma NoneAsked(cached: set<nat>, nodeToPage: map<nat, nat>)
      ensures FirstAsked([], [], cached, nodeToPage)
    {}

    method CollectCustomPages(ids: seq<nat>, custom: PageLayout) returns (pageIds: seq<nat>, residual: seq<nat>)
      requires Valid()
      ensures NeededCustomPages(pageIds, ids, cache.Keys, custom.nodeToPage, custom.pageCache)
      ensures FirstAsked(pageIds, ids, cache.Keys, custom.nodeToPage)
      ensures Residual(residual, ids, cache.Keys, custom.nodeToPage.Keys)
    {
      hide IsArtifact;
      hide IsNode;
      hide RecordBytes;
      hide FirstAsked;
      pageIds, residual := [], [];
      NoneAsked(cache.Keys, custom.nodeToPage);
      assert ids[..0] == [];
      for i := 0 to |ids|
        invariant NeededCustomPages(pageIds, ids[..i], cache.Keys, custom.nodeToPage, custom.pageCache)
        invariant FirstAsked(pageIds, ids[..i], cache.Keys, custom.nodeToPage)
        invariant Residual(residual, ids[..i], cache.Keys, custom.nodeToPage.Keys)
      {
        var id := ids[i];
        assert ids[..i + 1] == ids[..i] + [id];
        ghost var sofar := ids[..i + 1];
        assert forall k :: 0 <= k < i ==> sofar[k] == ids[..i][k];
        assert sofar[i] == id;
        FirstAskedNext(pageIds, ids[..i], id, cache.Keys, custom.nodeToPage);
        if id in cache {
        } else if id !in custom.nodeToPage {
          residual := residual + [id];
        } else {
          var pageId := custom.nodeToPage[id];
          if pageId !in custom.pageCache && pageId !in pageIds {
            FirstAskedAdds(pageIds, ids[..i], id, cache.Keys, custom.nodeToPage, custom.pageCache);
            pageIds := pageIds + [pageId];
          }
        }
      }
      assert ids[..|ids|] == ids;
    }

    method ReadCustomPage(pageId: nat, page: seq<nat>)
      requires Valid() && AllBelow(page, count)
      modifies this
      ensures Valid() && State() == AfterCustomPage(old(State()), pageId, page, recordBytes)
    {
      hide IsArtifact;
      hide IsNode;
      hide RecordBytes;
      rangeRequests := rangeRequests + 1;
      rangeBytes := rangeBytes + |page| * recordBytes;
      currentRanges := currentRanges + [(-(pageId + 1), -(pageId + 1))];
      CachePage(page);
    }

    method CachePage(page: seq<nat>)
      requires Valid() && AllBelow(page, count)
      modifies this`cache, this`rangeNodesDecoded
      ensures Valid() && State() == Decoded(old(State()), Elements(page))
    {
      hide IsArtifact;
      hide IsNode;
      hide RecordBytes;
      hide Decoded;
      DecodedNone(State());
      assert Elements(page[..0]) == {};
      for i := 0 to |page|
        invariant Valid() && State() == Decoded(old(State()), Elements(page[..i]))
      {
        assert Elements(page[..i + 1]) == Elements(page[..i]) + {page[i]};
        DecodedTwice(old(State()), Elements(page[..i]), {page[i]});
        CacheDirect(page[i]);
      }
      assert page[..|page|] == page;
    }

    method CacheDirect(id: nat)
      requires Valid() && id < count
      modifies this`cache, this`rangeNodesDecoded
      ensures Valid() && State() == Decoded(old(State()), {id})
    {
      hide IsArtifact;
      hide IsNode;
      hide RecordBytes;
      if id !in cache {
        var node := ReadNodeDirect(id);
        cache := cache[id := node];
        rangeNodesDecoded := rangeNodesDecoded + 1;
        assert {id} - old(cache.Keys) == {id};
      } else {
        assert {id} - cache.Keys == {} && cache.Keys + {id} == cache.Keys;
      }
    }

    method ReadCustomPages(pageIds: seq<nat>, custom: PageLayout)
      requires Valid() && custom.Valid()
      requires forall p, k :: 0 <= p < |custom.pages| && 0 <= k < |custom.pages[p]| ==> custom.pages[p][k] < count
      requires forall k :: 0 <= k < |pageIds| ==> pageIds[k] < |custom.pages|
      modifies this, custom`pageCache
      ensures Valid() && custom.Valid() && custom.pageCache == old(custom.pageCache) + Elements(pageIds)
      ensures State() == AfterCustomPages(old(State()), pageIds, custom.pages, recordBytes)
    {
      hide IsArtifact;
      hide IsNode;
      hide RecordBytes;
      hide AfterCustomPage;
      for i := 0 to |pageIds|
        invariant Valid() && custom.Valid() && custom.pageCache == old(custom.pageCache) + Elements(pageIds[..i])
        invariant State() == AfterCustomPages(old(State()), pageIds[..i], custom.pages, recordBytes)
      {
        var pageId := pageIds[i];
        assert pageIds[..i + 1] == pageIds[..i] + [pageId];
        AfterCustomPagesAppend(old(State()), pageIds[..i], pageId, custom.pages, recordBytes);
        custom.pageCache := custom.pageCache + {pageId};
        ReadCustomPage(pageId, custom.pages[pageId]);
      }
      assert pageIds[..|pageIds|] == pageIds;
    }

    /**
     `prefetchCustomPages`: whole learned pages, then the residual ids by coalesced runs. An id stays uncached
     exactly when its page was already marked as fetched and no run reads over its record by the way.
     */
    method PrefetchCustomPages(ids: seq<nat>, custom: PageLayout, gap: nat)
      returns (requests: nat, ghost pageIds: seq<nat>, ghost residual: seq<nat>, ghost slots: seq<nat>)
      requires Valid() && custom.Valid() && AllBelow(ids, count)
      requires forall p, k :: 0 <= p < |custom.pages| && 0 <= k < |custom.pages[p]| ==> custom.pages[p][k] < count
      modifies this, custom`pageCache
      ensures Valid() && custom.Valid() && custom.pageCache == old(custom.pageCache) + Elements(pageIds)
      ensures NeededCustomPages(pageIds, ids, old(cache.Keys), custom.nodeToPage, old(custom.pageCache))
      ensures FirstAsked(pageIds, ids, old(cache.Keys), custom.nodeToPage)
      ensures Residual(residual, ids, old(cache.Keys), custom.nodeToPage.Keys)
      ensures forall k :: 0 <= k < |pageIds| ==> pageIds[k] < |custom.pages|
      ensures Prefetched(AfterCustomPages(old(State()), pageIds, custom.pages, recordBytes), slots, residual, ByteGapInSlots(gap))
      ensures requests == |pageIds| + |Runs(slots, ByteGapInSlots(gap))|
      ensures
        var runs := Runs(slots, ByteGapInSlots(gap));
        && rangeRequests == old(rangeRequests) + requests && pageCache == old(pageCache)
        && rangeBytes == old(rangeBytes) + (|ListedNodes(pageIds, custom.pages)| + Covered(runs)) * recordBytes
        && rangeNodesDecoded == old(rangeNodesDecoded) + |cache.Keys - old(cache.Keys)|
        && currentRanges == old(currentRanges) + Markers(pageIds) + RunRanges(recordsOffset, recordBytes, runs)
      ensures old(cache.Keys) <= cache.Keys
      ensures forall id :: id in ids ==>
        (id in cache
        <==> id in old(cache) || OffMarkedPages(custom, old(custom.pageCache), id)
             || id in RunsIds(layout, Runs(slots, ByteGapInSlots(gap))))
      ensures ByteGapInSlots(gap) == 0 ==> forall id :: id in ids ==>
        (id in cache <==> id in old(cache) || OffMarkedPages(custom, old(custom.pageCache), id))
    {
      hide *;
      ghost var cached: set<nat>, marked, before := cache.Keys, custom.pageCache, State();
      StateFields();
      requests, pageIds, residual, slots := FetchCustomPages(ids, custom, gap);
      StateFields();
      PagesThenRunsCounted(before, pageIds, custom, slots, ByteGapInSlots(gap));
      CountedFields(before, State(), |ListedNodes(pageIds, custom.pages)| + Covered(Runs(slots, ByteGapInSlots(gap))), recordBytes,
        Markers(pageIds) + RunRanges(recordsOffset, recordBytes, Runs(slots, ByteGapInSlots(gap))));
      CustomCovers(ids, before, marked, custom, pageIds, residual, slots, ByteGapInSlots(gap));
    }

    method FetchCustomPages(ids: seq<nat>, custom: PageLayout, gap: nat)
      returns (requests: nat, ghost pageIds: seq<nat>, ghost residual: seq<nat>, ghost slots: seq<nat>)
      requires Valid() && custom.Valid() && AllBelow(ids, count)
      requires forall p, k :: 0 <= p < |custom.pages| && 0 <= k < |custom.pages[p]| ==> custom.pages[p][k] < count
      modifies this, custom`pageCache
      ensures Valid() && custom.Valid() && custom.pageCache == old(custom.pageCache) + Elements(pageIds)
      ensures NeededCustomPages(pageIds, ids, old(cache.Keys), custom.nodeToPage, old(custom.pageCache)) && Distinct(pageIds)
      ensures FirstAsked(pageIds, ids, old(cache.Keys), custom.nodeToPage)
      ensures Residual(residual, ids, old(cache.Keys), custom.nodeToPage.Keys) && AllBelow(residual, count)
      ensures forall k :: 0 <= k < |pageIds| ==> pageIds[k] < |custom.pages|
      ensures Prefetched(AfterCustomPages(old(State()), pageIds, custom.pages, recordBytes), slots, residual, ByteGapInSlots(gap))
      ensures State() == AfterRuns(index, layout, AfterCustomPages(old(State()), pageIds, custom.pages, recordBytes),
                                   Runs(slots, ByteGapInSlots(gap)))
      ensures Increasing(slots) && requests == |pageIds| + |Runs(slots, ByteGapInSlots(gap))|
      ensures MissingSlots(layout, slots, residual, AfterCustomPages(old(State()), pageIds, custom.pages, recordBytes).cached)
    {
      hide IsNode, IsArtifact, RecordBytes, Opened, AfterRuns, AfterCustomPages, FirstAsked, Covered, RunRanges;
      var needed, rest := CollectCustomPages(ids, custom);
      pageIds, residual := needed, rest;
      forall k | 0 <= k < |pageIds| ensures pageIds[k] < |custom.pages| { assert pageIds[k] in pageIds; }
      ReadCustomPages(needed, custom);
      forall k | 0 <= k < |residual| ensures residual[k] < count { assert residual[k] in residual && residual[k] in ids; }
      requests, slots := PrefetchLocations(rest, gap);
      requests := |needed| + requests;
    }

    lemma StateFields()
      ensures State() == Reading(cache.Keys, pageCache, rangeRequests, rangeBytes, rangeNodesDecoded, currentRanges)
    {}

    /** Which requested nodes are cached after some custom pages and then some runs. */
    lemma CustomCovers(
      ids: seq<nat>, before: Reading, marked: set<nat>, custom: PageLayout, pageIds: seq<nat>, residual: seq<nat>, slots: seq<nat>,
      gap: nat)
      requires Valid() && custom.Valid() && AllBelow(ids, count) && AllBelow(residual, count)
      requires NeededCustomPages(pageIds, ids, before.cached, custom.nodeToPage, marked)
      requires Residual(residual, ids, before.cached, custom.nodeToPage.Keys)
      requires forall k :: 0 <= k < |pageIds| ==> pageIds[k] < |custom.pages|
      requires MissingSlots(layout, slots, residual, AfterCustomPages(before, pageIds, custom.pages, recordBytes).cached)
      ensures
        var runs := Runs(slots, gap);
        var after := AfterRuns(index, layout, AfterCustomPages(before, pageIds, custom.pages, recordBytes), runs).cached;
        && before.cached <= after
        && (forall id :: id in ids ==>
              (id in after <==> id in before.cached || OffMarkedPages(custom, marked, id) || id in RunsIds(layout, runs)))
        && (gap == 0 ==> forall id :: id in ids ==> (id in after <==> id in before.cached || OffMarkedPages(custom, marked, id)))
    {
      Known();
      hide IsNode, IsArtifact, RecordBytes, Opened, AfterRuns, AfterCustomPages, Runs, Covered, NeededCustomPages, MissingSlots, RunsIds;
      var mid := AfterCustomPages(before, pageIds, custom.pages, recordBytes);
      CustomPagesCached(before, pageIds, custom.pages, recordBytes);
      AfterRunsTotals(index, layout, mid, Runs(slots, gap));
      RunsCoverRequest(index, layout, slots, residual, mid.cached, gap);
      if gap == 0 { NoOverfetchAtGapZero(index, layout, slots, residual, mid.cached); }
      forall id | id in ids
        ensures id in mid.cached <==>
          id in before.cached || (id in custom.nodeToPage && custom.nodeToPage[id] !in marked)
      {
        CustomPageRead(ids, before.cached, marked, custom, pageIds, id);
      }
    }

    lemma PagesThenRunsCounted(before: Reading, pageIds: seq<nat>, custom: PageLayout, slots: seq<nat>, gap: nat)
      requires Valid() && Increasing(slots) && custom.Valid() && Distinct(pageIds)
      requires forall k :: 0 <= k < |pageIds| ==> pageIds[k] < |custom.pages|
      ensures
        var runs, mid := Runs(slots, gap), AfterCustomPages(before, pageIds, custom.pages, recordBytes);
        var after := AfterRuns(index, layout, mid, runs);
        && Covered(runs) >= 0 && after.pages == before.pages
        && Counted(before, after, |ListedNodes(pageIds, custom.pages)| + Covered(runs), recordBytes,
             Markers(pageIds) + RunRanges(recordsOffset, recordBytes, runs))
    {
      hide *;
      ValidIsOpened();
      PagesAreDisjoint(custom);
      CustomPagesCached(before, pageIds, custom.pages, recordBytes);
      var runs, mid := Runs(slots, gap), AfterCustomPages(before, pageIds, custom.pages, recordBytes);
      AfterCustomPagesTotals(before, pageIds, custom.pages, recordBytes);
      RunsCounted(mid, slots, gap);
      CountedThen(before, mid, AfterRuns(index, layout, mid, runs), |ListedNodes(pageIds, custom.pages)|, Covered(runs), recordBytes,
        Markers(pageIds), RunRanges(recordsOffset, recordBytes, runs));
    }

    lemma PagesAreDisjoint(custom: PageLayout)
      requires custom.Valid()
      ensures PagesDisjoint(custom.pages)
    {}

    /** Not on a custom page that was marked as fetched. */
    ghost predicate OffMarkedPages(custom: PageLayout, marked: set<nat>, id: nat)
      reads custom
    {
      id !in custom.nodeToPage || custom.nodeToPage[id] !in marked
    }

    /** A requested uncached node is on one of the custom pages read exactly when its own page was not marked. */
    lemma CustomPageRead(
      ids: seq<nat>, cached: set<nat>, marked: set<nat>, custom: PageLayout, pageIds: seq<nat>, id: nat)
      requires custom.Valid() && NeededCustomPages(pageIds, ids, cached, custom.nodeToPage, marked) && id in ids
      ensures id !in cached ==>
        (OnListedPage(pageIds, custom.pages, id) <==> id in custom.nodeToPage && custom.nodeToPage[id] !in marked)
      ensures id in custom.nodeToPage ==> custom.nodeToPage[id] < |custom.pages|
    {
      var k :| 0 <= k < |ids| && ids[k] == id;
      if id in custom.nodeToPage {
        var p := custom.nodeToPage[id];
        assert id in custom.pages[p];
      }
    }

    /** After the cache is cleared the page stays marked, so asking again reads nothing and the node stays uncached. */
    method ClearedCustomPage(custom: PageLayout, id: nat) returns (requests: nat)
      requires Valid() && custom.Valid() && id < count && id in custom.nodeToPage
      requires forall p, k :: 0 <= p < |custom.pages| && 0 <= k < |custom.pages[p]| ==> custom.pages[p][k] < count
      modifies this, custom`pageCache
      ensures Valid() && custom.Valid() && id !in cache && requests == 0
    {
      hide IsNode, IsArtifact, RecordBytes, RunsIds, Runs, AfterCustomPages, AfterRuns, MissingSlots, Opened, FirstAsked, Covered, RunRanges, Markers, ListedNodes;
      ghost var pageIds, residual, slots;
      AskForPage(custom, id);
      ClearCache();
      ghost var empty := State();
      requests, pageIds, residual, slots := PrefetchCustomPages([id], custom, 0);
      NothingAsked(layout, slots, residual, AfterCustomPages(empty, pageIds, custom.pages, recordBytes).cached);
      NoElements(pageIds);
    }

    /** On an empty cache, asking for a node on a custom page leaves the page marked. */
    method AskForPage(custom: PageLayout, id: nat)
      requires Valid() && custom.Valid() && id < count && id in custom.nodeToPage
      requires forall p, k :: 0 <= p < |custom.pages| && 0 <= k < |custom.pages[p]| ==> custom.pages[p][k] < count
      modifies this, custom`pageCache
      ensures Valid() && custom.Valid() && custom.nodeToPage[id] in custom.pageCache
    {
      hide IsNode, IsArtifact, RecordBytes, RunsIds, Runs, AfterCustomPages, AfterRuns, MissingSlots, Opened, FirstAsked, Covered,
        RunRanges, Markers, ListedNodes;
      ClearCache();
      ghost var pageIds, residual, slots;
      var requests;
      requests, pageIds, residual, slots := PrefetchCustomPages([id], custom, 0);
      assert [id][0] == id;
    }
  }

  /** The header is read into a zeroed buffer, so a file too short for the magic number does not have it. */
  predicate HasMagic(file: seq<byte>) {
    |file| >= 4 && Read32(file, 0) == MAGIC
  }

  lemma ArtifactLength(file: seq<byte>, index: Index, layout: Layout)
    requires IsArtifact(file, index, layout)
    ensures |file| >= 128
  {}

  /** Opening a file: refused unless it starts with the magic number. */
  method Open(file: seq<byte>, ghost index: Index, ghost layout: Layout) returns (r: Result<RangeArtifact>)
    requires HasMagic(file) ==> IsArtifact(file, index, layout)
    ensures r.Success? <==> HasMagic(file)
    ensures r.Success? ==> fresh(r.value) && r.value.Valid() && r.value.file == file
    ensures r.Success? ==> r.value.index == index && r.value.layout == layout
    ensures r.Success? ==> r.value.State() == Reading(SlotIds(layout, 0, layout.routers), {}, 0, 0, 0, [])
  {
    if HasMagic(file) { ArtifactLength(file, index, layout); }
    hide IsArtifact;
    if !HasMagic(file) { return Failure("not a Pikelet range artifact"); }
    var artifact := new RangeArtifact(file, index, layout);
    return Success(artifact);
  }
}
