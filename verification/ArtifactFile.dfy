/** The artifact's bytes: header, id-to-location map, then one record grid, and the two exporters that write them. */
module ArtifactFile {
  import opened Wrappers
  import opened Finite
  import opened RangeCoalescing
  import opened RecordCodec
  import opened RecordIO
  import opened ArtifactLayout

  const MAGIC: nat := 0x31415250
  const KIND_U8: nat := 1
  const METRIC_L2: nat := 0

  /** `slots[s]` is the node whose record is the s-th in the file; the first `routers` of them are the router segment. */
  datatype Layout = Layout(version: nat, slots: seq<nat>, routers: nat, locations: seq<nat>, parts: nat)

  function HeaderSize(layout: Layout): nat { if layout.version == 1 then 128 else 256 }

  function Origin(layout: Layout): nat { HeaderSize(layout) + 4 * |layout.locations| }

  function LocationOf(layout: Layout, s: nat): nat {
    if s < layout.routers then ROUTER_BIT + s else s - layout.routers
  }

  ghost predicate ValidLayout(index: Index, layout: Layout) {
    var count := index.graph.count;
    && (layout.version == 1 || layout.version == 2)
    && IsPermutation(layout.slots, count) && |layout.locations| == count
    && layout.routers <= count && |index.levels| == count
    && (layout.version == 1 ==> layout.routers == 0)
    && (layout.version == 2 ==> forall s: nat :: s < count ==> (s < layout.routers <==> index.levels[layout.slots[s]] > 0))
    && forall s: nat :: s < count ==> layout.locations[layout.slots[s]] == LocationOf(layout, s)
  }

  function HeaderWords(index: Index, layout: Layout): (r: seq<nat>)
    ensures |r| == if layout.version == 1 then 14 else 18
  {
    var rec := RecordBytes(ShapeOf(index));
    var words := [MAGIC, layout.version, KIND_U8, index.dim, index.graph.count, index.graph.entryPoint,
                  index.graph.maxLevel, index.M, index.M0, METRIC_L2, rec, HeaderSize(layout), Origin(layout), layout.parts];
    if layout.version == 1 then words
    else
      words + [layout.routers, if layout.routers <= |layout.slots| then |layout.slots| - layout.routers else 0,
               Origin(layout), Origin(layout) + layout.routers * rec]
  }

  function Zeros(n: nat): (r: seq<byte>)
    ensures |r| == n
  {
    seq(n, _ => 0)
  }

  ghost predicate SlotsInside(index: Index, slots: seq<nat>) {
    forall s :: 0 <= s < |slots| ==> slots[s] < index.graph.count
  }

  ghost function RecordAt(index: Index, id: nat): (r: seq<byte>)
    requires ValidIndex(index) && id < index.graph.count
    ensures |r| == RecordBytes(ShapeOf(index))
  {
    NodeFits(index, id);
    Encode(NodeOf(index, id), ShapeOf(index))
  }

  /** `bytes` stand in the file at `off`. */
  ghost predicate Region(file: seq<byte>, off: nat, bytes: seq<byte>) {
    off + |bytes| <= |file| && file[off..off + |bytes|] == bytes
  }

  lemma RegionKept(file: seq<byte>, more: seq<byte>, off: nat, bytes: seq<byte>)
    requires Region(file, off, bytes)
    ensures Region(file + more, off, bytes)
  {
    InPrefix(file, more, off, off + |bytes|);
  }

  lemma RegionAdded(file: seq<byte>, bytes: seq<byte>)
    ensures Region(file + bytes, |file|, bytes)
  {
    AtEnd(file, bytes);
  }

  /** Records of `ids`, `rec` bytes each, from `origin` on. */
  ghost predicate Segment(file: seq<byte>, index: Index, ids: seq<nat>, origin: nat)
    requires ValidIndex(index) && SlotsInside(index, ids)
  {
    forall s: nat :: s < |ids| ==> Region(file, origin + s * RecordBytes(ShapeOf(index)), RecordAt(index, ids[s]))
  }

  ghost predicate HasPreamble(file: seq<byte>, index: Index, layout: Layout) {
    && Fits(HeaderWords(index, layout), U32_LIMIT) && Fits(layout.locations, U32_LIMIT)
    && Region(file, 0, U32s(HeaderWords(index, layout)))
    && Region(file, HeaderSize(layout), U32s(layout.locations))
  }

  /** `file` is the artifact of `index` under `layout`: header, location map, and every record in its slot. */
  ghost predicate IsArtifact(file: seq<byte>, index: Index, layout: Layout) {
    && ValidIndex(index) && ValidLayout(index, layout)
    && HasPreamble(file, index, layout)
    && Segment(file, index, layout.slots, Origin(layout))
    && |file| == Origin(layout) + index.graph.count * RecordBytes(ShapeOf(index))
  }

  // ---------- what a reader finds in the file ----------

  lemma RegionField(file: seq<byte>, off: nat, ns: seq<nat>, i: nat)
    requires Fits(ns, U32_LIMIT) && Region(file, off, U32s(ns)) && i < |ns|
    ensures off + 4 * i + 4 <= |file| && Read32(file, off + 4 * i) == ns[i]
  {
    Read32At(file, off, off + 4 * |ns|, ns, i);
  }

  lemma HeaderField(file: seq<byte>, index: Index, layout: Layout, h: nat)
    requires HasPreamble(file, index, layout) && h < |HeaderWords(index, layout)|
    ensures 4 * h + 4 <= |file| && Read32(file, 4 * h) == HeaderWords(index, layout)[h]
  {
    hide HeaderWords;
    RegionField(file, 0, HeaderWords(index, layout), h);
  }

  lemma MapField(file: seq<byte>, index: Index, layout: Layout, id: nat)
    requires HasPreamble(file, index, layout) && id < |layout.locations|
    ensures HeaderSize(layout) + 4 * id + 4 <= |file|
    ensures Read32(file, HeaderSize(layout) + 4 * id) == layout.locations[id]
  {
    hide HeaderWords;
    RegionField(file, HeaderSize(layout), layout.locations, id);
  }

  /** The header fields, at their byte offsets. */
  lemma HeaderValues(file: seq<byte>, index: Index, layout: Layout)
    requires HasPreamble(file, index, layout) && |file| >= 128 && (layout.version == 1 || layout.version == 2)
    ensures Read32(file, 0) == MAGIC && Read32(file, 4) == layout.version && Read32(file, 12) == index.dim
    ensures Read32(file, 16) == index.graph.count && Read32(file, 20) == index.graph.entryPoint
    ensures Read32(file, 24) == index.graph.maxLevel && Read32(file, 28) == index.M && Read32(file, 32) == index.M0
    ensures Read32(file, 40) == RecordBytes(ShapeOf(index)) && Read32(file, 44) == HeaderSize(layout)
    ensures Read32(file, 48) == Origin(layout)
    ensures HeaderSize(layout) == (if layout.version == 1 then 128 else 256)
    ensures Read32(file, 8) == 1 && Read32(file, 36) == 0 && Read32(file, 52) == layout.parts
  {
    HeaderField(file, index, layout, 2);
    HeaderField(file, index, layout, 9);
    HeaderField(file, index, layout, 13);
    hide RecordBytes;
    hide Region;
    HeaderField(file, index, layout, 0);
    HeaderField(file, index, layout, 1);
    HeaderField(file, index, layout, 3);
    HeaderField(file, index, layout, 4);
    HeaderField(file, index, layout, 5);
    HeaderField(file, index, layout, 6);
    HeaderField(file, index, layout, 7);
    HeaderField(file, index, layout, 8);
    HeaderField(file, index, layout, 10);
    HeaderField(file, index, layout, 11);
    HeaderField(file, index, layout, 12);
  }

  lemma SplitHeaderValues(file: seq<byte>, index: Index, layout: Layout)
    requires HasPreamble(file, index, layout) && |file| >= 128 && layout.version == 2
    requires layout.routers <= |layout.slots|
    ensures Read32(file, 56) == layout.routers && Read32(file, 60) == |layout.slots| - layout.routers
    ensures Read32(file, 64) == Origin(layout)
    ensures Read32(file, 68) == Origin(layout) + layout.routers * RecordBytes(ShapeOf(index))
  {
    hide RecordBytes;
    hide Region;
    HeaderField(file, index, layout, 14);
    HeaderField(file, index, layout, 15);
    HeaderField(file, index, layout, 16);
    HeaderField(file, index, layout, 17);
  }

  /** The location map as the reader takes it from the file. */
  function ReadMap(file: seq<byte>, offset: nat, count: nat): (r: seq<nat>)
    requires offset + 4 * count <= |file|
    ensures |r| == count
  {
    seq(count, id requires 0 <= id < count => Read32(file, offset + 4 * id))
  }

  lemma MapValues(file: seq<byte>, index: Index, layout: Layout)
    requires HasPreamble(file, index, layout)
    ensures Origin(layout) <= |file|
    ensures ReadMap(file, HeaderSize(layout), |layout.locations|) == layout.locations
  {
    forall id: nat | id < |layout.locations|
      ensures Read32(file, HeaderSize(layout) + 4 * id) == layout.locations[id]
    {
      MapField(file, index, layout, id);
    }
  }

  function SlotAddress(index: Index, layout: Layout, s: nat): nat {
    Origin(layout) + s * RecordBytes(ShapeOf(index))
  }

  /** The map entry of the node in slot s: its position in its segment, with the top bit set in the router segment. */
  lemma MapEntry(file: seq<byte>, index: Index, layout: Layout, s: nat)
    requires IsArtifact(file, index, layout) && s < index.graph.count
    ensures |layout.slots| == index.graph.count && layout.slots[s] < index.graph.count && layout.routers <= index.graph.count
    ensures
      var at := (if layout.version == 1 then 128 else 256) + 4 * layout.slots[s];
      && at + 4 <= |file|
      && Read32(file, at) == if layout.version == 2 && s < layout.routers then 0x8000_0000 + s else s - layout.routers
  {
    hide ValidIndex, Segment, HasPreamble, RecordBytes;
    MapField(file, index, layout, layout.slots[s]);
  }

  /** Slot s of the file, at its address counted from the start of the file, holds the record of the node laid out there. */
  lemma FileRecord(file: seq<byte>, index: Index, layout: Layout, s: nat, rec: nat, at: nat)
    requires IsArtifact(file, index, layout) && s < index.graph.count
    requires rec == 16 + 2 * index.graph.maxLevel + index.dim + 4 * index.M0 + 4 * (index.graph.maxLevel * index.M)
    requires at == (if layout.version == 1 then 128 else 256) + 4 * index.graph.count + s * rec
    ensures |layout.slots| == index.graph.count && layout.slots[s] < index.graph.count
    ensures at + rec <= |file| && IsRecord(index, layout.slots[s], file[at..at + rec])
  {
    hide *;
    RecordRegion(file, index, layout, s);
    RecordIs(index, layout.slots[s]);
    RecordLength(index, layout, s);
  }

  lemma RecordRegion(file: seq<byte>, index: Index, layout: Layout, s: nat)
    requires IsArtifact(file, index, layout) && s < index.graph.count
    ensures ValidIndex(index) && |layout.slots| == index.graph.count == |layout.locations| && layout.slots[s] < index.graph.count
    ensures Fitting(NodeOf(index, layout.slots[s]), ShapeOf(index))
    ensures
      var at, rec := SlotAddress(index, layout, s), RecordBytes(ShapeOf(index));
      at + rec <= |file| && file[at..at + rec] == Encode(NodeOf(index, layout.slots[s]), ShapeOf(index))
  {
    hide *;
    ArtifactParts(file, index, layout);
    NodeFits(index, layout.slots[s]);
    SlotRegion(file, index, layout.slots, Origin(layout), s);
    AddressParts(index, layout, s);
  }

  lemma ArtifactParts(file: seq<byte>, index: Index, layout: Layout)
    requires IsArtifact(file, index, layout)
    ensures ValidIndex(index) && |layout.slots| == index.graph.count == |layout.locations|
    ensures forall s :: 0 <= s < |layout.slots| ==> layout.slots[s] < index.graph.count
    ensures SlotsInside(index, layout.slots) && Segment(file, index, layout.slots, Origin(layout))
  {
    hide ValidIndex, Segment, HasPreamble, RecordBytes;
  }

  lemma SlotRegion(file: seq<byte>, index: Index, slots: seq<nat>, origin: nat, s: nat)
    requires ValidIndex(index) && SlotsInside(index, slots) && Segment(file, index, slots, origin) && s < |slots|
    ensures slots[s] < index.graph.count && Fitting(NodeOf(index, slots[s]), ShapeOf(index))
    ensures
      var rec := RecordBytes(ShapeOf(index));
      var at := origin + s * rec;
      0 <= at <= at + rec <= |file| && file[at..at + rec] == Encode(NodeOf(index, slots[s]), ShapeOf(index))
  {
    hide ValidIndex, Encode, NodeOf, RecordBytes, Fitting, ShapeOf;
    assert Region(file, origin + s * RecordBytes(ShapeOf(index)), RecordAt(index, slots[s]));
    NodeFits(index, slots[s]);
    assert 0 <= s * RecordBytes(ShapeOf(index));
  }

  lemma AddressParts(index: Index, layout: Layout, s: nat)
    ensures SlotAddress(index, layout, s) == Origin(layout) + s * RecordBytes(ShapeOf(index))
  {}

  lemma RecordLength(index: Index, layout: Layout, s: nat)
    requires |layout.locations| == index.graph.count
    ensures
      var rec := 16 + 2 * index.graph.maxLevel + index.dim + 4 * index.M0 + 4 * (index.graph.maxLevel * index.M);
      && rec == RecordBytes(ShapeOf(index))
      && SlotAddress(index, layout, s) == (if layout.version == 1 then 128 else 256) + 4 * index.graph.count + s * rec
  {}

  // ---------- exporters ----------

  /** A positioned write at the end of what has been written so far. */
  method WriteAt(file: array<byte>, pos: nat, bytes: seq<byte>)
    requires pos + |bytes| <= file.Length
    modifies file
    ensures file[..pos + |bytes|] == old(file[..pos]) + bytes
  {
    var end := PutBytes(file, pos, bytes);
  }

  /** The header and the location map. */
  method WritePreamble(index: Index, layout: Layout, file: array<byte>)
    requires Fits(HeaderWords(index, layout), U32_LIMIT) && Fits(layout.locations, U32_LIMIT)
    requires file.Length >= Origin(layout)
    modifies file
    ensures HasPreamble(file[..Origin(layout)], index, layout)
  {
    hide HeaderWords;
    var header := U32s(HeaderWords(index, layout));
    var padding := Zeros(HeaderSize(layout) - |header|);
    var entries := U32s(layout.locations);
    WriteAt(file, 0, header + padding);
    assert file[..0] == [] && [] + (header + padding) == header + padding;
    WriteAt(file, HeaderSize(layout), entries);
    RegionAdded(header + padding, entries);
    RegionAdded([], header);
    RegionKept(header, padding, 0, header);
    RegionKept(header + padding, entries, 0, header);
  }

  lemma SegmentStep(written: seq<byte>, index: Index, ids: seq<nat>, origin: nat, n: nat)
    requires ValidIndex(index) && SlotsInside(index, ids) && n < |ids|
    requires Segment(written, index, ids[..n], origin) && |written| == origin + n * RecordBytes(ShapeOf(index))
    ensures Segment(written + RecordAt(index, ids[n]), index, ids[..n + 1], origin)
    ensures |written + RecordAt(index, ids[n])| == origin + (n + 1) * RecordBytes(ShapeOf(index))
  {
    hide RecordAt;
    hide RecordBytes;
    var rec := RecordBytes(ShapeOf(index));
    var longer := written + RecordAt(index, ids[n]);
    Distribute(0, 0, n, 0, rec);
    forall s: nat | s < n + 1 ensures Region(longer, origin + s * rec, RecordAt(index, ids[..n + 1][s])) {
      if s < n {
        assert ids[..n][s] == ids[s];
        RegionKept(written, RecordAt(index, ids[n]), origin + s * rec, RecordAt(index, ids[s]));
      } else {
        RegionAdded(written, RecordAt(index, ids[n]));
      }
    }
  }

  /** One segment: the record buffer is refilled for each id and written at origin + ordinal * recBytes. */
  method WriteSegment(index: Index, ids: seq<nat>, file: array<byte>, origin: nat)
    requires ValidIndex(index) && SlotsInside(index, ids)
    requires origin + |ids| * RecordBytes(ShapeOf(index)) <= file.Length
    modifies file
    ensures old(file[..origin]) <= file[..origin + |ids| * RecordBytes(ShapeOf(index))]
    ensures Segment(file[..origin + |ids| * RecordBytes(ShapeOf(index))], index, ids, origin)
  {
    hide RecordAt;
    hide RecordBytes;
    var recBytes := RecordBytes(ShapeOf(index));
    var record := new byte[recBytes];
    ghost var pre := file[..origin];
    ghost var written := pre;
    for ordinal := 0 to |ids|
      invariant |written| == origin + ordinal * recBytes <= file.Length
      invariant file[..origin + ordinal * recBytes] == written && pre <= written
      invariant Segment(written, index, ids[..ordinal], origin)
    {
      RowInside(ordinal, |ids|, recBytes);
      FillRecord(index, ids[ordinal], record);
      SegmentStep(written, index, ids, origin, ordinal);
      WriteAt(file, origin + ordinal * recBytes, record[..]);
      written := written + record[..];
    }
    assert ids[..|ids|] == ids;
  }

  method FillRecord(index: Index, id: nat, record: array<byte>)
    requires ValidIndex(index) && id < index.graph.count && record.Length == RecordBytes(ShapeOf(index))
    modifies record
    ensures record[..] == RecordAt(index, id)
  {
    hide Encode;
    WriteNodeRecord(index, id, record);
  }

  method HeaderFits(words: seq<nat>) returns (ok: bool)
    ensures ok <==> Fits(words, U32_LIMIT)
  {
    ok := forall i :: 0 <= i < |words| ==> words[i] < U32_LIMIT;
  }

  lemma PreambleKept(file: seq<byte>, longer: seq<byte>, index: Index, layout: Layout)
    requires HasPreamble(file, index, layout) && file <= longer
    ensures HasPreamble(longer, index, layout)
  {
    hide HeaderWords;
    var more := longer[|file|..];
    assert longer == file + more;
    RegionKept(file, more, 0, U32s(HeaderWords(index, layout)));
    RegionKept(file, more, HeaderSize(layout), U32s(layout.locations));
  }

  lemma SegmentKept(file: seq<byte>, longer: seq<byte>, index: Index, ids: seq<nat>, origin: nat)
    requires ValidIndex(index) && SlotsInside(index, ids)
    requires Segment(file, index, ids, origin) && file <= longer
    ensures Segment(longer, index, ids, origin)
  {
    hide RecordAt;
    hide RecordBytes;
    var more := longer[|file|..];
    assert longer == file + more;
    forall s: nat | s < |ids|
      ensures Region(longer, origin + s * RecordBytes(ShapeOf(index)), RecordAt(index, ids[s]))
    {
      RegionKept(file, more, origin + s * RecordBytes(ShapeOf(index)), RecordAt(index, ids[s]));
    }
  }

  /** `exportRangeArtifact`: version 1, records in ordinal order. A header field beyond 32 bits is refused. */
  method ExportRangeArtifact(index: Index, originalToOrdinal: seq<nat>, ordinalToOriginal: seq<nat>, parts: nat)
    returns (r: Result<seq<byte>>)
    requires ValidIndex(index) && |originalToOrdinal| == index.graph.count == |ordinalToOriginal|
    requires Inverse(originalToOrdinal, ordinalToOriginal)
    ensures
      var layout := Layout(1, ordinalToOriginal, 0, originalToOrdinal, parts);
      && (r.Success? <==> Fits(HeaderWords(index, layout), U32_LIMIT))
      && (r.Success? ==> IsArtifact(r.value, index, layout))
  {
    hide *;
    var layout := Layout(1, ordinalToOriginal, 0, originalToOrdinal, parts);
    var ok := HeaderFits(HeaderWords(index, layout));
    if !ok { return Failure("header field out of range"); }
    PlainLayoutValid(index, layout);
    var recBytes := RecordBytes(ShapeOf(index));
    var total := Origin(layout) + index.graph.count * recBytes;
    var file := new byte[total];
    WritePreamble(index, layout, file);
    ghost var pre := file[..Origin(layout)];
    WriteSegment(index, ordinalToOriginal, file, Origin(layout));
    ghost var bytes := file[..];
    assert bytes[..total] == bytes && file[..total] == bytes;
    PlainArtifact(pre, bytes, index, layout);
    return Success(file[..]);
  }

  lemma PlainLayoutValid(index: Index, layout: Layout)
    requires ValidIndex(index) && layout.version == 1 && layout.routers == 0
    requires |layout.slots| == index.graph.count == |layout.locations| && Inverse(layout.locations, layout.slots)
    ensures ValidLayout(index, layout) && Fits(layout.locations, U32_LIMIT) && SlotsInside(index, layout.slots)
  {}

  lemma PlainArtifact(pre: seq<byte>, bytes: seq<byte>, index: Index, layout: Layout)
    requires ValidIndex(index) && ValidLayout(index, layout) && SlotsInside(index, layout.slots)
    requires HasPreamble(pre, index, layout) && pre <= bytes && Segment(bytes, index, layout.slots, Origin(layout))
    requires |bytes| == Origin(layout) + index.graph.count * RecordBytes(ShapeOf(index))
    ensures IsArtifact(bytes, index, layout)
  {
    PreambleKept(pre, bytes, index, layout);
    hide HasPreamble, Segment, ValidLayout, ValidIndex, RecordBytes;
  }

  lemma SegmentsJoin(file: seq<byte>, index: Index, a: seq<nat>, b: seq<nat>, origin: nat)
    requires ValidIndex(index) && SlotsInside(index, a) && SlotsInside(index, b)
    requires Segment(file, index, a, origin) && Segment(file, index, b, origin + |a| * RecordBytes(ShapeOf(index)))
    ensures SlotsInside(index, a + b) && Segment(file, index, a + b, origin)
  {
    hide RecordAt;
    hide RecordBytes;
    var rec := RecordBytes(ShapeOf(index));
    forall s: nat | s < |a + b| ensures Region(file, origin + s * rec, RecordAt(index, (a + b)[s])) {
      if s < |a| {
        assert (a + b)[s] == a[s];
      } else {
        assert (a + b)[s] == b[s - |a|];
        assert s * rec == |a| * rec + (s - |a|) * rec;
      }
    }
  }

  /** `exportSplitRangeArtifact`: version 2, router records then base records on one grid; returns the bytes and their layout. */
  method ExportSplitRangeArtifact(index: Index, ordinalToOriginal: seq<nat>, parts: nat)
    returns (r: Result<seq<byte>>, layout: Layout)
    requires ValidIndex(index) && IsPermutation(ordinalToOriginal, index.graph.count)
    ensures layout.version == 2 && layout.parts == parts && ValidLayout(index, layout)
    ensures layout.slots == Select(ordinalToOriginal, index.levels, true) + Select(ordinalToOriginal, index.levels, false)
    ensures r.Success? <==> Fits(HeaderWords(index, layout), U32_LIMIT)
    ensures r.Success? ==> IsArtifact(r.value, index, layout)
  {
    hide HeaderWords;
    hide RecordBytes;
    hide RecordAt;
    var locationMap, routerIds, baseIds := SplitLayout(index.levels, ordinalToOriginal);
    var l := Layout(2, routerIds + baseIds, |routerIds|, locationMap[..], parts);
    layout := l;
    SplitLayoutValid(index, ordinalToOriginal, l, routerIds, baseIds);
    var ok := HeaderFits(HeaderWords(index, l));
    if !ok { return Failure("header field out of range"), l; }
    var bytes := WriteSplit(index, l, routerIds, baseIds);
    r := Success(bytes);
  }

  method WriteSplit(index: Index, layout: Layout, routerIds: seq<nat>, baseIds: seq<nat>) returns (bytes: seq<byte>)
    requires ValidIndex(index) && ValidLayout(index, layout) && layout.slots == routerIds + baseIds
    requires SlotsInside(index, routerIds) && SlotsInside(index, baseIds)
    requires Fits(HeaderWords(index, layout), U32_LIMIT) && Fits(layout.locations, U32_LIMIT)
    ensures IsArtifact(bytes, index, layout)
  {
    hide HeaderWords;
    hide RecordBytes;
    hide RecordAt;
    var recBytes := RecordBytes(ShapeOf(index));
    var routerRecordsOffset := Origin(layout);
    var baseRecordsOffset := routerRecordsOffset + |routerIds| * recBytes;
    var total := baseRecordsOffset + |baseIds| * recBytes;
    assert |layout.slots| * recBytes == |routerIds| * recBytes + |baseIds| * recBytes;
    var file := new byte[total];
    WritePreamble(index, layout, file);
    ghost var pre := file[..routerRecordsOffset];
    WriteSegment(index, routerIds, file, routerRecordsOffset);
    ghost var mid := file[..baseRecordsOffset];
    PreambleKept(pre, mid, index, layout);
    WriteSegment(index, baseIds, file, baseRecordsOffset);
    bytes := file[..];
    assert file[..total] == bytes;
    PreambleKept(mid, bytes, index, layout);
    SegmentKept(mid, bytes, index, routerIds, routerRecordsOffset);
    SegmentsJoin(bytes, index, routerIds, baseIds, routerRecordsOffset);
  }

  lemma SplitLayoutValid(index: Index, order: seq<nat>, layout: Layout, routerIds: seq<nat>, baseIds: seq<nat>)
    requires ValidIndex(index) && IsPermutation(order, index.graph.count)
    requires routerIds == Select(order, index.levels, true) && baseIds == Select(order, index.levels, false)
    requires IsPermutation(routerIds + baseIds, index.graph.count)
    requires layout.version == 2 && layout.slots == routerIds + baseIds && layout.routers == |routerIds|
    requires |layout.locations| == index.graph.count && SplitMap(layout.locations, routerIds, baseIds)
    ensures ValidLayout(index, layout) && Fits(layout.locations, U32_LIMIT)
    ensures SlotsInside(index, routerIds) && SlotsInside(index, baseIds)
  {
    var slots := layout.slots;
    SelectHolds(order, index.levels, true);
    SelectHolds(order, index.levels, false);
    forall s: nat | s < |slots|
      ensures (s < |routerIds| <==> index.levels[slots[s]] > 0) && layout.locations[slots[s]] == LocationOf(layout, s)
    {
      if s < |routerIds| {
        assert slots[s] == routerIds[s] && routerIds[s] in routerIds;
      } else {
        assert slots[s] == baseIds[s - |routerIds|] && baseIds[s - |routerIds|] in baseIds;
      }
    }
    forall s | 0 <= s < |routerIds| ensures routerIds[s] < index.graph.count { assert slots[s] == routerIds[s]; }
    forall s | 0 <= s < |baseIds| ensures baseIds[s] < index.graph.count { assert slots[|routerIds| + s] == baseIds[s]; }
    PermutationHitsAll(slots, index.graph.count);
    forall id | 0 <= id < |layout.locations| ensures layout.locations[id] < U32_LIMIT {
      assert id in slots;
      var s: nat :| s < |slots| && slots[s] == id;
    }
  }
}
