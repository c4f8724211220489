/** The exporter's cursor-driven record writer and the reader's cursor-driven record decoder. */
module RecordIO {
  import opened RangeCoalescing
  import opened RecordCodec

  lemma U16sAppend(ns: seq<nat>, v: nat)
    requires Fits(ns, U16_LIMIT) && v < U16_LIMIT
    ensures Fits(ns + [v], U16_LIMIT) && U16s(ns + [v]) == U16s(ns) + U16(v)
  {
  }

  lemma U32sAppend(ns: seq<nat>, v: nat)
    requires Fits(ns, U32_LIMIT) && v < U32_LIMIT
    ensures Fits(ns + [v], U32_LIMIT) && U32s(ns + [v]) == U32s(ns) + U32(v)
  {
  }

  lemma U32sConcat(a: seq<nat>, b: seq<nat>)
    requires Fits(a, U32_LIMIT) && Fits(b, U32_LIMIT)
    ensures Fits(a + b, U32_LIMIT) && U32s(a + b) == U32s(a) + U32s(b)
  {
    forall k | 4 * |a| <= k < 4 * |a| + 4 * |b| ensures U32s(a + b)[k] == U32s(b)[k - 4 * |a|] {
      assert k / 4 == |a| + (k - 4 * |a|) / 4 && k % 4 == (k - 4 * |a|) % 4;
    }
  }

  method PutU16(record: array<byte>, off: nat, v: nat) returns (next: nat)
    requires off + 2 <= record.Length && v < U16_LIMIT
    modifies record
    ensures next == off + 2 && record[..next] == old(record[..off]) + U16(v)
  {
    record[off], record[off + 1] := v % 256, v / 256;
    next := off + 2;
  }

  method PutU32(record: array<byte>, off: nat, v: nat) returns (next: nat)
    requires off + 4 <= record.Length && v < U32_LIMIT
    modifies record
    ensures next == off + 4 && record[..next] == old(record[..off]) + U32(v)
  {
    record[off], record[off + 1] := v % 256, v / 256 % 256;
    record[off + 2], record[off + 3] := v / 65536 % 256, v / 16777216;
    next := off + 4;
  }

  /** The level-count fields; a level the node does not reach counts zero edges. */
  method PutCounts(record: array<byte>, start: nat, node: Node) returns (off: nat)
    requires start + 2 * |node.upper| <= record.Length && Fits(UpperCounts(node), U16_LIMIT)
    modifies record
    ensures off == start + 2 * |node.upper| && record[..off] == old(record[..start]) + U16s(UpperCounts(node))
  {
    off := start;
    ghost var counts := UpperCounts(node);
    for l := 0 to |node.upper|
      invariant off == start + 2 * l && record[..off] == old(record[..start]) + U16s(counts[..l])
    {
      U16sAppend(counts[..l], counts[l]);
      assert counts[..l] + [counts[l]] == counts[..l + 1];
      off := PutU16(record, off, |node.upper[l]|);
    }
    assert counts[..|node.upper|] == counts;
  }

  method PutBytes(record: array<byte>, start: nat, bytes: seq<byte>) returns (off: nat)
    requires start + |bytes| <= record.Length
    modifies record
    ensures off == start + |bytes| && record[..off] == old(record[..start]) + bytes
  {
    for i := 0 to |bytes|
      invariant record[..start + i] == old(record[..start]) + bytes[..i]
    {
      record[start + i] := bytes[i];
      assert record[..start + i + 1] == record[..start + i] + [bytes[i]];
    }
    off := start + |bytes|;
  }

  /** An edge list in `width` fields, the unused ones marked absent. */
  method PutEdges(record: array<byte>, start: nat, edges: seq<nat>, width: nat) returns (off: nat)
    requires start + 4 * width <= record.Length && Fits(edges, U32_LIMIT)
    modifies record
    ensures Fits(Padded(edges, width), U32_LIMIT)
    ensures off == start + 4 * width && record[..off] == old(record[..start]) + U32s(Padded(edges, width))
  {
    off := start;
    ghost var padded := Padded(edges, width);
    for i := 0 to width
      invariant off == start + 4 * i && record[..off] == old(record[..start]) + U32s(padded[..i])
    {
      U32sAppend(padded[..i], padded[i]);
      assert padded[..i] + [padded[i]] == padded[..i + 1];
      off := PutU32(record, off, if i < |edges| then edges[i] else 0xFFFFFFFF);
    }
    assert padded[..width] == padded;
  }

  method PutUpper(record: array<byte>, start: nat, upper: seq<seq<nat>>, M: nat) returns (off: nat)
    requires start + 4 * (|upper| * M) <= record.Length
    requires forall l :: 0 <= l < |upper| ==> Fits(upper[l], U32_LIMIT)
    modifies record
    ensures Fits(UpperBlock(upper, M), U32_LIMIT)
    ensures off == start + 4 * (|upper| * M) && record[..off] == old(record[..start]) + U32s(UpperBlock(upper, M))
  {
    hide *;
    off := start;
    ghost var head := record[..start];
    NoLevels(head, upper, M);
    for l := 0 to |upper|
      invariant Fits(UpperBlock(upper[..l], M), U32_LIMIT)
      invariant off == start + 4 * (l * M) && record[..off] == head + U32s(UpperBlock(upper[..l], M))
    {
      RoomForLevel(l, |upper|, M);
      off := PutEdges(record, off, upper[l], M);
      NextLevel(head, upper, l, M);
    }
    assert upper[..|upper|] == upper;
  }

  lemma NoLevels(head: seq<byte>, upper: seq<seq<nat>>, M: nat)
    ensures Fits(UpperBlock(upper[..0], M), U32_LIMIT) && head + U32s(UpperBlock(upper[..0], M)) == head
  {}

  lemma NextLevel(head: seq<byte>, upper: seq<seq<nat>>, l: nat, M: nat)
    requires l < |upper| && Fits(UpperBlock(upper[..l], M), U32_LIMIT) && Fits(Padded(upper[l], M), U32_LIMIT)
    ensures Fits(UpperBlock(upper[..l + 1], M), U32_LIMIT)
    ensures head + U32s(UpperBlock(upper[..l + 1], M)) == head + U32s(UpperBlock(upper[..l], M)) + U32s(Padded(upper[l], M))
  {
    assert Front(upper[..l + 1]) == upper[..l];
    U32sConcat(UpperBlock(upper[..l], M), Padded(upper[l], M));
  }

  lemma RoomForLevel(l: nat, levels: nat, M: nat)
    requires l < levels
    ensures (l + 1) * M == l * M + M && l * M + M <= levels * M
  {
    MulAtMost(l + 1, levels, M);
  }

  /** `writeNodeRecord`: fills the reused record buffer for node `id`. */
  method WriteNodeRecord(index: Index, id: nat, record: array<byte>)
    requires ValidIndex(index) && id < index.graph.count && record.Length == RecordBytes(ShapeOf(index))
    modifies record
    ensures Fitting(NodeOf(index, id), ShapeOf(index))
    ensures record[..] == Encode(NodeOf(index, id), ShapeOf(index))
  {
    NodeFits(index, id);
    var node := NodeOf(index, id);
    var sh := ShapeOf(index);
    var off := PutU32(record, 0, id);
    off := PutU16(record, off, node.level);
    off := PutU16(record, off, |node.base|);
    assert record[..off] == HeadBlock(node);
    off := PutCounts(record, off, node);
    off := PutBytes(record, off, node.qdata);
    off := PutU32(record, off, node.scale);
    off := PutU32(record, off, node.offset);
    ghost var early := HeadBlock(node) + U16s(UpperCounts(node)) + node.qdata + FloatBlock(node);
    assert record[..off] == early;
    LevelsFit(index, id);
    off := PutEdges(record, off, node.base, index.M0);
    off := PutUpper(record, off, node.upper, index.M);
    assert record[..off] == record[..];
  }

  lemma LevelsFit(index: Index, id: nat)
    requires ValidIndex(index) && id < index.graph.count
    ensures forall l :: 0 <= l < index.graph.maxLevel ==> Fits(NodeOf(index, id).upper[l], U32_LIMIT)
  {
    assert ValidNode(index, id);
  }

  /** `width` fields from `start`, of which the first `count` are kept. */
  method ReadEdges(buf: seq<byte>, start: nat, count: nat, width: nat) returns (edges: seq<nat>, off: nat)
    requires start + 4 * width <= |buf|
    ensures |edges| == count && off == start + 4 * width
    ensures forall i :: 0 <= i < count ==> edges[i] == if i < width then Read32(buf, start + 4 * i) else 0
  {
    var kept := new nat[count](_ => 0);
    off := start;
    for i := 0 to width
      invariant off == start + 4 * i
      invariant forall j :: 0 <= j < count ==> kept[j] == if j < i then Read32(buf, start + 4 * j) else 0
    {
      var n := Read32(buf, off);
      off := off + 4;
      if i < kept.Length { kept[i] := n; }
    }
    edges := kept[..];
  }

  method ReadUpper(buf: seq<byte>, start: nat, upperCounts: seq<nat>, sh: Shape) returns (upper: seq<seq<nat>>)
    requires |buf| == RecordBytes(sh) && start == UpperAt(sh) && |upperCounts| == sh.maxLevel
    requires forall l :: 0 <= l < sh.maxLevel ==> upperCounts[l] == Read16(buf, 8 + 2 * l)
    ensures |upper| == sh.maxLevel && forall l :: 0 <= l < sh.maxLevel ==> upper[l] == LevelFields(buf, sh, l)
  {
    upper := [];
    var off := start;
    for l := 0 to sh.maxLevel
      invariant |upper| == l && off == UpperAt(sh) + 4 * (l * sh.M)
      invariant forall m :: 0 <= m < l ==> upper[m] == LevelFields(buf, sh, m)
    {
      RoomForLevel(l, sh.maxLevel, sh.M);
      var edges;
      edges, off := ReadEdges(buf, off, upperCounts[l], sh.M);
      forall i | 0 <= i < |edges| ensures edges[i] == LevelFields(buf, sh, l)[i] {}
      assert edges == LevelFields(buf, sh, l);
      upper := upper + [edges];
    }
  }

  /** `decodeNode`, for any record-sized buffer. */
  method DecodeNode(buf: seq<byte>, sh: Shape) returns (node: Node)
    requires |buf| == RecordBytes(sh)
    ensures node == Decode(buf, sh)
  {
    var off := 0;
    var id := Read32(buf, off); off := off + 4;
    var level := Read16(buf, off); off := off + 2;
    var baseCount := Read16(buf, off); off := off + 2;
    var upperCounts: seq<nat> := [];
    for i := 0 to sh.maxLevel
      invariant |upperCounts| == i && off == 8 + 2 * i
      invariant forall l :: 0 <= l < i ==> upperCounts[l] == Read16(buf, 8 + 2 * l)
    {
      upperCounts := upperCounts + [Read16(buf, off)];
      off := off + 2;
    }
    var qdata := buf[off..off + sh.dim]; off := off + sh.dim;
    var scale := Read32(buf, off); off := off + 4;
    var offset := Read32(buf, off); off := off + 4;
    var base, upper;
    base, off := ReadEdges(buf, off, baseCount, sh.M0);
    assert base == BaseFields(buf, sh);
    upper := ReadUpper(buf, off, upperCounts, sh);
    node := Node(id, level, base, upper, qdata, scale, offset);
  }
}
