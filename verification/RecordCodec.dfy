/**
 The fixed-size node record: what the exporter writes and the reader decodes. The 32-bit float fields are
 carried as their bit patterns.
 */
module RecordCodec {
  import opened RangeCoalescing
  import opened GraphSearch

  type byte = b: int | 0 <= b < 256

  const U16_LIMIT: nat := 0x1_0000
  const U32_LIMIT: nat := 0x1_0000_0000
  const ABSENT: nat := 0xFFFF_FFFF

  datatype Index = Index(
    graph: Graph, dim: nat, M: nat, M0: nat,
    scales: seq<nat>, offsets: seq<nat>, qdata: seq<byte>, levels: seq<nat>)

  datatype Shape = Shape(dim: nat, maxLevel: nat, M: nat, M0: nat)

  datatype Node = Node(
    id: nat, level: nat, base: seq<nat>, upper: seq<seq<nat>>, qdata: seq<byte>, scale: nat, offset: nat)

  ghost predicate ValidIndex(index: Index) {
    var count := index.graph.count;
    && ValidGraph(index.graph)
    && count <= 0x8000_0000 && index.M < U16_LIMIT && index.M0 < U16_LIMIT
    && |index.scales| == |index.offsets| == |index.levels| == count && |index.qdata| == count * index.dim
    && forall id :: 0 <= id < count ==> ValidNode(index, id)
  }

  ghost predicate ValidNode(index: Index, id: nat)
    requires id < |index.graph.base| && id < |index.graph.upper|
    requires id < |index.scales| && id < |index.offsets| && id < |index.levels|
  {
    && index.scales[id] < U32_LIMIT && index.offsets[id] < U32_LIMIT
    && index.levels[id] < U16_LIMIT && index.levels[id] == |index.graph.upper[id]| <= index.graph.maxLevel
    && |index.graph.base[id]| <= index.M0
    && forall l :: 0 <= l < |index.graph.upper[id]| ==> |index.graph.upper[id][l]| <= index.M
  }

  function ShapeOf(index: Index): Shape {
    Shape(index.dim, index.graph.maxLevel, index.M, index.M0)
  }

  lemma RowInside(id: nat, count: nat, dim: nat)
    requires id < count
    ensures 0 <= id * dim && id * dim + dim <= count * dim
  {
    MulAtMost(id + 1, count, dim);
    assert (id + 1) * dim == id * dim + dim;
  }

  function RowOf(index: Index, id: nat): (r: seq<byte>)
    requires id < index.graph.count && |index.qdata| == index.graph.count * index.dim
    ensures |r| == index.dim
  {
    RowInside(id, index.graph.count, index.dim);
    index.qdata[id * index.dim..id * index.dim + index.dim]
  }

  /** The node the reader should hand out for `id`. */
  function NodeOf(index: Index, id: nat): (r: Node)
    requires ValidIndex(index) && id < index.graph.count
  {
    Node(id, index.levels[id], index.graph.base[id],
         seq(index.graph.maxLevel, l requires 0 <= l < index.graph.maxLevel => UpperEdges(index.graph, id, l + 1)),
         RowOf(index, id), index.scales[id], index.offsets[id])
  }

  // ---------- little-endian fields ----------

  function U16(v: nat): (r: seq<byte>)
    requires v < U16_LIMIT
    ensures |r| == 2
  {
    [v % 256, v / 256]
  }

  function U32(v: nat): (r: seq<byte>)
    requires v < U32_LIMIT
    ensures |r| == 4
  {
    [v % 256, v / 256 % 256, v / 65536 % 256, v / 16777216]
  }

  function Read16(s: seq<byte>, off: nat): (r: nat)
    requires off + 2 <= |s|
    ensures r < U16_LIMIT
  {
    s[off] as int + 256 * s[off + 1] as int
  }

  function Read32(s: seq<byte>, off: nat): (r: nat)
    requires off + 4 <= |s|
    ensures r < U32_LIMIT
  {
    s[off] as int + 256 * s[off + 1] as int + 65536 * s[off + 2] as int + 16777216 * s[off + 3] as int
  }

  lemma Read16Field(s: seq<byte>, off: nat, v: nat)
    requires v < U16_LIMIT && off + 2 <= |s| && s[off..off + 2] == U16(v)
    ensures Read16(s, off) == v
  {
    assert s[off] == s[off..off + 2][0] && s[off + 1] == s[off..off + 2][1];
  }

  lemma Read32Field(s: seq<byte>, off: nat, v: nat)
    requires v < U32_LIMIT && off + 4 <= |s| && s[off..off + 4] == U32(v)
    ensures Read32(s, off) == v
  {
    var f := s[off..off + 4];
    assert s[off] == f[0] && s[off + 1] == f[1] && s[off + 2] == f[2] && s[off + 3] == f[3];
    assert v / 65536 == v / 256 / 256 && v / 16777216 == v / 65536 / 256;
  }

  ghost predicate Fits(ns: seq<nat>, limit: nat) {
    forall i :: 0 <= i < |ns| ==> ns[i] < limit
  }

  function U16s(ns: seq<nat>): (r: seq<byte>)
    requires Fits(ns, U16_LIMIT)
    ensures |r| == 2 * |ns|
  {
    seq(2 * |ns|, k requires 0 <= k < 2 * |ns| => U16(ns[k / 2])[k % 2])
  }

  function U32s(ns: seq<nat>): (r: seq<byte>)
    requires Fits(ns, U32_LIMIT)
    ensures |r| == 4 * |ns|
  {
    seq(4 * |ns|, k requires 0 <= k < 4 * |ns| => U32(ns[k / 4])[k % 4])
  }

  lemma U16sField(ns: seq<nat>, i: nat)
    requires Fits(ns, U16_LIMIT) && i < |ns|
    ensures U16s(ns)[2 * i..2 * i + 2] == U16(ns[i])
  {
    assert (2 * i) / 2 == i && (2 * i + 1) / 2 == i;
  }

  lemma U32sField(ns: seq<nat>, i: nat)
    requires Fits(ns, U32_LIMIT) && i < |ns|
    ensures U32s(ns)[4 * i..4 * i + 4] == U32(ns[i])
  {
    assert (4 * i) / 4 == i && (4 * i + 1) / 4 == i && (4 * i + 2) / 4 == i && (4 * i + 3) / 4 == i;
    assert (4 * i) % 4 == 0 && (4 * i + 1) % 4 == 1 && (4 * i + 2) % 4 == 2 && (4 * i + 3) % 4 == 3;
  }

  lemma SubSlice(s: seq<byte>, a: nat, b: nat, i: nat, j: nat)
    requires a <= b <= |s| && i <= j <= b - a
    ensures s[a..b][i..j] == s[a + i..a + j]
  {
    var x, y := s[a..b][i..j], s[a + i..a + j];
    assert |x| == |y| && forall k :: 0 <= k < |x| ==> x[k] == s[a + i + k] == y[k];
  }

  lemma Read16InBlock(s: seq<byte>, off: nat, end: nat, k: nat, v: nat)
    requires v < U16_LIMIT && off + k + 2 <= end <= |s| && s[off..end][k..k + 2] == U16(v)
    ensures Read16(s, off + k) == v
  {
    SubSlice(s, off, end, k, k + 2);
    Read16Field(s, off + k, v);
  }

  lemma Read32InBlock(s: seq<byte>, off: nat, end: nat, k: nat, v: nat)
    requires v < U32_LIMIT && off + k + 4 <= end <= |s| && s[off..end][k..k + 4] == U32(v)
    ensures Read32(s, off + k) == v
  {
    SubSlice(s, off, end, k, k + 4);
    Read32Field(s, off + k, v);
  }

  lemma Read16At(s: seq<byte>, off: nat, end: nat, ns: seq<nat>, i: nat)
    requires Fits(ns, U16_LIMIT) && i < |ns| && off <= end <= |s| && s[off..end] == U16s(ns)
    ensures off + 2 * i + 2 <= end && Read16(s, off + 2 * i) == ns[i]
  {
    assert end - off == |s[off..end]| == 2 * |ns|;
    U16sField(ns, i);
    Read16InBlock(s, off, end, 2 * i, ns[i]);
  }

  lemma Read32At(s: seq<byte>, off: nat, end: nat, ns: seq<nat>, i: nat)
    requires Fits(ns, U32_LIMIT) && i < |ns| && off <= end <= |s| && s[off..end] == U32s(ns)
    ensures off + 4 * i + 4 <= end && Read32(s, off + 4 * i) == ns[i]
  {
    assert end - off == |s[off..end]| == 4 * |ns|;
    U32sField(ns, i);
    Read32InBlock(s, off, end, 4 * i, ns[i]);
  }

  // ---------- the record ----------

  function RowAt(sh: Shape): nat { 8 + 2 * sh.maxLevel }

  function BaseAt(sh: Shape): nat { RowAt(sh) + sh.dim + 8 }

  function UpperAt(sh: Shape): nat { BaseAt(sh) + 4 * sh.M0 }

  function RecordBytes(sh: Shape): (r: nat)
    ensures r >= 16
  {
    UpperAt(sh) + 4 * (sh.maxLevel * sh.M)
  }

  lemma HeadInside(sh: Shape)
    ensures RecordBytes(sh) >= UpperAt(sh)
  {}

  /** An edge list filled up to `width` with the absent marker. */
  function Padded(edges: seq<nat>, width: nat): (r: seq<nat>)
    ensures |r| == width
  {
    seq(width, i requires 0 <= i => if i < |edges| then edges[i] else ABSENT)
  }

  /** Slot `l * M + i` of the upper block holds edge i of level l + 1. */
  function UpperBlock(upper: seq<seq<nat>>, M: nat): (r: seq<nat>)
    ensures |r| == |upper| * M
  {
    if upper == [] then []
    else
      assert (|upper| - 1) * M + M == |upper| * M;
      UpperBlock(Front(upper), M) + Padded(Last(upper), M)
  }

  lemma SlotInside(l: nat, i: nat, levels: nat, M: nat)
    requires l < levels && i < M
    ensures 0 <= l * M + i < levels * M
  {
    MulAtMost(l + 1, levels, M);
    assert (l + 1) * M == l * M + M;
  }

  lemma {:induction false} UpperSlot(upper: seq<seq<nat>>, M: nat, l: nat, i: nat)
    requires l < |upper| && i < M
    ensures l * M + i < |UpperBlock(upper, M)| && UpperBlock(upper, M)[l * M + i] == Padded(upper[l], M)[i]
  {
    SlotInside(l, i, |upper|, M);
    if l < |upper| - 1 {
      UpperSlot(Front(upper), M, l, i);
    }
  }

  lemma {:induction false} UpperBlockFits(upper: seq<seq<nat>>, M: nat, count: nat)
    requires count <= U32_LIMIT && forall l :: 0 <= l < |upper| ==> AllBelow(upper[l], count)
    ensures Fits(UpperBlock(upper, M), U32_LIMIT)
  {
    if upper == [] {
    } else {
      UpperBlockFits(Front(upper), M, count);
    }
  }

  function UpperCounts(node: Node): (r: seq<nat>)
    ensures |r| == |node.upper|
  {
    seq(|node.upper|, l requires 0 <= l < |node.upper| => |node.upper[l]|)
  }

  /** A node whose fields fit a record of this shape. */
  ghost predicate Fitting(node: Node, sh: Shape) {
    && node.id < U32_LIMIT && node.level < U16_LIMIT && node.scale < U32_LIMIT && node.offset < U32_LIMIT
    && sh.M < U16_LIMIT && sh.M0 < U16_LIMIT
    && |node.base| <= sh.M0 && |node.upper| == sh.maxLevel && |node.qdata| == sh.dim
    && Fits(node.base, U32_LIMIT) && Fits(UpperBlock(node.upper, sh.M), U32_LIMIT)
    && forall l :: 0 <= l < |node.upper| ==> |node.upper[l]| <= sh.M
  }

  lemma NodeFits(index: Index, id: nat)
    requires ValidIndex(index) && id < index.graph.count
    ensures Fitting(NodeOf(index, id), ShapeOf(index))
  {
    assert ValidNode(index, id);
    var node := NodeOf(index, id);
    forall l | 0 <= l < |node.upper| ensures AllBelow(node.upper[l], index.graph.count) {}
    UpperBlockFits(node.upper, index.M, index.graph.count);
  }

  function Encode(node: Node, sh: Shape): (r: seq<byte>)
    requires Fitting(node, sh)
    ensures |r| == RecordBytes(sh)
  {
    HeadBlock(node) + U16s(UpperCounts(node)) + node.qdata + FloatBlock(node)
    + U32s(Padded(node.base, sh.M0)) + U32s(UpperBlock(node.upper, sh.M))
  }

  /** Edge slots beyond the base block read as zero, as the fresh edge array holds there. */
  function BaseField(buf: seq<byte>, sh: Shape, i: nat): nat
    requires |buf| == RecordBytes(sh)
  {
    if i < sh.M0 then Read32(buf, BaseAt(sh) + 4 * i) else 0
  }

  function BaseFields(buf: seq<byte>, sh: Shape): (r: seq<nat>)
    requires |buf| == RecordBytes(sh)
    ensures |r| == Read16(buf, 6)
  {
    seq(Read16(buf, 6), i requires 0 <= i => BaseField(buf, sh, i))
  }

  function LevelFields(buf: seq<byte>, sh: Shape, l: nat): (r: seq<nat>)
    requires |buf| == RecordBytes(sh) && l < sh.maxLevel
    ensures |r| == Read16(buf, 8 + 2 * l)
  {
    seq(Read16(buf, 8 + 2 * l), i requires 0 <= i => if i < sh.M then UpperField(buf, sh, l, i) else 0)
  }

  function Decode(buf: seq<byte>, sh: Shape): (r: Node)
    requires |buf| == RecordBytes(sh)
  {
    hide RecordBytes;
    HeadInside(sh);
    Node(
      Read32(buf, 0), Read16(buf, 4), BaseFields(buf, sh),
      seq(sh.maxLevel, l requires 0 <= l < sh.maxLevel => LevelFields(buf, sh, l)),
      buf[RowAt(sh)..RowAt(sh) + sh.dim], Read32(buf, RowAt(sh) + sh.dim), Read32(buf, RowAt(sh) + sh.dim + 4))
  }

  function UpperField(buf: seq<byte>, sh: Shape, l: nat, i: nat): nat
    requires |buf| == RecordBytes(sh) && l < sh.maxLevel && i < sh.M
  {
    SlotInside(l, i, sh.maxLevel, sh.M);
    Read32(buf, UpperAt(sh) + 4 * (l * sh.M + i))
  }

  lemma InPrefix(x: seq<byte>, y: seq<byte>, i: nat, j: nat)
    requires i <= j <= |x|
    ensures (x + y)[i..j] == x[i..j]
  {
  }

  lemma AtEnd(x: seq<byte>, y: seq<byte>)
    ensures (x + y)[|x|..|x| + |y|] == y
  {
  }

  lemma SixParts(a: seq<byte>, b: seq<byte>, c: seq<byte>, d: seq<byte>, e: seq<byte>, f: seq<byte>)
    ensures
      var r := a + b + c + d + e + f;
      var pb, pc, pd, pe := |a| + |b|, |a| + |b| + |c|, |a| + |b| + |c| + |d|, |a| + |b| + |c| + |d| + |e|;
      && r[..|a|] == a && r[|a|..pb] == b && r[pb..pc] == c && r[pc..pd] == d && r[pd..pe] == e && r[pe..] == f
  {
    var ab, abc, abcd, abcde := a + b, a + b + c, a + b + c + d, a + b + c + d + e;
    InPrefix(abcde, f, 0, |abcde|);
    InPrefix(abcd, e, 0, |abcd|);
    InPrefix(abc, d, 0, |abc|);
    InPrefix(ab, c, 0, |ab|);
    var r := abcde + f;
    assert r[..|ab|] == ab && r[..|abc|] == abc && r[..|abcd|] == abcd && r[..|abcde|] == abcde;
    assert r[..|ab|][|a|..] == b && r[..|abc|][|ab|..] == c && r[..|abcd|][|abc|..] == d && r[..|abcde|][|abcd|..] == e;
  }

  function HeadBlock(node: Node): (r: seq<byte>)
    requires node.id < U32_LIMIT && node.level < U16_LIMIT && |node.base| < U16_LIMIT
    ensures |r| == 8 && r[0..4] == U32(node.id) && r[4..6] == U16(node.level) && r[6..8] == U16(|node.base|)
  {
    U32(node.id) + U16(node.level) + U16(|node.base|)
  }

  function FloatBlock(node: Node): (r: seq<byte>)
    requires node.scale < U32_LIMIT && node.offset < U32_LIMIT
    ensures |r| == 8 && r[0..4] == U32(node.scale) && r[4..8] == U32(node.offset)
  {
    U32(node.scale) + U32(node.offset)
  }

  /** Where each block of an encoded record sits. */
  lemma BlocksOf(node: Node, sh: Shape)
    requires Fitting(node, sh)
    ensures
      var buf := Encode(node, sh);
      && buf[0..8] == HeadBlock(node)
      && buf[8..RowAt(sh)] == U16s(UpperCounts(node))
      && buf[RowAt(sh)..RowAt(sh) + sh.dim] == node.qdata
      && buf[RowAt(sh) + sh.dim..BaseAt(sh)] == FloatBlock(node)
      && buf[BaseAt(sh)..UpperAt(sh)] == U32s(Padded(node.base, sh.M0))
      && buf[UpperAt(sh)..RecordBytes(sh)] == U32s(UpperBlock(node.upper, sh.M))
  {
    SixParts(HeadBlock(node), U16s(UpperCounts(node)), node.qdata, FloatBlock(node),
      U32s(Padded(node.base, sh.M0)), U32s(UpperBlock(node.upper, sh.M)));
  }

  lemma HeadFields(node: Node, sh: Shape)
    requires Fitting(node, sh)
    ensures
      var buf := Encode(node, sh);
      && Read32(buf, 0) == node.id && Read16(buf, 4) == node.level && Read16(buf, 6) == |node.base|
      && Read32(buf, RowAt(sh) + sh.dim) == node.scale && Read32(buf, RowAt(sh) + sh.dim + 4) == node.offset
  {
    var buf := Encode(node, sh);
    BlocksOf(node, sh);
    Read32InBlock(buf, 0, 8, 0, node.id);
    Read16InBlock(buf, 0, 8, 4, node.level);
    Read16InBlock(buf, 0, 8, 6, |node.base|);
    Read32InBlock(buf, RowAt(sh) + sh.dim, BaseAt(sh), 0, node.scale);
    Read32InBlock(buf, RowAt(sh) + sh.dim, BaseAt(sh), 4, node.offset);
  }

  // ---------- the bytes of a record ----------

  /** The two bytes from `at` on, low byte first, are v. */
  ghost predicate Word16(s: seq<byte>, at: nat, v: nat) {
    at + 2 <= |s| && s[at] as int + 256 * s[at + 1] as int == v
  }

  /** The four bytes from `at` on, low byte first, are v. */
  ghost predicate Word32(s: seq<byte>, at: nat, v: nat) {
    at + 4 <= |s| && s[at] as int + 256 * s[at + 1] as int + 65536 * s[at + 2] as int + 16777216 * s[at + 3] as int == v
  }

  /** Both writers put the low byte first. */
  lemma LittleEndian(v: nat)
    ensures v < U16_LIMIT ==> Word16(U16(v), 0, v)
    ensures v < U32_LIMIT ==> Word32(U32(v), 0, v)
  {
    if v < U32_LIMIT { Read32Field(U32(v), 0, v); }
  }

  lemma ReadIsWord(s: seq<byte>, at: nat, v: nat)
    ensures at + 2 <= |s| && Read16(s, at) == v ==> Word16(s, at, v)
    ensures at + 4 <= |s| && Read32(s, at) == v ==> Word32(s, at, v)
  {}

  /** Head and scale words, the row of codes. */
  ghost predicate HeadIs(index: Index, id: nat, r: seq<byte>)
    requires ValidIndex(index) && id < index.graph.count
  {
    var row, n := 8 + 2 * index.graph.maxLevel, index.dim;
    RowInside(id, index.graph.count, n);
    && |r| == row + n + 8 + 4 * index.M0 + 4 * (index.graph.maxLevel * index.M)
    && Word32(r, 0, id) && Word16(r, 4, index.levels[id]) && Word16(r, 6, |index.graph.base[id]|)
    && row + n <= |r| && r[row..row + n] == index.qdata[id * n..id * n + n]
    && Word32(r, row + n, index.scales[id]) && Word32(r, row + n + 4, index.offsets[id])
  }

  /** One word per upper level from byte 8 on: the length of the node's edge list there, zero above its own levels. */
  ghost predicate CountsAre(upper: seq<seq<nat>>, maxLevel: nat, r: seq<byte>) {
    forall l: nat :: l < maxLevel ==> CountIs(upper, r, l)
  }

  ghost predicate CountIs(upper: seq<seq<nat>>, r: seq<byte>, l: nat) {
    Word16(r, 8 + 2 * l, if l < |upper| then |upper[l]| else 0)
  }

  /** From `at` on, `width` words: the edges, then all ones. */
  ghost predicate EdgesAre(edges: seq<nat>, width: nat, r: seq<byte>, at: nat) {
    forall i: nat :: i < width ==> EdgeIs(edges, r, at, i)
  }

  ghost predicate EdgeIs(edges: seq<nat>, r: seq<byte>, at: nat, i: nat) {
    Word32(r, at + 4 * i, if i < |edges| then edges[i] else 0xFFFF_FFFF)
  }

  /** Level by level, `M` words each. */
  ghost predicate LevelsAre(upper: seq<seq<nat>>, maxLevel: nat, M: nat, r: seq<byte>, at: nat) {
    forall l: nat :: l < maxLevel ==> LevelIs(upper, M, r, at, l)
  }

  ghost predicate LevelIs(upper: seq<seq<nat>>, M: nat, r: seq<byte>, at: nat, l: nat) {
    EdgesAre(if l < |upper| then upper[l] else [], M, r, at + 4 * Product(l, M))
  }

  function Product(a: nat, b: nat): nat { a * b }

  /** The record of a node of the index, word by word, low byte first: where each field stands and what it holds. */
  ghost predicate IsRecord(index: Index, id: nat, r: seq<byte>)
    requires ValidIndex(index) && id < index.graph.count
  {
    HeadIs(index, id, r) && EdgesHold(index, id, r)
  }

  /** The edge counts, the base edges and the upper edges. */
  ghost predicate EdgesHold(index: Index, id: nat, r: seq<byte>)
    requires ValidIndex(index) && id < index.graph.count
  {
    var g, edgesAt := index.graph, 16 + 2 * index.graph.maxLevel + index.dim;
    && CountsAre(g.upper[id], g.maxLevel, r)
    && EdgesAre(g.base[id], index.M0, r, edgesAt) && LevelsAre(g.upper[id], g.maxLevel, index.M, r, edgesAt + 4 * index.M0)
  }

  lemma RowRegion(node: Node, sh: Shape)
    requires Fitting(node, sh)
    ensures 8 + 2 * sh.maxLevel + sh.dim + 8 <= |Encode(node, sh)|
    ensures |Encode(node, sh)| == 8 + 2 * sh.maxLevel + sh.dim + 8 + 4 * sh.M0 + 4 * (sh.maxLevel * sh.M)
    ensures Encode(node, sh)[8 + 2 * sh.maxLevel..8 + 2 * sh.maxLevel + sh.dim] == node.qdata
  {
    BlocksOf(node, sh);
    HeadInside(sh);
  }

  lemma NodeFields(index: Index, id: nat)
    requires ValidIndex(index) && id < index.graph.count
    ensures 0 <= id * index.dim && id * index.dim + index.dim <= |index.qdata|
    ensures
      var node, upper := NodeOf(index, id), index.graph.upper[id];
      && node.id == id && node.level == index.levels[id] && node.base == index.graph.base[id]
      && node.qdata == index.qdata[id * index.dim..id * index.dim + index.dim]
      && node.scale == index.scales[id] && node.offset == index.offsets[id] && LevelsOf(node, upper, index.graph.maxLevel)
  {
    RowInside(id, index.graph.count, index.dim);
  }

  /** A level above the node's own is an empty list in the record. */
  ghost predicate LevelsOf(node: Node, upper: seq<seq<nat>>, maxLevel: nat) {
    |node.upper| == maxLevel && forall l :: 0 <= l < maxLevel ==> node.upper[l] == if l < |upper| then upper[l] else []
  }

  lemma HeadWords(index: Index, id: nat)
    requires ValidIndex(index) && id < index.graph.count
    requires Fitting(NodeOf(index, id), ShapeOf(index))
    ensures HeadIs(index, id, Encode(NodeOf(index, id), ShapeOf(index)))
  {
    var node, sh := NodeOf(index, id), ShapeOf(index);
    var r := Encode(node, sh);
    NodeFields(index, id);
    HeadFields(node, sh);
    RowRegion(node, sh);
    hide Encode, Fitting, RecordBytes, ValidIndex, Read16, Read32, Word16, Word32, NodeOf, LevelsOf;
    ReadIsWord(r, 0, id);
    ReadIsWord(r, 4, index.levels[id]);
    ReadIsWord(r, 6, |index.graph.base[id]|);
    ReadIsWord(r, 8 + 2 * index.graph.maxLevel + index.dim, index.scales[id]);
    ReadIsWord(r, 8 + 2 * index.graph.maxLevel + index.dim + 4, index.offsets[id]);
  }

  lemma CountRegion(node: Node, sh: Shape)
    requires Fitting(node, sh)
    ensures 8 + 2 * sh.maxLevel <= |Encode(node, sh)| && Fits(UpperCounts(node), U16_LIMIT) && |node.upper| == sh.maxLevel
    ensures Encode(node, sh)[8..8 + 2 * sh.maxLevel] == U16s(UpperCounts(node))
  {
    BlocksOf(node, sh);
  }

  lemma CountWord(node: Node, sh: Shape, upper: seq<seq<nat>>, l: nat)
    requires Fitting(node, sh) && LevelsOf(node, upper, sh.maxLevel) && l < sh.maxLevel
    ensures CountIs(upper, Encode(node, sh), l)
  {
    CountRegion(node, sh);
    var r := Encode(node, sh);
    hide Encode, RecordBytes, Fitting, Word16, U16s, Read16;
    Read16At(r, 8, 8 + 2 * sh.maxLevel, UpperCounts(node), l);
    ReadIsWord(r, 8 + 2 * l, |node.upper[l]|);
  }

  lemma CountWords(node: Node, sh: Shape, upper: seq<seq<nat>>)
    requires Fitting(node, sh) && LevelsOf(node, upper, sh.maxLevel)
    ensures CountsAre(upper, sh.maxLevel, Encode(node, sh))
  {
    hide CountIs, Encode, Fitting, LevelsOf;
    forall l: nat | l < sh.maxLevel ensures CountIs(upper, Encode(node, sh), l) { CountWord(node, sh, upper, l); }
  }

  lemma BaseRegion(node: Node, sh: Shape)
    requires Fitting(node, sh)
    ensures BaseAt(sh) <= UpperAt(sh) <= |Encode(node, sh)| && Fits(Padded(node.base, sh.M0), U32_LIMIT)
    ensures Encode(node, sh)[BaseAt(sh)..UpperAt(sh)] == U32s(Padded(node.base, sh.M0))
  {
    BlocksOf(node, sh);
    HeadInside(sh);
  }

  lemma PaddedIs(edges: seq<nat>, width: nat, i: nat)
    requires i < width
    ensures Padded(edges, width)[i] == if i < |edges| then edges[i] else 0xFFFF_FFFF
  {}

  lemma BaseWords(node: Node, sh: Shape)
    requires Fitting(node, sh)
    ensures EdgesAre(node.base, sh.M0, Encode(node, sh), BaseAt(sh))
  {
    hide Encode, RecordBytes, Word32, U32s, Read32, Fitting, Padded, UpperAt, BaseAt, EdgeIs;
    BaseRegion(node, sh);
    forall i: nat | i < sh.M0 ensures EdgeIs(node.base, Encode(node, sh), BaseAt(sh), i) {
      WordIsEdge(Encode(node, sh), BaseAt(sh), UpperAt(sh), node.base, sh.M0, i);
    }
  }

  lemma WordIsEdge(r: seq<byte>, at: nat, end: nat, edges: seq<nat>, width: nat, i: nat)
    requires at <= end <= |r| && Fits(Padded(edges, width), U32_LIMIT) && r[at..end] == U32s(Padded(edges, width)) && i < width
    ensures EdgeIs(edges, r, at, i)
  {
    hide Word32, U32s, Read32, Padded;
    Read32At(r, at, end, Padded(edges, width), i);
    PaddedIs(edges, width, i);
    ReadIsWord(r, at + 4 * i, Padded(edges, width)[i]);
  }

  lemma UpperRegion(node: Node, sh: Shape)
    requires Fitting(node, sh)
    ensures UpperAt(sh) <= RecordBytes(sh) == |Encode(node, sh)| && |node.upper| == sh.maxLevel
    ensures Fits(UpperBlock(node.upper, sh.M), U32_LIMIT)
    ensures Encode(node, sh)[UpperAt(sh)..RecordBytes(sh)] == U32s(UpperBlock(node.upper, sh.M))
  {
    BlocksOf(node, sh);
  }

  lemma UpperWord(node: Node, sh: Shape, l: nat, i: nat)
    requires Fitting(node, sh) && l < sh.maxLevel && i < sh.M
    ensures l < |node.upper| && EdgeIs(node.upper[l], Encode(node, sh), UpperAt(sh) + 4 * Product(l, sh.M), i)
  {
    hide *;
    UpperRegion(node, sh);
    UpperSlot(node.upper, sh.M, l, i);
    SlotInside(l, i, sh.maxLevel, sh.M);
    var at := l * sh.M + i;
    Read32At(Encode(node, sh), UpperAt(sh), RecordBytes(sh), UpperBlock(node.upper, sh.M), at);
    PaddedIs(node.upper[l], sh.M, i);
    ReadIsWord(Encode(node, sh), UpperAt(sh) + 4 * at, UpperBlock(node.upper, sh.M)[at]);
    WordHolds(node.upper[l], Encode(node, sh), UpperAt(sh), l, sh.M, i, UpperBlock(node.upper, sh.M)[at]);
  }

  lemma WordHolds(edges: seq<nat>, r: seq<byte>, at: nat, l: nat, M: nat, i: nat, v: nat)
    requires 0 <= l * M + i && Word32(r, at + 4 * (l * M + i), v) && v == if i < |edges| then edges[i] else 0xFFFF_FFFF
    ensures EdgeIs(edges, r, at + 4 * Product(l, M), i)
  {
    hide Word32;
    assert at + 4 * (l * M + i) == at + 4 * Product(l, M) + 4 * i;
  }

  lemma LevelWords(node: Node, sh: Shape, upper: seq<seq<nat>>)
    requires Fitting(node, sh) && LevelsOf(node, upper, sh.maxLevel)
    ensures LevelsAre(upper, sh.maxLevel, sh.M, Encode(node, sh), UpperAt(sh))
  {
    hide Encode, Fitting, EdgeIs, UpperAt, Product;
    forall l: nat | l < sh.maxLevel ensures LevelIs(upper, sh.M, Encode(node, sh), UpperAt(sh), l) {
      var at := UpperAt(sh) + 4 * Product(l, sh.M);
      forall i: nat | i < sh.M ensures EdgeIs(node.upper[l], Encode(node, sh), at, i) {
        UpperWord(node, sh, l, i);
      }
    }
  }

  lemma EdgesStart(sh: Shape)
    ensures BaseAt(sh) == 16 + 2 * sh.maxLevel + sh.dim && UpperAt(sh) == 16 + 2 * sh.maxLevel + sh.dim + 4 * sh.M0
  {}

  /** What is written for a node of the index. */
  lemma RecordIs(index: Index, id: nat)
    requires ValidIndex(index) && id < index.graph.count
    ensures Fitting(NodeOf(index, id), ShapeOf(index)) && IsRecord(index, id, Encode(NodeOf(index, id), ShapeOf(index)))
  {
    hide *;
    NodeFits(index, id);
    HeadWords(index, id);
    EdgeWords(index, id);
    RecordParts(index, id, Encode(NodeOf(index, id), ShapeOf(index)));
  }

  lemma EdgeWords(index: Index, id: nat)
    requires ValidIndex(index) && id < index.graph.count
    requires Fitting(NodeOf(index, id), ShapeOf(index))
    ensures EdgesHold(index, id, Encode(NodeOf(index, id), ShapeOf(index)))
  {
    hide *;
    UpperLists(index);
    var node, sh, upper := NodeOf(index, id), ShapeOf(index), index.graph.upper[id];
    NodeFields(index, id);
    ShapeFields(index);
    EdgesStart(sh);
    CountWords(node, sh, upper);
    BaseWords(node, sh);
    LevelWords(node, sh, upper);
    EdgesTogether(index, id, Encode(node, sh));
  }

  lemma UpperLists(index: Index)
    requires ValidIndex(index)
    ensures |index.graph.upper| == index.graph.count
  {}

  lemma ShapeFields(index: Index)
    ensures ShapeOf(index).dim == index.dim && ShapeOf(index).maxLevel == index.graph.maxLevel
    ensures ShapeOf(index).M == index.M && ShapeOf(index).M0 == index.M0
  {}

  lemma EdgesTogether(index: Index, id: nat, r: seq<byte>)
    requires ValidIndex(index) && id < index.graph.count && CountsAre(index.graph.upper[id], index.graph.maxLevel, r)
    requires EdgesAre(index.graph.base[id], index.M0, r, 16 + 2 * index.graph.maxLevel + index.dim)
    requires
      LevelsAre(index.graph.upper[id], index.graph.maxLevel, index.M, r, 16 + 2 * index.graph.maxLevel + index.dim + 4 * index.M0)
    ensures EdgesHold(index, id, r)
  {
    hide CountsAre, EdgesAre, LevelsAre;
  }

  lemma RecordParts(index: Index, id: nat, r: seq<byte>)
    requires ValidIndex(index) && id < index.graph.count && HeadIs(index, id, r) && EdgesHold(index, id, r)
    ensures IsRecord(index, id, r)
  {
    hide HeadIs, EdgesHold;
  }

  lemma DecodedBaseEdge(buf: seq<byte>, base: seq<nat>, sh: Shape, i: nat)
    requires |buf| == RecordBytes(sh) && i < |base| <= sh.M0 && Fits(base, U32_LIMIT)
    requires buf[BaseAt(sh)..UpperAt(sh)] == U32s(Padded(base, sh.M0))
    ensures BaseField(buf, sh, i) == base[i]
  {
    Read32At(buf, BaseAt(sh), UpperAt(sh), Padded(base, sh.M0), i);
  }

  lemma DecodedBase(buf: seq<byte>, base: seq<nat>, sh: Shape)
    requires |buf| == RecordBytes(sh) && Fits(base, U32_LIMIT)
    requires Read16(buf, 6) == |base| <= sh.M0
    requires buf[BaseAt(sh)..UpperAt(sh)] == U32s(Padded(base, sh.M0))
    ensures BaseFields(buf, sh) == base
  {
    forall i | 0 <= i < |base| ensures BaseField(buf, sh, i) == base[i] {
      DecodedBaseEdge(buf, base, sh, i);
    }
  }

  lemma UpperFieldReads(buf: seq<byte>, sh: Shape, l: nat, i: nat)
    requires |buf| == RecordBytes(sh) && l < sh.maxLevel && i < sh.M
    ensures UpperAt(sh) + 4 * (l * sh.M + i) + 4 <= |buf|
    ensures UpperField(buf, sh, l, i) == Read32(buf, UpperAt(sh) + 4 * (l * sh.M + i))
  {
    SlotInside(l, i, sh.maxLevel, sh.M);
  }

  lemma PaddedKeeps(edges: seq<nat>, width: nat, i: nat)
    requires i < |edges| <= width
    ensures Padded(edges, width)[i] == edges[i]
  {}

  lemma DecodedEdge(buf: seq<byte>, upper: seq<seq<nat>>, sh: Shape, l: nat, i: nat)
    requires |buf| == RecordBytes(sh) && l < sh.maxLevel == |upper| && i < |upper[l]| <= sh.M
    requires Fits(UpperBlock(upper, sh.M), U32_LIMIT)
    requires buf[UpperAt(sh)..RecordBytes(sh)] == U32s(UpperBlock(upper, sh.M))
    ensures UpperField(buf, sh, l, i) == upper[l][i]
  {
    hide *;
    HeadInside(sh);
    UpperSlot(upper, sh.M, l, i);
    UpperFieldReads(buf, sh, l, i);
    assert Padded(upper[l], sh.M)[i] == upper[l][i] by { PaddedKeeps(upper[l], sh.M, i); }
    Read32At(buf, UpperAt(sh), RecordBytes(sh), UpperBlock(upper, sh.M), l * sh.M + i);
  }

  lemma DecodedLevel(buf: seq<byte>, upper: seq<seq<nat>>, sh: Shape, l: nat)
    requires |buf| == RecordBytes(sh) && l < sh.maxLevel == |upper| && |upper[l]| <= sh.M
    requires Fits(UpperBlock(upper, sh.M), U32_LIMIT)
    requires Read16(buf, 8 + 2 * l) == |upper[l]|
    requires buf[UpperAt(sh)..RecordBytes(sh)] == U32s(UpperBlock(upper, sh.M))
    ensures LevelFields(buf, sh, l) == upper[l]
  {
    forall i | 0 <= i < |upper[l]| ensures UpperField(buf, sh, l, i) == upper[l][i] {
      DecodedEdge(buf, upper, sh, l, i);
    }
  }

  lemma DecodedUpper(node: Node, sh: Shape)
    requires Fitting(node, sh)
    ensures Decode(Encode(node, sh), sh).upper == node.upper
  {
    var buf := Encode(node, sh);
    var upper := Decode(buf, sh).upper;
    forall l | 0 <= l < |upper| ensures upper[l] == node.upper[l] {
      assert Read16(buf, 8 + 2 * l) == |node.upper[l]| by {
        BlocksOf(node, sh);
        Read16At(buf, 8, RowAt(sh), UpperCounts(node), l);
      }
      assert buf[UpperAt(sh)..RecordBytes(sh)] == U32s(UpperBlock(node.upper, sh.M)) by {
        BlocksOf(node, sh);
      }
      DecodedLevel(buf, node.upper, sh, l);
    }
  }

  lemma DecodedScalars(node: Node, sh: Shape)
    requires Fitting(node, sh)
    ensures
      var r := Decode(Encode(node, sh), sh);
      r.id == node.id && r.level == node.level && r.qdata == node.qdata && r.scale == node.scale && r.offset == node.offset
  {
    BlocksOf(node, sh);
    HeadFields(node, sh);
    hide Encode, BaseFields, LevelFields, Read16, Read32, U16s, U32s, HeadBlock, FloatBlock, RecordBytes;
  }

  lemma DecodedNeighbours(node: Node, sh: Shape)
    requires Fitting(node, sh)
    ensures Decode(Encode(node, sh), sh).base == node.base
  {
    BlocksOf(node, sh);
    HeadFields(node, sh);
    hide Encode, BaseFields, LevelFields, Read16, Read32, U16s, U32s, HeadBlock, FloatBlock, RecordBytes;
    DecodedBase(Encode(node, sh), node.base, sh);
  }

  /** Decoding the record written for a node gives the node back, every field and edge list. */
  lemma DecodeEncode(node: Node, sh: Shape)
    requires Fitting(node, sh)
    ensures Decode(Encode(node, sh), sh) == node
  {
    hide *;
    DecodedScalars(node, sh);
    DecodedNeighbours(node, sh);
    DecodedUpper(node, sh);
  }
}
