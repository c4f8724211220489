/** Only single expansion makes the lazy search agree with the resident one on every index and query. */
module BatchParity {
  import opened Finite
  import opened GraphSearch
  import opened RecordCodec
  import opened ArtifactFile
  import opened RangeReader
  import opened RangeSearch
  import opened BatchWidth
  import Parity

  /** The five-node graph with three coordinates a node; at the origin its distances are 10, 5, 6, 1 and 0. */
  const FORK_INDEX: Index :=
    Index(FORK, 3, 2, 2, [0, 0, 0, 0, 0], [0, 0, 0, 0, 0], [3, 1, 0, 2, 1, 0, 2, 1, 1, 1, 0, 0, 0, 0, 0], [0, 0, 0, 0, 0])

  const ORIGIN: seq<real> := [0.0, 0.0, 0.0]

  const CODE_VALUE: Dequantize := (scale: nat, offset: nat, code: byte) => code as real

  lemma ForkIndexValid()
    ensures ValidIndex(FORK_INDEX) && |ORIGIN| == FORK_INDEX.dim
  {
    ForkGraphValid();
    assert FORK_INDEX.graph.count * FORK_INDEX.dim == 15;
    forall id | 0 <= id < 5 ensures ValidNode(FORK_INDEX, id) {
      assert FORK.upper[id] == [];
    }
  }

  lemma ForkGraphValid()
    ensures ValidGraph(FORK) && FORK_INDEX.graph == FORK
  {}

  lemma ThreeCodes(a: byte, b: byte, c: byte)
    ensures L2(ORIGIN, [a, b, c], 0, 0, 3, CODE_VALUE) == (a * a + b * b + c * c) as real
  {
    var codes := [a, b, c];
    assert L2(ORIGIN, codes, 0, 0, 1, CODE_VALUE) == (a * a) as real;
    assert L2(ORIGIN, codes, 0, 0, 2, CODE_VALUE) == (a * a + b * b) as real;
  }

  lemma ForkDistance(id: nat, a: byte, b: byte, c: byte)
    requires id < 5 && FORK_INDEX.qdata[3 * id..3 * id + 3] == [a, b, c]
    ensures Dist(FORK_INDEX, ORIGIN, CODE_VALUE)(id) == (a * a + b * b + c * c) as real
  {
    ForkIndexValid();
    ThreeCodes(a, b, c);
    hide ValidIndex, L2;
    assert RowOf(FORK_INDEX, id) == [a, b, c];
  }

  lemma ForkIndexDistances()
    ensures ForkDistances(Dist(FORK_INDEX, ORIGIN, CODE_VALUE))
  {
    hide Dist;
    ForkCodes();
    ForkDistance(0, 3, 1, 0);
    ForkDistance(1, 2, 1, 0);
    ForkDistance(2, 2, 1, 1);
    ForkDistance(3, 1, 0, 0);
    ForkDistance(4, 0, 0, 0);
  }

  lemma ForkCodes()
    ensures FORK_INDEX.qdata[0..3] == [3, 1, 0] && FORK_INDEX.qdata[3..6] == [2, 1, 0] && FORK_INDEX.qdata[6..9] == [2, 1, 1]
    ensures FORK_INDEX.qdata[9..12] == [1, 0, 0] && FORK_INDEX.qdata[12..15] == [0, 0, 0]
  {}

  /** Both searches give the same list of ids. */
  ghost predicate Agree(index: Index, query: seq<real>, dequantize: Dequantize, k: nat, efSearch: nat, batch: nat) {
    ValidIndex(index) && |query| == index.dim ==>
      var dist := Dist(index, query, dequantize);
      BatchedSearch(index.graph, dist, k, efSearch, batch) == ResidentSearch(index.graph, dist, k, efSearch)
  }

  /** Agreement on every index, query, dequantizer, k and efSearch is single expansion, no more and no less. */
  lemma AgreeOnlyWhenSingle(batch: nat)
    requires batch > 0
    ensures batch == 1 <==>
      forall index, query, dequantize, k, efSearch :: Agree(index, query, dequantize, k, efSearch, batch)
  {
    if batch == 1 {
      forall index, query, dequantize, k, efSearch ensures Agree(index, query, dequantize, k, efSearch, batch) {
        if ValidIndex(index) && |query| == index.dim {
          LazyRefinesResident(index.graph, Dist(index, query, dequantize), k, efSearch);
        }
      }
    } else {
      ForkIndexValid();
      ForkIndexDistances();
      WideBatchesCanDiffer(Dist(FORK_INDEX, ORIGIN, CODE_VALUE), batch);
      hide BatchedSearch, ResidentSearch, Dist;
      assert !Agree(FORK_INDEX, ORIGIN, CODE_VALUE, 1, 2, batch);
    }
  }

  /** The parity run's own options: the default batch answers 4 where the resident search answers 3. */
  method DefaultBatchDiffers(artifact: RangeArtifact) returns (same: bool)
    requires artifact.Valid() && artifact.index == FORK_INDEX
    modifies artifact
    ensures artifact.Valid() && !same
  {
    ForkIndexValid();
    ForkIndexDistances();
    WideBatchesCanDiffer(Dist(FORK_INDEX, ORIGIN, CODE_VALUE), OPERATIONAL_EXPANSION_BATCH);
    var expected, actual;
    DefaultWidth();
    hide *;
    same, expected, actual := Parity.CheckQuery(FORK_INDEX, artifact, ORIGIN, 1, 2, 0, 0, CODE_VALUE);
  }

  lemma DefaultWidth()
    ensures Parity.Width(0) == OPERATIONAL_EXPANSION_BATCH
  {}

  /** And such an artifact is what the exporter writes. */
  method ExportedDiffers(parts: nat) returns (same: bool)
    requires parts < U32_LIMIT
    ensures !same
  {
    ForkIndexValid();
    ForkOrder();
    hide *;
    var file, layout := ExportSplitRangeArtifact(FORK_INDEX, Upto(5), parts);
    ForkHeaderFits(layout);
    Parity.MagicWritten(file.value, FORK_INDEX, layout);
    var artifact := Open(file.value, FORK_INDEX, layout);
    same := DefaultBatchDiffers(artifact.value);
  }

  lemma ForkOrder()
    ensures FORK_INDEX.graph.count == 5 && IsPermutation(Upto(5), FORK_INDEX.graph.count)
  {}

  lemma ForkHeaderFits(layout: Layout)
    requires layout.version == 2 && layout.parts < U32_LIMIT && ValidLayout(FORK_INDEX, layout)
    ensures Fits(HeaderWords(FORK_INDEX, layout), U32_LIMIT)
  {
    assert RecordBytes(ShapeOf(FORK_INDEX)) == 27;
    assert layout.routers * 27 <= 5 * 27;
    hide RecordBytes;
    var words := HeaderWords(FORK_INDEX, layout);
    assert |words| == 18;
    assert words[10] == 27 && words[12] == 276 && words[17] == 276 + layout.routers * 27;
  }
}
