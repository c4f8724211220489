/** The fixed-size slot arrays that keep the K nearest rows seen, replacing the worst slot in place. */
module TopSlots {
  import opened Sorting
  import opened Finite
  import PageBound
  import PartitionMembers

  datatype Ext = Fin(value: real) | Infinity

  predicate Less(a: Ext, b: Ext) {
    a.Fin? && (b.Infinity? || a.value < b.value)
  }

  /** Unused slots. */
  function Free(ids: seq<int>): (n: nat)
    ensures n <= |ids|
  {
    if ids == [] then 0 else Free(ids[..|ids| - 1]) + if ids[|ids| - 1] < 0 then 1 else 0
  }

  lemma {:induction false} FreeUpdate(ids: seq<int>, j: nat, v: int)
    requires j < |ids| && v >= 0
    ensures Free(ids[j := v]) == Free(ids) - if ids[j] < 0 then 1 else 0
  {
    var n := |ids| - 1;
    if j < n {
      FreeUpdate(ids[..n], j, v);
      assert ids[j := v][..n] == ids[..n][j := v];
    } else {
      assert ids[j := v][..n] == ids[..n];
    }
  }

  lemma {:induction false} FreeSlot(ids: seq<int>)
    ensures Free(ids) == 0 <==> forall j :: 0 <= j < |ids| ==> ids[j] >= 0
  {
    if ids == [] {
    } else {
      FreeSlot(ids[..|ids| - 1]);
    }
  }

  /** Each used slot pairs an id with its distance, no id twice; `kept` is the set of ids. */
  ghost predicate Slotted(dists: seq<Ext>, ids: seq<int>, kept: set<nat>, dist: nat -> real) {
    && |dists| == |ids|
    && (forall j :: 0 <= j < |ids| ==> if ids[j] < 0 then ids[j] == -1 && dists[j] == Infinity else dists[j] == Fin(dist(ids[j])))
    && (forall i, j :: 0 <= i < j < |ids| && ids[i] == ids[j] ==> ids[i] < 0)
    && (forall j :: 0 <= j < |ids| && ids[j] >= 0 ==> ids[j] in kept)
    && forall id: nat :: id in kept ==> (id as int) in ids
  }

  ghost predicate IsMax(m: Ext, dists: seq<Ext>) {
    m in dists && forall j :: 0 <= j < |dists| ==> !Less(m, dists[j])
  }

  /** The slots hold the K nearest of the rows seen, padded with Infinity, and `max` is their largest distance. */
  ghost predicate Holding(dists: seq<Ext>, ids: seq<int>, max: Ext, kept: set<nat>, seen: set<nat>, dist: nat -> real) {
    && Slotted(dists, ids, kept, dist)
    && Nearest(kept, seen, dist, |ids|) && Free(ids) + |kept| == |ids|
    && (|ids| > 0 ==> IsMax(max, dists))
  }

  lemma MaxIsFree(dists: seq<Ext>, ids: seq<int>, max: Ext, kept: set<nat>, dist: nat -> real)
    requires Slotted(dists, ids, kept, dist) && |ids| > 0 && IsMax(max, dists)
    ensures max.Infinity? <==> Free(ids) > 0
  {
    FreeSlot(ids);
    var k :| 0 <= k < |dists| && dists[k] == max;
  }

  /** What storing a nearer row in the worst slot does. */
  lemma Replaced(
    dists: seq<Ext>, ids: seq<int>, max: Ext, kept: set<nat>, seen: set<nat>, dist: nat -> real, worst: nat, id: nat)
    returns (kept': set<nat>)
    requires Holding(dists, ids, max, kept, seen, dist) && id !in seen && worst < |ids|
    requires dists[worst] == max && Less(Fin(dist(id)), max)
    ensures
      var ids' := ids[worst := id];
      && Slotted(dists[worst := Fin(dist(id))], ids', kept', dist)
      && Nearest(kept', seen + {id}, dist, |ids|) && Free(ids') + |kept'| == |ids|
  {
    FreeUpdate(ids, worst, id);
    MaxIsFree(dists, ids, max, kept, dist);
    if ids[worst] < 0 {
      kept' := kept + {id};
      NearestAfterAdd(kept, seen, id, dist, |ids|);
      SlotAdded(dists, ids, kept, dist, worst, id);
    } else {
      var out: nat := ids[worst];
      kept' := kept + {id} - {out};
      forall v | v in kept + {id} ensures dist(v) <= dist(out) {
        if v != id {
          var j :| 0 <= j < |ids| && ids[j] == v;
          assert !Less(max, dists[j]);
        }
      }
      NearestAfterSwap(kept, seen, id, out, dist, |ids|);
      SlotSwapped(dists, ids, kept, dist, worst, out, id);
      assert |kept'| == |kept|;
    }
  }

  lemma SlotAdded(dists: seq<Ext>, ids: seq<int>, kept: set<nat>, dist: nat -> real, worst: nat, id: nat)
    requires Slotted(dists, ids, kept, dist) && worst < |ids| && ids[worst] < 0 && id !in kept
    ensures Slotted(dists[worst := Fin(dist(id))], ids[worst := id], kept + {id}, dist)
  {
    var next := ids[worst := id];
    forall x: nat | x in kept + {id} ensures (x as int) in next {
      if x == id { assert next[worst] == id; }
      else { var j :| 0 <= j < |ids| && ids[j] == x; assert next[j] == x; }
    }
  }

  lemma SlotSwapped(dists: seq<Ext>, ids: seq<int>, kept: set<nat>, dist: nat -> real, worst: nat, out: nat, id: nat)
    requires Slotted(dists, ids, kept, dist) && worst < |ids| && ids[worst] == out && id !in kept
    ensures Slotted(dists[worst := Fin(dist(id))], ids[worst := id], kept + {id} - {out}, dist)
  {
    var next := ids[worst := id];
    forall x: nat | x in kept + {id} - {out} ensures (x as int) in next {
      if x == id { assert next[worst] == id; }
      else { var j :| 0 <= j < |ids| && ids[j] == x; assert next[j] == x; }
    }
    forall j | 0 <= j < |next| && next[j] >= 0 ensures next[j] in kept + {id} - {out} {
      if j != worst { assert ids[j] != out; }
    }
  }

  /** A row no nearer than the worst slot changes nothing. */
  lemma Skipped(dists: seq<Ext>, ids: seq<int>, max: Ext, kept: set<nat>, seen: set<nat>, dist: nat -> real, id: nat)
    requires Holding(dists, ids, max, kept, seen, dist) && id !in seen
    requires |ids| > 0 ==> !Less(Fin(dist(id)), max)
    ensures Holding(dists, ids, max, kept, seen + {id}, dist)
  {
    if |ids| > 0 {
      MaxIsFree(dists, ids, max, kept, dist);
      forall v | v in kept ensures dist(v) <= dist(id) {
        var j :| 0 <= j < |ids| && ids[j] == v;
        assert !Less(max, dists[j]);
      }
    }
    NearestAfterSkip(kept, seen, id, dist, |ids|);
  }

  class Slots {
    const heapDist: array<Ext>
    const heapId: array<int>
    var heapMax: Ext

    ghost predicate Valid(kept: set<nat>, seen: set<nat>, dist: nat -> real)
      reads this, heapDist, heapId
    {
      Holding(heapDist[..], heapId[..], heapMax, kept, seen, dist)
    }

    constructor (K: nat, ghost dist: nat -> real)
      ensures Valid({}, {}, dist) && heapDist.Length == K && fresh(heapDist) && fresh(heapId)
    {
      heapDist := new Ext[K](_ => Infinity);
      heapId := new int[K](_ => -1);
      heapMax := Infinity;
      new;
      AllFree(heapId[..]);
      assert K > 0 ==> heapDist[..][0] == Infinity;
    }

    /** Keep row `id` at distance `acc` if it beats the worst slot. A store past the end of an empty array is a no-op. */
    method Offer(id: nat, acc: real, ghost kept: set<nat>, ghost seen: set<nat>, ghost dist: nat -> real)
      returns (ghost kept': set<nat>)
      requires Valid(kept, seen, dist) && id !in seen && acc == dist(id) && forall x :: dist(x) >= 0.0
      modifies this, heapDist, heapId
      ensures Valid(kept', seen + {id}, dist)
      ensures !Less(Fin(acc), old(heapMax)) ==> heapDist[..] == old(heapDist[..]) && heapId[..] == old(heapId[..])
    {
      kept' := kept;
      if !Less(Fin(acc), heapMax) || heapDist.Length == 0 {
        Skipped(heapDist[..], heapId[..], heapMax, kept, seen, dist, id);
        if Less(Fin(acc), heapMax) { heapMax := Fin(0.0); }
        return;
      }
      var worst := Worst();
      ghost var d, i := heapDist[..], heapId[..];
      WorstIsMax(d, heapMax, worst);
      kept' := Replaced(d, i, heapMax, kept, seen, dist, worst, id);
      heapDist[worst] := Fin(acc);
      heapId[worst] := id;
      assert heapDist[..] == d[worst := Fin(dist(id))] && heapId[..] == i[worst := id];
      ghost var d', i' := heapDist[..], heapId[..];
      forall j | 0 <= j < |d'| ensures d'[j].Infinity? || d'[j].value >= 0.0 { assert d'[j] == Infinity || d'[j] == Fin(dist(i'[j])); }
      heapMax := RecomputeMax();
    }

    method Worst() returns (worst: nat)
      requires heapDist.Length > 0
      ensures worst < heapDist.Length && forall j :: 0 <= j < heapDist.Length ==> !Less(heapDist[worst], heapDist[j])
    {
      worst := 0;
      for j := 1 to heapDist.Length
        invariant worst < heapDist.Length && forall k :: 0 <= k < j ==> !Less(heapDist[worst], heapDist[k])
      {
        if Less(heapDist[worst], heapDist[j]) { worst := j; }
      }
    }

    /** The running maximum starts at zero, which is only right because distances are not negative. */
    method RecomputeMax() returns (m: Ext)
      requires heapDist.Length > 0
      requires forall j :: 0 <= j < heapDist.Length ==> heapDist[j].Infinity? || heapDist[j].value >= 0.0
      ensures IsMax(m, heapDist[..])
    {
      m := Fin(0.0);
      for j := 0 to heapDist.Length
        invariant m == Fin(0.0) || m in heapDist[..j]
        invariant forall k :: 0 <= k < j ==> !Less(m, heapDist[k])
        invariant m.Infinity? || m.value >= 0.0
      {
        if Less(m, heapDist[j]) { m := heapDist[j]; }
        assert heapDist[..j + 1] == heapDist[..j] + [heapDist[j]];
      }
      assert heapDist[..heapDist.Length] == heapDist[..];
      assert !Less(m, heapDist[0]) && heapDist[0] in heapDist[..];
    }

    /** Score a list of rows, each once, in any order. */
    method ScanRows(rows: seq<nat>, ghost kept: set<nat>, ghost seen: set<nat>, dist: nat -> real) returns (ghost kept': set<nat>)
      requires Valid(kept, seen, dist) && Distinct(rows) && Elements(rows) !! seen && forall x :: dist(x) >= 0.0
      modifies this, heapDist, heapId
      ensures Valid(kept', seen + Elements(rows), dist)
    {
      hide Holding, Elements;
      kept' := kept;
      NoRows(rows, seen);
      for i := 0 to |rows|
        invariant Valid(kept', seen + Elements(rows[..i]), dist)
      {
        NextRow(rows, seen, i);
        kept' := Offer(rows[i], dist(rows[i]), kept', seen + Elements(rows[..i]), dist);
      }
      assert rows[..|rows|] == rows;
    }

    /** Pages in ranked order, each page's window of the grouped member table scanned row by row. */
    method ScanPages(
      order: seq<nat>, starts: seq<nat>, members: seq<nat>, partition: seq<nat>, dist: nat -> real)
      returns (ghost kept: set<nat>)
      requires Valid({}, {}, dist) && Distinct(order) && forall x :: dist(x) >= 0.0
      requires forall r :: 0 <= r < |order| ==> PartitionMembers.Window(starts, members, partition, order[r])
      modifies this, heapDist, heapId
      ensures Valid(kept, OnPages(partition, order), dist)
    {
      kept := {};
      assert OnPages(partition, order[..0]) == {};
      for rank := 0 to |order|
        invariant Valid(kept, OnPages(partition, order[..rank]), dist)
      {
        var p := order[rank];
        var window := members[starts[p]..starts[p + 1]];
        NextPage(partition, order, rank);
        kept := ScanRows(window, kept, OnPages(partition, order[..rank]), dist);
      }
      assert order[..|order|] == order;
    }
  }

  lemma NoRows(rows: seq<nat>, seen: set<nat>)
    ensures seen + Elements(rows[..0]) == seen
  {}

  lemma NextRow(rows: seq<nat>, seen: set<nat>, i: nat)
    requires i < |rows| && Distinct(rows) && Elements(rows) !! seen
    ensures rows[i] !in seen + Elements(rows[..i])
    ensures seen + Elements(rows[..i + 1]) == seen + Elements(rows[..i]) + {rows[i]}
  {
    assert rows[..i + 1] == rows[..i] + [rows[i]];
    assert rows[i] in Elements(rows);
  }

  lemma {:induction false} AllFree(ids: seq<int>)
    requires forall j :: 0 <= j < |ids| ==> ids[j] == -1
    ensures Free(ids) == |ids|
  {
    if ids == [] {
    } else {
      AllFree(ids[..|ids| - 1]);
    }
  }

  lemma WorstIsMax(dists: seq<Ext>, max: Ext, worst: nat)
    requires IsMax(max, dists) && worst < |dists| && forall j :: 0 <= j < |dists| ==> !Less(dists[worst], dists[j])
    ensures dists[worst] == max
  {
    var k :| 0 <= k < |dists| && dists[k] == max;
    assert !Less(max, dists[worst]) && !Less(dists[worst], dists[k]);
  }

  /** Nodes of the listed partitions. */
  ghost function OnPages(partition: seq<nat>, pages: seq<nat>): (r: set<nat>)
    ensures forall i: nat :: i in r <==> i < |partition| && partition[i] in pages
  {
    set i | i in Below(|partition|) && partition[i] in pages
  }

  lemma RowsOfPage(partition: seq<nat>, page: nat)
    ensures
      var rows := PartitionMembers.Members(partition, |partition|, page);
      Distinct(rows) && forall i: nat :: i in Elements(rows) <==> i < |partition| && partition[i] == page
  {
    PartitionMembers.MembersExact(partition, |partition|, page);
  }

  lemma InPrefix(order: seq<nat>, rank: nat, page: nat)
    requires rank < |order|
    ensures page in order[..rank + 1] <==> page in order[..rank] || page == order[rank]
  {
    assert order[..rank + 1] == order[..rank] + [order[rank]];
  }

  lemma NextPage(partition: seq<nat>, order: seq<nat>, rank: nat)
    requires rank < |order| && Distinct(order)
    ensures
      var rows := PartitionMembers.Members(partition, |partition|, order[rank]);
      && Distinct(rows) && Elements(rows) !! OnPages(partition, order[..rank])
      && OnPages(partition, order[..rank + 1]) == OnPages(partition, order[..rank]) + Elements(rows)
  {
    hide PartitionMembers.Members, Elements;
    RowsOfPage(partition, order[rank]);
    forall page: nat ensures page in order[..rank + 1] <==> page in order[..rank] || page == order[rank] {
      InPrefix(order, rank, page);
    }
    assert order[rank] !in order[..rank];
  }

  /** A page whose bound reaches the worst slot cannot change the slots: none of its rows would be stored. */
  lemma PrunedPageIrrelevant(
    query: PageBound.Vector, vectors: seq<PageBound.Vector>, partition: seq<nat>, centroids: seq<PageBound.Vector>,
    radii: seq<real>, page: nat, max: Ext, sqrt: real -> real)
    requires PageBound.IsSquareRoot(sqrt) && page < |centroids| && |query| == |centroids[page]|
    requires PageBound.AreRadii(radii, vectors, partition, centroids, |vectors|, sqrt)
    requires !Less(Fin(PageBound.Bound(query, centroids[page], radii[page], sqrt)), max)
    ensures forall i: nat :: i < |vectors| && partition[i] == page ==>
      !Less(Fin(PageBound.SquaredDistance(query, vectors[i])), max)
  {
    forall i: nat | i < |vectors| && partition[i] == page
      ensures !Less(Fin(PageBound.SquaredDistance(query, vectors[i])), max)
    {
      PageBound.PageBoundSound(query, vectors, partition, centroids, radii, i, sqrt);
    }
  }
}
