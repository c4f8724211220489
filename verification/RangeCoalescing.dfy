/**
 Coalescing requested record slots into runs. `Runs` is the common meaning of the reader's two prefetch
 loops and of the two layout simulators.
 */
module RangeCoalescing {
  import opened Sorting
  import opened Finite

  /** Slots `first` to `last`, both included. */
  datatype Run = Run(first: nat, last: nat)

  ghost predicate Increasing(s: seq<nat>) {
    forall i, j :: 0 <= i < j < |s| ==> s[i] < s[j]
  }

  function Last<T>(s: seq<T>): T
    requires s != []
  {
    s[|s| - 1]
  }

  function Front<T>(s: seq<T>): seq<T>
    requires s != []
  {
    s[..|s| - 1]
  }

  /** Add one slot, beyond all earlier ones: extend the last run across at most `gap` idle slots, or start another. */
  function AddSlot(runs: seq<Run>, slot: nat, gap: nat): (r: seq<Run>) {
    if runs != [] && slot <= Last(runs).last + gap + 1 then Front(runs) + [Run(Last(runs).first, slot)]
    else runs + [Run(slot, slot)]
  }

  function Runs(slots: seq<nat>, gap: nat): (r: seq<Run>) {
    if slots == [] then [] else AddSlot(Runs(Front(slots), gap), Last(slots), gap)
  }

  predicate Contains(run: Run, slot: nat) {
    run.first <= slot <= run.last
  }

  ghost predicate Covers(runs: seq<Run>, slots: seq<nat>) {
    forall s :: s in slots ==> exists i :: 0 <= i < |runs| && Contains(runs[i], s)
  }

  ghost predicate WindowHit(slots: seq<nat>, p: nat, gap: nat) {
    exists s :: s in slots && p <= s <= p + gap
  }

  /** No window of gap + 1 slots inside the run is free of requested slots. */
  ghost predicate NoLongHole(run: Run, slots: seq<nat>, gap: nat) {
    forall p: nat :: run.first <= p && p + gap <= run.last ==> WindowHit(slots, p, gap)
  }

  ghost predicate Tight(run: Run, slots: seq<nat>, gap: nat) {
    run.first <= run.last && run.first in slots && run.last in slots && NoLongHole(run, slots, gap)
  }

  ghost predicate Separated(runs: seq<Run>, gap: nat) {
    forall i, j :: 0 <= i < j < |runs| ==> runs[i].last + gap + 1 < runs[j].first
  }

  ghost predicate AllTight(runs: seq<Run>, slots: seq<nat>, gap: nat) {
    forall i :: 0 <= i < |runs| ==> Tight(runs[i], slots, gap)
  }

  ghost predicate WellCoalesced(runs: seq<Run>, slots: seq<nat>, gap: nat) {
    AllTight(runs, slots, gap) && Separated(runs, gap) && Covers(runs, slots)
  }

  lemma TightWithMore(run: Run, slots: seq<nat>, slot: nat, gap: nat)
    requires Tight(run, slots, gap)
    ensures Tight(run, slots + [slot], gap)
  {
    forall p: nat | run.first <= p && p + gap <= run.last ensures WindowHit(slots + [slot], p, gap) {
      assert WindowHit(slots, p, gap);
      var s :| s in slots && p <= s <= p + gap;
      assert s in slots + [slot];
    }
  }

  lemma ExtendedRun(run: Run, slots: seq<nat>, slot: nat, gap: nat)
    requires Tight(run, slots, gap) && run.last < slot <= run.last + gap + 1
    ensures Tight(Run(run.first, slot), slots + [slot], gap)
  {
    assert slot in slots + [slot] && run.last in slots + [slot];
    forall p: nat | run.first <= p && p + gap <= slot ensures WindowHit(slots + [slot], p, gap) {
      if p + gap <= run.last {
        assert WindowHit(slots, p, gap);
        var s :| s in slots && p <= s <= p + gap;
        assert s in slots + [slot];
      } else if p + gap == slot {
        assert p <= slot <= p + gap;
      } else {
        assert p <= run.last <= p + gap;
      }
    }
  }

  lemma SingletonTight(slots: seq<nat>, slot: nat, gap: nat)
    ensures Tight(Run(slot, slot), slots + [slot], gap)
  {
    assert slot in slots + [slot];
  }

  lemma AddSlotTight(runs: seq<Run>, slots: seq<nat>, slot: nat, gap: nat)
    requires AllTight(runs, slots, gap)
    requires forall s :: s in slots ==> s < slot
    ensures AllTight(AddSlot(runs, slot, gap), slots + [slot], gap)
  {
    var r := AddSlot(runs, slot, gap);
    forall i | 0 <= i < |r| ensures Tight(r[i], slots + [slot], gap) {
      if i < |r| - 1 {
        TightWithMore(runs[i], slots, slot, gap);
      } else if |r| == |runs| {
        ExtendedRun(runs[i], slots, slot, gap);
      } else {
        SingletonTight(slots, slot, gap);
      }
    }
  }

  lemma AddSlotSeparated(runs: seq<Run>, slots: seq<nat>, slot: nat, gap: nat)
    requires Separated(runs, gap) && AllTight(runs, slots, gap)
    ensures Separated(AddSlot(runs, slot, gap), gap)
  {
    var r := AddSlot(runs, slot, gap);
    forall i, j | 0 <= i < j < |r| ensures r[i].last + gap + 1 < r[j].first {
      var last := |runs| - 1;
      if |r| > |runs| && j == |runs| && i < last {
        assert runs[i].last + gap + 1 < runs[last].first;
        assert Tight(runs[last], slots, gap);
      }
    }
  }

  lemma AddSlotCovers(runs: seq<Run>, slots: seq<nat>, slot: nat, gap: nat)
    requires Covers(runs, slots)
    requires forall s :: s in slots ==> s < slot
    requires forall i :: 0 <= i < |runs| ==> runs[i].first < slot
    ensures Covers(AddSlot(runs, slot, gap), slots + [slot])
  {
    var r := AddSlot(runs, slot, gap);
    assert Contains(r[|r| - 1], slot);
    forall s | s in slots + [slot] ensures exists i :: 0 <= i < |r| && Contains(r[i], s) {
      if s in slots {
        var i :| 0 <= i < |runs| && Contains(runs[i], s);
        assert Contains(r[i], s);
      }
    }
  }

  lemma IncreasingFront(slots: seq<nat>)
    requires Increasing(slots) && slots != []
    ensures Increasing(Front(slots)) && slots == Front(slots) + [Last(slots)]
    ensures forall s :: s in Front(slots) ==> s < Last(slots)
  {
  }

  lemma FirstsBelow(runs: seq<Run>, slots: seq<nat>, slot: nat, gap: nat)
    requires AllTight(runs, slots, gap) && forall s :: s in slots ==> s < slot
    ensures forall i :: 0 <= i < |runs| ==> runs[i].first < slot
  {
    forall i | 0 <= i < |runs| ensures runs[i].first < slot {
      assert Tight(runs[i], slots, gap);
    }
  }

  /** The runs cover every requested slot, start and end on one, stay more than `gap` apart and have no hole over `gap`. */
  lemma {:induction false} RunsCoalesced(slots: seq<nat>, gap: nat)
    requires Increasing(slots)
    ensures WellCoalesced(Runs(slots, gap), slots, gap)
    ensures Runs(slots, gap) == [] <==> slots == []
  {
    if slots == [] {
    } else {
      var front, slot := Front(slots), Last(slots);
      var runs := Runs(front, gap);
      IncreasingFront(slots);
      RunsCoalesced(front, gap);
      FirstsBelow(runs, front, slot, gap);
      AddSlotTight(runs, front, slot, gap);
      AddSlotSeparated(runs, front, slot, gap);
      AddSlotCovers(runs, front, slot, gap);
    }
  }

  ghost function Holder(runs: seq<Run>, slots: seq<nat>, s: nat): (i: nat)
    requires Covers(runs, slots) && s in slots
    ensures i < |runs| && Contains(runs[i], s)
  {
    var i: nat :| i < |runs| && Contains(runs[i], s);
    i
  }

  lemma NoSlotBetween(runs: seq<Run>, gap: nat, i: nat, j: nat, s: nat)
    requires Separated(runs, gap) && 0 < j < |runs| && i < |runs| && Contains(runs[i], s)
    requires runs[j].first <= runs[j].last && runs[j - 1].first <= runs[j - 1].last
    ensures s <= runs[j - 1].last || s >= runs[j].first
  {
    if i < j - 1 {
      assert runs[i].last + gap + 1 < runs[j - 1].first;
    } else if i > j {
      assert runs[j].last + gap + 1 < runs[i].first;
    }
  }

  lemma EarlierBelow(runs: seq<Run>, slots: seq<nat>, gap: nat, i: nat, j: nat)
    requires Separated(runs, gap) && AllTight(runs, slots, gap) && i < j < |runs|
    ensures runs[i].first <= runs[j - 1].last && runs[j - 1].last + 1 + gap < runs[j].first
  {
    assert Tight(runs[i], slots, gap) && Tight(runs[j - 1], slots, gap);
    if i < j - 1 { assert runs[i].last + gap + 1 < runs[j - 1].first; }
  }

  lemma NoneBetween(runs: seq<Run>, slots: seq<nat>, gap: nat, j: nat, s: nat)
    requires WellCoalesced(runs, slots, gap) && 0 < j < |runs| && s in slots
    ensures s <= runs[j - 1].last || s >= runs[j].first
  {
    hide *;
    CoalescedMeans(runs, slots, gap);
    RunsForward(runs, slots, gap, j);
    RunsForward(runs, slots, gap, j - 1);
    NoSlotBetween(runs, gap, Holder(runs, slots, s), j, s);
  }

  lemma CoalescedMeans(runs: seq<Run>, slots: seq<nat>, gap: nat)
    requires WellCoalesced(runs, slots, gap)
    ensures AllTight(runs, slots, gap) && Separated(runs, gap) && Covers(runs, slots)
  {
    hide AllTight, Separated, Covers;
  }

  lemma RunsForward(runs: seq<Run>, slots: seq<nat>, gap: nat, i: nat)
    requires WellCoalesced(runs, slots, gap) && i < |runs|
    ensures runs[i].first <= runs[i].last
  {
    hide NoLongHole, Separated, Covers;
    assert Tight(runs[i], slots, gap);
  }

  lemma IdleWindow(runs: seq<Run>, slots: seq<nat>, gap: nat, j: nat)
    requires WellCoalesced(runs, slots, gap) && 0 < j < |runs|
    requires runs[j - 1].last + 1 + gap < runs[j].first
    ensures !WindowHit(slots, runs[j - 1].last + 1, gap)
  {
    hide WellCoalesced;
    forall s | s in slots ensures s <= runs[j - 1].last || s >= runs[j].first {
      NoneBetween(runs, slots, gap, j, s);
    }
  }

  lemma CannotBridge(runs: seq<Run>, slots: seq<nat>, gap: nat, i: nat, j: nat, other: Run)
    requires WellCoalesced(runs, slots, gap) && i < j < |runs| && NoLongHole(other, slots, gap)
    requires Contains(other, runs[i].first)
    ensures !Contains(other, runs[j].first)
  {
    EarlierBelow(runs, slots, gap, i, j);
    IdleWindow(runs, slots, gap, j);
    assert !(other.first <= runs[j - 1].last + 1 && runs[j - 1].last + 1 + gap <= other.last);
  }

  /** Fewest requests: any cover whose runs have no hole over `gap` has at least as many runs. */
  lemma RunsFewest(slots: seq<nat>, gap: nat, other: seq<Run>)
    requires Increasing(slots) && Covers(other, slots)
    requires forall i :: 0 <= i < |other| ==> NoLongHole(other[i], slots, gap)
    ensures |Runs(slots, gap)| <= |other|
  {
    RunsCoalesced(slots, gap);
    var runs := Runs(slots, gap);
    var f := seq(|runs|, i requires 0 <= i < |runs| => Holder(other, slots, runs[i].first));
    forall i, j | 0 <= i < j < |f| ensures f[i] != f[j] {
      CannotBridge(runs, slots, gap, i, j, other[f[i]]);
    }
    Pigeonhole(f, |other|);
  }

  function Covered(runs: seq<Run>): int {
    if runs == [] then 0 else Covered(Front(runs)) + Last(runs).last - Last(runs).first + 1
  }

  lemma CoveredAddSlot(runs: seq<Run>, slot: nat, gap: nat)
    ensures
      Covered(AddSlot(runs, slot, gap))
      == if runs != [] && slot <= Last(runs).last + gap + 1 then Covered(runs) + slot - Last(runs).last else Covered(runs) + 1
  {
    var r := AddSlot(runs, slot, gap);
    if |r| == |runs| {
      assert Front(r) == Front(runs);
    } else {
      assert Front(r) == runs;
    }
  }

  lemma CoveredStep(slots: seq<nat>, gap: nat)
    requires Increasing(slots) && slots != []
    ensures
      var runs, r := Runs(Front(slots), gap), Runs(slots, gap);
      || (|r| == |runs| && Covered(runs) + 1 <= Covered(r) <= Covered(runs) + gap + 1)
      || (|r| == |runs| + 1 && Covered(r) == Covered(runs) + 1)
  {
    var runs := Runs(Front(slots), gap);
    IncreasingFront(slots);
    RunsCoalesced(Front(slots), gap);
    CoveredAddSlot(runs, Last(slots), gap);
    if runs != [] {
      assert Tight(Last(runs), Front(slots), gap);
    }
  }

  /** Over-fetch is bounded: n requested slots in r runs read between n and n + (n - r) * gap slots. */
  lemma {:induction false} CoveredBounded(slots: seq<nat>, gap: nat)
    requires Increasing(slots)
    ensures |slots| <= Covered(Runs(slots, gap)) <= |slots| + (|slots| - |Runs(slots, gap)|) * gap
  {
    if slots == [] {
    } else {
      IncreasingFront(slots);
      CoveredBounded(Front(slots), gap);
      CoveredStep(slots, gap);
      var spare := |Front(slots)| - |Runs(Front(slots), gap)|;
      assert (spare + 1) * gap == spare * gap + gap;
    }
  }

  /** On a grid of `size`-byte records a byte gap acts as the slot gap floor(gap / size). */
  lemma ByteGapIsSlotGap(origin: nat, size: nat, last: nat, slot: nat, gap: nat)
    requires size > 0
    ensures origin + slot * size <= origin + (last + 1) * size + gap <==> slot <= last + gap / size + 1
  {
    var q, d := gap / size, slot - last - 1;
    assert q * size <= gap < q * size + size;
    assert slot * size - (last + 1) * size == d * size;
    if d <= q {
      MulAtMost(d, q, size);
    } else {
      MulAtMost(q + 1, d, size);
      assert (q + 1) * size == q * size + size;
    }
  }

  lemma MulAtMost(a: int, b: int, c: nat)
    requires a <= b
    ensures a * c <= b * c
  {
  }

  // ---------- the simulators ----------

  predicate AtMost(x: nat, y: nat) { x <= y }

  lemma SortIncreasing(s: seq<nat>)
    requires Distinct(s)
    ensures Increasing(StableSort(s, AtMost)) && Elements(StableSort(s, AtMost)) == Elements(s)
  {
    var r := StableSort(s, AtMost);
    StableSortSorted(s, AtMost);
    SameElements(s, r);
    DistinctPermutation(s, r);
    forall i, j | 0 <= i < j < |r| ensures r[i] < r[j] {
      assert AtMost(r[i], r[j]);
    }
  }

  lemma RunsPrefix(slots: seq<nat>, i: nat, gap: nat)
    requires i < |slots|
    ensures Runs(slots[..i + 1], gap) == AddSlot(Runs(slots[..i], gap), slots[i], gap)
  {
    assert Front(slots[..i + 1]) == slots[..i];
  }

  /** What one iteration of a coalescing loop does to the runs flushed so far and the open run. */
  lemma AddToOpen(flushed: seq<Run>, open: Run, slot: nat, gap: nat)
    ensures
      AddSlot(flushed + [open], slot, gap)
      == if slot <= open.last + gap + 1 then flushed + [Run(open.first, slot)]
         else flushed + [open] + [Run(slot, slot)]
  {
    assert Front(flushed + [open]) == flushed;
  }

  lemma CoveredOpen(flushed: seq<Run>, open: Run)
    ensures Covered(flushed + [open]) == Covered(flushed) + open.last - open.first + 1
  {
    assert Front(flushed + [open]) == flushed;
  }

  lemma NoElements(s: seq<nat>)
    ensures s == [] || exists x: nat :: x in s
  {
    if s != [] { assert s[0] in s; }
  }

  /** Ascending lists without repeats are determined by their elements. */
  lemma {:induction false} IncreasingUnique(a: seq<nat>, b: seq<nat>)
    requires Increasing(a) && Increasing(b) && forall x :: x in a <==> x in b
    ensures a == b
  {
    if a == [] {
      NoElements(b);
    } else {
      assert a[0] in a && b != [];
      LastsAgree(a, b);
      IncreasingFront(a);
      IncreasingFront(b);
      IncreasingUnique(Front(a), Front(b));
    }
  }

  lemma LastsAgree(a: seq<nat>, b: seq<nat>)
    requires a != [] && b != [] && Increasing(a) && Increasing(b) && forall x :: x in a <==> x in b
    ensures Last(a) == Last(b) && forall x :: x in Front(a) <==> x in Front(b)
  {
    IncreasingFront(a);
    IncreasingFront(b);
    assert Last(a) in a && Last(b) in b;
    assert Last(a) == Last(b) by {
      assert Last(a) in b && Last(b) in a;
    }
    forall x ensures x in Front(a) <==> x in Front(b) {
      assert x in a <==> x in Front(a) || x == Last(a);
      assert x in b <==> x in Front(b) || x == Last(b);
    }
  }

  /** The slots a list of ids occupies, each once, in ascending order. */
  ghost predicate SlotsOf(slots: seq<nat>, ids: seq<nat>, permutation: seq<nat>)
    requires forall k :: 0 <= k < |ids| ==> ids[k] < |permutation|
  {
    Increasing(slots) && Elements(slots) == set k | 0 <= k < |ids| :: permutation[ids[k]]
  }

  method SortedPositions(ids: seq<nat>, permutation: seq<nat>) returns (positions: seq<nat>)
    requires forall k :: 0 <= k < |ids| ==> ids[k] < |permutation|
    ensures SlotsOf(positions, ids, permutation)
    ensures ids != [] ==> positions != []
  {
    var seen: seq<nat> := [];
    for i := 0 to |ids|
      invariant Distinct(seen) && Elements(seen) == set k | 0 <= k < i :: permutation[ids[k]]
      invariant i > 0 ==> seen != []
    {
      var p := permutation[ids[i]];
      assert (set k | 0 <= k < i + 1 :: permutation[ids[k]]) == (set k | 0 <= k < i :: permutation[ids[k]]) + {p};
      if p !in seen { seen := seen + [p]; }
    }
    SortIncreasing(seen);
    positions := StableSort(seen, AtMost);
  }

  /** `coalescedRuns`: request and byte counts of one trace under a layout permutation. */
  method CoalescedRuns(ids: seq<nat>, permutation: seq<nat>, stride: nat, gap: nat)
    returns (requests: nat, bytes: int, coveredNodes: int, ghost positions: seq<nat>)
    requires forall k :: 0 <= k < |ids| ==> ids[k] < |permutation|
    ensures SlotsOf(positions, ids, permutation)
    ensures requests == |Runs(positions, gap)| && coveredNodes == Covered(Runs(positions, gap))
    ensures bytes == coveredNodes * stride
  {
    if |ids| == 0 { return 0, 0, 0, []; }
    var sorted := SortedPositions(ids, permutation);
    positions := sorted;
    requests, coveredNodes := CountRuns(sorted, gap);
    bytes := coveredNodes * stride;
  }

  lemma SingleRun(slots: seq<nat>, gap: nat)
    requires slots != []
    ensures Runs(slots[..1], gap) == [Run(slots[0], slots[0])] && Covered([]) == 0
    ensures Last(Runs(slots[..1], gap)).last == slots[0]
  {
    RunsPrefix(slots, 0, gap);
  }

  method CountRuns(sorted: seq<nat>, gap: nat) returns (requests: nat, coveredNodes: int)
    requires sorted != []
    ensures requests == |Runs(sorted, gap)| && coveredNodes == Covered(Runs(sorted, gap))
  {
    hide *;
    SingleRun(sorted, gap);
    requests, coveredNodes := 0, 0;
    var start: nat, prev: nat := sorted[0], sorted[0];
    ghost var flushed: seq<Run>, runs := [], Runs(sorted[..1], gap);
    assert [] + [Run(start, prev)] == [Run(start, prev)];
    for i := 1 to |sorted|
      invariant prev == sorted[i - 1]
      invariant runs == Runs(sorted[..i], gap) == flushed + [Run(start, prev)]
      invariant requests == |flushed| && coveredNodes == Covered(flushed)
    {
      var pos := sorted[i];
      RunsPrefix(sorted, i, gap);
      AddToOpen(flushed, Run(start, prev), pos, gap);
      runs := AddSlot(runs, pos, gap);
      if pos - prev - 1 <= gap {
        prev := pos;
      } else {
        CoveredOpen(flushed, Run(start, prev));
        requests := requests + 1;
        coveredNodes := coveredNodes + prev - start + 1;
        flushed := flushed + [Run(start, prev)];
        start, prev := pos, pos;
      }
    }
    assert sorted[..|sorted|] == sorted;
    CoveredOpen(flushed, Run(start, prev));
    requests := requests + 1;
    coveredNodes := coveredNodes + prev - start + 1;
  }

  /**
   `coalesce` of the layout simulator: byte addresses, byte gap, filler bytes. An empty list is still one range, and
   each repeat of an id takes one row off the filler.
   */
  method CoalesceRows(ids: seq<nat>, rowBytes: nat, gap: nat) returns (ranges: nat, filler: int, ghost rows: seq<nat>)
    requires rowBytes > 0
    ensures multiset(rows) == multiset(ids) && forall i, j :: 0 <= i < j < |rows| ==> rows[i] <= rows[j]
    ensures Distinct(ids) ==> Increasing(rows) && Elements(rows) == Elements(ids)
    ensures ids == [] ==> ranges == 1 && filler == 0
    ensures ids != [] ==> ranges == |Runs(rows, gap / rowBytes)|
    ensures ids != [] ==> filler == (Covered(Runs(rows, gap / rowBytes)) - |ids|) * rowBytes
  {
    if Distinct(ids) { SortIncreasing(ids); }
    var sorted := StableSort(ids, AtMost);
    rows := sorted;
    StableSortSorted(ids, AtMost);
    forall i, j | 0 <= i < j < |rows| ensures rows[i] <= rows[j] { assert AtMost(rows[i], rows[j]); }
    hide Runs, Covered, StableSort, Increasing, Distinct;
    if |ids| == 0 { return 1, 0, rows; }
    ranges, filler := CountFiller(sorted, rowBytes, gap);
  }

  method CountFiller(sorted: seq<nat>, rowBytes: nat, gap: nat) returns (ranges: nat, filler: int)
    requires rowBytes > 0 && sorted != []
    ensures ranges == |Runs(sorted, gap / rowBytes)|
    ensures filler == (Covered(Runs(sorted, gap / rowBytes)) - |sorted|) * rowBytes
  {
    hide *;
    SingleRun(sorted, gap / rowBytes);
    ranges, filler := 1, 0;
    ghost var runs := Runs(sorted[..1], gap / rowBytes);
    CoveredOpen([], Run(sorted[0], sorted[0]));
    assert [] + [Run(sorted[0], sorted[0])] == runs;
    for i := 1 to |sorted|
      invariant runs == Runs(sorted[..i], gap / rowBytes)
      invariant ranges == |runs| > 0 && Last(runs).last == sorted[i - 1]
      invariant filler == (Covered(runs) - i) * rowBytes
    {
      runs := AddSlot(runs, sorted[i], gap / rowBytes);
      RunsPrefix(sorted, i, gap / rowBytes);
      FillerStep(Runs(sorted[..i], gap / rowBytes), sorted[i], i, rowBytes, gap);
      var d := sorted[i] * rowBytes - (sorted[i - 1] * rowBytes + rowBytes);
      if d <= gap {
        filler := filler + d;
      } else {
        ranges := ranges + 1;
      }
    }
    assert sorted[..|sorted|] == sorted;
  }

  lemma FillerStep(runs: seq<Run>, slot: nat, i: nat, rowBytes: nat, gap: nat)
    requires rowBytes > 0 && runs != []
    ensures
      var d := slot * rowBytes - (Last(runs).last * rowBytes + rowBytes);
      var after := AddSlot(runs, slot, gap / rowBytes);
      && after != [] && Last(after).last == slot
      && |after| == (if d <= gap then |runs| else |runs| + 1)
      && (Covered(after) - (i + 1)) * rowBytes == (Covered(runs) - i) * rowBytes + (if d <= gap then d else 0)
  {
    var last, c := Last(runs).last, Covered(runs);
    CoveredAddSlot(runs, slot, gap / rowBytes);
    ByteGapIsSlotGap(0, rowBytes, last, slot, gap);
    Distribute(c, slot, last, i, rowBytes);
  }

  lemma Distribute(c: int, slot: nat, last: nat, i: nat, rowBytes: nat)
    ensures (last + 1) * rowBytes == last * rowBytes + rowBytes
    ensures (c + slot - last - (i + 1)) * rowBytes == (c - i) * rowBytes + (slot * rowBytes - (last * rowBytes + rowBytes))
  {
  }
}
