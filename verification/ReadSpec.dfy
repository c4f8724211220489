/** Which nodes a coalesced read brings in: the vocabulary of the reader's contracts. */
module ReadSpec {
  import opened Sorting
  import opened Finite
  import opened RangeCoalescing
  import opened GraphSearch
  import opened RecordCodec
  import opened ArtifactFile

  /** The slot that holds the record of `id`. */
  ghost function SlotOf(layout: Layout, id: nat): (s: nat)
    ensures id in layout.slots ==> s < |layout.slots| && layout.slots[s] == id
  {
    if id in layout.slots then
      var s: nat :| s < |layout.slots| && layout.slots[s] == id; s
    else 0
  }

  lemma SlotExists(index: Index, layout: Layout, id: nat)
    requires ValidLayout(index, layout) && id < index.graph.count
    ensures SlotOf(layout, id) < |layout.slots| && layout.slots[SlotOf(layout, id)] == id
  {
    PermutationHitsAll(layout.slots, index.graph.count);
  }

  lemma SlotOfSlot(index: Index, layout: Layout, s: nat)
    requires ValidLayout(index, layout) && s < |layout.slots|
    ensures layout.slots[s] < index.graph.count && SlotOf(layout, layout.slots[s]) == s
  {
    SlotExists(index, layout, layout.slots[s]);
  }

  ghost predicate RunInside(layout: Layout, run: Run) {
    run.first <= run.last < |layout.slots|
  }

  ghost predicate RunsInside(layout: Layout, runs: seq<Run>) {
    forall i :: 0 <= i < |runs| ==> RunInside(layout, runs[i])
  }

  /** Nodes whose records lie in slots a to b - 1. */
  ghost function SlotIds(layout: Layout, a: nat, b: nat): (r: set<nat>) {
    set s: nat | a <= s < b && s < |layout.slots| :: layout.slots[s]
  }

  lemma SlotIdsEmpty(layout: Layout, a: nat)
    ensures SlotIds(layout, a, a) == {}
  {
  }

  lemma SlotIdsStep(layout: Layout, a: nat, b: nat)
    requires a <= b < |layout.slots|
    ensures SlotIds(layout, a, b + 1) == SlotIds(layout, a, b) + {layout.slots[b]}
  {
  }

  lemma SlotIdsSplit(layout: Layout, a: nat, b: nat, c: nat)
    requires a <= b <= c
    ensures SlotIds(layout, a, c) == SlotIds(layout, a, b) + SlotIds(layout, b, c)
  {
  }

  ghost function RunIds(layout: Layout, run: Run): (r: set<nat>) {
    SlotIds(layout, run.first, run.last + 1)
  }

  /** Nodes whose records lie in any of the runs. */
  ghost function RunsIds(layout: Layout, runs: seq<Run>): (r: set<nat>) {
    if runs == [] then {} else RunsIds(layout, Front(runs)) + RunIds(layout, Last(runs))
  }

  lemma {:induction false} InSomeRun(layout: Layout, runs: seq<Run>, i: nat, s: nat)
    requires i < |runs| && Contains(runs[i], s) && s < |layout.slots|
    ensures layout.slots[s] in RunsIds(layout, runs)
  {
    if i < |runs| - 1 { InSomeRun(layout, Front(runs), i, s); }
  }

  lemma {:induction false} FromSomeRun(layout: Layout, runs: seq<Run>, x: nat) returns (i: nat, s: nat)
    requires x in RunsIds(layout, runs)
    ensures i < |runs| && Contains(runs[i], s) && s < |layout.slots| && layout.slots[s] == x
  {
    if x in RunIds(layout, Last(runs)) {
      i := |runs| - 1;
      s :| runs[i].first <= s < runs[i].last + 1 && s < |layout.slots| && layout.slots[s] == x;
    } else {
      i, s := FromSomeRun(layout, Front(runs), x);
    }
  }

  /** Ascending slots of the requested nodes that are not cached. */
  ghost predicate MissingSlots(layout: Layout, slots: seq<nat>, ids: seq<nat>, cached: set<nat>) {
    && Increasing(slots)
    && (forall k :: 0 <= k < |slots| ==> slots[k] < |layout.slots|)
    && forall s: nat :: s < |layout.slots| ==> (s in slots <==> layout.slots[s] in ids && layout.slots[s] !in cached)
  }

  /** On a cold cache the slots the reader misses are the positions a layout simulator sorts. */
  lemma ColdSlots(
    index: Index, layout: Layout, slots: seq<nat>, ids: seq<nat>, positions: seq<nat>, permutation: seq<nat>)
    requires ValidLayout(index, layout) && AllBelow(ids, index.graph.count) && |permutation| == index.graph.count
    requires forall id: nat :: id < |permutation| ==> permutation[id] == SlotOf(layout, id)
    requires MissingSlots(layout, slots, ids, {}) && SlotsOf(positions, ids, permutation)
    ensures slots == positions
  {
    forall s: nat ensures s in slots <==> s in positions {
      assert s in positions <==> s in Elements(positions);
      if s in positions {
        var k :| 0 <= k < |ids| && permutation[ids[k]] == s;
        SlotExists(index, layout, ids[k]);
      }
      if s in slots {
        var j :| 0 <= j < |slots| && slots[j] == s;
        var k :| 0 <= k < |ids| && ids[k] == layout.slots[s];
        SlotOfSlot(index, layout, s);
      }
    }
    IncreasingUnique(slots, positions);
  }

  lemma NothingAsked(layout: Layout, slots: seq<nat>, ids: seq<nat>, cached: set<nat>)
    requires MissingSlots(layout, slots, ids, cached) && forall id: nat :: id !in ids
    ensures slots == [] && forall gap: nat :: Runs(slots, gap) == []
  {
    NoElements(slots);
  }

  /** A single uncached node is a single run. */
  lemma SingleMiss(index: Index, layout: Layout, slots: seq<nat>, id: nat, cached: set<nat>)
    requires ValidLayout(index, layout) && id < index.graph.count && id !in cached
    requires MissingSlots(layout, slots, [id], cached)
    ensures Runs(slots, 0) == [Run(SlotOf(layout, id), SlotOf(layout, id))]
  {
    var s := SlotOf(layout, id);
    SlotExists(index, layout, id);
    assert s in slots && (|slots| > 1 ==> slots[0] < slots[1]);
    forall k | 0 <= k < |slots| ensures slots[k] == s {
      assert slots[k] in slots && layout.slots[slots[k]] == id;
      SlotOfSlot(index, layout, slots[k]);
    }
    assert slots == [s];
    assert Front([s]) == [] && Last([s]) == s;
    assert Runs([], 0) == [];
  }

  /** One iteration of a coalescing loop over ascending slots. */
  lemma CoalesceStep(layout: Layout, slots: seq<nat>, i: nat, gap: nat, flushed: seq<Run>, open: Run)
    requires Increasing(slots) && (forall k :: 0 <= k < |slots| ==> slots[k] < |layout.slots|) && i < |slots|
    requires Runs(slots[..i], gap) == flushed + [open]
    ensures RunInside(layout, open)
    ensures
      Runs(slots[..i + 1], gap)
      == if slots[i] <= open.last + gap + 1 then flushed + [Run(open.first, slots[i])]
         else flushed + [open] + [Run(slots[i], slots[i])]
  {
    OpenRunInside(layout, slots, i, gap, flushed, open);
    RunsPrefix(slots, i, gap);
    AddToOpen(flushed, open, slots[i], gap);
  }

  lemma FirstRun(slots: seq<nat>, gap: nat)
    requires slots != []
    ensures Runs(slots[..1], gap) == [] + [Run(slots[0], slots[0])]
  {
    RunsPrefix(slots, 0, gap);
  }

  /** The run a coalescing loop closes after `i` slots lies inside the grid. */
  lemma OpenRunInside(layout: Layout, slots: seq<nat>, i: nat, gap: nat, flushed: seq<Run>, open: Run)
    requires Increasing(slots) && (forall k :: 0 <= k < |slots| ==> slots[k] < |layout.slots|) && i <= |slots|
    requires Runs(slots[..i], gap) == flushed + [open]
    ensures RunInside(layout, open)
  {
    RunsStayInside(layout, slots[..i], gap);
    assert (flushed + [open])[|flushed|] == open;
  }

  lemma RunsStayInside(layout: Layout, slots: seq<nat>, gap: nat)
    requires Increasing(slots) && forall k :: 0 <= k < |slots| ==> slots[k] < |layout.slots|
    ensures RunsInside(layout, Runs(slots, gap))
  {
    RunsCoalesced(slots, gap);
    var runs := Runs(slots, gap);
    forall i | 0 <= i < |runs| ensures RunInside(layout, runs[i]) { assert Tight(runs[i], slots, gap); }
  }

  /** Everything requested is cached once the runs are. */
  lemma RunsCoverRequest(index: Index, layout: Layout, slots: seq<nat>, ids: seq<nat>, cached: set<nat>, gap: nat)
    requires ValidLayout(index, layout) && AllBelow(ids, index.graph.count)
    requires MissingSlots(layout, slots, ids, cached)
    ensures forall id :: id in ids ==> id in cached + RunsIds(layout, Runs(slots, gap))
  {
    RunsCoalesced(slots, gap);
    var runs := Runs(slots, gap);
    forall id | id in ids && id !in cached ensures id in RunsIds(layout, runs) {
      var k :| 0 <= k < |ids| && ids[k] == id;
      SlotExists(index, layout, id);
      var s := SlotOf(layout, id);
      assert s in slots;
      InSomeRun(layout, runs, Holder(runs, slots, s), s);
    }
  }

  lemma GapZeroRunsHoldRequested(slots: seq<nat>, i: nat, s: nat)
    requires Increasing(slots) && i < |Runs(slots, 0)| && Contains(Runs(slots, 0)[i], s)
    ensures s in slots
  {
    RunsCoalesced(slots, 0);
    assert Tight(Runs(slots, 0)[i], slots, 0);
    assert WindowHit(slots, s, 0);
  }

  /** With gap zero exactly the missing nodes are read. */
  lemma NoOverfetchAtGapZero(index: Index, layout: Layout, slots: seq<nat>, ids: seq<nat>, cached: set<nat>)
    requires ValidLayout(index, layout) && AllBelow(ids, index.graph.count)
    requires MissingSlots(layout, slots, ids, cached)
    ensures RunsIds(layout, Runs(slots, 0)) == Elements(ids) - cached
  {
    RunsCoverRequest(index, layout, slots, ids, cached, 0);
    var read := RunsIds(layout, Runs(slots, 0));
    forall x | x in read ensures x in Elements(ids) - cached {
      var i, s := FromSomeRun(layout, Runs(slots, 0), x);
      GapZeroRunsHoldRequested(slots, i, s);
    }
    assert forall x :: x in Elements(ids) - cached ==> x in read;
  }

  // ---------- the reader's observable state ----------

  /** Which nodes and pages are cached, and the counters. The node values are fixed by `RangeArtifact.Valid`. */
  datatype Reading = Reading(
    cached: set<nat>, pages: set<nat>, requests: nat, bytes: int, decoded: nat, ranges: seq<(int, int)>)

  /** Caching `ids` without a request of its own. */
  ghost function Decoded(r: Reading, ids: set<nat>): Reading {
    r.(cached := r.cached + ids, decoded := r.decoded + |ids - r.cached|)
  }

  lemma RunLength(index: Index, layout: Layout, a: nat, b: nat)
    ensures SlotAddress(index, layout, b) - SlotAddress(index, layout, a) == (b - a) * RecordBytes(ShapeOf(index))
    ensures a <= b ==> SlotAddress(index, layout, a) <= SlotAddress(index, layout, b)
  {
    var rec := RecordBytes(ShapeOf(index));
    assert b * rec == a * rec + (b - a) * rec;
    if a <= b { MulAtMost(a, b, rec); }
  }

  lemma AfterOneRun(index: Index, layout: Layout, r: Reading, run: Run)
    ensures AfterRuns(index, layout, r, [run]) == AfterRequest(index, layout, r, run.first, run.last + 1)
  {
    AfterRunsAppend(index, layout, r, [], run);
    assert [] + [run] == [run];
  }

  /** Where n slots from slot a on end. */
  lemma RunEnd(index: Index, layout: Layout, a: nat, n: nat)
    ensures SlotAddress(index, layout, a + n) == SlotAddress(index, layout, a) + n * RecordBytes(ShapeOf(index))
  {
    RunLength(index, layout, a, a + n);
  }

  /** One range request: its bytes are counted and logged, its nodes cached. */
  ghost function AfterRequest(index: Index, layout: Layout, r: Reading, first: nat, end: nat): Reading {
    var a, b := SlotAddress(index, layout, first), SlotAddress(index, layout, end);
    Decoded(r.(requests := r.requests + 1, bytes := r.bytes + (b - a), ranges := r.ranges + [(a, b)]),
            SlotIds(layout, first, end))
  }

  lemma RequestMeans(index: Index, layout: Layout, r: Reading, first: nat, end: nat)
    ensures
      var a, b, ids := SlotAddress(index, layout, first), SlotAddress(index, layout, end), SlotIds(layout, first, end);
      AfterRequest(index, layout, r, first, end)
      == Reading(r.cached + ids, r.pages, r.requests + 1, r.bytes + (b - a), r.decoded + |ids - r.cached|, r.ranges + [(a, b)])
  {
    hide SlotAddress, SlotIds;
  }

  ghost function AfterRuns(index: Index, layout: Layout, r: Reading, runs: seq<Run>): Reading {
    if runs == [] then r
    else AfterRequest(index, layout, AfterRuns(index, layout, r, Front(runs)), Last(runs).first, Last(runs).last + 1)
  }

  lemma AfterRunsAppend(index: Index, layout: Layout, r: Reading, runs: seq<Run>, run: Run)
    ensures AfterRuns(index, layout, r, runs + [run])
         == AfterRequest(index, layout, AfterRuns(index, layout, r, runs), run.first, run.last + 1)
  {
    assert Front(runs + [run]) == runs && Last(runs + [run]) == run;
  }

  lemma AfterLastRun(index: Index, layout: Layout, r: Reading, runs: seq<Run>)
    requires runs != []
    ensures
      var mid, after, last := AfterRuns(index, layout, r, Front(runs)), AfterRuns(index, layout, r, runs), Last(runs);
      && after.cached == mid.cached + RunIds(layout, last) && after.pages == mid.pages
      && after.requests == mid.requests + 1 && |after.ranges| == |mid.ranges| + 1
      && after.bytes == mid.bytes + (SlotAddress(index, layout, last.last + 1) - SlotAddress(index, layout, last.first))
      && after.decoded == mid.decoded + |RunIds(layout, last) - mid.cached|
  {
  }

  /** Totals over any list of runs. */
  lemma {:induction false} AfterRunsTotals(index: Index, layout: Layout, r: Reading, runs: seq<Run>)
    ensures
      var after := AfterRuns(index, layout, r, runs);
      && after.cached == r.cached + RunsIds(layout, runs) && after.pages == r.pages
      && after.requests == r.requests + |runs|
      && after.bytes == r.bytes + Covered(runs) * RecordBytes(ShapeOf(index))
      && after.decoded == r.decoded + |RunsIds(layout, runs) - r.cached|
      && |after.ranges| == |r.ranges| + |runs|
  {
    if runs == [] {
      assert RunsIds(layout, runs) - r.cached == {};
    } else {
      AfterRunsTotals(index, layout, r, Front(runs));
      AfterLastRun(index, layout, r, runs);
      CombineTotals(index, layout, runs);
      AddedSplit(RunsIds(layout, Front(runs)), RunIds(layout, Last(runs)), r.cached);
      hide *;
    }
  }

  /** What some requests do to the counters: `log` lists the byte ranges asked for, in order. */
  ghost predicate Counted(before: Reading, after: Reading, records: nat, recordBytes: nat, log: seq<(int, int)>) {
    && after.requests == before.requests + |log| && after.ranges == before.ranges + log
    && after.bytes == before.bytes + records * recordBytes
    && before.cached <= after.cached && after.decoded == before.decoded + |after.cached - before.cached|
  }

  lemma NothingCounted(r: Reading, recordBytes: nat)
    ensures Counted(r, r, 0, recordBytes, [])
  {}

  lemma CountedFields(before: Reading, after: Reading, records: nat, recordBytes: nat, log: seq<(int, int)>)
    requires Counted(before, after, records, recordBytes, log)
    ensures after.requests == before.requests + |log| && after.ranges == before.ranges + log
    ensures after.bytes == before.bytes + records * recordBytes
    ensures after.decoded == before.decoded + |after.cached - before.cached|
  {}

  lemma CountedThen(
    a: Reading, b: Reading, c: Reading, m: nat, n: nat, recordBytes: nat, first: seq<(int, int)>, rest: seq<(int, int)>)
    requires Counted(a, b, m, recordBytes, first) && Counted(b, c, n, recordBytes, rest)
    ensures Counted(a, c, m + n, recordBytes, first + rest)
  {
    SumTimes(m, n, recordBytes);
    assert c.cached - a.cached == (c.cached - b.cached) + (b.cached - a.cached);
  }

  lemma OneCounted(index: Index, layout: Layout, r: Reading, first: nat, end: nat)
    requires first <= end
    ensures
      var rec, origin := RecordBytes(ShapeOf(index)), HeaderSize(layout) + 4 * |layout.locations|;
      Counted(r, AfterRequest(index, layout, r, first, end), end - first, rec, [(origin + first * rec, origin + end * rec)])
  {
    hide RecordBytes;
    RunLength(index, layout, first, end);
    assert r.cached + SlotIds(layout, first, end) - r.cached == SlotIds(layout, first, end) - r.cached;
  }

  /** The byte range of each run of records, from the origin of the record grid. */
  ghost function RunRanges(origin: nat, rec: nat, runs: seq<Run>): (r: seq<(int, int)>)
    ensures |r| == |runs|
    ensures forall k :: 0 <= k < |r| ==> r[k] == (origin + runs[k].first * rec, origin + (runs[k].last + 1) * rec)
  {
    seq(|runs|, k requires 0 <= k < |runs| => (origin + runs[k].first * rec, origin + (runs[k].last + 1) * rec))
  }

  ghost predicate Forward(runs: seq<Run>) {
    forall i :: 0 <= i < |runs| ==> runs[i].first <= runs[i].last
  }

  lemma AllForward(slots: seq<nat>, gap: nat)
    requires Increasing(slots)
    ensures Forward(Runs(slots, gap))
  {
    RunsCoalesced(slots, gap);
    hide Runs;
    forall i | 0 <= i < |Runs(slots, gap)| ensures Runs(slots, gap)[i].first <= Runs(slots, gap)[i].last {
      RunsForward(Runs(slots, gap), slots, gap, i);
    }
  }

  /** Each run is one request: counted once, logged as its byte range, decoded where it was not cached. */
  lemma {:induction false} AfterRunsCounted(index: Index, layout: Layout, r: Reading, runs: seq<Run>)
    requires Forward(runs)
    ensures Covered(runs) >= 0
    ensures
      var rec, origin := RecordBytes(ShapeOf(index)), HeaderSize(layout) + 4 * |layout.locations|;
      Counted(r, AfterRuns(index, layout, r, runs), Covered(runs), rec, RunRanges(origin, rec, runs))
  {
    hide RecordBytes, AfterRequest, Counted, SlotIds, Decoded;
    var rec, origin := RecordBytes(ShapeOf(index)), HeaderSize(layout) + 4 * |layout.locations|;
    if runs == [] {
      NothingCounted(r, rec);
    } else {
      var mid, last := AfterRuns(index, layout, r, Front(runs)), Last(runs);
      AfterRunsCounted(index, layout, r, Front(runs));
      OneCounted(index, layout, mid, last.first, last.last + 1);
      CountedThen(r, mid, AfterRuns(index, layout, r, runs), Covered(Front(runs)), last.last + 1 - last.first, rec,
        RunRanges(origin, rec, Front(runs)), [(origin + last.first * rec, origin + (last.last + 1) * rec)]);
      assert RunRanges(origin, rec, runs)
        == RunRanges(origin, rec, Front(runs)) + [(origin + last.first * rec, origin + (last.last + 1) * rec)];
    }
  }

  lemma CoveredLast(runs: seq<Run>, rec: nat)
    requires runs != []
    ensures Covered(runs) * rec == Covered(Front(runs)) * rec + (Last(runs).last + 1 - Last(runs).first) * rec
  {
    SumTimes(Covered(Front(runs)), Last(runs).last + 1 - Last(runs).first, rec);
  }

  lemma RunsIdsLast(layout: Layout, runs: seq<Run>)
    requires runs != []
    ensures RunsIds(layout, runs) == RunsIds(layout, Front(runs)) + RunIds(layout, Last(runs))
  {}

  lemma CombineTotals(index: Index, layout: Layout, runs: seq<Run>)
    requires runs != []
    ensures RunsIds(layout, runs) == RunsIds(layout, Front(runs)) + RunIds(layout, Last(runs))
    ensures
      Covered(runs) * RecordBytes(ShapeOf(index))
      == Covered(Front(runs)) * RecordBytes(ShapeOf(index))
         + (SlotAddress(index, layout, Last(runs).last + 1) - SlotAddress(index, layout, Last(runs).first))
  {
    hide *;
    RunsIdsLast(layout, runs);
    RunLength(index, layout, Last(runs).first, Last(runs).last + 1);
    CoveredLast(runs, RecordBytes(ShapeOf(index)));
  }

  lemma AddedSplit<T>(a: set<T>, b: set<T>, base: set<T>)
    ensures |a + b - base| == |a - base| + |b - (base + a)|
  {
    assert a + b - base == (a - base) + (b - (base + a));
  }

  lemma SumTimes(a: int, b: int, c: nat)
    ensures (a + b) * c == a * c + b * c
  {
  }

  // ---------- pages ----------

  function PageEnd(count: nat, recordsPerPage: nat, page: nat): nat {
    Min((page + 1) * recordsPerPage, count)
  }

  lemma PageEndsAt(count: nat, recordsPerPage: nat, page: nat)
    requires page * recordsPerPage < count
    ensures PageEnd(count, recordsPerPage, page)
      == page * recordsPerPage + Min(recordsPerPage, count - page * recordsPerPage)
  {
    assert (page + 1) * recordsPerPage == page * recordsPerPage + recordsPerPage;
  }

  /** One page request: slots page * recordsPerPage up to the next page or the end. */
  ghost function AfterPage(index: Index, layout: Layout, r: Reading, recordsPerPage: nat, page: nat): Reading {
    AfterRequest(index, layout, r.(pages := r.pages + {page}),
                 page * recordsPerPage, PageEnd(|layout.slots|, recordsPerPage, page))
  }

  ghost function AfterPages(index: Index, layout: Layout, r: Reading, recordsPerPage: nat, pages: seq<nat>): Reading {
    if pages == [] then r
    else AfterPage(index, layout, AfterPages(index, layout, r, recordsPerPage, Front(pages)), recordsPerPage, Last(pages))
  }

  lemma AfterPagesAppend(index: Index, layout: Layout, r: Reading, recordsPerPage: nat, pages: seq<nat>, page: nat)
    ensures AfterPages(index, layout, r, recordsPerPage, pages + [page])
         == AfterPage(index, layout, AfterPages(index, layout, r, recordsPerPage, pages), recordsPerPage, page)
  {
    assert Front(pages + [page]) == pages && Last(pages + [page]) == page;
  }

  /** The slots of the file that lie on some of the pages, `recordsPerPage` to a page and the last page as short as the file leaves it. */
  ghost function PageSlots(count: nat, recordsPerPage: nat, pages: seq<nat>): set<nat>
    requires recordsPerPage > 0
  {
    set s: nat | s in Below(count) && s / recordsPerPage in pages
  }

  /** The byte range of each page, cut at the end of the file. */
  ghost function PageRanges(origin: nat, rec: nat, count: nat, recordsPerPage: nat, pages: seq<nat>): (r: seq<(int, int)>)
    ensures |r| == |pages|
    ensures forall k :: 0 <= k < |r| ==>
      r[k] == (origin + pages[k] * recordsPerPage * rec, origin + Min((pages[k] + 1) * recordsPerPage, count) * rec)
  {
    seq(|pages|, k requires 0 <= k < |pages| =>
      (origin + pages[k] * recordsPerPage * rec, origin + Min((pages[k] + 1) * recordsPerPage, count) * rec))
  }

  lemma OnePageSlots(count: nat, recordsPerPage: nat, page: nat)
    requires recordsPerPage > 0 && page * recordsPerPage < count
    ensures page * recordsPerPage <= PageEnd(count, recordsPerPage, page)
    ensures |PageSlots(count, recordsPerPage, [page])| == PageEnd(count, recordsPerPage, page) - page * recordsPerPage
  {
    var a, b := page * recordsPerPage, PageEnd(count, recordsPerPage, page);
    PageEndsAt(count, recordsPerPage, page);
    forall s: nat | s < count ensures s / recordsPerPage == page <==> a <= s < b {
      PageBounds(s, recordsPerPage, page);
    }
    assert PageSlots(count, recordsPerPage, [page]) == Below(b) - Below(a);
    BelowSize(a);
    BelowSize(b);
    assert Below(a) <= Below(b);
  }

  lemma PageSlotsSplit(count: nat, recordsPerPage: nat, pages: seq<nat>)
    requires recordsPerPage > 0 && pages != [] && Distinct(pages)
    ensures |PageSlots(count, recordsPerPage, pages)|
      == |PageSlots(count, recordsPerPage, Front(pages))| + |PageSlots(count, recordsPerPage, [Last(pages)])|
    ensures Distinct(Front(pages))
  {
    var front, last := PageSlots(count, recordsPerPage, Front(pages)), PageSlots(count, recordsPerPage, [Last(pages)]);
    assert pages == Front(pages) + [Last(pages)];
    assert Last(pages) !in Front(pages);
    assert PageSlots(count, recordsPerPage, pages) == front + last;
    assert front !! last;
  }

  /** Each page is one request, counted and logged from its first record to its last, and each record on it counts once. */
  lemma {:induction false} AfterPagesTotals(index: Index, layout: Layout, r: Reading, recordsPerPage: nat, pages: seq<nat>)
    requires recordsPerPage > 0 && Distinct(pages)
    requires forall k :: 0 <= k < |pages| ==> pages[k] * recordsPerPage < |layout.slots|
    ensures
      var rec, origin, count := RecordBytes(ShapeOf(index)), HeaderSize(layout) + 4 * |layout.locations|, |layout.slots|;
      Counted(r, AfterPages(index, layout, r, recordsPerPage, pages), |PageSlots(count, recordsPerPage, pages)|, rec,
        PageRanges(origin, rec, count, recordsPerPage, pages))
  {
    var rec, origin, count := RecordBytes(ShapeOf(index)), HeaderSize(layout) + 4 * |layout.locations|, |layout.slots|;
    if pages == [] {
      hide RecordBytes, AfterRequest, Counted;
      NothingCounted(r, rec);
      NoPageSlots(count, recordsPerPage);
    } else {
      hide *;
      var mid, p := AfterPages(index, layout, r, recordsPerPage, Front(pages)), Last(pages);
      PageSlotsSplit(count, recordsPerPage, pages);
      OnePageSlots(count, recordsPerPage, p);
      AfterPagesTotals(index, layout, r, recordsPerPage, Front(pages));
      PageCounted(index, layout, mid, recordsPerPage, p);
      CountedThen(r, mid, AfterPages(index, layout, r, recordsPerPage, pages), |PageSlots(count, recordsPerPage, Front(pages))|,
        |PageSlots(count, recordsPerPage, [p])|, rec, PageRanges(origin, rec, count, recordsPerPage, Front(pages)),
        PageRanges(origin, rec, count, recordsPerPage, [p]));
      AfterLastPage(index, layout, r, recordsPerPage, pages);
      PageRangesSplit(origin, rec, count, recordsPerPage, pages);
    }
  }

  lemma AfterLastPage(index: Index, layout: Layout, r: Reading, recordsPerPage: nat, pages: seq<nat>)
    requires pages != []
    ensures AfterPages(index, layout, r, recordsPerPage, pages)
         == AfterPage(index, layout, AfterPages(index, layout, r, recordsPerPage, Front(pages)), recordsPerPage, Last(pages))
    ensures forall k :: 0 <= k < |Front(pages)| ==> Front(pages)[k] == pages[k]
    ensures Last(pages) == pages[|pages| - 1] && |Front(pages)| == |pages| - 1
  {}

  lemma PageRangesSplit(origin: nat, rec: nat, count: nat, recordsPerPage: nat, pages: seq<nat>)
    requires pages != []
    ensures PageRanges(origin, rec, count, recordsPerPage, pages)
         == PageRanges(origin, rec, count, recordsPerPage, Front(pages)) + PageRanges(origin, rec, count, recordsPerPage, [Last(pages)])
  {
    hide Min;
  }

  lemma NoPageSlots(count: nat, recordsPerPage: nat)
    requires recordsPerPage > 0
    ensures PageSlots(count, recordsPerPage, []) == {}
  {}

  lemma PageCounted(index: Index, layout: Layout, r: Reading, recordsPerPage: nat, page: nat)
    requires recordsPerPage > 0 && page * recordsPerPage < |layout.slots|
    ensures
      var rec, origin, count := RecordBytes(ShapeOf(index)), HeaderSize(layout) + 4 * |layout.locations|, |layout.slots|;
      Counted(r, AfterPage(index, layout, r, recordsPerPage, page), |PageSlots(count, recordsPerPage, [page])|, rec,
        PageRanges(origin, rec, count, recordsPerPage, [page]))
  {
    var rec, origin, count := RecordBytes(ShapeOf(index)), HeaderSize(layout) + 4 * |layout.locations|, |layout.slots|;
    OnePageSlots(count, recordsPerPage, page);
    var a, b := page * recordsPerPage, PageEnd(count, recordsPerPage, page);
    OneCounted(index, layout, r.(pages := r.pages + {page}), a, b);
    assert PageRanges(origin, rec, count, recordsPerPage, [page]) == [(origin + a * rec, origin + b * rec)];
    hide RecordBytes, AfterRequest, SlotIds, PageSlots, PageEnd;
  }

  ghost function PageIds(layout: Layout, recordsPerPage: nat, page: nat): set<nat> {
    SlotIds(layout, page * recordsPerPage, PageEnd(|layout.slots|, recordsPerPage, page))
  }

  /** Every page marked as fetched really has all its nodes cached, at this page size. */
  ghost predicate PagesLoaded(layout: Layout, r: Reading, recordsPerPage: nat) {
    forall p :: p in r.pages ==> PageIds(layout, recordsPerPage, p) <= r.cached
  }

  lemma {:induction false} AfterPagesLoaded(index: Index, layout: Layout, r: Reading, recordsPerPage: nat, pages: seq<nat>)
    ensures
      var after := AfterPages(index, layout, r, recordsPerPage, pages);
      && after.pages == r.pages + Elements(pages) && r.cached <= after.cached
      && (PagesLoaded(layout, r, recordsPerPage) ==> PagesLoaded(layout, after, recordsPerPage))
  {
    if pages == [] {
      assert r.pages + Elements(pages) == r.pages;
    } else {
      AfterPagesLoaded(index, layout, r, recordsPerPage, Front(pages));
      AfterPageLoaded(index, layout, AfterPages(index, layout, r, recordsPerPage, Front(pages)), recordsPerPage, Last(pages));
      ElementsSplit(pages);
      hide PagesLoaded, AfterPage, Elements;
    }
  }

  lemma ElementsSplit(pages: seq<nat>)
    requires pages != []
    ensures Elements(pages) == Elements(Front(pages)) + {Last(pages)}
  {
    assert pages == Front(pages) + [Last(pages)];
  }

  lemma AfterPageLoaded(index: Index, layout: Layout, r: Reading, recordsPerPage: nat, page: nat)
    ensures
      var after := AfterPage(index, layout, r, recordsPerPage, page);
      && after.pages == r.pages + {page} && r.cached <= after.cached
      && (PagesLoaded(layout, r, recordsPerPage) ==> PagesLoaded(layout, after, recordsPerPage))
  {
    assert AfterPage(index, layout, r, recordsPerPage, page).cached == r.cached + PageIds(layout, recordsPerPage, page);
  }

  /** Slot s lies on page s / recordsPerPage and on no other. */
  lemma PageBounds(s: nat, recordsPerPage: nat, p: nat)
    requires recordsPerPage > 0
    ensures p == s / recordsPerPage <==> p * recordsPerPage <= s < (p + 1) * recordsPerPage
  {
    var q := s / recordsPerPage;
    assert q * recordsPerPage <= s < q * recordsPerPage + recordsPerPage;
    assert (p + 1) * recordsPerPage == p * recordsPerPage + recordsPerPage;
    assert (q + 1) * recordsPerPage == q * recordsPerPage + recordsPerPage;
    if p < q { MulAtMost(p + 1, q, recordsPerPage); }
    if q < p { MulAtMost(q + 1, p, recordsPerPage); }
  }

  lemma SlotOnPage(layout: Layout, recordsPerPage: nat, s: nat, p: nat)
    requires recordsPerPage > 0 && s < |layout.slots| && Distinct(layout.slots)
    ensures layout.slots[s] in PageIds(layout, recordsPerPage, p) <==> p == s / recordsPerPage
  {
    PageBounds(s, recordsPerPage, p);
  }

  /** What a list of page reads adds to the cache: the nodes of those pages, and nothing else. */
  lemma {:induction false} AfterPagesCached(
    index: Index, layout: Layout, r: Reading, recordsPerPage: nat, pages: seq<nat>, x: nat)
    ensures x in AfterPages(index, layout, r, recordsPerPage, pages).cached
      <==> x in r.cached || exists p :: p in pages && x in PageIds(layout, recordsPerPage, p)
  {
    if pages == [] {
    } else {
      var mid := AfterPages(index, layout, r, recordsPerPage, Front(pages));
      AfterPagesCached(index, layout, r, recordsPerPage, Front(pages), x);
      assert AfterPages(index, layout, r, recordsPerPage, pages).cached
        == mid.cached + PageIds(layout, recordsPerPage, Last(pages));
      hide PageIds, AfterPages;
      assert pages == Front(pages) + [Last(pages)];
    }
  }

  // ---------- custom pages ----------

  /** One custom page: its records are counted, an empty marker range is logged, its nodes cached. */
  ghost function AfterCustomPage(r: Reading, pageId: nat, page: seq<nat>, recordBytes: nat): Reading {
    Decoded(r.(requests := r.requests + 1, bytes := r.bytes + |page| * recordBytes,
               ranges := r.ranges + [(-(pageId + 1), -(pageId + 1))]), Elements(page))
  }

  ghost function AfterCustomPages(r: Reading, pageIds: seq<nat>, pages: seq<seq<nat>>, recordBytes: nat): Reading
    requires forall k :: 0 <= k < |pageIds| ==> pageIds[k] < |pages|
  {
    if pageIds == [] then r
    else AfterCustomPage(AfterCustomPages(r, Front(pageIds), pages, recordBytes), Last(pageIds), pages[Last(pageIds)], recordBytes)
  }

  lemma AfterCustomPagesAppend(r: Reading, pageIds: seq<nat>, pageId: nat, pages: seq<seq<nat>>, recordBytes: nat)
    requires (forall k :: 0 <= k < |pageIds| ==> pageIds[k] < |pages|) && pageId < |pages|
    ensures AfterCustomPages(r, pageIds + [pageId], pages, recordBytes)
         == AfterCustomPage(AfterCustomPages(r, pageIds, pages, recordBytes), pageId, pages[pageId], recordBytes)
  {
    assert Front(pageIds + [pageId]) == pageIds && Last(pageIds + [pageId]) == pageId;
  }

  /** The nodes on the listed pages. */
  ghost function ListedNodes(pageIds: seq<nat>, pages: seq<seq<nat>>): set<nat>
    requires forall k :: 0 <= k < |pageIds| ==> pageIds[k] < |pages|
  {
    set k, i | 0 <= k < |pageIds| && 0 <= i < |pages[pageIds[k]]| :: pages[pageIds[k]][i]
  }

  /** No node is on two pages, or twice on one. */
  ghost predicate PagesDisjoint(pages: seq<seq<nat>>) {
    && (forall p :: 0 <= p < |pages| ==> Distinct(pages[p]))
    && forall p, q, id :: 0 <= p < |pages| && 0 <= q < |pages| && id in pages[p] && id in pages[q] ==> p == q
  }

  function Marker(pageId: nat): (int, int) {
    var m: int := -(pageId + 1);
    (m, m)
  }

  /** The empty marker range logged for each custom page. */
  ghost function Markers(pageIds: seq<nat>): (r: seq<(int, int)>)
    ensures |r| == |pageIds| && forall k :: 0 <= k < |r| ==> r[k].0 == r[k].1 && r[k].0 + pageIds[k] + 1 == 0
  {
    seq(|pageIds|, k requires 0 <= k < |pageIds| => Marker(pageIds[k]))
  }

  lemma ListedNodesSplit(pageIds: seq<nat>, pages: seq<seq<nat>>)
    requires pageIds != [] && Distinct(pageIds) && PagesDisjoint(pages)
    requires forall k :: 0 <= k < |pageIds| ==> pageIds[k] < |pages|
    ensures |ListedNodes(pageIds, pages)| == |ListedNodes(Front(pageIds), pages)| + |pages[Last(pageIds)]|
    ensures Distinct(Front(pageIds))
  {
    var last := pages[Last(pageIds)];
    assert pageIds == Front(pageIds) + [Last(pageIds)];
    DistinctSize(last);
    var front := ListedNodes(Front(pageIds), pages);
    assert ListedNodes(pageIds, pages) == front + Elements(last) by {
      forall i | 0 <= i < |last| ensures last[i] in ListedNodes(pageIds, pages) { assert pageIds[|pageIds| - 1] == Last(pageIds); }
    }
    assert front !! Elements(last);
  }

  lemma CustomCounted(r: Reading, pageId: nat, page: seq<nat>, recordBytes: nat)
    ensures Counted(r, AfterCustomPage(r, pageId, page, recordBytes), |page|, recordBytes, [Marker(pageId)])
  {
    assert r.cached + Elements(page) - r.cached == Elements(page) - r.cached;
  }

  /** Each custom page is one request with its records counted, and is logged as the empty range below zero of its number. */
  lemma {:induction false} AfterCustomPagesTotals(r: Reading, pageIds: seq<nat>, pages: seq<seq<nat>>, recordBytes: nat)
    requires Distinct(pageIds) && PagesDisjoint(pages) && forall k :: 0 <= k < |pageIds| ==> pageIds[k] < |pages|
    ensures Counted(r, AfterCustomPages(r, pageIds, pages, recordBytes), |ListedNodes(pageIds, pages)|, recordBytes, Markers(pageIds))
  {
    hide Counted, AfterCustomPage, Distinct, PagesDisjoint;
    if pageIds == [] {
      NothingCounted(r, recordBytes);
      assert ListedNodes(pageIds, pages) == {};
    } else {
      hide ListedNodes;
      var mid, p := AfterCustomPages(r, Front(pageIds), pages, recordBytes), Last(pageIds);
      ListedNodesSplit(pageIds, pages);
      AfterCustomPagesTotals(r, Front(pageIds), pages, recordBytes);
      CustomCounted(mid, p, pages[p], recordBytes);
      CountedThen(r, mid, AfterCustomPages(r, pageIds, pages, recordBytes), |ListedNodes(Front(pageIds), pages)|, |pages[p]|,
        recordBytes, Markers(Front(pageIds)), [Marker(p)]);
      assert Markers(pageIds) == Markers(Front(pageIds)) + [Marker(p)];
    }
  }

  lemma {:induction false} CustomPagesCached(r: Reading, pageIds: seq<nat>, pages: seq<seq<nat>>, recordBytes: nat)
    requires forall k :: 0 <= k < |pageIds| ==> pageIds[k] < |pages|
    ensures
      var after := AfterCustomPages(r, pageIds, pages, recordBytes);
      && r.cached <= after.cached && after.pages == r.pages
      && forall id :: id in after.cached <==> id in r.cached || OnListedPage(pageIds, pages, id)
  {
    if pageIds == [] {
    } else {
      CustomPagesCached(r, Front(pageIds), pages, recordBytes);
      var mid, last := AfterCustomPages(r, Front(pageIds), pages, recordBytes), pages[Last(pageIds)];
      assert AfterCustomPages(r, pageIds, pages, recordBytes).cached == mid.cached + Elements(last);
      hide AfterCustomPages;
      forall id ensures OnListedPage(pageIds, pages, id) <==> OnListedPage(Front(pageIds), pages, id) || id in last {
        ListedSplit(pageIds, pages, id);
      }
    }
  }

  ghost predicate OnListedPage(pageIds: seq<nat>, pages: seq<seq<nat>>, id: nat) {
    exists p :: p in pageIds && p < |pages| && id in pages[p]
  }

  lemma ListedSplit(pageIds: seq<nat>, pages: seq<seq<nat>>, id: nat)
    requires pageIds != [] && Last(pageIds) < |pages|
    ensures OnListedPage(pageIds, pages, id) <==> OnListedPage(Front(pageIds), pages, id) || id in pages[Last(pageIds)]
  {
    assert pageIds == Front(pageIds) + [Last(pageIds)];
    assert Last(pageIds) in pageIds;
  }

  // ---------- sorted values are slots ----------

  function Scaled(s: seq<nat>, origin: nat, scale: nat): (r: seq<nat>)
    ensures |r| == |s|
  {
    seq(|s|, k requires 0 <= k < |s| => origin + s[k] * scale)
  }

  lemma ScaledOrder(a: nat, b: nat, origin: nat, scale: nat)
    requires scale > 0
    ensures origin + a * scale <= origin + b * scale <==> a <= b
  {
    if a <= b { MulAtMost(a, b, scale); } else { MulAtMost(b + 1, a, scale); Distribute(0, 0, b, 0, scale); }
  }

  lemma ScaledCons(x: nat, s: seq<nat>, origin: nat, scale: nat)
    ensures Scaled([x] + s, origin, scale) == [origin + x * scale] + Scaled(s, origin, scale)
  {
  }

  lemma {:induction false} InsertScaled(r: nat, raw: seq<nat>, origin: nat, scale: nat)
    requires scale > 0
    ensures
      Insert<nat>(origin + r * scale, Scaled(raw, origin, scale), AtMost)
      == Scaled(Insert<nat>(r, raw, AtMost), origin, scale)
    decreases |raw|
  {
    ScaledCons(r, raw, origin, scale);
    if raw == [] {
      assert [r] + raw == [r] && Scaled(raw, origin, scale) == [];
    } else {
      ScaledOrder(r, raw[0], origin, scale);
      if r > raw[0] {
        InsertPast(r, raw, origin, scale);
      }
    }
  }

  lemma {:induction false} InsertPast(r: nat, raw: seq<nat>, origin: nat, scale: nat)
    requires scale > 0 && raw != [] && r > raw[0] && origin + r * scale > origin + raw[0] * scale
    ensures
      Insert<nat>(origin + r * scale, Scaled(raw, origin, scale), AtMost)
      == Scaled(Insert<nat>(r, raw, AtMost), origin, scale)
    decreases |raw|, 0
  {
    var head, rest := raw[0], raw[1..];
    var values := Scaled(raw, origin, scale);
    assert raw == [head] + rest;
    ScaledCons(head, rest, origin, scale);
    assert values[1..] == Scaled(rest, origin, scale);
    InsertScaled(r, rest, origin, scale);
    ScaledCons(head, Insert<nat>(r, rest, AtMost), origin, scale);
  }

  function SortedUp(s: seq<nat>): (r: seq<nat>)
    ensures |r| == |s|
  {
    StableSort(s, AtMost)
  }

  lemma SortedUpCons(x: nat, s: seq<nat>)
    ensures SortedUp([x] + s) == Insert<nat>(x, SortedUp(s), AtMost)
  {
    assert ([x] + s)[1..] == s;
  }

  /** Sorting commutes with the order-preserving map from slots to addresses. */
  lemma {:induction false} SortScaled(raw: seq<nat>, origin: nat, scale: nat)
    requires scale > 0
    ensures SortedUp(Scaled(raw, origin, scale)) == Scaled(SortedUp(raw), origin, scale)
    decreases |raw|
  {
    if raw == [] {
      assert Scaled(raw, origin, scale) == [] && Scaled(SortedUp(raw), origin, scale) == [];
    } else {
      SortScaled(raw[1..], origin, scale);
      SortScaledStep(raw[0], raw[1..], origin, scale);
      assert raw == [raw[0]] + raw[1..];
    }
  }

  lemma SortScaledStep(head: nat, rest: seq<nat>, origin: nat, scale: nat)
    requires scale > 0 && SortedUp(Scaled(rest, origin, scale)) == Scaled(SortedUp(rest), origin, scale)
    ensures SortedUp(Scaled([head] + rest, origin, scale)) == Scaled(SortedUp([head] + rest), origin, scale)
  {
    hide SortedUp;
    hide Insert;
    hide Scaled;
    ScaledCons(head, rest, origin, scale);
    SortedUpCons(head, rest);
    SortedUpCons(origin + head * scale, Scaled(rest, origin, scale));
    InsertScaled(head, SortedUp(rest), origin, scale);
  }

  ghost function RawSlots(layout: Layout, found: seq<nat>): (r: seq<nat>)
    ensures |r| == |found|
    ensures forall k :: 0 <= k < |r| ==> r[k] == SlotOf(layout, found[k])
  {
    seq(|found|, k requires 0 <= k < |found| => SlotOf(layout, found[k]))
  }

  lemma RawSlotsListed(index: Index, layout: Layout, found: seq<nat>)
    requires ValidLayout(index, layout) && AllBelow(found, index.graph.count) && Distinct(found)
    ensures Distinct(RawSlots(layout, found))
    ensures forall k :: 0 <= k < |found| ==> RawSlots(layout, found)[k] < |layout.slots|
    ensures forall s: nat :: s < |layout.slots| ==> (s in RawSlots(layout, found) <==> layout.slots[s] in found)
  {
    var raw := RawSlots(layout, found);
    forall k | 0 <= k < |raw| ensures raw[k] < |layout.slots| && layout.slots[raw[k]] == found[k] {
      SlotExists(index, layout, found[k]);
    }
    forall s: nat | s < |layout.slots| && layout.slots[s] in found ensures s in raw {
      var k :| 0 <= k < |found| && found[k] == layout.slots[s];
      SlotOfSlot(index, layout, s);
      assert raw[k] == s;
    }
  }

  /** The values a prefetch sorts (ordinals or byte addresses) stand for the missing slots in ascending order. */
  lemma SortedValuesAreSlots(
    index: Index, layout: Layout, ids: seq<nat>, cached: set<nat>, found: seq<nat>, values: seq<nat>, origin: nat, scale: nat)
    returns (slots: seq<nat>)
    requires ValidLayout(index, layout) && scale > 0
    requires Distinct(found) && Elements(found) == Elements(ids) - cached && AllBelow(found, index.graph.count)
    requires values == Scaled(RawSlots(layout, found), origin, scale)
    ensures |slots| == |found| && MissingSlots(layout, slots, ids, cached)
    ensures SortedUp(values) == Scaled(slots, origin, scale)
  {
    var raw := RawSlots(layout, found);
    RawSlotsListed(index, layout, found);
    SortScaled(raw, origin, scale);
    slots := SortedUp(raw);
    SortIncreasing(raw);
    forall s: nat | s < |layout.slots| ensures s in slots <==> layout.slots[s] in ids && layout.slots[s] !in cached {
      assert s in Elements(slots) <==> s in Elements(raw);
      assert layout.slots[s] in found <==> layout.slots[s] in Elements(found);
    }
    forall k | 0 <= k < |slots| ensures slots[k] < |layout.slots| { assert slots[k] in Elements(raw); }
  }
}
