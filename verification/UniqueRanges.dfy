/** Distinct byte positions behind a list of read ranges. */
module UniqueRanges {
  import opened Sorting
  import opened Finite

  /** Half-open: an unbilled custom page is logged as the empty range from -(page + 1) to itself. */
  datatype Range = Range(start: int, end: int)

  predicate Forward(ranges: seq<Range>) {
    forall i :: 0 <= i < |ranges| ==> ranges[i].start <= ranges[i].end
  }

  function Span(start: int, end: int): (r: set<int>)
    ensures forall x :: x in r <==> start <= x < end
    decreases end - start
  {
    if start >= end then {} else Span(start, end - 1) + {end - 1}
  }

  lemma {:induction false} SpanSize(start: int, end: int)
    requires start <= end
    ensures |Span(start, end)| == end - start
    decreases end - start
  {
    if start < end {
      SpanSize(start, end - 1);
    }
  }

  function Covered(ranges: seq<Range>): (r: set<int>) {
    if ranges == [] then {} else Covered(ranges[..|ranges| - 1]) + Span(ranges[|ranges| - 1].start, ranges[|ranges| - 1].end)
  }

  /** What the set is: the positions some range contains. */
  lemma {:induction false} CoveredMeans(ranges: seq<Range>, x: int)
    ensures x in Covered(ranges) <==> exists r :: r in ranges && r.start <= x < r.end
  {
    if ranges == [] {
    } else {
      var front, last := ranges[..|ranges| - 1], ranges[|ranges| - 1];
      CoveredMeans(front, x);
      assert ranges == front + [last];
      if x in Covered(front) {
        var r :| r in front && r.start <= x < r.end;
        assert r in ranges;
      }
    }
  }

  lemma CoveredStep(ranges: seq<Range>, i: nat)
    requires i < |ranges|
    ensures Covered(ranges[..i + 1]) == Covered(ranges[..i]) + Span(ranges[i].start, ranges[i].end)
  {
    assert ranges[..i + 1][..i] == ranges[..i];
  }

  lemma CoveredPermuted(a: seq<Range>, b: seq<Range>)
    requires multiset(a) == multiset(b)
    ensures Covered(a) == Covered(b)
  {
    SameElements(a, b);
    forall x ensures x in Covered(a) <==> x in Covered(b) {
      CoveredMeans(a, x);
      CoveredMeans(b, x);
    }
  }

  predicate Before(x: Range, y: Range) {
    x.start < y.start || (x.start == y.start && x.end <= y.end)
  }

  /** A range that ends before it starts is absorbed when an earlier one reaches past its start. */
  ghost predicate Absorbed(all: seq<Range>, r: Range) {
    exists q :: q in all && q.start < r.start <= q.end
  }

  /** What an inverted range takes off the figure: its length, unless it is absorbed. */
  ghost function Cost(all: seq<Range>, r: Range): (c: int)
    ensures c >= 0
  {
    if r.end < r.start && !Absorbed(all, r) then r.start - r.end else 0
  }

  ghost function Lost(ranges: seq<Range>, all: seq<Range>): (c: int)
    ensures c >= 0
  {
    if ranges == [] then 0 else Cost(all, ranges[0]) + Lost(ranges[1..], all)
  }

  lemma {:induction false} LostStep(ranges: seq<Range>, i: nat, all: seq<Range>)
    requires i < |ranges|
    ensures Lost(ranges[..i + 1], all) == Lost(ranges[..i], all) + Cost(all, ranges[i])
  {
    hide Cost;
    if i == 0 {
      assert ranges[..1][1..] == [] && ranges[..0] == [];
    } else {
      LostStep(ranges[1..], i - 1, all);
      assert ranges[..i + 1][1..] == ranges[1..][..i] && ranges[..i][1..] == ranges[1..][..i - 1];
    }
  }

  lemma {:induction false} LostInsert(x: Range, s: seq<Range>, all: seq<Range>)
    ensures Lost(Insert(x, s, Before), all) == Cost(all, x) + Lost(s, all)
  {
    hide Cost;
    if s == [] {
      assert [x][1..] == [];
    } else if Before(x, s[0]) {
      assert ([x] + s)[1..] == s;
    } else {
      LostInsert(x, s[1..], all);
      assert ([s[0]] + Insert(x, s[1..], Before))[1..] == Insert(x, s[1..], Before);
    }
  }

  lemma {:induction false} LostSorted(s: seq<Range>, all: seq<Range>)
    ensures Lost(StableSort(s, Before), all) == Lost(s, all)
  {
    if s == [] {
    } else {
      LostSorted(s[1..], all);
      LostInsert(s[0], StableSort(s[1..], Before), all);
    }
  }

  lemma {:induction false} LostSameElements(s: seq<Range>, a: seq<Range>, b: seq<Range>)
    requires forall x :: x in a <==> x in b
    ensures Lost(s, a) == Lost(s, b)
  {
    if s == [] {
    } else {
      LostSameElements(s[1..], a, b);
      assert Absorbed(a, s[0]) <==> Absorbed(b, s[0]);
    }
  }

  /** Nothing is lost exactly when every inverted range is absorbed. */
  lemma {:induction false} NothingLost(s: seq<Range>, all: seq<Range>)
    ensures Lost(s, all) == 0 <==> forall r :: r in s && r.end < r.start ==> Absorbed(all, r)
  {
    if s == [] {
    } else {
      NothingLost(s[1..], all);
      assert s == [s[0]] + s[1..];
      assert Cost(all, s[0]) == 0 <==> (s[0].end < s[0].start ==> Absorbed(all, s[0]));
      hide Cost, Absorbed;
      assert s[0] in s && forall r :: r in s <==> r == s[0] || r in s[1..];
    }
  }

  ghost predicate InOrder(sorted: seq<Range>) {
    forall i, j :: 0 <= i < j < |sorted| ==> Before(sorted[i], sorted[j])
  }

  /** The open stretch ends where the ranges before i reach, and the figure so far is exact but for what is lost. */
  ghost predicate Sweep(sorted: seq<Range>, i: nat, total: int, start: int, end: int) {
    && 1 <= i <= |sorted| && start <= sorted[i - 1].start
    && Span(start, end) <= Covered(sorted[..i])
    && (exists j :: 0 <= j < i && sorted[j].end == end)
    && (forall j :: 0 <= j < i ==> sorted[j].end <= end || sorted[j].end < start)
    && total + (end - start) == |Covered(sorted[..i])| - Lost(sorted[..i], sorted)
  }

  lemma SweepStarts(sorted: seq<Range>)
    requires InOrder(sorted) && sorted != []
    ensures Sweep(sorted, 1, 0, sorted[0].start, sorted[0].end)
  {
    var s, e := sorted[0].start, sorted[0].end;
    CoveredStep(sorted, 0);
    assert Covered(sorted[..0]) == {};
    assert Covered(sorted[..1]) == Span(s, e);
    LostStep(sorted, 0, sorted);
    if e < s {
      assert !Absorbed(sorted, sorted[0]) by {
        forall q | q in sorted ensures q.start >= s {
          var k :| 0 <= k < |sorted| && sorted[k] == q;
          assert k > 0 ==> Before(sorted[0], sorted[k]);
        }
      }
    } else {
      SpanSize(s, e);
    }
  }

  /** Positions covered before i lie before the end of the open stretch, or before its start when it is inverted. */
  lemma SeenBelow(sorted: seq<Range>, i: nat, total: int, start: int, end: int, x: int)
    requires Sweep(sorted, i, total, start, end) && x in Covered(sorted[..i])
    ensures x < end || x < start
  {
    CoveredMeans(sorted[..i], x);
    var r :| r in sorted[..i] && r.start <= x < r.end;
    var j :| 0 <= j < i && sorted[..i][j] == r;
    assert sorted[j].end <= end || sorted[j].end < start;
  }

  lemma AbsorbedByStretch(sorted: seq<Range>, i: nat, total: int, start: int, end: int)
    requires InOrder(sorted) && Sweep(sorted, i, total, start, end) && i < |sorted|
    requires sorted[i].end < sorted[i].start
    ensures Absorbed(sorted, sorted[i]) <==> sorted[i].start <= end
  {
    var s := sorted[i].start;
    assert Before(sorted[i - 1], sorted[i]);
    if Absorbed(sorted, sorted[i]) {
      var q :| q in sorted && q.start < s <= q.end;
      var j :| 0 <= j < |sorted| && sorted[j] == q;
      assert j < i;
      var reach := sorted[j].end;
      assert reach <= end || reach < start;
    }
    if s <= end {
      var j :| 0 <= j < i && sorted[j].end == end;
      assert Before(sorted[j], sorted[i]) && sorted[j] in sorted;
    }
  }

  lemma SweepCovers(sorted: seq<Range>, i: nat, total: int, start: int, end: int)
    requires InOrder(sorted) && Sweep(sorted, i, total, start, end) && i < |sorted|
    ensures
      var s, e, seen, next := sorted[i].start, sorted[i].end, Covered(sorted[..i]), Covered(sorted[..i + 1]);
      && (s <= end ==> |next| == |seen| + if e > end then e - end else 0)
      && (s > end ==> |next| == |seen| + if e > s then e - s else 0)
      && (s <= end ==> Span(start, if e > end then e else end) <= next)
      && (s > end ==> Span(s, e) <= next)
  {
    var seen := Covered(sorted[..i]);
    assert Before(sorted[i - 1], sorted[i]);
    CoveredStep(sorted, i);
    forall x | x in seen ensures x < end || x < start { SeenBelow(sorted, i, total, start, end, x); }
    hide Covered, Span, InOrder;
    SpanAdds(seen, start, end, sorted[i].start, sorted[i].end);
  }

  /** What a range that starts no earlier adds to positions that end with the open stretch. */
  lemma SpanAdds(seen: set<int>, start: int, end: int, s: int, e: int)
    requires Span(start, end) <= seen && start <= s && forall x :: x in seen ==> x < end || x < start
    ensures
      var next := seen + Span(s, e);
      && (s <= end ==> |next| == |seen| + if e > end then e - end else 0)
      && (s > end ==> |next| == |seen| + if e > s then e - s else 0)
      && (s <= end ==> Span(start, if e > end then e else end) <= next)
      && (s > end ==> Span(s, e) <= next)
  {
    hide *;
    var first := if s <= end then end else s;
    SpanBeyond(seen, start, end, s, e, first);
    if e > first { SpanSize(first, e); }
  }

  lemma SpanBeyond(seen: set<int>, start: int, end: int, s: int, e: int, first: int)
    requires Span(start, end) <= seen && start <= s && forall x :: x in seen ==> x < end || x < start
    requires first == if s <= end then end else s
    ensures e > first ==> |seen + Span(s, e)| == |seen| + |Span(first, e)|
    ensures e <= first ==> seen + Span(s, e) == seen
    ensures s <= end ==> Span(start, if e > end then e else end) <= seen + Span(s, e)
    ensures Span(s, e) <= seen + Span(s, e)
  {
    if e > first {
      assert seen !! Span(first, e);
      assert seen + Span(s, e) == seen + Span(first, e);
    }
  }

  lemma SweepNext(sorted: seq<Range>, i: nat, total: int, start: int, end: int)
    requires InOrder(sorted) && Sweep(sorted, i, total, start, end) && i < |sorted|
    ensures
      var s, e := sorted[i].start, sorted[i].end;
      if s <= end then Sweep(sorted, i + 1, total, start, if e > end then e else end)
      else Sweep(sorted, i + 1, total + (end - start), s, e)
  {
    var s, e := sorted[i].start, sorted[i].end;
    assert Before(sorted[i - 1], sorted[i]);
    SweepCovers(sorted, i, total, start, end);
    LostStep(sorted, i, sorted);
    if e < s { AbsorbedByStretch(sorted, i, total, start, end); }
    hide Absorbed, Lost, Covered, Span;
    assert sorted[i].end == e;
  }

  lemma SortedRanges(ranges: seq<Range>)
    ensures
      var sorted := StableSort(ranges, Before);
      && |sorted| == |ranges| && InOrder(sorted) && Covered(sorted) == Covered(ranges)
      && Lost(sorted, sorted) == Lost(ranges, ranges)
  {
    var sorted := StableSort(ranges, Before);
    StableSortSorted(ranges, Before);
    CoveredPermuted(sorted, ranges);
    SameElements(sorted, ranges);
    LostSameElements(sorted, sorted, ranges);
    LostSorted(ranges, ranges);
    forall i, j | 0 <= i < j < |sorted| ensures Before(sorted[i], sorted[j]) {}
  }

  lemma NoRanges()
    ensures |Covered([])| == Lost([], []) == 0
  {}

  lemma ForwardLosesNothing(ranges: seq<Range>)
    requires Forward(ranges)
    ensures Lost(ranges, ranges) == 0
  {
    NothingLost(ranges, ranges);
    forall r | r in ranges ensures r.start <= r.end {
      var i :| 0 <= i < |ranges| && ranges[i] == r;
    }
  }

  /**
   The sweep over the sorted ranges counts each covered position once, whatever the order, overlaps and empty ranges.
   A range that ends before it starts takes its length off unless an earlier one reaches past its start.
   */
  method UniqueRangeBytes(ranges: seq<Range>) returns (total: int)
    ensures total == |Covered(ranges)| - Lost(ranges, ranges)
    ensures Forward(ranges) ==> total == |Covered(ranges)|
    ensures total == |Covered(ranges)| <==> forall r :: r in ranges && r.end < r.start ==> Absorbed(ranges, r)
  {
    hide *;
    SortedRanges(ranges);
    NothingLost(ranges, ranges);
    if Forward(ranges) { ForwardLosesNothing(ranges); }
    NoRanges();
    if |ranges| == 0 { return 0; }
    var sorted := StableSort(ranges, Before);
    total := 0;
    var start, end := sorted[0].start, sorted[0].end;
    SweepStarts(sorted);
    for i := 1 to |sorted|
      invariant Sweep(sorted, i, total, start, end)
    {
      SweepNext(sorted, i, total, start, end);
      var s, e := sorted[i].start, sorted[i].end;
      if s <= end {
        if e > end { end := e; }
      } else {
        total := total + (end - start);
        start, end := s, e;
      }
    }
    SweepEnds(sorted, total, start, end);
    total := total + (end - start);
  }

  lemma SweepEnds(sorted: seq<Range>, total: int, start: int, end: int)
    requires Sweep(sorted, |sorted|, total, start, end)
    ensures total + (end - start) == |Covered(sorted)| - Lost(sorted, sorted)
  {
    assert sorted[..|sorted|] == sorted;
  }

  function Billed(ranges: seq<Range>): int {
    if ranges == [] then 0
    else Billed(ranges[..|ranges| - 1]) + ranges[|ranges| - 1].end - ranges[|ranges| - 1].start
  }

  lemma {:induction false} CoveredConcat(a: seq<Range>, b: seq<Range>)
    ensures Covered(a + b) == Covered(a) + Covered(b)
  {
    if b == [] {
      assert a + b == a;
    } else {
      CoveredConcat(a, b[..|b| - 1]);
      assert (a + b)[..|a + b| - 1] == a + b[..|b| - 1];
    }
  }

  lemma UnionSize(a: set<int>, b: set<int>)
    ensures |a| <= |a + b| <= |a| + |b|
  {
    SubsetSize(a, a + b);
    SubsetSize(b - a, b);
    assert a + b == a + (b - a);
  }

  /** More reads never lower the figure, and never raise it by more than their own distinct positions. */
  lemma MoreReads(a: seq<Range>, b: seq<Range>)
    ensures |Covered(a)| <= |Covered(a + b)| <= |Covered(a)| + |Covered(b)|
  {
    CoveredConcat(a, b);
    UnionSize(Covered(a), Covered(b));
  }

  /** Distinct bytes never exceed billed bytes, and equal them exactly when no position is read twice. */
  lemma {:induction false} AtMostBilled(ranges: seq<Range>)
    requires Forward(ranges)
    ensures |Covered(ranges)| <= Billed(ranges)
    ensures |Covered(ranges)| == Billed(ranges) <==> AllApart(ranges)
  {
    if ranges == [] {
    } else {
      var front, last := ranges[..|ranges| - 1], ranges[|ranges| - 1];
      AtMostBilled(front);
      SpanSize(last.start, last.end);
      UnionSize(Covered(front), Span(last.start, last.end));
      DisjointIff(Covered(front), Span(last.start, last.end));
      ApartIff(front, last);
      ApartStep(ranges);
      hide AllApart, Apart, Span;
    }
  }

  ghost predicate AllApart(ranges: seq<Range>) {
    forall i, j :: 0 <= i < j < |ranges| ==> Apart(ranges[i], ranges[j])
  }

  lemma ApartStep(ranges: seq<Range>)
    requires ranges != []
    ensures
      var front, last := ranges[..|ranges| - 1], ranges[|ranges| - 1];
      AllApart(ranges) <==> AllApart(front) && forall i :: 0 <= i < |front| ==> Apart(front[i], last)
  {
    hide Apart;
    var front, last := ranges[..|ranges| - 1], ranges[|ranges| - 1];
    assert forall i :: 0 <= i < |front| ==> front[i] == ranges[i];
    if i, j :| 0 <= i < j < |ranges| && !Apart(ranges[i], ranges[j]) {
      assert j < |front| ==> !Apart(front[i], front[j]);
    }
  }

  lemma ApartIff(front: seq<Range>, last: Range)
    ensures Covered(front) !! Span(last.start, last.end) <==> forall i :: 0 <= i < |front| ==> Apart(front[i], last)
  {
    var a, b := Covered(front), Span(last.start, last.end);
    if a !! b {
      forall i | 0 <= i < |front| ensures Apart(front[i], last) {
        if !Apart(front[i], last) {
          var x := if front[i].start < last.start then last.start else front[i].start;
          assert front[i] in front && x in b;
          CoveredMeans(front, x);
        }
      }
    } else {
      var x :| x in a && x in b;
      CoveredMeans(front, x);
      var r :| r in front && r.start <= x < r.end;
      var i :| 0 <= i < |front| && front[i] == r;
      assert !Apart(front[i], last);
    }
  }

  predicate Apart(x: Range, y: Range) {
    x.end <= y.start || y.end <= x.start || x.start >= x.end || y.start >= y.end
  }

  lemma DisjointIff(a: set<int>, b: set<int>)
    ensures |a + b| == |a| + |b| <==> a !! b
  {
    SubsetSize(b - a, b);
    assert a + b == a + (b - a) && a !! (b - a);
    assert a !! b <==> b - a == b;
  }
}
