/** Recall/QPS frontiers, their equal-recall interpolation, and the recall targets of the comparison table. */
module ParetoFrontier {
  import opened Wrappers
  import opened Sorting
  import Finite

  datatype Point = Point(efSearch: int, recall: real, qps: real)

  predicate Dominates(b: Point, a: Point) {
    b.recall >= a.recall && b.qps >= a.qps && (b.recall > a.recall || b.qps > a.qps)
  }

  predicate Dominated(a: Point, points: seq<Point>) {
    exists b :: b in points && Dominates(b, a)
  }

  function Undominated(from: seq<Point>, points: seq<Point>): (r: seq<Point>) {
    if from == [] then []
    else
      var n := |from| - 1;
      Undominated(from[..n], points) + if Dominated(from[n], points) then [] else [from[n]]
  }

  predicate ByRecall(x: Point, y: Point) {
    x.recall <= y.recall
  }

  function Frontier(points: seq<Point>): (r: seq<Point>) {
    StableSort(Undominated(points, points), ByRecall)
  }

  lemma {:induction false} UndominatedCount(from: seq<Point>, points: seq<Point>, x: Point)
    ensures multiset(Undominated(from, points))[x] == if Dominated(x, points) then 0 else multiset(from)[x]
  {
    if from == [] {
    } else {
      var n := |from| - 1;
      UndominatedCount(from[..n], points, x);
      assert from == from[..n] + [from[n]];
    }
  }

  /** The frontier is the multiset of non-dominated points. */
  lemma FrontierCount(points: seq<Point>, x: Point)
    ensures multiset(Frontier(points))[x] == if Dominated(x, points) then 0 else multiset(points)[x]
    ensures x in Frontier(points) <==> x in points && !Dominated(x, points)
  {
    UndominatedCount(points, points, x);
    assert x in Frontier(points) <==> x in multiset(Frontier(points));
    assert x in points <==> x in multiset(points);
  }

  ghost function Dominators(a: Point, points: seq<Point>): set<Point> {
    set b | b in points && Dominates(b, a)
  }

  /** Nothing is lost: climbing from a dropped point through its dominators ends at a kept one. */
  lemma {:induction false} DroppedHasKeptDominator(points: seq<Point>, a: Point) returns (kept: Point)
    requires a in points && a !in Frontier(points)
    ensures kept in Frontier(points) && Dominates(kept, a)
    decreases |Dominators(a, points)|
  {
    FrontierCount(points, a);
    var b :| b in points && Dominates(b, a);
    if b in Frontier(points) {
      kept := b;
    } else {
      FewerDominators(points, a, b);
      kept := DroppedHasKeptDominator(points, b);
    }
  }

  lemma FewerDominators(points: seq<Point>, a: Point, b: Point)
    requires b in points && Dominates(b, a)
    ensures |Dominators(b, points)| < |Dominators(a, points)|
  {
    var fewer, more := Dominators(b, points), Dominators(a, points);
    assert b in more && b !in fewer;
    Finite.SubsetSize(fewer, more);
  }

  /** Along the curve recall rises strictly exactly where QPS falls strictly. */
  ghost predicate Curve(f: seq<Point>) {
    forall i, j :: 0 <= i < j < |f| ==> Downhill(f[i], f[j])
  }

  predicate Downhill(x: Point, y: Point) {
    x.recall <= y.recall && x.qps >= y.qps && (x.recall == y.recall <==> x.qps == y.qps)
  }

  lemma FrontierIsCurve(points: seq<Point>)
    ensures Curve(Frontier(points))
  {
    var f := Frontier(points);
    StableSortSorted(Undominated(points, points), ByRecall);
    forall i, j | 0 <= i < j < |f| ensures Downhill(f[i], f[j]) {
      assert ByRecall(f[i], f[j]);
      FrontierCount(points, f[i]);
      FrontierCount(points, f[j]);
      assert !Dominates(f[i], f[j]) && !Dominates(f[j], f[i]);
    }
  }

  /** Taking the frontier again changes nothing. */
  lemma FrontierIdempotent(points: seq<Point>)
    ensures Frontier(Frontier(points)) == Frontier(points)
  {
    var f := Frontier(points);
    FrontierIsCurve(points);
    forall x | x in f ensures !Dominated(x, f) {
      if Dominated(x, f) {
        var b :| b in f && Dominates(b, x);
        FrontierCount(points, b);
        FrontierCount(points, x);
      }
    }
    NothingDropped(f, f);
    SortedStays(f);
  }

  lemma {:induction false} NothingDropped(from: seq<Point>, points: seq<Point>)
    requires forall x :: x in from ==> !Dominated(x, points)
    ensures Undominated(from, points) == from
  {
    hide Dominated;
    if from == [] {
    } else {
      NothingDropped(from[..|from| - 1], points);
    }
  }

  lemma {:induction false} SortedStays(f: seq<Point>)
    requires Curve(f)
    ensures StableSort(f, ByRecall) == f
  {
    if f == [] {
    } else {
      SortedStays(f[1..]);
      assert |f| > 1 ==> Downhill(f[0], f[1]);
    }
  }

  // ---- Interpolation ----

  const TOLERANCE: real := 0.000000001

  /** What is used of the logarithm and the exponential. */
  ghost predicate LogExp(log: real -> real, exp: real -> real) {
    && (forall x, y :: x < y ==> exp(x) < exp(y))
    && forall q :: q > 0.0 ==> exp(log(q)) == q
  }

  lemma LogMonotone(log: real -> real, exp: real -> real, p: real, q: real)
    requires LogExp(log, exp) && 0.0 < p <= q
    ensures log(p) <= log(q)
    ensures p < q ==> log(p) < log(q)
  {
    assert log(q) < log(p) ==> exp(log(q)) < exp(log(p));
    assert exp(log(p)) == p && exp(log(q)) == q;
  }

  function Between(p: Point, q: Point, target: real, log: real -> real, exp: real -> real): real {
    if q.recall == p.recall then (if p.qps < q.qps then q.qps else p.qps)
    else exp(Line(p.recall, q.recall, log(p.qps), log(q.qps), target))
  }

  function Line(r0: real, r1: real, l0: real, l1: real, target: real): real
    requires r0 != r1
  {
    l0 + (target - r0) / (r1 - r0) * (l1 - l0)
  }

  function Scan(f: seq<Point>, i: nat, target: real, log: real -> real, exp: real -> real): real
    requires 1 <= i <= |f|
    decreases |f| - i
  {
    if i == |f| then f[|f| - 1].qps
    else if f[i].recall >= target then Between(f[i - 1], f[i], target, log, exp)
    else Scan(f, i + 1, target, log, exp)
  }

  function Abs(x: real): real { if x < 0.0 then -x else x }

  function QpsAtRecall(f: seq<Point>, target: real, log: real -> real, exp: real -> real): Option<real> {
    if |f| == 0 then None
    else if |f| == 1 then (if Abs(f[0].recall - target) < TOLERANCE then Some(f[0].qps) else None)
    else if target < f[0].recall - TOLERANCE || target > f[|f| - 1].recall + TOLERANCE then None
    else Some(Scan(f, 1, target, log, exp))
  }

  lemma Scaled(t: real, u: real, s: real)
    requires t <= u && s >= 0.0
    ensures t * s <= u * s
    ensures t < u && s > 0.0 ==> t * s < u * s
  {}

  lemma Divided(x: real, y: real, d: real)
    requires d > 0.0 && x <= y
    ensures x / d <= y / d
    ensures x < y ==> x / d < y / d
  {}

  lemma LineFalls(r0: real, r1: real, l0: real, l1: real, t: real, u: real)
    requires r0 < r1 && l0 >= l1 && t <= u
    ensures Line(r0, r1, l0, l1, t) >= Line(r0, r1, l0, l1, u)
    ensures t < u && l0 > l1 ==> Line(r0, r1, l0, l1, t) > Line(r0, r1, l0, l1, u)
  {
    var a, b := (t - r0) / (r1 - r0), (u - r0) / (r1 - r0);
    Divided(t - r0, u - r0, r1 - r0);
    Scaled(a, b, l0 - l1);
    Negated(a, l0, l1);
    Negated(b, l0, l1);
  }

  lemma Negated(a: real, l0: real, l1: real)
    ensures a * (l1 - l0) == -(a * (l0 - l1))
  {}

  lemma LineEnds(r0: real, r1: real, l0: real, l1: real)
    requires r0 < r1
    ensures Line(r0, r1, l0, l1, r0) == l0 && Line(r0, r1, l0, l1, r1) == l1
  {
    assert (r1 - r0) / (r1 - r0) == 1.0 && 0.0 / (r1 - r0) == 0.0;
    assert 1.0 * (l1 - l0) == l1 - l0;
  }

  /** On a segment the value falls with the target and meets the two points. */
  lemma SegmentFalls(p: Point, q: Point, t: real, u: real, log: real -> real, exp: real -> real)
    requires LogExp(log, exp) && Downhill(p, q) && q.qps > 0.0 && t <= u
    ensures Between(p, q, t, log, exp) >= Between(p, q, u, log, exp)
    ensures p.recall < q.recall && t < u ==> Between(p, q, t, log, exp) > Between(p, q, u, log, exp)
    ensures Between(p, q, p.recall, log, exp) == p.qps && Between(p, q, q.recall, log, exp) == q.qps
  {
    if p.recall < q.recall {
      LogMonotone(log, exp, q.qps, p.qps);
      LineFalls(p.recall, q.recall, log(p.qps), log(q.qps), t, u);
      LineEnds(p.recall, q.recall, log(p.qps), log(q.qps));
    }
  }

  ghost predicate Usable(f: seq<Point>, log: real -> real, exp: real -> real) {
    LogExp(log, exp) && Curve(f) && forall i :: 0 <= i < |f| ==> f[i].qps > 0.0
  }

  /** The scan stops at the first point at or past the target; its answer lies between that point and the one before. */
  lemma {:induction false} ScanBounds(f: seq<Point>, i: nat, target: real, log: real -> real, exp: real -> real)
    requires Usable(f, log, exp) && 1 <= i <= |f| && f[i - 1].recall <= target
    ensures f[|f| - 1].qps <= Scan(f, i, target, log, exp) <= f[i - 1].qps
    decreases |f| - i
  {
    hide LogExp, Between;
    if i < |f| {
      assert Downhill(f[i - 1], f[i]);
      if f[i].recall >= target {
        SegmentFalls(f[i - 1], f[i], f[i - 1].recall, target, log, exp);
        SegmentFalls(f[i - 1], f[i], target, f[i].recall, log, exp);
        assert i < |f| - 1 ==> Downhill(f[i], f[|f| - 1]);
      } else {
        ScanBounds(f, i + 1, target, log, exp);
      }
    }
  }

  lemma {:induction false} ScanFalls(f: seq<Point>, i: nat, t: real, u: real, log: real -> real, exp: real -> real)
    requires Usable(f, log, exp) && 1 <= i <= |f| && t <= u
    ensures Scan(f, i, t, log, exp) >= Scan(f, i, u, log, exp)
    decreases |f| - i
  {
    hide LogExp, Between;
    if i < |f| {
      assert Downhill(f[i - 1], f[i]);
      if f[i].recall >= u {
        SegmentFalls(f[i - 1], f[i], t, u, log, exp);
      } else if f[i].recall >= t {
        SegmentFalls(f[i - 1], f[i], t, f[i].recall, log, exp);
        ScanBounds(f, i + 1, u, log, exp);
      } else {
        ScanFalls(f, i + 1, t, u, log, exp);
      }
    }
  }

  /** Never rises as the target rises, over every target that has an answer. */
  lemma QpsNeverRises(f: seq<Point>, t: real, u: real, log: real -> real, exp: real -> real)
    requires Usable(f, log, exp) && t <= u
    requires QpsAtRecall(f, t, log, exp).Some? && QpsAtRecall(f, u, log, exp).Some?
    ensures QpsAtRecall(f, t, log, exp).value >= QpsAtRecall(f, u, log, exp).value
  {
    if |f| > 1 { ScanFalls(f, 1, t, u, log, exp); }
  }

  /** Inside the recall span there is always an answer, between the end values. */
  lemma QpsInsideSpan(f: seq<Point>, target: real, log: real -> real, exp: real -> real)
    requires Usable(f, log, exp) && f != [] && f[0].recall <= target <= f[|f| - 1].recall
    ensures QpsAtRecall(f, target, log, exp).Some?
    ensures f[|f| - 1].qps <= QpsAtRecall(f, target, log, exp).value <= f[0].qps
  {
    if |f| > 1 { ScanBounds(f, 1, target, log, exp); }
  }

  /** Just below the span the first segment is extrapolated, so the answer exceeds every point of a non-flat start. */
  lemma QpsOvershoots(f: seq<Point>, target: real, log: real -> real, exp: real -> real)
    requires Usable(f, log, exp) && |f| > 1 && QpsAtRecall(f, target, log, exp).Some?
    ensures QpsAtRecall(f, target, log, exp).value <= f[0].qps
      <==> target >= f[0].recall || f[1].recall == f[0].recall
    ensures QpsAtRecall(f, target, log, exp).value >= f[|f| - 1].qps
  {
    assert Downhill(f[0], f[1]);
    if target >= f[0].recall {
      ScanBounds(f, 1, target, log, exp);
    } else {
      SegmentFalls(f[0], f[1], target, f[0].recall, log, exp);
      assert |f| > 2 ==> Downhill(f[1], f[|f| - 1]);
    }
  }

  /** Half a tolerance below a two-point frontier the answer is above both points. */
  lemma OvershootExample(log: real -> real, exp: real -> real) returns (f: seq<Point>, target: real)
    requires LogExp(log, exp)
    ensures f == Frontier(f) && |f| == 2
    ensures QpsAtRecall(f, target, log, exp).Some?
    ensures QpsAtRecall(f, target, log, exp).value > f[0].qps && f[0].qps >= f[1].qps
  {
    var a, b := Point(1, 0.5, 100.0), Point(2, 0.6, 50.0);
    f, target := [a, b], 0.5 - TOLERANCE / 2.0;
    TwoPointFrontier(a, b);
    hide Frontier, Scan, LogExp;
    QpsOvershoots(f, target, log, exp);
  }

  lemma TwoPointFrontier(a: Point, b: Point)
    requires a.recall < b.recall && a.qps > b.qps
    ensures Frontier([a, b]) == [a, b] && Curve([a, b])
  {
    hide *;
    PairUndominated(a, b);
    NothingDropped([a, b], [a, b]);
    SortedStays([a, b]);
    FrontierMeans([a, b]);
  }

  lemma FrontierMeans(points: seq<Point>)
    ensures Frontier(points) == StableSort(Undominated(points, points), ByRecall)
  {}

  lemma PairUndominated(a: Point, b: Point)
    requires a.recall < b.recall && a.qps > b.qps
    ensures Curve([a, b]) && forall x :: x in [a, b] ==> !Dominated(x, [a, b])
  {
    assert forall x :: x in [a, b] <==> x == a || x == b;
  }

  /** The curve passes through every frontier point. */
  lemma {:induction false} ScanMeetsPoint(f: seq<Point>, i: nat, k: nat, log: real -> real, exp: real -> real)
    requires Usable(f, log, exp) && 1 <= i <= |f| && i - 1 <= k < |f| && (i == 1 || f[i - 1].recall <= f[k].recall)
    ensures Scan(f, i, f[k].recall, log, exp) == f[k].qps
    decreases |f| - i
  {
    if i < |f| {
      assert Downhill(f[i - 1], f[i]);
      if i < k { assert Downhill(f[i], f[k]); }
      if f[i].recall >= f[k].recall {
        SegmentFalls(f[i - 1], f[i], f[i - 1].recall, f[i].recall, log, exp);
        assert f[k] == f[i - 1] || f[k].recall == f[i].recall;
      } else {
        ScanMeetsPoint(f, i + 1, k, log, exp);
      }
    }
  }

  lemma QpsMeetsPoints(f: seq<Point>, k: nat, log: real -> real, exp: real -> real)
    requires Usable(f, log, exp) && k < |f|
    ensures QpsAtRecall(f, f[k].recall, log, exp) == Some(f[k].qps)
  {
    if 0 < k { assert Downhill(f[0], f[k]); }
    if k < |f| - 1 { assert Downhill(f[k], f[|f| - 1]); }
    if |f| > 1 { ScanMeetsPoint(f, 1, k, log, exp); }
  }

  ghost predicate SomeAtMost(f: seq<Point>, x: real) { exists p :: p in f && p.recall <= x }

  ghost predicate SomeAtLeast(f: seq<Point>, x: real) { exists p :: p in f && p.recall >= x }

  /**
   A frontier of two or more answers the targets at most the tolerance away from its span, a lone point those strictly
   closer. At and past the last point the answer is that point's QPS.
   */
  lemma QpsAnswered(f: seq<Point>, target: real, log: real -> real, exp: real -> real)
    requires Usable(f, log, exp)
    ensures |f| > 1 ==>
      (QpsAtRecall(f, target, log, exp).Some? <==> SomeAtMost(f, target + TOLERANCE) && SomeAtLeast(f, target - TOLERANCE))
    ensures |f| == 1 ==>
      (QpsAtRecall(f, target, log, exp).Some? <==> f[0].recall - TOLERANCE < target < f[0].recall + TOLERANCE)
    ensures f != [] && target >= f[|f| - 1].recall && QpsAtRecall(f, target, log, exp).Some? ==>
      QpsAtRecall(f, target, log, exp).value == f[|f| - 1].qps
  {
    if |f| > 1 {
      SpanEnds(f, target);
      var last := f[|f| - 1];
      if target >= last.recall && QpsAtRecall(f, target, log, exp).Some? {
        assert Downhill(f[0], last);
        ScanBounds(f, 1, target, log, exp);
        QpsMeetsPoints(f, |f| - 1, log, exp);
        QpsNeverRises(f, last.recall, target, log, exp);
      }
    }
  }

  lemma SpanEnds(f: seq<Point>, target: real)
    requires Curve(f) && f != []
    ensures SomeAtMost(f, target + TOLERANCE) <==> f[0].recall - TOLERANCE <= target
    ensures SomeAtLeast(f, target - TOLERANCE) <==> target <= f[|f| - 1].recall + TOLERANCE
  {
    forall p | p in f ensures f[0].recall <= p.recall <= f[|f| - 1].recall {
      var k :| 0 <= k < |f| && f[k] == p;
      if 0 < k { assert Downhill(f[0], f[k]); }
      if k < |f| - 1 { assert Downhill(f[k], f[|f| - 1]); }
    }
    assert f[0] in f && f[|f| - 1] in f;
  }

  // ---- Log-linear between the points ----

  ghost predicate ExpOfSum(exp: real -> real) {
    forall x, y :: exp(x + y) == exp(x) * exp(y)
  }

  /** Where segment i answers: between its two points, and for the first one down to the tolerance below. */
  ghost predicate OnSegment(f: seq<Point>, i: nat, target: real)
    requires 0 < i < |f|
  {
    (if i == 1 then f[0].recall - TOLERANCE else f[i - 1].recall) <= target <= f[i].recall
  }

  lemma {:induction false} ScanSkips(f: seq<Point>, j: nat, i: nat, target: real, log: real -> real, exp: real -> real)
    requires Curve(f) && 1 <= j <= i < |f| && target <= f[i].recall && (i == j || f[i - 1].recall < target)
    ensures Scan(f, j, target, log, exp) == Between(f[i - 1], f[i], target, log, exp)
    decreases i - j
  {
    hide Between;
    if j < i {
      if j < i - 1 { assert Downhill(f[j], f[i - 1]); }
      ScanSkips(f, j + 1, i, target, log, exp);
    }
  }

  /** The segment that contains the target decides the answer, whichever of two segments a shared point is counted to. */
  lemma SegmentAnswers(f: seq<Point>, i: nat, target: real, log: real -> real, exp: real -> real)
    requires Usable(f, log, exp) && 0 < i < |f| && OnSegment(f, i, target)
    ensures QpsAtRecall(f, target, log, exp) == Some(Between(f[i - 1], f[i], target, log, exp))
  {
    hide LogExp, Between, Scan;
    assert Downhill(f[i - 1], f[i]);
    if i < |f| - 1 { assert Downhill(f[i], f[|f| - 1]); }
    if i > 1 { assert Downhill(f[0], f[i - 1]); }
    if i > 1 && target == f[i - 1].recall {
      QpsMeetsPoints(f, i - 1, log, exp);
      SegmentFalls(f[i - 1], f[i], target, target, log, exp);
    } else {
      ScanSkips(f, 1, i, target, log, exp);
    }
  }

  lemma LineSteps(r0: real, r1: real, l0: real, l1: real, t: real, u: real, v: real, w: real)
    requires r0 != r1 && u - t == w - v
    ensures Line(r0, r1, l0, l1, u) + Line(r0, r1, l0, l1, v) == Line(r0, r1, l0, l1, t) + Line(r0, r1, l0, l1, w)
  {
    var n := r1 - r0;
    var a, b, c, d := (t - r0) / n, (u - r0) / n, (v - r0) / n, (w - r0) / n;
    assert b + c == (u + v - 2.0 * r0) / n && a + d == (t + w - 2.0 * r0) / n;
    assert (b + c) * (l1 - l0) == b * (l1 - l0) + c * (l1 - l0);
    assert (a + d) * (l1 - l0) == a * (l1 - l0) + d * (l1 - l0);
  }

  lemma BetweenSteps(p: Point, q: Point, t: real, u: real, v: real, w: real, log: real -> real, exp: real -> real)
    requires ExpOfSum(exp) && u - t == w - v
    ensures Between(p, q, u, log, exp) * Between(p, q, v, log, exp) == Between(p, q, t, log, exp) * Between(p, q, w, log, exp)
  {
    if p.recall != q.recall {
      hide Line;
      var r0, r1, l0, l1 := p.recall, q.recall, log(p.qps), log(q.qps);
      LineSteps(r0, r1, l0, l1, t, u, v, w);
      hide *;
      EqualProducts(exp, Line(r0, r1, l0, l1, t), Line(r0, r1, l0, l1, u), Line(r0, r1, l0, l1, v), Line(r0, r1, l0, l1, w));
    }
  }

  lemma EqualProducts(exp: real -> real, a: real, b: real, c: real, d: real)
    requires ExpOfSum(exp) && b + c == a + d
    ensures exp(b) * exp(c) == exp(a) * exp(d)
  {
    assert exp(b) * exp(c) == exp(b + c) && exp(a) * exp(d) == exp(a + d);
  }

  /** Along a segment, equal steps in recall change QPS by equal factors, and the midpoint is the geometric mean of the ends. */
  lemma QpsEqualFactors(f: seq<Point>, i: nat, t: real, u: real, v: real, w: real, log: real -> real, exp: real -> real)
    requires Usable(f, log, exp) && ExpOfSum(exp) && 0 < i < |f| && u - t == w - v
    requires OnSegment(f, i, t) && OnSegment(f, i, u) && OnSegment(f, i, v) && OnSegment(f, i, w)
    ensures
      var qps := (x: real) => QpsAtRecall(f, x, log, exp);
      && qps(t).Some? && qps(u).Some? && qps(v).Some? && qps(w).Some?
      && qps(u).value * qps(v).value == qps(t).value * qps(w).value
  {
    hide *;
    SegmentAnswers(f, i, t, log, exp);
    SegmentAnswers(f, i, u, log, exp);
    SegmentAnswers(f, i, v, log, exp);
    SegmentAnswers(f, i, w, log, exp);
    BetweenSteps(f[i - 1], f[i], t, u, v, w, log, exp);
  }

  lemma QpsMidpoint(f: seq<Point>, i: nat, log: real -> real, exp: real -> real)
    requires Usable(f, log, exp) && ExpOfSum(exp) && 0 < i < |f|
    ensures
      var mid := QpsAtRecall(f, (f[i - 1].recall + f[i].recall) / 2.0, log, exp);
      mid.Some? && mid.value * mid.value == f[i - 1].qps * f[i].qps
  {
    var t, w := f[i - 1].recall, f[i].recall;
    assert Downhill(f[i - 1], f[i]);
    hide QpsAtRecall, LogExp, ExpOfSum;
    QpsEqualFactors(f, i, t, (t + w) / 2.0, (t + w) / 2.0, w, log, exp);
    QpsMeetsPoints(f, i - 1, log, exp);
    QpsMeetsPoints(f, i, log, exp);
  }

  // ---- Targets ----

  /** Kept targets are inputs more than the tolerance apart, and no input is farther than it above a kept one. */
  ghost predicate Thinned(unique: seq<real>, targets: seq<real>) {
    && (forall i :: 0 <= i < |unique| ==> unique[i] in targets)
    && Spaced(unique)
    && forall t :: t in targets ==> Near(unique, t)
  }

  ghost predicate Spaced(unique: seq<real>) {
    forall i, j :: 0 <= i < j < |unique| ==> unique[j] - unique[i] > TOLERANCE
  }

  ghost predicate Near(unique: seq<real>, t: real) {
    exists u :: u in unique && 0.0 <= t - u <= TOLERANCE
  }

  predicate AtMost(x: real, y: real) { x <= y }

  method UniqueSortedTargets(targets: seq<real>) returns (unique: seq<real>)
    ensures Thinned(unique, targets)
  {
    hide Thinned, StableSort, SortedBy;
    SortedTargets(targets);
    var sorted := StableSort(targets, AtMost);
    unique := [];
    NothingThinned();
    assert sorted[..0] == [];
    for i := 0 to |sorted|
      invariant Thinned(unique, sorted[..i])
      invariant if i == 0 then unique == [] else unique != [] && unique[|unique| - 1] <= sorted[i - 1]
    {
      var t := sorted[i];
      assert sorted[..i + 1] == sorted[..i] + [t];
      if |unique| == 0 || Abs(unique[|unique| - 1] - t) > TOLERANCE {
        ThinnedKeeps(unique, sorted[..i], t);
        unique := unique + [t];
      } else {
        ThinnedSkips(unique, sorted[..i], t);
      }
    }
    assert sorted[..|sorted|] == sorted;
    ThinnedPermuted(unique, sorted, targets);
  }

  lemma NothingThinned()
    ensures Thinned([], [])
  {}

  lemma SortedTargets(targets: seq<real>)
    ensures
      var sorted := StableSort(targets, AtMost);
      multiset(sorted) == multiset(targets) && forall i :: 0 < i < |sorted| ==> sorted[i - 1] <= sorted[i]
  {
    var sorted := StableSort(targets, AtMost);
    StableSortSorted(targets, AtMost);
    forall i | 0 < i < |sorted| ensures sorted[i - 1] <= sorted[i] { assert AtMost(sorted[i - 1], sorted[i]); }
  }

  lemma ThinnedPermuted(unique: seq<real>, a: seq<real>, b: seq<real>)
    requires multiset(a) == multiset(b) && Thinned(unique, a)
    ensures Thinned(unique, b)
  {
    SameElements(a, b);
  }

  lemma ThinnedKeeps(unique: seq<real>, targets: seq<real>, t: real)
    requires Thinned(unique, targets) && (unique == [] || t - unique[|unique| - 1] > TOLERANCE)
    ensures Thinned(unique + [t], targets + [t])
  {
    SpacedKeeps(unique, t);
    forall x | x in targets + [t] ensures Near(unique + [t], x) {
      if x == t { NearKept(unique, t); } else { NearKeeps(unique, t, x); }
    }
    hide Spaced, Near;
    assert forall i :: 0 <= i < |unique| ==> (unique + [t])[i] == unique[i];
  }

  lemma SpacedKeeps(unique: seq<real>, t: real)
    requires Spaced(unique) && (unique == [] || t - unique[|unique| - 1] > TOLERANCE)
    ensures Spaced(unique + [t])
  {}

  lemma NearKept(unique: seq<real>, t: real)
    ensures Near(unique + [t], t)
  {
    assert (unique + [t])[|unique|] == t;
    assert t in unique + [t] && t - t == 0.0;
  }

  lemma NearKeeps(unique: seq<real>, t: real, x: real)
    requires Near(unique, x)
    ensures Near(unique + [t], x)
  {
    var u :| u in unique && 0.0 <= x - u <= TOLERANCE;
    assert u in unique + [t];
  }

  lemma ThinnedSkips(unique: seq<real>, targets: seq<real>, t: real)
    requires Thinned(unique, targets) && unique != [] && 0.0 <= t - unique[|unique| - 1] <= TOLERANCE
    ensures Thinned(unique, targets + [t])
  {
    assert unique[|unique| - 1] in unique;
  }

  /** A frontier point's nearest kept target has an answer in its column; a lone point needs it strictly within the tolerance. */
  lemma ObservedAnswered(f: seq<Point>, k: nat, unique: seq<real>, targets: seq<real>, log: real -> real, exp: real -> real)
    returns (u: real)
    requires Usable(f, log, exp) && k < |f| && Thinned(unique, targets) && f[k].recall in targets
    ensures u in unique && 0.0 <= f[k].recall - u <= TOLERANCE
    ensures QpsAtRecall(f, u, log, exp).Some? <==> |f| > 1 || f[k].recall - u < TOLERANCE
    ensures |f| > 1 ==> QpsAtRecall(f, u, log, exp).value >= f[k].qps
  {
    assert Near(unique, f[k].recall);
    u :| u in unique && 0.0 <= f[k].recall - u <= TOLERANCE;
    JustBelowAnswered(f, k, u, log, exp);
  }

  lemma JustBelowAnswered(f: seq<Point>, k: nat, u: real, log: real -> real, exp: real -> real)
    requires Usable(f, log, exp) && k < |f| && 0.0 <= f[k].recall - u <= TOLERANCE
    ensures QpsAtRecall(f, u, log, exp).Some? <==> |f| > 1 || f[k].recall - u < TOLERANCE
    ensures |f| > 1 ==> QpsAtRecall(f, u, log, exp).value >= f[k].qps
  {
    hide LogExp, Scan;
    if 0 < k { assert Downhill(f[0], f[k]); }
    if k < |f| - 1 { assert Downhill(f[k], f[|f| - 1]); }
    QpsMeetsPoints(f, k, log, exp);
    if |f| > 1 { QpsNeverRises(f, u, f[k].recall, log, exp); }
  }
}
