/**
 The modelled latency of one fetch round: requests, longest first, each to the lane that is free first.
 Times are reals.
 */
module RoundLatency {
  import opened Sorting

  function Sum(f: seq<real>): real {
    if f == [] then 0.0 else Sum(f[..|f| - 1]) + f[|f| - 1]
  }

  ghost predicate Assignment(lanes: seq<nat>, n: nat, m: nat) {
    |lanes| == n && forall i :: 0 <= i < n ==> lanes[i] < m
  }

  /** What an assignment puts on one lane, for any weighting of the jobs. */
  function Load(f: seq<real>, lanes: seq<nat>, lane: nat): real
    requires |lanes| == |f|
  {
    if f == [] then 0.0
    else
      var n := |f| - 1;
      Load(f[..n], lanes[..n], lane) + if lanes[n] == lane then f[n] else 0.0
  }

  function LoadSum(f: seq<real>, lanes: seq<nat>, m: nat): real
    requires |lanes| == |f|
  {
    if m == 0 then 0.0 else LoadSum(f, lanes, m - 1) + Load(f, lanes, m - 1)
  }

  lemma {:induction false} LoadSumStep(f: seq<real>, lanes: seq<nat>, m: nat)
    requires |lanes| == |f| > 0
    ensures
      var n := |f| - 1;
      LoadSum(f, lanes, m) == LoadSum(f[..n], lanes[..n], m) + if lanes[n] < m then f[n] else 0.0
  {
    if m == 0 {
    } else {
      LoadSumStep(f, lanes, m - 1);
    }
  }

  lemma {:induction false} LoadSumEmpty(m: nat)
    ensures LoadSum([], [], m) == 0.0
  {
    if m == 0 {
    } else {
      LoadSumEmpty(m - 1);
    }
  }

  /** Conservation: the lanes together carry all the work. */
  lemma {:induction false} LoadsSumToTotal(f: seq<real>, lanes: seq<nat>, m: nat)
    requires Assignment(lanes, |f|, m)
    ensures LoadSum(f, lanes, m) == Sum(f)
  {
    if f == [] {
      LoadSumEmpty(m);
    } else {
      LoadSumStep(f, lanes, m);
      LoadsSumToTotal(f[..|f| - 1], lanes[..|f| - 1], m);
    }
  }

  ghost predicate LoadsAtMost(f: seq<real>, lanes: seq<nat>, m: nat, t: real)
    requires |lanes| == |f|
  {
    forall i: nat :: i < m ==> Load(f, lanes, i) <= t
  }

  ghost predicate LoadsAtLeast(f: seq<real>, lanes: seq<nat>, m: nat, t: real)
    requires |lanes| == |f|
  {
    forall i: nat :: i < m ==> Load(f, lanes, i) >= t
  }

  lemma {:induction false} SumOfBounded(f: seq<real>, lanes: seq<nat>, m: nat, t: real)
    requires |lanes| == |f|
    ensures LoadsAtMost(f, lanes, m, t) ==> LoadSum(f, lanes, m) <= m as real * t
    ensures LoadsAtLeast(f, lanes, m, t) ==> LoadSum(f, lanes, m) >= m as real * t
  {
    if m == 0 {
    } else {
      SumOfBounded(f, lanes, m - 1, t);
      TimesOneMore(m, t);
    }
  }

  lemma TimesOneMore(m: nat, t: real)
    requires m > 0
    ensures m as real * t == (m - 1) as real * t + t
  {
    var r := (m - 1) as real;
    assert m as real == r + 1.0;
    assert (r + 1.0) * t == r * t + t;
  }

  ghost predicate NonNegative(f: seq<real>) {
    forall i :: 0 <= i < |f| ==> f[i] >= 0.0
  }

  ghost predicate Descending(f: seq<real>) {
    forall i, j :: 0 <= i < j < |f| ==> f[i] >= f[j]
  }

  lemma {:induction false} LoadNonNegative(f: seq<real>, lanes: seq<nat>, lane: nat)
    requires |lanes| == |f| && NonNegative(f)
    ensures Load(f, lanes, lane) >= 0.0
  {
    if f == [] {
    } else {
      LoadNonNegative(f[..|f| - 1], lanes[..|f| - 1], lane);
    }
  }

  lemma PrefixLoads(f: seq<real>, lanes: seq<nat>, m: nat, t: real)
    requires |lanes| == |f| > 0 && NonNegative(f) && LoadsAtMost(f, lanes, m, t)
    ensures LoadsAtMost(f[..|f| - 1], lanes[..|f| - 1], m, t)
  {
    var front, frontLanes := f[..|f| - 1], lanes[..|f| - 1];
    forall i: nat | i < m ensures Load(front, frontLanes, i) <= t {
      assert Load(f, lanes, i) <= t;
    }
  }

  // ---------- longest first is within 4/3 - 1/(3m) of any assignment ----------

  /** Weight 2 for a job that leaves no room for the smallest one within t, else 1. */
  function Weights(f: seq<real>, t: real, p: real): (w: seq<real>)
    ensures |w| == |f|
  {
    seq(|f|, i requires 0 <= i < |f| => if f[i] > t - p then 2.0 else 1.0)
  }

  /** A lane of any schedule within t has weight at most 2 when every job exceeds t / 3. */
  lemma {:induction false} LaneWeightAtMost(f: seq<real>, lanes: seq<nat>, lane: nat, t: real, p: real)
    requires |lanes| == |f| && 3.0 * p > t >= 0.0 && forall i :: 0 <= i < |f| ==> f[i] >= p
    ensures
      var load, w := Load(f, lanes, lane), Load(Weights(f, t, p), lanes, lane);
      load >= 0.0 && (load <= t ==> (w == 0.0 && load == 0.0) || (w == 1.0 && load >= p) || (w == 2.0 && load > t - p))
  {
    if f == [] {
    } else {
      var n := |f| - 1;
      LaneWeightAtMost(f[..n], lanes[..n], lane, t, p);
      assert Weights(f, t, p)[..n] == Weights(f[..n], t, p);
    }
  }

  /** A lane loaded beyond t - p has weight at least 2. */
  lemma {:induction false} LaneWeightAtLeast(f: seq<real>, lanes: seq<nat>, lane: nat, t: real, p: real)
    requires |lanes| == |f| && NonNegative(f) && 0.0 <= p <= t
    ensures
      var load, w := Load(f, lanes, lane), Load(Weights(f, t, p), lanes, lane);
      (w == 0.0 && load == 0.0) || (w == 1.0 && load <= t - p) || w >= 2.0
  {
    if f == [] {
    } else {
      var n := |f| - 1;
      LaneWeightAtLeast(f[..n], lanes[..n], lane, t, p);
      assert Weights(f, t, p)[..n] == Weights(f[..n], t, p);
    }
  }

  /** If the last, smallest job exceeds t / 3 and some assignment meets t, the least loaded lane has room for it. */
  lemma LargeJobsFit(f: seq<real>, greedy: seq<nat>, other: seq<nat>, m: nat, t: real, least: real)
    requires |f| > 0 && NonNegative(f) && Descending(f)
    requires Assignment(greedy, |f| - 1, m) && Assignment(other, |f|, m)
    requires LoadsAtLeast(f[..|f| - 1], greedy, m, least) && LoadsAtMost(f, other, m, t)
    requires 3.0 * f[|f| - 1] > t
    ensures least + f[|f| - 1] <= t
  {
    var n := |f| - 1;
    var p := f[n];
    LoadNonNegative(f, other, other[n]);
    LoadNonNegative(f[..n], other[..n], other[n]);
    assert p <= Load(f, other, other[n]) <= t;
    if least + p > t {
      var w := Weights(f, t, p);
      assert w[..n] == Weights(f[..n], t, p);
      forall i: nat | i < m ensures Load(w, other, i) <= 2.0 { LaneWeightAtMost(f, other, i, t, p); }
      forall i: nat | i < m ensures Load(w[..n], greedy, i) >= 2.0 { LaneWeightAtLeast(f[..n], greedy, i, t, p); }
      SumOfBounded(w, other, m, 2.0);
      SumOfBounded(w[..n], greedy, m, 2.0);
      LoadsSumToTotal(w, other, m);
      LoadsSumToTotal(w[..n], greedy, m);
      assert false;
    }
  }

  lemma ProductNonNegative(a: real, b: real)
    requires a >= 0.0 && b >= 0.0
    ensures a * b >= 0.0
  {
  }

  lemma LptArithmetic(r: real, least: real, p: real, t: real)
    requires r >= 1.0 && t >= 0.0
    requires least + p <= t || (3.0 * p <= t && r * least <= r * t - p)
    ensures 3.0 * r * (least + p) <= (4.0 * r - 1.0) * t
  {
    ProductNonNegative(r - 1.0, t);
    if least + p <= t {
      ProductNonNegative(r, t - (least + p));
    } else {
      ProductNonNegative(r - 1.0, t - 3.0 * p);
      assert (4.0 * r - 1.0) * t == 3.0 * (r * t) + (r - 1.0) * t;
      assert 3.0 * r * (least + p) == 3.0 * (r * least) + 3.0 * (r * p);
    }
  }

  /** Placing one more job on the least loaded lane keeps within the bound. */
  lemma LptStep(f: seq<real>, greedy: seq<nat>, other: seq<nat>, m: nat, t: real, least: real)
    requires m > 0 && |f| > 0 && NonNegative(f) && Descending(f)
    requires Assignment(greedy, |f| - 1, m) && Assignment(other, |f|, m)
    requires LoadsAtLeast(f[..|f| - 1], greedy, m, least) && LoadsAtMost(f, other, m, t)
    ensures (3 * m) as real * (least + f[|f| - 1]) <= (4 * m - 1) as real * t
  {
    var n := |f| - 1;
    LoadNonNegative(f, other, 0);
    assert t >= 0.0;
    hide Load, Sum, LoadSum, LoadsAtMost, LoadsAtLeast, Descending;
    if 3.0 * f[n] > t {
      LargeJobsFit(f, greedy, other, m, t, least);
    } else {
      SumOfBounded(f[..n], greedy, m, least);
      LoadsSumToTotal(f[..n], greedy, m);
      SumOfBounded(f, other, m, t);
      LoadsSumToTotal(f, other, m);
    }
    LptArithmetic(m as real, least, f[n], t);
    assert (3 * m) as real == 3.0 * m as real && (4 * m - 1) as real == 4.0 * m as real - 1.0;
  }

  /** Every lane within the longest-first bound of every assignment that meets t. */
  ghost predicate WithinLpt(f: seq<real>, lanes: seq<real>, m: nat) {
    forall other, t :: Assignment(other, |f|, m) && LoadsAtMost(f, other, m, t) ==>
      forall i: nat :: i < |lanes| ==> (3 * m) as real * lanes[i] <= (4 * m - 1) as real * t
  }

  /** Every lane within the greedy bound: m * lane <= total + (m - 1) * largest. */
  ghost predicate WithinGreedy(f: seq<real>, lanes: seq<real>, m: nat, largest: real) {
    forall i: nat :: i < |lanes| ==> m as real * lanes[i] <= Sum(f) + (m as real - 1.0) * largest
  }

  /** The lanes carry exactly the loads of the assignment. */
  ghost predicate Carries(f: seq<real>, greedy: seq<nat>, lanes: seq<real>) {
    |greedy| == |f| && forall i: nat :: i < |lanes| ==> lanes[i] == Load(f, greedy, i)
  }

  /** The first of the lanes that carry least. */
  ghost predicate FirstLeast(f: seq<real>, greedy: seq<nat>, lane: nat, m: nat)
    requires |greedy| == |f|
  {
    && lane < m && (forall i: nat :: i < m ==> Load(f, greedy, lane) <= Load(f, greedy, i))
    && forall i: nat :: i < lane ==> Load(f, greedy, lane) < Load(f, greedy, i)
  }

  /** Each job, in order, on the first of the lanes that carry least by then: there is only one such assignment. */
  ghost predicate InTurn(f: seq<real>, greedy: seq<nat>, m: nat) {
    |greedy| == |f| && forall k: nat :: k < |f| ==> FirstLeast(f[..k], greedy[..k], greedy[k], m)
  }

  lemma InTurnStep(f: seq<real>, greedy: seq<nat>, lanes: seq<real>, best: nat)
    requires |f| > 0 && best < |lanes| && Carries(f[..|f| - 1], greedy, lanes) && InTurn(f[..|f| - 1], greedy, |lanes|)
    requires forall i: nat :: i < |lanes| ==> lanes[best] <= lanes[i]
    requires forall i: nat :: i < best ==> lanes[best] < lanes[i]
    ensures InTurn(f, greedy + [best], |lanes|)
  {
    var n, longer := |f| - 1, greedy + [best];
    assert longer[..n] == greedy && FirstLeast(f[..n], greedy, best, |lanes|);
    hide FirstLeast, Load;
    forall k: nat | k < n ensures FirstLeast(f[..k], longer[..k], longer[k], |lanes|) {
      assert f[..n][..k] == f[..k] && greedy[..k] == longer[..k];
    }
  }

  lemma {:induction false} InTurnUnique(f: seq<real>, a: seq<nat>, b: seq<nat>, m: nat, k: nat)
    requires InTurn(f, a, m) && InTurn(f, b, m) && k <= |f|
    ensures a[..k] == b[..k]
  {
    if k > 0 {
      InTurnUnique(f, a, b, m, k - 1);
      var p := k - 1;
      assert FirstLeast(f[..p], a[..p], a[p], m) && FirstLeast(f[..p], b[..p], b[p], m);
      assert a[p] == b[p];
      assert a[..k] == a[..p] + [a[p]] && b[..k] == b[..p] + [b[p]];
    }
  }

  lemma LptKept(f: seq<real>, greedy: seq<nat>, lanes: seq<real>, best: nat)
    requires |f| > 0 && NonNegative(f) && Descending(f) && best < |lanes|
    requires Assignment(greedy, |f| - 1, |lanes|) && Carries(f[..|f| - 1], greedy, lanes)
    requires forall i: nat :: i < |lanes| ==> lanes[best] <= lanes[i]
    requires WithinLpt(f[..|f| - 1], lanes, |lanes|)
    ensures WithinLpt(f, lanes[best := lanes[best] + f[|f| - 1]], |lanes|)
  {
    var n, m := |f| - 1, |lanes|;
    var next := lanes[best := lanes[best] + f[n]];
    forall other, t | Assignment(other, |f|, m) && LoadsAtMost(f, other, m, t)
      ensures forall i: nat :: i < m ==> (3 * m) as real * next[i] <= (4 * m - 1) as real * t
    {
      PrefixLoads(f, other, m, t);
      assert Assignment(other[..n], n, m);
      LptStep(f, greedy, other, m, t, lanes[best]);
    }
  }

  lemma GreedyKept(f: seq<real>, greedy: seq<nat>, lanes: seq<real>, best: nat, largest: real)
    requires |f| > 0 && NonNegative(f) && best < |lanes| && f[|f| - 1] <= largest
    requires Assignment(greedy, |f| - 1, |lanes|) && Carries(f[..|f| - 1], greedy, lanes)
    requires forall i: nat :: i < |lanes| ==> lanes[best] <= lanes[i]
    requires WithinGreedy(f[..|f| - 1], lanes, |lanes|, largest)
    ensures WithinGreedy(f, lanes[best := lanes[best] + f[|f| - 1]], |lanes|, largest)
  {
    var n, m, r := |f| - 1, |lanes|, |lanes| as real;
    SumOfBounded(f[..n], greedy, m, lanes[best]);
    LoadsSumToTotal(f[..n], greedy, m);
    assert r * (lanes[best] + f[n]) == r * lanes[best] + f[n] + (r - 1.0) * f[n];
    ProductNonNegative(r - 1.0, largest - f[n]);
    assert (r - 1.0) * (largest - f[n]) == (r - 1.0) * largest - (r - 1.0) * f[n];
  }

  lemma CarriesStep(f: seq<real>, greedy: seq<nat>, lanes: seq<real>, best: nat)
    requires |f| > 0 && best < |lanes| && Carries(f[..|f| - 1], greedy, lanes)
    ensures Carries(f, greedy + [best], lanes[best := lanes[best] + f[|f| - 1]])
  {
    assert (greedy + [best])[..|f| - 1] == greedy;
  }

  method LeastLoaded(lanes: array<real>) returns (best: nat)
    requires lanes.Length > 0
    ensures best < lanes.Length && forall i: nat :: i < lanes.Length ==> lanes[best] <= lanes[i]
    ensures forall i: nat :: i < best ==> lanes[best] < lanes[i]
  {
    best := 0;
    for i := 1 to lanes.Length
      invariant best < lanes.Length && forall j: nat :: j < i ==> lanes[best] <= lanes[j]
      invariant best < i && forall j: nat :: j < best ==> lanes[best] < lanes[j]
    {
      if lanes[i] < lanes[best] { best := i; }
    }
  }

  /** Put each job, in the given order, on the first least loaded lane. */
  method Schedule(jobs: seq<real>, m: nat) returns (lanes: array<real>, ghost greedy: seq<nat>)
    requires m > 0 && NonNegative(jobs) && Descending(jobs)
    ensures fresh(lanes) && lanes.Length == m
    ensures Assignment(greedy, |jobs|, m) && Carries(jobs, greedy, lanes[..]) && InTurn(jobs, greedy, m)
    ensures WithinLpt(jobs, lanes[..], m)
    ensures jobs != [] ==> WithinGreedy(jobs, lanes[..], m, jobs[0])
  {
    hide Load, Sum, InTurn, FirstLeast, Carries, WithinLpt, WithinGreedy;
    lanes := new real[m](_ => 0.0);
    greedy := [];
    ghost var largest := if jobs == [] then 0.0 else jobs[0];
    assert jobs[..0] == [];
    EmptyWithin(lanes[..], largest);
    for j := 0 to |jobs|
      invariant Assignment(greedy, j, m) && Carries(jobs[..j], greedy, lanes[..]) && InTurn(jobs[..j], greedy, m)
      invariant WithinLpt(jobs[..j], lanes[..], m) && WithinGreedy(jobs[..j], lanes[..], m, largest)
    {
      ghost var f, before := jobs[..j + 1], lanes[..];
      assert f[..j] == jobs[..j];
      var best := LeastLoaded(lanes);
      assert forall i: nat :: i < m ==> before[i] == lanes[i];
      LptKept(f, greedy, before, best);
      GreedyKept(f, greedy, before, best, largest);
      CarriesStep(f, greedy, before, best);
      InTurnStep(f, greedy, before, best);
      lanes[best] := lanes[best] + jobs[j];
      greedy := greedy + [best];
      assert lanes[..] == before[best := before[best] + f[j]];
    }
    assert jobs[..|jobs|] == jobs;
  }

  lemma EmptyWithin(lanes: seq<real>, largest: real)
    requires |lanes| > 0 && largest >= 0.0 && forall i :: 0 <= i < |lanes| ==> lanes[i] == 0.0
    ensures Carries([], [], lanes) && WithinLpt([], lanes, |lanes|) && WithinGreedy([], lanes, |lanes|, largest)
    ensures InTurn([], [], |lanes|)
  {
    var m := |lanes|;
    ProductNonNegative(m as real - 1.0, largest);
    forall other, t | Assignment(other, 0, m) && LoadsAtMost([], other, m, t)
      ensures forall i: nat :: i < m ==> (3 * m) as real * lanes[i] <= (4 * m - 1) as real * t
    {
      assert Load([], other, 0) <= t;
      ProductNonNegative((4 * m - 1) as real, t);
    }
  }

  method Largest(lanes: array<real>) returns (r: real)
    requires lanes.Length > 0
    ensures exists i :: 0 <= i < lanes.Length && r == lanes[i]
    ensures forall i :: 0 <= i < lanes.Length ==> lanes[i] <= r
  {
    r := lanes[0];
    for i := 1 to lanes.Length
      invariant exists j :: 0 <= j < lanes.Length && r == lanes[j]
      invariant forall j :: 0 <= j < i ==> lanes[j] <= r
    {
      if lanes[i] > r { r := lanes[i]; }
    }
  }

  predicate NotSmaller(x: real, y: real) { x >= y }

  /** Request sizes, largest first; without a range list the bytes are split evenly. */
  function Sizes(requests: nat, bytes: real, rangeBytes: seq<real>): (r: seq<real>) {
    if rangeBytes != [] then StableSort<real>(rangeBytes, NotSmaller)
    else if requests == 0 then []
    else seq(requests, _ => bytes / requests as real)
  }

  function Times(sizes: seq<real>, fixedMs: real, bytesPerMs: real): (r: seq<real>)
    requires bytesPerMs > 0.0
    ensures |r| == |sizes|
    ensures forall i :: 0 <= i < |r| ==> r[i] == fixedMs + sizes[i] / bytesPerMs
  {
    seq(|sizes|, i requires 0 <= i < |sizes| => fixedMs + sizes[i] / bytesPerMs)
  }

  // ---------- the total work ----------

  lemma SumAppend(f: seq<real>, x: real)
    ensures Sum(f + [x]) == Sum(f) + x
  {
    assert (f + [x])[..|f|] == f;
  }

  lemma {:induction false} SumWithout(f: seq<real>, k: nat)
    requires k < |f|
    ensures Sum(f) == Sum(f[..k] + f[k + 1..]) + f[k]
    decreases |f|
  {
    hide *;
    var n := |f| - 1;
    assert f == f[..n] + [f[n]];
    SumAppend(f[..n], f[n]);
    if k == n {
      assert f[..k] + f[k + 1..] == f[..n];
    } else {
      SumWithout(f[..n], k);
      var rest := f[..n][..k] + f[..n][k + 1..];
      assert f[..k] + f[k + 1..] == rest + [f[n]];
      SumAppend(rest, f[n]);
    }
  }

  lemma {:induction false} SumPermuted(a: seq<real>, b: seq<real>)
    requires multiset(a) == multiset(b)
    ensures Sum(a) == Sum(b)
  {
    if a == [] {
      assert b == [] by { assert |multiset(b)| == |b|; }
    } else {
      var n := |a| - 1;
      assert a == a[..n] + [a[n]];
      assert a[n] in multiset(b);
      var k :| 0 <= k < |b| && b[k] == a[n];
      assert b == b[..k] + [b[k]] + b[k + 1..];
      assert multiset(b[..k] + b[k + 1..]) == multiset(b) - multiset{a[n]};
      SumPermuted(a[..n], b[..k] + b[k + 1..]);
      SumWithout(b, k);
    }
  }

  /** What one lane takes for n requests of `total` bytes together. */
  function LaneTime(n: nat, fixedMs: real, total: real, bytesPerMs: real): real
    requires bytesPerMs > 0.0
  {
    n as real * fixedMs + total / bytesPerMs
  }

  lemma {:induction false} SumOfTimes(sizes: seq<real>, fixedMs: real, bytesPerMs: real)
    requires bytesPerMs > 0.0
    ensures Sum(Times(sizes, fixedMs, bytesPerMs)) == LaneTime(|sizes|, fixedMs, Sum(sizes), bytesPerMs)
  {
    if sizes == [] {
    } else {
      hide *;
      var n := |sizes| - 1;
      assert sizes == sizes[..n] + [sizes[n]];
      SumOfTimes(sizes[..n], fixedMs, bytesPerMs);
      SumAppend(sizes[..n], sizes[n]);
      var time := TimesLast(sizes, fixedMs, bytesPerMs);
      SumAppend(Times(sizes[..n], fixedMs, bytesPerMs), time);
      OneMore(n, fixedMs, Sum(sizes[..n]), sizes[n], bytesPerMs, time);
    }
  }

  lemma TimesLast(sizes: seq<real>, fixedMs: real, bytesPerMs: real) returns (time: real)
    requires bytesPerMs > 0.0 && sizes != []
    ensures time == fixedMs + sizes[|sizes| - 1] / bytesPerMs
    ensures Times(sizes, fixedMs, bytesPerMs) == Times(sizes[..|sizes| - 1], fixedMs, bytesPerMs) + [time]
  {
    time := fixedMs + sizes[|sizes| - 1] / bytesPerMs;
  }

  lemma OneMore(n: nat, fixedMs: real, sum: real, x: real, d: real, time: real)
    requires d > 0.0 && time == fixedMs + x / d
    ensures LaneTime(n, fixedMs, sum, d) + time == LaneTime(n + 1, fixedMs, sum + x, d)
  {
    assert (n + 1) as real * fixedMs == n as real * fixedMs + fixedMs;
    assert (sum + x) / d == sum / d + x / d;
  }

  lemma {:induction false} SumOfEqual(f: seq<real>, x: real)
    requires forall i :: 0 <= i < |f| ==> f[i] == x
    ensures Sum(f) == |f| as real * x
  {
    if f == [] {
    } else {
      SumOfEqual(f[..|f| - 1], x);
      assert |f| as real * x == (|f| - 1) as real * x + x;
    }
  }

  /** The sizes are the ranges from the largest down, or equal shares of the bytes: either way they add up to the bytes asked for. */
  lemma SizesMean(requests: nat, bytes: real, rangeBytes: seq<real>)
    requires requests > 0
    ensures
      var sizes := Sizes(requests, bytes, rangeBytes);
      && (rangeBytes != [] ==> multiset(sizes) == multiset(rangeBytes) && Sum(sizes) == Sum(rangeBytes))
      && (rangeBytes == [] ==> |sizes| == requests && Sum(sizes) == bytes)
  {
    var sizes := Sizes(requests, bytes, rangeBytes);
    if rangeBytes != [] {
      SumPermuted(sizes, rangeBytes);
    } else {
      SumOfEqual(sizes, bytes / requests as real);
      assert requests as real * (bytes / requests as real) == bytes;
    }
  }

  lemma {:induction false} SingleLane(f: seq<real>, lanes: seq<nat>)
    requires Assignment(lanes, |f|, 1)
    ensures Load(f, lanes, 0) == Sum(f)
  {
    LoadsSumToTotal(f, lanes, 1);
    assert LoadSum(f, lanes, 0) == 0.0;
  }

  lemma SizesDescend(requests: nat, bytes: real, rangeBytes: seq<real>)
    requires bytes >= 0.0 && NonNegative(rangeBytes)
    ensures Descending(Sizes(requests, bytes, rangeBytes)) && NonNegative(Sizes(requests, bytes, rangeBytes))
    ensures requests > 0 || rangeBytes != [] ==> Sizes(requests, bytes, rangeBytes) != []
  {
    var sizes := Sizes(requests, bytes, rangeBytes);
    if rangeBytes != [] {
      StableSortSorted<real>(rangeBytes, NotSmaller);
      SameElements(rangeBytes, sizes);
      forall i, j | 0 <= i < j < |sizes| ensures sizes[i] >= sizes[j] { assert NotSmaller(sizes[i], sizes[j]); }
      forall i | 0 <= i < |sizes| ensures sizes[i] >= 0.0 { assert sizes[i] in sizes && sizes[i] in rangeBytes; }
    }
  }

  lemma Quotients(a: real, b: real, c: real)
    requires c > 0.0 && a >= b >= 0.0
    ensures a / c >= b / c >= 0.0
  {
  }

  /** `r` is the longest lane of a schedule that carries all the jobs. */
  ghost predicate IsMakespan(jobs: seq<real>, greedy: seq<nat>, m: nat, r: real) {
    && Assignment(greedy, |jobs|, m) && LoadsAtMost(jobs, greedy, m, r)
    && exists i: nat :: i < m && r == Load(jobs, greedy, i)
  }

  /** Between the trivial lower bounds and the two approximation bounds. */
  ghost predicate WellBounded(jobs: seq<real>, m: nat, r: real) {
    && jobs != []
    && m as real * r >= Sum(jobs) && (forall i :: 0 <= i < |jobs| ==> r >= jobs[i])
    && m as real * r <= Sum(jobs) + (m as real - 1.0) * jobs[0]
    && forall other, t :: Assignment(other, |jobs|, m) && LoadsAtMost(jobs, other, m, t) ==>
         (3 * m) as real * r <= (4 * m - 1) as real * t
  }

  method Makespan(jobs: seq<real>, m: nat) returns (r: real, ghost greedy: seq<nat>)
    requires m > 0 && jobs != [] && NonNegative(jobs) && Descending(jobs)
    ensures IsMakespan(jobs, greedy, m, r) && WellBounded(jobs, m, r) && InTurn(jobs, greedy, m)
  {
    hide WithinLpt, WithinGreedy, Carries, Descending, InTurn;
    var lanes;
    lanes, greedy := Schedule(jobs, m);
    r := Largest(lanes);
    assert forall i :: 0 <= i < m ==> lanes[..][i] == lanes[i];
    MakespanBounds(jobs, greedy, lanes[..], r);
  }

  lemma MakespanBounds(jobs: seq<real>, greedy: seq<nat>, lanes: seq<real>, r: real)
    requires jobs != [] && NonNegative(jobs) && Assignment(greedy, |jobs|, |lanes|) && Carries(jobs, greedy, lanes)
    requires WithinLpt(jobs, lanes, |lanes|) && WithinGreedy(jobs, lanes, |lanes|, jobs[0])
    requires (exists i :: 0 <= i < |lanes| && r == lanes[i]) && forall i :: 0 <= i < |lanes| ==> lanes[i] <= r
    ensures IsMakespan(jobs, greedy, |lanes|, r) && WellBounded(jobs, |lanes|, r)
  {
    hide WithinLpt;
    hide WithinGreedy;
    hide Sum;
    hide Load;
    LongestLane(jobs, greedy, lanes, r);
    var k: nat :| k < |lanes| && r == lanes[k];
    LaneGreedy(jobs, lanes, k);
    LaneLpt(jobs, lanes, k);
  }

  lemma LaneGreedy(jobs: seq<real>, lanes: seq<real>, k: nat)
    requires jobs != [] && WithinGreedy(jobs, lanes, |lanes|, jobs[0]) && k < |lanes|
    ensures |lanes| as real * lanes[k] <= Sum(jobs) + (|lanes| as real - 1.0) * jobs[0]
  {
  }

  lemma LaneLpt(jobs: seq<real>, lanes: seq<real>, k: nat)
    requires WithinLpt(jobs, lanes, |lanes|) && k < |lanes|
    ensures forall other, t :: Assignment(other, |jobs|, |lanes|) && LoadsAtMost(jobs, other, |lanes|, t) ==>
      (3 * |lanes|) as real * lanes[k] <= (4 * |lanes| - 1) as real * t
  {
  }

  /** `roundLatencyMs` takes the bandwidth in MiB a second. */
  function BytesPerMs(bandwidthMiBps: real): (r: real)
    ensures bandwidthMiBps > 0.0 ==> r > 0.0
  {
    bandwidthMiBps * 1048576.0 / 1000.0
  }

  /**
   `roundLatencyMs`: zero without requests; otherwise each request takes the fixed time and its bytes over the bandwidth,
   the largest go first, each to the first lane free, and the answer is the longest lane. That is at least the mean work
   and the largest job, within the greedy bound, and within 4/3 - 1/(3m) of every assignment of the same jobs. One lane
   takes a fixed time for each request and all the bytes over the bandwidth.
   */
  method RoundLatencyMs(
    requests: nat, bytes: real, rangeBytes: seq<real>, fixedMs: real, bandwidthMiBps: real, parallelism: nat)
    returns (r: real, ghost sizes: seq<real>, ghost jobs: seq<real>, ghost greedy: seq<nat>)
    requires bandwidthMiBps > 0.0 && fixedMs >= 0.0 && bytes >= 0.0 && NonNegative(rangeBytes)
    ensures requests == 0 ==> r == 0.0
    ensures requests > 0 && rangeBytes != [] ==> multiset(sizes) == multiset(rangeBytes)
    ensures requests > 0 && rangeBytes == [] ==> |sizes| == requests && forall i :: 0 <= i < |sizes| ==> sizes[i] == bytes / requests as real
    ensures |jobs| == |sizes|
    ensures forall i :: 0 <= i < |jobs| ==> jobs[i] == fixedMs + sizes[i] / (bandwidthMiBps * 1048576.0 / 1000.0)
    ensures Descending(jobs)
    ensures requests > 0 ==>
      var m := if parallelism == 0 then 1 else parallelism;
      IsMakespan(jobs, greedy, m, r) && WellBounded(jobs, m, r) && InTurn(jobs, greedy, m)
    ensures requests > 0 && parallelism <= 1 ==>
      var n, total := if rangeBytes != [] then |rangeBytes| else requests, if rangeBytes != [] then Sum(rangeBytes) else bytes;
      r == n as real * fixedMs + total / (bandwidthMiBps * 1048576.0 / 1000.0)
  {
    hide IsMakespan, WellBounded, InTurn, StableSort, Sum;
    var bytesPerMs := BytesPerMs(bandwidthMiBps);
    var ordered := Sizes(requests, bytes, rangeBytes);
    var times := Times(ordered, fixedMs, bytesPerMs);
    sizes, jobs := ordered, times;
    greedy := [];
    TimesDescend(requests, bytes, rangeBytes, fixedMs, bytesPerMs);
    if requests == 0 { return 0.0, sizes, jobs, greedy; }
    r, greedy := Makespan(times, if parallelism == 0 then 1 else parallelism);
    SizesMean(requests, bytes, rangeBytes);
    SumOfTimes(ordered, fixedMs, bytesPerMs);
    if parallelism <= 1 { OneLane(times, greedy, r); }
    assert rangeBytes != [] ==> |ordered| == |rangeBytes|;
  }

  lemma OneLane(jobs: seq<real>, greedy: seq<nat>, r: real)
    requires IsMakespan(jobs, greedy, 1, r)
    ensures r == Sum(jobs)
  {
    SingleLane(jobs, greedy);
  }

  lemma TimesDescend(requests: nat, bytes: real, rangeBytes: seq<real>, fixedMs: real, bytesPerMs: real)
    requires bytesPerMs > 0.0 && fixedMs >= 0.0 && bytes >= 0.0 && NonNegative(rangeBytes)
    ensures
      var jobs := Times(Sizes(requests, bytes, rangeBytes), fixedMs, bytesPerMs);
      Descending(jobs) && NonNegative(jobs) && (requests > 0 ==> jobs != [])
  {
    var sizes := Sizes(requests, bytes, rangeBytes);
    var jobs := Times(sizes, fixedMs, bytesPerMs);
    SizesDescend(requests, bytes, rangeBytes);
    forall i, j | 0 <= i <= j < |jobs| ensures jobs[i] >= jobs[j] >= 0.0 { Quotients(sizes[i], sizes[j], bytesPerMs); }
  }

  lemma LongestLane(jobs: seq<real>, greedy: seq<nat>, lanes: seq<real>, r: real)
    requires NonNegative(jobs) && Assignment(greedy, |jobs|, |lanes|) && Carries(jobs, greedy, lanes)
    requires (exists i :: 0 <= i < |lanes| && r == lanes[i]) && forall i :: 0 <= i < |lanes| ==> lanes[i] <= r
    ensures LoadsAtMost(jobs, greedy, |lanes|, r) && exists i: nat :: i < |lanes| && r == Load(jobs, greedy, i)
    ensures |lanes| as real * r >= Sum(jobs) && forall i :: 0 <= i < |jobs| ==> r >= jobs[i]
  {
    var k :| 0 <= k < |lanes| && r == lanes[k];
    assert r == Load(jobs, greedy, k);
    assert LoadsAtMost(jobs, greedy, |lanes|, r);
    hide *;
    LongestCarries(jobs, greedy, |lanes|, r);
  }

  lemma LongestCarries(jobs: seq<real>, greedy: seq<nat>, m: nat, r: real)
    requires NonNegative(jobs) && Assignment(greedy, |jobs|, m) && LoadsAtMost(jobs, greedy, m, r)
    ensures m as real * r >= Sum(jobs) && forall i :: 0 <= i < |jobs| ==> r >= jobs[i]
  {
    SumOfBounded(jobs, greedy, m, r);
    LoadsSumToTotal(jobs, greedy, m);
    hide *;
    forall i | 0 <= i < |jobs| ensures r >= jobs[i] { JobWithinLane(jobs, greedy, m, r, i); }
  }

  lemma {:induction false} JobWithinLane(f: seq<real>, lanes: seq<nat>, m: nat, t: real, i: nat)
    requires Assignment(lanes, |f|, m) && NonNegative(f) && LoadsAtMost(f, lanes, m, t) && i < |f|
    ensures f[i] <= t
  {
    var n := |f| - 1;
    if i < n {
      PrefixLoads(f, lanes, m, t);
      JobWithinLane(f[..n], lanes[..n], m, t, i);
    } else {
      LoadNonNegative(f[..n], lanes[..n], lanes[n]);
      assert Load(f, lanes, lanes[n]) <= t;
    }
  }
}
