/** Finite sets of node ids, and what it means for a bounded list to hold the nearest of them. */
module Finite {
  import opened Sorting

  ghost function Below(n: nat): (r: set<nat>)
    ensures forall x: nat :: x in r <==> x < n
  {
    if n == 0 then {} else Below(n - 1) + {n - 1}
  }

  lemma {:induction false} BelowSize(n: nat)
    ensures |Below(n)| == n
  {
    if n == 0 {
    } else {
      BelowSize(n - 1);
    }
  }

  lemma {:induction false} SubsetSize<T>(a: set<T>, b: set<T>)
    requires a <= b
    ensures |a| <= |b|
    ensures |a| == |b| ==> a == b
    ensures a != b ==> |a| < |b|
    decreases a
  {
    if a == {} {
      if b != {} { var y :| y in b; assert |b| > 0; }
    } else {
      var x :| x in a;
      SubsetSize(a - {x}, b - {x});
      assert a == (a - {x}) + {x} && b == (b - {x}) + {x};
    }
  }

  lemma BoundedSize(a: set<nat>, n: nat)
    requires a <= Below(n)
    ensures |a| <= n
    ensures |a| == n ==> a == Below(n)
  {
    BelowSize(n);
    SubsetSize(a, Below(n));
  }

  lemma {:induction false} DistinctSize<T>(s: seq<T>)
    requires Distinct(s)
    ensures |Elements(s)| == |s|
  {
    if s == [] {
    } else {
      var last := s[|s| - 1];
      var front := s[..|s| - 1];
      DistinctSize(front);
      assert Elements(s) == Elements(front) + {last};
      assert last !in front;
    }
  }

  lemma Pigeonhole(s: seq<nat>, n: nat)
    requires Distinct(s) && forall i :: 0 <= i < |s| ==> s[i] < n
    ensures |s| <= n
  {
    DistinctSize(s);
    BoundedSize(Elements(s), n);
  }

  function Upto(n: nat): (r: seq<nat>)
    ensures |r| == n && forall i :: 0 <= i < n ==> r[i] == i
  {
    seq(n, i requires 0 <= i => i)
  }

  /** `s` lists 0..n-1, each once. */
  ghost predicate IsPermutation(s: seq<nat>, n: nat) {
    |s| == n && Distinct(s) && forall i :: 0 <= i < n ==> s[i] < n
  }

  lemma PermutationHitsAll(s: seq<nat>, n: nat)
    requires IsPermutation(s, n)
    ensures forall x: nat :: x < n ==> x in s
  {
    DistinctSize(s);
    assert Elements(s) <= Below(n);
    BoundedSize(Elements(s), n);
    forall x: nat | x < n ensures x in s {
      assert x in Below(n) && x in Elements(s);
    }
  }

  function Min(a: nat, b: nat): nat { if a < b then a else b }

  function Max(a: nat, b: nat): nat { if a < b then b else a }

  /** `kept` holds the `capacity` nearest of `seen`: as many as fit, and nothing left out is nearer than anything kept. */
  ghost predicate Nearest(kept: set<nat>, seen: set<nat>, dist: nat -> real, capacity: nat) {
    && kept <= seen
    && |kept| == Min(capacity, |seen|)
    && forall u, v :: u in seen - kept && v in kept ==> dist(v) <= dist(u)
  }

  /** Adding to the list and dropping the farthest keeps the nearest. */
  lemma NearestAfterSwap(kept: set<nat>, seen: set<nat>, n: nat, out: nat, dist: nat -> real, capacity: nat)
    requires Nearest(kept, seen, dist, capacity) && |kept| == capacity && n !in seen && out in kept + {n}
    requires forall v :: v in kept + {n} ==> dist(v) <= dist(out)
    requires forall u :: u in seen - kept ==> dist(out) <= dist(u)
    ensures Nearest(kept + {n} - {out}, seen + {n}, dist, capacity)
  {
    assert |kept + {n}| == |kept| + 1 && |seen + {n}| == |seen| + 1;
    assert |kept + {n} - {out}| == |kept|;
  }

  lemma NearestAfterAdd(kept: set<nat>, seen: set<nat>, n: nat, dist: nat -> real, capacity: nat)
    requires Nearest(kept, seen, dist, capacity) && |kept| < capacity && n !in seen
    ensures Nearest(kept + {n}, seen + {n}, dist, capacity)
  {
    SubsetSize(kept, seen);
    assert kept == seen;
  }

  lemma NearestAfterSkip(kept: set<nat>, seen: set<nat>, n: nat, dist: nat -> real, capacity: nat)
    requires Nearest(kept, seen, dist, capacity) && |kept| == capacity && n !in seen
    requires forall v :: v in kept ==> dist(v) <= dist(n)
    ensures Nearest(kept, seen + {n}, dist, capacity)
  {
    SubsetSize(kept, seen);
  }

  ghost function Within(s: set<nat>, dist: nat -> real, t: real): set<nat> {
    set x | x in s && dist(x) <= t
  }

  /** Up to ties the nearest are unique: at every threshold the count is forced to min(capacity, seen within it). */
  lemma NearestCountsForced(kept: set<nat>, seen: set<nat>, dist: nat -> real, capacity: nat, t: real)
    requires Nearest(kept, seen, dist, capacity)
    ensures |Within(kept, dist, t)| == Min(capacity, |Within(seen, dist, t)|)
  {
    var k, s := Within(kept, dist, t), Within(seen, dist, t);
    SubsetSize(k, s);
    SubsetSize(k, kept);
    SubsetSize(s, seen);
    if s <= k {
      assert s == k;
    } else {
      var u :| u in s && u !in k;
      assert u in seen - kept;
      SubsetSize(kept, seen);
      assert k == kept;
    }
  }
}
