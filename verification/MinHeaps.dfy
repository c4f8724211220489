/**
 The binary heap both searches use for their candidate and result lists. `Up` and `Down` move a hole
 through the array exactly as the source does, so the array contents, not just the element set, are
 determined: that is what lets one search be compared with the other step by step.
 */
module MinHeaps {
  import opened Wrappers
  import opened Sorting

  ghost predicate Ordering<T(!new)>(compare: (T, T) -> real) {
    && (forall x, y :: compare(x, y) < 0.0 <==> compare(y, x) > 0.0)
    && (forall x, y, z :: compare(x, y) <= 0.0 && compare(y, z) <= 0.0 ==> compare(x, z) <= 0.0)
  }

  function Parent(i: nat): nat
    requires i > 0
  {
    (i - 1) / 2
  }

  function Up<T>(a: seq<T>, i: nat, x: T, compare: (T, T) -> real): (r: seq<T>)
    requires i < |a|
    ensures |r| == |a|
    decreases i
  {
    if i == 0 || compare(a[Parent(i)], x) <= 0.0 then a[i := x]
    else Up(a[i := a[Parent(i)]], Parent(i), x, compare)
  }

  lemma {:induction false} UpPermutes<T>(a: seq<T>, i: nat, x: T, compare: (T, T) -> real)
    requires i < |a|
    ensures multiset(Up(a, i, x, compare)) == multiset(a[i := x])
    decreases i
  {
    if i > 0 && compare(a[Parent(i)], x) > 0.0 {
      var p := Parent(i);
      UpPermutes(a[i := a[p]], p, x, compare);
      assert multiset(a[i := a[p]][p := x]) == multiset(a[i := x]);
    }
  }

  function Smaller<T>(a: seq<T>, i: nat, compare: (T, T) -> real): (c: nat)
    requires 2 * i + 1 < |a|
    ensures c == 2 * i + 1 || c == 2 * i + 2
    ensures c < |a|
  {
    var c := 2 * i + 1;
    if c + 1 < |a| && compare(a[c + 1], a[c]) < 0.0 then c + 1 else c
  }

  function Down<T>(a: seq<T>, i: nat, x: T, compare: (T, T) -> real): (r: seq<T>)
    requires i < |a|
    ensures |r| == |a|
    decreases |a| - i
  {
    if 2 * i + 1 >= |a| then a[i := x]
    else
      var c := Smaller(a, i, compare);
      if compare(a[c], x) >= 0.0 then a[i := x] else Down(a[i := a[c]], c, x, compare)
  }

  lemma {:induction false} DownPermutes<T>(a: seq<T>, i: nat, x: T, compare: (T, T) -> real)
    requires i < |a|
    ensures multiset(Down(a, i, x, compare)) == multiset(a[i := x])
    decreases |a| - i
  {
    if 2 * i + 1 < |a| {
      var c := Smaller(a, i, compare);
      if compare(a[c], x) < 0.0 {
        DownPermutes(a[i := a[c]], c, x, compare);
        assert multiset(a[i := a[c]][c := x]) == multiset(a[i := x]);
      }
    }
  }

  lemma DownStep<T>(a: seq<T>, i: nat, x: T, compare: (T, T) -> real)
    requires 2 * i + 1 < |a|
    ensures
      var c := Smaller(a, i, compare);
      Down(a, i, x, compare) == if compare(a[c], x) >= 0.0 then a[i := x] else Down(a[i := a[c]], c, x, compare)
  {
  }

  function Pushed<T>(a: seq<T>, x: T, compare: (T, T) -> real): (r: seq<T>)
    ensures multiset(r) == multiset(a) + multiset{x}
    ensures |r| == |a| + 1
  {
    assert (a + [x])[|a| := x] == a + [x];
    UpPermutes(a + [x], |a|, x, compare);
    Up(a + [x], |a|, x, compare)
  }

  function Popped<T>(a: seq<T>, compare: (T, T) -> real): (r: seq<T>)
    requires a != []
    ensures multiset(r) == multiset(a) - multiset{a[0]}
    ensures |r| == |a| - 1
  {
    var x := a[|a| - 1];
    var rest := a[..|a| - 1];
    assert a == rest + [x];
    if rest == [] then []
    else
      assert rest == [a[0]] + rest[1..];
      assert rest[0 := x] == [x] + rest[1..];
      DownPermutes(rest, 0, x, compare);
      Down(rest, 0, x, compare)
  }

  ghost predicate IsHeap<T>(a: seq<T>, compare: (T, T) -> real) {
    forall j: nat :: 0 < j < |a| ==> compare(a[Parent(j)], a[j]) <= 0.0
  }

  /** Heap order everywhere except around the hole `i`, across which order still holds. */
  ghost predicate HeapAround<T>(a: seq<T>, i: nat, compare: (T, T) -> real) {
    && (forall j: nat :: 0 < j < |a| && j != i && Parent(j) != i ==> compare(a[Parent(j)], a[j]) <= 0.0)
    && (i > 0 ==> forall j: nat :: 0 < j < |a| && Parent(j) == i ==> Parent(i) < |a| && compare(a[Parent(i)], a[j]) <= 0.0)
  }

  lemma {:induction false} UpHeap<T(!new)>(a: seq<T>, i: nat, x: T, compare: (T, T) -> real)
    requires Ordering(compare) && i < |a| && HeapAround(a, i, compare)
    requires forall j: nat :: 0 < j < |a| && Parent(j) == i ==> compare(x, a[j]) <= 0.0
    ensures IsHeap(Up(a, i, x, compare), compare)
    decreases i
  {
    if i > 0 && compare(a[Parent(i)], x) > 0.0 {
      var p := Parent(i);
      HoleMovesUp(a, i, x, compare);
      UpHeap(a[i := a[p]], p, x, compare);
    }
  }

  lemma HoleMovesUp<T(!new)>(a: seq<T>, i: nat, x: T, compare: (T, T) -> real)
    requires Ordering(compare) && 0 < i < |a| && HeapAround(a, i, compare) && compare(a[Parent(i)], x) > 0.0
    requires forall j: nat :: 0 < j < |a| && Parent(j) == i ==> compare(x, a[j]) <= 0.0
    ensures HeapAround(a[i := a[Parent(i)]], Parent(i), compare)
    ensures forall j: nat :: 0 < j < |a| && Parent(j) == Parent(i) ==> compare(x, a[i := a[Parent(i)]][j]) <= 0.0
  {
    var p := Parent(i);
    var b := a[i := a[p]];
    forall j: nat | 0 < j < |b| && Parent(j) == p ensures compare(x, b[j]) <= 0.0 {
      if j != i { assert compare(a[p], a[j]) <= 0.0; }
    }
    if p > 0 {
      forall j: nat | 0 < j < |b| && Parent(j) == p ensures compare(b[Parent(p)], b[j]) <= 0.0 {
        assert compare(a[Parent(p)], a[p]) <= 0.0;
        if j != i { assert compare(a[p], a[j]) <= 0.0; }
      }
    }
  }

  lemma SmallerLeast<T(!new)>(a: seq<T>, i: nat, j: nat, compare: (T, T) -> real)
    requires Ordering(compare) && 0 < j < |a| && Parent(j) == i
    ensures compare(a[Smaller(a, i, compare)], a[j]) <= 0.0
  {
    assert j == 2 * i + 1 || j == 2 * i + 2;
    assert !(compare(a[j], a[j]) > 0.0);
  }

  lemma HoleDown<T(!new)>(a: seq<T>, i: nat, compare: (T, T) -> real)
    requires Ordering(compare) && 2 * i + 1 < |a| && HeapAround(a, i, compare)
    ensures var c := Smaller(a, i, compare); HeapAround(a[i := a[c]], c, compare)
  {
    var c := Smaller(a, i, compare);
    var b := a[i := a[c]];
    assert Parent(c) == i;
    forall j: nat | 0 < j < |b| && j != c && Parent(j) != c ensures compare(b[Parent(j)], b[j]) <= 0.0 {
      if Parent(j) == i {
        SmallerLeast(a, i, j, compare);
      } else if j == i {
        assert compare(a[Parent(i)], a[c]) <= 0.0;
      }
    }
  }

  lemma {:induction false} DownHeap<T(!new)>(a: seq<T>, i: nat, x: T, compare: (T, T) -> real)
    requires Ordering(compare) && i < |a| && HeapAround(a, i, compare)
    requires i > 0 ==> compare(a[Parent(i)], x) <= 0.0
    ensures IsHeap(Down(a, i, x, compare), compare)
    decreases |a| - i
  {
    if 2 * i + 1 < |a| && compare(a[Smaller(a, i, compare)], x) < 0.0 {
      HoleDown(a, i, compare);
      var c := Smaller(a, i, compare);
      DownHeap(a[i := a[c]], c, x, compare);
    } else {
      forall j: nat | 0 < j < |a| && Parent(j) == i ensures compare(x, a[j]) <= 0.0 {
        SmallerLeast(a, i, j, compare);
      }
    }
  }

  lemma PushedHeap<T(!new)>(a: seq<T>, x: T, compare: (T, T) -> real)
    requires Ordering(compare) && IsHeap(a, compare)
    ensures IsHeap(Pushed(a, x, compare), compare)
  {
    UpHeap(a + [x], |a|, x, compare);
  }

  lemma PoppedHeap<T(!new)>(a: seq<T>, compare: (T, T) -> real)
    requires Ordering(compare) && IsHeap(a, compare) && a != []
    ensures IsHeap(Popped(a, compare), compare)
  {
    if |a| > 1 {
      DownHeap(a[..|a| - 1], 0, a[|a| - 1], compare);
    }
  }

  lemma {:induction false} RootBelow<T(!new)>(a: seq<T>, i: nat, compare: (T, T) -> real)
    requires Ordering(compare) && IsHeap(a, compare) && i < |a|
    ensures compare(a[0], a[i]) <= 0.0
  {
    if i == 0 {
      assert !(compare(a[0], a[0]) > 0.0);
    } else {
      RootBelow(a, Parent(i), compare);
    }
  }

  lemma RootLeast<T(!new)>(a: seq<T>, compare: (T, T) -> real)
    requires Ordering(compare) && IsHeap(a, compare) && a != []
    ensures forall x :: x in a ==> compare(a[0], x) <= 0.0
  {
    forall i: nat | i < |a| ensures compare(a[0], a[i]) <= 0.0 { RootBelow(a, i, compare); }
  }

  function FromPushes<T>(xs: seq<T>, compare: (T, T) -> real): (r: seq<T>)
    ensures multiset(r) == multiset(xs)
  {
    if xs == [] then []
    else
      assert xs == xs[..|xs| - 1] + [xs[|xs| - 1]];
      Pushed(FromPushes(xs[..|xs| - 1], compare), xs[|xs| - 1], compare)
  }

  function Drained<T>(a: seq<T>, compare: (T, T) -> real): (r: seq<T>)
    ensures multiset(r) == multiset(a)
    decreases |a|
  {
    if a == [] then []
    else
      var rest := Drained(Popped(a, compare), compare);
      assert multiset([a[0]] + rest) == multiset{a[0]} + multiset(rest);
      assert a[0] in multiset(a);
      [a[0]] + rest
  }

  lemma {:induction false} FromPushesHeap<T(!new)>(xs: seq<T>, compare: (T, T) -> real)
    requires Ordering(compare)
    ensures IsHeap(FromPushes(xs, compare), compare)
  {
    if xs == [] {
    } else {
      FromPushesHeap(xs[..|xs| - 1], compare);
      PushedHeap(FromPushes(xs[..|xs| - 1], compare), xs[|xs| - 1], compare);
    }
  }

  lemma {:induction false} DrainedSorted<T(!new)>(a: seq<T>, compare: (T, T) -> real)
    requires Ordering(compare) && IsHeap(a, compare)
    ensures SortedBy(Drained(a, compare), (x, y) => compare(x, y) <= 0.0)
    decreases |a|
  {
    if a == [] {
    } else {
      PoppedHeap(a, compare);
      DrainedSorted(Popped(a, compare), compare);
      RootLeast(a, compare);
      var rest := Drained(Popped(a, compare), compare);
      hide IsHeap, Ordering, Popped;
      forall y | y in rest ensures compare(a[0], y) <= 0.0 {
        assert y in multiset(rest) && y in multiset(a);
      }
      PrependLeast(a[0], rest, compare);
    }
  }

  lemma PrependLeast<T>(x: T, rest: seq<T>, compare: (T, T) -> real)
    requires SortedBy(rest, (x, y) => compare(x, y) <= 0.0) && forall y :: y in rest ==> compare(x, y) <= 0.0
    ensures SortedBy([x] + rest, (x, y) => compare(x, y) <= 0.0)
  {
    var r := [x] + rest;
    forall i, j | 0 <= i < j < |r| ensures compare(r[i], r[j]) <= 0.0 {
      assert r[j] == rest[j - 1] && r[j] in rest;
      if i > 0 { assert r[i] == rest[i - 1]; }
    }
  }

  /** Pushing any elements in any order and popping them all is a sort, for every comparator. */
  lemma HeapSorts<T(!new)>(xs: seq<T>, compare: (T, T) -> real)
    requires Ordering(compare)
    ensures SortedBy(Drained(FromPushes(xs, compare), compare), (x, y) => compare(x, y) <= 0.0)
    ensures multiset(Drained(FromPushes(xs, compare), compare)) == multiset(xs)
  {
    FromPushesHeap(xs, compare);
    DrainedSorted(FromPushes(xs, compare), compare);
  }

  lemma OrderingTotal<T(!new)>(compare: (T, T) -> real)
    requires Ordering(compare)
    ensures TotalPreorder((x: T, y: T) => compare(x, y) <= 0.0)
  {
    forall x, y ensures compare(x, y) <= 0.0 || compare(y, x) <= 0.0 {
      assert compare(x, y) > 0.0 ==> compare(y, x) < 0.0;
    }
  }

  class MinHeap<T(!new)> {
    const compare: (T, T) -> real
    var a: seq<T>

    constructor (compare: (T, T) -> real)
      ensures this.compare == compare && a == []
    {
      this.compare := compare;
      a := [];
    }

    method Push(x: T)
      modifies this`a
      ensures a == Pushed(old(a), x, compare)
    {
      a := a + [x];
      SiftUp(|a| - 1);
      assert old(a) + [x] == (old(a) + [x])[|old(a)| := x];
    }

    method SiftUp(start: nat)
      requires start < |a|
      modifies this`a
      ensures a == Up(old(a), start, old(a)[start], compare)
    {
      var i: nat, x := start, a[start];
      while i > 0
        invariant i < |a|
        invariant Up(a, i, x, compare) == Up(old(a), start, old(a)[start], compare)
      {
        var p := (i - 1) / 2;
        if compare(a[p], x) <= 0.0 { break; }
        a := a[i := a[p]];
        i := p;
      }
      a := a[i := x];
    }

    /** An empty heap gives no value and stays empty. */
    method Pop() returns (top: Option<T>)
      modifies this`a
      ensures top == if old(a) == [] then None else Some(old(a)[0])
      ensures a == if old(a) == [] then [] else Popped(old(a), compare)
    {
      if |a| == 0 { return None; }
      top := Some(a[0]);
      var x := a[|a| - 1];
      a := a[..|a| - 1];
      if |a| > 0 {
        SiftDown(x);
      }
    }

    method SiftDown(x: T)
      requires a != []
      modifies this`a
      ensures a == Down(old(a), 0, x, compare)
    {
      ghost var result := Down(a, 0, x, compare);
      var i: nat := 0;
      while true
        invariant i < |a| && Down(a, i, x, compare) == result
        decreases |a| - i
      {
        var c := i * 2 + 1;
        if c >= |a| { break; }
        if c + 1 < |a| && compare(a[c + 1], a[c]) < 0.0 { c := c + 1; }
        assert c == Smaller(a, i, compare);
        DownStep(a, i, x, compare);
        if compare(a[c], x) >= 0.0 { break; }
        a := a[i := a[c]];
        i := c;
      }
      a := a[i := x];
    }

    /** `sorted()`: a sorted copy; the heap itself is not touched. */
    method Sorted() returns (r: seq<T>)
      ensures r == StableSort(a, (x, y) => compare(x, y) <= 0.0) && multiset(r) == multiset(a)
      ensures Ordering(compare) ==> SortedBy(r, (x, y) => compare(x, y) <= 0.0)
    {
      var leq := (x: T, y: T) => compare(x, y) <= 0.0;
      r := StableSort(a, leq);
      if Ordering(compare) {
        OrderingTotal(compare);
        StableSortSorted(a, leq);
      }
    }
  }
}
