/** The built-in stable sort used throughout the layout tools and the search, as a function on sequences. */
module Sorting {

  ghost predicate TotalPreorder<T(!new)>(leq: (T, T) -> bool) {
    && (forall x, y :: leq(x, y) || leq(y, x))
    && (forall x, y, z :: leq(x, y) && leq(y, z) ==> leq(x, z))
  }

  ghost predicate SortedBy<T>(s: seq<T>, leq: (T, T) -> bool) {
    forall i, j :: 0 <= i < j < |s| ==> leq(s[i], s[j])
  }

  ghost predicate Distinct<T>(s: seq<T>) {
    forall i, j :: 0 <= i < j < |s| ==> s[i] != s[j]
  }

  function Elements<T>(s: seq<T>): set<T> {
    set x | x in s
  }

  function Insert<T>(x: T, s: seq<T>, leq: (T, T) -> bool): (r: seq<T>)
    ensures |r| == |s| + 1
    ensures multiset(r) == multiset(s) + multiset{x}
  {
    if s == [] then [x]
    else if leq(x, s[0]) then [x] + s
    else
      assert s == [s[0]] + s[1..];
      [s[0]] + Insert(x, s[1..], leq)
  }

  /** `[...s].sort(compare)`: elements that compare equal keep their order. */
  function StableSort<T>(s: seq<T>, leq: (T, T) -> bool): (r: seq<T>)
    ensures |r| == |s|
    ensures multiset(r) == multiset(s)
  {
    if s == [] then []
    else
      assert s == [s[0]] + s[1..];
      Insert(s[0], StableSort(s[1..], leq), leq)
  }

  lemma SameElements<T>(a: seq<T>, b: seq<T>)
    requires multiset(a) == multiset(b)
    ensures |a| == |b|
    ensures forall x :: x in a <==> x in b
  {
    assert |a| == |multiset(a)| && |b| == |multiset(b)|;
    forall x ensures x in a <==> x in b {
      assert x in a <==> x in multiset(a);
      assert x in b <==> x in multiset(b);
    }
  }

  lemma {:induction false} DistinctMultiplicity<T>(s: seq<T>)
    ensures Distinct(s) <==> forall x :: x in s ==> multiset(s)[x] == 1
  {
    if s == [] {
    } else {
      var t := s[1..];
      assert s == [s[0]] + t;
      DistinctMultiplicity(t);
      if Distinct(s) {
        assert s[0] !in t;
        assert Distinct(t);
      }
      if forall x :: x in s ==> multiset(s)[x] == 1 {
        assert s[0] in s && multiset(s)[s[0]] == 1 + multiset(t)[s[0]];
        assert s[0] !in t;
        forall x | x in t ensures multiset(t)[x] == 1 { assert x in s; }
      }
    }
  }

  lemma DistinctPermutation<T>(a: seq<T>, b: seq<T>)
    requires multiset(a) == multiset(b) && Distinct(a)
    ensures Distinct(b)
  {
    DistinctMultiplicity(a);
    DistinctMultiplicity(b);
    SameElements(a, b);
  }

  /** `before` orders equal elements by their position in the input. */
  ghost predicate Lexicographic<T>(s: seq<T>, leq: (T, T) -> bool, before: (T, T) -> bool) {
    forall i, j :: 0 <= i < j < |s| ==> leq(s[i], s[j]) && (leq(s[j], s[i]) ==> before(s[i], s[j]))
  }

  ghost predicate Precedes<T(!new)>(x: T, y: T, leq: (T, T) -> bool, before: (T, T) -> bool) {
    leq(x, y) && (leq(y, x) ==> before(x, y))
  }

  lemma PrependLexicographic<T(!new)>(x: T, s: seq<T>, leq: (T, T) -> bool, before: (T, T) -> bool)
    requires Lexicographic(s, leq, before)
    requires forall y :: y in s ==> Precedes(x, y, leq, before)
    ensures Lexicographic([x] + s, leq, before)
  {
    var r := [x] + s;
    forall i, j | 0 <= i < j < |r| ensures Precedes(r[i], r[j], leq, before) {
      assert r[j] == s[j - 1] && r[j] in s;
      if i > 0 { assert r[i] == s[i - 1]; }
    }
  }

  lemma HeadPrecedes<T(!new)>(s: seq<T>, leq: (T, T) -> bool, before: (T, T) -> bool)
    requires s != [] && Lexicographic(s, leq, before)
    ensures Lexicographic(s[1..], leq, before)
    ensures forall y :: y in s[1..] ==> Precedes(s[0], y, leq, before)
  {
    var t := s[1..];
    forall i, j | 0 <= i < j < |t| ensures Precedes(t[i], t[j], leq, before) {
      assert t[i] == s[i + 1] && t[j] == s[j + 1];
    }
  }

  lemma {:induction false} InsertLexicographic<T(!new)>(x: T, s: seq<T>, leq: (T, T) -> bool, before: (T, T) -> bool)
    requires TotalPreorder(leq) && Lexicographic(s, leq, before)
    requires forall y :: y in s ==> before(x, y)
    ensures Lexicographic(Insert(x, s, leq), leq, before)
  {
    if s == [] {
      PrependLexicographic(x, s, leq, before);
    } else {
      HeadPrecedes(s, leq, before);
      var t := s[1..];
      assert s == [s[0]] + t;
      if leq(x, s[0]) {
        forall y | y in s ensures Precedes(x, y, leq, before) {
          assert y == s[0] || y in t;
        }
        PrependLexicographic(x, s, leq, before);
      } else {
        InsertLexicographic(x, t, leq, before);
        var u := Insert(x, t, leq);
        forall y | y in u ensures Precedes(s[0], y, leq, before) {
          assert y in multiset(u);
          assert y == x || y in t;
        }
        PrependLexicographic(s[0], u, leq, before);
      }
    }
  }

  /** The sort orders by `leq` and keeps input order among equals: what "stable" means. */
  lemma {:induction false} StableSortLexicographic<T(!new)>(s: seq<T>, leq: (T, T) -> bool, before: (T, T) -> bool)
    requires TotalPreorder(leq)
    requires forall i, j :: 0 <= i < j < |s| ==> before(s[i], s[j])
    ensures Lexicographic(StableSort(s, leq), leq, before)
  {
    if s == [] {
    } else {
      var t := s[1..];
      assert forall i, j :: 0 <= i < j < |t| ==> t[i] == s[i + 1] && t[j] == s[j + 1];
      StableSortLexicographic(t, leq, before);
      var u := StableSort(t, leq);
      SameElements(u, t);
      forall y | y in u ensures before(s[0], y) {
        var k :| 0 <= k < |t| && t[k] == y;
        assert s[k + 1] == y;
      }
      InsertLexicographic(s[0], u, leq, before);
    }
  }

  lemma StableSortSorted<T(!new)>(s: seq<T>, leq: (T, T) -> bool)
    requires TotalPreorder(leq)
    ensures SortedBy(StableSort(s, leq), leq)
  {
    StableSortLexicographic(s, leq, (x, y) => true);
  }
}
