/** The rank-sum ranking score of the student trainer, against counting ordered pairs. */
module RankAuc {
  import opened Sorting
  import opened Finite

  /** `values[labels == wanted]` */
  function Masked<T>(values: seq<T>, labels: seq<nat>, wanted: nat): (r: seq<T>)
    requires |values| == |labels|
  {
    if values == [] then []
    else
      var n := |values| - 1;
      Masked(values[..n], labels[..n], wanted) + if labels[n] == wanted then [values[n]] else []
  }

  function Sum(s: seq<nat>): nat {
    if s == [] then 0 else Sum(s[..|s| - 1]) + s[|s| - 1]
  }

  function At(scores: seq<real>, i: nat): real {
    if i < |scores| then scores[i] else 0.0
  }

  function NotAfter(scores: seq<real>): (nat, nat) -> bool {
    (i: nat, j: nat) => At(scores, i) <= At(scores, j)
  }

  function Order(scores: seq<real>): seq<nat> {
    StableSort<nat>(Upto(|scores|), NotAfter(scores))
  }

  /** `ranks[order] = 1, 2, ...`, after its first k assignments. */
  function Ranks(order: seq<nat>, k: nat, n: nat): (r: seq<nat>)
    requires k <= |order| && forall m :: 0 <= m < |order| ==> order[m] < n
    ensures |r| == n
  {
    if k == 0 then seq(n, _ => 0) else Ranks(order, k - 1, n)[order[k - 1] := k]
  }

  predicate Binary(labels: seq<nat>) {
    forall i :: 0 <= i < |labels| ==> labels[i] == 0 || labels[i] == 1
  }

  lemma OrderIsPermutation(scores: seq<real>)
    ensures IsPermutation(Order(scores), |scores|)
  {
    DistinctPermutation<nat>(Upto(|scores|), Order(scores));
    SameElements<nat>(Upto(|scores|), Order(scores));
    forall k | 0 <= k < |Order(scores)| ensures Order(scores)[k] < |scores| {
      assert Order(scores)[k] in Upto(|scores|);
    }
  }

  function RankSum(labels: seq<nat>, scores: seq<real>): nat
    requires |labels| == |scores|
  {
    OrderIsPermutation(scores);
    Sum(Masked(Ranks(Order(scores), |scores|, |scores|), labels, 1))
  }

  function AucScore(labels: seq<nat>, scores: seq<real>): real
    requires |labels| == |scores|
  {
    var p, n := |Masked(scores, labels, 1)|, |Masked(scores, labels, 0)|;
    Share(RankSum(labels, scores), p, n)
  }

  function Share(rankSum: nat, p: nat, n: nat): real {
    if p == 0 || n == 0 then 0.0 else (rankSum as real - (p * (p + 1)) as real / 2.0) / (p * n) as real
  }

  // ---- Counting ----

  /** The ids of `s` that carry the label. */
  ghost function Labelled(labels: seq<nat>, s: set<nat>, wanted: nat): set<nat> {
    set i | i in s && i < |labels| && labels[i] == wanted
  }

  predicate Later(scores: seq<real>, i: nat, j: nat) {
    At(scores, i) > At(scores, j) || (At(scores, i) == At(scores, j) && i > j)
  }

  /** Pairs of a positive and a negative, the positive later in the stable order. */
  ghost function Pairs(labels: seq<nat>, scores: seq<real>, s: set<nat>): set<(nat, nat)> {
    set i, j | i in Labelled(labels, s, 1) && j in Labelled(labels, s, 0) && Later(scores, i, j) :: (i, j)
  }

  ghost function Beside(i: nat, s: set<nat>): (r: set<(nat, nat)>) {
    set j | j in s :: (i, j)
  }

  lemma {:induction false} BesideSize(i: nat, s: set<nat>)
    ensures |Beside(i, s)| == |s|
  {
    if s == {} {
      assert Beside(i, s) == {};
    } else {
      var j :| j in s;
      BesideSize(i, s - {j});
      assert Beside(i, s) == Beside(i, s - {j}) + {(i, j)};
    }
  }

  /** What the stable sort gives: each id is later than all before it. */
  lemma OrderIsLater(scores: seq<real>, a: nat, b: nat)
    requires a < b < |scores|
    ensures Later(scores, Order(scores)[b], Order(scores)[a])
  {
    var leq := NotAfter(scores);
    StableSortLexicographic<nat>(Upto(|scores|), leq, (i, j) => i < j);
    var order := Order(scores);
    assert leq(order[a], order[b]) && (leq(order[b], order[a]) ==> order[a] < order[b]);
  }

  ghost predicate AllEarlier(scores: seq<real>, s: set<nat>, x: nat) {
    x !in s && forall y :: y in s ==> Later(scores, x, y)
  }

  lemma PairsAfterPositive(labels: seq<nat>, scores: seq<real>, s: set<nat>, x: nat)
    requires AllEarlier(scores, s, x) && x < |labels| && labels[x] == 1
    ensures |Pairs(labels, scores, s + {x})| == |Pairs(labels, scores, s)| + |Labelled(labels, s, 0)|
    ensures |Labelled(labels, s + {x}, 1)| == |Labelled(labels, s, 1)| + 1
    ensures Labelled(labels, s + {x}, 0) == Labelled(labels, s, 0)
  {
    assert Labelled(labels, s + {x}, 1) == Labelled(labels, s, 1) + {x};
    assert Labelled(labels, s + {x}, 0) == Labelled(labels, s, 0);
    var added := Beside(x, Labelled(labels, s, 0));
    BesideSize(x, Labelled(labels, s, 0));
    assert Pairs(labels, scores, s + {x}) == Pairs(labels, scores, s) + added;
    assert Pairs(labels, scores, s) !! added;
  }

  lemma PairsAfterNegative(labels: seq<nat>, scores: seq<real>, s: set<nat>, x: nat)
    requires AllEarlier(scores, s, x) && x < |labels| && labels[x] == 0
    ensures Pairs(labels, scores, s + {x}) == Pairs(labels, scores, s)
    ensures Labelled(labels, s + {x}, 1) == Labelled(labels, s, 1)
    ensures |Labelled(labels, s + {x}, 0)| == |Labelled(labels, s, 0)| + 1
  {
    assert Labelled(labels, s + {x}, 1) == Labelled(labels, s, 1);
    assert Labelled(labels, s + {x}, 0) == Labelled(labels, s, 0) + {x};
    forall i | i in s ensures !Later(scores, i, x) { assert Later(scores, x, i); }
  }

  lemma {:induction false} MaskedSumUpdate(labels: seq<nat>, ranks: seq<nat>, j: nat, v: nat)
    requires |labels| == |ranks| && j < |ranks| && ranks[j] == 0
    ensures Sum(Masked(ranks[j := v], labels, 1)) == Sum(Masked(ranks, labels, 1)) + if labels[j] == 1 then v else 0
  {
    hide *;
    var n := |ranks| - 1;
    var next := ranks[j := v];
    SumMaskedStep(labels, ranks);
    SumMaskedStep(labels, next);
    UpdatedFront(ranks, j, v);
    if j < n { MaskedSumUpdate(labels[..n], ranks[..n], j, v); }
  }

  lemma UpdatedFront(s: seq<nat>, j: nat, v: nat)
    requires j < |s|
    ensures var n := |s| - 1; s[j := v][..n] == if j < n then s[..n][j := v] else s[..n]
  {}

  lemma SumMaskedStep(labels: seq<nat>, ranks: seq<nat>)
    requires |labels| == |ranks| > 0
    ensures
      var n := |ranks| - 1;
      Sum(Masked(ranks, labels, 1)) == Sum(Masked(ranks[..n], labels[..n], 1)) + if labels[n] == 1 then ranks[n] else 0
  {
    var n := |ranks| - 1;
    SumAppend(Masked(ranks[..n], labels[..n], 1), ranks[n]);
    assert Masked(ranks, labels, 1) ==
      if labels[n] == 1 then Masked(ranks[..n], labels[..n], 1) + [ranks[n]] else Masked(ranks[..n], labels[..n], 1);
  }

  lemma SumAppend(s: seq<nat>, v: nat)
    ensures Sum(s + [v]) == Sum(s) + v
  {
    assert (s + [v])[..|s|] == s;
  }

  lemma {:induction false} NothingRanked(labels: seq<nat>, n: nat)
    requires |labels| == n
    ensures Sum(Masked(seq<nat>(n, _ => 0), labels, 1)) == 0
  {
    if n == 0 {
    } else {
      var zeros: seq<nat> := seq<nat>(n, _ => 0);
      SumMaskedStep(labels, zeros);
      NothingRanked(labels[..n - 1], n - 1);
      assert zeros[..n - 1] == seq<nat>(n - 1, _ => 0);
    }
  }

  lemma {:induction false} UnrankedIsZero(order: seq<nat>, k: nat, n: nat, x: nat)
    requires k <= |order| && (forall m :: 0 <= m < |order| ==> order[m] < n) && x < n && x !in order[..k]
    ensures Ranks(order, k, n)[x] == 0
  {
    if k == 0 {
    } else {
      assert order[k - 1] == order[..k][k - 1] && order[..k - 1] == order[..k][..k - 1];
      UnrankedIsZero(order, k - 1, n, x);
    }
  }

  function Triangle(p: nat): nat {
    if p == 0 then 0 else Triangle(p - 1) + p
  }

  lemma {:induction false} TriangleIsHalf(p: nat)
    ensures 2 * Triangle(p) == p * (p + 1)
  {
    if p == 0 {
    } else {
      TriangleIsHalf(p - 1);
    }
  }

  ghost function Prefix(scores: seq<real>, k: nat): set<nat>
    requires k <= |scores|
  {
    Elements(Order(scores)[..k])
  }

  lemma NextInOrder(scores: seq<real>, k: nat)
    requires k < |scores|
    ensures Order(scores)[k] < |scores|
    ensures AllEarlier(scores, Prefix(scores, k), Order(scores)[k]) && Order(scores)[k] !in Order(scores)[..k]
    ensures Prefix(scores, k + 1) == Prefix(scores, k) + {Order(scores)[k]}
    ensures |Prefix(scores, k)| == k
  {
    OrderIsPermutation(scores);
    var order := Order(scores);
    assert order[..k + 1] == order[..k] + [order[k]];
    DistinctSize(order[..k]);
    forall y | y in Prefix(scores, k) ensures Later(scores, order[k], y) {
      var a :| 0 <= a < k && order[a] == y;
      OrderIsLater(scores, a, k);
    }
  }

  lemma TriangleStep(p: nat)
    ensures Triangle(p + 1) == Triangle(p) + p + 1
  {}

  lemma RanksStep(scores: seq<real>, k: nat)
    requires k <= |scores|
    ensures |Order(scores)| == |scores| && forall m :: 0 <= m < |scores| ==> Order(scores)[m] < |scores|
    ensures Triangle(0) == 0
    ensures Ranks(Order(scores), k, |scores|) ==
      if k == 0 then seq<nat>(|scores|, _ => 0) else Ranks(Order(scores), k - 1, |scores|)[Order(scores)[k - 1] := k]
  {
    OrderBelow(scores);
  }

  lemma OrderBelow(scores: seq<real>)
    ensures |Order(scores)| == |scores| && forall m :: 0 <= m < |scores| ==> Order(scores)[m] < |scores|
  {
    OrderIsPermutation(scores);
  }

  lemma BinaryAt(labels: seq<nat>, x: nat)
    requires Binary(labels) && x < |labels|
    ensures labels[x] == 0 || labels[x] == 1
  {}

  lemma StartEmpty(labels: seq<nat>, scores: seq<real>)
    ensures Pairs(labels, scores, Prefix(scores, 0)) == {}
    ensures Labelled(labels, Prefix(scores, 0), 1) == {} && Labelled(labels, Prefix(scores, 0), 0) == {}
  {
    assert Prefix(scores, 0) == {};
  }

  /** After k ranks are handed out, the positives' ranks add up to their own triangle number plus the pairs so far. */
  lemma {:induction false} RankSumCounts(labels: seq<nat>, scores: seq<real>, k: nat)
    requires |labels| == |scores| && Binary(labels) && k <= |scores|
    ensures IsPermutation(Order(scores), |scores|)
    ensures Sum(Masked(Ranks(Order(scores), k, |scores|), labels, 1))
      == |Pairs(labels, scores, Prefix(scores, k))| + Triangle(|Labelled(labels, Prefix(scores, k), 1)|)
    ensures |Labelled(labels, Prefix(scores, k), 1)| + |Labelled(labels, Prefix(scores, k), 0)| == k
  {
    hide *;
    RanksStep(scores, k);
    OrderIsPermutation(scores);
    var order := Order(scores);
    if k == 0 {
      StartEmpty(labels, scores);
      NothingRanked(labels, |scores|);
    } else {
      RankSumCounts(labels, scores, k - 1);
      NextInOrder(scores, k - 1);
      var x, s := order[k - 1], Prefix(scores, k - 1);
      UnrankedIsZero(order, k - 1, |scores|, x);
      MaskedSumUpdate(labels, Ranks(order, k - 1, |scores|), x, k);
      TriangleStep(|Labelled(labels, s, 1)|);
      BinaryAt(labels, x);
      if labels[x] == 1 { PairsAfterPositive(labels, scores, s, x); } else { PairsAfterNegative(labels, scores, s, x); }
    }
  }

  lemma LabelledStep(labels: seq<nat>, wanted: nat)
    requires labels != []
    ensures
      var n := |labels| - 1;
      |Labelled(labels, Below(n + 1), wanted)|
      == |Labelled(labels[..n], Below(n), wanted)| + if labels[n] == wanted then 1 else 0
  {
    var n := |labels| - 1;
    var front := Labelled(labels[..n], Below(n), wanted);
    if labels[n] == wanted {
      assert Labelled(labels, Below(n + 1), wanted) == front + {n};
    } else {
      assert Labelled(labels, Below(n + 1), wanted) == front;
    }
  }

  lemma {:induction false} MaskedSize<T>(values: seq<T>, labels: seq<nat>, wanted: nat)
    requires |values| == |labels|
    ensures |Masked(values, labels, wanted)| == |Labelled(labels, Below(|labels|), wanted)|
  {
    hide Labelled, Below;
    if values == [] {
      NoLabels(wanted);
    } else {
      var n := |values| - 1;
      MaskedSize(values[..n], labels[..n], wanted);
      LabelledStep(labels, wanted);
    }
  }

  lemma NoLabels(wanted: nat)
    ensures Labelled([], Below(0), wanted) == {}
  {}

  ghost function AllPairs(labels: seq<nat>, scores: seq<real>): set<(nat, nat)> {
    Pairs(labels, scores, Below(|scores|))
  }

  lemma FullPrefix(scores: seq<real>)
    ensures Prefix(scores, |scores|) == Below(|scores|)
  {
    OrderIsPermutation(scores);
    PermutationHitsAll(Order(scores), |scores|);
    assert Order(scores)[..|scores|] == Order(scores);
  }

  lemma RankSumTriangle(labels: seq<nat>, scores: seq<real>)
    requires |labels| == |scores| && Binary(labels)
    ensures RankSum(labels, scores) == |AllPairs(labels, scores)| + Triangle(|Masked(scores, labels, 1)|)
  {
    RankSumCounts(labels, scores, |scores|);
    FullPrefix(scores);
    MaskedSize(scores, labels, 1);
  }

  /** The rank sum less its least possible value is the number of pairs with the positive later. */
  lemma RankSumIsPairCount(labels: seq<nat>, scores: seq<real>)
    requires |labels| == |scores| && Binary(labels)
    ensures
      var p := |Masked(scores, labels, 1)|;
      2 * RankSum(labels, scores) - p * (p + 1) == 2 * |AllPairs(labels, scores)|
  {
    hide *;
    RankSumTriangle(labels, scores);
    TriangleIsHalf(|Masked(scores, labels, 1)|);
  }

  ghost function Product(a: set<nat>, b: set<nat>): set<(nat, nat)> {
    set i, j | i in a && j in b :: (i, j)
  }

  lemma {:induction false} ProductSize(a: set<nat>, b: set<nat>)
    ensures |Product(a, b)| == |a| * |b|
    decreases a
  {
    if a == {} {
      assert Product(a, b) == {};
    } else {
      var i :| i in a;
      ProductSize(a - {i}, b);
      BesideSize(i, b);
      assert Product(a, b) == Product(a - {i}, b) + Beside(i, b);
      assert Product(a - {i}, b) !! Beside(i, b);
      assert |a| == |a - {i}| + 1;
      assert (|a - {i}| + 1) * |b| == |a - {i}| * |b| + |b|;
    }
  }

  /** All (positive, negative) pairs. */
  function PairTotal(labels: seq<nat>, scores: seq<real>): nat
    requires |labels| == |scores|
  {
    |Masked(scores, labels, 1)| * |Masked(scores, labels, 0)|
  }

  lemma PairsBounded(labels: seq<nat>, scores: seq<real>)
    requires |labels| == |scores|
    ensures |AllPairs(labels, scores)| <= PairTotal(labels, scores)
  {
    var s := Below(|scores|);
    MaskedSize(scores, labels, 1);
    MaskedSize(scores, labels, 0);
    ProductSize(Labelled(labels, s, 1), Labelled(labels, s, 0));
    SubsetSize(Pairs(labels, scores, s), Product(Labelled(labels, s, 1), Labelled(labels, s, 0)));
  }

  /** The score is the share of (positive, negative) pairs with the positive later in the stable order. */
  lemma AucIsPairFraction(labels: seq<nat>, scores: seq<real>)
    requires |labels| == |scores| && Binary(labels)
    ensures 0.0 <= AucScore(labels, scores) <= 1.0
    ensures AucScore(labels, scores) * PairTotal(labels, scores) as real == |AllPairs(labels, scores)| as real
  {
    hide AllPairs, Binary, RankSum, Masked, Share, Triangle, AucScore, PairTotal;
    RankSumTriangle(labels, scores);
    PairsBounded(labels, scores);
    AucIsShare(labels, scores);
    ShareOfPairs(
      RankSum(labels, scores), |Masked(scores, labels, 1)|, |Masked(scores, labels, 0)|, |AllPairs(labels, scores)|,
      PairTotal(labels, scores));
  }

  lemma AucIsShare(labels: seq<nat>, scores: seq<real>)
    requires |labels| == |scores|
    ensures
      var p, n := |Masked(scores, labels, 1)|, |Masked(scores, labels, 0)|;
      AucScore(labels, scores) == Share(RankSum(labels, scores), p, n) && PairTotal(labels, scores) == p * n
  {}

  lemma ShareOfPairs(rankSum: nat, p: nat, n: nat, c: nat, total: nat)
    requires rankSum == c + Triangle(p) && c <= total == p * n
    ensures 0.0 <= Share(rankSum, p, n) <= 1.0
    ensures Share(rankSum, p, n) * total as real == c as real
  {
    TriangleIsHalf(p);
    if p > 0 && n > 0 {
      HalvesCancel(rankSum, p * (p + 1), c);
      Positive(p, n);
      Fraction(c, total);
    } else {
      Zero(p, n);
    }
  }

  lemma HalvesCancel(sum: nat, twice: nat, c: nat)
    requires 2 * sum - twice == 2 * c
    ensures sum as real - twice as real / 2.0 == c as real
  {}

  lemma Positive(p: nat, n: nat)
    requires p > 0 && n > 0
    ensures p * n > 0
  {}

  lemma Zero(p: nat, n: nat)
    requires p == 0 || n == 0
    ensures p * n == 0
  {}

  lemma Fraction(c: nat, total: nat)
    requires c <= total && total > 0
    ensures 0.0 <= c as real / total as real <= 1.0
    ensures c as real / total as real * total as real == c as real
  {}

  lemma InAllPairs(labels: seq<nat>, scores: seq<real>, i: nat, j: nat)
    requires |labels| == |scores|
    ensures (i, j) in AllPairs(labels, scores) <==>
      && i < |scores| && j < |scores| && labels[i] == 1 && labels[j] == 0
      && (scores[i] > scores[j] || (scores[i] == scores[j] && i > j))
  {
    var s := Below(|scores|);
    assert i in Labelled(labels, s, 1) <==> i < |scores| && labels[i] == 1;
    assert j in Labelled(labels, s, 0) <==> j < |scores| && labels[j] == 0;
    assert (i, j) in Pairs(labels, scores, s) <==>
      i in Labelled(labels, s, 1) && j in Labelled(labels, s, 0) && Later(scores, i, j);
  }

  /** Pairs whose positive scores strictly higher: what the score is meant to count. */
  ghost function Ordered(labels: seq<nat>, scores: seq<real>): set<(nat, nat)> {
    set pair | pair in AllPairs(labels, scores) && At(scores, pair.0) > At(scores, pair.1)
  }

  predicate TiedLater(labels: seq<nat>, scores: seq<real>, i: nat, j: nat)
    requires |labels| == |scores|
  {
    j < i < |scores| && labels[i] == 1 && labels[j] == 0 && scores[i] == scores[j]
  }

  /** It is the share of strictly ordered pairs exactly when no positive ties a negative listed before it. */
  lemma TiesDecide(labels: seq<nat>, scores: seq<real>)
    requires |labels| == |scores| && Binary(labels)
    ensures AucScore(labels, scores) * PairTotal(labels, scores) as real == |Ordered(labels, scores)| as real
      <==> forall i: nat, j: nat :: !TiedLater(labels, scores, i, j)
  {
    hide AucScore, PairTotal;
    AucIsPairFraction(labels, scores);
    var all, strict := AllPairs(labels, scores), Ordered(labels, scores);
    SubsetSize(strict, all);
    forall i: nat, j: nat ensures TiedLater(labels, scores, i, j) <==> (i, j) in all - strict {
      InAllPairs(labels, scores, i, j);
      assert (i, j) in strict <==> (i, j) in all && At(scores, i) > At(scores, j);
    }
    if strict != all {
      var pair :| pair in all && pair !in strict;
      assert TiedLater(labels, scores, pair.0, pair.1);
    }
  }

  /** Moving tied ids changes the score: the same two labelled scores give 1 or 0 by listing order alone. */
  lemma TieExample()
    ensures AucScore([0, 1], [5.0, 5.0]) == 1.0
    ensures AucScore([1, 0], [5.0, 5.0]) == 0.0
  {
    Tied([0, 1], true);
    Tied([1, 0], false);
  }

  lemma MaskedPair(values: seq<real>, labels: seq<nat>, wanted: nat)
    requires |values| == |labels| == 2
    ensures |Masked(values, labels, wanted)| == (if labels[0] == wanted then 1 else 0) + if labels[1] == wanted then 1 else 0
  {
    assert Masked(values[..1][..0], labels[..1][..0], wanted) == [];
    assert |Masked(values[..1], labels[..1], wanted)| == if labels[0] == wanted then 1 else 0;
  }

  lemma Tied(labels: seq<nat>, later: bool)
    requires labels == if later then [0, 1] else [1, 0]
    ensures AucScore(labels, [5.0, 5.0]) == if later then 1.0 else 0.0
  {
    hide AucScore;
    var scores := [5.0, 5.0];
    AucIsPairFraction(labels, scores);
    MaskedPair(scores, labels, 1);
    MaskedPair(scores, labels, 0);
    assert AllPairs(labels, scores) == if later then {(1, 0)} else {};
  }
}
