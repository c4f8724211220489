/** What the expansion batch can and cannot change in the answer of the lazy search. */
module BatchWidth {
  import opened Sorting
  import opened Finite
  import opened MinHeaps
  import opened GraphSearch
  import opened SearchProperties

  // ---------- wide batches can give another answer ----------

  ghost predicate ForkDistances(dist: nat -> real) {
    dist(0) == 10.0 && dist(1) == 5.0 && dist(2) == 6.0 && dist(3) == 1.0 && dist(4) == 0.0
  }

  /** 0 joins 1 and 2; the nearer 1 leads to 3, the farther 2 to the nearest node 4. */
  const FORK: Graph := Graph(5, 0, 0, [[1, 2], [3], [4], [], []], [[], [], [], [], []])

  const E0: Entry := Entry(10.0, 0)
  const E1: Entry := Entry(5.0, 1)
  const E2: Entry := Entry(6.0, 2)
  const E3: Entry := Entry(1.0, 3)
  const E4: Entry := Entry(0.0, 4)

  lemma ForkValid(dist: nat -> real)
    requires ForkDistances(dist)
    ensures ValidGraph(FORK) && Start(FORK, dist) == 0
  {}

  lemma PushTwo(x: Entry, y: Entry, compare: (Entry, Entry) -> real)
    ensures Pushed([x], y, compare) == if compare(x, y) <= 0.0 then [x, y] else [y, x]
  {
    assert [x] + [y] == [x, y] && Parent(1) == 0;
    assert Up([x, y], 1, y, compare) == if compare(x, y) <= 0.0 then [x, y][1 := y] else Up([x, y][1 := x], 0, y, compare);
    assert [x, y][1 := x][0 := y] == [y, x] && [x, y][1 := y] == [x, y];
  }

  lemma PushThree(x: Entry, y: Entry, z: Entry, compare: (Entry, Entry) -> real)
    requires compare(x, z) <= 0.0
    ensures Pushed([x, y], z, compare) == [x, y, z]
  {
    assert [x, y] + [z] == [x, y, z];
    assert Parent(2) == 0;
  }

  lemma PopThree(x: Entry, y: Entry, z: Entry, compare: (Entry, Entry) -> real)
    ensures Popped([x, y, z], compare) == if compare(y, z) >= 0.0 then [z, y] else [y, z]
  {
    assert [x, y, z][..2] == [x, y];
    var rest := [x, y];
    DownStep(rest, 0, z, compare);
    assert Smaller(rest, 0, compare) == 1;
    assert Down(rest[0 := y], 1, z, compare) == rest[0 := y][1 := z] == [y, z];
  }

  lemma PopTwo(x: Entry, y: Entry, compare: (Entry, Entry) -> real)
    ensures Popped([x, y], compare) == [y] && Popped([x], compare) == []
  {
    assert [x, y][..1] == [x];
    assert [x][..0] == [];
  }

  /** Replace the worse of two kept entries by a nearer one. */
  lemma OfferFull(dist: nat -> real, cands: seq<Entry>, worst: Entry, other: Entry, n: nat)
    requires ForkDistances(dist)
    requires other.dist <= worst.dist && dist(n) < worst.dist
    ensures
      var e := Entry(dist(n), n);
      Offer(Heaps(cands, [worst, other]), n, dist, 2)
      == Heaps(Pushed(cands, e, NEAR_FIRST), if other.dist <= e.dist then [e, other] else [other, e])
  {
    var e := Entry(dist(n), n);
    PushThree(worst, other, e, FAR_FIRST);
    PopThree(worst, other, e, FAR_FIRST);
  }

  /** The heaps and marks once node 0 is expanded, the same for every batch size. */
  const AFTER_FORK: (Heaps, set<nat>) := (Heaps([E1, E2], [E2, E1]), {0, 1, 2})

  lemma FirstOffer(dist: nat -> real)
    requires ForkDistances(dist)
    ensures Offer(Heaps([], [E0]), 1, dist, 2) == Heaps([E1], [E0, E1])
  {
    PushTwo(E0, E1, FAR_FIRST);
    assert [] + [E1] == [E1] && [E1][0 := E1] == [E1];
    assert Pushed([], E1, NEAR_FIRST) == [E1];
  }

  lemma SecondOffer(dist: nat -> real)
    requires ForkDistances(dist)
    ensures Offer(Heaps([E1], [E0, E1]), 2, dist, 2) == AFTER_FORK.0
  {
    PushTwo(E1, E2, NEAR_FIRST);
    OfferFull(dist, [E1], E0, E1, 2);
  }

  lemma ExpandOne(dist: nat -> real, h: Heaps, visited: set<nat>, n: nat)
    requires ForkDistances(dist)
    requires h.results != [] && n !in visited
    ensures Expand(h, visited, [n], dist, 2) == (Offer(h, n, dist, 2), visited + {n})
  {
    hide Offer;
    assert [n][1..] == [];
  }

  lemma ExpandTwo(dist: nat -> real, h: Heaps, visited: set<nat>, m: nat, n: nat)
    requires ForkDistances(dist)
    requires h.results != [] && m !in visited && n !in visited && m != n
    ensures Expand(h, visited, [m, n], dist, 2)
      == (Offer(Offer(h, m, dist, 2), n, dist, 2), visited + {m} + {n})
  {
    hide Offer;
    assert [m, n][1..] == [n];
    ExpandOne(dist, Offer(h, m, dist, 2), visited + {m}, n);
  }

  lemma ForkExpanded(dist: nat -> real)
    requires ForkDistances(dist)
    ensures Expand(Heaps([], [E0]), {0}, [1, 2], dist, 2) == AFTER_FORK
  {
    hide Offer, Expand;
    FirstOffer(dist);
    SecondOffer(dist);
    ExpandTwo(dist, Heaps([], [E0]), {0}, 1, 2);
    assert {0} + {1} + {2} == {0, 1, 2};
  }

  /** The resident search next expands node 1, and then node 3. */
  lemma ThirdOffer(dist: nat -> real)
    requires ForkDistances(dist)
    ensures Offer(Heaps([E2], [E2, E1]), 3, dist, 2) == Heaps([E3, E2], [E1, E3])
  {
    OfferFull(dist, [E2], E2, E1, 3);
    PushTwo(E2, E3, NEAR_FIRST);
  }

  lemma ResidentNext(
    dist: nat -> real, h: Heaps, visited: set<nat>, left: seq<Entry>, edges: seq<nat>, next: (Heaps, set<nat>))
    requires ForkDistances(dist)
    requires Ready(FORK, h, visited) && h.cands != [] && !Beyond(h.cands, h.results, 2) && h.cands[0].id < 5
    requires Popped(h.cands, NEAR_FIRST) == left && FORK.base[h.cands[0].id] == edges
    requires Expand(Heaps(left, h.results), visited, edges, dist, 2) == next
    ensures Ready(FORK, next.0, next.1)
    ensures ResidentLoop(FORK, dist, 2, h, visited) == ResidentLoop(FORK, dist, 2, next.0, next.1)
  {
    hide Expand, Offer, Popped;
    SingleRound(FORK, dist, 2, h, visited);
  }

  /** Every stage of the run is a state the loops accept. */
  lemma StagesReady(dist: nat -> real)
    requires ForkDistances(dist)
    ensures Seeded(0, dist) == Heaps([E0], [E0]) && Ready(FORK, Heaps([E0], [E0]), {0})
    ensures Ready(FORK, AFTER_FORK.0, AFTER_FORK.1) && Ready(FORK, AFTER_THREE.0, AFTER_THREE.1)
  {
    ForkValid(dist);
  }

  lemma ResidentFromRoot(dist: nat -> real)
    requires ForkDistances(dist)
    ensures Ready(FORK, Seeded(0, dist), {0}) && Ready(FORK, AFTER_FORK.0, AFTER_FORK.1)
    ensures ResidentLoop(FORK, dist, 2, Seeded(0, dist), {0})
      == ResidentLoop(FORK, dist, 2, AFTER_FORK.0, AFTER_FORK.1)
  {
    StagesReady(dist);
    ForkExpanded(dist);
    PopTwo(E0, E0, NEAR_FIRST);
    hide Expand, Offer, Popped, ResidentLoop, Ready, Seeded, ForkDistances;
    assert FORK.base[0] == [1, 2];
    ResidentNext(dist, Heaps([E0], [E0]), {0}, [], [1, 2], AFTER_FORK);
  }

  const AFTER_THREE: (Heaps, set<nat>) := (Heaps([E3, E2], [E1, E3]), {0, 1, 2, 3})

  lemma ThreeExpanded(dist: nat -> real)
    requires ForkDistances(dist)
    ensures Expand(Heaps([E2], [E2, E1]), {0, 1, 2}, [3], dist, 2) == AFTER_THREE
  {
    hide Offer, Expand;
    ThirdOffer(dist);
    ExpandOne(dist, Heaps([E2], [E2, E1]), {0, 1, 2}, 3);
    assert {0, 1, 2} + {3} == {0, 1, 2, 3};
  }

  lemma ForkStage()
    ensures AFTER_FORK == (Heaps([E1, E2], [E2, E1]), {0, 1, 2}) && E1.id == 1
    ensures !Beyond([E1, E2], [E2, E1], 2) && |FORK.base| == 5 && FORK.base[1] == [3]
  {}

  lemma ResidentFromFork(dist: nat -> real)
    requires ForkDistances(dist)
    ensures Ready(FORK, AFTER_FORK.0, AFTER_FORK.1) && Ready(FORK, AFTER_THREE.0, AFTER_THREE.1)
    ensures ResidentLoop(FORK, dist, 2, AFTER_FORK.0, AFTER_FORK.1)
      == ResidentLoop(FORK, dist, 2, AFTER_THREE.0, AFTER_THREE.1)
  {
    hide *;
    ForkStage();
    StagesReady(dist);
    PopTwo(E1, E2, NEAR_FIRST);
    ThreeExpanded(dist);
    ResidentNext(dist, AFTER_FORK.0, AFTER_FORK.1, [E2], [3], AFTER_THREE);
  }

  lemma ResidentFromThree(dist: nat -> real)
    requires ForkDistances(dist)
    ensures Ready(FORK, AFTER_THREE.0, AFTER_THREE.1)
    ensures ResidentLoop(FORK, dist, 2, AFTER_THREE.0, AFTER_THREE.1) == [E1, E3]
  {
    ForkValid(dist);
    PopTwo(E3, E2, NEAR_FIRST);
    var last := Heaps([E2], [E1, E3]);
    assert Expand(last, AFTER_THREE.1, [], dist, 2) == (last, AFTER_THREE.1);
    hide Expand, Offer, Popped;
    assert FORK.base[3] == [];
    ResidentNext(dist, AFTER_THREE.0, AFTER_THREE.1, [E2], [], (last, AFTER_THREE.1));
  }

  // ---------- the batched search on the same graph ----------

  lemma BatchedNext(dist: nat -> real, batch: nat, h: Heaps, visited: set<nat>, taken: seq<Entry>, next: (Heaps, set<nat>))
    requires ForkDistances(dist)
    requires Ready(FORK, h, visited) && h.cands != [] && taken != [] && InGraph(FORK, taken)
    requires TakeBatch(h.cands, h.results, 2, batch) == (taken, [])
    requires Expand(Heaps([], h.results), visited, EdgesOf(FORK, taken), dist, 2) == next
    ensures Ready(FORK, next.0, next.1)
    ensures BatchedLoop(FORK, dist, 2, batch, h, visited) == BatchedLoop(FORK, dist, 2, batch, next.0, next.1)
  {
    hide Gather, OfferAll, TakeBatch, EdgesOf, Expand;
    ExpandIsGatherThenOffer(Heaps([], h.results), visited, EdgesOf(FORK, taken), dist, 2);
    assert Round(FORK, dist, 2, batch, h, visited) == next;
  }

  lemma TakeTwo(x: Entry, y: Entry, results: seq<Entry>, batch: nat)
    requires results != [] && x.dist <= results[0].dist && y.dist <= results[0].dist && batch >= 2
    ensures TakeBatch([x, y], results, 2, batch) == ([x, y], [])
  {
    TakeOne(y, results, batch - 1);
    PopTwo(x, y, NEAR_FIRST);
    hide Popped;
    assert [x] + [y] == [x, y];
  }

  lemma TakeOne(x: Entry, results: seq<Entry>, batch: nat)
    requires results != [] && x.dist <= results[0].dist && batch >= 1
    ensures TakeBatch([x], results, 2, batch) == ([x], [])
  {
    PopTwo(x, x, NEAR_FIRST);
    hide Popped;
    assert TakeBatch([], results, 2, batch - 1) == ([], []);
    assert [x] + [] == [x];
  }

  lemma EdgesOfTwo(dist: nat -> real, x: Entry, y: Entry)
    requires ForkDistances(dist)
    requires x.id < 5 && y.id < 5
    ensures ValidGraph(FORK) && InGraph(FORK, [x]) && InGraph(FORK, [x, y])
    ensures EdgesOf(FORK, [x]) == FORK.base[x.id] && EdgesOf(FORK, [x, y]) == FORK.base[x.id] + FORK.base[y.id]
  {
    ForkValid(dist);
    assert [x][1..] == [] && [x, y][1..] == [y] && [y][1..] == [];
    assert EdgesOf(FORK, [y]) == FORK.base[y.id] + [];
    assert EdgesOf(FORK, [x]) == FORK.base[x.id] + [];
  }

  lemma BatchedFromRoot(dist: nat -> real, batch: nat)
    requires ForkDistances(dist)
    requires batch >= 2
    ensures Ready(FORK, Seeded(0, dist), {0}) && Ready(FORK, AFTER_FORK.0, AFTER_FORK.1)
    ensures BatchedLoop(FORK, dist, 2, batch, Seeded(0, dist), {0})
      == BatchedLoop(FORK, dist, 2, batch, AFTER_FORK.0, AFTER_FORK.1)
  {
    ForkExpanded(dist);
    TakeOne(E0, [E0], batch);
    EdgesOfTwo(dist, E0, E0);
    hide Expand, TakeBatch, EdgesOf, BatchedLoop;
    assert FORK.base[0] == [1, 2];
    BatchedNext(dist, batch, Seeded(0, dist), {0}, [E0], AFTER_FORK);
  }

  const AFTER_BOTH: (Heaps, set<nat>) := (Heaps([E4, E3], [E3, E4]), {0, 1, 2, 3, 4})

  lemma BothOffers(dist: nat -> real)
    requires ForkDistances(dist)
    ensures Offer(Heaps([], [E2, E1]), 3, dist, 2) == Heaps([E3], [E1, E3])
    ensures Offer(Heaps([E3], [E1, E3]), 4, dist, 2) == AFTER_BOTH.0
  {
    OfferFull(dist, [], E2, E1, 3);
    PushOne(E3, NEAR_FIRST);
    OfferFull(dist, [E3], E1, E3, 4);
    PushTwo(E3, E4, NEAR_FIRST);
    hide Offer, Pushed;
  }

  lemma PushOne(x: Entry, compare: (Entry, Entry) -> real)
    ensures Pushed([], x, compare) == [x]
  {
    assert [] + [x] == [x] && [x][0 := x] == [x];
  }

  lemma BothExpanded(dist: nat -> real)
    requires ForkDistances(dist)
    ensures Expand(Heaps([], [E2, E1]), {0, 1, 2}, [3, 4], dist, 2) == AFTER_BOTH
  {
    hide Offer, Expand;
    BothOffers(dist);
    ExpandTwo(dist, Heaps([], [E2, E1]), {0, 1, 2}, 3, 4);
    assert {0, 1, 2} + {3} + {4} == {0, 1, 2, 3, 4};
  }

  lemma BatchedFromFork(dist: nat -> real, batch: nat)
    requires ForkDistances(dist)
    requires batch >= 2
    ensures Ready(FORK, AFTER_FORK.0, AFTER_FORK.1) && Ready(FORK, AFTER_BOTH.0, AFTER_BOTH.1)
    ensures BatchedLoop(FORK, dist, 2, batch, AFTER_FORK.0, AFTER_FORK.1)
      == BatchedLoop(FORK, dist, 2, batch, AFTER_BOTH.0, AFTER_BOTH.1)
  {
    TakeTwo(E1, E2, [E2, E1], batch);
    EdgesOfTwo(dist, E1, E2);
    BothExpanded(dist);
    hide Expand, TakeBatch, EdgesOf, BatchedLoop, Offer;
    assert FORK.base[1] + FORK.base[2] == [3, 4];
    BatchedNext(dist, batch, AFTER_FORK.0, AFTER_FORK.1, [E1, E2], AFTER_BOTH);
  }

  lemma BatchedFromBoth(dist: nat -> real, batch: nat)
    requires ForkDistances(dist)
    requires batch >= 2
    ensures Ready(FORK, AFTER_BOTH.0, AFTER_BOTH.1)
    ensures BatchedLoop(FORK, dist, 2, batch, AFTER_BOTH.0, AFTER_BOTH.1).0.results == [E3, E4]
  {
    TakeTwo(E4, E3, [E3, E4], batch);
    EdgesOfTwo(dist, E4, E3);
    var last := Heaps([], [E3, E4]);
    assert Expand(last, AFTER_BOTH.1, [], dist, 2) == (last, AFTER_BOTH.1);
    hide Expand, TakeBatch, EdgesOf;
    assert FORK.base[4] + FORK.base[3] == [];
    BatchedNext(dist, batch, AFTER_BOTH.0, AFTER_BOTH.1, [E4, E3], (last, AFTER_BOTH.1));
  }

  lemma RankedFirst(x: Entry, y: Entry)
    ensures Ranked([x, y], 1) == [if x.dist <= y.dist then x.id else y.id]
  {
    assert [x, y][1..] == [y] && [y][1..] == [];
    assert StableSort([y], NoFarther) == [y];
    assert [y] + [] == [y];
    assert StableSort([x, y], NoFarther) == if x.dist <= y.dist then [x] + [y] else [y] + [x];
  }

  /** On `FORK` with k = 1 and efSearch = 2 the two searches differ, for every batch size but one: 3 against the nearer 4. */
  lemma WideBatchesCanDiffer(dist: nat -> real, batch: nat)
    requires ForkDistances(dist)
    requires batch >= 2
    ensures ValidGraph(FORK)
    ensures ResidentSearch(FORK, dist, 1, 2) == [3]
    ensures BatchedSearch(FORK, dist, 1, 2, batch) == [4]
  {
    ForkValid(dist);
    ResidentFromRoot(dist);
    ResidentFromFork(dist);
    ResidentFromThree(dist);
    BatchedFromRoot(dist, batch);
    BatchedFromFork(dist, batch);
    BatchedFromBoth(dist, batch);
    RankedFirst(E1, E3);
    RankedFirst(E3, E4);
    hide ResidentLoop, BatchedLoop, Ranked, Start, Seeded;
  }

  // ---------- exhaustive searches cannot ----------

  lemma {:induction false} SameDistances(a: seq<nat>, b: seq<nat>, seen: set<nat>, dist: nat -> real, k: nat, i: nat)
    requires Lists(a, seen, dist, k) && Lists(b, seen, dist, k) && i < |a|
    ensures |a| == |b| && dist(a[i]) == dist(b[i])
  {
    ListsLength(a, seen, dist, k);
    ListsLength(b, seen, dist, k);
    NotFarther(a, b, seen, dist, k, i);
    NotFarther(b, a, seen, dist, k, i);
  }

  lemma ListsLength(a: seq<nat>, seen: set<nat>, dist: nat -> real, k: nat)
    requires Lists(a, seen, dist, k)
    ensures |a| == Min(k, |seen|)
  {
    DistinctSize(a);
  }

  lemma NearerComesEarlier(a: seq<nat>, seen: set<nat>, dist: nat -> real, k: nat, i: nat, x: nat)
    requires Lists(a, seen, dist, k) && i < |a| && x in seen && dist(x) < dist(a[i])
    ensures x in Elements(a[..i])
  {
    assert a[i] in Elements(a);
    assert x in Elements(a);
    var q :| 0 <= q < |a| && a[q] == x;
    assert a[..i][q] == x;
  }

  /** Were entry i farther than the other list's, the other list's first i + 1 entries would all be among the i before it. */
  lemma NotFarther(a: seq<nat>, b: seq<nat>, seen: set<nat>, dist: nat -> real, k: nat, i: nat)
    requires Lists(a, seen, dist, k) && Lists(b, seen, dist, k) && i < |a| == |b|
    ensures dist(a[i]) <= dist(b[i])
  {
    if dist(a[i]) > dist(b[i]) {
      var near := b[..i + 1];
      forall x | x in Elements(near) ensures x in Elements(a[..i]) {
        var j :| 0 <= j < |near| && near[j] == x;
        assert j < i ==> dist(b[j]) <= dist(b[i]);
        assert b[j] in Elements(b) && x in seen;
        NearerComesEarlier(a, seen, dist, k, i, x);
      }
      DistinctSize(near);
      DistinctSize(a[..i]);
      SubsetSize(Elements(near), Elements(a[..i]));
      assert false;
    }
  }

  /** With ef at least the node count every batch size, and the resident search, answer with the same distances. */
  lemma ExhaustiveBatchesAgree(g: Graph, dist: nat -> real, k: nat, efSearch: nat, batch: nat)
    requires ValidGraph(g) && batch > 0 && Max(efSearch, k) >= g.count
    ensures |BatchedSearch(g, dist, k, efSearch, batch)| == |ResidentSearch(g, dist, k, efSearch)|
    ensures forall i :: 0 <= i < |ResidentSearch(g, dist, k, efSearch)| ==>
      dist(BatchedSearch(g, dist, k, efSearch, batch)[i]) == dist(ResidentSearch(g, dist, k, efSearch)[i])
    ensures (forall m, n :: 0 <= m < n < g.count ==> dist(m) != dist(n)) ==>
      BatchedSearch(g, dist, k, efSearch, batch) == ResidentSearch(g, dist, k, efSearch)
  {
    LazyRefinesResident(g, dist, k, efSearch);
    ExhaustiveSearchExact(g, dist, k, efSearch, batch);
    ExhaustiveSearchExact(g, dist, k, efSearch, 1);
    var a, b := BatchedSearch(g, dist, k, efSearch, batch), ResidentSearch(g, dist, k, efSearch);
    var reach := Reach(g, Start(g, dist));
    hide BatchedSearch, ResidentSearch;
    ListsLength(a, reach, dist, k);
    ListsLength(b, reach, dist, k);
    forall i | 0 <= i < |b| ensures dist(a[i]) == dist(b[i]) { SameDistances(a, b, reach, dist, k, i); }
    if forall m, n :: 0 <= m < n < g.count ==> dist(m) != dist(n) { SameIdsWithoutTies(a, b, reach, g.count, dist, k); }
  }

  lemma SameIdsWithoutTies(a: seq<nat>, b: seq<nat>, seen: set<nat>, count: nat, dist: nat -> real, k: nat)
    requires Lists(a, seen, dist, k) && Lists(b, seen, dist, k) && seen <= Below(count)
    requires forall m, n :: 0 <= m < n < count ==> dist(m) != dist(n)
    requires |a| == |b| && forall i :: 0 <= i < |b| ==> dist(a[i]) == dist(b[i])
    ensures a == b
  {
    forall i | 0 <= i < |b| ensures a[i] == b[i] {
      assert a[i] in Elements(a) && b[i] in Elements(b);
    }
  }
}
