/**
 What the search returns, for every batch size. All results here are about `BatchedSearch`; with batch
 size one they are also about `ResidentSearch` (GraphSearch.LazyRefinesResident).
 */
module SearchProperties {
  import opened Sorting
  import opened Finite
  import opened MinHeaps
  import opened GraphSearch

  ghost function IdSet(es: seq<Entry>): (r: set<nat>) {
    set e | e in es :: e.id
  }

  ghost predicate NearHeap(es: seq<Entry>) { IsHeap(es, NEAR_FIRST) }

  ghost predicate FarHeap(es: seq<Entry>) { IsHeap(es, FAR_FIRST) }

  ghost predicate Faithful(es: seq<Entry>, dist: nat -> real, evaluated: set<nat>) {
    forall e :: e in es ==> e.dist == dist(e.id) && e.id in evaluated
  }

  /** The result list is a far-first heap of the nearest evaluated nodes, each once. */
  ghost predicate Invariant(h: Heaps, dist: nat -> real, ef: nat, evaluated: set<nat>) {
    && h.results != []
    && NearHeap(h.cands) && FarHeap(h.results)
    && Faithful(h.cands, dist, evaluated) && Faithful(h.results, dist, evaluated)
    && (forall e :: e in h.results ==> multiset(h.results)[e] == 1)
    && |IdSet(h.results)| == |h.results|
    && Nearest(IdSet(h.results), evaluated, dist, Max(1, ef))
  }

  /** Every result is still a candidate or has had all its base neighbours marked. */
  ghost predicate Frontier(g: Graph, h: Heaps, visited: set<nat>)
    requires ValidGraph(g)
  {
    forall e :: e in h.results ==> e in h.cands || Expanded(g, e.id, visited)
  }

  ghost predicate Expanded(g: Graph, id: nat, visited: set<nat>)
    requires ValidGraph(g)
  {
    id < g.count && forall n :: n in g.base[id] ==> n in visited
  }

  lemma IdSetAdd(a: seq<Entry>, b: seq<Entry>, e: Entry)
    requires multiset(b) == multiset(a) + multiset{e}
    ensures forall x :: x in b <==> x in a || x == e
    ensures IdSet(b) == IdSet(a) + {e.id}
  {
    forall x ensures x in b <==> x in a || x == e {
      assert x in b <==> x in multiset(b);
      assert x in a <==> x in multiset(a);
    }
  }

  lemma IdSetRemove(a: seq<Entry>, b: seq<Entry>, e: Entry, dist: nat -> real, evaluated: set<nat>)
    requires multiset(b) == multiset(a) - multiset{e} && e in a && multiset(a)[e] == 1
    requires Faithful(a, dist, evaluated)
    ensures forall x :: x in b <==> x in a && x != e
    ensures IdSet(b) == IdSet(a) - {e.id}
  {
    forall x ensures x in b <==> x in a && x != e {
      assert x in b <==> x in multiset(b);
      assert x in a <==> x in multiset(a);
    }
  }

  lemma WorstFirst(results: seq<Entry>)
    requires FarHeap(results) && results != []
    ensures forall e :: e in results ==> e.dist <= results[0].dist
  {
    HeapOrderings();
    RootLeast(results, FAR_FIRST);
    forall e | e in results ensures e.dist <= results[0].dist {
      assert FAR_FIRST(results[0], e) <= 0.0;
    }
  }

  lemma BestFirst(cands: seq<Entry>)
    requires NearHeap(cands) && cands != []
    ensures forall e :: e in cands ==> cands[0].dist <= e.dist
  {
    HeapOrderings();
    RootLeast(cands, NEAR_FIRST);
    forall e | e in cands ensures cands[0].dist <= e.dist {
      assert NEAR_FIRST(cands[0], e) <= 0.0;
    }
  }

  lemma KeptWithinWorst(h: Heaps, dist: nat -> real, ef: nat, evaluated: set<nat>)
    requires Invariant(h, dist, ef, evaluated)
    ensures forall v :: v in IdSet(h.results) ==> dist(v) <= h.results[0].dist
    ensures forall u :: u in evaluated - IdSet(h.results) ==> h.results[0].dist <= dist(u)
  {
    WorstFirst(h.results);
    assert h.results[0] in h.results && h.results[0].id in IdSet(h.results);
  }

  lemma PushedResults(h: Heaps, n: nat, dist: nat -> real, ef: nat, evaluated: set<nat>)
    requires Invariant(h, dist, ef, evaluated) && n !in evaluated
    ensures
      var e := Entry(dist(n), n);
      var pushed := Pushed(h.results, e, FAR_FIRST);
      && FarHeap(pushed) && Faithful(pushed, dist, evaluated + {n})
      && (forall x :: x in pushed ==> multiset(pushed)[x] == 1)
      && IdSet(pushed) == IdSet(h.results) + {n} && |IdSet(pushed)| == |pushed|
  {
    var e := Entry(dist(n), n);
    HeapOrderings();
    PushedHeap(h.results, e, FAR_FIRST);
    IdSetAdd(h.results, Pushed(h.results, e, FAR_FIRST), e);
    assert n !in IdSet(h.results);
    assert e !in h.results && e !in multiset(h.results);
  }

  /** Popping the worst of an overfull result list. */
  lemma PoppedResults(pushed: seq<Entry>, dist: nat -> real, evaluated: set<nat>)
    requires FarHeap(pushed) && pushed != [] && Faithful(pushed, dist, evaluated)
    requires forall x :: x in pushed ==> multiset(pushed)[x] == 1
    ensures
      var popped, out := Popped(pushed, FAR_FIRST), pushed[0];
      && FarHeap(popped) && Faithful(popped, dist, evaluated)
      && (forall x :: x in popped ==> multiset(popped)[x] == 1)
      && out.id in IdSet(pushed) && IdSet(popped) == IdSet(pushed) - {out.id}
      && forall v :: v in IdSet(pushed) ==> dist(v) <= dist(out.id)
  {
    HeapOrderings();
    PoppedHeap(pushed, FAR_FIRST);
    WorstFirst(pushed);
    assert pushed[0] in pushed;
    IdSetRemove(pushed, Popped(pushed, FAR_FIRST), pushed[0], dist, evaluated);
  }

  lemma OfferCands(h: Heaps, n: nat, dist: nat -> real, ef: nat, evaluated: set<nat>)
    requires Invariant(h, dist, ef, evaluated)
    ensures
      var h' := Offer(h, n, dist, ef);
      NearHeap(h'.cands) && Faithful(h'.cands, dist, evaluated + {n})
  {
    var e := Entry(dist(n), n);
    HeapOrderings();
    PushedHeap(h.cands, e, NEAR_FIRST);
    IdSetAdd(h.cands, Pushed(h.cands, e, NEAR_FIRST), e);
  }

  lemma OfferKeepsInvariant(h: Heaps, n: nat, dist: nat -> real, ef: nat, evaluated: set<nat>)
    requires Invariant(h, dist, ef, evaluated) && n !in evaluated
    ensures Invariant(Offer(h, n, dist, ef), dist, ef, evaluated + {n})
  {
    OfferCands(h, n, dist, ef, evaluated);
    if |h.results| < ef || dist(n) < h.results[0].dist {
      OfferKept(h, n, dist, ef, evaluated);
    } else {
      KeptWithinWorst(h, dist, ef, evaluated);
      NearestAfterSkip(IdSet(h.results), evaluated, n, dist, Max(1, ef));
    }
  }

  /** The result side of an accepted offer. */
  lemma OfferKept(h: Heaps, n: nat, dist: nat -> real, ef: nat, evaluated: set<nat>)
    requires Invariant(h, dist, ef, evaluated) && n !in evaluated && (|h.results| < ef || dist(n) < h.results[0].dist)
    ensures
      var r := Offer(h, n, dist, ef).results;
      && r != [] && FarHeap(r) && Faithful(r, dist, evaluated + {n}) && (forall e :: e in r ==> multiset(r)[e] == 1)
      && |IdSet(r)| == |r| && Nearest(IdSet(r), evaluated + {n}, dist, Max(1, ef))
  {
    var e := Entry(dist(n), n);
    var kept := IdSet(h.results);
    KeptWithinWorst(h, dist, ef, evaluated);
    PushedResults(h, n, dist, ef, evaluated);
    var pushed := Pushed(h.results, e, FAR_FIRST);
    if |pushed| > ef {
      PoppedResults(pushed, dist, evaluated + {n});
      NearestAfterSwap(kept, evaluated, n, pushed[0].id, dist, Max(1, ef));
    } else {
      NearestAfterAdd(kept, evaluated, n, dist, Max(1, ef));
    }
  }

  lemma OfferKeepsFrontier(g: Graph, h: Heaps, n: nat, dist: nat -> real, ef: nat, visited: set<nat>)
    requires ValidGraph(g) && h.results != [] && Frontier(g, h, visited)
    ensures Frontier(g, Offer(h, n, dist, ef), visited)
  {
    var e := Entry(dist(n), n);
    var h' := Offer(h, n, dist, ef);
    if h' != h {
      IdSetAdd(h.cands, h'.cands, e);
      forall x | x in h'.results ensures x in h'.cands || Expanded(g, x.id, visited) {
        assert x in multiset(h'.results);
        assert x in multiset(h.results) + multiset{e};
        assert x == e || x in h.results;
      }
    }
  }

  lemma {:induction false} OfferAllKeeps(
    g: Graph, h: Heaps, ns: seq<nat>, dist: nat -> real, ef: nat, evaluated: set<nat>, visited: set<nat>)
    requires ValidGraph(g) && Invariant(h, dist, ef, evaluated) && Frontier(g, h, visited)
    requires Distinct(ns) && forall n :: n in ns ==> n !in evaluated
    ensures
      var h' := OfferAll(h, ns, dist, ef);
      Invariant(h', dist, ef, evaluated + Elements(ns)) && Frontier(g, h', visited)
    decreases |ns|
  {
    if ns == [] {
      assert evaluated + Elements(ns) == evaluated;
    } else {
      var n, rest := ns[0], ns[1..];
      OfferKeepsInvariant(h, n, dist, ef, evaluated);
      OfferKeepsFrontier(g, h, n, dist, ef, visited);
      assert n !in rest;
      OfferAllKeeps(g, Offer(h, n, dist, ef), rest, dist, ef, evaluated + {n}, visited);
      assert ns == [n] + rest;
      assert evaluated + {n} + Elements(rest) == evaluated + Elements(ns);
    }
  }

  lemma {:induction false} GatherDistinct(edges: seq<nat>, visited: set<nat>)
    ensures Distinct(Gather(edges, visited).0)
    decreases |edges|
  {
    if edges == [] {
    } else {
      GatherDistinct(edges[1..], visited);
      GatherDistinct(edges[1..], visited + {edges[0]});
    }
  }

  lemma {:induction false} EdgesOfMembers(g: Graph, batch: seq<Entry>)
    requires ValidGraph(g) && InGraph(g, batch)
    ensures forall e, n :: e in batch && n in g.base[e.id] ==> n in EdgesOf(g, batch)
    ensures forall n :: n in EdgesOf(g, batch) ==> exists e :: e in batch && n in g.base[e.id]
    decreases |batch|
  {
    if batch == [] {
    } else {
      EdgesOfMembers(g, batch[1..]);
      assert batch == [batch[0]] + batch[1..];
    }
  }

  lemma NearPopped(cands: seq<Entry>)
    requires cands != [] && NearHeap(cands)
    ensures NearHeap(Popped(cands, NEAR_FIRST))
  {
    HeapOrderings();
    PoppedHeap(cands, NEAR_FIRST);
  }

  lemma {:induction false} TakeBatchHeap(cands: seq<Entry>, results: seq<Entry>, ef: nat, batch: nat)
    requires results != [] && NearHeap(cands)
    ensures NearHeap(TakeBatch(cands, results, ef, batch).1)
    decreases batch
  {
    if batch > 0 && cands != [] && !Beyond(cands, results, ef) {
      NearPopped(cands);
      TakeBatchHeap(Popped(cands, NEAR_FIRST), results, ef, batch - 1);
    }
  }

  lemma TakeBatchMembers(h: Heaps, ef: nat, batch: nat)
    requires h.results != []
    ensures forall e :: e in h.cands <==> e in TakeBatch(h.cands, h.results, ef, batch).0 || e in TakeBatch(h.cands, h.results, ef, batch).1
  {
    var t := TakeBatch(h.cands, h.results, ef, batch);
    TakeBatchSplits(h.cands, h.results, ef, batch);
    forall e ensures e in h.cands <==> e in t.0 || e in t.1 {
      assert e in h.cands <==> e in multiset(h.cands);
      assert e in t.0 <==> e in multiset(t.0);
      assert e in t.1 <==> e in multiset(t.1);
    }
  }

  lemma RoundKeeps(g: Graph, dist: nat -> real, ef: nat, batch: nat, h: Heaps, visited: set<nat>)
    requires Ready(g, h, visited) && Invariant(h, dist, ef, visited) && Frontier(g, h, visited)
    ensures
      var r := Round(g, dist, ef, batch, h, visited);
      Invariant(r.0, dist, ef, r.1) && Frontier(g, r.0, r.1)
  {
    var (taken, left) := TakeBatch(h.cands, h.results, ef, batch);
    SubBatch(g, h, ef, batch);
    var edges := EdgesOf(g, taken);
    var (toVisit, marked) := Gather(edges, visited);
    var mid := Heaps(left, h.results);
    TakeBatchHeap(h.cands, h.results, ef, batch);
    TakeBatchMembers(h, ef, batch);
    EdgesOfMembers(g, taken);
    GatherDistinct(edges, visited);
    forall e | e in mid.results ensures e in mid.cands || Expanded(g, e.id, marked) {
      if e in taken {
        var k :| 0 <= k < |taken| && taken[k] == e;
        assert Expanded(g, e.id, marked);
      } else if e !in left {
        assert Expanded(g, e.id, visited);
      }
    }
    OfferAllKeeps(g, mid, toVisit, dist, ef, visited, marked);
  }

  /** The state the base phase of a search stops in. */
  ghost function Final(g: Graph, dist: nat -> real, k: nat, efSearch: nat, batch: nat): (r: (Heaps, set<nat>))
    requires ValidGraph(g)
  {
    SeededReady(g, Start(g, dist), dist);
    BatchedLoop(g, dist, Max(efSearch, k), batch, Seeded(Start(g, dist), dist), {Start(g, dist)})
  }

  ghost predicate Reached(g: Graph, start: nat, path: seq<nat>)
    requires ValidGraph(g)
  {
    && path != [] && path[0] == start && AllBelow(path, g.count)
    && forall i {:trigger path[i]} :: 0 < i < |path| ==> path[i] in g.base[path[i - 1]]
  }

  ghost predicate Reachable(g: Graph, start: nat, n: nat)
    requires ValidGraph(g)
  {
    exists path :: Reached(g, start, path) && path[|path| - 1] == n
  }

  lemma ReachableStep(g: Graph, start: nat, a: nat, b: nat)
    requires ValidGraph(g) && Reachable(g, start, a) && a < g.count && b in g.base[a]
    ensures Reachable(g, start, b)
  {
    var path :| Reached(g, start, path) && path[|path| - 1] == a;
    var longer := path + [b];
    forall i | 0 < i < |longer| ensures longer[i] in g.base[longer[i - 1]] {
      if i < |path| { assert longer[i] == path[i] && longer[i - 1] == path[i - 1]; }
    }
    assert Reached(g, start, longer);
  }

  lemma RoundReaches(g: Graph, dist: nat -> real, ef: nat, batch: nat, h: Heaps, visited: set<nat>, start: nat)
    requires Ready(g, h, visited) && Invariant(h, dist, ef, visited)
    requires forall n :: n in visited ==> Reachable(g, start, n)
    ensures forall n :: n in Round(g, dist, ef, batch, h, visited).1 ==> Reachable(g, start, n)
  {
    var taken := TakeBatch(h.cands, h.results, ef, batch).0;
    SubBatch(g, h, ef, batch);
    TakeBatchMembers(h, ef, batch);
    EdgesOfMembers(g, taken);
    forall n | n in Gather(EdgesOf(g, taken), visited).1 ensures Reachable(g, start, n) {
      if n !in visited {
        assert n in EdgesOf(g, taken);
        var e :| e in taken && n in g.base[e.id];
        assert e in h.cands;
        ReachableStep(g, start, e.id, n);
      }
    }
  }

  ghost predicate Stopped(h: Heaps, ef: nat) {
    h.cands == [] || (h.results != [] && Beyond(h.cands, h.results, ef))
  }

  lemma {:induction false} LoopKeeps(
    g: Graph, dist: nat -> real, ef: nat, batch: nat, h: Heaps, visited: set<nat>, start: nat)
    requires Ready(g, h, visited) && Invariant(h, dist, ef, visited) && Frontier(g, h, visited) && batch > 0
    requires forall n :: n in visited ==> Reachable(g, start, n)
    ensures
      var r := BatchedLoop(g, dist, ef, batch, h, visited);
      && Ready(g, r.0, r.1) && visited <= r.1
      && Invariant(r.0, dist, ef, r.1) && Frontier(g, r.0, r.1) && Stopped(r.0, ef)
      && forall n :: n in r.1 ==> Reachable(g, start, n)
    decreases g.count - |visited|, |h.cands|
  {
    if h.cands != [] && TakeBatch(h.cands, h.results, ef, batch).0 != [] {
      RoundKeeps(g, dist, ef, batch, h, visited);
      RoundReaches(g, dist, ef, batch, h, visited, start);
      RoundProgress(g, dist, ef, batch, h, visited);
      BoundedSize(visited, g.count);
      var (h', visited') := Round(g, dist, ef, batch, h, visited);
      LoopKeeps(g, dist, ef, batch, h', visited', start);
    }
  }

  lemma FinalKeeps(g: Graph, dist: nat -> real, k: nat, efSearch: nat, batch: nat)
    requires ValidGraph(g) && batch > 0
    ensures
      var (h, seen) := Final(g, dist, k, efSearch, batch);
      var ef, start := Max(efSearch, k), Start(g, dist);
      && Ready(g, h, seen) && start in seen
      && Invariant(h, dist, ef, seen) && Frontier(g, h, seen) && Stopped(h, ef)
      && forall n :: n in seen ==> Reachable(g, start, n)
  {
    var start := Start(g, dist);
    var h := Seeded(start, dist);
    SeededReady(g, start, dist);
    assert Reached(g, start, [start]);
    assert IdSet(h.results) == {start};
    LoopKeeps(g, dist, Max(efSearch, k), batch, h, {start}, start);
  }

  /**
   Closure on exit: the result list holds the ef nearest nodes evaluated, and each base neighbour of a
   listed node was evaluated, so it is listed itself or is no nearer than anything listed.
   */
  lemma ClosedOnExit(g: Graph, dist: nat -> real, k: nat, efSearch: nat, batch: nat)
    requires ValidGraph(g) && batch > 0
    ensures
      var (h, seen) := Final(g, dist, k, efSearch, batch);
      var kept := IdSet(h.results);
      && |h.results| == |kept| && Nearest(kept, seen, dist, Max(1, Max(efSearch, k)))
      && seen <= Below(g.count) && Start(g, dist) in seen
      && forall v, n :: v in kept && n in g.base[v] ==>
           n in seen && (n in kept || forall w :: w in kept ==> dist(w) <= dist(n))
  {
    FinalKeeps(g, dist, k, efSearch, batch);
    var (h, seen) := Final(g, dist, k, efSearch, batch);
    var kept := IdSet(h.results);
    ResultsExpanded(g, h, dist, Max(efSearch, k), seen);
    forall v, n | v in kept && n in g.base[v]
      ensures n in seen && (n in kept || forall w :: w in kept ==> dist(w) <= dist(n))
    {
      var e :| e in h.results && e.id == v;
      assert Expanded(g, e.id, seen);
    }
  }

  /** When the loop stops no listed node is waiting: a waiting one would be beyond the list's worst entry. */
  lemma ResultsExpanded(g: Graph, h: Heaps, dist: nat -> real, ef: nat, seen: set<nat>)
    requires ValidGraph(g) && Invariant(h, dist, ef, seen) && Frontier(g, h, seen) && Stopped(h, ef)
    ensures forall e :: e in h.results ==> Expanded(g, e.id, seen)
  {
    WorstFirst(h.results);
    if h.cands != [] {
      BestFirst(h.cands);
    }
  }

  ghost function Reach(g: Graph, start: nat): (r: set<nat>)
    requires ValidGraph(g)
  {
    set n | n in Below(g.count) && Reachable(g, start, n)
  }

  lemma {:induction false} ClosedContainsPath(g: Graph, start: nat, path: seq<nat>, closed: set<nat>, i: nat)
    requires ValidGraph(g) && Reached(g, start, path) && start in closed && i < |path|
    requires forall v, n :: v in closed && v < g.count && n in g.base[v] ==> n in closed
    ensures path[i] in closed
  {
    if i == 0 {
    } else {
      ClosedContainsPath(g, start, path, closed, i - 1);
      assert path[i] in g.base[path[i - 1]];
    }
  }

  lemma ClosedIsReach(g: Graph, start: nat, closed: set<nat>)
    requires ValidGraph(g) && start in closed && closed <= Below(g.count)
    requires forall v, n :: v in closed && n in g.base[v] ==> n in closed
    requires forall n :: n in closed ==> Reachable(g, start, n)
    ensures closed == Reach(g, start)
  {
    forall n | n in Reach(g, start) ensures n in closed {
      var path :| Reached(g, start, path) && path[|path| - 1] == n;
      ClosedContainsPath(g, start, path, closed, |path| - 1);
    }
  }

  lemma EverythingKept(
    g: Graph, h: Heaps, dist: nat -> real, ef: nat, seen: set<nat>, start: nat)
    requires ValidGraph(g) && Invariant(h, dist, ef, seen) && Frontier(g, h, seen) && Stopped(h, ef)
    requires seen <= Below(g.count) && ef >= g.count && start in seen
    requires forall n :: n in seen ==> Reachable(g, start, n)
    ensures seen == Reach(g, start)
  {
    BoundedSize(seen, g.count);
    SubsetSize(IdSet(h.results), seen);
    ResultsExpanded(g, h, dist, ef, seen);
    forall v, n | v in seen && n in g.base[v] ensures n in seen {
      var e :| e in h.results && e.id == v;
      assert Expanded(g, e.id, seen);
    }
    ClosedIsReach(g, start, seen);
  }

  /** With ef at least the node count the search evaluates exactly what base edges reach from the start. */
  lemma ExhaustiveSeesReach(g: Graph, dist: nat -> real, k: nat, efSearch: nat, batch: nat)
    requires ValidGraph(g) && batch > 0 && Max(efSearch, k) >= g.count
    ensures Final(g, dist, k, efSearch, batch).1 == Reach(g, Start(g, dist))
  {
    FinalKeeps(g, dist, k, efSearch, batch);
    var (h, seen) := Final(g, dist, k, efSearch, batch);
    EverythingKept(g, h, dist, Max(efSearch, k), seen, Start(g, dist));
  }

  // ---------- the returned list ----------

  /** `ids` lists the `k` nearest of `seen`, nearest first, each once. */
  ghost predicate Lists(ids: seq<nat>, seen: set<nat>, dist: nat -> real, k: nat) {
    && Distinct(ids)
    && (forall i, j :: 0 <= i < j < |ids| ==> dist(ids[i]) <= dist(ids[j]))
    && Nearest(Elements(ids), seen, dist, k)
  }

  lemma NearestOfNearest(a: set<nat>, b: set<nat>, c: set<nat>, dist: nat -> real, k: nat, capacity: nat)
    requires Nearest(a, b, dist, k) && Nearest(b, c, dist, capacity) && k <= capacity
    ensures Nearest(a, c, dist, k)
  {
    SubsetSize(a, b);
    SubsetSize(b, c);
    forall u, v | u in c - a && v in a ensures dist(v) <= dist(u) {
      assert v in b;
    }
  }

  lemma SortedResults(results: seq<Entry>, dist: nat -> real, evaluated: set<nat>)
    requires Faithful(results, dist, evaluated) && forall e :: e in results ==> multiset(results)[e] == 1
    ensures
      var sorted := Ids(StableSort(results, NoFarther));
      && Distinct(sorted) && Elements(sorted) == IdSet(results)
      && forall i, j :: 0 <= i < j < |sorted| ==> dist(sorted[i]) <= dist(sorted[j])
  {
    var sorted := StableSort(results, NoFarther);
    StableSortSorted(results, NoFarther);
    SameElements(results, sorted);
    DistinctMultiplicity(sorted);
    hide StableSort;
    DistinctIds(results, sorted, dist, evaluated);
    SameIds(results, sorted);
  }

  lemma DistinctIds(results: seq<Entry>, sorted: seq<Entry>, dist: nat -> real, evaluated: set<nat>)
    requires Faithful(results, dist, evaluated) && forall x :: x in sorted ==> x in results
    requires Distinct(sorted) && SortedBy(sorted, NoFarther)
    ensures Distinct(Ids(sorted))
    ensures forall i, j :: 0 <= i < j < |Ids(sorted)| ==> dist(Ids(sorted)[i]) <= dist(Ids(sorted)[j])
  {
    var ids := Ids(sorted);
    forall i, j | 0 <= i < j < |ids| ensures ids[i] != ids[j] && dist(ids[i]) <= dist(ids[j]) {
      assert sorted[i] in results && sorted[j] in results;
      assert NoFarther(sorted[i], sorted[j]) && sorted[i] != sorted[j];
    }
  }

  lemma SameIds(results: seq<Entry>, sorted: seq<Entry>)
    requires forall x :: x in sorted <==> x in results
    ensures Elements(Ids(sorted)) == IdSet(results)
  {
    var ids := Ids(sorted);
    forall n | n in ids ensures n in IdSet(results) {
      var i :| 0 <= i < |ids| && ids[i] == n;
      assert sorted[i] in results;
    }
    forall n | n in IdSet(results) ensures n in ids {
      var e :| e in results && e.id == n;
      var i :| 0 <= i < |sorted| && sorted[i] == e;
      assert ids[i] == n;
    }
  }

  lemma PrefixLists(ids: seq<nat>, dist: nat -> real, k: nat)
    requires Distinct(ids)
    requires forall i, j :: 0 <= i < j < |ids| ==> dist(ids[i]) <= dist(ids[j])
    ensures Lists(ids[..Min(k, |ids|)], Elements(ids), dist, k)
  {
    var top := ids[..Min(k, |ids|)];
    DistinctSize(ids);
    DistinctSize(top);
    forall u, v | u in Elements(ids) - Elements(top) && v in Elements(top) ensures dist(v) <= dist(u) {
      var j :| 0 <= j < |ids| && ids[j] == u;
      var i :| 0 <= i < |top| && top[i] == v;
      assert u == ids[j] && u !in ids[..|top|];
    }
  }

  lemma RankedLists(results: seq<Entry>, k: nat, dist: nat -> real, evaluated: set<nat>)
    requires Faithful(results, dist, evaluated) && forall e :: e in results ==> multiset(results)[e] == 1
    ensures Lists(Ranked(results, k), IdSet(results), dist, k)
  {
    SortedResults(results, dist, evaluated);
    hide Faithful, StableSort;
    var sorted := StableSort(results, NoFarther);
    PrefixLists(Ids(sorted), dist, k);
    assert Ranked(results, k) == Ids(sorted)[..Min(k, |sorted|)];
  }

  /** Every search lists, nearest first and without repeats, the k nearest of the nodes it evaluated. */
  lemma SearchListsNearestSeen(g: Graph, dist: nat -> real, k: nat, efSearch: nat, batch: nat)
    requires ValidGraph(g) && batch > 0
    ensures Lists(BatchedSearch(g, dist, k, efSearch, batch), Final(g, dist, k, efSearch, batch).1, dist, k)
  {
    FinalKeeps(g, dist, k, efSearch, batch);
    var (h, seen) := Final(g, dist, k, efSearch, batch);
    RankedLists(h.results, k, dist, seen);
    NearestOfNearest(
      Elements(Ranked(h.results, k)), IdSet(h.results), seen, dist, k, Max(1, Max(efSearch, k)));
  }

  /** Exactness: with ef at least the node count the answer is the exact k nearest reachable nodes. */
  lemma ExhaustiveSearchExact(g: Graph, dist: nat -> real, k: nat, efSearch: nat, batch: nat)
    requires ValidGraph(g) && batch > 0 && Max(efSearch, k) >= g.count
    ensures Lists(BatchedSearch(g, dist, k, efSearch, batch), Reach(g, Start(g, dist)), dist, k)
  {
    SearchListsNearestSeen(g, dist, k, efSearch, batch);
    ExhaustiveSeesReach(g, dist, k, efSearch, batch);
  }
}
