/** What one round of the base level does to the candidates, the results and the marks, without reference to how it does it. */
module SearchSteps {
  import opened Sorting
  import opened Finite
  import opened MinHeaps
  import opened GraphSearch
  import opened SearchProperties

  /** `taken` is the nearest candidates within the worst result, nearest first: as many as fit, and no fewer. */
  ghost predicate IsBatch(cands: seq<Entry>, results: seq<Entry>, ef: nat, batch: nat, taken: seq<Entry>, left: seq<Entry>)
    requires results != []
  {
    && multiset(taken) + multiset(left) == multiset(cands) && |taken| <= batch
    && (forall i, j :: 0 <= i < j < |taken| ==> taken[i].dist <= taken[j].dist)
    && (forall t, x :: t in taken && x in left ==> t.dist <= x.dist)
    && (forall t :: t in taken ==> |results| < ef || t.dist <= results[0].dist)
    && (|taken| < batch ==> forall x :: x in left ==> |results| >= ef && x.dist > results[0].dist)
  }

  lemma NothingTaken(cands: seq<Entry>, results: seq<Entry>, ef: nat, batch: nat)
    requires NearHeap(cands) && results != [] && (batch == 0 || cands == [] || Beyond(cands, results, ef))
    ensures IsBatch(cands, results, ef, batch, [], cands)
  {
    if cands != [] { BestFirst(cands); }
  }

  lemma OneTaken(
    cands: seq<Entry>, results: seq<Entry>, ef: nat, batch: nat, popped: seq<Entry>, rest: seq<Entry>, left: seq<Entry>)
    requires NearHeap(cands) && results != [] && cands != [] && batch > 0 && !Beyond(cands, results, ef)
    requires multiset(popped) == multiset(cands) - multiset{cands[0]} && IsBatch(popped, results, ef, batch - 1, rest, left)
    ensures IsBatch(cands, results, ef, batch, [cands[0]] + rest, left)
  {
    TopIsNearest(cands, popped, rest, left);
    ConsSplit(cands, popped, rest, left);
    hide NearHeap;
  }

  lemma {:induction false} BatchMeans(cands: seq<Entry>, results: seq<Entry>, ef: nat, batch: nat)
    requires NearHeap(cands) && results != []
    ensures
      var (taken, left) := TakeBatch(cands, results, ef, batch);
      IsBatch(cands, results, ef, batch, taken, left) && NearHeap(left)
    decreases batch
  {
    hide IsBatch, NearHeap, Popped;
    if batch == 0 || cands == [] || Beyond(cands, results, ef) {
      NothingTaken(cands, results, ef, batch);
    } else {
      var popped := Popped(cands, NEAR_FIRST);
      PoppedNear(cands);
      BatchMeans(popped, results, ef, batch - 1);
      var (rest, left) := TakeBatch(popped, results, ef, batch - 1);
      OneTaken(cands, results, ef, batch, popped, rest, left);
    }
  }

  lemma PoppedNear(cands: seq<Entry>)
    requires NearHeap(cands) && cands != []
    ensures NearHeap(Popped(cands, NEAR_FIRST))
  {
    HeapOrderings();
    PoppedHeap(cands, NEAR_FIRST);
  }

  lemma TopIsNearest(cands: seq<Entry>, popped: seq<Entry>, rest: seq<Entry>, left: seq<Entry>)
    requires NearHeap(cands) && cands != [] && multiset(popped) == multiset(cands) - multiset{cands[0]}
    requires multiset(popped) == multiset(rest) + multiset(left)
    ensures forall x :: x in rest || x in left ==> cands[0].dist <= x.dist
  {
    BestFirst(cands);
    forall x | x in rest || x in left ensures x in cands {
      assert x in multiset(rest) || x in multiset(left);
      assert x in multiset(popped);
      assert x in multiset(cands);
    }
  }

  /** `out` is farthest among the results and e. */
  ghost predicate Farthest(out: Entry, results: seq<Entry>, e: Entry) {
    (out == e || out in results) && e.dist <= out.dist && forall x :: x in results ==> x.dist <= out.dist
  }

  /**
   A node is kept when the list is not full or some result is strictly farther: it becomes a candidate and a result,
   and a list grown too long loses a farthest entry. A node no nearer than a full list changes nothing.
   */
  lemma OfferMeans(h: Heaps, n: nat, dist: nat -> real, ef: nat)
    requires NearHeap(h.cands) && FarHeap(h.results) && h.results != []
    ensures
      var e, after := Entry(dist(n), n), Offer(h, n, dist, ef);
      var kept := |h.results| < ef || exists x :: x in h.results && e.dist < x.dist;
      && NearHeap(after.cands) && FarHeap(after.results)
      && (!kept ==> after == h)
      && (kept ==> multiset(after.cands) == multiset(h.cands) + multiset{e})
      && (|h.results| < ef ==> multiset(after.results) == multiset(h.results) + multiset{e})
      && (kept && |h.results| >= ef ==>
            exists out :: Farthest(out, h.results, e) && multiset(after.results) == multiset(h.results) + multiset{e} - multiset{out})
  {
    var e := Entry(dist(n), n);
    HeapOrderings();
    WorstFirst(h.results);
    assert h.results[0] in h.results;
    PushedHeap(h.cands, e, NEAR_FIRST);
    PushedHeap(h.results, e, FAR_FIRST);
    var pushed := Pushed(h.results, e, FAR_FIRST);
    PoppedHeap(pushed, FAR_FIRST);
    WorstFirst(pushed);
    RootFarthest(h.results, e, pushed);
  }

  lemma RootFarthest(results: seq<Entry>, e: Entry, pushed: seq<Entry>)
    requires multiset(pushed) == multiset(results) + multiset{e} && pushed != []
    requires forall x :: x in pushed ==> x.dist <= pushed[0].dist
    ensures Farthest(pushed[0], results, e)
  {
    forall x | x in results || x == e ensures x in pushed { assert x in multiset(pushed); }
    assert pushed[0] in multiset(pushed);
    assert pushed[0] in multiset(results) + multiset{e};
  }

  /** a stands before the first b. */
  ghost predicate MetBefore(edges: seq<nat>, a: nat, b: nat) {
    exists k :: 0 <= k < |edges| && edges[k] == a && b !in edges[..k + 1]
  }

  ghost predicate MeetingOrder(edges: seq<nat>, found: seq<nat>) {
    forall i, j :: 0 <= i < j < |found| ==> MetBefore(edges, found[i], found[j])
  }

  /** What is gathered are the unmarked ones among the edges, each once, in the order in which they are first met. */
  lemma {:induction false} GatherMeans(edges: seq<nat>, visited: set<nat>)
    ensures
      var (found, marked) := Gather(edges, visited);
      && Distinct(found) && (forall n :: n in found <==> n in edges && n !in visited)
      && marked == visited + Elements(found) && MeetingOrder(edges, found)
    decreases |edges|
  {
    if edges == [] {
    } else {
      var n, rest := edges[0], edges[1..];
      assert edges == [n] + rest;
      var seen := if n in visited then visited else visited + {n};
      GatherMeans(rest, seen);
      var found := Gather(rest, seen).0;
      assert n !in found;
      forall i, j | 0 <= i < j < |found| ensures MetBefore(edges, found[i], found[j]) {
        assert found[j] in found;
        MetLater(rest, n, found[i], found[j]);
      }
      if n !in visited {
        forall j | 0 <= j < |found| ensures MetBefore(edges, n, found[j]) {
          assert found[j] in found && edges[0] == n && edges[..1] == [n];
        }
      }
    }
  }

  lemma MetLater(edges: seq<nat>, n: nat, a: nat, b: nat)
    requires MetBefore(edges, a, b) && b != n
    ensures MetBefore([n] + edges, a, b)
  {
    var k :| 0 <= k < |edges| && edges[k] == a && b !in edges[..k + 1];
    assert ([n] + edges)[k + 1] == a && ([n] + edges)[..k + 2] == [n] + edges[..k + 1];
  }

  /** The edges of a batch are the base edge lists of its nodes, one after another. */
  lemma {:induction false} EdgesJoin(g: Graph, a: seq<Entry>, b: seq<Entry>)
    requires ValidGraph(g) && InGraph(g, a) && InGraph(g, b)
    ensures InGraph(g, a + b) && EdgesOf(g, a + b) == EdgesOf(g, a) + EdgesOf(g, b)
    decreases |a|
  {
    hide ValidGraph;
    if a == [] {
      assert a + b == b;
    } else {
      EdgesJoin(g, a[1..], b);
      assert (a + b)[1..] == a[1..] + b;
      hide InGraph;
      EdgesFirst(g, a);
      EdgesFirst(g, a + b);
    }
  }

  lemma EdgesFirst(g: Graph, a: seq<Entry>)
    requires ValidGraph(g) && InGraph(g, a) && a != []
    ensures a[0].id < g.count == |g.base| && InGraph(g, a[1..])
    ensures EdgesOf(g, a) == g.base[a[0].id] + EdgesOf(g, a[1..])
  {}

  lemma OneEdgeList(g: Graph, e: Entry)
    requires ValidGraph(g) && e.id < g.count
    ensures EdgesOf(g, [e]) == g.base[e.id]
  {
    assert [e][1..] == [] && EdgesOf(g, []) == [];
    assert g.base[e.id] + [] == g.base[e.id];
  }
}
