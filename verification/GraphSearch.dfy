/**
 The two-phase graph search as functions of the heap contents. `dist` is the distance from one fixed
 query to each node. `BatchedLoop` is the base phase of the lazy search, which expands up to `batch`
 candidates a round; `ResidentLoop` is the base phase of the resident search, which expands one and
 evaluates neighbours as it meets them.
 */
module GraphSearch {
  import opened Sorting
  import opened Finite
  import opened MinHeaps

  datatype Entry = Entry(dist: real, id: nat)

  datatype Graph = Graph(
    count: nat, entryPoint: nat, maxLevel: nat, base: seq<seq<nat>>, upper: seq<seq<seq<nat>>>)

  ghost predicate ValidGraph(g: Graph) {
    && g.entryPoint < g.count == |g.base| == |g.upper|
    && (forall id, k :: 0 <= id < g.count && 0 <= k < |g.base[id]| ==> g.base[id][k] < g.count)
    && (forall id, l, k :: 0 <= id < g.count && 0 <= l < |g.upper[id]| && 0 <= k < |g.upper[id][l]| ==>
          g.upper[id][l][k] < g.count)
  }

  ghost predicate AllBelow(ids: seq<nat>, count: nat) {
    forall k :: 0 <= k < |ids| ==> ids[k] < count
  }

  ghost predicate EdgesInside(base: seq<seq<nat>>) {
    forall id :: 0 <= id < |base| ==> AllBelow(base[id], |base|)
  }

  /** A level the node does not reach has no edges. */
  function UpperEdges(g: Graph, id: nat, level: nat): (r: seq<nat>)
    requires id < |g.upper| && level > 0
  {
    if level - 1 < |g.upper[id]| then g.upper[id][level - 1] else []
  }

  // ---------- upper levels ----------

  /** One pass over an edge list: `curr` moves to each strictly nearer node met. */
  function Scan(edges: seq<nat>, curr: nat, dist: nat -> real): (r: nat)
    ensures dist(r) <= dist(curr)
    ensures r == curr || (r in edges && dist(r) < dist(curr))
    ensures forall k :: 0 <= k < |edges| ==> dist(r) <= dist(edges[k])
  {
    if edges == [] then curr
    else
      var next := if dist(edges[0]) < dist(curr) then edges[0] else curr;
      var r := Scan(edges[1..], next, dist);
      assert forall k :: 0 < k < |edges| ==> edges[k] == edges[1..][k - 1];
      r
  }

  ghost function NearerThan(count: nat, dist: nat -> real, t: real): (r: set<nat>)
    ensures forall x: nat :: x in r <==> x < count && dist(x) < t
  {
    set x: nat | x in Below(count) && dist(x) < t
  }

  lemma NearerShrinks(count: nat, dist: nat -> real, a: nat, b: nat)
    requires a < count && dist(a) < dist(b)
    ensures NearerThan(count, dist, dist(a)) < NearerThan(count, dist, dist(b))
  {
    assert a in NearerThan(count, dist, dist(b));
  }

  /** Passes over one level until one changes nothing; the current distance falls strictly, so it ends. */
  function DescendLevel(g: Graph, level: nat, curr: nat, dist: nat -> real): (r: nat)
    requires ValidGraph(g) && level > 0 && curr < g.count
    ensures r < g.count && dist(r) <= dist(curr)
    ensures forall n :: n in UpperEdges(g, r, level) ==> dist(r) <= dist(n)
    decreases NearerThan(g.count, dist, dist(curr))
  {
    var next := Scan(UpperEdges(g, curr, level), curr, dist);
    if next == curr then curr
    else
      NearerShrinks(g.count, dist, next, curr);
      DescendLevel(g, level, next, dist)
  }

  function Descend(g: Graph, level: nat, curr: nat, dist: nat -> real): (r: nat)
    requires ValidGraph(g) && curr < g.count
    ensures r < g.count && dist(r) <= dist(curr)
    ensures level > 0 ==> forall n :: n in UpperEdges(g, r, 1) ==> dist(r) <= dist(n)
  {
    if level == 0 then curr else Descend(g, level - 1, DescendLevel(g, level, curr, dist), dist)
  }

  // ---------- what the descent does, from the edge lists alone ----------

  /** The first of the nodes nearest the query in an edge list. */
  ghost predicate FirstNearest(edges: seq<nat>, dist: nat -> real, b: nat) {
    exists k :: 0 <= k < |edges| && FirstNearestAt(edges, dist, b, k)
  }

  ghost predicate FirstNearestAt(edges: seq<nat>, dist: nat -> real, b: nat, k: nat)
    requires k < |edges|
  {
    && edges[k] == b
    && (forall j :: 0 <= j < k ==> dist(b) < dist(edges[j]))
    && (forall j :: k <= j < |edges| ==> dist(b) <= dist(edges[j]))
  }

  /** A move on one upper level: b is strictly nearer than a, and the first of the nearest in the level's edge list of a. */
  ghost predicate Hop(g: Graph, dist: nat -> real, level: nat, a: nat, b: nat)
    requires level > 0
  {
    && a < |g.upper| && level - 1 < |g.upper[a]|
    && dist(b) < dist(a) && FirstNearest(g.upper[a][level - 1], dist, b)
  }

  /** No edge of a on the level leads nearer. */
  ghost predicate Settled(g: Graph, dist: nat -> real, level: nat, a: nat)
    requires level > 0
  {
    a < |g.upper| && level - 1 < |g.upper[a]| ==> NoneNearer(g.upper[a][level - 1], dist, a)
  }

  ghost predicate NoneNearer(edges: seq<nat>, dist: nat -> real, a: nat) {
    forall k :: 0 <= k < |edges| ==> dist(a) <= dist(edges[k])
  }

  /** A walk on one level from a to b, each step a move, that ends where no edge leads nearer. */
  ghost predicate Walk(g: Graph, dist: nat -> real, level: nat, a: nat, b: nat, path: seq<nat>)
    requires level > 0
  {
    && path != [] && path[0] == a && path[|path| - 1] == b && Settled(g, dist, level, b)
    && forall i :: 0 < i < |path| ==> Hop(g, dist, level, path[i - 1], path[i])
  }

  ghost predicate Walks(g: Graph, dist: nat -> real, level: nat, a: nat, b: nat)
    requires level > 0
  {
    exists path :: Walk(g, dist, level, a, b, path)
  }

  /** Where the search stands as it leaves each level: s[maxLevel] is the entry point, and each level walks to the next stop. */
  ghost predicate Stops(g: Graph, dist: nat -> real, s: seq<nat>) {
    && |s| == g.maxLevel + 1 && s[g.maxLevel] == g.entryPoint
    && forall level :: 0 < level <= g.maxLevel ==> Walks(g, dist, level, s[level], s[level - 1])
  }

  lemma SomeFirstNearest(edges: seq<nat>, dist: nat -> real, n: nat)
    requires n <= |edges|
    ensures n == 0 || exists k :: 0 <= k < n && FirstNearestAt(edges[..n], dist, edges[k], k)
  {
    if n > 1 {
      SomeFirstNearest(edges, dist, n - 1);
      var k :| 0 <= k < n - 1 && FirstNearestAt(edges[..n - 1], dist, edges[k], k);
      assert forall j :: 0 <= j < n - 1 ==> edges[..n][j] == edges[..n - 1][j];
      var m := if dist(edges[n - 1]) < dist(edges[k]) then n - 1 else k;
      assert FirstNearestAt(edges[..n], dist, edges[m], m);
    } else if n == 1 {
      assert FirstNearestAt(edges[..1], dist, edges[0], 0);
    }
  }

  lemma {:induction false} ScanTakesFirst(edges: seq<nat>, curr: nat, dist: nat -> real, k: nat)
    requires k < |edges| && FirstNearestAt(edges, dist, edges[k], k) && dist(edges[k]) < dist(curr)
    ensures Scan(edges, curr, dist) == edges[k]
    decreases |edges|
  {
    var next := if dist(edges[0]) < dist(curr) then edges[0] else curr;
    assert forall j :: 0 < j < |edges| ==> edges[j] == edges[1..][j - 1];
    if k > 0 { ScanTakesFirst(edges[1..], next, dist, k - 1); }
  }

  /** One pass goes to the first of the nearest when that is nearer, and stays otherwise. */
  lemma ScanMeans(edges: seq<nat>, curr: nat, dist: nat -> real)
    ensures
      var r := Scan(edges, curr, dist);
      || (r == curr && NoneNearer(edges, dist, curr))
      || (dist(r) < dist(curr) && FirstNearest(edges, dist, r))
  {
    SomeFirstNearest(edges, dist, |edges|);
    assert edges[..|edges|] == edges;
    if edges != [] {
      var k :| 0 <= k < |edges| && FirstNearestAt(edges, dist, edges[k], k);
      if dist(edges[k]) < dist(curr) { ScanTakesFirst(edges, curr, dist, k); }
    }
  }

  lemma LongerWalk(g: Graph, dist: nat -> real, level: nat, a: nat, next: nat, b: nat)
    requires level > 0 && Hop(g, dist, level, a, next) && Walks(g, dist, level, next, b)
    ensures Walks(g, dist, level, a, b)
  {
    var path :| Walk(g, dist, level, next, b, path);
    hide Hop, Settled;
    assert Walk(g, dist, level, a, b, [a] + path);
  }

  /** The loop over a level ends where a walk leads. */
  lemma {:induction false} LevelWalks(g: Graph, level: nat, curr: nat, dist: nat -> real)
    requires ValidGraph(g) && level > 0 && curr < g.count
    ensures Walks(g, dist, level, curr, DescendLevel(g, level, curr, dist))
    decreases NearerThan(g.count, dist, dist(curr))
  {
    var edges := UpperEdges(g, curr, level);
    var next := Scan(edges, curr, dist);
    ScanMeans(edges, curr, dist);
    if next == curr {
      assert Walk(g, dist, level, curr, curr, [curr]);
    } else {
      NearerShrinks(g.count, dist, next, curr);
      LevelWalks(g, level, next, dist);
      LongerWalk(g, dist, level, curr, next, DescendLevel(g, level, next, dist));
    }
  }

  /** And no walk leads anywhere else. */
  lemma {:induction false} WalkEnds(g: Graph, level: nat, a: nat, b: nat, dist: nat -> real, path: seq<nat>)
    requires ValidGraph(g) && a < g.count && level > 0 && Walk(g, dist, level, a, b, path)
    ensures b == DescendLevel(g, level, a, dist)
    decreases |path|
  {
    var edges := UpperEdges(g, a, level);
    if |path| > 1 {
      assert Hop(g, dist, level, path[0], path[1]);
      var k :| 0 <= k < |edges| && FirstNearestAt(edges, dist, path[1], k);
      ScanTakesFirst(edges, a, dist, k);
      WalkRest(g, level, a, b, dist, path);
      WalkEnds(g, level, path[1], b, dist, path[1..]);
    }
  }

  lemma WalkRest(g: Graph, level: nat, a: nat, b: nat, dist: nat -> real, path: seq<nat>)
    requires level > 0 && |path| > 1 && Walk(g, dist, level, a, b, path)
    ensures Walk(g, dist, level, path[1], b, path[1..])
  {
    hide Hop, Settled;
  }

  lemma {:induction false} DescendStops(g: Graph, level: nat, curr: nat, dist: nat -> real) returns (s: seq<nat>)
    requires ValidGraph(g) && curr < g.count
    ensures |s| == level + 1 && s[level] == curr && s[0] == Descend(g, level, curr, dist)
    ensures forall l :: 0 < l <= level ==> Walks(g, dist, l, s[l], s[l - 1])
  {
    if level == 0 {
      s := [curr];
    } else {
      LevelWalks(g, level, curr, dist);
      var rest := DescendStops(g, level - 1, DescendLevel(g, level, curr, dist), dist);
      hide Walks;
      s := rest + [curr];
    }
  }

  lemma {:induction false} StopsEnd(g: Graph, level: nat, dist: nat -> real, s: seq<nat>)
    requires ValidGraph(g) && level < |s| && s[level] < g.count
    requires forall l :: 0 < l <= level ==> Walks(g, dist, l, s[l], s[l - 1])
    ensures s[0] == Descend(g, level, s[level], dist)
  {
    if level > 0 {
      assert Walks(g, dist, level, s[level], s[level - 1]);
      var path :| Walk(g, dist, level, s[level], s[level - 1], path);
      WalkEnds(g, level, s[level], s[level - 1], dist, path);
      StopsEnd(g, level - 1, dist, s);
    }
  }

  // ---------- base level ----------

  datatype Heaps = Heaps(cands: seq<Entry>, results: seq<Entry>)

  const NEAR_FIRST: (Entry, Entry) -> real := (x: Entry, y: Entry) => x.dist - y.dist
  const FAR_FIRST: (Entry, Entry) -> real := (x: Entry, y: Entry) => y.dist - x.dist

  lemma HeapOrderings()
    ensures Ordering(NEAR_FIRST) && Ordering(FAR_FIRST)
  {
  }

  /** Whether the search is over: the list is full and the nearest candidate is beyond its worst entry. */
  predicate Beyond(cands: seq<Entry>, results: seq<Entry>, ef: nat)
    requires cands != [] && results != []
  {
    |results| >= ef && cands[0].dist > results[0].dist
  }

  function Offer(h: Heaps, n: nat, dist: nat -> real, ef: nat): (r: Heaps)
    requires h.results != []
    ensures r.results != []
  {
    var e := Entry(dist(n), n);
    if |h.results| < ef || e.dist < h.results[0].dist then
      var pushed := Pushed(h.results, e, FAR_FIRST);
      Heaps(Pushed(h.cands, e, NEAR_FIRST), if |pushed| > ef then Popped(pushed, FAR_FIRST) else pushed)
    else h
  }

  function OfferAll(h: Heaps, ns: seq<nat>, dist: nat -> real, ef: nat): (r: Heaps)
    requires h.results != []
    ensures r.results != []
    decreases |ns|
  {
    if ns == [] then h else OfferAll(Offer(h, ns[0], dist, ef), ns[1..], dist, ef)
  }

  /** The batch popped this round, and the candidates left. */
  function TakeBatch(cands: seq<Entry>, results: seq<Entry>, ef: nat, batch: nat): (r: (seq<Entry>, seq<Entry>))
    requires results != []
    decreases batch
  {
    if batch == 0 || cands == [] || Beyond(cands, results, ef) then ([], cands)
    else
      var rest := TakeBatch(Popped(cands, NEAR_FIRST), results, ef, batch - 1);
      ([cands[0]] + rest.0, rest.1)
  }

  lemma ConsSplit<T>(all: seq<T>, rest: seq<T>, taken: seq<T>, left: seq<T>)
    requires all != [] && multiset(rest) == multiset(all) - multiset{all[0]}
    requires multiset(rest) == multiset(taken) + multiset(left)
    ensures multiset(all) == multiset([all[0]] + taken) + multiset(left)
  {
    assert all[0] in all && all[0] in multiset(all);
    assert multiset(all) == multiset(rest) + multiset{all[0]};
    assert multiset([all[0]] + taken) == multiset{all[0]} + multiset(taken);
  }

  lemma {:induction false} TakeBatchSplits(cands: seq<Entry>, results: seq<Entry>, ef: nat, batch: nat)
    requires results != []
    ensures multiset(cands) == multiset(TakeBatch(cands, results, ef, batch).0) + multiset(TakeBatch(cands, results, ef, batch).1)
    decreases batch
  {
    if batch > 0 && cands != [] && !Beyond(cands, results, ef) {
      var popped := Popped(cands, NEAR_FIRST);
      TakeBatchSplits(popped, results, ef, batch - 1);
      var (taken, left) := TakeBatch(popped, results, ef, batch - 1);
      ConsSplit(cands, popped, taken, left);
      assert TakeBatch(cands, results, ef, batch) == ([cands[0]] + taken, left);
    }
  }

  function EdgesOf(g: Graph, batch: seq<Entry>): (r: seq<nat>)
    requires ValidGraph(g) && InGraph(g, batch)
    ensures AllBelow(r, g.count)
  {
    if batch == [] then [] else g.base[batch[0].id] + EdgesOf(g, batch[1..])
  }

  ghost predicate InGraph(g: Graph, es: seq<Entry>) {
    forall k :: 0 <= k < |es| ==> es[k].id < g.count
  }

  /** First meetings, in order, and the visited set after marking them. */
  function Gather(edges: seq<nat>, visited: set<nat>): (r: (seq<nat>, set<nat>))
    ensures forall n :: n in r.0 ==> n in edges && n !in visited
    ensures r.1 == visited + Elements(r.0)
    ensures forall n :: n in edges ==> n in r.1
  {
    if edges == [] then ([], visited)
    else
      var n := edges[0];
      assert edges == [n] + edges[1..];
      if n in visited then Gather(edges[1..], visited)
      else
        var rest := Gather(edges[1..], visited + {n});
        ([n] + rest.0, rest.1)
  }

  lemma NewInGraph(edges: seq<nat>, visited: set<nat>, count: nat)
    requires AllBelow(edges, count)
    ensures AllBelow(Gather(edges, visited).0, count)
    ensures visited <= Below(count) ==> Gather(edges, visited).1 <= Below(count)
  {
    var found := Gather(edges, visited).0;
    forall k | 0 <= k < |found| ensures found[k] < count {
      assert found[k] in found && found[k] in edges;
      var j :| 0 <= j < |edges| && edges[j] == found[k];
    }
  }

  ghost predicate Ready(g: Graph, h: Heaps, visited: set<nat>) {
    ValidGraph(g) && InGraph(g, h.cands) && h.results != [] && visited <= Below(g.count)
  }

  lemma SubBatch(g: Graph, h: Heaps, ef: nat, batch: nat)
    requires InGraph(g, h.cands) && h.results != []
    ensures InGraph(g, TakeBatch(h.cands, h.results, ef, batch).0) && InGraph(g, TakeBatch(h.cands, h.results, ef, batch).1)
  {
    var t := TakeBatch(h.cands, h.results, ef, batch);
    TakeBatchSplits(h.cands, h.results, ef, batch);
    forall k | 0 <= k < |t.0| ensures t.0[k].id < g.count { assert t.0[k] in multiset(t.0) && t.0[k] in multiset(h.cands); }
    forall k | 0 <= k < |t.1| ensures t.1[k].id < g.count { assert t.1[k] in multiset(t.1) && t.1[k] in multiset(h.cands); }
  }

  lemma {:induction false} OfferAllInGraph(g: Graph, h: Heaps, ns: seq<nat>, dist: nat -> real, ef: nat)
    requires InGraph(g, h.cands) && h.results != [] && AllBelow(ns, g.count)
    ensures InGraph(g, OfferAll(h, ns, dist, ef).cands)
    decreases |ns|
  {
    if ns == [] {
    } else {
      var h' := Offer(h, ns[0], dist, ef);
      forall k | 0 <= k < |h'.cands| ensures h'.cands[k].id < g.count { assert h'.cands[k] in multiset(h'.cands); }
      OfferAllInGraph(g, h', ns[1..], dist, ef);
    }
  }

  /** One round: expand the batch, mark and evaluate what it meets for the first time. */
  function Round(g: Graph, dist: nat -> real, ef: nat, batch: nat, h: Heaps, visited: set<nat>): (r: (Heaps, set<nat>))
    requires Ready(g, h, visited)
    ensures Ready(g, r.0, r.1) && visited <= r.1
  {
    var (taken, left) := TakeBatch(h.cands, h.results, ef, batch);
    SubBatch(g, h, ef, batch);
    var (toVisit, marked) := Gather(EdgesOf(g, taken), visited);
    assert AllBelow(toVisit, g.count) by { NewInGraph(EdgesOf(g, taken), visited, g.count); }
    OfferAllInGraph(g, Heaps(left, h.results), toVisit, dist, ef);
    (OfferAll(Heaps(left, h.results), toVisit, dist, ef), marked)
  }

  lemma RoundProgress(g: Graph, dist: nat -> real, ef: nat, batch: nat, h: Heaps, visited: set<nat>)
    requires Ready(g, h, visited)
    requires TakeBatch(h.cands, h.results, ef, batch).0 != []
    ensures
      var r := Round(g, dist, ef, batch, h, visited);
      |visited| < |r.1| <= g.count || (r.1 == visited && |r.0.cands| < |h.cands|)
  {
    var (taken, left) := TakeBatch(h.cands, h.results, ef, batch);
    SubBatch(g, h, ef, batch);
    var (toVisit, marked) := Gather(EdgesOf(g, taken), visited);
    BoundedSize(marked, g.count);
    SubsetSize(visited, marked);
    if toVisit == [] {
      assert marked == visited;
      TakeBatchSplits(h.cands, h.results, ef, batch);
      assert |multiset(h.cands)| == |multiset(taken)| + |multiset(left)|;
    } else {
      assert toVisit[0] in marked && toVisit[0] !in visited;
    }
  }

  function BatchedLoop(g: Graph, dist: nat -> real, ef: nat, batch: nat, h: Heaps, visited: set<nat>): (r: (Heaps, set<nat>))
    requires Ready(g, h, visited)
    decreases g.count - |visited|, |h.cands|
  {
    if h.cands == [] || TakeBatch(h.cands, h.results, ef, batch).0 == [] then (h, visited)
    else
      var (h', visited') := Round(g, dist, ef, batch, h, visited);
      RoundProgress(g, dist, ef, batch, h, visited);
      BoundedSize(visited, g.count);
      BatchedLoop(g, dist, ef, batch, h', visited')
  }

  // ---------- the resident search's base level ----------

  /** Visit marks and evaluations interleaved, as `snapshotSearch` does them. */
  function Expand(h: Heaps, visited: set<nat>, edges: seq<nat>, dist: nat -> real, ef: nat): (r: (Heaps, set<nat>))
    requires h.results != []
    ensures r.0.results != []
    decreases |edges|
  {
    if edges == [] then (h, visited)
    else if edges[0] in visited then Expand(h, visited, edges[1..], dist, ef)
    else Expand(Offer(h, edges[0], dist, ef), visited + {edges[0]}, edges[1..], dist, ef)
  }

  lemma {:induction false} ExpandIsGatherThenOffer(h: Heaps, visited: set<nat>, edges: seq<nat>, dist: nat -> real, ef: nat)
    requires h.results != []
    ensures
      var g := Gather(edges, visited);
      Expand(h, visited, edges, dist, ef) == (OfferAll(h, g.0, dist, ef), g.1)
    decreases |edges|
  {
    if edges == [] {
    } else {
      var n := edges[0];
      if n in visited {
        ExpandIsGatherThenOffer(h, visited, edges[1..], dist, ef);
      } else {
        ExpandIsGatherThenOffer(Offer(h, n, dist, ef), visited + {n}, edges[1..], dist, ef);
        var rest := Gather(edges[1..], visited + {n});
        assert ([n] + rest.0)[1..] == rest.0;
      }
    }
  }

  lemma SingleRound(g: Graph, dist: nat -> real, ef: nat, h: Heaps, visited: set<nat>)
    requires Ready(g, h, visited) && h.cands != [] && !Beyond(h.cands, h.results, ef)
    ensures TakeBatch(h.cands, h.results, ef, 1) == ([h.cands[0]], Popped(h.cands, NEAR_FIRST))
    ensures h.cands[0].id < g.count
    ensures
      Round(g, dist, ef, 1, h, visited)
      == Expand(Heaps(Popped(h.cands, NEAR_FIRST), h.results), visited, g.base[h.cands[0].id], dist, ef)
  {
    var popped := Popped(h.cands, NEAR_FIRST);
    var top := h.cands[0];
    assert TakeBatch(popped, h.results, ef, 0) == ([], popped);
    assert [top] + [] == [top];
    assert EdgesOf(g, [top]) == g.base[top.id] + EdgesOf(g, []);
    assert g.base[top.id] + [] == g.base[top.id];
    ExpandIsGatherThenOffer(Heaps(popped, h.results), visited, g.base[top.id], dist, ef);
  }

  function ResidentLoop(g: Graph, dist: nat -> real, ef: nat, h: Heaps, visited: set<nat>): (r: seq<Entry>)
    requires Ready(g, h, visited)
    decreases g.count - |visited|, |h.cands|
  {
    if h.cands == [] || Beyond(h.cands, h.results, ef) then h.results
    else
      SingleRound(g, dist, ef, h, visited);
      RoundProgress(g, dist, ef, 1, h, visited);
      BoundedSize(visited, g.count);
      var (h', visited') :=
        Expand(Heaps(Popped(h.cands, NEAR_FIRST), h.results), visited, g.base[h.cands[0].id], dist, ef);
      ResidentLoop(g, dist, ef, h', visited')
  }

  lemma {:induction false} BatchOfOneIsResident(g: Graph, dist: nat -> real, ef: nat, h: Heaps, visited: set<nat>)
    requires Ready(g, h, visited)
    ensures BatchedLoop(g, dist, ef, 1, h, visited).0.results == ResidentLoop(g, dist, ef, h, visited)
    decreases g.count - |visited|, |h.cands|
  {
    if h.cands != [] && !Beyond(h.cands, h.results, ef) {
      SingleRound(g, dist, ef, h, visited);
      RoundProgress(g, dist, ef, 1, h, visited);
      BoundedSize(visited, g.count);
      var (h', visited') := Round(g, dist, ef, 1, h, visited);
      BatchOfOneIsResident(g, dist, ef, h', visited');
    }
  }

  // ---------- whole searches ----------

  function Start(g: Graph, dist: nat -> real): (r: nat)
    requires ValidGraph(g)
    ensures r < g.count
  {
    Descend(g, g.maxLevel, g.entryPoint, dist)
  }

  /**
   The base level starts at node n exactly when n is the last of stops that begin at the entry point and walk every
   upper level, from the highest down to level 1, along that level's own edges.
   */
  lemma StartIsLastStop(g: Graph, dist: nat -> real, n: nat)
    requires ValidGraph(g)
    ensures n == Start(g, dist) <==> exists s :: Stops(g, dist, s) && s[0] == n
  {
    var s0 := DescendStops(g, g.maxLevel, g.entryPoint, dist);
    assert Stops(g, dist, s0);
    forall s | Stops(g, dist, s) ensures s[0] == Start(g, dist) {
      StopsEnd(g, g.maxLevel, dist, s);
    }
  }

  function Seeded(start: nat, dist: nat -> real): (r: Heaps) {
    Heaps([Entry(dist(start), start)], [Entry(dist(start), start)])
  }

  lemma SeededReady(g: Graph, start: nat, dist: nat -> real)
    requires ValidGraph(g) && start < g.count
    ensures Ready(g, Seeded(start, dist), {start})
  {
  }

  function Ids(es: seq<Entry>): (r: seq<nat>)
    ensures |r| == |es|
  {
    seq(|es|, k requires 0 <= k < |es| => es[k].id)
  }

  predicate NoFarther(x: Entry, y: Entry) { x.dist <= y.dist }

  /** Sort the result list by distance and keep the first `k` ids. */
  function Ranked(results: seq<Entry>, k: nat): (r: seq<nat>) {
    var sorted := StableSort(results, NoFarther);
    Ids(sorted[..Min(k, |sorted|)])
  }

  function BatchedSearch(g: Graph, dist: nat -> real, k: nat, efSearch: nat, batch: nat): (r: seq<nat>)
    requires ValidGraph(g)
  {
    var start := Start(g, dist);
    SeededReady(g, start, dist);
    Ranked(BatchedLoop(g, dist, Max(efSearch, k), batch, Seeded(start, dist), {start}).0.results, k)
  }

  function ResidentSearch(g: Graph, dist: nat -> real, k: nat, efSearch: nat): (r: seq<nat>)
    requires ValidGraph(g)
  {
    var start := Start(g, dist);
    SeededReady(g, start, dist);
    Ranked(ResidentLoop(g, dist, Max(efSearch, k), Seeded(start, dist), {start}), k)
  }

  /** Both searches run the base level from the last of the stops that walk down from the entry point. */
  lemma SearchFromLastStop(g: Graph, dist: nat -> real, k: nat, efSearch: nat, batch: nat, s: seq<nat>)
    requires ValidGraph(g) && Stops(g, dist, s)
    ensures Ready(g, Seeded(s[0], dist), {s[0]})
    ensures
      var ef, h, marked := Max(efSearch, k), Seeded(s[0], dist), {s[0]};
      && ResidentSearch(g, dist, k, efSearch) == Ranked(ResidentLoop(g, dist, ef, h, marked), k)
      && BatchedSearch(g, dist, k, efSearch, batch) == Ranked(BatchedLoop(g, dist, ef, batch, h, marked).0.results, k)
  {
    StartIsLastStop(g, dist, s[0]);
    SeededReady(g, s[0], dist);
  }

  /** With batch size one the lazy search returns the resident search's id list, order and ties included. */
  lemma LazyRefinesResident(g: Graph, dist: nat -> real, k: nat, efSearch: nat)
    requires ValidGraph(g)
    ensures BatchedSearch(g, dist, k, efSearch, 1) == ResidentSearch(g, dist, k, efSearch)
  {
    var start := Start(g, dist);
    SeededReady(g, start, dist);
    BatchOfOneIsResident(g, dist, Max(efSearch, k), Seeded(start, dist), {start});
  }
}
