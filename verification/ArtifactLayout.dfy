/** Node orders: reverse Cuthill-McKee, partition grouping, and the router/base split of the version 2 artifact. */
module ArtifactLayout {
  import opened Sorting
  import opened Finite
  import opened GraphSearch

  predicate LowerDegree(base: seq<seq<nat>>, a: nat, b: nat)
    requires a < |base| && b < |base|
  {
    |base[a]| < |base[b]| || (|base[a]| == |base[b]| && a <= b)
  }

  function DegreeOrder(base: seq<seq<nat>>): (nat, nat) -> bool {
    (a: nat, b: nat) => if a < |base| && b < |base| then LowerDegree(base, a, b) else b >= |base| && (a < |base| || a <= b)
  }

  lemma DegreeOrderTotal(base: seq<seq<nat>>)
    ensures TotalPreorder(DegreeOrder(base))
  {
  }

  ghost predicate Closed(base: seq<seq<nat>>, s: seq<nat>) {
    forall x, n :: x in s && x < |base| && n in base[x] ==> n in s
  }

  ghost predicate Followed(base: seq<seq<nat>>, order: seq<nat>, p: nat)
    requires p < |order|
  {
    exists q :: 0 <= q < p && order[q] < |base| && order[p] in base[order[q]]
  }

  /** Position p opens a new component: nothing earlier points outside, and no remaining node has lower degree. */
  ghost predicate Opens(base: seq<seq<nat>>, order: seq<nat>, p: nat)
    requires p < |order|
  {
    && Closed(base, order[..p])
    && order[p] < |base|
    && forall x: nat :: x < |base| && x !in order[..p] ==> LowerDegree(base, order[p], x)
  }

  ghost predicate BreadthFirst(base: seq<seq<nat>>, order: seq<nat>) {
    forall p :: 0 <= p < |order| ==> Followed(base, order, p) || Opens(base, order, p)
  }

  lemma ExtendOrder(base: seq<seq<nat>>, order: seq<nat>, n: nat)
    requires BreadthFirst(base, order)
    requires
      || (exists q :: 0 <= q < |order| && order[q] < |base| && n in base[order[q]])
      || (Closed(base, order) && n < |base| && forall x: nat :: x < |base| && x !in order ==> LowerDegree(base, n, x))
    ensures BreadthFirst(base, order + [n])
  {
    var longer := order + [n];
    forall p | 0 <= p < |longer| ensures Followed(base, longer, p) || Opens(base, longer, p) {
      assert longer[..|order|] == order;
      if p < |order| {
        assert longer[p] == order[p] && longer[..p] == order[..p];
        if Followed(base, order, p) {
          var q :| 0 <= q < p && order[q] < |base| && order[p] in base[order[q]];
          assert longer[q] == order[q];
        } else {
          assert Opens(base, order, p);
        }
      } else if q :| 0 <= q < |order| && order[q] < |base| && n in base[order[q]] {
        assert longer[q] == order[q];
      }
    }
  }

  ghost predicate Edge(base: seq<seq<nat>>, x: nat, n: nat) {
    x < |base| && n in base[x]
  }

  /** Position q holds the first listed node with an edge to the node at position p. */
  ghost predicate Parent(base: seq<seq<nat>>, s: seq<nat>, q: nat, p: nat)
    requires p < |s|
  {
    q < p && Edge(base, s[q], s[p]) && forall r: nat :: r < q ==> !Edge(base, s[r], s[p])
  }

  ghost predicate InTurn(base: seq<seq<nat>>, s: seq<nat>, q: nat, p: nat, q': nat, p': nat)
    requires p < |s| && p' < |s|
  {
    q < q' || (q == q' && DegreeOrder(base)(s[p], s[p']))
  }

  /** First in, first out: children are listed in the order of their parents, siblings from low degree to high. */
  ghost predicate Levelled(base: seq<seq<nat>>, s: seq<nat>) {
    forall p: nat, p': nat, q: nat, q': nat :: p < p' < |s| && Parent(base, s, q, p) && Parent(base, s, q', p') ==>
      InTurn(base, s, q, p, q', p')
  }

  /** The same, while the nodes before position `d` are expanded and those from `d` on still wait. */
  ghost predicate Queueing(base: seq<seq<nat>>, s: seq<nat>, d: nat) {
    Levelled(base, s) && forall p: nat, q: nat :: p < |s| && Parent(base, s, q, p) ==> q < d
  }

  lemma ParentKept(base: seq<seq<nat>>, s: seq<nat>, t: seq<nat>, q: nat, p: nat)
    requires p < |s|
    ensures Parent(base, s + t, q, p) <==> Parent(base, s, q, p)
  {
    assert forall r: nat :: r <= p ==> (s + t)[r] == s[r];
  }

  lemma ParentOfChild(base: seq<seq<nat>>, s: seq<nat>, pos: nat, n: nat, q: nat)
    requires pos < |s| && Edge(base, s[pos], n) && forall r: nat :: r < pos ==> !Edge(base, s[r], n)
    requires Parent(base, s + [n], q, |s|)
    ensures q == pos
  {
    assert forall r: nat :: r < |s| ==> (s + [n])[r] == s[r];
    assert (s + [n])[|s|] == n;
  }

  /** Queueing one more new neighbour of the node being expanded. */
  lemma AppendChild(base: seq<seq<nat>>, listed: seq<nat>, added: seq<nat>, pos: nat, n: nat)
    requires Queueing(base, listed + added, pos + 1) && Queueing(base, listed, pos) && pos < |listed|
    requires Edge(base, listed[pos], n) && forall r: nat :: r < pos ==> !Edge(base, listed[r], n)
    requires forall a :: a in added ==> DegreeOrder(base)(a, n)
    ensures Queueing(base, listed + added + [n], pos + 1)
  {
    var s := listed + added;
    var t := s + [n];
    hide Parent, DegreeOrder, Edge;
    forall p: nat, q: nat | p < |t| && Parent(base, t, q, p) ensures q < pos + 1 {
      if p < |s| { ParentKept(base, s, [n], q, p); } else { ParentOfChild(base, s, pos, n, q); }
    }
    forall p: nat, p': nat, q: nat, q': nat | p < p' < |t| && Parent(base, t, q, p) && Parent(base, t, q', p')
      ensures InTurn(base, t, q, p, q', p')
    {
      ParentKept(base, s, [n], q, p);
      if p' < |s| {
        ParentKept(base, s, [n], q', p');
        assert InTurn(base, s, q, p, q', p');
      } else {
        ParentOfChild(base, s, pos, n, q');
        if q == pos { ChildrenAreAdded(base, listed, added, pos, p); }
      }
    }
  }

  lemma ChildrenAreAdded(base: seq<seq<nat>>, listed: seq<nat>, added: seq<nat>, pos: nat, p: nat)
    requires Queueing(base, listed, pos) && p < |listed + added| && Parent(base, listed + added, pos, p)
    ensures (listed + added)[p] in added
  {
    if p < |listed| {
      ParentKept(base, listed, added, pos, p);
    } else {
      assert (listed + added)[p] == added[p - |listed|];
    }
  }

  /** Opening a component: nothing listed points to the new node. */
  lemma AppendStart(base: seq<seq<nat>>, s: seq<nat>, n: nat)
    requires Levelled(base, s) && Closed(base, s) && n !in s
    ensures Queueing(base, s + [n], |s|)
  {
    var t := s + [n];
    assert forall q: nat :: q < |s| ==> t[q] == s[q] && s[q] in s;
    forall p: nat, q: nat | p < |t| && Parent(base, t, q, p) ensures p < |s| && Parent(base, s, q, p) {
      if p < |s| { ParentKept(base, s, [n], q, p); }
    }
    hide Parent, DegreeOrder;
    forall p: nat, p': nat, q: nat, q': nat | p < p' < |t| && Parent(base, t, q, p) && Parent(base, t, q', p')
      ensures InTurn(base, t, q, p, q', p')
    {
      assert InTurn(base, s, q, p, q', p');
    }
    forall p: nat, q: nat | p < |t| && Parent(base, t, q, p) ensures q < |s| { ParentIsBefore(base, s, q, p); }
  }

  lemma ParentIsBefore(base: seq<seq<nat>>, s: seq<nat>, q: nat, p: nat)
    requires p < |s| && Parent(base, s, q, p)
    ensures q < p
  {}

  /** Queue and visit marks together: `s` lists the marked nodes, each once. */
  ghost predicate Marked(visited: seq<bool>, s: seq<nat>) {
    && Distinct(s)
    && (forall i :: 0 <= i < |s| ==> s[i] < |visited|)
    && forall x: nat :: x < |visited| ==> (visited[x] <==> x in s)
  }

  lemma MarkOne(visited: seq<bool>, s: seq<nat>, n: nat)
    requires Marked(visited, s) && n < |visited| && !visited[n]
    ensures Marked(visited[n := true], s + [n]) && |s| < |visited|
  {
    Pigeonhole(s + [n], |visited|);
  }

  lemma MarkNeighbour(base: seq<seq<nat>>, visited: seq<bool>, listed: seq<nat>, added: seq<nat>, id: nat, n: nat)
    requires Marked(visited, listed + added) && BreadthFirst(base, listed + added) && id in listed
    requires id < |base| && n in base[id] && n < |visited| && !visited[n]
    ensures listed + (added + [n]) == (listed + added) + [n]
    ensures Marked(visited[n := true], listed + (added + [n])) && BreadthFirst(base, listed + (added + [n]))
  {
    MarkOne(visited, listed + added, n);
    var q :| 0 <= q < |listed| && listed[q] == id;
    assert (listed + added)[q] == id;
    ExtendOrder(base, listed + added, n);
    assert listed + (added + [n]) == (listed + added) + [n];
  }

  /** Queue the unmarked neighbours of `id`, lowest degree first. `listed` is the order so far including the queue. */
  method QueueNeighbours(
    base: seq<seq<nat>>, id: nat, visited: array<bool>, queue: array<nat>, start: nat, ghost listed: seq<nat>,
    ghost pos: nat)
    returns (write: nat, ghost added: seq<nat>)
    requires EdgesInside(base) && id < |base| == visited.Length == queue.Length
    requires Marked(visited[..], listed) && BreadthFirst(base, listed)
    requires pos < |listed| && listed[pos] == id && Queueing(base, listed, pos) && ExpandedAll(base, listed[..pos], listed)
    requires start <= queue.Length && forall k :: 0 <= k < start ==> queue[k] in listed
    requires Distinct(queue[..start])
    modifies visited, queue
    ensures start <= write <= queue.Length && queue[..write] == old(queue[..start]) + added && Distinct(queue[..write])
    ensures Marked(visited[..], listed + added) && BreadthFirst(base, listed + added)
    ensures Queueing(base, listed + added, pos + 1)
    ensures forall n :: n in base[id] ==> n in listed + added
  {
    hide *;
    NodeEdgesInside(base, id);
    var ns := Unvisited(base[id], visited);
    VisitedListed(visited[..], listed);
    assert forall n :: n in base[id] ==> n in ns || n in listed;
    var sorted := StableSort(ns, DegreeOrder(base));
    ChildrenSorted(base, id, ns);
    write := start;
    added := [];
    ghost var q0 := queue[..start];
    PrefixQueued(q0, listed);
    AddingStart(base, visited[..], listed, pos, sorted, q0);
    for i := 0 to |sorted|
      invariant start <= write <= queue.Length
      invariant Adding(base, visited[..], listed, added, pos, sorted, i, q0, queue[..write])
    {
      var n := sorted[i];
      ghost var v: seq<bool>, q: seq<nat> := visited[..], queue[..write];
      AddingNext(base, v, listed, added, pos, sorted, i, q0, q);
      if !visited[n] {
        visited[n] := true;
        assert visited[..] == v[n := true];
        queue[write] := n;
        assert queue[..write + 1] == q + [n];
        added := added + [n];
        write := write + 1;
      }
    }
    AddingDone(base, visited[..], listed, added, pos, sorted, q0, queue[..write]);
    forall n | n in base[id] ensures n in listed + added {
      if n in ns { assert n in sorted; } else { assert n in listed; }
    }
  }

  lemma VisitedListed(visited: seq<bool>, listed: seq<nat>)
    requires Marked(visited, listed)
    ensures forall x: nat :: x < |visited| && visited[x] ==> x in listed
  {}

  lemma NodeEdgesInside(base: seq<seq<nat>>, id: nat)
    requires EdgesInside(base) && id < |base|
    ensures AllBelow(base[id], |base|)
  {}

  lemma PrefixQueued(queue: seq<nat>, listed: seq<nat>)
    requires Distinct(queue) && forall k :: 0 <= k < |queue| ==> queue[k] in listed
    ensures Queued(queue, listed)
  {}

  lemma ChildrenSorted(base: seq<seq<nat>>, id: nat, ns: seq<nat>)
    requires id < |base| && forall n :: n in ns ==> n in base[id]
    ensures
      var sorted := StableSort(ns, DegreeOrder(base));
      && SortedBy(sorted, DegreeOrder(base)) && (forall k :: 0 <= k < |sorted| ==> Edge(base, id, sorted[k]))
      && forall x :: x in ns ==> x in sorted
  {
    DegreeOrderTotal(base);
    var sorted := StableSort(ns, DegreeOrder(base));
    SameElements(ns, sorted);
    StableSortSorted(ns, DegreeOrder(base));
    assert forall k :: 0 <= k < |sorted| ==> sorted[k] in ns;
  }

  /** The first i sorted neighbours are listed, those added among them in order, and the queue has grown by `added`. */
  ghost predicate Adding(
    base: seq<seq<nat>>, visited: seq<bool>, listed: seq<nat>, added: seq<nat>, pos: nat, sorted: seq<nat>, i: nat,
    q0: seq<nat>, q: seq<nat>)
  {
    && |visited| == |base| && i <= |sorted| && q == q0 + added && Queued(q, listed + added)
    && Marked(visited, listed + added) && BreadthFirst(base, listed + added) && Queueing(base, listed + added, pos + 1)
    && (forall a :: a in added ==> a in sorted[..i]) && forall k :: 0 <= k < i ==> sorted[k] in listed + added
  }

  lemma AddingStart(base: seq<seq<nat>>, visited: seq<bool>, listed: seq<nat>, pos: nat, sorted: seq<nat>, q0: seq<nat>)
    requires |visited| == |base| && Queued(q0, listed) && Marked(visited, listed) && BreadthFirst(base, listed)
    requires Queueing(base, listed, pos)
    ensures Adding(base, visited, listed, [], pos, sorted, 0, q0, q0)
  {
    assert listed + [] == listed && q0 + [] == q0;
    QueueingLater(base, listed, pos);
  }

  lemma AddingNext(
    base: seq<seq<nat>>, visited: seq<bool>, listed: seq<nat>, added: seq<nat>, pos: nat, sorted: seq<nat>, i: nat,
    q0: seq<nat>, q: seq<nat>)
    requires Adding(base, visited, listed, added, pos, sorted, i, q0, q) && i < |sorted|
    requires pos < |listed| && Edge(base, listed[pos], sorted[i]) && EdgesInside(base)
    requires Queueing(base, listed, pos) && ExpandedAll(base, listed[..pos], listed) && SortedBy(sorted, DegreeOrder(base))
    ensures
      var n := sorted[i];
      && n < |visited| == |base|
      && (visited[n] ==> Adding(base, visited, listed, added, pos, sorted, i + 1, q0, q))
      && (!visited[n] ==>
           |q| < |base| && Adding(base, visited[n := true], listed, added + [n], pos, sorted, i + 1, q0, q + [n]))
  {
    var n, s := sorted[i], listed + added;
    assert sorted[..i + 1] == sorted[..i] + [n];
    hide Queueing, BreadthFirst, ExpandedAll, DegreeOrder, SortedBy;
    MarkedBelow(base, visited, s, listed[pos], n);
    if !visited[n] {
      assert listed[pos] in listed;
      MarkNeighbour(base, visited, listed, added, listed[pos], n);
      QueueChild(base, listed, added, pos, n, sorted, i);
      QueueRoom(q, n, |base|, s);
      assert q + [n] == q0 + (added + [n]);
    }
  }

  lemma MarkedBelow(base: seq<seq<nat>>, visited: seq<bool>, s: seq<nat>, id: nat, n: nat)
    requires EdgesInside(base) && Edge(base, id, n) && |visited| == |base| && Marked(visited, s)
    ensures n < |visited| && (visited[n] <==> n in s) && forall k :: 0 <= k < |s| ==> s[k] < |base|
  {}

  lemma AddingDone(
    base: seq<seq<nat>>, visited: seq<bool>, listed: seq<nat>, added: seq<nat>, pos: nat, sorted: seq<nat>,
    q0: seq<nat>, q: seq<nat>)
    requires Adding(base, visited, listed, added, pos, sorted, |sorted|, q0, q)
    ensures q == q0 + added && Distinct(q) && Marked(visited, listed + added) && BreadthFirst(base, listed + added)
    ensures Queueing(base, listed + added, pos + 1) && forall n :: n in sorted ==> n in listed + added
    ensures forall x: nat :: x < |visited| && visited[x] ==> x in listed + added
  {}

  lemma QueueingLater(base: seq<seq<nat>>, s: seq<nat>, d: nat)
    requires Queueing(base, s, d)
    ensures Queueing(base, s, d + 1)
  {}

  lemma QueueChild(
    base: seq<seq<nat>>, listed: seq<nat>, added: seq<nat>, pos: nat, n: nat, sorted: seq<nat>, i: nat)
    requires Queueing(base, listed + added, pos + 1) && Queueing(base, listed, pos) && pos < |listed|
    requires ExpandedAll(base, listed[..pos], listed) && Edge(base, listed[pos], n) && n !in listed
    requires i < |sorted| && sorted[i] == n && SortedBy(sorted, DegreeOrder(base))
    requires forall a :: a in added ==> a in sorted[..i]
    ensures Queueing(base, listed + (added + [n]), pos + 1)
  {
    hide Queueing, DegreeOrder;
    forall r: nat | r < pos ensures !Edge(base, listed[r], n) {
      assert listed[..pos][r] == listed[r] && listed[r] in listed[..pos];
    }
    forall a | a in added ensures DegreeOrder(base)(a, n) {
      var k :| 0 <= k < i && sorted[..i][k] == a;
      assert sorted[k] == a;
    }
    AppendChild(base, listed, added, pos, n);
    assert listed + (added + [n]) == listed + added + [n];
  }

  lemma QueueRoom(queue: seq<nat>, n: nat, count: nat, listed: seq<nat>)
    requires Distinct(queue) && n < count && n !in listed
    requires forall k :: 0 <= k < |queue| ==> queue[k] in listed
    requires forall k :: 0 <= k < |listed| ==> listed[k] < count
    ensures |queue| < count && Distinct(queue + [n])
  {
    Pigeonhole(queue + [n], count);
  }

  method Unvisited(edges: seq<nat>, visited: array<bool>) returns (ns: seq<nat>)
    requires AllBelow(edges, visited.Length)
    ensures forall n :: n in ns ==> n in edges && n < visited.Length
    ensures forall n :: n in edges ==> n in ns || (n < visited.Length && visited[n])
  {
    ns := [];
    for i := 0 to |edges|
      invariant forall n :: n in ns ==> n in edges && n < visited.Length
      invariant forall k :: 0 <= k < i ==> edges[k] in ns || visited[edges[k]]
    {
      if !visited[edges[i]] { ns := ns + [edges[i]]; }
    }
  }

  ghost predicate ExpandedAll(base: seq<seq<nat>>, done: seq<nat>, listed: seq<nat>) {
    forall x, n :: x in done && x < |base| && n in base[x] ==> n in listed
  }

  /** The order so far is `done`, the waiting queue follows it in `listed`, and all of `done` is expanded. */
  ghost predicate Walking(base: seq<seq<nat>>, visited: seq<bool>, done: seq<nat>, waiting: seq<nat>, listed: seq<nat>) {
    && listed == done + waiting
    && Marked(visited, listed) && BreadthFirst(base, listed) && ExpandedAll(base, done, listed)
    && Queueing(base, listed, |done|)
  }

  ghost predicate Queued(queue: seq<nat>, listed: seq<nat>) {
    Distinct(queue) && forall k :: 0 <= k < |queue| ==> queue[k] in listed
  }

  /** Move the head of the queue to the order and queue its unvisited neighbours. */
  method ExpandNext(
    base: seq<seq<nat>>, visited: array<bool>, order: array<nat>, len: nat, queue: array<nat>, read: nat, write: nat,
    ghost listed: seq<nat>)
    returns (next: nat, ghost added: seq<nat>)
    requires EdgesInside(base) && |base| == visited.Length == order.Length == queue.Length && order != queue
    requires len <= order.Length && read < write <= queue.Length
    requires Walking(base, visited[..], order[..len], queue[read..write], listed) && Queued(queue[..write], listed)
    modifies visited, order, queue
    ensures len < order.Length && write <= next <= queue.Length
    ensures order[..len + 1] == old(order[..len]) + [old(queue[read])]
    ensures Walking(base, visited[..], order[..len + 1], queue[read + 1..next], listed + added)
    ensures Queued(queue[..next], listed + added)
  {
    ghost var head, waiting, queued := order[..len], queue[read..write], queue[..write];
    var id := queue[read];
    WalkingHead(base, visited[..], head, waiting, listed);
    QueuedPrefix(queued, listed);
    hide *;
    order[len] := id;
    assert order[..len + 1] == head + [id] && waiting == queued[read..];
    next, added := QueueNeighbours(base, id, visited, queue, write, listed, len);
    WaitingNext(queued, added, read);
    WalkingNext(base, visited[..], head, waiting, listed, added);
    assert queue[read + 1..next] == queue[..next][read + 1..];
  }

  lemma QueuedPrefix(queue: seq<nat>, listed: seq<nat>)
    requires Queued(queue, listed)
    ensures Distinct(queue) && forall k :: 0 <= k < |queue| ==> queue[k] in listed
  {}

  lemma WaitingNext(queued: seq<nat>, added: seq<nat>, read: nat)
    requires read < |queued|
    ensures queued[read..][0] == queued[read]
    ensures (queued + added)[read + 1..] == queued[read..][1..] + added
  {}

  /** What holds when the head of the queue is about to be expanded. */
  lemma WalkingHead(base: seq<seq<nat>>, visited: seq<bool>, done: seq<nat>, waiting: seq<nat>, listed: seq<nat>)
    requires Walking(base, visited, done, waiting, listed) && waiting != [] && |visited| == |base|
    ensures |done| < |listed| <= |base| && listed[|done|] == waiting[0] && waiting[0] < |base|
    ensures listed == done + waiting && Marked(visited, listed) && BreadthFirst(base, listed)
    ensures ExpandedAll(base, done, listed) && Queueing(base, listed, |done|) && ExpandedAll(base, listed[..|done|], listed)
  {
    Pigeonhole(listed, |base|);
    assert listed[..|done|] == done;
  }

  /** What holds once its neighbours are queued behind the rest. */
  lemma WalkingNext(
    base: seq<seq<nat>>, visited: seq<bool>, done: seq<nat>, waiting: seq<nat>, listed: seq<nat>, added: seq<nat>)
    requires waiting != [] && waiting[0] < |base| && listed == done + waiting && ExpandedAll(base, done, listed)
    requires Marked(visited, listed + added) && BreadthFirst(base, listed + added)
    requires Queueing(base, listed + added, |done| + 1) && forall n :: n in base[waiting[0]] ==> n in listed + added
    ensures Walking(base, visited, done + [waiting[0]], waiting[1..] + added, listed + added)
  {
    hide Marked, BreadthFirst, Queueing;
    ExpandedNext(base, done, waiting[0], listed, added);
    assert listed + added == (done + [waiting[0]]) + (waiting[1..] + added);
  }

  lemma ExpandedNext(base: seq<seq<nat>>, head: seq<nat>, id: nat, listed: seq<nat>, added: seq<nat>)
    requires ExpandedAll(base, head, listed) && id < |base| && forall n :: n in base[id] ==> n in listed + added
    ensures ExpandedAll(base, head + [id], listed + added)
  {}

  /** One component, breadth first from `start`, appended to `order`. */
  method AppendComponent(
    base: seq<seq<nat>>, start: nat, visited: array<bool>, order: array<nat>, orderLen: nat, queue: array<nat>)
    returns (len: nat)
    requires EdgesInside(base) && |base| == visited.Length == order.Length == queue.Length
    requires order != queue && start < |base| && orderLen <= order.Length
    requires Marked(visited[..], order[..orderLen]) && !visited[start]
    requires BreadthFirst(base, order[..orderLen]) && Closed(base, order[..orderLen]) && Levelled(base, order[..orderLen])
    requires forall x: nat :: x < |base| && x !in order[..orderLen] ==> LowerDegree(base, start, x)
    modifies visited, order, queue
    ensures len <= order.Length && old(order[..orderLen]) + [start] <= order[..len]
    ensures Marked(visited[..], order[..len])
    ensures BreadthFirst(base, order[..len]) && Closed(base, order[..len]) && Levelled(base, order[..len])
  {
    len := orderLen;
    ghost var prefix := order[..orderLen];
    AppendStart(base, prefix, start);
    hide Parent, InTurn;
    MarkOne(visited[..], prefix, start);
    ExtendOrder(base, prefix, start);
    var read, write: nat := 0, 1;
    queue[0] := start;
    visited[start] := true;
    ghost var listed := prefix + [start];
    assert queue[..1] == [start] && queue[0..1] == [start] && order[..len] == prefix;
    while read < write
      invariant orderLen <= len <= order.Length && read <= write <= queue.Length
      invariant prefix + [start] <= listed
      invariant Walking(base, visited[..], order[..len], queue[read..write], listed) && Queued(queue[..write], listed)
      decreases |base| - len
    {
      ghost var added;
      write, added := ExpandNext(base, visited, order, len, queue, read, write, listed);
      listed := listed + added;
      read := read + 1;
      len := len + 1;
    }
    assert listed == order[..len];
  }

  /** The order in which `reverseCuthillMckeePermutation` lists the nodes before reversing. */
  ghost predicate CuthillMckee(base: seq<seq<nat>>, order: seq<nat>) {
    IsPermutation(order, |base|) && BreadthFirst(base, order) && Levelled(base, order)
  }

  /** Lower degree first, and of equal degrees the lower id. */
  ghost predicate Sooner(base: seq<seq<nat>>, a: nat, b: nat)
    requires a < |base| && b < |base|
  {
    |base[a]| < |base[b]| || (|base[a]| == |base[b]| && a <= b)
  }

  /**
   Said of positions alone: each node is reached from an earlier one, or nothing earlier leads on and it comes sooner than
   every node still unlisted; and of two nodes first reached from the same one, the sooner is listed earlier.
   */
  lemma ListingMeans(base: seq<seq<nat>>, order: seq<nat>, p: nat)
    requires CuthillMckee(base, order) && p < |order|
    ensures |order| == |base| && forall i :: 0 <= i < |order| ==> order[i] < |base|
    ensures
      || (exists q :: 0 <= q < p && order[p] in base[order[q]])
      || ((forall q, x :: 0 <= q < p && x in base[order[q]] ==> x in order[..p])
          && forall x: nat :: x < |base| && x !in order[..p] ==> Sooner(base, order[p], x))
    ensures forall p', q :: p < p' < |order| && 0 <= q && Parent(base, order, q, p) && Parent(base, order, q, p') ==>
      Sooner(base, order[p], order[p'])
  {
    assert Followed(base, order, p) || Opens(base, order, p);
    forall q, x | 0 <= q < p && x in base[order[q]] && Closed(base, order[..p]) ensures x in order[..p] {
      assert order[..p][q] == order[q] && order[q] in order[..p];
    }
    forall p', q | p < p' < |order| && 0 <= q && Parent(base, order, q, p) && Parent(base, order, q, p')
      ensures Sooner(base, order[p], order[p'])
    {
      assert InTurn(base, order, q, p, q, p');
    }
  }

  /** That description leaves no freedom: two listings that meet it are the same. */
  lemma {:induction false} ListingUnique(base: seq<seq<nat>>, a: seq<nat>, b: seq<nat>, n: nat)
    requires CuthillMckee(base, a) && CuthillMckee(base, b) && n <= |base|
    ensures a[..n] == b[..n]
  {
    if n == 0 {
    } else {
      ListingUnique(base, a, b, n - 1);
      NextUnique(base, a, b, n - 1);
      assert a[..n] == a[..n - 1] + [a[n - 1]] && b[..n] == b[..n - 1] + [b[n - 1]];
    }
  }

  lemma NextUnique(base: seq<seq<nat>>, a: seq<nat>, b: seq<nat>, p: nat)
    requires CuthillMckee(base, a) && CuthillMckee(base, b) && p < |base| && a[..p] == b[..p]
    ensures a[p] == b[p]
  {
    hide Levelled;
    if Closed(base, a[..p]) {
      NotFollowed(base, a, p);
      NotFollowed(base, b, p);
      assert Opens(base, a, p) && Opens(base, b, p);
      NotBefore(a, p);
      NotBefore(b, p);
      assert LowerDegree(base, a[p], b[p]) && LowerDegree(base, b[p], a[p]);
    } else {
      var q := FirstParent(base, a, p);
      var r := FirstParent(base, b, p);
      ChildrenInTurn(base, a, b, p, q, r);
      ChildrenInTurn(base, b, a, p, r, q);
    }
  }

  lemma NotBefore(s: seq<nat>, p: nat)
    requires Distinct(s) && p < |s|
    ensures s[p] !in s[..p]
  {}

  lemma NotFollowed(base: seq<seq<nat>>, s: seq<nat>, p: nat)
    requires p < |s| && Distinct(s) && Closed(base, s[..p])
    ensures !Followed(base, s, p)
  {
    if Followed(base, s, p) {
      var q :| 0 <= q < p && s[q] < |base| && s[p] in base[s[q]];
      assert s[..p][q] == s[q];
      NotBefore(s, p);
    }
  }

  lemma FirstParent(base: seq<seq<nat>>, s: seq<nat>, p: nat) returns (q: nat)
    requires p < |s| && BreadthFirst(base, s) && !Closed(base, s[..p])
    ensures Parent(base, s, q, p)
  {
    assert Followed(base, s, p);
    q :| q < p && Edge(base, s[q], s[p]);
    q := Earliest(base, s, p, q);
  }

  lemma {:induction false} Earliest(base: seq<seq<nat>>, s: seq<nat>, p: nat, q: nat) returns (first: nat)
    requires q < p < |s| && Edge(base, s[q], s[p])
    ensures Parent(base, s, first, p)
    decreases q
  {
    if r: nat :| r < q && Edge(base, s[r], s[p]) { first := Earliest(base, s, p, r); } else { first := q; }
  }

  /** The node at p in `a` comes no earlier in `b`, so its parent there is no earlier either, nor is it lower among siblings. */
  lemma ChildrenInTurn(base: seq<seq<nat>>, a: seq<nat>, b: seq<nat>, p: nat, q: nat, r: nat)
    requires CuthillMckee(base, a) && CuthillMckee(base, b) && p < |base| && a[..p] == b[..p]
    requires Parent(base, a, q, p) && Parent(base, b, r, p)
    ensures r <= q && (r == q ==> DegreeOrder(base)(b[p], a[p]))
  {
    PermutationHitsAll(b, |base|);
    assert a[p] in b;
    var p' :| 0 <= p' < |b| && b[p'] == a[p];
    assert forall i: nat :: i < p ==> a[i] == a[..p][i] == b[..p][i] == b[i];
    assert p <= p';
    assert Parent(base, b, q, p');
    hide Parent;
    if p < p' { assert InTurn(base, b, r, p, q, p'); }
  }

  function DegreeSorted(base: seq<seq<nat>>): (r: seq<nat>) {
    StableSort<nat>(Upto(|base|), DegreeOrder(base))
  }

  lemma DegreeSortedOrder(base: seq<seq<nat>>)
    ensures |DegreeSorted(base)| == |base|
    ensures forall i :: 0 <= i < |base| ==> DegreeSorted(base)[i] < |base|
    ensures forall x: nat :: x < |base| ==> x in DegreeSorted(base)
    ensures SortedBy(DegreeSorted(base), DegreeOrder(base))
  {
    var ids, starts := Upto(|base|), DegreeSorted(base);
    SameElements(ids, starts);
    DegreeOrderTotal(base);
    StableSortSorted<nat>(ids, DegreeOrder(base));
    forall i | 0 <= i < |starts| ensures starts[i] < |base| { assert starts[i] in starts && starts[i] in ids; }
    forall x: nat | x < |base| ensures x in starts { assert ids[x] == x && x in ids; }
  }

  lemma LowestRemaining(base: seq<seq<nat>>, i: nat, listed: seq<nat>)
    requires i < |base| && DegreeSorted(base)[i] < |base|
    requires forall k :: 0 <= k < i ==> DegreeSorted(base)[k] in listed
    ensures forall x: nat :: x < |base| && x !in listed ==> LowerDegree(base, DegreeSorted(base)[i], x)
  {
    var starts := DegreeSorted(base);
    DegreeSortedOrder(base);
    forall x: nat | x < |base| && x !in listed ensures LowerDegree(base, starts[i], x) {
      assert x in starts;
      var k :| 0 <= k < |starts| && starts[k] == x;
      if k > i { assert DegreeOrder(base)(starts[i], starts[k]); }
    }
  }

  /** Position of each node: a bijection that reverses a breadth-first, lowest-degree-first listing. */
  method ReverseCuthillMckee(base: seq<seq<nat>>) returns (perm: array<nat>, ghost listing: seq<nat>)
    requires EdgesInside(base)
    ensures fresh(perm) && IsPermutation(perm[..], |base|)
    ensures CuthillMckee(base, listing)
    ensures |listing| == |base| && forall q: nat :: q < |base| ==> listing[q] < |base| && perm[listing[q]] == |base| - 1 - q
  {
    var count := |base|;
    var starts := DegreeSorted(base);
    DegreeSortedOrder(base);
    var visited := new bool[count](_ => false);
    var order, queue := new nat[count](_ => 0), new nat[count](_ => 0);
    var orderLen: nat := 0;
    assert order[..0] == [];
    for i := 0 to count
      invariant orderLen <= count && Marked(visited[..], order[..orderLen])
      invariant BreadthFirst(base, order[..orderLen]) && Closed(base, order[..orderLen]) && Levelled(base, order[..orderLen])
      invariant forall k :: 0 <= k < i ==> starts[k] in order[..orderLen]
    {
      var start := starts[i];
      if !visited[start] {
        ghost var before := order[..orderLen];
        LowestRemaining(base, i, before);
        orderLen := AppendComponent(base, start, visited, order, orderLen, queue);
        assert forall x :: x in before + [start] ==> x in order[..orderLen];
      }
    }
    forall x: nat | x < count ensures x in order[..orderLen] {
      assert x in starts;
      var k :| 0 <= k < count && starts[k] == x;
    }
    FullListing(order[..orderLen], count);
    assert order[..orderLen] == order[..];
    listing := order[..];
    perm := ReversePositions(order);
    assert order[..] == listing;
  }

  lemma FullListing(s: seq<nat>, count: nat)
    requires Distinct(s) && (forall i :: 0 <= i < |s| ==> s[i] < count) && forall x: nat :: x < count ==> x in s
    ensures IsPermutation(s, count)
  {
    DistinctSize(s);
    assert Elements(s) == Below(count);
    BelowSize(count);
  }

  function Reversed(s: seq<nat>): (r: seq<nat>)
    ensures |r| == |s|
  {
    seq(|s|, i requires 0 <= i < |s| => s[|s| - 1 - i])
  }

  lemma ReversedPermutation(s: seq<nat>, n: nat)
    requires IsPermutation(s, n)
    ensures IsPermutation(Reversed(s), n)
  {
  }

  method ReversePositions(order: array<nat>) returns (perm: array<nat>)
    requires IsPermutation(order[..], order.Length)
    ensures fresh(perm) && IsPermutation(perm[..], order.Length)
    ensures forall q: nat :: q < order.Length ==> order[q] < order.Length && perm[order[q]] == order.Length - 1 - q
  {
    var count := order.Length;
    ghost var listing := Reversed(order[..]);
    ReversedPermutation(order[..], count);
    perm := new nat[count](_ => 0);
    for pos := 0 to count
      invariant forall q: nat :: q < pos ==> perm[listing[q]] == q
    {
      assert listing[pos] == order[count - 1 - pos];
      perm[order[count - 1 - pos]] := pos;
    }
    InverseListing(listing, perm[..]);
    forall q: nat | q < count ensures order[q] < count && perm[order[q]] == count - 1 - q {
      assert listing[count - 1 - q] == order[q];
    }
  }

  /** A table recording each listed node's position is itself a permutation. */
  lemma InverseListing(listing: seq<nat>, perm: seq<nat>)
    requires IsPermutation(listing, |perm|) && forall q: nat :: q < |perm| ==> perm[listing[q]] == q
    ensures IsPermutation(perm, |perm|)
  {
    PermutationHitsAll(listing, |perm|);
    forall a | 0 <= a < |perm| ensures perm[a] < |perm| && listing[perm[a]] == a {
      assert a in listing;
      var q: nat :| q < |perm| && listing[q] == a;
    }
  }

  // ---------- partition grouping ----------

  function PartitionOrder(partition: seq<nat>, fallback: seq<nat>): (nat, nat) -> bool
    requires |fallback| == |partition|
  {
    (a: nat, b: nat) =>
      if a < |partition| && b < |partition| then
        partition[a] < partition[b] || (partition[a] == partition[b] && fallback[a] <= fallback[b])
      else b >= |partition| && (a < |partition| || a <= b)
  }

  function Grouped(partition: seq<nat>, fallback: seq<nat>): (r: seq<nat>)
    requires |fallback| == |partition|
  {
    StableSort<nat>(Upto(|partition|), PartitionOrder(partition, fallback))
  }

  /** Partitions are contiguous and in order; inside one the fallback order rules. */
  ghost predicate GroupedBy(order: seq<nat>, partition: seq<nat>, fallback: seq<nat>)
    requires |fallback| == |partition|
  {
    && IsPermutation(order, |partition|)
    && forall a, b :: 0 <= a < b < |order| ==>
         || partition[order[a]] < partition[order[b]]
         || (partition[order[a]] == partition[order[b]] && fallback[order[a]] < fallback[order[b]])
  }

  lemma GroupedSorted(partition: seq<nat>, fallback: seq<nat>)
    requires |fallback| == |partition| && IsPermutation(fallback, |partition|)
    ensures GroupedBy(Grouped(partition, fallback), partition, fallback)
  {
    var ids, order := Upto(|partition|), Grouped(partition, fallback);
    SameElements(ids, order);
    DistinctPermutation(ids, order);
    StableSortSorted<nat>(ids, PartitionOrder(partition, fallback));
    forall i | 0 <= i < |order| ensures order[i] < |partition| { assert order[i] in order && order[i] in ids; }
    forall a, b | 0 <= a < b < |order|
      ensures partition[order[a]] < partition[order[b]]
        || (partition[order[a]] == partition[order[b]] && fallback[order[a]] < fallback[order[b]])
    {
      assert PartitionOrder(partition, fallback)(order[a], order[b]);
      assert order[a] != order[b] && fallback[order[a]] != fallback[order[b]];
    }
  }

  /** Mutually inverse maps between node ids and ordinals. */
  ghost predicate Inverse(originalToOrdinal: seq<nat>, ordinalToOriginal: seq<nat>) {
    && IsPermutation(originalToOrdinal, |ordinalToOriginal|)
    && IsPermutation(ordinalToOriginal, |originalToOrdinal|)
    && (forall pos: nat :: pos < |ordinalToOriginal| ==> originalToOrdinal[ordinalToOriginal[pos]] == pos)
    && (forall id: nat :: id < |originalToOrdinal| ==> ordinalToOriginal[originalToOrdinal[id]] == id)
  }

  method PartitionPermutation(partition: seq<nat>, fallback: seq<nat>)
    returns (originalToOrdinal: array<nat>, ordinalToOriginal: array<nat>)
    requires |fallback| == |partition| && IsPermutation(fallback, |partition|)
    ensures fresh(originalToOrdinal) && fresh(ordinalToOriginal)
    ensures Inverse(originalToOrdinal[..], ordinalToOriginal[..])
    ensures GroupedBy(ordinalToOriginal[..], partition, fallback)
  {
    var ids := Grouped(partition, fallback);
    GroupedSorted(partition, fallback);
    originalToOrdinal, ordinalToOriginal := RecordPositions(ids);
  }

  method RecordPositions(ids: seq<nat>) returns (originalToOrdinal: array<nat>, ordinalToOriginal: array<nat>)
    requires IsPermutation(ids, |ids|)
    ensures fresh(originalToOrdinal) && fresh(ordinalToOriginal) && originalToOrdinal != ordinalToOriginal
    ensures ordinalToOriginal[..] == ids && Inverse(originalToOrdinal[..], ids)
  {
    var count := |ids|;
    originalToOrdinal, ordinalToOriginal := new nat[count](_ => 0), new nat[count](_ => 0);
    for pos := 0 to count
      invariant forall q: nat :: q < pos ==> originalToOrdinal[ids[q]] == q
      invariant ordinalToOriginal[..pos] == ids[..pos]
    {
      originalToOrdinal[ids[pos]] := pos;
      ordinalToOriginal[pos] := ids[pos];
    }
    assert ordinalToOriginal[..] == ordinalToOriginal[..count] == ids[..count] == ids;
    InverseMaps(originalToOrdinal[..], ids);
  }

  lemma InverseMaps(originalToOrdinal: seq<nat>, ids: seq<nat>)
    requires IsPermutation(ids, |originalToOrdinal|)
    requires forall q: nat :: q < |ids| ==> originalToOrdinal[ids[q]] == q
    ensures Inverse(originalToOrdinal, ids)
  {
    InverseListing(ids, originalToOrdinal);
    PermutationHitsAll(ids, |ids|);
    forall id: nat | id < |ids| ensures ids[originalToOrdinal[id]] == id {
      assert id in ids;
      var q: nat :| q < |ids| && ids[q] == id;
    }
  }

  // ---------- router/base split ----------

  const ROUTER_BIT: nat := 0x8000_0000

  /** Nodes of `order` that are on an upper level (`upper`) or not, in order. */
  function Select(order: seq<nat>, levels: seq<nat>, upper: bool): (r: seq<nat>)
    requires forall i :: 0 <= i < |order| ==> order[i] < |levels|
  {
    if order == [] then []
    else
      var last := order[|order| - 1];
      var rest := Select(order[..|order| - 1], levels, upper);
      if (levels[last] > 0) == upper then rest + [last] else rest
  }

  /** What is selected stands in the order it had. */
  lemma {:induction false} SelectKeepsOrder(order: seq<nat>, levels: seq<nat>, upper: bool, i: nat, j: nat) returns (a: nat, b: nat)
    requires forall k :: 0 <= k < |order| ==> order[k] < |levels|
    requires i < j < |Select(order, levels, upper)|
    ensures a < b < |order| && order[a] == Select(order, levels, upper)[i] && order[b] == Select(order, levels, upper)[j]
  {
    var n := |order| - 1;
    var rest := Select(order[..n], levels, upper);
    if j < |rest| {
      a, b := SelectKeepsOrder(order[..n], levels, upper, i, j);
    } else {
      SelectHolds(order[..n], levels, upper);
      assert rest[i] in rest && rest[i] in order[..n];
      a :| 0 <= a < n && order[a] == rest[i];
      b := n;
    }
  }

  lemma AddedEitherSide(r: seq<nat>, b: seq<nat>, x: nat)
    ensures multiset(r + [x] + b) == multiset(r + b) + multiset{x}
    ensures multiset(r + (b + [x])) == multiset(r + b) + multiset{x}
  {}

  lemma {:induction false} SelectSplits(order: seq<nat>, levels: seq<nat>)
    requires forall i :: 0 <= i < |order| ==> order[i] < |levels|
    ensures multiset(Select(order, levels, true) + Select(order, levels, false)) == multiset(order)
  {
    if order == [] {
    } else {
      var front, last := order[..|order| - 1], order[|order| - 1];
      SelectSplits(front, levels);
      assert order == front + [last];
      AddedEitherSide(Select(front, levels, true), Select(front, levels, false), last);
    }
  }

  lemma {:induction false} SelectHolds(order: seq<nat>, levels: seq<nat>, upper: bool)
    requires forall i :: 0 <= i < |order| ==> order[i] < |levels|
    ensures forall x :: x in Select(order, levels, upper) ==> x in order && x < |levels| && (levels[x] > 0) == upper
  {
    if order == [] {
    } else {
      SelectHolds(order[..|order| - 1], levels, upper);
    }
  }

  lemma SelectStep(order: seq<nat>, levels: seq<nat>, k: nat)
    requires k < |order| && forall i :: 0 <= i < |order| ==> order[i] < |levels|
    ensures order[..k + 1] == order[..k] + [order[k]]
    ensures Select(order[..k + 1], levels, true) == Select(order[..k], levels, true) + if levels[order[k]] > 0 then [order[k]] else []
    ensures Select(order[..k + 1], levels, false) == Select(order[..k], levels, false) + if levels[order[k]] > 0 then [] else [order[k]]
  {
    assert order[..k + 1][..k] == order[..k];
  }

  /** Router bit exactly on upper-level nodes; the low bits index the node's own segment. */
  ghost predicate SplitMap(locations: seq<nat>, routerIds: seq<nat>, baseIds: seq<nat>) {
    && (forall i: nat :: i < |routerIds| ==> routerIds[i] < |locations| && locations[routerIds[i]] == ROUTER_BIT + i)
    && (forall i: nat :: i < |baseIds| ==> baseIds[i] < |locations| && locations[baseIds[i]] == i)
  }

  method SplitLayout(levels: seq<nat>, ordinalToOriginal: seq<nat>)
    returns (locationMap: array<nat>, routerIds: seq<nat>, baseIds: seq<nat>)
    requires IsPermutation(ordinalToOriginal, |levels|)
    ensures fresh(locationMap) && locationMap.Length == |levels|
    ensures routerIds == Select(ordinalToOriginal, levels, true) && baseIds == Select(ordinalToOriginal, levels, false)
    ensures IsPermutation(routerIds + baseIds, |levels|)
    ensures SplitMap(locationMap[..], routerIds, baseIds)
  {
    var count := |levels|;
    locationMap := new nat[count](_ => 0);
    routerIds, baseIds := [], [];
    SplitStart(ordinalToOriginal, levels, locationMap[..]);
    hide *;
    for ordinal := 0 to count
      invariant SplitUpTo(ordinalToOriginal, levels, ordinal, locationMap[..], routerIds, baseIds)
    {
      SplitStep(ordinalToOriginal, levels, ordinal, locationMap[..], routerIds, baseIds);
      ghost var before: seq<nat> := locationMap[..];
      var id := ordinalToOriginal[ordinal];
      if levels[id] > 0 {
        locationMap[id] := ROUTER_BIT + |routerIds|;
        assert locationMap[..] == before[id := ROUTER_BIT + |routerIds|];
        routerIds := routerIds + [id];
      } else {
        locationMap[id] := |baseIds|;
        assert locationMap[..] == before[id := |baseIds|];
        baseIds := baseIds + [id];
      }
    }
    SplitDone(ordinalToOriginal, levels, locationMap[..], routerIds, baseIds);
  }

  ghost predicate SplitUpTo(
    order: seq<nat>, levels: seq<nat>, k: nat, locations: seq<nat>, routerIds: seq<nat>, baseIds: seq<nat>)
  {
    && IsPermutation(order, |levels|) && k <= |order| && |locations| == |levels|
    && routerIds == Select(order[..k], levels, true) && baseIds == Select(order[..k], levels, false)
    && SplitMap(locations, routerIds, baseIds)
  }

  lemma SplitStart(order: seq<nat>, levels: seq<nat>, locations: seq<nat>)
    requires IsPermutation(order, |levels|) && |locations| == |levels|
    ensures |order| == |levels| && SplitUpTo(order, levels, 0, locations, [], [])
  {}

  lemma SplitStep(
    order: seq<nat>, levels: seq<nat>, k: nat, locations: seq<nat>, routerIds: seq<nat>, baseIds: seq<nat>)
    requires SplitUpTo(order, levels, k, locations, routerIds, baseIds) && k < |levels|
    ensures |order| == |levels| && order[k] < |levels|
    ensures
      var id := order[k];
      if levels[id] > 0 then
        SplitUpTo(order, levels, k + 1, locations[id := ROUTER_BIT + |routerIds|], routerIds + [id], baseIds)
      else SplitUpTo(order, levels, k + 1, locations[id := |baseIds|], routerIds, baseIds + [id])
  {
    var id := order[k];
    NotEarlier(order, k);
    SelectStep(order, levels, k);
    SelectMembers(order[..k], levels);
    hide Select, IsPermutation;
    assert id !in routerIds && id !in baseIds;
    if levels[id] > 0 {
      SplitMapRouter(locations, routerIds, baseIds, id);
    } else {
      SplitMapBase(locations, routerIds, baseIds, id);
    }
  }

  lemma NotEarlier(order: seq<nat>, k: nat)
    requires Distinct(order) && k < |order|
    ensures order[k] !in order[..k]
  {}

  lemma SelectMembers(order: seq<nat>, levels: seq<nat>)
    requires forall i :: 0 <= i < |order| ==> order[i] < |levels|
    ensures forall x :: x in Select(order, levels, true) ==> x in order
    ensures forall x :: x in Select(order, levels, false) ==> x in order
  {
    SelectHolds(order, levels, true);
    SelectHolds(order, levels, false);
  }

  lemma SplitMapRouter(locations: seq<nat>, routerIds: seq<nat>, baseIds: seq<nat>, id: nat)
    requires SplitMap(locations, routerIds, baseIds) && id < |locations| && id !in routerIds && id !in baseIds
    ensures SplitMap(locations[id := ROUTER_BIT + |routerIds|], routerIds + [id], baseIds)
  {
    assert forall i :: 0 <= i < |routerIds| ==> routerIds[i] in routerIds;
    assert forall i :: 0 <= i < |baseIds| ==> baseIds[i] in baseIds;
  }

  lemma SplitMapBase(locations: seq<nat>, routerIds: seq<nat>, baseIds: seq<nat>, id: nat)
    requires SplitMap(locations, routerIds, baseIds) && id < |locations| && id !in routerIds && id !in baseIds
    ensures SplitMap(locations[id := |baseIds|], routerIds, baseIds + [id])
  {
    assert forall i :: 0 <= i < |routerIds| ==> routerIds[i] in routerIds;
    assert forall i :: 0 <= i < |baseIds| ==> baseIds[i] in baseIds;
  }

  lemma SplitDone(
    order: seq<nat>, levels: seq<nat>, locations: seq<nat>, routerIds: seq<nat>, baseIds: seq<nat>)
    requires SplitUpTo(order, levels, |levels|, locations, routerIds, baseIds)
    ensures forall i :: 0 <= i < |order| ==> order[i] < |levels|
    ensures routerIds == Select(order, levels, true) && baseIds == Select(order, levels, false)
    ensures IsPermutation(routerIds + baseIds, |levels|) && SplitMap(locations, routerIds, baseIds)
  {
    assert order[..|levels|] == order;
    SelectSplits(order, levels);
    SplitIsPermutation(order, routerIds + baseIds, |levels|);
  }

  lemma SplitIsPermutation(order: seq<nat>, split: seq<nat>, n: nat)
    requires IsPermutation(order, n) && multiset(order) == multiset(split)
    ensures IsPermutation(split, n)
  {
    SameElements(order, split);
    DistinctPermutation(order, split);
    forall i | 0 <= i < |split| ensures split[i] < n { assert split[i] in split && split[i] in order; }
  }
}
