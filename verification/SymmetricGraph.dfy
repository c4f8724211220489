/** The symmetrised neighbour table handed to the partitioner: count, prefix sums, fill, sort, and drop repeats in place. */
module SymmetricGraph {
  import opened Sorting
  import opened Finite
  import opened RangeCoalescing
  import GraphSearch

  /** The non-self edges of one node, in order. */
  function NodeArcs(id: nat, edges: seq<nat>): (r: seq<(nat, nat)>) {
    if edges == [] then []
    else
      var rest := NodeArcs(id, Front(edges));
      if Last(edges) == id then rest else rest + [(id, Last(edges))]
  }

  function Arcs(base: seq<seq<nat>>, n: nat): (r: seq<(nat, nat)>)
    requires n <= |base|
  {
    if n == 0 then [] else Arcs(base, n - 1) + NodeArcs(n - 1, base[n - 1])
  }

  /** What the arcs contribute to row v, from either end, in order. */
  function Row(arcs: seq<(nat, nat)>, v: nat): (r: seq<nat>) {
    if arcs == [] then []
    else
      var rest := Row(Front(arcs), v);
      var (a, b) := Last(arcs);
      if a == v then rest + [b] else if b == v then rest + [a] else rest
  }

  lemma RowAppend(arcs: seq<(nat, nat)>, a: nat, b: nat, v: nat)
    requires a != b
    ensures Row(arcs + [(a, b)], v) == Row(arcs, v) + (if a == v then [b] else if b == v then [a] else [])
  {
    assert Front(arcs + [(a, b)]) == arcs;
  }

  lemma {:induction false} RowPrefix(arcs: seq<(nat, nat)>, i: nat, v: nat)
    requires i <= |arcs|
    ensures Row(arcs[..i], v) <= Row(arcs, v)
  {
    if i < |arcs| {
      RowPrefix(Front(arcs), i, v);
      assert Front(arcs)[..i] == arcs[..i];
    } else {
      assert arcs[..i] == arcs;
    }
  }

  ghost predicate Joined(base: seq<seq<nat>>, a: nat, b: nat) {
    a != b && ((a < |base| && b in base[a]) || (b < |base| && a in base[b]))
  }

  lemma {:induction false} NodeArcsMembers(id: nat, edges: seq<nat>, a: nat, b: nat)
    ensures (a, b) in NodeArcs(id, edges) <==> a == id && b != id && b in edges
  {
    if edges == [] {
    } else {
      NodeArcsMembers(id, Front(edges), a, b);
      assert edges == Front(edges) + [Last(edges)];
    }
  }

  lemma {:induction false} ArcsMembers(base: seq<seq<nat>>, n: nat, a: nat, b: nat)
    requires n <= |base|
    ensures (a, b) in Arcs(base, n) <==> a < n && b != a && b in base[a]
  {
    if n == 0 {
    } else {
      ArcsMembers(base, n - 1, a, b);
      NodeArcsMembers(n - 1, base[n - 1], a, b);
    }
  }

  lemma {:induction false} RowMembers(arcs: seq<(nat, nat)>, v: nat, w: nat)
    requires v != w
    ensures w in Row(arcs, v) <==> (v, w) in arcs || (w, v) in arcs
  {
    if arcs == [] {
    } else {
      RowMembers(Front(arcs), v, w);
      assert arcs == Front(arcs) + [Last(arcs)];
    }
  }

  lemma {:induction false} RowNotSelf(arcs: seq<(nat, nat)>, v: nat)
    requires forall k :: 0 <= k < |arcs| ==> arcs[k].0 != arcs[k].1
    ensures v !in Row(arcs, v)
  {
    if arcs == [] {
    } else {
      RowNotSelf(Front(arcs), v);
    }
  }

  /** A full row lists exactly the nodes joined to v by an edge in either direction. */
  lemma RowIsNeighbours(base: seq<seq<nat>>, v: nat)
    requires GraphSearch.EdgesInside(base) && v < |base|
    ensures forall w: nat :: w in Row(Arcs(base, |base|), v) <==> Joined(base, v, w)
  {
    var arcs := Arcs(base, |base|);
    forall k | 0 <= k < |arcs| ensures arcs[k].0 != arcs[k].1 {
      ArcsMembers(base, |base|, arcs[k].0, arcs[k].1);
      assert (arcs[k].0, arcs[k].1) == arcs[k] && arcs[k] in arcs;
    }
    RowNotSelf(arcs, v);
    forall w: nat ensures w in Row(arcs, v) <==> Joined(base, v, w) {
      if v != w {
        RowMembers(arcs, v, w);
        ArcsMembers(base, |base|, v, w);
        ArcsMembers(base, |base|, w, v);
      }
    }
  }

  ghost predicate ArcsInside(arcs: seq<(nat, nat)>, count: nat) {
    forall k :: 0 <= k < |arcs| ==> arcs[k].0 < count && arcs[k].1 < count && arcs[k].0 != arcs[k].1
  }

  lemma {:induction false} ArcsAreInside(base: seq<seq<nat>>, n: nat)
    requires GraphSearch.EdgesInside(base) && n <= |base|
    ensures ArcsInside(Arcs(base, n), |base|)
  {
    forall k | 0 <= k < |Arcs(base, n)| ensures
      var arc := Arcs(base, n)[k]; arc.0 < |base| && arc.1 < |base| && arc.0 != arc.1
    {
      var arc := Arcs(base, n)[k];
      assert arc in Arcs(base, n) && arc == (arc.0, arc.1);
      ArcsMembers(base, n, arc.0, arc.1);
      var j :| 0 <= j < |base[arc.0]| && base[arc.0][j] == arc.1;
    }
  }

  // ---------- the passes ----------

  ghost predicate Degrees(degrees: seq<nat>, arcs: seq<(nat, nat)>) {
    forall v: nat :: v < |degrees| ==> degrees[v] == |Row(arcs, v)|
  }

  lemma CountArc(degrees: seq<nat>, arcs: seq<(nat, nat)>, a: nat, b: nat)
    requires Degrees(degrees, arcs) && a < |degrees| && b < |degrees| && a != b
    ensures Degrees(degrees[a := degrees[a] + 1][b := degrees[b] + 1], arcs + [(a, b)])
  {
    var next := degrees[a := degrees[a] + 1][b := degrees[b] + 1];
    forall v: nat | v < |next| ensures next[v] == |Row(arcs + [(a, b)], v)| {
      RowAppend(arcs, a, b, v);
      hide Row;
    }
  }

  method CountDegrees(base: seq<seq<nat>>) returns (degrees: array<nat>)
    requires GraphSearch.EdgesInside(base)
    ensures fresh(degrees) && degrees.Length == |base| && Degrees(degrees[..], Arcs(base, |base|))
  {
    degrees := new nat[|base|](_ => 0);
    for id := 0 to |base|
      invariant Degrees(degrees[..], Arcs(base, id))
    {
      var edges := base[id];
      assert edges[..0] == [] && Arcs(base, id) + [] == Arcs(base, id);
      for i := 0 to |edges|
        invariant Degrees(degrees[..], Arcs(base, id) + NodeArcs(id, edges[..i]))
      {
        var n := edges[i];
        assert Front(edges[..i + 1]) == edges[..i];
        if n == id { continue; }
        ghost var done := Arcs(base, id) + NodeArcs(id, edges[..i]);
        CountArc(degrees[..], done, id, n);
        assert done + [(id, n)] == Arcs(base, id) + NodeArcs(id, edges[..i + 1]);
        degrees[id] := degrees[id] + 1;
        degrees[n] := degrees[n] + 1;
      }
      assert edges[..|edges|] == edges;
    }
  }

  /** Rows are laid out one after the other with room for their full length. */
  ghost predicate LaidOut(offsets: seq<nat>, degrees: seq<nat>) {
    |offsets| == |degrees| + 1 && offsets[0] == 0
    && forall v: nat :: v < |degrees| ==> offsets[v + 1] == offsets[v] + degrees[v]
  }

  lemma {:induction false} OffsetsGrow(offsets: seq<nat>, degrees: seq<nat>, v: nat, w: nat)
    requires LaidOut(offsets, degrees) && v <= w < |offsets|
    ensures offsets[v] <= offsets[w]
    decreases w - v
  {
    if v < w { OffsetsGrow(offsets, degrees, v, w - 1); }
  }

  method PrefixSums(degrees: array<nat>) returns (offsets: array<nat>)
    ensures fresh(offsets) && LaidOut(offsets[..], degrees[..])
  {
    var count := degrees.Length;
    offsets := new nat[count + 1](_ => 0);
    for id := 0 to count
      invariant offsets[0] == 0 && forall v: nat :: v < id ==> offsets[v + 1] == offsets[v] + degrees[v]
    {
      offsets[id + 1] := offsets[id] + degrees[id];
    }
  }

  /** The cells of each row written so far hold the row so far. */
  ghost predicate Filled(adj: seq<nat>, offsets: seq<nat>, arcs: seq<(nat, nat)>, count: nat) {
    |offsets| == count + 1
    && forall v: nat, k: nat :: v < count && k < |Row(arcs, v)| ==> CellHolds(adj, offsets, arcs, v, k)
  }

  ghost predicate CellHolds(adj: seq<nat>, offsets: seq<nat>, arcs: seq<(nat, nat)>, v: nat, k: nat)
    requires v < |offsets| && k < |Row(arcs, v)|
  {
    offsets[v] + k < |adj| && adj[offsets[v] + k] == Row(arcs, v)[k]
  }

  ghost predicate Cursors(cursor: seq<nat>, offsets: seq<nat>, arcs: seq<(nat, nat)>) {
    |offsets| == |cursor| + 1 && forall v: nat :: v < |cursor| ==> cursor[v] == offsets[v] + |Row(arcs, v)|
  }

  lemma CellsApart(offsets: seq<nat>, degrees: seq<nat>, v: nat, k: nat, w: nat, j: nat)
    requires LaidOut(offsets, degrees) && v < |degrees| && w < |degrees| && k < degrees[v] && j < degrees[w]
    requires v != w || k != j
    ensures offsets[v] + k != offsets[w] + j
    ensures offsets[v] + k < offsets[|degrees|]
  {
    OffsetsGrow(offsets, degrees, v + 1, |degrees|);
    if v < w { OffsetsGrow(offsets, degrees, v + 1, w); }
    if w < v { OffsetsGrow(offsets, degrees, w + 1, v); }
  }

  lemma RoomForArc(arcs: seq<(nat, nat)>, i: nat, degrees: seq<nat>)
    requires i < |arcs| && Degrees(degrees, arcs) && ArcsInside(arcs, |degrees|)
    ensures forall v: nat :: v < |degrees| ==> |Row(arcs[..i], v)| <= degrees[v]
    ensures |Row(arcs[..i], arcs[i].0)| < degrees[arcs[i].0] && |Row(arcs[..i], arcs[i].1)| < degrees[arcs[i].1]
  {
    var (a, b) := arcs[i];
    assert arcs[..i + 1] == arcs[..i] + [(a, b)];
    forall v: nat | v < |degrees|
      ensures |Row(arcs[..i], v)| <= degrees[v] && (v == a || v == b ==> |Row(arcs[..i], v)| < degrees[v])
    {
      RowAppend(arcs[..i], a, b, v);
      RowPrefix(arcs, i + 1, v);
    }
  }

  lemma FillCell(
    adj: seq<nat>, offsets: seq<nat>, degrees: seq<nat>, part: seq<(nat, nat)>, a: nat, b: nat, v: nat, k: nat)
    requires LaidOut(offsets, degrees) && |adj| == offsets[|degrees|] && a != b && a < |degrees| && b < |degrees|
    requires Filled(adj, offsets, part, |degrees|) && v < |degrees|
    requires |Row(part, a)| < degrees[a] && |Row(part, b)| < degrees[b] && |Row(part, v)| <= degrees[v]
    requires k < |Row(part + [(a, b)], v)|
    ensures
      var pa, pb := offsets[a] + |Row(part, a)|, offsets[b] + |Row(part, b)|;
      && pa < |adj| && pb < |adj| && offsets[v] + k < |adj|
      && adj[pa := b][pb := a][offsets[v] + k] == Row(part + [(a, b)], v)[k]
  {
    RowAppend(part, a, b, v);
    hide Row;
    CellsApart(offsets, degrees, a, |Row(part, a)|, b, |Row(part, b)|);
    CellsApart(offsets, degrees, b, |Row(part, b)|, a, |Row(part, a)|);
    if k < |Row(part, v)| {
      assert CellHolds(adj, offsets, part, v, k);
      CellsApart(offsets, degrees, v, k, a, |Row(part, a)|);
      CellsApart(offsets, degrees, v, k, b, |Row(part, b)|);
    }
  }

  lemma MoveCursors(cursor: seq<nat>, offsets: seq<nat>, part: seq<(nat, nat)>, a: nat, b: nat)
    requires a != b && a < |cursor| && b < |cursor| && Cursors(cursor, offsets, part)
    ensures Cursors(cursor[a := cursor[a] + 1][b := cursor[b] + 1], offsets, part + [(a, b)])
  {
    var next := cursor[a := cursor[a] + 1][b := cursor[b] + 1];
    forall v: nat | v < |next| ensures next[v] == offsets[v] + |Row(part + [(a, b)], v)| {
      RowAppend(part, a, b, v);
      hide Row;
    }
  }

  lemma FillArc(
    adj: seq<nat>, offsets: seq<nat>, cursor: seq<nat>, degrees: seq<nat>, arcs: seq<(nat, nat)>, i: nat)
    requires i < |arcs| && Degrees(degrees, arcs) && ArcsInside(arcs, |degrees|) && LaidOut(offsets, degrees)
    requires |adj| == offsets[|degrees|] && |cursor| == |degrees|
    requires Filled(adj, offsets, arcs[..i], |degrees|) && Cursors(cursor, offsets, arcs[..i])
    ensures
      var (a, b) := arcs[i];
      && cursor[a] < |adj| && cursor[b] < |adj|
      && Filled(adj[cursor[a] := b][cursor[b] := a], offsets, arcs[..i + 1], |degrees|)
      && Cursors(cursor[a := cursor[a] + 1][b := cursor[b] + 1], offsets, arcs[..i + 1])
  {
    var (a, b) := arcs[i];
    var part, more := arcs[..i], arcs[..i + 1];
    assert more == part + [(a, b)];
    RoomForArc(arcs, i, degrees);
    hide Row;
    hide LaidOut;
    MoveCursors(cursor, offsets, part, a, b);
    CellsApart(offsets, degrees, a, |Row(part, a)|, b, |Row(part, b)|);
    CellsApart(offsets, degrees, b, |Row(part, b)|, a, |Row(part, a)|);
    assert cursor[a] == offsets[a] + |Row(part, a)| && cursor[b] == offsets[b] + |Row(part, b)|;
    hide Cursors;
    FillCells(adj, offsets, degrees, part, a, b);
  }

  lemma FillCells(adj: seq<nat>, offsets: seq<nat>, degrees: seq<nat>, part: seq<(nat, nat)>, a: nat, b: nat)
    requires LaidOut(offsets, degrees) && |adj| == offsets[|degrees|] && a != b && a < |degrees| && b < |degrees|
    requires Filled(adj, offsets, part, |degrees|)
    requires |Row(part, a)| < degrees[a] && |Row(part, b)| < degrees[b]
    requires forall v: nat :: v < |degrees| ==> |Row(part, v)| <= degrees[v]
    ensures
      var pa, pb := offsets[a] + |Row(part, a)|, offsets[b] + |Row(part, b)|;
      pa < |adj| && pb < |adj| && Filled(adj[pa := b][pb := a], offsets, part + [(a, b)], |degrees|)
  {
    hide Row;
    CellsApart(offsets, degrees, a, |Row(part, a)|, b, |Row(part, b)|);
    CellsApart(offsets, degrees, b, |Row(part, b)|, a, |Row(part, a)|);
    var more := part + [(a, b)];
    var next := adj[offsets[a] + |Row(part, a)| := b][offsets[b] + |Row(part, b)| := a];
    forall v: nat, k: nat | v < |degrees| && k < |Row(more, v)| ensures CellHolds(next, offsets, more, v, k) {
      FillCell(adj, offsets, degrees, part, a, b, v, k);
    }
  }

  lemma {:induction false} NodeArcsPrefix(id: nat, edges: seq<nat>, i: nat)
    requires i <= |edges|
    ensures NodeArcs(id, edges[..i]) <= NodeArcs(id, edges)
  {
    if i < |edges| {
      NodeArcsPrefix(id, Front(edges), i);
      assert Front(edges)[..i] == edges[..i];
    } else {
      assert edges[..i] == edges;
    }
  }

  lemma {:induction false} ArcsPrefix(base: seq<seq<nat>>, n: nat, m: nat)
    requires n <= m <= |base|
    ensures Arcs(base, n) <= Arcs(base, m)
    decreases m
  {
    if n < m { ArcsPrefix(base, n, m - 1); }
  }

  lemma NodeArcsNext(id: nat, edges: seq<nat>, i: nat)
    requires i < |edges|
    ensures NodeArcs(id, edges[..i + 1])
      == if edges[i] == id then NodeArcs(id, edges[..i]) else NodeArcs(id, edges[..i]) + [(id, edges[i])]
  {
    assert Front(edges[..i + 1]) == edges[..i];
  }

  lemma ArcsNext(base: seq<seq<nat>>, id: nat)
    requires id < |base|
    ensures Arcs(base, id + 1) == Arcs(base, id) + NodeArcs(id, base[id])
    ensures Arcs(base, id) + NodeArcs(id, base[id][..0]) == Arcs(base, id)
  {}

  /** The arc met at edge i of node id is the next one in the whole list. */
  lemma NextArc(base: seq<seq<nat>>, id: nat, i: nat)
    requires id < |base| && i < |base[id]| && base[id][i] != id
    ensures
      var done, all := Arcs(base, id) + NodeArcs(id, base[id][..i]), Arcs(base, |base|);
      && |done| < |all| && all[..|done|] == done && all[|done|] == (id, base[id][i])
      && all[..|done| + 1] == Arcs(base, id) + NodeArcs(id, base[id][..i + 1])
  {
    hide *;
    var edges := base[id];
    var done := Arcs(base, id) + NodeArcs(id, edges[..i]);
    var next := Arcs(base, id) + NodeArcs(id, edges[..i + 1]);
    NodeArcsNext(id, edges, i);
    NodeArcsPrefix(id, edges, i + 1);
    ArcsNext(base, id);
    ArcsPrefix(base, id + 1, |base|);
    PrefixChain(done, (id, edges[i]), next, Arcs(base, id + 1), Arcs(base, |base|));
  }

  lemma PrefixChain<T>(done: seq<T>, x: T, next: seq<T>, mid: seq<T>, all: seq<T>)
    requires next == done + [x] && next <= mid <= all
    ensures |done| < |all| && all[..|done|] == done && all[|done|] == x && all[..|done| + 1] == next
  {}

  lemma EmptyRows(adj: seq<nat>, offsets: seq<nat>, count: nat)
    requires |offsets| == count + 1
    ensures Filled(adj, offsets, [], count)
  {
    forall v: nat ensures |Row([], v)| == 0 {}
  }

  method FillAdjacency(base: seq<seq<nat>>, degrees: seq<nat>, offsets: seq<nat>) returns (adj: array<nat>)
    requires GraphSearch.EdgesInside(base) && |degrees| == |base| && LaidOut(offsets, degrees)
    requires Degrees(degrees, Arcs(base, |base|))
    ensures fresh(adj) && adj.Length == offsets[|base|]
    ensures Filled(adj[..], offsets, Arcs(base, |base|), |base|)
  {
    hide *;
    var count := |base|;
    ghost var all := Arcs(base, count);
    ArcsAreInside(base, count);
    RowsSized(offsets, degrees);
    adj := new nat[offsets[count]](_ => 0);
    EmptyRows(adj[..], offsets, count);
    var cursor := new nat[count](i requires 0 <= i < count => offsets[i]);
    EmptyCursors(cursor[..], offsets);
    NoArcs(base);
    for id := 0 to count
      invariant Filled(adj[..], offsets, Arcs(base, id), count) && Cursors(cursor[..], offsets, Arcs(base, id))
    {
      var edges := base[id];
      ArcsNext(base, id);
      for i := 0 to |edges|
        invariant Filled(adj[..], offsets, Arcs(base, id) + NodeArcs(id, edges[..i]), count)
        invariant Cursors(cursor[..], offsets, Arcs(base, id) + NodeArcs(id, edges[..i]))
      {
        var n := edges[i];
        NodeArcsNext(id, edges, i);
        if n == id { continue; }
        NextArc(base, id, i);
        WriteArc(adj, cursor, offsets, degrees, all, |Arcs(base, id) + NodeArcs(id, edges[..i])|, id, n);
      }
      assert edges[..|edges|] == edges;
    }
  }

  lemma RowsSized(offsets: seq<nat>, degrees: seq<nat>)
    requires LaidOut(offsets, degrees)
    ensures |offsets| == |degrees| + 1
  {}

  lemma EmptyCursors(cursor: seq<nat>, offsets: seq<nat>)
    requires |offsets| == |cursor| + 1 && forall i :: 0 <= i < |cursor| ==> cursor[i] == offsets[i]
    ensures Cursors(cursor, offsets, [])
  {}

  lemma NoArcs(base: seq<seq<nat>>)
    ensures Arcs(base, 0) == []
  {}

  method WriteArc(
    adj: array<nat>, cursor: array<nat>, offsets: seq<nat>, ghost degrees: seq<nat>, ghost all: seq<(nat, nat)>, ghost i: nat,
    id: nat, n: nat)
    requires adj != cursor && i < |all| && all[i] == (id, n) && cursor.Length == |degrees|
    requires Degrees(degrees, all) && ArcsInside(all, |degrees|) && LaidOut(offsets, degrees) && adj.Length == offsets[|degrees|]
    requires Filled(adj[..], offsets, all[..i], |degrees|) && Cursors(cursor[..], offsets, all[..i])
    modifies adj, cursor
    ensures Filled(adj[..], offsets, all[..i + 1], |degrees|) && Cursors(cursor[..], offsets, all[..i + 1])
  {
    FillArc(adj[..], offsets, cursor[..], degrees, all, i);
    hide Filled;
    hide Cursors;
    ghost var a: seq<nat>, c: seq<nat> := adj[..], cursor[..];
    adj[cursor[id]] := n;
    cursor[id] := cursor[id] + 1;
    adj[cursor[n]] := id;
    cursor[n] := cursor[n] + 1;
    assert adj[..] == a[c[id] := n][c[n] := id];
    assert cursor[..] == c[id := c[id] + 1][n := c[n] + 1];
  }

  // ---------- sort and drop repeats, in place ----------

  function DropRepeats(s: seq<nat>): (r: seq<nat>)
    ensures |r| <= |s| && (s == [] <==> r == [])
    ensures s != [] ==> Last(r) == Last(s)
  {
    if s == [] then []
    else
      var rest := DropRepeats(Front(s));
      if rest != [] && Last(rest) == Last(s) then rest else rest + [Last(s)]
  }

  lemma {:induction false} DropRepeatsMembers(s: seq<nat>, x: nat)
    ensures x in DropRepeats(s) <==> x in s
  {
    if s == [] {
    } else {
      var front, last := Front(s), Last(s);
      DropRepeatsMembers(front, x);
      assert s == front + [last];
      assert DropRepeats(front) != [] ==> Last(DropRepeats(front)) in DropRepeats(front);
    }
  }

  lemma {:induction false} DropRepeatsIncreasing(s: seq<nat>)
    requires forall i, j :: 0 <= i < j < |s| ==> s[i] <= s[j]
    ensures Increasing(DropRepeats(s))
  {
    if s == [] {
    } else {
      var rest := DropRepeats(Front(s));
      DropRepeatsIncreasing(Front(s));
      forall y | y in rest ensures y <= Last(s) {
        DropRepeatsMembers(Front(s), y);
        assert y in Front(s);
      }
      hide DropRepeats;
      if rest == [] || Last(rest) != Last(s) { AppendLarger(rest, Last(s)); }
    }
  }

  lemma AppendLarger(s: seq<nat>, x: nat)
    requires Increasing(s) && forall y :: y in s ==> y <= x
    requires s == [] || Last(s) != x
    ensures Increasing(s + [x])
  {
    if s != [] { assert Last(s) in s; }
    forall i | 0 <= i < |s| ensures s[i] < x {
      assert s[i] in s;
      if i < |s| - 1 { assert s[i] < Last(s); }
    }
  }

  lemma DropRepeatsElements(s: seq<nat>)
    ensures Elements(DropRepeats(s)) == Elements(s)
  {
    forall x: nat ensures x in DropRepeats(s) <==> x in s { DropRepeatsMembers(s, x); }
  }

  /** Row `start..end`: sort it, then keep the first of each run of equals; cells outside the row are untouched. */
  method CompactRow(adj: array<nat>, start: nat, end: nat) returns (unique: nat)
    requires start <= end <= adj.Length
    modifies adj
    ensures start + unique <= end
    ensures adj[..start] == old(adj[..start]) && adj[end..] == old(adj[end..])
    ensures Increasing(adj[start..start + unique]) && Elements(adj[start..start + unique]) == Elements(old(adj[start..end]))
  {
    ghost var row := adj[start..end];
    SortRow(adj, start, end);
    AscendingSorted(row);
    DropRepeatsIncreasing(Ascending(row));
    DropRepeatsElements(Ascending(row));
    hide Increasing;
    hide DropRepeats;
    hide Ascending;
    unique := DropRepeatsInPlace(adj, start, end);
  }

  function Ascending(s: seq<nat>): (r: seq<nat>)
    ensures |r| == |s|
  {
    StableSort(s, AtMost)
  }

  lemma AscendingSorted(s: seq<nat>)
    ensures forall i, j :: 0 <= i < j < |s| ==> Ascending(s)[i] <= Ascending(s)[j]
    ensures Elements(Ascending(s)) == Elements(s)
  {
    var r := Ascending(s);
    StableSortSorted<nat>(s, AtMost);
    SameElements(s, r);
    forall i, j | 0 <= i < j < |r| ensures r[i] <= r[j] { assert AtMost(r[i], r[j]); }
  }

  /** `neighbors.sort()` on a window of the table. */
  method SortRow(adj: array<nat>, start: nat, end: nat)
    requires start <= end <= adj.Length
    modifies adj
    ensures adj[..start] == old(adj[..start]) && adj[end..] == old(adj[end..])
    ensures adj[start..end] == Ascending(old(adj[start..end]))
  {
    var neighbors := Ascending(adj[start..end]);
    ghost var before := adj[..];
    hide *;
    for i := 0 to |neighbors|
      invariant forall k :: 0 <= k < start || end <= k < adj.Length ==> adj[k] == before[k]
      invariant forall k :: start <= k < start + i ==> adj[k] == neighbors[k - start]
    {
      adj[start + i] := neighbors[i];
    }
    WindowChanged(before, adj[..], start, end, neighbors);
  }

  lemma WindowChanged(before: seq<nat>, after: seq<nat>, start: nat, end: nat, row: seq<nat>)
    requires |after| == |before| && start + |row| <= end <= |before|
    requires forall k :: 0 <= k < start || end <= k < |before| ==> after[k] == before[k]
    requires forall k :: start <= k < start + |row| ==> after[k] == row[k - start]
    ensures after[..start] == before[..start] && after[end..] == before[end..] && after[start..start + |row|] == row
  {}

  lemma NothingDropped(row: seq<nat>)
    ensures DropRepeats(row[..0]) == []
  {}

  lemma DropRepeatsNext(row: seq<nat>, k: nat)
    requires k < |row|
    ensures DropRepeats(row[..k + 1]) ==
      if k > 0 && row[k - 1] == row[k] then DropRepeats(row[..k]) else DropRepeats(row[..k]) + [row[k]]
  {
    assert Front(row[..k + 1]) == row[..k] && Last(row[..k + 1]) == row[k];
    assert k > 0 ==> Last(row[..k]) == row[k - 1];
  }

  /** Cells start to write - 1 hold `kept`, and the cells outside start to p - 1 are untouched. */
  ghost predicate Windowed(before: seq<nat>, after: seq<nat>, start: nat, p: nat, kept: seq<nat>) {
    && |after| == |before| && start + |kept| <= p <= |before|
    && (forall k :: 0 <= k < start || p <= k < |before| ==> after[k] == before[k])
    && (forall k :: start <= k < start + |kept| ==> after[k] == kept[k - start])
  }

  lemma WindowedNext(before: seq<nat>, after: seq<nat>, start: nat, p: nat, kept: seq<nat>)
    requires Windowed(before, after, start, p, kept) && p < |before|
    ensures |after| == |before| && after[p] == before[p] && start + |kept| <= p
    ensures Windowed(before, after, start, p + 1, kept)
    ensures Windowed(before, after[start + |kept| := after[p]], start, p + 1, kept + [after[p]])
  {}

  /** What is kept of the row's cells before p, and the value last met. */
  ghost predicate Dropping(before: seq<nat>, after: seq<nat>, start: nat, p: nat, kept: seq<nat>, prev: int) {
    && Windowed(before, after, start, p, kept) && start <= p <= |before| && kept == DropRepeats(before[start..p])
    && prev == if p == start then -1 else before[p - 1]
  }

  lemma DroppingStart(before: seq<nat>, start: nat)
    requires start <= |before|
    ensures Dropping(before, before, start, start, [], -1)
  {
    assert before[start..start] == [];
  }

  lemma DropRepeatsGrows(before: seq<nat>, start: nat, p: nat)
    requires start <= p < |before|
    ensures DropRepeats(before[start..p + 1]) ==
      if p > start && before[p - 1] == before[p] then DropRepeats(before[start..p])
      else DropRepeats(before[start..p]) + [before[p]]
  {
    var row := before[start..p + 1];
    DropRepeatsNext(row, p - start);
    assert row[..p - start] == before[start..p] && row[..p - start + 1] == row;
  }

  lemma DroppingNext(before: seq<nat>, after: seq<nat>, start: nat, p: nat, kept: seq<nat>, prev: int)
    requires Dropping(before, after, start, p, kept, prev) && p < |before|
    ensures |after| == |before| && start + |kept| <= p
    ensures
      var n := after[p];
      if n == prev then Dropping(before, after, start, p + 1, kept, prev)
      else Dropping(before, after[start + |kept| := n], start, p + 1, kept + [n], n)
  {
    hide DropRepeats, Windowed;
    WindowedNext(before, after, start, p, kept);
    DropRepeatsGrows(before, start, p);
  }

  lemma DroppingEnd(before: seq<nat>, after: seq<nat>, start: nat, end: nat, kept: seq<nat>, prev: int)
    requires Dropping(before, after, start, end, kept, prev)
    ensures start + |kept| <= end <= |after| == |before|
    ensures after[..start] == before[..start] && after[end..] == before[end..]
    ensures after[start..start + |kept|] == DropRepeats(before[start..end])
  {
    hide DropRepeats;
    WindowChanged(before, after, start, end, kept);
  }

  method DropRepeatsInPlace(adj: array<nat>, start: nat, end: nat) returns (unique: nat)
    requires start <= end <= adj.Length
    modifies adj
    ensures start + unique <= end
    ensures adj[..start] == old(adj[..start]) && adj[end..] == old(adj[end..])
    ensures adj[start..start + unique] == DropRepeats(old(adj[start..end]))
  {
    hide *;
    ghost var before: seq<nat> := adj[..];
    assert before[start..end] == adj[start..end] && before[..start] == adj[..start] && before[end..] == adj[end..];
    var write: nat := start;
    var prev: int := -1;
    ghost var kept := [];
    DroppingStart(before, start);
    for p := start to end
      invariant Dropping(before, adj[..], start, p, kept, prev) && write == start + |kept|
    {
      ghost var after: seq<nat> := adj[..];
      DroppingNext(before, after, start, p, kept, prev);
      var n := adj[p];
      if n == prev { continue; }
      adj[write] := n;
      assert adj[..] == after[write := n];
      write := write + 1;
      kept := kept + [n];
      prev := n;
    }
    ghost var after: seq<nat> := adj[..];
    DroppingEnd(before, after, start, end, kept, prev);
    unique := write - start;
    assert adj[..start] == after[..start] && adj[end..] == after[end..] && adj[start..write] == after[start..write];
  }

  // ---------- the whole table ----------

  /** Row v of the table, after compaction: exactly the nodes joined to v, strictly increasing. */
  ghost predicate RowDone(base: seq<seq<nat>>, adj: seq<nat>, start: nat, unique: nat, v: nat) {
    && start + unique <= |adj| && Increasing(adj[start..start + unique])
    && forall w: nat :: w in adj[start..start + unique] <==> Joined(base, v, w)
  }

  ghost function NeighbourSet(base: seq<seq<nat>>, v: nat): (r: set<nat>)
    requires GraphSearch.EdgesInside(base)
    ensures forall w: nat :: w in r <==> w < |base| && Joined(base, v, w)
  {
    set w | w in Below(|base|) && Joined(base, v, w)
  }

  lemma JoinedInside(base: seq<seq<nat>>, v: nat, w: nat)
    requires GraphSearch.EdgesInside(base) && Joined(base, v, w) && v < |base|
    ensures w < |base|
  {
    if w in base[v] { var k :| 0 <= k < |base[v]| && base[v][k] == w; }
  }

  lemma RowCounts(base: seq<seq<nat>>, adj: seq<nat>, start: nat, unique: nat, v: nat)
    requires GraphSearch.EdgesInside(base) && v < |base| && RowDone(base, adj, start, unique, v)
    ensures unique == |NeighbourSet(base, v)|
  {
    var row := adj[start..start + unique];
    DistinctSize(row);
    forall w: nat ensures w in Elements(row) <==> w in NeighbourSet(base, v) {
      if Joined(base, v, w) { JoinedInside(base, v, w); }
    }
    assert Elements(row) == NeighbourSet(base, v);
  }

  ghost function DegreeSum(base: seq<seq<nat>>, n: nat): nat
    requires GraphSearch.EdgesInside(base)
  {
    if n == 0 then 0 else DegreeSum(base, n - 1) + |NeighbourSet(base, n - 1)|
  }

  /** Undirected edges: pairs joined, smaller end first. */
  ghost function UndirectedEdges(base: seq<seq<nat>>): set<(nat, nat)>
    requires GraphSearch.EdgesInside(base)
  {
    set a, b | a in Below(|base|) && b in Below(|base|) && a < b && Joined(base, a, b) :: (a, b)
  }

  /** Pairs joined, by first end below n, on one side of the diagonal. */
  ghost function HalfPairs(base: seq<seq<nat>>, n: nat, up: bool): (r: set<(nat, nat)>)
    requires GraphSearch.EdgesInside(base)
    ensures forall a: nat, b: nat :: (a, b) in r <==> a < n && b < |base| && Joined(base, a, b) && (a < b) == up
  {
    set a, b | a in Below(n) && b in Below(|base|) && Joined(base, a, b) && (a < b) == up :: (a, b)
  }

  ghost function Beam(v: nat, ws: set<nat>): (r: set<(nat, nat)>)
    ensures forall a: nat, b: nat :: (a, b) in r <==> a == v && b in ws
  {
    set w | w in ws :: (v, w)
  }

  lemma {:induction false} BeamSize(v: nat, ws: set<nat>)
    ensures |Beam(v, ws)| == |ws|
    decreases ws
  {
    if ws == {} {
      assert Beam(v, ws) == {};
    } else {
      var w :| w in ws;
      BeamSize(v, ws - {w});
      assert Beam(v, ws) == Beam(v, ws - {w}) + {(v, w)};
    }
  }

  ghost function Side(base: seq<seq<nat>>, v: nat, up: bool): (r: set<nat>)
    requires GraphSearch.EdgesInside(base)
  {
    set w | w in NeighbourSet(base, v) && (v < w) == up
  }

  lemma HalfStep(base: seq<seq<nat>>, v: nat, up: bool)
    requires GraphSearch.EdgesInside(base) && v < |base|
    ensures |HalfPairs(base, v + 1, up)| == |HalfPairs(base, v, up)| + |Side(base, v, up)|
  {
    hide Joined;
    var side := Side(base, v, up);
    BeamSize(v, side);
    forall p ensures p in HalfPairs(base, v + 1, up) <==> p in HalfPairs(base, v, up) + Beam(v, side) {
      assert p == (p.0, p.1);
    }
    assert HalfPairs(base, v + 1, up) == HalfPairs(base, v, up) + Beam(v, side);
    forall p | p in HalfPairs(base, v, up) ensures p !in Beam(v, side) { assert p == (p.0, p.1); }
    assert HalfPairs(base, v, up) !! Beam(v, side);
  }

  lemma SidesSplit(base: seq<seq<nat>>, v: nat)
    requires GraphSearch.EdgesInside(base) && v < |base|
    ensures |NeighbourSet(base, v)| == |Side(base, v, true)| + |Side(base, v, false)|
  {
    var up, down := Side(base, v, true), Side(base, v, false);
    assert NeighbourSet(base, v) == up + down && up !! down;
  }

  lemma NoPairs(base: seq<seq<nat>>, up: bool)
    requires GraphSearch.EdgesInside(base)
    ensures HalfPairs(base, 0, up) == {}
  {
    forall p: (nat, nat) ensures p !in HalfPairs(base, 0, up) { assert p == (p.0, p.1); }
  }

  lemma {:induction false} DegreeSumSplits(base: seq<seq<nat>>, n: nat)
    requires GraphSearch.EdgesInside(base) && n <= |base|
    ensures DegreeSum(base, n) == |HalfPairs(base, n, true)| + |HalfPairs(base, n, false)|
  {
    hide HalfPairs;
    hide Side;
    hide NeighbourSet;
    hide GraphSearch.EdgesInside;
    if n == 0 {
      NoPairs(base, true);
      NoPairs(base, false);
    } else {
      DegreeSumSplits(base, n - 1);
      HalfStep(base, n - 1, true);
      HalfStep(base, n - 1, false);
      SidesSplit(base, n - 1);
    }
  }

  ghost function Swapped(s: set<(nat, nat)>): (r: set<(nat, nat)>)
    ensures forall a: nat, b: nat :: (a, b) in r <==> (b, a) in s
  {
    set p | p in s :: (p.1, p.0)
  }

  lemma {:induction false} SwappedSize(s: set<(nat, nat)>)
    ensures |Swapped(s)| == |s|
    decreases s
  {
    if s == {} {
      assert Swapped(s) == {};
    } else {
      var p :| p in s;
      SwappedSize(s - {p});
      assert Swapped(s) == Swapped(s - {p}) + {(p.1, p.0)};
      assert p == (p.0, p.1);
    }
  }

  /** Handshake: the relation is symmetric and irreflexive, so the degree sum is twice the undirected edge count. */
  lemma Handshake(base: seq<seq<nat>>)
    requires GraphSearch.EdgesInside(base)
    ensures DegreeSum(base, |base|) == 2 * |UndirectedEdges(base)|
  {
    var up, down := HalfPairs(base, |base|, true), HalfPairs(base, |base|, false);
    DegreeSumSplits(base, |base|);
    SwappedSize(up);
    forall p | p in down ensures p in Swapped(up) { assert p == (p.0, p.1) && Joined(base, p.1, p.0); }
    forall p | p in Swapped(up) ensures p in down { assert p == (p.0, p.1) && Joined(base, p.1, p.0); }
    assert down == Swapped(up);
    assert UndirectedEdges(base) == up;
  }

  lemma FilledRow(adj: seq<nat>, offsets: seq<nat>, degrees: seq<nat>, arcs: seq<(nat, nat)>, v: nat)
    requires LaidOut(offsets, degrees) && |adj| == offsets[|degrees|] && v < |degrees|
    requires Filled(adj, offsets, arcs, |degrees|) && Degrees(degrees, arcs)
    ensures offsets[v] <= offsets[v + 1] <= |adj| && adj[offsets[v]..offsets[v + 1]] == Row(arcs, v)
  {
    OffsetsGrow(offsets, degrees, v + 1, |degrees|);
    hide Row;
    forall k: nat | k < |Row(arcs, v)| ensures adj[offsets[v]..offsets[v + 1]][k] == Row(arcs, v)[k] {
      assert CellHolds(adj, offsets, arcs, v, k);
    }
  }

  /** Row v before compaction: every contribution, in order of arrival. */
  ghost predicate RowWaiting(base: seq<seq<nat>>, adj: seq<nat>, start: nat, end: nat, v: nat) {
    start <= end <= |adj| && adj[start..end] == Row(Arcs(base, |base|), v)
  }

  /** Rows still to be compacted hold every contribution; compacted ones are done. */
  ghost predicate Compacted(
    base: seq<seq<nat>>, adj: seq<nat>, offsets: seq<nat>, unique: seq<nat>, n: nat)
  {
    && |offsets| == |base| + 1 && |unique| == |base| && n <= |base|
    && (forall v: nat :: v < n ==> offsets[v] + unique[v] <= offsets[v + 1] && RowDone(base, adj, offsets[v], unique[v], v))
    && forall v: nat :: n <= v < |base| ==> RowWaiting(base, adj, offsets[v], offsets[v + 1], v)
  }

  lemma DoneKept(base: seq<seq<nat>>, before: seq<nat>, after: seq<nat>, cut: nat, start: nat, unique: nat, v: nat)
    requires |before| == |after| && cut <= |before| && after[..cut] == before[..cut]
    requires start + unique <= cut && RowDone(base, before, start, unique, v)
    ensures RowDone(base, after, start, unique, v)
  {
    assert after[start..start + unique] == after[..cut][start..start + unique];
    assert before[start..start + unique] == before[..cut][start..start + unique];
  }

  lemma WaitingKept(base: seq<seq<nat>>, before: seq<nat>, after: seq<nat>, cut: nat, start: nat, end: nat, v: nat)
    requires |before| == |after| && cut <= |before| && after[cut..] == before[cut..]
    requires cut <= start && RowWaiting(base, before, start, end, v)
    ensures RowWaiting(base, after, start, end, v)
  {
    forall k | start <= k < end ensures after[k] == before[k] {
      assert after[cut..][k - cut] == before[cut..][k - cut];
    }
  }

  lemma RowFinished(base: seq<seq<nat>>, before: seq<nat>, after: seq<nat>, start: nat, end: nat, u: nat, v: nat)
    requires GraphSearch.EdgesInside(base) && v < |base| && RowWaiting(base, before, start, end, v)
    requires start + u <= |after| && Increasing(after[start..start + u])
    requires Elements(after[start..start + u]) == Elements(before[start..end])
    ensures RowDone(base, after, start, u, v)
  {
    hide Row;
    hide Arcs;
    hide Joined;
    hide Increasing;
    RowIsNeighbours(base, v);
    forall w: nat ensures w in after[start..start + u] <==> Joined(base, v, w) {
      assert w in after[start..start + u] <==> w in Elements(before[start..end]);
    }
  }

  /** Compacting row n leaves the other rows as they were. */
  lemma CompactStep(
    base: seq<seq<nat>>, before: seq<nat>, after: seq<nat>, offsets: seq<nat>, degrees: seq<nat>, unique: seq<nat>, n: nat, u: nat)
    requires GraphSearch.EdgesInside(base) && LaidOut(offsets, degrees) && |degrees| == |base| && n < |base|
    requires |before| == |after| == offsets[|base|] && Compacted(base, before, offsets, unique, n)
    requires offsets[n] + u <= offsets[n + 1] <= |before|
    requires after[..offsets[n]] == before[..offsets[n]] && after[offsets[n + 1]..] == before[offsets[n + 1]..]
    requires Increasing(after[offsets[n]..offsets[n] + u])
    requires Elements(after[offsets[n]..offsets[n] + u]) == Elements(before[offsets[n]..offsets[n + 1]])
    ensures Compacted(base, after, offsets, unique[n := u], n + 1)
  {
    hide RowDone;
    hide RowWaiting;
    hide Increasing;
    RowFinished(base, before, after, offsets[n], offsets[n + 1], u, n);
    forall v: nat | v < n ensures RowDone(base, after, offsets[v], unique[v], v) {
      OffsetsGrow(offsets, degrees, v + 1, n);
      DoneKept(base, before, after, offsets[n], offsets[v], unique[v], v);
    }
    forall v: nat | n + 1 <= v < |base| ensures RowWaiting(base, after, offsets[v], offsets[v + 1], v) {
      OffsetsGrow(offsets, degrees, n + 1, v);
      WaitingKept(base, before, after, offsets[n + 1], offsets[v], offsets[v + 1], v);
    }
  }

  /** `buildSymmetricAdjacency`: compacted rows, their lengths, and the undirected edge count. */
  method BuildSymmetricAdjacency(base: seq<seq<nat>>)
    returns (offsets: array<nat>, adj: array<nat>, uniqueDegrees: array<nat>, undirectedEdges: nat)
    requires GraphSearch.EdgesInside(base)
    ensures offsets.Length == |base| + 1 && uniqueDegrees.Length == |base|
    ensures forall v: nat :: v < |base| ==>
      offsets[v] + uniqueDegrees[v] <= offsets[v + 1] && RowDone(base, adj[..], offsets[v], uniqueDegrees[v], v)
    ensures undirectedEdges == |UndirectedEdges(base)|
    ensures 2 * undirectedEdges == DegreeSum(base, |base|)
  {
    var count := |base|;
    var degrees := CountDegrees(base);
    offsets := PrefixSums(degrees);
    adj := FillAdjacency(base, degrees[..], offsets[..]);
    ghost var all, table := Arcs(base, count), offsets[..];
    forall v: nat | v < count ensures RowWaiting(base, adj[..], table[v], table[v + 1], v) {
      FilledRow(adj[..], table, degrees[..], all, v);
    }
    hide RowWaiting;
    hide RowDone;
    uniqueDegrees, undirectedEdges := CompactAll(base, degrees[..], offsets, adj);
    assert forall v: nat :: v < count ==> table[v] == offsets[v] && uniqueDegrees[..][v] == uniqueDegrees[v];
    Handshake(base);
  }

  method CompactAll(base: seq<seq<nat>>, ghost degrees: seq<nat>, offsets: array<nat>, adj: array<nat>)
    returns (uniqueDegrees: array<nat>, half: nat)
    requires GraphSearch.EdgesInside(base) && |degrees| == |base| && offsets != adj && LaidOut(offsets[..], degrees)
    requires adj.Length == offsets[..][|base|]
    requires forall v: nat :: v < |base| ==> RowWaiting(base, adj[..], offsets[..][v], offsets[..][v + 1], v)
    modifies adj
    ensures fresh(uniqueDegrees) && uniqueDegrees.Length == |base|
    ensures Compacted(base, adj[..], offsets[..], uniqueDegrees[..], |base|)
    ensures half == DegreeSum(base, |base|) / 2
  {
    hide RowWaiting;
    hide RowDone;
    hide Increasing;
    uniqueDegrees := new nat[|base|](_ => 0);
    var total := 0;
    ghost var table := offsets[..];
    for id := 0 to |base|
      invariant offsets[..] == table
      invariant Compacted(base, adj[..], table, uniqueDegrees[..], id)
      invariant total == DegreeSum(base, id)
    {
      ghost var before, sofar := adj[..], uniqueDegrees[..];
      var unique := CompactNext(base, table, degrees, sofar, id, offsets[id], offsets[id + 1], adj);
      uniqueDegrees[id] := unique;
      total := total + unique;
    }
    half := total / 2;
  }

  method CompactNext(
    base: seq<seq<nat>>, ghost table: seq<nat>, ghost degrees: seq<nat>, ghost sofar: seq<nat>, ghost id: nat,
    start: nat, end: nat, adj: array<nat>)
    returns (unique: nat)
    requires GraphSearch.EdgesInside(base) && LaidOut(table, degrees) && |degrees| == |base| && id < |base|
    requires adj.Length == table[|base|] && start == table[id] && end == table[id + 1]
    requires Compacted(base, adj[..], table, sofar, id)
    modifies adj
    ensures Compacted(base, adj[..], table, sofar[id := unique], id + 1)
    ensures unique == |NeighbourSet(base, id)|
  {
    ghost var before := adj[..];
    assert RowWaiting(base, before, start, end, id);
    assert start <= end <= adj.Length && before[start..end] == adj[start..end];
    hide RowWaiting;
    hide RowDone;
    hide Increasing;
    unique := CompactRow(adj, start, end);
    ghost var after := adj[..];
    assert after[..start] == adj[..start] && after[end..] == adj[end..];
    assert after[start..start + unique] == adj[start..start + unique];
    CompactStep(base, before, after, table, degrees, sofar, id, unique);
    RowCounts(base, after, start, unique, id);
  }
}
