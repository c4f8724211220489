/** Grouping nodes by partition with a counting sort: sizes, prefix sums, then one pass that fills each window. */
module PartitionMembers {
  import opened SymmetricGraph

  ghost predicate Partitioned(partition: seq<nat>, parts: nat) {
    forall i :: 0 <= i < |partition| ==> partition[i] < parts
  }

  /** Members of partition p among the first n nodes, ascending. */
  function Members(partition: seq<nat>, n: nat, p: nat): (r: seq<nat>)
    requires n <= |partition|
  {
    if n == 0 then [] else Members(partition, n - 1, p) + if partition[n - 1] == p then [n - 1] else []
  }

  lemma MembersStep(partition: seq<nat>, n: nat, p: nat)
    requires n < |partition|
    ensures Members(partition, n + 1, p) == Members(partition, n, p) + if partition[n] == p then [n] else []
  {
  }

  /** Exactly the nodes of the partition, each once, ascending. */
  lemma {:induction false} MembersExact(partition: seq<nat>, n: nat, p: nat)
    requires n <= |partition|
    ensures forall i: nat :: i in Members(partition, n, p) <==> i < n && partition[i] == p
    ensures forall a, b :: 0 <= a < b < |Members(partition, n, p)| ==> Members(partition, n, p)[a] < Members(partition, n, p)[b]
  {
    if n == 0 {
    } else {
      MembersExact(partition, n - 1, p);
      var rest := Members(partition, n - 1, p);
      forall a | 0 <= a < |rest| ensures rest[a] < n - 1 { assert rest[a] in rest; }
    }
  }

  lemma {:induction false} MembersGrow(partition: seq<nat>, n: nat, m: nat, p: nat)
    requires n <= m <= |partition|
    ensures |Members(partition, n, p)| <= |Members(partition, m, p)|
    decreases m - n
  {
    if n < m {
      MembersGrow(partition, n, m - 1, p);
      MembersStep(partition, m - 1, p);
    }
  }

  /** How many of the first n nodes the partitions below `parts` hold. */
  function Total(partition: seq<nat>, n: nat, parts: nat): nat
    requires n <= |partition|
  {
    if parts == 0 then 0 else Total(partition, n, parts - 1) + |Members(partition, n, parts - 1)|
  }

  lemma {:induction false} TotalStep(partition: seq<nat>, n: nat, parts: nat)
    requires n < |partition|
    ensures Total(partition, n + 1, parts) == Total(partition, n, parts) + if partition[n] < parts then 1 else 0
  {
    if parts == 0 {
    } else {
      TotalStep(partition, n, parts - 1);
      MembersStep(partition, n, parts - 1);
      hide Members;
    }
  }

  lemma {:induction false} NothingPlaced(partition: seq<nat>, parts: nat)
    ensures Total(partition, 0, parts) == 0
  {
    if parts == 0 {
    } else {
      NothingPlaced(partition, parts - 1);
    }
  }

  lemma {:induction false} TotalAll(partition: seq<nat>, n: nat, parts: nat)
    requires n <= |partition| && Partitioned(partition, parts)
    ensures Total(partition, n, parts) == n
  {
    hide Total;
    if n == 0 {
      NothingPlaced(partition, parts);
    } else {
      TotalAll(partition, n - 1, parts);
      TotalStep(partition, n - 1, parts);
    }
  }

  ghost predicate Sized(sizes: seq<nat>, partition: seq<nat>) {
    forall p: nat :: p < |sizes| ==> sizes[p] == |Members(partition, |partition|, p)|
  }

  lemma {:induction false} OffsetsAreTotals(offsets: seq<nat>, sizes: seq<nat>, partition: seq<nat>, p: nat)
    requires LaidOut(offsets, sizes) && Sized(sizes, partition) && p <= |sizes|
    ensures offsets[p] == Total(partition, |partition|, p)
  {
    if p == 0 {
    } else {
      OffsetsAreTotals(offsets, sizes, partition, p - 1);
    }
  }

  /** After n nodes each window holds its members so far and its cursor follows them. */
  ghost predicate Placed(members: seq<nat>, cursor: seq<nat>, offsets: seq<nat>, partition: seq<nat>, n: nat) {
    && n <= |partition| && |offsets| == |cursor| + 1
    && (forall p: nat :: p < |cursor| ==> cursor[p] == offsets[p] + |Members(partition, n, p)|)
    && forall p: nat :: p < |cursor| ==> Holds(members, offsets[p], Members(partition, n, p))
  }

  ghost predicate Holds(members: seq<nat>, start: nat, list: seq<nat>) {
    start + |list| <= |members| && members[start..start + |list|] == list
  }

  lemma HoldsAfterWrite(members: seq<nat>, start: nat, list: seq<nat>, cell: nat, value: nat)
    requires Holds(members, start, list) && cell < |members|
    requires cell < start || start + |list| <= cell
    ensures Holds(members[cell := value], start, list)
    ensures cell == start + |list| ==> Holds(members[cell := value], start, list + [value])
  {
    var next := members[cell := value];
    assert next[start..start + |list|] == members[start..start + |list|];
    if cell == start + |list| {
      assert next[start..cell + 1] == next[start..cell] + [value];
    }
  }

  /** The next free cell of window q lies outside what any window holds. */
  lemma CellOutside(offsets: seq<nat>, sizes: seq<nat>, p: nat, held: nat, q: nat, filled: nat)
    requires LaidOut(offsets, sizes) && p < |sizes| && q < |sizes| && held <= sizes[p] && filled < sizes[q]
    requires p == q ==> held == filled
    ensures offsets[q] + filled < offsets[p] || offsets[p] + held <= offsets[q] + filled < offsets[|sizes|]
    ensures offsets[q] + filled < offsets[|sizes|]
  {
    OffsetsGrow(offsets, sizes, q + 1, |sizes|);
    if p < q { OffsetsGrow(offsets, sizes, p + 1, q); }
    if q < p { OffsetsGrow(offsets, sizes, q + 1, p); }
  }

  lemma PlaceNext(members: seq<nat>, cursor: seq<nat>, offsets: seq<nat>, sizes: seq<nat>, partition: seq<nat>, n: nat)
    requires Partitioned(partition, |sizes|) && LaidOut(offsets, sizes) && Sized(sizes, partition)
    requires n < |partition| == |members| && |cursor| == |sizes|
    requires Placed(members, cursor, offsets, partition, n)
    ensures
      var p := partition[n];
      p < |cursor| && cursor[p] < |members| && Placed(members[cursor[p] := n], cursor[p := cursor[p] + 1], offsets, partition, n + 1)
  {
    var q := partition[n];
    var filled := |Members(partition, n, q)|;
    MembersGrow(partition, n + 1, |partition|, q);
    MembersStep(partition, n, q);
    OffsetsAreTotals(offsets, sizes, partition, |sizes|);
    TotalAll(partition, |partition|, |sizes|);
    hide Members;
    hide Total;
    CellOutside(offsets, sizes, q, filled, q, filled);
    forall p: nat | p < |cursor|
      ensures Holds(members[cursor[q] := n], offsets[p], Members(partition, n + 1, p))
      ensures |Members(partition, n + 1, p)| == |Members(partition, n, p)| + if p == q then 1 else 0
    {
      var list := Members(partition, n, p);
      MembersStep(partition, n, p);
      MembersGrow(partition, n, |partition|, p);
      CellOutside(offsets, sizes, p, |list|, q, filled);
      HoldsAfterWrite(members, offsets[p], list, cursor[q], n);
      assert list + [] == list;
    }
  }

  method CountMembers(partition: seq<nat>, parts: nat) returns (sizes: array<nat>)
    requires Partitioned(partition, parts)
    ensures fresh(sizes) && sizes.Length == parts && Sized(sizes[..], partition)
  {
    sizes := new nat[parts](_ => 0);
    for i := 0 to |partition|
      invariant forall p: nat :: p < parts ==> sizes[p] == |Members(partition, i, p)|
    {
      sizes[partition[i]] := sizes[partition[i]] + 1;
    }
  }

  /** Page p's members are exactly the window starts[p]..starts[p + 1]. */
  ghost predicate Window(starts: seq<nat>, members: seq<nat>, partition: seq<nat>, p: nat) {
    && p + 1 < |starts| && starts[p] <= starts[p + 1] <= |members|
    && members[starts[p]..starts[p + 1]] == Members(partition, |partition|, p)
  }

  method GroupMembers(partition: seq<nat>, parts: nat) returns (starts: array<nat>, members: array<nat>)
    requires Partitioned(partition, parts)
    ensures starts.Length == parts + 1 && members.Length == |partition|
    ensures forall p: nat :: p < parts ==> Window(starts[..], members[..], partition, p)
  {
    var sizes := CountMembers(partition, parts);
    starts := PrefixSums(sizes);
    members := FillWindows(partition, starts[..], sizes[..]);
  }

  method FillWindows(partition: seq<nat>, starts: seq<nat>, ghost sizes: seq<nat>) returns (members: array<nat>)
    requires Partitioned(partition, |sizes|) && LaidOut(starts, sizes) && Sized(sizes, partition)
    ensures fresh(members) && members.Length == |partition|
    ensures forall p: nat :: p < |sizes| ==> Window(starts, members[..], partition, p)
  {
    hide Placed;
    hide Sized;
    hide Window;
    hide Partitioned;
    members := new nat[|partition|](_ => 0);
    var cursor := new nat[|starts| - 1](p requires 0 <= p < |starts| - 1 => starts[p]);
    InitialWindows(members[..], cursor[..], starts, sizes, partition);
    for i := 0 to |partition|
      invariant Placed(members[..], cursor[..], starts, partition, i)
    {
      PlaceOne(partition, starts, sizes, members, cursor, i);
    }
    WindowsFull(members[..], cursor[..], starts, sizes, partition);
  }

  lemma InitialWindows(members: seq<nat>, cursor: seq<nat>, starts: seq<nat>, sizes: seq<nat>, partition: seq<nat>)
    requires LaidOut(starts, sizes) && Partitioned(partition, |sizes|) && Sized(sizes, partition)
    requires |cursor| == |sizes| && |members| == |partition| && forall p: nat :: p < |cursor| ==> cursor[p] == starts[p]
    ensures Placed(members, cursor, starts, partition, 0)
  {
    OffsetsAreTotals(starts, sizes, partition, |sizes|);
    TotalAll(partition, |partition|, |sizes|);
    forall p: nat | p < |cursor| ensures Holds(members, starts[p], Members(partition, 0, p)) {
      OffsetsGrow(starts, sizes, p, |sizes|);
    }
  }

  method PlaceOne(
    partition: seq<nat>, ghost starts: seq<nat>, ghost sizes: seq<nat>, members: array<nat>, cursor: array<nat>, i: nat)
    requires Partitioned(partition, |sizes|) && LaidOut(starts, sizes) && Sized(sizes, partition)
    requires i < |partition| == members.Length && cursor.Length == |sizes| && members != cursor
    requires Placed(members[..], cursor[..], starts, partition, i)
    modifies members, cursor
    ensures Placed(members[..], cursor[..], starts, partition, i + 1)
  {
    hide *;
    PlaceNext(members[..], cursor[..], starts, sizes, partition, i);
    var p := partition[i];
    ghost var a: seq<nat>, c: seq<nat> := members[..], cursor[..];
    members[cursor[p]] := i;
    assert members[..] == a[c[p] := i];
    cursor[p] := cursor[p] + 1;
    assert cursor[..] == c[p := c[p] + 1];
  }

  lemma WindowsFull(members: seq<nat>, cursor: seq<nat>, starts: seq<nat>, sizes: seq<nat>, partition: seq<nat>)
    requires Partitioned(partition, |sizes|) && LaidOut(starts, sizes) && Sized(sizes, partition)
    requires |members| == |partition| && |cursor| == |sizes| && Placed(members, cursor, starts, partition, |partition|)
    ensures forall p: nat :: p < |sizes| ==> Window(starts, members, partition, p)
  {
    OffsetsAreTotals(starts, sizes, partition, |sizes|);
    TotalAll(partition, |partition|, |sizes|);
    hide Members;
    hide Total;
    forall p: nat | p < |sizes| ensures Window(starts, members, partition, p) {
      OffsetsGrow(starts, sizes, p + 1, |sizes|);
      assert Holds(members, starts[p], Members(partition, |partition|, p));
    }
  }
}
