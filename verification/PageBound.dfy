/**
 The resident tables of the page simulator: members grouped by partition, centroids, radii, and the
 triangle-inequality bound that ranks pages. Coordinates are reals; the square root is a parameter.
 */
module PageBound {
  import opened PartitionMembers

  type Vector = seq<real>

  function SquaredDistance(a: Vector, b: Vector): (r: real)
    requires |a| == |b|
    ensures r >= 0.0
  {
    if a == [] then 0.0
    else
      var n := |a| - 1;
      var diff := a[n] - b[n];
      SquareNonNegative(diff);
      SquaredDistance(a[..n], b[..n]) + diff * diff
  }

  lemma SquareNonNegative(x: real)
    ensures x * x >= 0.0
  {
  }

  /** A sum over the coordinates: it splits wherever the vectors are cut, and a single coordinate gives its difference squared. */
  lemma {:induction false} DistanceSplits(a: Vector, b: Vector, c: Vector, d: Vector)
    requires |a| == |c| && |b| == |d|
    ensures SquaredDistance(a + b, c + d) == SquaredDistance(a, c) + SquaredDistance(b, d)
    ensures |b| == 1 ==> SquaredDistance(b, d) == (b[0] - d[0]) * (b[0] - d[0])
    decreases |b|
  {
    if b == [] {
      assert a + b == a && c + d == c;
    } else {
      var n := |b| - 1;
      DistanceSplits(a, b[..n], c, d[..n]);
      assert (a + b)[..|a| + n] == a + b[..n] && (c + d)[..|a| + n] == c + d[..n];
    }
  }

  /** No distance exactly between equal vectors. */
  lemma {:induction false} ZeroDistance(a: Vector, b: Vector)
    requires |a| == |b|
    ensures SquaredDistance(a, b) == 0.0 <==> a == b
  {
    if a == [] {
    } else {
      var n := |a| - 1;
      ZeroDistance(a[..n], b[..n]);
      SquareNonNegative(a[n] - b[n]);
      SquareZero(a[n] - b[n]);
      assert a == a[..n] + [a[n]] && b == b[..n] + [b[n]];
    }
  }

  lemma SquareZero(x: real)
    ensures x * x == 0.0 ==> x == 0.0
  {
    if x * x == 0.0 {
      SquareOrder(x, 0.0);
      SquareOrder(-x, 0.0);
    }
  }

  ghost predicate IsSquareRoot(sqrt: real -> real) {
    forall x :: x >= 0.0 ==> sqrt(x) >= 0.0 && sqrt(x) * sqrt(x) == x
  }

  // ---------- Cauchy-Schwarz and the triangle inequality ----------

  /** Inner product of a - b and b - c. */
  function Cross(a: Vector, b: Vector, c: Vector): real
    requires |a| == |b| == |c|
  {
    if a == [] then 0.0
    else
      var n := |a| - 1;
      Cross(a[..n], b[..n], c[..n]) + (a[n] - b[n]) * (b[n] - c[n])
  }

  lemma SquareOrder(x: real, y: real)
    requires y >= 0.0 && x * x <= y * y
    ensures x <= y
  {
    if x > y {
      DifferenceOfSquares(x, y);
      ProductPositive(x - y, x + y);
    }
  }

  lemma DifferenceOfSquares(x: real, y: real)
    ensures (x - y) * (x + y) == x * x - y * y
  {
  }

  lemma ProductPositive(a: real, b: real)
    requires a > 0.0 && b > 0.0
    ensures a * b > 0.0
  {
  }

  lemma SquareMonotone(x: real, y: real)
    requires 0.0 <= x <= y
    ensures x * x <= y * y
  {
    assert x * x <= x * y <= y * y;
  }

  /** (s + uv)^2 <= (p + u^2)(q + v^2) when s^2 <= pq. */
  lemma CauchyStep(s: real, p: real, q: real, u: real, v: real)
    requires p >= 0.0 && q >= 0.0 && s * s <= p * q
    ensures (s + u * v) * (s + u * v) <= (p + u * u) * (q + v * v)
  {
    var w := p * (v * v) + q * (u * u);
    var x := 2.0 * s * (u * v);
    SquareNonNegative(u);
    SquareNonNegative(v);
    assert w >= 0.0;
    MeansOrder(s, p, q, u, v);
    SquareOrder(x, w);
    assert (s + u * v) * (s + u * v) == s * s + x + (u * v) * (u * v);
    assert (p + u * u) * (q + v * v) == p * q + w + (u * v) * (u * v);
  }

  lemma MeansOrder(s: real, p: real, q: real, u: real, v: real)
    requires p >= 0.0 && q >= 0.0 && s * s <= p * q
    ensures
      var w, x := p * (v * v) + q * (u * u), 2.0 * s * (u * v);
      x * x <= w * w
  {
    var a, b := p * (v * v), q * (u * u);
    var m := (u * v) * (u * v);
    SquareNonNegative(u * v);
    SquareNonNegative(a - b);
    assert a * b == (p * q) * m;
    assert (s * s) * m <= (p * q) * m;
    assert (2.0 * s * (u * v)) * (2.0 * s * (u * v)) == 4.0 * ((s * s) * m);
    assert (a + b) * (a + b) == (a - b) * (a - b) + 4.0 * (a * b);
  }

  lemma LastCoordinate(a: Vector, b: Vector)
    requires |a| == |b| > 0
    ensures
      var n := |a| - 1;
      SquaredDistance(a, b) == SquaredDistance(a[..n], b[..n]) + (a[n] - b[n]) * (a[n] - b[n])
  {}

  lemma LastCross(a: Vector, b: Vector, c: Vector)
    requires |a| == |b| == |c| > 0
    ensures
      var n := |a| - 1;
      Cross(a, b, c) == Cross(a[..n], b[..n], c[..n]) + (a[n] - b[n]) * (b[n] - c[n])
  {}

  predicate SquareAtMost(s: real, p: real, q: real) {
    s * s <= p * q
  }

  lemma CauchyEmpty(a: Vector, b: Vector, c: Vector)
    requires |a| == |b| == |c| == 0
    ensures SquareAtMost(Cross(a, b, c), SquaredDistance(a, b), SquaredDistance(b, c))
  {}

  lemma {:induction false} CauchySchwarz(a: Vector, b: Vector, c: Vector)
    requires |a| == |b| == |c|
    ensures SquareAtMost(Cross(a, b, c), SquaredDistance(a, b), SquaredDistance(b, c))
  {
    hide *;
    if a == [] {
      CauchyEmpty(a, b, c);
      return;
    }
    LastCoordinate(a, b);
    LastCoordinate(b, c);
    LastCross(a, b, c);
    var n := |a| - 1;
    CauchySchwarz(a[..n], b[..n], c[..n]);
    var s, p, q := Cross(a[..n], b[..n], c[..n]), SquaredDistance(a[..n], b[..n]), SquaredDistance(b[..n], c[..n]);
    CauchyNext(s, p, q, a[n] - b[n], b[n] - c[n], Cross(a, b, c), SquaredDistance(a, b), SquaredDistance(b, c));
  }

  lemma CauchyNext(s: real, p: real, q: real, u: real, v: real, s': real, p': real, q': real)
    requires p >= 0.0 && q >= 0.0 && SquareAtMost(s, p, q)
    requires s' == s + u * v && p' == p + u * u && q' == q + v * v
    ensures SquareAtMost(s', p', q')
  {
    CauchyStep(s, p, q, u, v);
  }

  lemma {:induction false} Expand(a: Vector, b: Vector, c: Vector)
    requires |a| == |b| == |c|
    ensures SquaredDistance(a, c) == SquaredDistance(a, b) + 2.0 * Cross(a, b, c) + SquaredDistance(b, c)
  {
    if a == [] { return; }
    LastCoordinate(a, c);
    LastCoordinate(a, b);
    LastCoordinate(b, c);
    LastCross(a, b, c);
    hide *;
    var n := |a| - 1;
    Expand(a[..n], b[..n], c[..n]);
    ExpandStep(SquaredDistance(a[..n], c[..n]), SquaredDistance(a[..n], b[..n]), Cross(a[..n], b[..n], c[..n]),
      SquaredDistance(b[..n], c[..n]), a[n], b[n], c[n]);
  }

  lemma ExpandStep(d: real, p: real, s: real, q: real, x: real, y: real, z: real)
    requires d == p + 2.0 * s + q
    ensures d + (x - z) * (x - z) == (p + (x - y) * (x - y)) + 2.0 * (s + (x - y) * (y - z)) + (q + (y - z) * (y - z))
  {
    var u, v := x - y, y - z;
    assert x - z == u + v;
    assert (u + v) * (u + v) == u * u + 2.0 * (u * v) + v * v;
  }

  /** Distances between vectors obey the triangle inequality, in every dimension. */
  lemma Triangle(a: Vector, b: Vector, c: Vector, ab: real, bc: real, ac: real)
    requires |a| == |b| == |c| && ab >= 0.0 && bc >= 0.0 && ac >= 0.0
    requires ab * ab == SquaredDistance(a, b) && bc * bc == SquaredDistance(b, c) && ac * ac == SquaredDistance(a, c)
    ensures ac <= ab + bc
  {
    hide Cross;
    hide SquaredDistance;
    CauchySchwarz(a, b, c);
    Expand(a, b, c);
    TriangleArithmetic(ab, bc, ac, Cross(a, b, c));
  }

  lemma TriangleArithmetic(ab: real, bc: real, ac: real, s: real)
    requires ab >= 0.0 && bc >= 0.0 && ac >= 0.0
    requires s * s <= (ab * ab) * (bc * bc) && ac * ac == ab * ab + 2.0 * s + bc * bc
    ensures ac <= ab + bc
  {
    assert (ab * bc) * (ab * bc) == (ab * ab) * (bc * bc);
    SquareOrder(s, ab * bc);
    assert (ab + bc) * (ab + bc) == ab * ab + 2.0 * (ab * bc) + bc * bc;
    SquareOrder(ac, ab + bc);
  }

  // ---------- the bound ----------

  function AtLeastZero(x: real): real { if x < 0.0 then 0.0 else x }

  /** What the 'bound' selector ranks a page by. */
  function Bound(query: Vector, centroid: Vector, radius: real, sqrt: real -> real): (r: real)
    requires |query| == |centroid|
  {
    var lower := AtLeastZero(sqrt(SquaredDistance(query, centroid)) - radius);
    lower * lower
  }

  /** The bound never exceeds the squared distance to a member within the radius. */
  lemma BoundIsLower(query: Vector, centroid: Vector, radius: real, member: Vector, sqrt: real -> real)
    requires |query| == |centroid| == |member| && IsSquareRoot(sqrt)
    requires sqrt(SquaredDistance(member, centroid)) <= radius
    ensures Bound(query, centroid, radius, sqrt) <= SquaredDistance(query, member)
  {
    hide SquaredDistance;
    var qm, mc, qc :=
      sqrt(SquaredDistance(query, member)), sqrt(SquaredDistance(member, centroid)), sqrt(SquaredDistance(query, centroid));
    Triangle(query, member, centroid, qm, mc, qc);
    SquareMonotone(AtLeastZero(qc - radius), qm);
  }

  /** The vector at share t of the way from c to q. */
  function Toward(c: Vector, q: Vector, t: real): (m: Vector)
    requires |c| == |q|
    ensures |m| == |c| && forall d :: 0 <= d < |m| ==> m[d] == Mixed(c[d], q[d], t)
  {
    seq(|c|, d requires 0 <= d < |c| => Mixed(c[d], q[d], t))
  }

  function Mixed(c: real, q: real, t: real): real { c + t * (q - c) }

  function SquareTimes(t: real, p: real): real { t * t * p }

  /** It is t of the distance from c, and 1 - t of it from q. */
  lemma {:induction false} TowardDistances(c: Vector, q: Vector, t: real)
    requires |c| == |q|
    ensures SquaredDistance(Toward(c, q, t), c) == SquareTimes(t, SquaredDistance(q, c))
    ensures SquaredDistance(q, Toward(c, q, t)) == SquareTimes(1.0 - t, SquaredDistance(q, c))
  {
    hide SquareTimes, SquaredDistance, Mixed;
    if c == [] {
      NoDistance(t, c, q, Toward(c, q, t));
    } else {
      var n, m := |c| - 1, Toward(c, q, t);
      TowardDistances(c[..n], q[..n], t);
      assert m[..n] == Toward(c[..n], q[..n], t);
      hide *;
      LastCoordinate(m, c);
      LastCoordinate(q, m);
      LastCoordinate(q, c);
      TowardNext(SquaredDistance(q[..n], c[..n]), t, q[n], c[n], m[n],
        SquaredDistance(m, c), SquaredDistance(q, m), SquaredDistance(q, c));
    }
  }

  lemma NoDistance(t: real, c: Vector, q: Vector, m: Vector)
    requires c == q == m == []
    ensures SquaredDistance(m, c) == SquareTimes(t, SquaredDistance(q, c))
    ensures SquaredDistance(q, m) == SquareTimes(1.0 - t, SquaredDistance(q, c))
  {}

  lemma TowardNext(p: real, t: real, q: real, c: real, m: real, mc: real, qm: real, qc: real)
    requires m == Mixed(c, q, t) && qc == p + (q - c) * (q - c)
    requires mc == SquareTimes(t, p) + (m - c) * (m - c)
    requires qm == SquareTimes(1.0 - t, p) + (q - m) * (q - m)
    ensures mc == SquareTimes(t, qc) && qm == SquareTimes(1.0 - t, qc)
  {
    MixedParts(c, q, t);
    SquareStep(p, t, q - c, m - c);
    SquareStep(p, 1.0 - t, q - c, q - m);
    hide *;
  }

  lemma MixedParts(c: real, q: real, t: real)
    ensures Mixed(c, q, t) - c == t * (q - c) && q - Mixed(c, q, t) == (1.0 - t) * (q - c)
  {}

  lemma SquareStep(p: real, t: real, u: real, x: real)
    requires x == t * u
    ensures SquareTimes(t, p) + x * x == SquareTimes(t, p + u * u)
  {
    assert x * x == t * t * (u * u);
  }

  lemma RootIs(sqrt: real -> real, x: real)
    requires IsSquareRoot(sqrt) && x >= 0.0
    ensures sqrt(x * x) == x
  {
    SquareNonNegative(x);
    SquareOrder(sqrt(x * x), x);
    SquareOrder(x, sqrt(x * x));
  }

  lemma ShareOfSquare(d: real, r: real, t: real, s: real)
    requires d > 0.0 && t == r / d && s == d * d
    ensures SquareTimes(t, s) == r * r && SquareTimes(1.0 - t, s) == (d - r) * (d - r)
  {
    assert t * d == r;
    assert t * t * (d * d) == (t * d) * (t * d);
    assert (1.0 - t) * d == d - r;
    assert (1.0 - t) * (1.0 - t) * (d * d) == ((1.0 - t) * d) * ((1.0 - t) * d);
  }

  /**
   And no greater bound will do: some vector within the radius is exactly that far from the query. It is the query when
   the query is within the radius, and otherwise the vector at the radius on the way to it.
   */
  lemma BoundIsTight(query: Vector, centroid: Vector, radius: real, sqrt: real -> real) returns (m: Vector)
    requires |query| == |centroid| && IsSquareRoot(sqrt) && radius >= 0.0
    ensures |m| == |query| && sqrt(SquaredDistance(m, centroid)) <= radius
    ensures SquaredDistance(query, m) == Bound(query, centroid, radius, sqrt)
  {
    hide SquaredDistance, Toward, SquareTimes;
    var s := SquaredDistance(query, centroid);
    var d := sqrt(s);
    if d <= radius {
      m := query;
      ZeroDistance(query, m);
    } else {
      var t := radius / d;
      m := Toward(centroid, query, t);
      TowardDistances(centroid, query, t);
      ShareOfSquare(d, radius, t, s);
      assert SquaredDistance(m, centroid) == radius * radius;
      RootIs(sqrt, radius);
    }
  }

  /** So the bound is the greatest number not above the squared distance to any vector within the radius. */
  lemma BoundIsGreatest(query: Vector, centroid: Vector, radius: real, x: real, sqrt: real -> real)
    requires |query| == |centroid| && IsSquareRoot(sqrt) && radius >= 0.0
    ensures x <= Bound(query, centroid, radius, sqrt)
      <==> forall m: Vector :: |m| == |query| && sqrt(SquaredDistance(m, centroid)) <= radius ==> x <= SquaredDistance(query, m)
  {
    var tight := BoundIsTight(query, centroid, radius, sqrt);
    hide SquaredDistance, Bound;
    forall m: Vector | |m| == |query| && sqrt(SquaredDistance(m, centroid)) <= radius
      ensures Bound(query, centroid, radius, sqrt) <= SquaredDistance(query, m)
    {
      BoundIsLower(query, centroid, radius, m, sqrt);
    }
  }

  // ---------- the tables ----------

  /** Each partition's radius is the largest distance of a member from its centroid, zero when it has none. */
  ghost predicate AreRadii(
    radii: seq<real>, vectors: seq<Vector>, partition: seq<nat>, centroids: seq<Vector>, n: nat, sqrt: real -> real)
  {
    && |partition| == |vectors| && n <= |vectors| && |radii| == |centroids| && Partitioned(partition, |centroids|)
    && (forall i :: 0 <= i < n ==> |vectors[i]| == |centroids[partition[i]]|)
    && (forall i :: 0 <= i < n ==> sqrt(SquaredDistance(vectors[i], centroids[partition[i]])) <= radii[partition[i]])
    && forall p :: 0 <= p < |radii| ==>
         || radii[p] == 0.0
         || exists i :: 0 <= i < n && partition[i] == p && radii[p] == sqrt(SquaredDistance(vectors[i], centroids[p]))
  }

  lemma RadiusNext(
    radii: seq<real>, vectors: seq<Vector>, partition: seq<nat>, centroids: seq<Vector>, i: nat, sqrt: real -> real)
    requires AreRadii(radii, vectors, partition, centroids, i, sqrt) && i < |vectors|
    requires partition[i] < |radii| && |vectors[i]| == |centroids[partition[i]]|
    ensures
      var p := partition[i];
      var dist := sqrt(SquaredDistance(vectors[i], centroids[p]));
      AreRadii(if dist > radii[p] then radii[p := dist] else radii, vectors, partition, centroids, i + 1, sqrt)
  {
    var p := partition[i];
    var dist := sqrt(SquaredDistance(vectors[i], centroids[p]));
    var next := if dist > radii[p] then radii[p := dist] else radii;
    forall q | 0 <= q < |next| && next[q] != 0.0
      ensures exists j :: 0 <= j < i + 1 && partition[j] == q && next[q] == sqrt(SquaredDistance(vectors[j], centroids[q]))
    {
      if q != p || next == radii { assert next[q] == radii[q]; }
    }
  }

  method ComputeRadii(vectors: seq<Vector>, partition: seq<nat>, centroids: seq<Vector>, sqrt: real -> real)
    returns (radii: array<real>)
    requires |partition| == |vectors| && Partitioned(partition, |centroids|)
    requires forall i :: 0 <= i < |vectors| ==> |vectors[i]| == |centroids[partition[i]]|
    ensures AreRadii(radii[..], vectors, partition, centroids, |vectors|, sqrt)
  {
    radii := new real[|centroids|](_ => 0.0);
    assert AreRadii(radii[..], vectors, partition, centroids, 0, sqrt);
    hide AreRadii, SquaredDistance;
    for i := 0 to |vectors|
      invariant AreRadii(radii[..], vectors, partition, centroids, i, sqrt)
    {
      var p := partition[i];
      var dist := sqrt(SquaredDistance(vectors[i], centroids[p]));
      RadiusNext(radii[..], vectors, partition, centroids, i, sqrt);
      ghost var r := radii[..];
      if dist > radii[p] { radii[p] := dist; }
      assert radii[..] == if dist > r[p] then r[p := dist] else r;
    }
  }

  /** With the computed radii every page's bound is below the squared distance to each of its members. */
  lemma PageBoundSound(
    query: Vector, vectors: seq<Vector>, partition: seq<nat>, centroids: seq<Vector>, radii: seq<real>, i: nat, sqrt: real -> real)
    requires IsSquareRoot(sqrt) && i < |vectors| && AreRadii(radii, vectors, partition, centroids, |vectors|, sqrt)
    requires |query| == |vectors[i]|
    ensures Bound(query, centroids[partition[i]], radii[partition[i]], sqrt) <= SquaredDistance(query, vectors[i])
  {
    BoundIsLower(query, centroids[partition[i]], radii[partition[i]], vectors[i], sqrt);
  }
}
