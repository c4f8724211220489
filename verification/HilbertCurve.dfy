/** The Hilbert index of the layout tool: a bijection from the grid, along which neighbours in order are neighbours in the plane. */
module HilbertCurve {

  function Pow2(n: nat): (r: nat)
    ensures r >= 1
  {
    if n == 0 then 1 else 2 * Pow2(n - 1)
  }

  /** Cells of the grid with n bits a side. */
  function Cells(n: nat): (r: nat)
    ensures r >= 1
  {
    if n == 0 then 1 else 4 * Cells(n - 1)
  }

  lemma {:induction false} CellsSquare(n: nat)
    ensures Cells(n) == Pow2(n) * Pow2(n)
  {
    if n == 0 {
    } else {
      CellsSquare(n - 1);
      var s := Pow2(n - 1);
      assert (2 * s) * (2 * s) == 4 * (s * s);
    }
  }

  /** `(3 * rx) ^ ry` for bits rx, ry: quadrants in curve order. */
  function Quadrant(rx: bool, ry: bool): nat {
    (((if rx then 3 else 0) as bv2) ^ ((if ry then 1 else 0) as bv2)) as nat
  }

  lemma QuadrantTable()
    ensures Quadrant(false, false) == 0 && Quadrant(false, true) == 1
    ensures Quadrant(true, true) == 2 && Quadrant(true, false) == 3
  {
  }

  /** `k` quarters of the index range. */
  function Quarters(k: nat, q: nat): (r: nat)
    ensures r == k * q
  {
    if k == 0 then 0 else if k == 1 then q else if k == 2 then 2 * q else if k == 3 then 3 * q else k * q
  }

  ghost predicate InGrid(n: nat, x: int, y: int) {
    0 <= x < Pow2(n) && 0 <= y < Pow2(n)
  }

  /** Coordinates handed to the next level: low bits, mirrored and swapped in the lower quadrants. */
  function Turned(s: nat, rx: bool, ry: bool, x: int, y: int): (int, int) {
    if ry then (x, y) else if rx then (s - 1 - y, s - 1 - x) else (y, x)
  }

  ghost function Index(n: nat, x: int, y: int): (d: nat)
    requires InGrid(n, x, y)
    ensures d < Cells(n)
  {
    if n == 0 then 0
    else
      var s := Pow2(n - 1);
      var rx, ry := x >= s, y >= s;
      var (x', y') := Turned(s, rx, ry, if rx then x - s else x, if ry then y - s else y);
      QuadrantTable();
      Quarters(Quadrant(rx, ry), Cells(n - 1)) + Index(n - 1, x', y')
  }

  /** The cell with a given index, computed from the top digit down. */
  ghost function Cell(n: nat, d: nat): (c: (int, int))
    requires d < Cells(n)
    ensures InGrid(n, c.0, c.1)
  {
    if n == 0 then (0, 0)
    else
      var s, q := Pow2(n - 1), Cells(n - 1);
      if d < q then var c := Cell(n - 1, d); (c.1, c.0)
      else if d < 2 * q then var c := Cell(n - 1, d - q); (c.0, s + c.1)
      else if d < 3 * q then var c := Cell(n - 1, d - 2 * q); (s + c.0, s + c.1)
      else var c := Cell(n - 1, d - 3 * q); (2 * s - 1 - c.1, s - 1 - c.0)
  }

  lemma IndexUnfolds(n: nat, x: int, y: int)
    requires n > 0 && InGrid(n, x, y)
    ensures
      var s, q := Pow2(n - 1), Cells(n - 1);
      var rx, ry := x >= s, y >= s;
      var c := Turned(s, rx, ry, if rx then x - s else x, if ry then y - s else y);
      && InGrid(n - 1, c.0, c.1)
      && Index(n, x, y) == (if ry then (if rx then 2 * q else q) else (if rx then 3 * q else 0)) + Index(n - 1, c.0, c.1)
  {
    QuadrantTable();
  }

  lemma {:induction false} CellOfIndex(n: nat, x: int, y: int)
    requires InGrid(n, x, y)
    ensures Cell(n, Index(n, x, y)) == (x, y)
  {
    if n == 0 {
    } else {
      hide Index;
      IndexUnfolds(n, x, y);
      var s := Pow2(n - 1);
      var rx, ry := x >= s, y >= s;
      var c := Turned(s, rx, ry, if rx then x - s else x, if ry then y - s else y);
      CellOfIndex(n - 1, c.0, c.1);
    }
  }

  lemma {:induction false} IndexOfCell(n: nat, d: nat)
    requires d < Cells(n)
    ensures Index(n, Cell(n, d).0, Cell(n, d).1) == d
  {
    if n == 0 {
    } else {
      var q := Cells(n - 1);
      QuadrantTable();
      IndexOfCell(n - 1, if d < q then d else if d < 2 * q then d - q else if d < 3 * q then d - 2 * q else d - 3 * q);
    }
  }

  /** The index is a bijection between the grid and 0 .. 4^n - 1. */
  lemma IndexIsBijection(n: nat)
    ensures forall x, y :: InGrid(n, x, y) ==> Index(n, x, y) < Cells(n) && Cell(n, Index(n, x, y)) == (x, y)
    ensures forall d: nat :: d < Cells(n) ==>
      InGrid(n, Cell(n, d).0, Cell(n, d).1) && Index(n, Cell(n, d).0, Cell(n, d).1) == d
    ensures Cells(n) == Pow2(n) * Pow2(n)
  {
    forall x, y | InGrid(n, x, y) ensures Cell(n, Index(n, x, y)) == (x, y) { CellOfIndex(n, x, y); }
    forall d: nat | d < Cells(n) ensures Index(n, Cell(n, d).0, Cell(n, d).1) == d { IndexOfCell(n, d); }
    CellsSquare(n);
  }

  ghost predicate EdgeAdjacent(a: (int, int), b: (int, int)) {
    || (a.0 == b.0 && (a.1 == b.1 + 1 || b.1 == a.1 + 1))
    || (a.1 == b.1 && (a.0 == b.0 + 1 || b.0 == a.0 + 1))
  }

  /** The curve starts at the origin and ends at the far end of the bottom edge. */
  lemma {:induction false} CurveEnds(n: nat)
    ensures Cell(n, 0) == (0, 0) && Cell(n, Cells(n) - 1) == (Pow2(n) - 1, 0)
  {
    if n == 0 {
    } else {
      CurveEnds(n - 1);
    }
  }

  lemma QuarterStep(n: nat, d: nat, base: nat)
    requires n > 0 && d + 1 < Cells(n) && d >= base
    requires base == 0 || base == Cells(n - 1) || base == 2 * Cells(n - 1) || base == 3 * Cells(n - 1)
    requires d + 1 < base + Cells(n - 1) && EdgeAdjacent(Cell(n - 1, d - base), Cell(n - 1, d + 1 - base))
    ensures EdgeAdjacent(Cell(n, d), Cell(n, d + 1))
  {
  }

  lemma QuarterEnd(n: nat, d: nat)
    requires n > 0 && d + 1 < Cells(n)
    requires d + 1 == Cells(n - 1) || d + 1 == 2 * Cells(n - 1) || d + 1 == 3 * Cells(n - 1)
    ensures EdgeAdjacent(Cell(n, d), Cell(n, d + 1))
  {
    CurveEnds(n - 1);
  }

  /** Consecutive indices are cells that share an edge. */
  lemma {:induction false} ConsecutiveAdjacent(n: nat, d: nat)
    requires d + 1 < Cells(n)
    ensures EdgeAdjacent(Cell(n, d), Cell(n, d + 1))
  {
    if n == 0 {
    } else {
      var q := Cells(n - 1);
      var base := if d < q then 0 else if d < 2 * q then q else if d < 3 * q then 2 * q else 3 * q;
      if d + 1 < base + q {
        ConsecutiveAdjacent(n - 1, d - base);
        QuarterStep(n, d, base);
      } else {
        QuarterEnd(n, d);
      }
    }
  }

  // ---------- the loop ----------

  /** `(x & s) > 0` for s = 2^k, in two's complement: the bit of weight s, for negative x as well. */
  predicate Bit(x: int, s: nat)
    requires s > 0
  {
    x / s % 2 == 1
  }

  lemma AtLeast(a: int, m: nat)
    requires a >= 1
    ensures a * m >= m
  {
  }

  lemma Halves(h: int, b: int, s: nat)
    ensures (2 * h + b) * s == h * (2 * s) + b * s
  {
  }

  lemma Negated(q: int, s: nat)
    ensures (-q) * s == -(q * s)
  {
  }

  lemma ModUnique(x: int, m: nat, q: int, r: int)
    requires m > 0 && x == q * m + r && 0 <= r < m
    ensures x % m == r && x / m == q
  {
    var q', r' := x / m, x % m;
    assert x == m * q' + r';
    assert (q - q') * m == r' - r;
    if q > q' { AtLeast(q - q', m); }
    if q < q' {
      AtLeast(q' - q, m);
      Negated(q - q', m);
    }
  }

  /** One level of the loop: bit s splits the low bits, and mirroring complements the bits below it. */
  lemma LowBits(x: int, s: nat)
    requires s > 0
    ensures 0 <= x % (2 * s) < 2 * s && 0 <= x % s < s
    ensures Bit(x, s) <==> x % (2 * s) >= s
    ensures x % s == if Bit(x, s) then x % (2 * s) - s else x % (2 * s)
  {
    var q, r := x / s, x % s;
    var h, b := q / 2, q % 2;
    assert x == q * s + r && q == 2 * h + b;
    Halves(h, b, s);
    var low := if b == 1 then s + r else r;
    assert b * s + r == low;
    ModUnique(x, 2 * s, h, low);
    assert x % (2 * s) == low && x % s == r;
  }

  lemma Mirrored(x: int, s: nat)
    requires s > 0
    ensures (s - 1 - x) % s == s - 1 - x % s
  {
    var q, r := x / s, x % s;
    assert x == q * s + r;
    Negated(q, s);
    ModUnique(s - 1 - x, s, -q, s - 1 - r);
  }

  lemma LevelStep(m: nat, x: int, y: int)
    requires m > 0
    ensures
      var s := Pow2(m - 1);
      var rx, ry := Bit(x, s), Bit(y, s);
      && InGrid(m, x % Pow2(m), y % Pow2(m))
      && InGrid(m - 1, Turned(s, rx, ry, x % s, y % s).0, Turned(s, rx, ry, x % s, y % s).1)
      && Index(m, x % Pow2(m), y % Pow2(m))
         == s * s * Quadrant(rx, ry) + Index(m - 1, Turned(s, rx, ry, x % s, y % s).0, Turned(s, rx, ry, x % s, y % s).1)
  {
    var s := Pow2(m - 1);
    LowBits(x, s);
    LowBits(y, s);
    hide Bit;
    CellsSquare(m - 1);
    assert s * s * Quadrant(Bit(x, s), Bit(y, s)) == Quarters(Quadrant(Bit(x, s), Bit(y, s)), Cells(m - 1));
  }

  /** `s * s * ((3 * rx) ^ ry)`: indices skipped before the quadrant. */
  function QuadrantOffset(s: int, rx: bool, ry: bool): int {
    s * s * Quadrant(rx, ry)
  }

  /** Index of the low m bits of raw, possibly negative coordinates. */
  ghost function LowIndex(m: nat, x: int, y: int): nat {
    if InGrid(m, x % Pow2(m), y % Pow2(m)) then Index(m, x % Pow2(m), y % Pow2(m)) else 0
  }

  /** The step on raw coordinates. */
  lemma RawStep(m: nat, x: int, y: int)
    requires m > 0
    ensures
      var s := Pow2(m - 1);
      var rx, ry := Bit(x, s), Bit(y, s);
      var c := Turned(s, rx, ry, x, y);
      LowIndex(m, x, y) == QuadrantOffset(s, rx, ry) + LowIndex(m - 1, c.0, c.1)
  {
    hide Index;
    hide Quadrant;
    hide Bit;
    var s := Pow2(m - 1);
    LevelStep(m, x, y);
    Mirrored(x, s);
    Mirrored(y, s);
  }

  lemma WholeIndex(n: nat, x: int, y: int)
    requires InGrid(n, x, y)
    ensures LowIndex(n, x, y) == Index(n, x, y)
  {
    hide Index;
    ModUnique(x, Pow2(n), 0, x);
    ModUnique(y, Pow2(n), 0, y);
  }

  /** `hilbert2dIndex`: x and y go negative, but only their low bits are ever read. */
  method Hilbert2dIndex(x0: int, y0: int, bits: nat) returns (d: int)
    requires 1 <= bits <= 16 && InGrid(bits, x0, y0)
    ensures d == Index(bits, x0, y0)
  {
    WholeIndex(bits, x0, y0);
    hide Index;
    hide LowIndex;
    hide Bit;
    hide QuadrantOffset;
    hide Pow2;
    var x, y := x0, y0;
    d := 0;
    var s := Pow2(bits - 1);
    ghost var m: nat := bits;
    while s > 0
      invariant s == if m == 0 then 0 else Pow2(m - 1)
      invariant d + LowIndex(m, x, y) == Index(bits, x0, y0)
      decreases m
    {
      RawStep(m, x, y);
      HalfPow(m - 1);
      var rx, ry := Bit(x, s), Bit(y, s);
      d := d + QuadrantOffset(s, rx, ry);
      if !ry {
        if rx {
          x := s - 1 - x;
          y := s - 1 - y;
        }
        var t := x;
        x := y;
        y := t;
      }
      s := s / 2;
      m := m - 1;
    }
    NoBitsLeft(x, y);
  }

  lemma NoBitsLeft(x: int, y: int)
    ensures LowIndex(0, x, y) == 0
  {
  }

  lemma HalfPow(n: nat)
    ensures Pow2(n) / 2 == if n == 0 then 0 else Pow2(n - 1)
  {
  }
}
