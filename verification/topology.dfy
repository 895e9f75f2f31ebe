/** The neighbourhood used by `updateCells`: eight linear offsets taken
    modulo `n * n` over the flat row-major array. Vertical steps wrap
    exactly, but a horizontal step off the end of a row spills into the
    adjacent row, so this is not the row/column torus. */
module Topology {

  /** Row and column of a flat index, and the flat index of a coordinate. */
  function Row(n: nat, i: int): int
    requires n >= 1
  {
    i / n
  }

  function Col(n: nat, i: int): int
    requires n >= 1
  {
    i % n
  }

  function At(n: nat, r: int, c: int): int {
    r * n + c
  }

  /** The offsets array of `updateCells`: the four negative offsets already
      carry `+ n2` so that the index stays non-negative before `% n2`. */
  function Offsets(n: nat): (d: seq<int>)
    ensures |d| == 8
    ensures forall k :: 0 <= k < 8 ==>
              d[k] == DRow(k) * n + DCol(k) + (if k < 4 then n * n else 0)
  {
    var n2: int, m: int := n * n, n;
    [-m - 1 + n2, -m + n2, -m + 1 + n2, -1 + n2, 1, m - 1, m, m + 1]
  }

  /** Row and column displacement of each of the eight offsets, in the
      same order as `Offsets`. */
  function DRow(k: int): int
    requires 0 <= k < 8
  {
    [-1, -1, -1, 0, 0, 1, 1, 1][k]
  }

  function DCol(k: int): int
    requires 0 <= k < 8
  {
    [-1, 0, 1, -1, 1, -1, 0, 1][k]
  }

  /** Index of the `k`-th neighbour of cell `i`, as `(i + val) % n2`. */
  function NeighborIndex(n: nat, i: int, k: int): (j: int)
    requires 0 <= i < n * n
    requires 0 <= k < 8
    ensures 0 <= j < n * n
  {
    (i + Offsets(n)[k]) % (n * n)
  }

  /** The eight neighbour indices of cell `i`, in offset order: each is
      `i` plus a signed row-and-column step, modulo `n * n`. */
  function Neighbors(n: nat, i: int): (ns: seq<int>)
    requires 0 <= i < n * n
    ensures |ns| == 8
    ensures forall k :: 0 <= k < 8 ==> ns[k] == (i + DRow(k) * n + DCol(k)) % (n * n)
  {
    AllSignedOffsets(n, i);
    seq(8, k requires 0 <= k < 8 => NeighborIndex(n, i, k))
  }

  // ---- arithmetic helpers ---------------------------------------------

  lemma ModUnique(x: int, m: int, q: int, r: int)
    requires m >= 1
    requires x == q * m + r
    requires 0 <= r < m
    ensures x % m == r
    ensures x / m == q
  {
    var q', r' := x / m, x % m;
    assert x == q' * m + r';
    assert (q - q') * m == r' - r;
    if q > q' {
      MulAtLeast(q - q', m);
    } else if q < q' {
      MulAtLeast(q' - q, m);
    }
  }

  lemma MulAtLeast(d: int, m: int)
    requires d >= 1
    requires m >= 0
    ensures d * m >= m
  {
  }

  /** Adding the period before `%` does not change the result. */
  lemma ModAddPeriod(x: int, m: int)
    requires m >= 1
    ensures (x + m) % m == x % m
  {
    ModUnique(x + m, m, x / m + 1, x % m);
  }

  /** A row-major index taken modulo `n * n` wraps the row modulo `n`. */
  lemma RowMajorMod(n: nat, row: int, c: int)
    requires n >= 1
    requires 0 <= c < n
    ensures (row * n + c) % (n * n) == (row % n) * n + c
  {
    var t, r := row / n, row % n;
    assert row == t * n + r;
    RowMajorSplit(n, t, r, c);
    RowMajorBelow(n, r, c);
    ModUnique(row * n + c, n * n, t, r * n + c);
  }

  lemma DivMod(x: int, m: int)
    requires m >= 1
    ensures x == (x / m) * m + x % m
    ensures 0 <= x % m < m
  {
  }

  lemma Distrib(a: int, b: int, c: int, n: int)
    ensures (a + b + c) * n == a * n + b * n + c * n
  {
  }

  /** A cell of an `n * n` grid has row and column in `[0, n)`. */
  lemma CellCoordinatesInRange(n: nat, i: int)
    requires 0 <= i < n * n
    ensures n >= 1
    ensures 0 <= Row(n, i) < n && 0 <= Col(n, i) < n
  {
    if n == 0 {
      assert false;
    }
    DivMod(i, n);
    if Row(n, i) >= n {
      MulMono(Row(n, i), n, n);
      assert false;
    }
  }

  lemma MulMono(a: int, b: int, n: int)
    requires a >= b
    requires n >= 0
    ensures a * n >= b * n
  {
    assert a * n - b * n == (a - b) * n;
  }

  lemma MulCancel(a: int, b: int, n: int)
    requires n >= 1
    requires a * n == b * n
    ensures a == b
  {
    assert (a - b) * n == 0;
    if a > b {
      MulAtLeast(a - b, n);
    } else if a < b {
      MulAtLeast(b - a, n);
    }
  }

  lemma RowMajorSplit(n: int, t: int, r: int, c: int)
    ensures (t * n + r) * n + c == t * (n * n) + (r * n + c)
  {
    assert (t * n + r) * n == (t * n) * n + r * n;
    assert (t * n) * n == t * (n * n);
  }

  lemma RowMajorBelow(n: int, r: int, c: int)
    requires 0 <= r < n
    requires 0 <= c < n
    ensures 0 <= r * n + c < n * n
  {
    assert r * n <= (n - 1) * n;
    assert (n - 1) * n == n * n - n;
  }

  // ---- the topology ---------------------------------------------------

  /** The `k`-th neighbour of `i` is `(i + d) mod n²` for the signed offset
      `d = DRow(k) * n + DCol(k)`: the `+ n2` that `updateCells` adds to the
      negative offsets changes nothing. */
  lemma {:induction false} NeighborIsSignedOffset(n: nat, i: int, k: int)
    requires 0 <= i < n * n
    requires 0 <= k < 8
    ensures NeighborIndex(n, i, k) == (i + DRow(k) * n + DCol(k)) % (n * n)
  {
    if k < 4 {
      ModAddPeriod(i + DRow(k) * n + DCol(k), n * n);
    }
  }

  /** `NeighborIsSignedOffset` for all eight offsets of one cell. */
  lemma AllSignedOffsets(n: nat, i: int)
    requires 0 <= i < n * n
    ensures forall k :: 0 <= k < 8 ==> NeighborIndex(n, i, k) == (i + DRow(k) * n + DCol(k)) % (n * n)
  {
    forall k | 0 <= k < 8
      ensures NeighborIndex(n, i, k) == (i + DRow(k) * n + DCol(k)) % (n * n)
    {
      NeighborIsSignedOffset(n, i, k);
    }
  }

  /** Coordinates of every neighbour: the column wraps modulo `n` and the
      carry out of the column moves the row, which then wraps modulo `n`.
      A true torus would drop the carry. */
  lemma {:induction false} NeighborCoordinates(n: nat, i: int, k: int)
    requires 0 <= i < n * n
    requires 0 <= k < 8
    ensures n >= 1
    ensures NeighborIndex(n, i, k)
         == At(n, (Row(n, i) + DRow(k) + (Col(n, i) + DCol(k)) / n) % n,
               (Col(n, i) + DCol(k)) % n)
  {
    CellCoordinatesInRange(n, i);
    NeighborIsSignedOffset(n, i, k);
    var r, c, dr, dc := Row(n, i), Col(n, i), DRow(k), DCol(k);
    var carry, c' := (c + dc) / n, (c + dc) % n;
    DivMod(i, n);
    DivMod(c + dc, n);
    Distrib(r, dr, carry, n);
    RowMajorMod(n, r + dr + carry, c');
  }

  /** The row/column torus: rows and columns wrap independently. */
  function TorusNeighbor(n: nat, i: int, k: int): (j: int)
    requires n >= 1
    requires 0 <= i < n * n
    requires 0 <= k < 8
  {
    At(n, (Row(n, i) + DRow(k)) % n, (Col(n, i) + DCol(k)) % n)
  }

  /** Away from the first and last column, no step leaves the row, so the
      linear neighbourhood coincides with the torus. */
  lemma AgreesWithTorusInside(n: nat, i: int, k: int)
    requires 0 <= i < n * n
    requires 0 <= k < 8
    requires n >= 1
    requires 0 < Col(n, i) < n - 1
    ensures NeighborIndex(n, i, k) == TorusNeighbor(n, i, k)
  {
    NeighborCoordinates(n, i, k);
    var c := Col(n, i);
    ModUnique(c + DCol(k), n, 0, c + DCol(k));
  }

  /** In the last column the right-hand step lands on the first cell of the
      next row (row wrapping to 0 after the last row), not on the first
      cell of the same row. */
  lemma RightStepSpills(n: nat, i: int)
    requires 0 <= i < n * n
    requires n >= 1
    requires Col(n, i) == n - 1
    ensures NeighborIndex(n, i, 4) == At(n, (Row(n, i) + 1) % n, 0)
    ensures n >= 2 ==> NeighborIndex(n, i, 4) != TorusNeighbor(n, i, 4)
  {
    NeighborCoordinates(n, i, 4);
    CellCoordinatesInRange(n, i);
    ModUnique(n, n, 1, 0);
    var r := Row(n, i);
    if n >= 2 {
      ModUnique(r, n, 0, r);
      assert TorusNeighbor(n, i, 4) == At(n, r, 0);
      var r' := (r + 1) % n;
      if r + 1 < n {
        ModUnique(r + 1, n, 0, r + 1);
      } else {
        ModUnique(r + 1, n, 1, 0);
      }
      assert r' != r;
      if r' * n == r * n {
        MulCancel(r', r, n);
      }
    }
  }

  /** In the first column the left-hand step lands on the last cell of the
      previous row (row wrapping to `n - 1` before row 0). */
  lemma LeftStepSpills(n: nat, i: int)
    requires 0 <= i < n * n
    requires n >= 1
    requires Col(n, i) == 0
    ensures NeighborIndex(n, i, 3) == At(n, (Row(n, i) - 1) % n, n - 1)
  {
    NeighborCoordinates(n, i, 3);
    ModUnique(-1, n, -1, n - 1);
  }

  /** Vertical steps keep the column and wrap the row exactly. */
  lemma VerticalStepsExact(n: nat, i: int)
    requires 0 <= i < n * n
    requires n >= 1
    ensures NeighborIndex(n, i, 1) == At(n, (Row(n, i) - 1) % n, Col(n, i))
    ensures NeighborIndex(n, i, 6) == At(n, (Row(n, i) + 1) % n, Col(n, i))
  {
    var c := Col(n, i);
    NeighborCoordinates(n, i, 1);
    NeighborCoordinates(n, i, 6);
    ModUnique(c, n, 0, c);
  }

  /** The right-hand neighbour of the last cell is cell 0. */
  lemma LastCellWrapsToFirst(n: nat)
    requires n >= 1
    ensures NeighborIndex(n, n * n - 1, 4) == 0
  {
    ModUnique(n * n, n * n, 1, 0);
  }

  /** A cell in row 0 sees, above it, the same column of the last row. */
  lemma TopRowSeesBottomRow(n: nat, c: int)
    requires n >= 1
    requires 0 <= c < n
    ensures NeighborIndex(n, c, 1) == At(n, n - 1, c)
  {
    VerticalStepsExact(n, c);
    ModUnique(c, n, 0, c);
    ModUnique(-1, n, -1, n - 1);
  }

  /** The top-left cell sees the bottom-right one through its left step,
      but from side 2 on its up-left step lands on the last cell of row
      `n - 2` instead. */
  lemma TopLeftCorner(n: nat)
    requires n >= 1
    ensures NeighborIndex(n, 0, 3) == n * n - 1
    ensures n >= 2 ==> NeighborIndex(n, 0, 0) == At(n, n - 2, n - 1) != n * n - 1
  {
    var N := n * n;
    MulMono(n, 1, n);
    ModUnique(N - 1, N, 0, N - 1);
    if n >= 2 {
      MulMono(n, 2, n);
      ModUnique(N - n - 1, N, 0, N - n - 1);
      assert (n - 2) * n == N - 2 * n;
    }
  }

  /** From side 4 on, the top-right cell never counts the bottom-left one,
      which a torus would make its up-right neighbour. */
  lemma TopRightMissesBottomLeft(n: nat)
    requires n >= 4
    ensures At(n, n - 1, 0) !in Neighbors(n, n - 1)
  {
    var N := n * n;
    MulMono(n, 4, n);
    ModUnique(N - 2, N, 0, N - 2);
    ModUnique(N - 1, N, 0, N - 1);
    ModUnique(N, N, 1, 0);
    ModUnique(N + n - 2, N, 1, n - 2);
    ModUnique(n, N, 0, n);
    ModUnique(2 * n - 2, N, 0, 2 * n - 2);
    ModUnique(2 * n - 1, N, 0, 2 * n - 1);
    ModUnique(2 * n, N, 0, 2 * n);
    assert At(n, n - 1, 0) == N - n;
  }
}
