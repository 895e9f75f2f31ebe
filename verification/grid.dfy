/** The grid state of the Game component: a flat, row-major array of
    `n * n` cells whose values are 0 (dead) or 1 (alive). */
module Grid {

  /** Every cell is dead or alive. */
  predicate Binary(cells: seq<int>) {
    forall i :: 0 <= i < |cells| ==> cells[i] == 0 || cells[i] == 1
  }

  /** A grid of `size` dead cells, as `Array(size).fill(0)` builds it. */
  function Dead(size: nat): (r: seq<int>)
    ensures |r| == size
    ensures Binary(r)
    ensures forall i :: 0 <= i < size ==> r[i] == 0
  {
    seq(size, _ => 0)
  }

  /** Sum of a sequence, folded from the left like `reduce((a, b) => a + b)`. */
  function Sum(xs: seq<int>): int
  {
    if |xs| == 0 then 0 else Sum(xs[..|xs| - 1]) + xs[|xs| - 1]
  }

  /** A sum of 0/1 values lies between 0 and the number of terms. */
  lemma {:induction false} SumOfBinaryBounded(xs: seq<int>)
    requires Binary(xs)
    ensures 0 <= Sum(xs) <= |xs|
  {
    if |xs| > 0 {
      SumOfBinaryBounded(xs[..|xs| - 1]);
    }
  }

  /** A sum of zeros is zero. */
  lemma {:induction false} SumOfZeros(xs: seq<int>)
    requires forall i :: 0 <= i < |xs| ==> xs[i] == 0
    ensures Sum(xs) == 0
  {
    if |xs| > 0 {
      SumOfZeros(xs[..|xs| - 1]);
    }
  }

  /** A sum of ones counts its terms. */
  lemma {:induction false} SumOfOnes(xs: seq<int>)
    requires forall i :: 0 <= i < |xs| ==> xs[i] == 1
    ensures Sum(xs) == |xs|
  {
    if |xs| > 0 {
      SumOfOnes(xs[..|xs| - 1]);
    }
  }

  /** An eight-term sum spelled out term by term. */
  lemma SumOfEight(xs: seq<int>)
    requires |xs| == 8
    ensures Sum(xs) == xs[0] + xs[1] + xs[2] + xs[3] + xs[4] + xs[5] + xs[6] + xs[7]
  {
    assert xs[..1][..0] == xs[..0];
    assert Sum(xs[..1]) == Sum(xs[..0]) + xs[0];
    assert xs[..2][..1] == xs[..1];
    assert Sum(xs[..2]) == Sum(xs[..1]) + xs[1];
    assert xs[..3][..2] == xs[..2];
    assert Sum(xs[..3]) == Sum(xs[..2]) + xs[2];
    assert xs[..4][..3] == xs[..3];
    assert Sum(xs[..4]) == Sum(xs[..3]) + xs[3];
    assert xs[..5][..4] == xs[..4];
    assert Sum(xs[..5]) == Sum(xs[..4]) + xs[4];
    assert xs[..6][..5] == xs[..5];
    assert Sum(xs[..6]) == Sum(xs[..5]) + xs[5];
    assert xs[..7][..6] == xs[..6];
    assert Sum(xs[..7]) == Sum(xs[..6]) + xs[6];
    assert xs[..8][..7] == xs[..7];
    assert Sum(xs[..8]) == Sum(xs[..7]) + xs[7];
    assert xs[..8] == xs;
  }

  /** `setCell(i, x)`: a copy of the grid with cell `i` replaced by `x`.
      `setCell` does no bounds check, so callers must pass a valid index. */
  function SetCell(cells: seq<int>, i: int, x: int): (r: seq<int>)
    requires 0 <= i < |cells|
    ensures |r| == |cells|
    ensures r[i] == x
    ensures forall j :: 0 <= j < |cells| && j != i ==> r[j] == cells[j]
  {
    cells[i := x]
  }

  /** Writing 0 or 1 keeps every cell dead or alive. */
  lemma SetCellKeepsBinary(cells: seq<int>, i: int, x: int)
    requires 0 <= i < |cells|
    requires Binary(cells)
    requires x == 0 || x == 1
    ensures Binary(SetCell(cells, i, x))
  {
  }

  /** A later write to the same cell overrides an earlier one, and writing
      the value a cell already holds changes nothing. */
  lemma SetCellOverwrite(cells: seq<int>, i: int, x: int, y: int)
    requires 0 <= i < |cells|
    ensures SetCell(SetCell(cells, i, x), i, y) == SetCell(cells, i, y)
    ensures SetCell(cells, i, cells[i]) == cells
  {
  }
}
