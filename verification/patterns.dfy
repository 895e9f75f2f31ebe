/** Worked patterns under the default rule B3/S23 (`bRules = [3]`,
    `sRules = [2, 3]`) on a 5 x 5 board, where the linear neighbourhood of
    the middle cells coincides with the ordinary one. */
module Patterns {
  import opened Grid
  import opened Engine

  /** A 5 x 5 board whose live cells are exactly `a`, `b` and `c`. */
  function Three(a: int, b: int, c: int): (g: seq<int>)
    ensures |g| == 25 && Binary(g)
  {
    seq(25, i => if i == a || i == b || i == c then 1 else 0)
  }

  /** The blinker lying across the middle row, and standing in the middle
      column. */
  function Horizontal(): seq<int> { Three(11, 12, 13) }

  function Vertical(): seq<int> { Three(7, 12, 17) }

  /** The blinker flips between its two phases, so it has period 2. A
      cell-by-cell update reading already-written cells would not do this. */
  lemma BlinkerOscillates()
    ensures NextGen(Horizontal(), 5, [3], [2, 3]) == Vertical()
    ensures NextGen(Vertical(), 5, [3], [2, 3]) == Horizontal()
    ensures NextGen(NextGen(Horizontal(), 5, [3], [2, 3]), 5, [3], [2, 3]) == Horizontal()
  {
    BlinkerPhase(Horizontal(), Vertical());
    BlinkerPhase(Vertical(), Horizontal());
  }

  /** The neighbour count on a 5 x 5 board with the offsets of side 5
      (19, 20, 21, 24, 1, 4, 5, 6) already evaluated. */
  function Count5(g: seq<int>, i: int): int
    requires |g| == 25
    requires 0 <= i < 25
  {
    g[(i + 19) % 25] + g[(i + 20) % 25] + g[(i + 21) % 25] + g[(i + 24) % 25]
    + g[(i + 1) % 25] + g[(i + 4) % 25] + g[(i + 5) % 25] + g[(i + 6) % 25]
  }

  /** The B3/S23 decision for one cell, on the evaluated count. */
  predicate LivesB3S23(g: seq<int>, i: int)
    requires |g| == 25
    requires 0 <= i < 25
  {
    if g[i] == 1 then Count5(g, i) == 2 || Count5(g, i) == 3 else Count5(g, i) == 3
  }

  /** On any 5 x 5 board, B3/S23 decides each cell by its evaluated count. */
  lemma NextGenOnFive(g: seq<int>, i: int)
    requires |g| == 25
    requires 0 <= i < 25
    ensures NextGen(g, 5, [3], [2, 3])[i] == if LivesB3S23(g, i) then 1 else 0
  {
    AliveCountExpanded(g, 5, i);
    assert AliveCount(g, 5, i) == Count5(g, i);
  }

  lemma BlinkerPhase(g: seq<int>, g': seq<int>)
    requires (g == Horizontal() && g' == Vertical()) || (g == Vertical() && g' == Horizontal())
    ensures NextGen(g, 5, [3], [2, 3]) == g'
  {
    var r := NextGen(g, 5, [3], [2, 3]);
    forall i | 0 <= i < 25
      ensures r[i] == g'[i]
    {
      NextGenOnFive(g, i);
      if g == Horizontal() {
        HorizontalCells(i);
      } else {
        VerticalCells(i);
      }
    }
  }

  /** Each phase, cell by cell. */
  lemma HorizontalCells(i: int)
    requires 0 <= i < 25
    ensures LivesB3S23(Horizontal(), i) <==> Vertical()[i] == 1
  {
  }

  lemma VerticalCells(i: int)
    requires 0 <= i < 25
    ensures LivesB3S23(Vertical(), i) <==> Horizontal()[i] == 1
  {
  }
}
