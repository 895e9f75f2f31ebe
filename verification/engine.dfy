/** The generation step `updateCells`: every cell counts its live
    neighbours in the old grid, then looks that count up in the survival
    list (cell equal to 1) or the birth list (any other cell). */
module Engine {
  import opened Grid
  import opened Topology

  /** Values of the eight neighbours of cell `i`, in offset order: the
      cell a signed row-and-column step away, modulo `n * n`. */
  function NeighborValues(cells: seq<int>, n: nat, i: int): (v: seq<int>)
    requires |cells| == n * n
    requires 0 <= i < |cells|
    ensures |v| == 8
    ensures forall k :: 0 <= k < 8 ==> v[k] == cells[(i + DRow(k) * n + DCol(k)) % (n * n)]
  {
    AllSignedOffsets(n, i);
    seq(8, k requires 0 <= k < 8 => cells[NeighborIndex(n, i, k)])
  }

  /** `aliveNum`: the sum of the eight neighbour values. */
  function AliveCount(cells: seq<int>, n: nat, i: int): int
    requires |cells| == n * n
    requires 0 <= i < |cells|
  {
    Sum(NeighborValues(cells, n, i))
  }

  /** The rule list a cell consults: survival when it is exactly 1, birth
      otherwise. */
  function RulesFor(cell: int, bRules: seq<int>, sRules: seq<int>): seq<int> {
    if cell == 1 then sRules else bRules
  }

  /** `Number(rules.includes(aliveNum))`. */
  function NextCell(cells: seq<int>, n: nat, i: int, bRules: seq<int>, sRules: seq<int>): (v: int)
    requires |cells| == n * n
    requires 0 <= i < |cells|
    ensures v == 0 || v == 1
  {
    if AliveCount(cells, n, i) in RulesFor(cells[i], bRules, sRules) then 1 else 0
  }

  /** The next generation, computed from the old grid alone. */
  function NextGen(cells: seq<int>, n: nat, bRules: seq<int>, sRules: seq<int>): (r: seq<int>)
    requires |cells| == n * n
    ensures |r| == |cells|
    ensures Binary(r)
  {
    seq(|cells|, i requires 0 <= i < |cells| => NextCell(cells, n, i, bRules, sRules))
  }

  // ---- the loop of updateCells --------------------------------------------

  /** `rules.includes(x)` as a linear search. */
  method Includes(rules: seq<int>, x: int) returns (found: bool)
    ensures found <==> x in rules
  {
    found := false;
    var k := 0;
    while k < |rules|
      invariant 0 <= k <= |rules|
      invariant found <==> x in rules[..k]
    {
      if rules[k] == x {
        found := true;
      }
      assert rules[..k + 1] == rules[..k] + [rules[k]];
      k := k + 1;
    }
    assert rules[..k] == rules;
  }

  /** `neighbors.map(...).reduce((a, b) => a + b)` as a running sum. */
  method CountAlive(cells: seq<int>, n: nat, i: int) returns (count: int)
    requires |cells| == n * n
    requires 0 <= i < |cells|
    ensures count == AliveCount(cells, n, i)
  {
    var values := NeighborValues(cells, n, i);
    count := 0;
    var k := 0;
    while k < 8
      invariant 0 <= k <= 8
      invariant count == Sum(values[..k])
    {
      assert values[..k + 1][..k] == values[..k];
      count := count + cells[(i + Offsets(n)[k]) % (n * n)];
      k := k + 1;
    }
    assert values[..8] == values;
  }

  /** The whole-grid loop: a fresh all-dead array filled cell by cell. */
  method UpdateCells(cells: seq<int>, n: nat, bRules: seq<int>, sRules: seq<int>)
    returns (next: seq<int>)
    requires |cells| == n * n
    ensures next == NextGen(cells, n, bRules, sRules)
  {
    var n2 := |cells|;
    next := Dead(n2);
    var i := 0;
    while i < n2
      invariant 0 <= i <= n2
      invariant |next| == n2
      invariant forall j :: 0 <= j < i ==> next[j] == NextCell(cells, n, j, bRules, sRules)
    {
      var aliveNum := CountAlive(cells, n, i);
      var rules := if cells[i] == 1 then sRules else bRules;
      var alive := Includes(rules, aliveNum);
      next := next[i := if alive then 1 else 0];
      i := i + 1;
    }
  }

  // ---- properties -----------------------------------------------------------

  /** On a grid of 0/1 cells every neighbour count lies in [0, 8]. */
  lemma AliveCountBounded(cells: seq<int>, n: nat, i: int)
    requires |cells| == n * n
    requires 0 <= i < |cells|
    requires Binary(cells)
    ensures 0 <= AliveCount(cells, n, i) <= 8
  {
    SumOfBinaryBounded(NeighborValues(cells, n, i));
  }

  /** The neighbour count term by term, in offset order. */
  lemma AliveCountExpanded(cells: seq<int>, n: nat, i: int)
    requires |cells| == n * n
    requires 0 <= i < |cells|
    ensures AliveCount(cells, n, i)
         == cells[NeighborIndex(n, i, 0)] + cells[NeighborIndex(n, i, 1)]
          + cells[NeighborIndex(n, i, 2)] + cells[NeighborIndex(n, i, 3)]
          + cells[NeighborIndex(n, i, 4)] + cells[NeighborIndex(n, i, 5)]
          + cells[NeighborIndex(n, i, 6)] + cells[NeighborIndex(n, i, 7)]
  {
    SumOfEight(NeighborValues(cells, n, i));
  }

  /** A cell equal to 1 lives on iff its count is a survival entry; any
      other cell comes alive iff its count is a birth entry. */
  lemma RuleDecides(cells: seq<int>, n: nat, bRules: seq<int>, sRules: seq<int>, i: int)
    requires |cells| == n * n
    requires 0 <= i < |cells|
    ensures cells[i] == 1 ==>
              (NextGen(cells, n, bRules, sRules)[i] == 1 <==> AliveCount(cells, n, i) in sRules)
    ensures cells[i] != 1 ==>
              (NextGen(cells, n, bRules, sRules)[i] == 1 <==> AliveCount(cells, n, i) in bRules)
  {
  }

  /** The entries of a rule list that a count of 0/1 cells can match. */
  function InRange(rules: seq<int>): (r: seq<int>)
    ensures forall x :: x in r <==> x in rules && 0 <= x <= 8
  {
    if |rules| == 0 then []
    else if 0 <= rules[0] <= 8 then [rules[0]] + InRange(rules[1..])
    else InRange(rules[1..])
  }

  /** A neighbour count on a 0/1 board matches a rule list exactly when it
      matches the list's entries in [0, 8]. */
  lemma CountMatchesOnlyInRange(cells: seq<int>, n: nat, rules: seq<int>, i: int)
    requires |cells| == n * n
    requires 0 <= i < |cells|
    requires Binary(cells)
    ensures AliveCount(cells, n, i) in rules <==> AliveCount(cells, n, i) in InRange(rules)
  {
    AliveCountBounded(cells, n, i);
  }

  /** Rule entries outside [0, 8] never match: dropping them does not change
      the next generation of a 0/1 grid. */
  lemma OutOfRangeRulesNeverMatch(cells: seq<int>, n: nat, bRules: seq<int>, sRules: seq<int>)
    requires |cells| == n * n
    requires Binary(cells)
    ensures NextGen(cells, n, bRules, sRules) == NextGen(cells, n, InRange(bRules), InRange(sRules))
  {
    var r, r' := NextGen(cells, n, bRules, sRules), NextGen(cells, n, InRange(bRules), InRange(sRules));
    forall i | 0 <= i < |cells|
      ensures r[i] == r'[i]
    {
      CountMatchesOnlyInRange(cells, n, bRules, i);
      CountMatchesOnlyInRange(cells, n, sRules, i);
    }
  }

  /** Each output cell depends only on the old value of that cell and of
      its eight neighbours, never on another output cell. */
  lemma NextCellIsLocal(cells: seq<int>, cells': seq<int>, n: nat, bRules: seq<int>, sRules: seq<int>, i: int)
    requires |cells| == |cells'| == n * n
    requires 0 <= i < |cells|
    requires cells'[i] == cells[i]
    requires forall k :: 0 <= k < 8 ==> cells'[NeighborIndex(n, i, k)] == cells[NeighborIndex(n, i, k)]
    ensures NextGen(cells', n, bRules, sRules)[i] == NextGen(cells, n, bRules, sRules)[i]
  {
    assert NeighborValues(cells', n, i) == NeighborValues(cells, n, i);
  }

  /** An all-dead grid stays all-dead exactly when 0 is not a birth count. */
  lemma {:induction false} DeadGridStaysDead(n: nat, bRules: seq<int>, sRules: seq<int>)
    requires n >= 1
    ensures NextGen(Dead(n * n), n, bRules, sRules) == Dead(n * n) <==> 0 !in bRules
  {
    var cells := Dead(n * n);
    forall i | 0 <= i < n * n
      ensures AliveCount(cells, n, i) == 0
    {
      SumOfZeros(NeighborValues(cells, n, i));
    }
    if 0 in bRules {
      assert NextGen(cells, n, bRules, sRules)[0] == 1;
    }
  }

  /** An all-alive grid stays all-alive exactly when 8 is a survival count. */
  lemma {:induction false} FullGridStaysFull(n: nat, bRules: seq<int>, sRules: seq<int>)
    requires n >= 1
    ensures NextGen(seq(n * n, _ => 1), n, bRules, sRules) == seq(n * n, _ => 1) <==> 8 in sRules
  {
    var cells: seq<int> := seq(n * n, _ => 1);
    forall i | 0 <= i < n * n
      ensures AliveCount(cells, n, i) == 8
    {
      SumOfOnes(NeighborValues(cells, n, i));
    }
    if 8 !in sRules {
      assert NextGen(cells, n, bRules, sRules)[0] == 0;
    }
  }
}
