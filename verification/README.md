# Game of Life core, modelled in Dafny

This project models the simulation core of the `Game` component in
`src/index.js`, a generalised Conway's Game of Life. The board is a flat,
row-major array of `n * n` cells holding 0 (dead) or 1 (alive).

- `updateCells` advances the board one generation. It uses a birth list
  `bRules` and a survival list `sRules`.
- `setCell` and the three mouse handlers edit single cells.
- `togglePlay` starts and stops a repeating 120 ms timer that calls
  `updateCells`.
- The constructor builds a 55 x 55 dead board with rule B3/S23, paused.

Modules, one per concern of the component:

- `Grid` (`grid.dfy`): the cell array, all-dead boards, the left-fold sum and
  `setCell`.
- `Topology` (`topology.dfy`): the eight linear neighbour offsets of
  `updateCells` and their exact meaning in rows and columns.
- `Engine` (`engine.dfy`): the generation step. `NextGen` is the pure
  definition. `UpdateCells` is the loop of `updateCells`, proved equal to it.
- `Game` (`game.dfy`): the component state, the initial state,
  play/pause with its timer, the tick, and the mouse handlers.
- `Patterns` (`patterns.dfy`): the blinker on a 5 x 5 board under B3/S23.

## Neighbourhood: the code, not a torus

A row/column torus would wrap rows and columns independently;
`updateCells` does not. It adds eight fixed offsets
`-n-1, -n, -n+1, -1, 1, n-1, n, n+1` to the flat index and takes the
result modulo `n²`; the negative offsets get `n²` added first. The model
follows the code:

- Vertical steps wrap exactly (`Topology.VerticalStepsExact`).
- A horizontal step off the end of a row spills into the next or previous
  row (`Topology.RightStepSpills`, `Topology.LeftStepSpills`).
- In general, the neighbour's column is `(c + dc) mod n`, and the carry out
  of the column moves the row (`Topology.NeighborCoordinates`).
- Away from the first and last column the two topologies agree
  (`Topology.AgreesWithTorusInside`).
- At the corners they differ. From side 4 on, the top-right cell never
  counts the bottom-left cell (`Topology.TopRightMissesBottomLeft`), which
  a torus would make its neighbour.

For `n = 1` the offset `-n-1+n²` is `-1`. JavaScript then computes
`-1 % 1` as `-0`, and that still indexes cell 0. Dafny's Euclidean `%`
gives 0, so the model agrees there too.

A cell consults `sRules` only when it is exactly 1 (`=== 1`), and `bRules`
otherwise. The mouse-enter test `buttons % 2 === 1` uses JavaScript's
truncating remainder, modelled by `Game.JsRem`. A negative odd mask
therefore paints nothing.

## Model

| member | source | states |
|---|---|---|
| `Grid.Dead` | src/index.js:79 | `Array(n**2).fill(0)`: the requested length, and every cell 0 |
| `Grid.Sum` | src/index.js:100 | the unseeded `reduce((a, b) => a + b)` as a left fold; it has no contract of its own, and `Grid.SumOfEight` and `Grid.SumOfBinaryBounded` pin it down |
| `Grid.SumOfBinaryBounded` | src/index.js:100 | a sum of 0/1 values lies between 0 and the number of terms |
| `Grid.SumOfEight` | src/index.js:100 | the left-fold `reduce` over eight values is their plain sum |
| `Grid.SetCell` | src/index.js:126-132 | same length, index `i` holds `x`, every other index unchanged |
| `Grid.SetCellKeepsBinary` | src/index.js:126-132 | writing 0 or 1 keeps a 0/1 board 0/1 |
| `Grid.SetCellOverwrite` | src/index.js:126-132 | the later of two writes to one cell wins; rewriting a cell's own value changes nothing |
| `Topology.Offsets` | src/index.js:96 | eight offsets; offset `k` is its row step times `n` plus its column step, with `n²` added to the four negative ones |
| `Topology.NeighborIndex` | src/index.js:100 | `(i + val) % n2` is always a valid index into the board |
| `Topology.Neighbors` | src/index.js:96-100 | neighbour `k` is the flat index plus the signed step `DRow(k) * n + DCol(k)`, taken modulo `n²` |
| `Topology.NeighborIsSignedOffset` | src/index.js:96-100 | neighbour `k` is `(i + d) mod n²` for the signed offset `d`; the added `n2` changes nothing |
| `Topology.NeighborCoordinates` | src/index.js:96-100 | column `(c + dc) mod n`; row `(r + dr + carry) mod n`, where the carry is `(c + dc)` divided by `n`, rounded down |
| `Topology.AgreesWithTorusInside` | src/index.js:96-100 | outside the first and last column every neighbour is the torus neighbour |
| `Topology.RightStepSpills` | src/index.js:96-100 | from the last column the `+1` step reaches column 0 of the next row, which is not the torus neighbour once `n >= 2` |
| `Topology.LeftStepSpills` | src/index.js:96-100 | from column 0 the `-1` step reaches the last column of the previous row |
| `Topology.VerticalStepsExact` | src/index.js:96-100 | the `-n` and `+n` steps keep the column and wrap the row modulo `n` |
| `Topology.LastCellWrapsToFirst` | src/index.js:96-100 | the `+1` neighbour of cell `n²-1` is cell 0 |
| `Topology.TopRowSeesBottomRow` | src/index.js:96-100 | a row-0 cell's `-n` neighbour is the same column of the last row |
| `Topology.TopLeftCorner` | src/index.js:96-100 | cell 0 sees cell `n²-1` through its left step; for `n >= 2` its up-left step lands on the last cell of row `n-2`, not on cell `n²-1` |
| `Topology.TopRightMissesBottomLeft` | src/index.js:96-100 | for `n >= 4` none of the eight neighbours of the top-right corner is the bottom-left corner |
| `Engine.NeighborValues` | src/index.js:100 | value `k` is the cell at the flat index plus the signed step `DRow(k) * n + DCol(k)`, modulo `n²` |
| `Engine.NextCell` | src/index.js:101-102 | `Number(rules.includes(...))` is 0 or 1 |
| `Engine.NextGen` | src/index.js:93-108 | the next generation has the input's length and only 0/1 cells, for any input values and rule lists |
| `Engine.Includes` | src/index.js:102 | the linear search finds `x` exactly when `x` is in the list |
| `Engine.CountAlive` | src/index.js:100 | the running sum over the eight offsets equals the neighbour count |
| `Engine.UpdateCells` | src/index.js:93-108 | the loop that fills a fresh zero array cell by cell, reading only the old board, computes exactly `NextGen` |
| `Engine.AliveCountBounded` | src/index.js:100 | on a 0/1 board every neighbour count is in [0, 8] |
| `Engine.AliveCount` | src/index.js:100 | `aliveNum`, the left-fold sum of the eight neighbour values; it has no contract of its own, and `Engine.AliveCountExpanded` and `Engine.AliveCountBounded` pin it down |
| `Engine.AliveCountExpanded` | src/index.js:100 | the count is the sum of the eight neighbour cells, in offset order |
| `Engine.RulesFor` | src/index.js:101 | the rule list chosen by `cells[i] === 1`; it has no contract of its own, and `Engine.RuleDecides` states both branches as iff |
| `Engine.RuleDecides` | src/index.js:101-102 | a cell equal to 1 becomes 1 iff its count is in `sRules`; any other cell becomes 1 iff its count is in `bRules` |
| `Engine.InRange` | src/index.js:102 | the entries of a rule list lying in [0, 8], membership both ways |
| `Engine.CountMatchesOnlyInRange` | src/index.js:100-102 | on a 0/1 board a neighbour count is in a rule list iff it is in that list's entries within [0, 8] |
| `Engine.OutOfRangeRulesNeverMatch` | src/index.js:100-102 | on a 0/1 board, removing rule entries outside [0, 8] leaves the next generation unchanged |
| `Engine.NextCellIsLocal` | src/index.js:97-107 | an output cell depends only on the old values of that cell and its eight neighbours (synchronous update) |
| `Engine.DeadGridStaysDead` | src/index.js:100-102 | an all-dead board stays all-dead iff 0 is not in `bRules` |
| `Engine.FullGridStaysFull` | src/index.js:100-102 | an all-alive board stays all-alive iff 8 is in `sRules` |
| `Game.Initial` | src/index.js:75-84 | 55 x 55 = 3025 dead cells, `bRules = [3]`, `sRules = [2, 3]`, paused, no timer, and the state invariant holds |
| `Game.TogglePlay` | src/index.js:110-124 | `isPlaying` flips and the board and rules are unchanged; starting play appends one 120 ms timer and keeps the others; stopping removes only the last one |
| `Game.Edit` | src/index.js:126-132 | `setCell` replaces the board by the board with cell `i` set to `x`, and nothing else in the state changes |
| `Game.Advance` | src/index.js:105-107 | a tick replaces only the cells, with a same-length 0/1 board decided by the rules |
| `Game.HandleClick` | src/index.js:134-136 | a click makes cell `i` alive and changes nothing else |
| `Game.HandleRightClick` | src/index.js:138-141 | a right click makes cell `i` dead and changes nothing else |
| `Game.JsRem` | src/index.js:145 | JavaScript `%`: the sign follows the dividend, the magnitude is below the divisor, and the residue matches the Euclidean one |
| `Game.HandleMouseEnter` | src/index.js:143-150 | an odd non-negative mask acts as a click; mask 2 acts as a right click; any other mask, negative odd ones included, changes nothing |
| `Game.TogglePreservesValid` | src/index.js:110-124 | from a valid state a toggle leaves exactly one 120 ms timer armed iff playing |
| `Game.ToggleTwiceRestores` | src/index.js:110-124 | two toggles give back the original state; from paused, no timer is left |
| `Game.AdvancePreservesValid` | src/index.js:93-108 | a tick keeps the state valid and leaves play flag and timer alone |
| `Game.InputPreservesValid` | src/index.js:134-150 | every mouse edit keeps the state valid |
| `Game.InitialIsStill` | src/index.js:77-83 | under B3/S23 the initial dead board is its own next generation |
| `Patterns.NextGenOnFive` | src/index.js:96-102 | on a 5 x 5 board, B3/S23 decides each cell from the sum at offsets 19, 20, 21, 24, 1, 4, 5, 6 mod 25 |
| `Patterns.BlinkerOscillates` | src/index.js:99-103 | the horizontal and vertical blinker turn into each other, so the blinker has period 2 |

## Left out

- Rendering is not modelled: `Cell`, `Board`, `Game.render`, the rules
  display string and `ReactDOM.render` (src/index.js:7-49, 159-193) are
  presentation only.
- `randomizeCells` and `binaryRand` (src/index.js:86-91, 195-198) are not
  modelled, because they depend on `Math.random`. `binaryRand(0, 1, 0.8)`
  returns 0 with probability 0.8, so a random board is mostly dead.
- Real timing is not modelled. A live `setInterval` timer is recorded only
  by its period in `Session.timers`. Ticks are not scheduled; `Game.Advance`
  is what one tick does.
- React's batched `setState` is not modelled: each operation replaces the
  state at once. `togglePlay` reads `isPlaying` before its own update, so
  this matters only if two toggles land in one batch.
- `Math.sqrt(cells.length)` is not modelled. The side `n` is a parameter,
  with `|cells| == n * n` required.
- `e.preventDefault()` in the right-click handler is a browser side effect
  with no state, so it is not modelled.
- Cell values are integers. JavaScript would also accept non-numbers, where
  `reduce` concatenates or yields `NaN`; those are not modelled.
- Out-of-range indices are not modelled. `setCell` has no bounds check:
  an index at or past the end grows the array; a negative one adds a
  property that `updateCells` never reads. Every edit requires
  `0 <= i < |cells|`, the only indices the board passes.
- The component has no reset, no interval control and no index or value
  validation, so the model has none either.
- The commented-out code (src/index.js:51-72, 152-157) is not modelled.
