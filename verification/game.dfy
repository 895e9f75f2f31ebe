/** The Game component's state and the operations that replace it:
    the initial state, play/pause with its repeating timer, the generation
    tick, and the mouse-driven single-cell edits. State replacement is
    immediate; a live `setInterval` timer is recorded by its period. */
module Game {
  import opened Grid
  import Engine
  import Topology

  /** Side length of the board. */
  const Side: nat := 55

  /** Period, in milliseconds, of the timer armed by play. */
  const TickMillis: nat := 120

  /** `cells`, `bRules`, `sRules` and `isPlaying` of the component state,
      the side `n` that `updateCells` recovers as `Math.sqrt(cells.length)`,
      and the periods of the interval timers currently armed (while playing,
      the last one is the one `timerID` names). */
  datatype Session = Session(
    cells: seq<int>,
    n: nat,
    bRules: seq<int>,
    sRules: seq<int>,
    isPlaying: bool,
    timers: seq<nat>)

  /** The state every reachable session keeps: a square 0/1 grid, and one
      120 ms timer armed exactly while playing. */
  predicate Valid(s: Session) {
    && |s.cells| == s.n * s.n
    && Binary(s.cells)
    && s.timers == (if s.isPlaying then [TickMillis] else [])
  }

  /** The constructor: 55 x 55 dead cells, rule B3/S23, paused. */
  function Initial(): (s: Session)
    ensures Valid(s)
    ensures s.n == 55 && |s.cells| == 3025
    ensures forall i :: 0 <= i < |s.cells| ==> s.cells[i] == 0
    ensures s.bRules == [3] && s.sRules == [2, 3]
    ensures !s.isPlaying && s.timers == []
  {
    Session(Dead(Side * Side), Side, [3], [2, 3], false, [])
  }

  /** `togglePlay`: flip `isPlaying`; arm a new 120 ms timer when play
      starts, clear the timer `timerID` names when it stops. */
  function TogglePlay(s: Session): (r: Session)
    ensures r.isPlaying == !s.isPlaying
    ensures r.cells == s.cells && r.n == s.n
    ensures r.bRules == s.bRules && r.sRules == s.sRules
    ensures r.isPlaying ==> |r.timers| == |s.timers| + 1 && r.timers[|r.timers| - 1] == TickMillis
    ensures !r.isPlaying ==> |r.timers| == if |s.timers| == 0 then 0 else |s.timers| - 1
    ensures r.isPlaying ==> r.timers[..|s.timers|] == s.timers
    ensures !r.isPlaying ==> r.timers == s.timers[..|r.timers|]
  {
    var playing := !s.isPlaying;
    if playing then
      s.(isPlaying := playing, timers := s.timers + [TickMillis])
    else
      s.(isPlaying := playing, timers := if |s.timers| == 0 then [] else s.timers[..|s.timers| - 1])
  }

  /** `updateCells`, the callback each timer tick runs: only the cells
      change, to the next generation. */
  function Advance(s: Session): (r: Session)
    requires |s.cells| == s.n * s.n
    ensures |r.cells| == |s.cells| && Binary(r.cells)
    ensures forall i :: 0 <= i < |s.cells| ==>
              (r.cells[i] == 1 <==>
               Engine.AliveCount(s.cells, s.n, i) in Engine.RulesFor(s.cells[i], s.bRules, s.sRules))
    ensures r.(cells := s.cells) == s
  {
    s.(cells := Engine.NextGen(s.cells, s.n, s.bRules, s.sRules))
  }

  /** `setCell(i, x)` on the component state. */
  function Edit(s: Session, i: int, x: int): (r: Session)
    requires 0 <= i < |s.cells|
    ensures r.cells == SetCell(s.cells, i, x)
    ensures r.(cells := s.cells) == s
  {
    s.(cells := SetCell(s.cells, i, x))
  }

  /** `handleClick(i)`: paint cell `i` alive. */
  function HandleClick(s: Session, i: int): (r: Session)
    requires 0 <= i < |s.cells|
    ensures |r.cells| == |s.cells| && r.cells[i] == 1
    ensures forall j :: 0 <= j < |s.cells| && j != i ==> r.cells[j] == s.cells[j]
    ensures r.(cells := s.cells) == s
  {
    Edit(s, i, 1)
  }

  /** `handleRightClick(e, i)`: paint cell `i` dead. */
  function HandleRightClick(s: Session, i: int): (r: Session)
    requires 0 <= i < |s.cells|
    ensures |r.cells| == |s.cells| && r.cells[i] == 0
    ensures forall j :: 0 <= j < |s.cells| && j != i ==> r.cells[j] == s.cells[j]
    ensures r.(cells := s.cells) == s
  {
    Edit(s, i, 0)
  }

  /** JavaScript's `%`: the remainder takes the sign of the dividend. */
  function JsRem(a: int, b: int): (r: int)
    requires b > 0
    ensures a >= 0 ==> 0 <= r < b
    ensures a < 0 ==> -b < r <= 0
    ensures r % b == a % b
  {
    if a >= 0 then a % b
    else
      var q, m := (-a) / b, (-a) % b;
      Topology.DivMod(-a, b);
      Topology.DivMod(a, b);
      Topology.ModUnique(-m, b, q + a / b, a % b);
      -m
  }

  /** `handleMouseEnter(e, i)`: a bitmask whose JavaScript remainder by 2
      is 1 paints alive, exactly the secondary button paints dead, and any
      other mask leaves the state alone. A negative odd mask has remainder
      -1 and so paints nothing. */
  function HandleMouseEnter(s: Session, buttons: int, i: int): (r: Session)
    requires 0 <= i < |s.cells|
    ensures buttons >= 0 && buttons % 2 == 1 ==> r == HandleClick(s, i)
    ensures buttons == 2 ==> r == HandleRightClick(s, i)
    ensures (buttons < 0 || buttons % 2 == 0) && buttons != 2 ==> r == s
  {
    if JsRem(buttons, 2) == 1 then Edit(s, i, 1)
    else if buttons == 2 then Edit(s, i, 0)
    else s
  }

  // ---- properties -----------------------------------------------------------

  /** After a toggle from a valid state the timer is armed iff playing, and
      it is a single 120 ms timer. */
  lemma TogglePreservesValid(s: Session)
    requires Valid(s)
    ensures Valid(TogglePlay(s))
    ensures TogglePlay(s).isPlaying <==> |TogglePlay(s).timers| == 1
  {
  }

  /** Two toggles restore the original state; from a paused state no timer
      is left armed. */
  lemma ToggleTwiceRestores(s: Session)
    requires Valid(s)
    ensures TogglePlay(TogglePlay(s)) == s
    ensures !s.isPlaying ==> TogglePlay(TogglePlay(s)).timers == []
  {
  }

  /** A tick keeps the session valid and leaves play state and timer alone. */
  lemma AdvancePreservesValid(s: Session)
    requires Valid(s)
    ensures Valid(Advance(s))
    ensures Advance(s).isPlaying == s.isPlaying && Advance(s).timers == s.timers
  {
  }

  /** Every mouse edit keeps the session valid: it writes only 0 or 1. */
  lemma InputPreservesValid(s: Session, buttons: int, i: int)
    requires Valid(s)
    requires 0 <= i < |s.cells|
    ensures Valid(HandleClick(s, i))
    ensures Valid(HandleRightClick(s, i))
    ensures Valid(HandleMouseEnter(s, buttons, i))
  {
    SetCellKeepsBinary(s.cells, i, 1);
    SetCellKeepsBinary(s.cells, i, 0);
  }

  /** The initial board is a fixed point of its rule B3/S23. */
  lemma InitialIsStill()
    ensures Advance(Initial()) == Initial()
  {
    Engine.DeadGridStaysDead(Side, [3], [2, 3]);
  }
}
