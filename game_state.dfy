/**
 * The state `Game` keeps between events (the board, the `running` flag
 * and the time of the last generation step) and the effect each event
 * handler has on it, as pure functions. The class in module GameApp is
 * proved to follow these functions; the lemmas here state what the
 * transitions promise.
 */
module GameState {
  import opened Ints
  import opened Life

  /** `fps` of the game; a step needs more than `fps * 100_000_000` ns to have elapsed. */
  const Fps: int32 := 10
  const UpdateIntervalNanos: int := Fps as int * 100_000_000

  datatype State = State(board: Grid, running: bool, lastUpdated: int64)

  /** What every state of the game satisfies: a 40 x 40 board of 0s and 1s. */
  predicate Inv(s: State) {
    IsBoard(s.board) && IsBinary(s.board)
  }

  /** The board with cell (r, c) set to `v`, every other cell as it was. */
  function SetCell(b: Grid, r: int, c: int, v: int32): (nb: Grid)
    requires 0 <= r < |b| && 0 <= c < |b[r]|
    ensures |nb| == |b| && forall i :: 0 <= i < |b| ==> |nb[i]| == |b[i]|
    ensures nb[r][c] == v
    ensures forall i, j :: 0 <= i < |b| && 0 <= j < |b[i]| && (i, j) != (r, c) ==> nb[i][j] == b[i][j]
  {
    b[r := b[r][c := v]]
  }

  // ---------------------------------------------------------------------
  // Transitions

  /** The state right after construction: an all-zero board, paused, `lastUpdated` the clock's reading. */
  function Initial(now: int64): (s: State)
    ensures Inv(s) && !s.running && s.lastUpdated == now
  {
    State(Empty(), false, now)
  }

  /** The seed placed at start-up: cells (2, 1), (2, 2) and (2, 3) set to 1. */
  function Seeded(b: Grid): (nb: Grid)
    requires IsBoard(b)
    ensures IsBoard(nb)
  {
    SetCell(SetCell(SetCell(b, 2, 1, 1), 2, 2, 1), 2, 3, 1)
  }

  function SeedSpec(s: State): State
    requires IsBoard(s.board)
  {
    s.(board := Seeded(s.board))
  }

  /** The start button: sets `running` only when it was clear. */
  function StartSpec(s: State): State {
    if !s.running then s.(running := true) else s
  }

  /** The stop button: clears `running` only when it was set. */
  function StopSpec(s: State): State {
    if s.running then s.(running := false) else s
  }

  /** The reset button: paused, with a fresh all-zero board. */
  function ResetSpec(s: State): State {
    s.(running := false, board := Empty())
  }

  /**
   * A mouse click on cell (r, c): while paused and with both indices
   * below the number of rows, that cell becomes 1.
   */
  function ClickSpec(s: State, r: int, c: int): State
    requires IsBoard(s.board)
  {
    if !s.running && 0 <= r < |s.board| && 0 <= c < |s.board| then
      s.(board := SetCell(s.board, r, c, 1))
    else
      s
  }

  /** Nanoseconds since the last step, as the `Long` subtraction computes them. */
  function Elapsed(s: State, now: int64): int64 {
    Wrap64(now as int - s.lastUpdated as int)
  }

  /** A timer tick at time `now`: steps the board once the update interval is exceeded. */
  function TickSpec(s: State, now: int64): State
    requires IsBoard(s.board)
  {
    if Elapsed(s, now) as int > UpdateIntervalNanos then
      s.(board := Next(s.board), lastUpdated := now)
    else
      s
  }

  // ---------------------------------------------------------------------
  // What the transitions promise

  /** Every event keeps the board a 40 x 40 board of 0s and 1s. */
  lemma {:induction false} TransitionsKeepInv(s: State, r: int, c: int, now: int64)
    requires Inv(s)
    ensures Inv(SeedSpec(s)) && Inv(StartSpec(s)) && Inv(StopSpec(s)) && Inv(ResetSpec(s))
    ensures Inv(ClickSpec(s, r, c)) && Inv(TickSpec(s, now))
  {
    var b := s.board;
    var b1 := SetCell(b, 2, 1, 1);
    var b2 := SetCell(b1, 2, 2, 1);
    assert IsBinary(b1);
    assert IsBinary(b2);
    assert IsBinary(SetCell(b2, 2, 3, 1));
    if !s.running && 0 <= r < |b| && 0 <= c < |b| {
      assert IsBinary(SetCell(b, r, c, 1));
    }
  }

  /** Start sets `running`, changes nothing else, and a second start does nothing. */
  lemma StartIdempotent(s: State)
    ensures StartSpec(s).running
    ensures StartSpec(s).board == s.board && StartSpec(s).lastUpdated == s.lastUpdated
    ensures StartSpec(StartSpec(s)) == StartSpec(s)
  {
  }

  /** Stop clears `running`, changes nothing else, and a second stop does nothing. */
  lemma StopIdempotent(s: State)
    ensures !StopSpec(s).running
    ensures StopSpec(s).board == s.board && StopSpec(s).lastUpdated == s.lastUpdated
    ensures StopSpec(StopSpec(s)) == StopSpec(s)
  {
  }

  /** Reset pauses and clears every cell, whatever the state was, and keeps the clock. */
  lemma ResetClears(s: State)
    ensures !ResetSpec(s).running && ResetSpec(s).lastUpdated == s.lastUpdated
    ensures IsBoard(ResetSpec(s).board)
    ensures forall r, c :: 0 <= r < BoardHeight && 0 <= c < BoardWidth ==> ResetSpec(s).board[r][c] == 0
    ensures ResetSpec(ResetSpec(s)) == ResetSpec(s)
  {
  }

  /**
   * A click does nothing while running or out of range; otherwise it
   * sets exactly cell (r, c) to 1 and leaves every other cell, the flag
   * and the clock as they were.
   */
  lemma ClickSetsOneCell(s: State, r: int, c: int)
    requires IsBoard(s.board)
    ensures var t := ClickSpec(s, r, c);
      t.running == s.running && t.lastUpdated == s.lastUpdated && IsBoard(t.board)
    ensures s.running || !(0 <= r < BoardHeight && 0 <= c < BoardWidth) ==> ClickSpec(s, r, c) == s
    ensures !s.running && 0 <= r < BoardHeight && 0 <= c < BoardWidth ==>
      var t := ClickSpec(s, r, c);
      t.board[r][c] == 1 &&
      forall i, j :: 0 <= i < BoardHeight && 0 <= j < BoardWidth && (i, j) != (r, c) ==> t.board[i][j] == s.board[i][j]
  {
  }

  /** A click sets rather than toggles: a second click on the same cell changes nothing. */
  lemma {:induction false} ClickIsNotToggle(s: State, r: int, c: int)
    requires IsBoard(s.board)
    ensures IsBoard(ClickSpec(s, r, c).board)
    ensures ClickSpec(ClickSpec(s, r, c), r, c) == ClickSpec(s, r, c)
  {
    var t := ClickSpec(s, r, c);
    if !s.running && 0 <= r < |s.board| && 0 <= c < |s.board| {
      assert t.board[r][c] == 1;
      assert t.board[r][c := 1] == t.board[r];
    }
  }

  /**
   * A tick steps the board and records `now` exactly when more than the
   * update interval has passed; otherwise it changes nothing. `running`
   * is never touched.
   */
  lemma TickGate(s: State, now: int64)
    requires IsBoard(s.board)
    ensures TickSpec(s, now).running == s.running
    ensures Elapsed(s, now) as int > UpdateIntervalNanos ==>
      TickSpec(s, now).board == Next(s.board) && TickSpec(s, now).lastUpdated == now
    ensures Elapsed(s, now) as int <= UpdateIntervalNanos ==> TickSpec(s, now) == s
  {
  }

  /** Two ticks at the same instant step the board at most once. */
  lemma {:induction false} TickAtSameInstantStepsOnce(s: State, now: int64)
    requires IsBoard(s.board)
    ensures IsBoard(TickSpec(s, now).board)
    ensures TickSpec(TickSpec(s, now), now) == TickSpec(s, now)
  {
    var t := TickSpec(s, now);
    if t != s {
      assert t.lastUpdated == now;
      assert Elapsed(t, now) == 0;
    }
  }

  /** The state after one timer tick at each of the instants in `times`, in order. */
  function Ticks(s: State, times: seq<int64>): (t: State)
    requires IsBoard(s.board)
    ensures IsBoard(t.board) && t.running == s.running
    decreases |times|
  {
    if |times| == 0 then s else Ticks(TickSpec(s, times[0]), times[1..])
  }

  /** An all-zero board stays all-zero whatever ticks follow. */
  lemma {:induction false} EmptyStaysEmptyUnderTicks(s: State, times: seq<int64>)
    requires s.board == Empty()
    ensures Ticks(s, times).board == Empty()
    decreases |times|
  {
    if |times| > 0 {
      EmptyStaysEmpty();
      EmptyStaysEmptyUnderTicks(TickSpec(s, times[0]), times[1..]);
    }
  }

  /** After a reset the board stays all-zero however many ticks follow. */
  lemma {:induction false} ResetThenTicksStayEmpty(s: State, times: seq<int64>)
    ensures Ticks(ResetSpec(s), times).board == Empty()
  {
    EmptyStaysEmptyUnderTicks(ResetSpec(s), times);
  }

  // ---------------------------------------------------------------------
  // The start-up pattern: a blinker

  /** Cell (r, c) of the horizontal line: alive in row 2, columns 1 to 3. */
  function HorizontalCell(r: int, c: int): int32 {
    if r == 2 && 1 <= c <= 3 then 1 else 0
  }

  /** Cell (r, c) of the vertical line: alive in column 2, rows 1 to 3. */
  function VerticalCell(r: int, c: int): int32 {
    if c == 2 && 1 <= r <= 3 then 1 else 0
  }

  /** Three live cells in row 2, columns 1 to 3. */
  function HorizontalLine(): (b: Grid)
    ensures IsBoard(b)
    ensures forall r, c :: 0 <= r < BoardHeight && 0 <= c < BoardWidth ==> b[r][c] == HorizontalCell(r, c)
  {
    seq(BoardHeight, r => seq(BoardWidth, c => HorizontalCell(r, c)))
  }

  /** Three live cells in column 2, rows 1 to 3. */
  function VerticalLine(): (b: Grid)
    ensures IsBoard(b)
    ensures forall r, c :: 0 <= r < BoardHeight && 0 <= c < BoardWidth ==> b[r][c] == VerticalCell(r, c)
  {
    seq(BoardHeight, r => seq(BoardWidth, c => VerticalCell(r, c)))
  }

  /** The freshly constructed game, once seeded, holds the horizontal line. */
  lemma {:induction false} SeedIsHorizontalLine(now: int64)
    ensures SeedSpec(Initial(now)).board == HorizontalLine()
  {
    var e := Empty();
    var h := HorizontalLine();
    var sb := Seeded(e);
    forall r, c | 0 <= r < BoardHeight && 0 <= c < BoardWidth
      ensures sb[r][c] == h[r][c]
    {
    }
    GridExt(sb, h);
  }

  /**
   * The next-generation value of an interior cell of the horizontal line,
   * read off the nine cell values of its block as plain integers.
   */
  lemma {:induction false} HorizontalNextCell(r: int, c: int)
    requires 1 <= r < BoardHeight - 1 && 1 <= c < BoardWidth - 1
    ensures NextCell(HorizontalLine(), r, c) == Rule(HorizontalCell(r, c), Wrap32(
      HorizontalCell(r - 1, c - 1) as int + HorizontalCell(r - 1, c) as int + HorizontalCell(r - 1, c + 1) as int +
      HorizontalCell(r, c - 1) as int + HorizontalCell(r, c + 1) as int +
      HorizontalCell(r + 1, c - 1) as int + HorizontalCell(r + 1, c) as int + HorizontalCell(r + 1, c + 1) as int))
  {
    var h := HorizontalLine();
    assert IsInterior(h, r, c);
    assert BlockSum(h, r, c) - h[r][c] as int ==
      HorizontalCell(r - 1, c - 1) as int + HorizontalCell(r - 1, c) as int + HorizontalCell(r - 1, c + 1) as int +
      HorizontalCell(r, c - 1) as int + HorizontalCell(r, c + 1) as int +
      HorizontalCell(r + 1, c - 1) as int + HorizontalCell(r + 1, c) as int + HorizontalCell(r + 1, c + 1) as int;
  }

  /** The same for the vertical line. */
  lemma {:induction false} VerticalNextCell(r: int, c: int)
    requires 1 <= r < BoardHeight - 1 && 1 <= c < BoardWidth - 1
    ensures NextCell(VerticalLine(), r, c) == Rule(VerticalCell(r, c), Wrap32(
      VerticalCell(r - 1, c - 1) as int + VerticalCell(r - 1, c) as int + VerticalCell(r - 1, c + 1) as int +
      VerticalCell(r, c - 1) as int + VerticalCell(r, c + 1) as int +
      VerticalCell(r + 1, c - 1) as int + VerticalCell(r + 1, c) as int + VerticalCell(r + 1, c + 1) as int))
  {
    var v := VerticalLine();
    assert IsInterior(v, r, c);
    assert BlockSum(v, r, c) - v[r][c] as int ==
      VerticalCell(r - 1, c - 1) as int + VerticalCell(r - 1, c) as int + VerticalCell(r - 1, c + 1) as int +
      VerticalCell(r, c - 1) as int + VerticalCell(r, c + 1) as int +
      VerticalCell(r + 1, c - 1) as int + VerticalCell(r + 1, c) as int + VerticalCell(r + 1, c + 1) as int;
  }

  /** Every cell of the horizontal line's next generation is the vertical line's. */
  lemma {:induction false} HorizontalCellStep(r: int, c: int)
    requires 0 <= r < BoardHeight && 0 <= c < BoardWidth
    ensures NextCell(HorizontalLine(), r, c) == VerticalLine()[r][c]
  {
    if 1 <= r <= 3 && 1 <= c <= 4 {
      HorizontalNextCell(r, c);
    } else if !(1 <= r <= 3 && c == 0) {
      QuietCellStaysDead(HorizontalLine(), r, c);
    }
  }

  /** Every cell of the vertical line's next generation is the horizontal line's. */
  lemma {:induction false} VerticalCellStep(r: int, c: int)
    requires 0 <= r < BoardHeight && 0 <= c < BoardWidth
    ensures NextCell(VerticalLine(), r, c) == HorizontalLine()[r][c]
  {
    if 1 <= r <= 4 && 1 <= c <= 3 {
      VerticalNextCell(r, c);
    } else if !(r == 0 && 1 <= c <= 3) {
      QuietCellStaysDead(VerticalLine(), r, c);
    }
  }

  /**
   * The seeded horizontal line becomes the vertical line after one step
   * and is back after two: a blinker of period 2.
   */
  lemma {:induction false} BlinkerOscillates()
    ensures Next(HorizontalLine()) == VerticalLine()
    ensures Next(VerticalLine()) == HorizontalLine()
    ensures Next(Next(HorizontalLine())) == HorizontalLine()
  {
    forall r, c | 0 <= r < BoardHeight && 0 <= c < BoardWidth
      ensures Next(HorizontalLine())[r][c] == VerticalLine()[r][c]
      ensures Next(VerticalLine())[r][c] == HorizontalLine()[r][c]
    {
      HorizontalCellStep(r, c);
      VerticalCellStep(r, c);
    }
    GridExt(Next(HorizontalLine()), VerticalLine());
    GridExt(Next(VerticalLine()), HorizontalLine());
  }

  /** Two ticks, each more than the update interval after the previous step, take the seeded board back to itself. */
  lemma {:induction false} SeededGameBlinks(s: State, t1: int64, t2: int64)
    requires s.board == HorizontalLine()
    requires Elapsed(s, t1) as int > UpdateIntervalNanos
    requires Wrap64(t2 as int - t1 as int) as int > UpdateIntervalNanos
    ensures IsBoard(TickSpec(s, t1).board)
    ensures TickSpec(s, t1).board == VerticalLine()
    ensures TickSpec(TickSpec(s, t1), t2).board == HorizontalLine()
  {
    BlinkerOscillates();
  }
}
