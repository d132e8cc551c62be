/**
 * The `Game` object: its mutable fields `board`, `running` and
 * `lastUpdated`, the start-up seed, the start/stop/reset buttons, the
 * paused-only mouse edit and the timer tick, each proved to move the
 * object's state exactly as the matching function of GameState says,
 * and `nextGeneration`, whose nested loops are proved to compute Life.Next.
 */
module GameApp {
  import opened Ints
  import opened Life
  import opened GameState

  /** The cells of a 2-D array as a board, row by row. */
  ghost function Cells(a: array2<int32>): (g: Grid)
    reads a
    ensures |g| == a.Length0
    ensures forall r :: 0 <= r < a.Length0 ==> |g[r]| == a.Length1
    ensures forall r, c :: 0 <= r < a.Length0 && 0 <= c < a.Length1 ==> g[r][c] == a[r, c]
  {
    seq(a.Length0, r requires 0 <= r < a.Length0 reads a =>
      seq(a.Length1, c requires 0 <= c < a.Length1 reads a => a[r, c]))
  }

  /** A grid whose every cell is NextCell of `b` holds Next(b). */
  lemma {:induction false} CellsAreNext(a: array2<int32>, b: Grid)
    requires IsBoard(b) && a.Length0 == BoardHeight && a.Length1 == BoardWidth
    requires forall r, c :: 0 <= r < BoardHeight && 0 <= c < BoardWidth ==> a[r, c] == NextCell(b, r, c)
    ensures Cells(a) == Next(b)
  {
    GridExt(Cells(a), Next(b));
  }

  class Game {
    var board: array2<int32>
    var running: bool
    var lastUpdated: int64

    /** The object's state as a value. */
    ghost function Model(): State
      reads this, board
    {
      State(Cells(board), running, lastUpdated)
    }

    /** The board is a BoardHeight x BoardWidth grid of 0s and 1s. */
    ghost predicate Valid()
      reads this, board
    {
      board.Length0 == BoardHeight && board.Length1 == BoardWidth && Inv(Model())
    }

    /**
     * Field initialisation: an all-zero board, paused, and `lastUpdated`
     * set to the clock reading `now` taken at construction.
     */
    constructor (now: int64)
      ensures Valid() && fresh(board)
      ensures Model() == Initial(now)
    {
      board := new int32[BoardHeight, BoardWidth]((_, _) => 0);
      running := false;
      lastUpdated := now;
      new;
      GridExt(Cells(board), Empty());
    }

    /** The start-up seed: cells (2, 1), (2, 2) and (2, 3) set to 1. */
    method SeedInitialPattern()
      requires Valid()
      modifies board
      ensures Valid()
      ensures Model() == SeedSpec(old(Model()))
    {
      ghost var b := Cells(board);
      for i := 2 to 3
        invariant forall r, c :: 0 <= r < BoardHeight && 0 <= c < BoardWidth ==>
          board[r, c] == if 2 <= r < i && 1 <= c <= 3 then 1 else b[r][c]
      {
        for j := 1 to 4
          invariant forall r, c :: 0 <= r < BoardHeight && 0 <= c < BoardWidth ==>
            board[r, c] == if (2 <= r < i && 1 <= c <= 3) || (r == i && 1 <= c < j) then 1 else b[r][c]
        {
          board[i, j] := 1;
        }
      }
      GridExt(Cells(board), Seeded(b));
      TransitionsKeepInv(old(Model()), 0, 0, 0);
    }

    /** The start button. */
    method Start()
      requires Valid()
      modifies this
      ensures Valid() && board == old(board)
      ensures Model() == StartSpec(old(Model()))
    {
      if !running {
        running := true;
      }
    }

    /** The stop button. */
    method Stop()
      requires Valid()
      modifies this
      ensures Valid() && board == old(board)
      ensures Model() == StopSpec(old(Model()))
    {
      if running {
        running := false;
      }
    }

    /** The reset button: paused, and a freshly allocated all-zero board. */
    method Reset()
      requires Valid()
      modifies this
      ensures Valid() && fresh(board)
      ensures Model() == ResetSpec(old(Model()))
    {
      running := false;
      board := new int32[BoardHeight, BoardWidth]((_, _) => 0);
      GridExt(Cells(board), Empty());
    }

    /**
     * A mouse click already converted to cell (r, c): only while paused,
     * and only when both indices are below `board.size`, the cell is set to 1.
     */
    method Click(r: int, c: int)
      requires Valid()
      modifies board
      ensures Valid()
      ensures Model() == ClickSpec(old(Model()), r, c)
    {
      ghost var b := Cells(board);
      if !running {
        if 0 <= r < board.Length0 && 0 <= c < board.Length0 {
          board[r, c] := 1;
          GridExt(Cells(board), SetCell(b, r, c, 1));
        }
      }
      TransitionsKeepInv(old(Model()), r, c, 0);
    }

    /**
     * The live-neighbour count of interior cell (row, col): the 3 x 3
     * block summed in a 32-bit accumulator, then the centre subtracted.
     */
    method CountNeighbours(row: int, col: int) returns (aliveNeighbours: int32)
      requires board.Length0 == BoardHeight && board.Length1 == BoardWidth
      requires 1 <= row < board.Length0 - 1 && 1 <= col < board.Length1 - 1
      ensures aliveNeighbours == NeighbourCount(Cells(board), row, col)
    {
      ghost var b := Cells(board);
      assert IsBoard(b) && IsInterior(b, row, col);
      aliveNeighbours := 0;
      ghost var total := 0;
      for i := -1 to 2
        invariant total == BlockPrefix(b, row, col, i + 1)
        invariant aliveNeighbours == Wrap32(total)
      {
        for j := -1 to 2
          invariant total == BlockPrefix(b, row, col, i + 1) + RowPrefix(b, row + i, col, j + 1)
          invariant aliveNeighbours == Wrap32(total)
        {
          var value := board[row + i, col + j];
          assert Wrap32(aliveNeighbours as int + value as int) == Wrap32(total + value as int) by {
            Wrap32Add(total, value as int);
          }
          aliveNeighbours := Wrap32(aliveNeighbours as int + value as int);
          total := total + value as int;
        }
      }
      BlockPrefixIsBlockSum(b, row, col);
      Wrap32Add(BlockSum(b, row, col), -(board[row, col] as int));
      aliveNeighbours := Wrap32(aliveNeighbours as int - board[row, col] as int);
    }

    /**
     * The column loop of `nextGeneration` for one interior row: every
     * interior cell of that row of `next` gets its next-generation value;
     * nothing else in `next` changes.
     */
    method FillRow(next: array2<int32>, row: int)
      requires board.Length0 == BoardHeight && board.Length1 == BoardWidth
      requires next.Length0 == BoardHeight && next.Length1 == BoardWidth && next != board
      requires 1 <= row < BoardHeight - 1
      requires forall c :: 0 <= c < BoardWidth ==> next[row, c] == 0
      modifies next
      ensures forall c :: 0 <= c < BoardWidth ==> next[row, c] == NextCell(Cells(board), row, c)
      ensures forall r, c :: 0 <= r < BoardHeight && 0 <= c < BoardWidth && r != row ==> next[r, c] == old(next[r, c])
    {
      var width := board.Length1;
      ghost var b := Cells(board);
      assert IsBoard(b);
      for col := 1 to width - 1
        invariant forall c :: 0 <= c < BoardWidth ==> next[row, c] == if c < col then NextCell(b, row, c) else 0
        invariant forall r, c :: 0 <= r < BoardHeight && 0 <= c < BoardWidth && r != row ==> next[r, c] == old(next[r, c])
      {
        var aliveNeighbours := CountNeighbours(row, col);
        var cell := Rule(board[row, col], aliveNeighbours);
        assert cell == NextCell(b, row, col);
        next[row, col] := cell;
      }
      assert NextCell(b, row, width - 1) == 0;
    }

    /**
     * One generation computed into a freshly allocated grid; `board` is
     * only read.
     */
    method NextGeneration() returns (next: array2<int32>)
      requires board.Length0 == BoardHeight && board.Length1 == BoardWidth
      ensures fresh(next)
      ensures next.Length0 == BoardHeight && next.Length1 == BoardWidth
      ensures Cells(next) == Next(Cells(board))
    {
      next := new int32[BoardHeight, BoardWidth]((_, _) => 0);
      var height := board.Length0;
      ghost var b := Cells(board);
      assert IsBoard(b);
      for row := 1 to height - 1
        invariant forall r, c :: 0 <= r < BoardHeight && 0 <= c < BoardWidth ==>
          next[r, c] == if r < row then NextCell(b, r, c) else 0
      {
        FillRow(next, row);
      }
      CellsAreNext(next, b);
    }

    /**
     * The timer callback at time `now`: once more than the update
     * interval has passed since the last step, the board is replaced by
     * the next generation and `now` recorded.
     */
    method Tick(now: int64)
      requires Valid()
      modifies this
      ensures Valid()
      ensures Model() == TickSpec(old(Model()), now)
    {
      if Wrap64(now as int - lastUpdated as int) as int > Fps as int * 100_000_000 {
        board := NextGeneration();
        lastUpdated := now;
      }
    }
  }
}
