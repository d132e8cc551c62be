/**
 * The pure specification of one Game-of-Life generation step on the
 * game's fixed 40 x 40 board of Kotlin `Int` cells, following
 * `Game.nextGeneration`: only interior cells are evaluated, the count of
 * live neighbours is the 3 x 3 block sum minus the centre (accumulated in
 * a 32-bit `Int`), and the border of the fresh grid stays 0.
 */
module Life {
  import opened Ints

  const BoardWidth: nat := 40
  const BoardHeight: nat := 40

  /** A board as the rows of cells it holds, indexed `[row][col]`. */
  type Grid = seq<seq<int32>>

  /** The fixed BoardHeight x BoardWidth shape every board of the game has. */
  predicate IsBoard(b: Grid) {
    |b| == BoardHeight && forall r :: 0 <= r < |b| ==> |b[r]| == BoardWidth
  }

  /** Every cell holds 0 (dead) or 1 (alive). */
  predicate IsBinary(b: Grid) {
    forall r, c :: 0 <= r < |b| && 0 <= c < |b[r]| ==> b[r][c] == 0 || b[r][c] == 1
  }

  /** The cells the update loop visits: rows 1 .. height-2 and columns 1 .. width-2. */
  predicate IsInterior(b: Grid, r: int, c: int)
    requires |b| > 0
  {
    1 <= r < |b| - 1 && 1 <= c < |b[0]| - 1
  }

  /** The all-zero board a fresh `Array(BOARD_H) { IntArray(BOARD_W) }` holds. */
  function Empty(): (b: Grid)
    ensures IsBoard(b) && IsBinary(b)
    ensures forall r, c :: 0 <= r < BoardHeight && 0 <= c < BoardWidth ==> b[r][c] == 0
  {
    seq(BoardHeight, r => seq(BoardWidth, c => 0))
  }

  /** Sum of the 3 x 3 block centred on (r, c), in the order the loops visit it. */
  function BlockSum(b: Grid, r: int, c: int): int
    requires IsBoard(b) && IsInterior(b, r, c)
  {
    b[r - 1][c - 1] as int + b[r - 1][c] as int + b[r - 1][c + 1] as int +
    b[r][c - 1] as int + b[r][c] as int + b[r][c + 1] as int +
    b[r + 1][c - 1] as int + b[r + 1][c] as int + b[r + 1][c + 1] as int
  }

  /**
   * The `aliveNeighbours` value of cell (r, c): the 3 x 3 block sum minus
   * the centre, as a 32-bit `Int`.
   */
  function NeighbourCount(b: Grid, r: int, c: int): int32
    requires IsBoard(b) && IsInterior(b, r, c)
  {
    Wrap32(BlockSum(b, r, c) - b[r][c] as int)
  }

  /** Conway's rule exactly as the `when` expression of `nextGeneration` states it. */
  function Rule(cell: int32, alive: int32): int32 {
    if cell == 1 && (alive == 2 || alive == 3) then 1
    else if cell == 0 && alive == 3 then 1
    else 0
  }

  /** Cell (r, c) of the next generation; cells the loops never visit keep 0. */
  function NextCell(b: Grid, r: int, c: int): (v: int32)
    requires IsBoard(b)
    ensures v == 0 || v == 1
    ensures !IsInterior(b, r, c) ==> v == 0
  {
    if IsInterior(b, r, c) then Rule(b[r][c], NeighbourCount(b, r, c)) else 0
  }

  /** The next generation: a fresh BoardHeight x BoardWidth grid of 0s and 1s. */
  function Next(b: Grid): (nb: Grid)
    requires IsBoard(b)
    ensures IsBoard(nb) && IsBinary(nb)
    ensures forall r, c :: 0 <= r < BoardHeight && 0 <= c < BoardWidth ==> nb[r][c] == NextCell(b, r, c)
  {
    seq(BoardHeight, r => seq(BoardWidth, c => NextCell(b, r, c)))
  }

  /** Two boards of the same shape with the same cells are equal. */
  lemma {:induction false} GridExt(g: Grid, h: Grid)
    requires IsBoard(g) && IsBoard(h)
    requires forall r, c :: 0 <= r < BoardHeight && 0 <= c < BoardWidth ==> g[r][c] == h[r][c]
    ensures g == h
  {
    forall r | 0 <= r < BoardHeight
      ensures g[r] == h[r]
    {
      assert forall c :: 0 <= c < BoardWidth ==> g[r][c] == h[r][c];
    }
  }

  // ---------------------------------------------------------------------
  // The neighbour count, against an independent definition

  /** 1 when (r, c) is on the board and holds 1, otherwise 0. */
  function AliveAt(b: Grid, r: int, c: int): nat {
    if 0 <= r < |b| && 0 <= c < |b[r]| && b[r][c] == 1 then 1 else 0
  }

  /** How many of the eight Moore neighbours of (r, c) are alive. */
  function MooreCount(b: Grid, r: int, c: int): (n: nat)
    ensures n <= 8
  {
    AliveAt(b, r - 1, c - 1) + AliveAt(b, r - 1, c) + AliveAt(b, r - 1, c + 1) +
    AliveAt(b, r, c - 1) + AliveAt(b, r, c + 1) +
    AliveAt(b, r + 1, c - 1) + AliveAt(b, r + 1, c) + AliveAt(b, r + 1, c + 1)
  }

  /**
   * On a 0/1 board the count `nextGeneration` computes for an interior
   * cell is the number of live cells among its eight Moore neighbours,
   * hence between 0 and 8, and the 32-bit accumulator never wraps.
   */
  lemma {:induction false} NeighbourCountIsMooreCount(b: Grid, r: int, c: int)
    requires IsBoard(b) && IsBinary(b) && IsInterior(b, r, c)
    ensures NeighbourCount(b, r, c) as int == MooreCount(b, r, c)
    ensures 0 <= NeighbourCount(b, r, c) <= 8
  {
  }

  // ---------------------------------------------------------------------
  // Properties of one step

  /** Every border cell of the next generation is 0. */
  lemma NextBorderDead(b: Grid, r: int, c: int)
    requires IsBoard(b)
    requires 0 <= r < BoardHeight && 0 <= c < BoardWidth
    requires r == 0 || r == BoardHeight - 1 || c == 0 || c == BoardWidth - 1
    ensures Next(b)[r][c] == 0
  {
  }

  /**
   * An interior cell of the next generation is 1 exactly when it is alive
   * with 2 or 3 live neighbours or dead with 3, and 0 otherwise, whatever
   * values the input holds.
   */
  lemma NextInteriorRule(b: Grid, r: int, c: int)
    requires IsBoard(b) && IsInterior(b, r, c)
    ensures var n := NeighbourCount(b, r, c);
      Next(b)[r][c] == 1 <==> (b[r][c] == 1 && (n == 2 || n == 3)) || (b[r][c] == 0 && n == 3)
    ensures Next(b)[r][c] == 0 || Next(b)[r][c] == 1
  {
  }

  /**
   * On a 0/1 board, the same rule read with the count of live Moore
   * neighbours: birth on exactly 3, survival on 2 or 3.
   */
  lemma {:induction false} NextConwayRule(b: Grid, r: int, c: int)
    requires IsBoard(b) && IsBinary(b) && IsInterior(b, r, c)
    ensures var n := MooreCount(b, r, c);
      Next(b)[r][c] == (if n == 3 || (b[r][c] == 1 && n == 2) then 1 else 0)
  {
    NeighbourCountIsMooreCount(b, r, c);
  }

  /** A cell whose 3 x 3 block is all 0 is 0 in the next generation. */
  lemma {:induction false} QuietCellStaysDead(b: Grid, r: int, c: int)
    requires IsBoard(b) && 0 <= r < BoardHeight && 0 <= c < BoardWidth
    requires forall i, j :: r - 1 <= i <= r + 1 && c - 1 <= j <= c + 1 && 0 <= i < BoardHeight && 0 <= j < BoardWidth ==> b[i][j] == 0
    ensures NextCell(b, r, c) == 0
  {
  }

  /** The all-zero board steps to the all-zero board. */
  lemma {:induction false} EmptyStaysEmpty()
    ensures Next(Empty()) == Empty()
  {
    var e := Empty();
    forall r, c | 0 <= r < BoardHeight && 0 <= c < BoardWidth
      ensures Next(e)[r][c] == e[r][c]
    {
      QuietCellStaysDead(e, r, c);
    }
    GridExt(Next(e), e);
  }

  // ---------------------------------------------------------------------
  // The block sum as the nested loops accumulate it

  /** Sum of the first `n` cells of row `row`, starting at column `c - 1`, left to right. */
  function RowPrefix(b: Grid, row: int, c: int, n: nat): int
    requires IsBoard(b) && 0 <= row < |b| && 1 <= c && c - 1 + n <= BoardWidth
  {
    if n == 0 then 0 else RowPrefix(b, row, c, n - 1) + b[row][c - 1 + n - 1] as int
  }

  /** Sum of the first `m` rows, from row `r - 1` down, of the 3-wide strip around column `c`. */
  function BlockPrefix(b: Grid, r: int, c: int, m: nat): int
    requires IsBoard(b) && IsInterior(b, r, c) && m <= 3
  {
    if m == 0 then 0 else BlockPrefix(b, r, c, m - 1) + RowPrefix(b, r - 1 + m - 1, c, 3)
  }

  /** Accumulating the three rows of three cells one by one yields the block sum. */
  lemma {:induction false} BlockPrefixIsBlockSum(b: Grid, r: int, c: int)
    requires IsBoard(b) && IsInterior(b, r, c)
    ensures BlockPrefix(b, r, c, 3) == BlockSum(b, r, c)
  {
    RowPrefixThree(b, r - 1, c);
    RowPrefixThree(b, r, c);
    RowPrefixThree(b, r + 1, c);
    assert BlockPrefix(b, r, c, 1) == RowPrefix(b, r - 1, c, 3);
    assert BlockPrefix(b, r, c, 2) == RowPrefix(b, r - 1, c, 3) + RowPrefix(b, r, c, 3);
  }

  lemma {:induction false} RowPrefixThree(b: Grid, row: int, c: int)
    requires IsBoard(b) && 0 <= row < |b| && 1 <= c && c + 2 <= BoardWidth
    ensures RowPrefix(b, row, c, 3) == b[row][c - 1] as int + b[row][c] as int + b[row][c + 1] as int
  {
    assert RowPrefix(b, row, c, 1) == b[row][c - 1] as int;
    assert RowPrefix(b, row, c, 2) == b[row][c - 1] as int + b[row][c] as int;
  }
}
