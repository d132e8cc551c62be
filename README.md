# Game of Life: a verified model of `Game`

This project models the Game-of-Life logic held by the Kotlin class `Game` in
`src/main/kotlin/com/example/Game.kt` and proves what that logic promises. The
rest of that class is JavaFX wiring. The model covers:

- the 40 x 40 board of `Int` cells;
- `nextGeneration`, which applies Conway's rule to the interior cells and writes
  the result into a freshly allocated grid;
- the three-cell seed placed at start-up;
- the start, stop and reset buttons;
- the mouse edit, which works only while the game is paused;
- the timer's update gate, which replaces the board once more than
  `fps * 100_000_000` ns have passed.

The model has four modules.

- `Ints` defines Kotlin's `Int` and `Long` as the newtypes `int32` and `int64`.
  `Wrap32` and `Wrap64` give the two's-complement wrap-around. The neighbour
  accumulator of `nextGeneration` is an `Int`, and the time difference in the
  tick gate is a `Long`, so both are modelled as wrapping.
- `Life` is the pure specification of one generation. It works over
  `seq<seq<int32>>`:
  - `NextCell` gives one cell of the next generation;
  - `Next` gives the whole next board;
  - the lemmas relate the count `nextGeneration` computes to an independent count
    of live Moore neighbours.
- `GameState` holds the game's state as a value, `State(board, running,
  lastUpdated)`. It has one pure function per event and lemmas about those
  functions.
- `GameApp.Game` is the class itself:
  - `board` is an `array2<int32>`, and `running` and `lastUpdated` are fields;
  - each handler is a method proved to move the object's state exactly as the
    matching `GameState` function says;
  - `NextGeneration` keeps the source's four nested loops and is proved to
    compute `Life.Next`.

The clock (`System.nanoTime()` and the timer's `currentNanoTime`) is a parameter
`now`.

Three details of the click handler that the model keeps as the code has them:

- A click sets the chosen cell to 1; it does not toggle it (`ClickIsNotToggle`).
- An out-of-range click index is ignored; nothing fails.
- The click's column bound is `board.size`, the number of rows. On the square
  40 x 40 board this is the same as the width.

## Model

| member | source | states |
|---|---|---|
| Ints.Wrap32 | src/main/kotlin/com/example/Game.kt:138-147 | An `Int` result equals the exact value whenever that value fits in 32 bits. |
| Ints.Wrap32Mod | src/main/kotlin/com/example/Game.kt:142 | Wrapping changes a value only by a multiple of 2^32. |
| Ints.Wrap32Add | src/main/kotlin/com/example/Game.kt:139-147 | Wrapping after every `+=` of the accumulator gives the same `Int` as wrapping the exact sum once. |
| Ints.Wrap64 | src/main/kotlin/com/example/Game.kt:219 | The `Long` difference `currentNanoTime - lastUpdated` equals the exact difference whenever that fits in 64 bits. |
| Life.Empty | src/main/kotlin/com/example/Game.kt:43 | A fresh `Array(BOARD_H) { IntArray(BOARD_W) }` is a 40 x 40 board whose every cell is 0. |
| Life.NextCell | src/main/kotlin/com/example/Game.kt:129-156 | A cell of the next generation is 0 or 1, and it is 0 at every cell the loops never visit. |
| Life.Next | src/main/kotlin/com/example/Game.kt:128-161 | The next generation is a 40 x 40 grid of 0s and 1s, and each of its cells is that cell's `NextCell`. |
| Life.GridExt | src/main/kotlin/com/example/Game.kt:43 | Two 40 x 40 boards with the same cells are the same board. |
| Life.MooreCount | src/main/kotlin/com/example/Game.kt:138-147 | The independent count of live cells among the eight Moore neighbours is at most 8. |
| Life.NeighbourCountIsMooreCount | src/main/kotlin/com/example/Game.kt:138-147 | On a 0/1 board, the block-sum-minus-centre count of an interior cell equals the number of live Moore neighbours and lies in 0..8. |
| Life.NextBorderDead | src/main/kotlin/com/example/Game.kt:129-135 | Every cell in row 0, row 39, column 0 or column 39 of the next generation is 0. |
| Life.NextInteriorRule | src/main/kotlin/com/example/Game.kt:149-156 | An interior result cell is 1 exactly when the cell is 1 with count 2 or 3, or the cell is 0 with count 3. Otherwise it is 0, whatever values the input holds. |
| Life.NextConwayRule | src/main/kotlin/com/example/Game.kt:138-156 | On a 0/1 board an interior cell is born on exactly 3 live Moore neighbours and survives on 2 or 3. |
| Life.QuietCellStaysDead | src/main/kotlin/com/example/Game.kt:138-156 | A cell whose whole 3 x 3 block is 0 is 0 in the next generation. |
| Life.EmptyStaysEmpty | src/main/kotlin/com/example/Game.kt:128-161 | The all-zero board steps to the all-zero board. |
| Life.BlockPrefixIsBlockSum | src/main/kotlin/com/example/Game.kt:139-144 | Adding the nine cells row by row, left to right, gives the 3 x 3 block sum. |
| GameState.SetCell | src/main/kotlin/com/example/Game.kt:193 | Assigning a cell changes that cell only, and the shape of the board stays the same. |
| GameState.Initial | src/main/kotlin/com/example/Game.kt:43-48 | A new game is a 0/1 board that is not running, with `lastUpdated` equal to the clock reading at construction. |
| GameState.Seeded | src/main/kotlin/com/example/Game.kt:86-89 | Seeding keeps the board 40 x 40. |
| GameState.TransitionsKeepInv | src/main/kotlin/com/example/Game.kt:86-89 | Seed, start, stop, reset, click and tick all keep the board a 40 x 40 grid of 0s and 1s. |
| GameState.StartIdempotent | src/main/kotlin/com/example/Game.kt:164-169 | Start leaves `running` true, changes neither the board nor `lastUpdated`, and a second start does nothing. |
| GameState.StopIdempotent | src/main/kotlin/com/example/Game.kt:170-175 | Stop leaves `running` false, changes neither the board nor `lastUpdated`, and a second stop does nothing. |
| GameState.ResetClears | src/main/kotlin/com/example/Game.kt:177-183 | Reset, from any state, sets `running` false and every cell of a 40 x 40 board to 0, and keeps `lastUpdated`. Reset twice is reset once. |
| GameState.ClickSetsOneCell | src/main/kotlin/com/example/Game.kt:185-193 | While running, or for an out-of-range index, a click changes nothing. Otherwise it sets exactly cell (r, c) to 1, and every other cell, `running` and `lastUpdated` keep their values. |
| GameState.ClickIsNotToggle | src/main/kotlin/com/example/Game.kt:192-193 | A second click on the same cell changes nothing: the edit sets the cell and does not flip it. |
| GameState.TickGate | src/main/kotlin/com/example/Game.kt:219-223 | When the wrapped `now - lastUpdated` exceeds `fps * 100_000_000`, the board becomes `Next(board)` and `lastUpdated` becomes `now`. Otherwise nothing changes. `running` is never touched. |
| GameState.TickAtSameInstantStepsOnce | src/main/kotlin/com/example/Game.kt:219-223 | A second tick with the same `now` does nothing, so a board steps at most once per instant. |
| GameState.Ticks | src/main/kotlin/com/example/Game.kt:219-223 | Any sequence of ticks keeps the board 40 x 40 and never changes `running`. |
| GameState.EmptyStaysEmptyUnderTicks | src/main/kotlin/com/example/Game.kt:219-223 | An all-zero board stays all-zero under any sequence of ticks. |
| GameState.ResetThenTicksStayEmpty | src/main/kotlin/com/example/Game.kt:177-183 | After a reset, the board stays all-zero however many ticks follow. |
| GameState.SeedIsHorizontalLine | src/main/kotlin/com/example/Game.kt:86-89 | Seeding a new game gives exactly the horizontal line in row 2, columns 1 to 3. |
| GameState.HorizontalLine | src/main/kotlin/com/example/Game.kt:86-89 | The seeded pattern: a 40 x 40 board alive exactly at row 2, columns 1 to 3. |
| GameState.VerticalLine | src/main/kotlin/com/example/Game.kt:149-156 | The blinker's other phase: a 40 x 40 board alive exactly at column 2, rows 1 to 3. |
| GameState.HorizontalNextCell | src/main/kotlin/com/example/Game.kt:138-156 | An interior cell of the horizontal line steps by Conway's rule applied to its eight neighbours' values. |
| GameState.VerticalNextCell | src/main/kotlin/com/example/Game.kt:138-156 | An interior cell of the vertical line steps by Conway's rule applied to its eight neighbours' values. |
| GameState.HorizontalCellStep | src/main/kotlin/com/example/Game.kt:149-156 | Each cell of the horizontal line's next generation is the matching cell of the vertical line. |
| GameState.VerticalCellStep | src/main/kotlin/com/example/Game.kt:149-156 | Each cell of the vertical line's next generation is the matching cell of the horizontal line. |
| GameState.BlinkerOscillates | src/main/kotlin/com/example/Game.kt:128-161 | The horizontal line steps to the vertical line (column 2, rows 1 to 3), which steps back, so two steps return the seed. |
| GameState.SeededGameBlinks | src/main/kotlin/com/example/Game.kt:219-223 | Two ticks, each past the update interval, take the seeded board to the vertical line and then back to the seed. |
| GameApp.Game.constructor | src/main/kotlin/com/example/Game.kt:43-49 | The fields start as `Initial(now)`: a fresh all-zero board, paused. |
| GameApp.Game.SeedInitialPattern | src/main/kotlin/com/example/Game.kt:86-89 | The two nested loops set cells (2, 1), (2, 2) and (2, 3) to 1 in place and change no other cell (`SeedSpec`). |
| GameApp.Game.Start | src/main/kotlin/com/example/Game.kt:164-169 | The new state is `StartSpec` of the old one, on the same board array. |
| GameApp.Game.Stop | src/main/kotlin/com/example/Game.kt:170-175 | The new state is `StopSpec` of the old one, on the same board array. |
| GameApp.Game.Reset | src/main/kotlin/com/example/Game.kt:177-183 | `board` is a newly allocated array, and the new state is `ResetSpec` of the old one. |
| GameApp.Game.Click | src/main/kotlin/com/example/Game.kt:185-193 | The in-place edit yields `ClickSpec` of the old state, and the board stays 0/1. |
| GameApp.Game.CountNeighbours | src/main/kotlin/com/example/Game.kt:138-147 | The `Int` accumulator loops return exactly the specification's `NeighbourCount`, wrap-around included. |
| GameApp.Game.FillRow | src/main/kotlin/com/example/Game.kt:135-157 | The column loop writes `NextCell` into every cell of one row of `next` and leaves the other rows unchanged. |
| GameApp.Game.NextGeneration | src/main/kotlin/com/example/Game.kt:128-161 | It returns a freshly allocated 40 x 40 array holding `Next` of the board. It has no `modifies` clause, so `board` is only read. |
| GameApp.Game.Tick | src/main/kotlin/com/example/Game.kt:219-223 | The new state is `TickSpec(old state, now)`, and the board stays 0/1. |

## Left out

- The JavaFX user interface is not modelled. This covers the stage, scene, buttons, canvas drawing (`drawBoard`, `clearRect`), `loadGraphics` and the `AnimationTimer` plumbing. These are toolkit calls and do not affect the state.
- The timer's `start()` and `stop()` calls in the start, stop and reset handlers are left out. The model's `Tick` is the callback the timer would invoke, so its contract does not depend on `running`.
- The conversion of pixel coordinates to cell indices is not modelled: the `Rectangle.contains` hit test and `floor((x - startX) / cellSize)`. These are floating point and a foreign class. `Click` starts from the integer indices.
- `randomize` is not modelled. It uses `kotlin.random.Random(500)`, a library generator, and its call site is commented out. Note that `nextInt() % 2` can be -1, which would break the 0/1 invariant `Inv`.
- Logging and dead fields are left out: the `println` calls, `lastFrameTime`/`elapsedNanos`, the commented-out fps counter, `currentlyActiveKeys` and `space`. None of them touches the board.
- The board is fixed at 40 x 40 (`IsBoard`), because the code never builds a board of another size. `nextGeneration`'s `height` and `width` are read from the array as in the code.
- A 2 x 2 still life is not proved. The oscillating pattern proved is the blinker that the game itself seeds.
