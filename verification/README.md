# Mine Sweeper board engine in Dafny

A model of the game logic inside the Swing window class `MineSweeper`: a
`rows x columns` grid of buttons, a hidden mine layout, the eight-direction
neighbour table, the adjacent-mine count, the recursive reveal (`expose`) and the
left-click dispatcher (`clickButton`).

The Swing buttons only serve as storage for one boolean per cell: a disabled
button is a revealed cell. The model therefore describes a board as an immutable
value:

- `Grid` — cells as `(row, column)` pairs, the displacement tables `I`/`J`
  (`RowOffsets`/`ColumnOffsets`), the in-range neighbours of a cell, and the
  size of the board.
- `Mines` — `Layout(rows, columns, mines)` (the `minesMatrix`), the derived
  adjacent-mine count, the game's counting loop, and rejection sampling of
  the layout with the random source as a sequence of draws.
- `Reveal` — `Board(layout, revealed)` and the flood fill `Expose` with its
  neighbour loop `ExposeFrom`. Termination is by the set of still-unrevealed
  in-range cells, which shrinks strictly on every reveal. The proved
  properties are: the fill never un-reveals a cell and never reveals a mine
  other than the clicked cell; it never stops at the edge of a blank area;
  and every cell it reveals is reached through blank cells. Together these
  show it reveals exactly the blank region plus its numbered border.
- `Game` — `initGame` (one fresh layout, nothing revealed), `clickButton`,
  and sequences of clicks.
- `Scenario` — a concrete 5 x 5 board.

Randomness (`java.util.Random`) is the parameter `draws` of `GenerateMines` and
`InitGame`: the sequence of `(nextInt(rows), nextInt(columns))` pairs the game
would draw, each within the board.

Behaviour of the code that differs from the usual rules of the game, modelled as
the code has it:

- Clicking a mine only colours the mine buttons and shows a dialog. No cell is
  revealed, and the board stays clickable. There is no won or lost state.
- `expose` never checks for a mine itself. It reaches only neighbours of blank
  cells, and those are never mined.
- A right-click flag is only an icon on the button. A flagged cell can still
  be clicked and exposed.
- `initGame` calls `generateMines` once per cell while it builds the buttons.
  Each call replaces `minesMatrix`, so only the last layout survives. The final
  state has the same form as after a single call, so `InitGame` makes one call.

## Model

| member | source | states |
|---|---|---|
| Grid.OffsetsAreTheEightDirections | MineSweeper/src/main/MineSweeper.java:24-25 | the two tables have eight entries; each displacement has components in {-1, 0, 1} and is not (0, 0); no two are equal; `DirectionOf` inverts the table |
| Grid.NeighboursAreAdjacentCells | MineSweeper/src/main/MineSweeper.java:233-243 | the cells the scan visits from `c` are exactly the in-range cells `d != c` whose row and column each differ from `c`'s by at most one |
| Grid.NeighboursAtMostEight | MineSweeper/src/main/MineSweeper.java:233-243 | a cell has at most eight in-range neighbours |
| Grid.CellsSize | MineSweeper/src/main/MineSweeper.java:106-114 | the board built by `initGame` has exactly `rows * columns` cells |
| Mines.AdjacentMinesBounds | MineSweeper/src/main/MineSweeper.java:228-250 | the adjacent-mine count is at most 8, and a cell is never counted as its own neighbour |
| Mines.ZeroCountMeansSafeNeighbours | MineSweeper/src/main/MineSweeper.java:228-250 | a cell whose count is 0 has no mined in-range neighbour |
| Mines.MinedUpToCountsNeighbours | MineSweeper/src/main/MineSweeper.java:233-248 | counting one displacement at a time gives the size of the set of mined neighbours reached, so no neighbour is counted twice |
| Mines.CountMines | MineSweeper/src/main/MineSweeper.java:228-250 | the table-driven loop, skipping out-of-range steps, returns the number of mined cells among the in-range neighbours, which lies in 0..8 |
| Mines.GenerateMines | MineSweeper/src/main/MineSweeper.java:147-166 | rejection sampling produces the distinct cells of the draws it consumed, all in range. It places `min(rows*columns/6, distinct cells drawn)` mines, so exactly `rows*columns/6` when the draws allow. It stops at the first draw that meets the target |
| Mines.RejectionCanProgress | MineSweeper/src/main/MineSweeper.java:151-165 | while fewer than `rows*columns/6` mines are placed, some in-range cell is still free, so the sampling loop is never stuck |
| Reveal.Expose | MineSweeper/src/main/MineSweeper.java:197-226 | only the revealed set changes, and it only grows. The new cells are in-range cells that were unrevealed. `c` ends revealed. Exposing a revealed cell is a no-op. No mine other than `c` is revealed |
| Reveal.ExposeFrom | MineSweeper/src/main/MineSweeper.java:205-225 | the neighbour loop of a blank cell changes only the revealed set, only grows it, only by cells on the board, and reveals no mine |
| Reveal.ExposeFromCoversNeighbours | MineSweeper/src/main/MineSweeper.java:211-224 | after the neighbour loop of a blank cell, every in-range neighbour from table position `k` on is revealed |
| Reveal.ExposeClosed | MineSweeper/src/main/MineSweeper.java:205-225 | every blank cell that `expose` reveals has all of its in-range neighbours revealed afterwards |
| Reveal.ExposeFromClosed | MineSweeper/src/main/MineSweeper.java:211-224 | the neighbour loop keeps that closure property |
| Reveal.ExposeReaches | MineSweeper/src/main/MineSweeper.java:202-225 | every cell `expose` reveals is reached from `c` by a path of neighbouring cells that were unrevealed, every one but the last blank |
| Reveal.ExposeFromReaches | MineSweeper/src/main/MineSweeper.java:211-224 | every cell the neighbour loop reveals is reached that way from one of the in-range neighbours it visits |
| Reveal.ExposeRevealsExactlyTheRegion | MineSweeper/src/main/MineSweeper.java:197-226 | exposing an unrevealed cell reveals a cell if and only if that cell is reached from it by such a path |
| Game.InitGame | MineSweeper/src/main/MineSweeper.java:105-166 | a new game has the chosen size, exactly `rows*columns/6` mines, all in range and drawn from the random source, and nothing revealed |
| Game.Click | MineSweeper/src/main/MineSweeper.java:183-189 | game over exactly when the cell is mined, and then the board is unchanged. Otherwise the cell ends revealed. No click reveals a mine or un-reveals a cell, and a well-formed board stays well-formed |
| Game.ClickTwice | MineSweeper/src/main/MineSweeper.java:183-200 | clicking a cell a second time changes nothing |
| Game.Play | MineSweeper/src/main/MineSweeper.java:120-189 | over any sequence of clicks the layout is fixed, reveal is monotonic, every clicked safe cell ends revealed, and a board with no mine revealed keeps none revealed |
| Game.NewGameThenPlay | MineSweeper/src/main/MineSweeper.java:105-189 | however a new game is played, it has exactly `rows*columns/6` mines, none of them is ever revealed, and every clicked safe cell is revealed |
| Scenario.SmallLayoutIsValid | MineSweeper/src/main/MineSweeper.java:149-151 | a 5 x 5 board with mines at (0,0), (0,1), (4,3), (4,4) is a valid layout with the target of 4 mines |
| Scenario.SmallLayoutCount | MineSweeper/src/main/MineSweeper.java:228-250 | on that board cell (1,1) counts 2 adjacent mines |
| Scenario.SmallBoardClicks | MineSweeper/src/main/MineSweeper.java:183-226 | on that board clicking (1,1) reveals only (1,1), and clicking the mine (0,0) ends the game with nothing revealed |

## Left out

- Window, menu, HUD panel, layout and `revalidate` (MineSweeper.java:32-103, 106-142): no game logic.
- Icon loading and scaling (MineSweeper.java:75-89): file I/O and a library call.
- `gameOver`'s dialog and face icon, and `showMines`' red backgrounds (MineSweeper.java:168-181, 191-195): rendering only. They change no revealed state, and the model's `gameOver` flag stands for them.
- The number written on a revealed cell (`setText`, MineSweeper.java:206): rendering. It is `AdjacentMines` of the cell, shown only when non-zero.
- The right-click flag icon and the pressed/released face animation (MineSweeper.java:121-140): UI state kept in button icons that `clickButton` never reads.
- The distribution of `java.util.Random`: sampling is the sequence `draws`. Uniformity is not modelled.
- Game.InitGame: requires the random source to supply at least `rows*columns/6` distinct cells. The game's loop keeps drawing until it has them, which happens with probability one but is not a bound that can be proved. `GenerateMines` itself covers a short source.
- Game.InitGame: performs one mine generation instead of the code's one per cell. Only the last generation's layout survives, and it has the same properties.
- Game.InitGame: requires positive dimensions. The menu and reset button only ever pass 5 x 5, 10 x 10 or the current size.
- Coordinates outside the board: the code would throw `ArrayIndexOutOfBoundsException`. `Expose` and `Click` require in-range cells, as every caller in the code supplies.
- Java `int` overflow: not modelled. The largest product is `10 * 10`.
