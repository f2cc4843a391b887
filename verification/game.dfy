/**
 The game as the window drives it: a new game builds an all-unrevealed board of the
 chosen size with a fresh mine layout, and a left click on a cell either ends the
 game (a mine) or exposes the cell. The game has no won or lost state: after a
 mine is clicked the board is left as it was and stays clickable.
 */
module Game {
  import opened Grid
  import opened Mines
  import opened Reveal

  /** What a click produces: the next board, and whether the game-over dialog is shown. */
  datatype ClickResult = ClickResult(board: Board, gameOver: bool)

  /** `initGame(rows, columns)`: every button enabled (nothing revealed) and one mine
      layout drawn from `draws`. The random source is assumed to produce at least the
      target number of distinct cells, which it does with probability one. */
  method InitGame(rows: int, columns: int, draws: seq<Cell>) returns (b: Board)
    requires rows > 0 && columns > 0
    requires forall n :: 0 <= n < |draws| ==> InRange(rows, columns, draws[n])
    requires |Elems(draws)| >= MineTarget(rows, columns)
    ensures b.Valid() && b.MinesHidden()
    ensures b.layout.rows == rows && b.layout.columns == columns
    ensures |b.layout.mines| == MineTarget(rows, columns)
    ensures b.layout.mines <= Elems(draws)
    ensures b.revealed == {}
  {
    var mines, used := GenerateMines(rows, columns, draws);
    ElemsPrefix(draws, used);
    b := Board(Layout(rows, columns, mines), {});
  }

  /** `clickButton(i, j)`: a mined cell ends the game and reveals nothing; any other cell
      is exposed, which reveals it and never a mine. */
  function Click(b: Board, c: Cell): (o: ClickResult)
    requires b.layout.InBounds(c)
    ensures o.board.layout == b.layout
    ensures o.gameOver <==> c in b.layout.mines
    ensures o.gameOver ==> o.board == b
    ensures !o.gameOver ==> c in o.board.revealed
    ensures b.revealed <= o.board.revealed
    ensures (o.board.revealed - b.revealed) * b.layout.mines == {}
    ensures b.Valid() ==> o.board.Valid()
  {
    if c in b.layout.mines then ClickResult(b, true)
    else
      InRangeIsCell(b.layout.rows, b.layout.columns, c);
      ClickResult(Expose(b, c), false)
  }

  /** Clicking the same cell again changes nothing more. */
  lemma ClickTwice(b: Board, c: Cell)
    requires b.layout.InBounds(c)
    ensures Click(Click(b, c).board, c) == ClickResult(Click(b, c).board, c in b.layout.mines)
  {
  }

  /** A sequence of left clicks, each within the board. */
  function Play(b: Board, clicks: seq<Cell>): (r: Board)
    requires forall n :: 0 <= n < |clicks| ==> b.layout.InBounds(clicks[n])
    ensures r.layout == b.layout
    ensures b.revealed <= r.revealed
    ensures forall n :: 0 <= n < |clicks| && clicks[n] !in b.layout.mines ==> clicks[n] in r.revealed
    ensures b.Valid() ==> r.Valid()
    ensures b.MinesHidden() ==> r.MinesHidden()
    decreases |clicks|
  {
    if clicks == [] then b
    else Play(Click(b, clicks[0]).board, clicks[1..])
  }

  /** However a new game is played, no mine is ever revealed and every clicked safe cell
      ends revealed. */
  method NewGameThenPlay(rows: int, columns: int, draws: seq<Cell>, clicks: seq<Cell>) returns (b: Board)
    requires rows > 0 && columns > 0
    requires forall n :: 0 <= n < |draws| ==> InRange(rows, columns, draws[n])
    requires |Elems(draws)| >= MineTarget(rows, columns)
    requires forall n :: 0 <= n < |clicks| ==> InRange(rows, columns, clicks[n])
    ensures b.Valid() && b.MinesHidden()
    ensures |b.layout.mines| == MineTarget(rows, columns)
    ensures forall n :: 0 <= n < |clicks| && clicks[n] !in b.layout.mines ==> clicks[n] in b.revealed
  {
    var start := InitGame(rows, columns, draws);
    b := Play(start, clicks);
  }
}
