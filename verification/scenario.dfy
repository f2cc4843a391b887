/**
 A worked 5 x 5 game with mines at (0,0), (0,1), (4,3) and (4,4).
 */
module Scenario {
  import opened Grid
  import opened Mines
  import opened Reveal
  import opened Game

  function SmallLayout(): Layout {
    Layout(5, 5, {(0, 0), (0, 1), (4, 3), (4, 4)})
  }

  /** The layout holds 25 / 6 = 4 mines, all on the board. */
  lemma SmallLayoutIsValid()
    ensures SmallLayout().Valid()
    ensures |SmallLayout().mines| == MineTarget(5, 5)
  {
    forall m | m in SmallLayout().mines ensures m in Cells(5, 5) {
      InRangeIsCell(5, 5, m);
    }
  }

  /** Cell (1,1) touches the two mines of the top row and no other. */
  lemma SmallLayoutCount()
    ensures AdjacentMines(SmallLayout(), (1, 1)) == 2
  {
    var l := SmallLayout();
    NeighboursAreAdjacentCells(5, 5, (1, 1), (0, 0));
    NeighboursAreAdjacentCells(5, 5, (1, 1), (0, 1));
    NeighboursAreAdjacentCells(5, 5, (1, 1), (4, 3));
    NeighboursAreAdjacentCells(5, 5, (1, 1), (4, 4));
    var around := Neighbours(5, 5, (1, 1)) * l.mines;
    assert around == {(0, 0), (0, 1)};
  }

  /** Clicking (1,1) reveals only (1,1), which shows a number; clicking the mine at
      (0,0) shows the game-over dialog and reveals nothing. */
  lemma SmallBoardClicks()
    ensures Click(Board(SmallLayout(), {}), (1, 1)) == ClickResult(Board(SmallLayout(), {(1, 1)}), false)
    ensures Click(Board(SmallLayout(), {}), (0, 0)) == ClickResult(Board(SmallLayout(), {}), true)
  {
    SmallLayoutCount();
  }
}
