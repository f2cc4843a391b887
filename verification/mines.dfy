/**
 The hidden part of a board: its dimensions and where the mines are. The mine
 layout is chosen once per game by rejection sampling and never changes while
 the game is played; the number shown on a cell is derived from it.
 */
module Mines {
  import opened Grid

  /** The dimensions of the board and its set of mined cells (`minesMatrix`). */
  datatype Layout = Layout(rows: int, columns: int, mines: set<Cell>) {

    predicate Valid() {
      rows > 0 && columns > 0 && mines <= Cells(rows, columns)
    }

    predicate InBounds(c: Cell) {
      InRange(rows, columns, c)
    }
  }

  /** How many mines a rows x columns board receives: one for every six cells, rounded
      down (both operands are non-negative, so this is Java's integer division). */
  function MineTarget(rows: nat, columns: nat): nat {
    rows * columns / 6
  }

  /** The number of mines among the in-range neighbours of `c`: the figure the game
      writes on a revealed cell. */
  function AdjacentMines(layout: Layout, c: Cell): nat {
    |Neighbours(layout.rows, layout.columns, c) * layout.mines|
  }

  /** The count is at most eight and never includes `c` itself, mined or not. */
  lemma AdjacentMinesBounds(layout: Layout, c: Cell)
    ensures AdjacentMines(layout, c) <= 8
    ensures c !in Neighbours(layout.rows, layout.columns, c)
  {
    NeighboursAtMostEight(layout.rows, layout.columns, c);
    NeighboursAreAdjacentCells(layout.rows, layout.columns, c, c);
    SubsetSize(Neighbours(layout.rows, layout.columns, c) * layout.mines, Neighbours(layout.rows, layout.columns, c));
  }

  /** A cell that shows no number has no mine around it. */
  lemma ZeroCountMeansSafeNeighbours(layout: Layout, c: Cell, d: Cell)
    requires AdjacentMines(layout, c) == 0
    requires d in Neighbours(layout.rows, layout.columns, c)
    ensures d !in layout.mines
  {
    var mined := Neighbours(layout.rows, layout.columns, c) * layout.mines;
    assert mined == {};
    assert d !in mined;
  }

  /** The number of mined in-range cells reached by the first `k` displacements, counted
      one displacement at a time. */
  function MinedUpTo(layout: Layout, c: Cell, k: int): (count: nat)
    requires 0 <= k <= Directions
    ensures count <= k
  {
    if k == 0 then 0
    else
      var d := Step(c, k - 1);
      MinedUpTo(layout, c, k - 1) + (if layout.InBounds(d) && d in layout.mines then 1 else 0)
  }

  /** Scanning one more displacement adds its cell to the mined neighbours exactly when
      that cell is in range and mined; the cell was not among them before. */
  lemma MinedNeighboursStep(layout: Layout, c: Cell, k: int)
    requires 0 < k <= Directions
    ensures Step(c, k - 1) !in NeighboursUpTo(layout.rows, layout.columns, c, k - 1) * layout.mines
    ensures NeighboursUpTo(layout.rows, layout.columns, c, k) * layout.mines ==
      if layout.InBounds(Step(c, k - 1)) && Step(c, k - 1) in layout.mines
      then NeighboursUpTo(layout.rows, layout.columns, c, k - 1) * layout.mines + {Step(c, k - 1)}
      else NeighboursUpTo(layout.rows, layout.columns, c, k - 1) * layout.mines
  {
    NeighboursUpToStep(layout.rows, layout.columns, c, k);
  }

  lemma GrowsByOne<T>(before: set<T>, after: set<T>, x: T, add: bool)
    requires x !in before
    requires after == if add then before + {x} else before
    ensures |after| == |before| + (if add then 1 else 0)
  {
  }

  /** Counting displacement by displacement gives the size of the set of mined neighbours
      reached: no neighbour is counted twice. */
  lemma {:induction false} MinedUpToCountsNeighbours(layout: Layout, c: Cell, k: int)
    requires 0 <= k <= Directions
    ensures MinedUpTo(layout, c, k) == |NeighboursUpTo(layout.rows, layout.columns, c, k) * layout.mines|
  {
    if k == 0 {
      NeighboursUpToZero(layout.rows, layout.columns, c);
    } else {
      MinedUpToCountsNeighbours(layout, c, k - 1);
      MinedNeighboursStep(layout, c, k);
      var d := Step(c, k - 1);
      GrowsByOne(NeighboursUpTo(layout.rows, layout.columns, c, k - 1) * layout.mines,
                 NeighboursUpTo(layout.rows, layout.columns, c, k) * layout.mines,
                 d, layout.InBounds(d) && d in layout.mines);
    }
  }

  /** The game's neighbour scan: walk the displacement table, skip steps that leave the
      board, and count the mined cells reached. */
  method CountMines(layout: Layout, c: Cell) returns (count: int)
    ensures count == AdjacentMines(layout, c)
    ensures 0 <= count <= 8
  {
    count := 0;
    var k := 0;
    while k < Directions
      invariant 0 <= k <= Directions
      invariant count == MinedUpTo(layout, c, k)
    {
      var newI := c.0 + RowOffsets[k];
      var newJ := c.1 + ColumnOffsets[k];
      if newI < 0 || newI >= layout.rows {
        k := k + 1;
        continue;
      }
      if newJ < 0 || newJ >= layout.columns {
        k := k + 1;
        continue;
      }
      if (newI, newJ) in layout.mines {
        count := count + 1;
      }
      k := k + 1;
    }
    MinedUpToCountsNeighbours(layout, c, Directions);
  }

  function Min(a: int, b: int): int {
    if a <= b then a else b
  }

  /** The cells occurring in a sequence of draws. */
  function Elems(s: seq<Cell>): set<Cell> {
    set x | x in s
  }

  /** Taking one more draw adds that draw's cell. */
  lemma ElemsTakeOneMore(s: seq<Cell>, n: nat)
    requires n < |s|
    ensures Elems(s[..n + 1]) == Elems(s[..n]) + {s[n]}
  {
    assert s[..n + 1] == s[..n] + [s[n]];
  }

  lemma ElemsPrefix(s: seq<Cell>, n: nat)
    requires n <= |s|
    ensures Elems(s[..n]) <= Elems(s)
  {
    forall x | x in Elems(s[..n]) ensures x in Elems(s) {
      var m :| 0 <= m < n && s[..n][m] == x;
      assert s[m] == x;
    }
  }

  lemma SubsetSize<T>(a: set<T>, b: set<T>)
    requires a <= b
    ensures |a| <= |b|
  {
    assert b == a + (b - a);
  }

  /** When sampling stops, either the target is met or every draw is used; either way
      the layout has as many mines as the target and the distinct draws allow. */
  lemma SamplingStopped(draws: seq<Cell>, used: nat, mines: set<Cell>, target: nat)
    requires used <= |draws|
    requires mines == Elems(draws[..used])
    requires |mines| == target || (used == |draws| && |mines| < target)
    ensures |mines| == Min(target, |Elems(draws)|)
  {
    ElemsPrefix(draws, used);
    SubsetSize(mines, Elems(draws));
    if used == |draws| {
      assert draws[..used] == draws;
    }
  }

  /** Rejection sampling of the mine layout. The random source is the sequence `draws`
      of (row, column) pairs, each within the board as `nextInt` guarantees. A draw that
      hits a cell already mined is discarded; sampling stops as soon as the target is
      met. `used` is how many draws were consumed. If the sequence runs out first, the
      result holds every distinct drawn cell (the game would keep drawing). */
  method GenerateMines(rows: nat, columns: nat, draws: seq<Cell>) returns (mines: set<Cell>, used: nat)
    requires forall n :: 0 <= n < |draws| ==> InRange(rows, columns, draws[n])
    ensures used <= |draws|
    ensures mines == Elems(draws[..used])
    ensures mines <= Cells(rows, columns)
    ensures |mines| == Min(MineTarget(rows, columns), |Elems(draws)|)
    ensures used > 0 ==> |Elems(draws[..used - 1])| < MineTarget(rows, columns)
  {
    var target := MineTarget(rows, columns);
    mines := {};
    var count := 0;
    used := 0;
    while count < target && used < |draws|
      invariant used <= |draws|
      invariant count == |mines| <= target
      invariant mines == Elems(draws[..used])
      invariant mines <= Cells(rows, columns)
      invariant used > 0 ==> |Elems(draws[..used - 1])| < target
    {
      var drawn := draws[used];
      ElemsTakeOneMore(draws, used);
      InRangeIsCell(rows, columns, drawn);
      if drawn !in mines {
        mines := mines + {drawn};
        count := count + 1;
      }
      used := used + 1;
    }
    SamplingStopped(draws, used, mines, target);
  }

  /** While fewer than the target number of mines are placed, some in-range cell is still
      free, so each round of rejection sampling can succeed: the sampling loop is never
      stuck on a full board. */
  lemma RejectionCanProgress(rows: nat, columns: nat, mines: set<Cell>) returns (free: Cell)
    requires mines <= Cells(rows, columns)
    requires |mines| < MineTarget(rows, columns)
    ensures InRange(rows, columns, free) && free !in mines
  {
    CellsSize(rows, columns);
    assert |Cells(rows, columns) - mines| > 0;
    free :| free in Cells(rows, columns) - mines;
    InRangeIsCell(rows, columns, free);
  }
}
