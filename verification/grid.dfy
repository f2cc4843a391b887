/**
 The geometry of a Mine Sweeper board: cells are (row, column) pairs, the board
 is a rows x columns rectangle, and every cell has up to eight neighbours reached
 through a fixed table of displacements (the `I`/`J` arrays of the game).
 */
module Grid {

  /** A board coordinate: (row, column). */
  type Cell = (int, int)

  /** Row displacements of the eight neighbours, in the order the game scans them. */
  const RowOffsets: seq<int> := [-1, -1, 0, 1, 1, 1, 0, -1]

  /** Column displacements of the eight neighbours, paired index by index with `RowOffsets`. */
  const ColumnOffsets: seq<int> := [0, 1, 1, 1, 0, -1, -1, -1]

  /** The number of entries in the displacement tables (`I.length`). */
  const Directions: nat := 8

  predicate InRange(rows: int, columns: int, c: Cell) {
    0 <= c.0 < rows && 0 <= c.1 < columns
  }

  /** Every cell of a rows x columns board. */
  function Cells(rows: int, columns: int): set<Cell> {
    set i, j | 0 <= i < rows && 0 <= j < columns :: (i, j)
  }

  lemma InRangeIsCell(rows: int, columns: int, c: Cell)
    ensures c in Cells(rows, columns) <==> InRange(rows, columns, c)
  {
    if InRange(rows, columns, c) {
      assert (c.0, c.1) == c;
    }
  }

  /** The k-th displacement of the tables, as a pair. */
  function Offset(k: int): (int, int)
    requires 0 <= k < Directions
  {
    (RowOffsets[k], ColumnOffsets[k])
  }

  /** The cell reached from `c` by the k-th displacement. */
  function Step(c: Cell, k: int): Cell
    requires 0 <= k < Directions
  {
    (c.0 + RowOffsets[k], c.1 + ColumnOffsets[k])
  }

  /** The in-range cells reached by the first `k` displacements. */
  function NeighboursUpTo(rows: int, columns: int, c: Cell, k: int): set<Cell>
    requires 0 <= k <= Directions
  {
    set n | 0 <= n < k && InRange(rows, columns, Step(c, n)) :: Step(c, n)
  }

  /** The in-range neighbours of `c`: the cells the game visits from `c`. */
  function Neighbours(rows: int, columns: int, c: Cell): set<Cell> {
    NeighboursUpTo(rows, columns, c, Directions)
  }

  /** Every in-range step from `c` is one of its neighbours. */
  lemma StepIsNeighbour(rows: int, columns: int, c: Cell, k: int)
    requires 0 <= k < Directions && InRange(rows, columns, Step(c, k))
    ensures Step(c, k) in Neighbours(rows, columns, c)
  {
  }

  /** Which displacement of the table produces a given unit step; the inverse of `Offset`. */
  function DirectionOf(d: (int, int)): (k: int)
    requires -1 <= d.0 <= 1 && -1 <= d.1 <= 1 && d != (0, 0)
    ensures 0 <= k < Directions && Offset(k) == d
  {
    if d == (-1, 0) then 0
    else if d == (-1, 1) then 1
    else if d == (0, 1) then 2
    else if d == (1, 1) then 3
    else if d == (1, 0) then 4
    else if d == (1, -1) then 5
    else if d == (0, -1) then 6
    else 7
  }

  /** The two tables list exactly the eight unit steps that move: every component is
      -1, 0 or 1, no entry is (0, 0), and no step is listed twice. */
  lemma OffsetsAreTheEightDirections()
    ensures |RowOffsets| == |ColumnOffsets| == Directions
    ensures forall k :: 0 <= k < Directions ==>
      -1 <= Offset(k).0 <= 1 && -1 <= Offset(k).1 <= 1 && Offset(k) != (0, 0)
    ensures forall k, l :: 0 <= k < Directions && 0 <= l < Directions && Offset(k) == Offset(l) ==> k == l
    ensures forall k :: 0 <= k < Directions ==> DirectionOf(Offset(k)) == k
  {
  }

  /** Distinct displacements reach distinct cells. */
  lemma StepInjective(c: Cell, k: int, l: int)
    requires 0 <= k < Directions && 0 <= l < Directions
    ensures Step(c, k) == Step(c, l) <==> k == l
  {
    OffsetsAreTheEightDirections();
    if Step(c, k) == Step(c, l) {
      assert Offset(k) == Offset(l);
    }
  }

  /** Adding the displacement at position k - 1 adds at most its own cell, which is new. */
  lemma NeighboursUpToStep(rows: int, columns: int, c: Cell, k: int)
    requires 0 < k <= Directions
    ensures Step(c, k - 1) !in NeighboursUpTo(rows, columns, c, k - 1)
    ensures NeighboursUpTo(rows, columns, c, k) ==
      if InRange(rows, columns, Step(c, k - 1))
      then NeighboursUpTo(rows, columns, c, k - 1) + {Step(c, k - 1)}
      else NeighboursUpTo(rows, columns, c, k - 1)
  {
    if Step(c, k - 1) in NeighboursUpTo(rows, columns, c, k - 1) {
      var n :| 0 <= n < k - 1 && Step(c, n) == Step(c, k - 1);
      StepInjective(c, n, k - 1);
    }
  }

  lemma NeighboursUpToZero(rows: int, columns: int, c: Cell)
    ensures NeighboursUpTo(rows, columns, c, 0) == {}
  {
  }

  /** The first `k` displacements contribute at most `k` cells. */
  lemma {:induction false} NeighboursUpToSize(rows: int, columns: int, c: Cell, k: int)
    requires 0 <= k <= Directions
    ensures |NeighboursUpTo(rows, columns, c, k)| <= k
  {
    if k == 0 {
      NeighboursUpToZero(rows, columns, c);
    } else {
      NeighboursUpToSize(rows, columns, c, k - 1);
      NeighboursUpToStep(rows, columns, c, k);
      AtMostOneMore(NeighboursUpTo(rows, columns, c, k - 1), NeighboursUpTo(rows, columns, c, k), Step(c, k - 1));
    }
  }

  lemma AtMostOneMore<T>(before: set<T>, after: set<T>, x: T)
    requires after == before + {x} || after == before
    ensures |after| <= |before| + 1
  {
  }

  /** The neighbours of `c` are exactly the in-range cells other than `c` whose row and
      column each differ from `c`'s by at most one; in particular a cell is never its
      own neighbour. */
  lemma NeighboursAreAdjacentCells(rows: int, columns: int, c: Cell, d: Cell)
    ensures d in Neighbours(rows, columns, c) <==>
      InRange(rows, columns, d) && d != c && -1 <= d.0 - c.0 <= 1 && -1 <= d.1 - c.1 <= 1
  {
    OffsetsAreTheEightDirections();
    if InRange(rows, columns, d) && d != c && -1 <= d.0 - c.0 <= 1 && -1 <= d.1 - c.1 <= 1 {
      var k := DirectionOf((d.0 - c.0, d.1 - c.1));
      assert Step(c, k) == d;
    }
  }

  /** A board has at most eight neighbours around any cell. */
  lemma NeighboursAtMostEight(rows: int, columns: int, c: Cell)
    ensures |Neighbours(rows, columns, c)| <= 8
  {
    NeighboursUpToSize(rows, columns, c, Directions);
  }

  /** One row of the board. */
  function Row(i: int, columns: int): set<Cell> {
    set j | 0 <= j < columns :: (i, j)
  }

  lemma {:induction false} RowSize(i: int, columns: nat)
    ensures |Row(i, columns)| == columns
  {
    if columns > 0 {
      RowSize(i, columns - 1);
      assert Row(i, columns) == Row(i, columns - 1) + {(i, columns - 1)};
    } else {
      assert Row(i, columns) == {};
    }
  }

  /** Adding the last row to a board. */
  lemma CellsSplit(rows: nat, columns: nat)
    requires rows > 0
    ensures Cells(rows, columns) == Cells(rows - 1, columns) + Row(rows - 1, columns)
    ensures Cells(rows - 1, columns) !! Row(rows - 1, columns)
  {
    forall c | c in Cells(rows, columns)
      ensures c in Cells(rows - 1, columns) + Row(rows - 1, columns)
    {
      if c.0 == rows - 1 {
        assert c == (rows - 1, c.1);
      } else {
        InRangeIsCell(rows - 1, columns, c);
      }
    }
  }

  /** A rows x columns board has rows * columns cells. */
  lemma {:induction false} CellsSize(rows: nat, columns: nat)
    ensures |Cells(rows, columns)| == rows * columns
  {
    if rows > 0 {
      CellsSize(rows - 1, columns);
      RowSize(rows - 1, columns);
      CellsSplit(rows, columns);
      assert (rows - 1) * columns + columns == rows * columns;
    } else {
      assert Cells(rows, columns) == {};
    }
  }
}
