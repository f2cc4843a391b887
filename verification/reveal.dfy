/**
 The reveal flood fill. A board is a mine layout plus the set of revealed cells
 (the cells whose button the game has disabled). Exposing a cell reveals it and,
 when it has no mine around it, exposes each in-range neighbour in table order,
 depth first; a cell that is already revealed stops the recursion.
 */
module Reveal {
  import opened Grid
  import opened Mines

  datatype Board = Board(layout: Layout, revealed: set<Cell>) {

    predicate Valid() {
      layout.Valid() && revealed <= Cells(layout.rows, layout.columns)
    }

    /** The cells still waiting to be revealed; the flood fill's termination measure. */
    function Unrevealed(): set<Cell> {
      Cells(layout.rows, layout.columns) - revealed
    }

    /** No mined cell has been revealed. */
    predicate MinesHidden() {
      revealed * layout.mines == {}
    }
  }

  /** `expose(i, j)`: stop at a revealed cell; otherwise reveal it, and if no mine is
      adjacent, expose every in-range neighbour. Only the revealed set changes; it only
      grows, and only by in-range cells that were unrevealed; `c` ends revealed; exposing
      a revealed cell changes nothing; and no mine other than `c` itself is revealed. */
  function Expose(b: Board, c: Cell): (r: Board)
    requires b.layout.InBounds(c)
    ensures r.layout == b.layout
    ensures b.revealed <= r.revealed
    ensures r.revealed - b.revealed <= Cells(b.layout.rows, b.layout.columns)
    ensures c in r.revealed
    ensures c in b.revealed ==> r == b
    ensures (r.revealed - b.revealed) * b.layout.mines <= {c}
    decreases b.Unrevealed(), 0, 0
  {
    if c in b.revealed then b
    else
      InRangeIsCell(b.layout.rows, b.layout.columns, c);
      var b' := b.(revealed := b.revealed + {c});
      if AdjacentMines(b.layout, c) != 0 then b'
      else ExposeFrom(b', c, 0)
  }

  /** The neighbour loop of `expose` from position `k` of the displacement table, for a
      cell `c` with no adjacent mine: it reveals no mine. */
  function ExposeFrom(b: Board, c: Cell, k: int): (r: Board)
    requires 0 <= k <= Directions
    requires AdjacentMines(b.layout, c) == 0
    ensures r.layout == b.layout
    ensures b.revealed <= r.revealed
    ensures r.revealed - b.revealed <= Cells(b.layout.rows, b.layout.columns)
    ensures (r.revealed - b.revealed) * b.layout.mines == {}
    decreases b.Unrevealed(), 1, Directions - k
  {
    if k == Directions then b
    else
      var d := Step(c, k);
      if !b.layout.InBounds(d) then ExposeFrom(b, c, k + 1)
      else
        StepIsNeighbour(b.layout.rows, b.layout.columns, c, k);
        ZeroCountMeansSafeNeighbours(b.layout, c, d);
        ExposeFrom(Expose(b, d), c, k + 1)
  }

  /** The neighbour loop leaves every in-range neighbour from table position `k` on
      revealed. */
  lemma {:induction false} ExposeFromCoversNeighbours(b: Board, c: Cell, k: int)
    requires 0 <= k <= Directions
    requires AdjacentMines(b.layout, c) == 0
    ensures forall n :: k <= n < Directions && b.layout.InBounds(Step(c, n)) ==>
      Step(c, n) in ExposeFrom(b, c, k).revealed
    decreases Directions - k
  {
    if k < Directions {
      var d := Step(c, k);
      var r := ExposeFrom(b, c, k);
      if !b.layout.InBounds(d) {
        assert r == ExposeFrom(b, c, k + 1);
        ExposeFromCoversNeighbours(b, c, k + 1);
        forall n | k <= n < Directions && b.layout.InBounds(Step(c, n)) ensures Step(c, n) in r.revealed {
          assert n != k;
        }
      } else {
        StepIsNeighbour(b.layout.rows, b.layout.columns, c, k);
        ZeroCountMeansSafeNeighbours(b.layout, c, d);
        var b2 := Expose(b, d);
        assert r == ExposeFrom(b2, c, k + 1);
        ExposeFromCoversNeighbours(b2, c, k + 1);
        forall n | k <= n < Directions && b.layout.InBounds(Step(c, n)) ensures Step(c, n) in r.revealed {
          if n == k {
            assert d in r.revealed;
          }
        }
      }
    }
  }

  /** Every newly revealed cell that shows no number has all of its neighbours revealed:
      the flood fill never stops at the edge of a blank area. */
  ghost predicate ClosedOver(b: Board, r: Board) {
    forall d :: d in r.revealed - b.revealed && AdjacentMines(r.layout, d) == 0 ==>
      Neighbours(r.layout.rows, r.layout.columns, d) <= r.revealed
  }

  lemma {:induction false} ExposeClosed(b: Board, c: Cell)
    requires b.layout.InBounds(c)
    ensures ClosedOver(b, Expose(b, c))
    decreases b.Unrevealed(), 0, 0
  {
    if c !in b.revealed && AdjacentMines(b.layout, c) == 0 {
      var b' := b.(revealed := b.revealed + {c});
      var r := ExposeFrom(b', c, 0);
      assert r == Expose(b, c);
      InRangeIsCell(b.layout.rows, b.layout.columns, c);
      ExposeFromClosed(b', c, 0);
      ExposeFromCoversNeighbours(b', c, 0);
      forall d | d in Neighbours(b.layout.rows, b.layout.columns, c) ensures d in r.revealed {
        var n :| 0 <= n < Directions && b.layout.InBounds(Step(c, n)) && Step(c, n) == d;
      }
    }
  }

  lemma {:induction false} ExposeFromClosed(b: Board, c: Cell, k: int)
    requires 0 <= k <= Directions
    requires AdjacentMines(b.layout, c) == 0
    ensures ClosedOver(b, ExposeFrom(b, c, k))
    decreases b.Unrevealed(), 1, Directions - k
  {
    if k < Directions {
      var d := Step(c, k);
      if !b.layout.InBounds(d) {
        ExposeFromClosed(b, c, k + 1);
      } else {
        StepIsNeighbour(b.layout.rows, b.layout.columns, c, k);
        ZeroCountMeansSafeNeighbours(b.layout, c, d);
        ExposeClosed(b, d);
        ExposeFromClosed(Expose(b, d), c, k + 1);
      }
    }
  }

  /** A route the flood fill can travel: consecutive cells are neighbours, every cell is
      in range and outside `avoid`, and every cell but the last shows no number. */
  ghost predicate ZeroPath(layout: Layout, avoid: set<Cell>, p: seq<Cell>) {
    && |p| > 0
    && (forall n :: 0 <= n < |p| ==> layout.InBounds(p[n]) && p[n] !in avoid)
    && (forall n :: 0 <= n < |p| - 1 ==>
          AdjacentMines(layout, p[n]) == 0 && p[n + 1] in Neighbours(layout.rows, layout.columns, p[n]))
  }

  /** `d` can be reached from `c` along a `ZeroPath` avoiding `avoid`. */
  ghost predicate Reaches(layout: Layout, avoid: set<Cell>, c: Cell, d: Cell) {
    exists p :: ZeroPath(layout, avoid, p) && p[0] == c && p[|p| - 1] == d
  }

  lemma ReachesAvoidingFewer(layout: Layout, fewer: set<Cell>, more: set<Cell>, c: Cell, d: Cell)
    requires fewer <= more
    requires Reaches(layout, more, c, d)
    ensures Reaches(layout, fewer, c, d)
  {
    var p :| ZeroPath(layout, more, p) && p[0] == c && p[|p| - 1] == d;
    assert ZeroPath(layout, fewer, p);
  }

  /** Every cell `expose` reveals is reached from `c` through cells that show no number,
      all of them revealed by this same call. */
  lemma {:induction false} ExposeReaches(b: Board, c: Cell)
    requires b.layout.InBounds(c)
    ensures forall d :: d in Expose(b, c).revealed - b.revealed ==> Reaches(b.layout, b.revealed, c, d)
    decreases b.Unrevealed(), 0, 0
  {
    var r := Expose(b, c);
    if c !in b.revealed {
      assert ZeroPath(b.layout, b.revealed, [c]);
      if AdjacentMines(b.layout, c) == 0 {
        var b' := b.(revealed := b.revealed + {c});
        assert r == ExposeFrom(b', c, 0);
        InRangeIsCell(b.layout.rows, b.layout.columns, c);
        ExposeFromReaches(b', c, 0);
        forall d | d in r.revealed - b.revealed ensures Reaches(b.layout, b.revealed, c, d) {
          if d != c {
            var n :| 0 <= n < Directions && b.layout.InBounds(Step(c, n))
              && Reaches(b.layout, b'.revealed, Step(c, n), d);
            ReachesThroughBlankCell(b.layout, b.revealed, c, n, d);
          }
        }
      }
    }
  }

  /** A blank cell extends every route that starts at one of its neighbours. */
  lemma ReachesThroughBlankCell(layout: Layout, avoid: set<Cell>, c: Cell, n: int, d: Cell)
    requires layout.InBounds(c) && c !in avoid
    requires AdjacentMines(layout, c) == 0
    requires 0 <= n < Directions && layout.InBounds(Step(c, n))
    requires Reaches(layout, avoid + {c}, Step(c, n), d)
    ensures Reaches(layout, avoid, c, d)
  {
    var p :| ZeroPath(layout, avoid + {c}, p) && p[0] == Step(c, n) && p[|p| - 1] == d;
    StepIsNeighbour(layout.rows, layout.columns, c, n);
    var q := [c] + p;
    forall m | 0 <= m < |q| ensures layout.InBounds(q[m]) && q[m] !in avoid {
      if m > 0 {
        assert q[m] == p[m - 1];
      }
    }
    forall m | 0 <= m < |q| - 1
      ensures AdjacentMines(layout, q[m]) == 0 && q[m + 1] in Neighbours(layout.rows, layout.columns, q[m])
    {
      if m > 0 {
        var j := m - 1;
        assert AdjacentMines(layout, p[j]) == 0 && p[j + 1] in Neighbours(layout.rows, layout.columns, p[j]);
        assert q[m] == p[j] && q[m + 1] == p[j + 1];
      }
    }
    assert ZeroPath(layout, avoid, q);
    assert q[0] == c && q[|q| - 1] == d;
  }

  lemma {:induction false} ExposeFromReaches(b: Board, c: Cell, k: int)
    requires 0 <= k <= Directions
    requires AdjacentMines(b.layout, c) == 0
    ensures forall d :: d in ExposeFrom(b, c, k).revealed - b.revealed ==>
      exists n :: k <= n < Directions && b.layout.InBounds(Step(c, n)) && Reaches(b.layout, b.revealed, Step(c, n), d)
    decreases b.Unrevealed(), 1, Directions - k
  {
    if k < Directions {
      var d := Step(c, k);
      if !b.layout.InBounds(d) {
        ExposeFromReaches(b, c, k + 1);
      } else {
        StepIsNeighbour(b.layout.rows, b.layout.columns, c, k);
        ZeroCountMeansSafeNeighbours(b.layout, c, d);
        var b2 := Expose(b, d);
        var r := ExposeFrom(b2, c, k + 1);
        ExposeReaches(b, d);
        ExposeFromReaches(b2, c, k + 1);
        forall e | e in r.revealed - b.revealed
          ensures exists n :: k <= n < Directions && b.layout.InBounds(Step(c, n)) && Reaches(b.layout, b.revealed, Step(c, n), e)
        {
          if e in b2.revealed {
            assert Reaches(b.layout, b.revealed, Step(c, k), e);
          } else {
            var n :| k + 1 <= n < Directions && b.layout.InBounds(Step(c, n))
              && Reaches(b.layout, b2.revealed, Step(c, n), e);
            ReachesAvoidingFewer(b.layout, b.revealed, b2.revealed, Step(c, n), e);
          }
        }
      }
    }
  }

  /** Along a route that starts revealed, a closed flood fill has revealed every cell. */
  lemma {:induction false} ZeroPathRevealed(b: Board, r: Board, p: seq<Cell>, m: int)
    requires r.layout == b.layout
    requires ClosedOver(b, r)
    requires ZeroPath(b.layout, b.revealed, p)
    requires p[0] in r.revealed
    requires 0 <= m < |p|
    ensures p[m] in r.revealed
  {
    if m > 0 {
      ZeroPathRevealed(b, r, p, m - 1);
      assert p[m] in Neighbours(b.layout.rows, b.layout.columns, p[m - 1]);
    }
  }

  /** Exposing an unrevealed cell reveals exactly the cells reachable from it through
      unrevealed cells showing no number: its blank region together with the numbered
      cells bordering it, and nothing else. */
  lemma ExposeRevealsExactlyTheRegion(b: Board, c: Cell, d: Cell)
    requires b.layout.InBounds(c)
    requires c !in b.revealed
    ensures d in Expose(b, c).revealed - b.revealed <==> Reaches(b.layout, b.revealed, c, d)
  {
    var r := Expose(b, c);
    ExposeReaches(b, c);
    if Reaches(b.layout, b.revealed, c, d) {
      var p :| ZeroPath(b.layout, b.revealed, p) && p[0] == c && p[|p| - 1] == d;
      ExposeClosed(b, c);
      ZeroPathRevealed(b, r, p, |p| - 1);
    }
  }
}
