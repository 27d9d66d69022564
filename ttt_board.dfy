/** The 3x3 tic-tac-toe board (ttt/board.go): a map from point to mark that `Place` updates in
    place. A point the map has no entry for is empty, as a Go map reads its zero value (None)
    for a missing key. The checks on a board (IsOnGrid, Get, Has3InARow) are functions of the
    grid; `Board` is the object whose methods change it. */
module TttBoards {
  import W = Wrappers
  import opened Points
  import opened TttPlayers

  const BOARD_SIZE: int := 3

  type Grid = map<Point, Player>

  /** Rows and columns are counted from 1 to BOARD_SIZE. */
  predicate IsOnGrid(p: Point)
  {
    1 <= p.Row <= BOARD_SIZE && 1 <= p.Col <= BOARD_SIZE
  }

  /** The mark at a point; None where nothing has been placed. */
  function Get(grid: Grid, p: Point): Player
  {
    if p in grid then grid[p] else None
  }

  /** What `Place` does to the grid: None where Go panics (off the grid, or a cell that already
      holds a mark), otherwise the grid with that one cell set. */
  function PlaceIn(grid: Grid, p: Player, point: Point): W.Option<Grid>
  {
    if !IsOnGrid(point) || Get(grid, point) != None then W.None else W.Some(grid[point := p])
  }

  /** Placing succeeds exactly on an empty cell of the grid, and then changes that cell and no
      other. */
  lemma PlaceSetsOneCell(grid: Grid, p: Player, point: Point)
    ensures PlaceIn(grid, p, point).Some? <==> IsOnGrid(point) && Get(grid, point) == None
    ensures PlaceIn(grid, p, point).Some? ==> Get(PlaceIn(grid, p, point).value, point) == p
    ensures PlaceIn(grid, p, point).Some? ==>
              forall q :: q != point ==> Get(PlaceIn(grid, p, point).value, q) == Get(grid, q)
  {
  }

  /** Column col of the source's first loop, which skips a column whose top cell is empty. */
  predicate ColumnHolds(grid: Grid, p: Player, col: U16)
  {
    Get(grid, Point(1, col)) != None
    && Get(grid, Point(1, col)) == p
    && Get(grid, Point(2, col)) == Get(grid, Point(3, col))
    && Get(grid, Point(1, col)) == Get(grid, Point(2, col))
  }

  /** Row row of the second loop, which skips a row whose first cell is empty. */
  predicate RowHolds(grid: Grid, p: Player, row: U16)
  {
    Get(grid, Point(row, 1)) != None
    && Get(grid, Point(row, 1)) == p
    && Get(grid, Point(row, 2)) == Get(grid, Point(row, 3))
    && Get(grid, Point(row, 1)) == Get(grid, Point(row, 2))
  }

  /** The diagonal from (3,1) through (2,2) to (1,3). */
  predicate RisingHolds(grid: Grid, p: Player)
  {
    Get(grid, Point(3, 1)) == p
    && Get(grid, Point(2, 2)) == Get(grid, Point(1, 3))
    && Get(grid, Point(3, 1)) == Get(grid, Point(2, 2))
  }

  /** The diagonal from (1,1) through (2,2) to (3,3). */
  predicate FallingHolds(grid: Grid, p: Player)
  {
    Get(grid, Point(1, 1)) == p
    && Get(grid, Point(2, 2)) == Get(grid, Point(1, 1))
    && Get(grid, Point(3, 3)) == Get(grid, Point(2, 2))
  }

  /** Has_3_in_a_row: never for None; otherwise the first column, row or diagonal check that
      succeeds ends the search with true. */
  predicate Has3InARow(grid: Grid, p: Player)
  {
    p != None
    && (ColumnHolds(grid, p, 1) || ColumnHolds(grid, p, 2) || ColumnHolds(grid, p, 3)
        || RowHolds(grid, p, 1) || RowHolds(grid, p, 2) || RowHolds(grid, p, 3)
        || RisingHolds(grid, p) || FallingHolds(grid, p))
  }

  /** Three cells that all hold p. */
  predicate Full(grid: Grid, p: Player, a: Point, b: Point, c: Point)
  {
    Get(grid, a) == p && Get(grid, b) == p && Get(grid, c) == p
  }

  /** The rule of the game, stated independently: some row, some column or one of the two
      diagonals holds p in all three of its cells. */
  predicate ThreeInARow(grid: Grid, p: Player)
  {
    (exists r: U16 | 1 <= r <= 3 :: Full(grid, p, Point(r, 1), Point(r, 2), Point(r, 3)))
    || (exists c: U16 | 1 <= c <= 3 :: Full(grid, p, Point(1, c), Point(2, c), Point(3, c)))
    || Full(grid, p, Point(1, 1), Point(2, 2), Point(3, 3))
    || Full(grid, p, Point(3, 1), Point(2, 2), Point(1, 3))
  }

  /** The source's check agrees with the rule for every mark, and never holds for None. */
  lemma Has3InARowIsRule(grid: Grid, p: Player)
    ensures Has3InARow(grid, p) <==> p != None && ThreeInARow(grid, p)
  {
    if p != None && ThreeInARow(grid, p) {
      if exists r: U16 | 1 <= r <= 3 :: Full(grid, p, Point(r, 1), Point(r, 2), Point(r, 3)) {
        var r: U16 :| 1 <= r <= 3 && Full(grid, p, Point(r, 1), Point(r, 2), Point(r, 3));
        assert RowHolds(grid, p, r);
      } else if exists c: U16 | 1 <= c <= 3 :: Full(grid, p, Point(1, c), Point(2, c), Point(3, c)) {
        var c: U16 :| 1 <= c <= 3 && Full(grid, p, Point(1, c), Point(2, c), Point(3, c));
        assert ColumnHolds(grid, p, c);
      }
    }
    if Has3InARow(grid, p) {
      if ColumnHolds(grid, p, 1) {
        assert Full(grid, p, Point(1, 1), Point(2, 1), Point(3, 1));
      } else if ColumnHolds(grid, p, 2) {
        assert Full(grid, p, Point(1, 2), Point(2, 2), Point(3, 2));
      } else if ColumnHolds(grid, p, 3) {
        assert Full(grid, p, Point(1, 3), Point(2, 3), Point(3, 3));
      } else if RowHolds(grid, p, 1) {
        assert Full(grid, p, Point(1, 1), Point(1, 2), Point(1, 3));
      } else if RowHolds(grid, p, 2) {
        assert Full(grid, p, Point(2, 1), Point(2, 2), Point(2, 3));
      } else if RowHolds(grid, p, 3) {
        assert Full(grid, p, Point(3, 1), Point(3, 2), Point(3, 3));
      }
    }
  }

  /** The nine cells in row-major order, the order in which the game lists them. */
  function Cell(k: nat): (p: Point)
    requires k < 9
    ensures IsOnGrid(p)
  {
    var row := if k < 3 then 1 else if k < 6 then 2 else 3;
    Point(row, k - 3 * (row - 1) + 1)
  }

  /** The position of a cell in row-major order. */
  function CellIndex(p: Point): (k: nat)
    requires IsOnGrid(p)
    ensures k < 9 && Cell(k) == p
  {
    (p.Row - 1) * 3 + p.Col - 1
  }

  /** Row row and column col sit at position 3 * (row - 1) + col - 1. */
  lemma CellAt(row: int, col: int)
    requires 1 <= row <= 3 && 1 <= col <= 3
    ensures Cell(3 * (row - 1) + col - 1) == Point(row, col)
  {
  }

  /** Row-major order: earlier rows first, and within a row, earlier columns. */
  predicate Before(p: Point, q: Point)
  {
    p.Row < q.Row || (p.Row == q.Row && p.Col < q.Col)
  }

  /** Cells at increasing positions come in row-major order, so the nine are distinct. */
  lemma CellsInOrder(i: nat, j: nat)
    requires i < j < 9
    ensures Before(Cell(i), Cell(j))
  {
  }

  /** The positions of the empty cells. */
  function EmptyCells(grid: Grid): set<nat>
  {
    set k: nat | k < 9 && Get(grid, Cell(k)) == None
  }

  /** A mark placed on an empty cell removes that cell, and only that cell, from the empty ones;
      placing None leaves them as they were. */
  lemma PlaceShrinksEmpty(grid: Grid, p: Player, point: Point)
    requires PlaceIn(grid, p, point).Some?
    ensures p != None ==> |EmptyCells(PlaceIn(grid, p, point).value)| == |EmptyCells(grid)| - 1
    ensures p == None ==> EmptyCells(PlaceIn(grid, p, point).value) == EmptyCells(grid)
  {
    var next, k := PlaceIn(grid, p, point).value, CellIndex(point);
    if p != None {
      assert EmptyCells(next) == EmptyCells(grid) - {k};
      assert k in EmptyCells(grid);
    } else {
      assert EmptyCells(next) == EmptyCells(grid);
    }
  }

  /** A tic-tac-toe board whose grid its methods change in place. */
  class Board {
    var grid: Grid

    /** NewBoard: nothing placed. */
    constructor ()
      ensures grid == map[]
    {
      grid := map[];
    }

    /** Place p at point. Where Go panics (off the grid or on an occupied cell) the model
        answers false and leaves the board as it was. */
    method Place(p: Player, point: Point) returns (ok: bool)
      modifies this
      ensures ok <==> IsOnGrid(point) && Get(old(grid), point) == None
      ensures ok ==> grid == old(grid)[point := p]
      ensures !ok ==> grid == old(grid)
      ensures PlaceIn(old(grid), p, point) == if ok then W.Some(grid) else W.None
    {
      if !IsOnGrid(point) {
        return false;
      }
      if Get(grid, point) != None {
        return false;
      }
      grid := grid[point := p];
      ok := true;
    }

    /** A new board holding the same marks, entry by entry. */
    method DeepCopy() returns (nb: Board)
      ensures fresh(nb)
      ensures nb.grid == grid
    {
      nb := new Board();
      var rest := grid.Keys;
      while rest != {}
        invariant rest <= grid.Keys
        invariant nb.grid == map k | k in grid.Keys - rest :: grid[k]
        decreases rest
      {
        var k :| k in rest;
        nb.grid := nb.grid[k := grid[k]];
        rest := rest - {k};
      }
      assert grid.Keys - rest == grid.Keys;
    }
  }
}
