/**
  Counting the cells of the board, to show that the food loop has a cell
  to find whenever the snake is shorter than the board has cells.
 */
module Cells {
  import opened Grid
  import opened Food

  function Columns(b: Board): nat
    requires ValidBoard(b)
  {
    b.width / UNIT
  }

  function Rows(b: Board): nat
    requires ValidBoard(b)
  {
    b.height / UNIT
  }

  function CellCount(b: Board): nat
    requires ValidBoard(b)
  {
    Columns(b) * Rows(b)
  }

  /** The first `n` cells of the row at height `y`, left to right. */
  function RowCells(y: int, n: nat): (cells: seq<Point>)
    ensures |cells| == n
    ensures forall i :: 0 <= i < n ==> cells[i] == Point(i * UNIT, y)
  {
    if n == 0 then [] else RowCells(y, n - 1) + [Point((n - 1) * UNIT, y)]
  }

  /** The first `r` rows of the board, top to bottom. */
  function GridCells(b: Board, r: nat): (cells: seq<Point>)
    requires ValidBoard(b)
    ensures |cells| == r * Columns(b)
    ensures forall i :: 0 <= i < |cells| ==>
              OnAxis(cells[i].x, b.width) && cells[i].y % UNIT == 0 && 0 <= cells[i].y < r * UNIT
  {
    if r == 0 then []
    else
      var row := RowCells((r - 1) * UNIT, Columns(b));
      assert (r - 1) * Columns(b) + Columns(b) == r * Columns(b);
      assert forall i :: 0 <= i < |row| ==> OnAxis(row[i].x, b.width) by {
        forall i | 0 <= i < |row|
          ensures OnAxis(row[i].x, b.width)
        {
          assert i <= Columns(b) - 1;
          assert Columns(b) * UNIT == b.width;
        }
      }
      GridCells(b, r - 1) + row
  }

  lemma {:induction false} GridCellsDistinct(b: Board, r: nat)
    requires ValidBoard(b)
    ensures Distinct(GridCells(b, r))
  {
    if r > 0 {
      GridCellsDistinct(b, r - 1);
      var front := GridCells(b, r - 1);
      var row := RowCells((r - 1) * UNIT, Columns(b));
      var all: seq<Point> := front + row;
      assert GridCells(b, r) == all;
      forall i, j | 0 <= i < j < |all|
        ensures all[i] != all[j]
      {
        if j >= |front| && i < |front| {
          assert all[i].y < (r - 1) * UNIT;
        }
      }
    }
  }

  /** Every cell of the board, each once. */
  lemma AllCellsListed(b: Board)
    requires ValidBoard(b)
    ensures |GridCells(b, Rows(b))| == CellCount(b)
    ensures Distinct(GridCells(b, Rows(b)))
    ensures forall i :: 0 <= i < CellCount(b) ==> IsCell(b, GridCells(b, Rows(b))[i])
  {
    GridCellsDistinct(b, Rows(b));
    assert Rows(b) * UNIT == b.height;
  }

  /** `s` with every occurrence of `c` removed. */
  function Without(s: seq<Point>, c: Point): (r: seq<Point>)
    ensures forall x :: x in r <==> x in s && x != c
    ensures c in s ==> |r| < |s|
    ensures |r| <= |s|
  {
    if |s| == 0 then []
    else if s[0] == c then Without(s[1..], c)
    else [s[0]] + Without(s[1..], c)
  }

  /** More distinct cells than segments: some cell is uncovered. */
  lemma {:induction false} Pigeonhole(cells: seq<Point>, snake: seq<Point>)
    requires Distinct(cells) && |cells| > |snake|
    ensures exists i :: 0 <= i < |cells| && cells[i] !in snake
  {
    var n := |cells|;
    var c := cells[n - 1];
    if c in snake {
      var rest := cells[..n - 1];
      Pigeonhole(rest, Without(snake, c));
      var i :| 0 <= i < |rest| && rest[i] !in Without(snake, c);
      assert cells[i] != c;
    } else {
      assert cells[n - 1] !in snake;
    }
  }

  /** While the snake covers fewer cells than the board has, food has somewhere to go. */
  lemma RoomForFood(b: Board, snake: seq<Point>)
    requires ValidBoard(b) && |snake| < CellCount(b)
    ensures HasFreeCell(b, snake)
  {
    AllCellsListed(b);
    var cells := GridCells(b, Rows(b));
    Pigeonhole(cells, snake);
    var i :| 0 <= i < |cells| && cells[i] !in snake;
    assert IsFreeCell(b, snake, cells[i]);
  }
}
