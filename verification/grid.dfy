/**
  The board of the snake game: a rectangle of UNIT-sized cells whose edges
  are glued together, so that a head leaving one edge re-enters at the
  opposite one.
 */
module Grid {

  /** Side of one cell, in canvas pixels. */
  const UNIT: int := 25

  /** A pixel position; cells are named by their top-left corner. */
  datatype Point = Point(x: int, y: int)

  /** The canvas dimensions, read once from the drawing surface. */
  datatype Board = Board(width: int, height: int)

  /** A board made of whole cells, wide enough for the four-segment start snake. */
  predicate ValidBoard(b: Board) {
    && b.width >= 4 * UNIT
    && b.height >= UNIT
    && b.width % UNIT == 0
    && b.height % UNIT == 0
  }

  /** A coordinate that is the corner of some cell along an axis of the given extent. */
  predicate OnAxis(v: int, extent: int) {
    0 <= v < extent && v % UNIT == 0
  }

  /** A point that is the corner of a cell of the board. */
  predicate IsCell(b: Board, p: Point) {
    OnAxis(p.x, b.width) && OnAxis(p.y, b.height)
  }

  /** No two entries name the same point. */
  predicate Distinct(cells: seq<Point>) {
    forall i, j :: 0 <= i < j < |cells| ==> cells[i] != cells[j]
  }

  /** The four velocities the snake may have: one cell right, left, down or up. */
  predicate IsUnitStep(v: Point) {
    || v == Point(UNIT, 0)
    || v == Point(-UNIT, 0)
    || v == Point(0, UNIT)
    || v == Point(0, -UNIT)
  }

  /** The velocity pointing the other way. */
  function Reverse(v: Point): Point {
    Point(-v.x, -v.y)
  }

  /**
    Wrap-around along one axis: a coordinate below zero jumps to the last
    cell, one at or past the extent jumps to zero, anything else stays.
   */
  function Wrap(v: int, extent: int): (r: int)
    requires extent >= UNIT
    ensures 0 <= v < extent ==> r == v
    ensures v < 0 ==> r == extent - UNIT
    ensures v >= extent ==> r == 0
    ensures r == v || r == 0 || r == extent - UNIT
    ensures 0 <= r < extent
  {
    if v < 0 then extent - UNIT
    else if v >= extent then 0
    else v
  }

  /** The cell the head moves to: old head plus velocity, each axis wrapped on its own. */
  function NextHead(b: Board, head: Point, vel: Point): (r: Point)
    requires ValidBoard(b)
    ensures IsCell(b, head) && IsUnitStep(vel) ==> IsCell(b, r)
  {
    Point(Wrap(head.x + vel.x, b.width), Wrap(head.y + vel.y, b.height))
  }

  /** `q` is one step of some unit velocity away from `p`. */
  predicate Adjacent(b: Board, p: Point, q: Point)
    requires ValidBoard(b)
  {
    || NextHead(b, p, Point(UNIT, 0)) == q
    || NextHead(b, p, Point(-UNIT, 0)) == q
    || NextHead(b, p, Point(0, UNIT)) == q
    || NextHead(b, p, Point(0, -UNIT)) == q
  }

  /**
    On a board at least three cells high (it is always at least four wide),
    two steps in the same direction never lead back to the start.
   */
  lemma TwoStepsDoNotReturn(b: Board, p: Point, v: Point)
    requires ValidBoard(b) && b.height >= 3 * UNIT
    requires IsCell(b, p) && IsUnitStep(v)
    ensures NextHead(b, NextHead(b, p, v), v) != p
  {
  }

  /**
    Along one axis, the wrapped step agrees with arithmetic modulo the
    extent for every on-grid coordinate and every step of at most one cell;
    that is, the board is a torus.
   */
  lemma WrapIsModulo(v: int, d: int, extent: int)
    requires extent >= UNIT && extent % UNIT == 0
    requires OnAxis(v, extent)
    requires d == UNIT || d == -UNIT || d == 0
    ensures Wrap(v + d, extent) == (v + d) % extent
  {
    var w := v + d;
    if w < 0 {
      ModOfNegative(w, extent);
    } else if w >= extent {
      assert w == extent;
      ModOfSelf(extent);
    } else {
      ModOfSmall(w, extent);
    }
  }

  lemma ModOfSmall(a: int, n: int)
    requires 0 <= a < n
    ensures a % n == a
  {
  }

  lemma ModOfNegative(a: int, n: int)
    requires n > 0 && -n <= a < 0
    ensures a % n == a + n
  {
  }

  lemma ModOfSelf(n: int)
    requires n > 0
    ensures n % n == 0
  {
  }

  /** Stepping off any of the four edges lands on the opposite edge. */
  lemma EdgesAreGlued(b: Board, p: Point)
    requires ValidBoard(b) && IsCell(b, p)
    ensures p.x == b.width - UNIT ==> NextHead(b, p, Point(UNIT, 0)).x == 0
    ensures p.x == 0 ==> NextHead(b, p, Point(-UNIT, 0)).x == b.width - UNIT
    ensures p.y == b.height - UNIT ==> NextHead(b, p, Point(0, UNIT)).y == 0
    ensures p.y == 0 ==> NextHead(b, p, Point(0, -UNIT)).y == b.height - UNIT
    ensures NextHead(b, p, Point(UNIT, 0)).y == p.y && NextHead(b, p, Point(0, UNIT)).x == p.x
    ensures NextHead(b, p, Point(-UNIT, 0)).y == p.y && NextHead(b, p, Point(0, -UNIT)).x == p.x
  {
  }
}
