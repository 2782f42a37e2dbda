/**
  Food placement. The game draws random cells until one is off the snake
  (rejection sampling). Two views are given: `CreateFood`, an unspecified
  free cell (a fixed choice made in the logic), which is what the rest of
  the model uses; and `SampleFood`, the draw-and-retry loop itself run over a finite
  prefix of the random stream, proved to pick only cells `CreateFood` may
  pick and able to pick every one of them.
 */
module Food {
  import opened Wrappers
  import opened Grid

  /** Whether some segment of the snake occupies `p`, scanning from the head. */
  function IsFoodOnSnake(snake: seq<Point>, p: Point): (r: bool)
    ensures r <==> p in snake
  {
    if |snake| == 0 then false
    else snake[0] == p || IsFoodOnSnake(snake[1..], p)
  }

  /** A board cell the snake does not cover: a legal place for food. */
  predicate IsFreeCell(b: Board, snake: seq<Point>, p: Point) {
    IsCell(b, p) && p !in snake
  }

  ghost predicate HasFreeCell(b: Board, snake: seq<Point>) {
    exists p :: IsFreeCell(b, snake, p)
  }

  /**
    The cell the draw-and-retry loop settles on, left abstract: any cell of
    the board the snake does not cover. The loop only stops when such a cell
    exists, hence the precondition.
   */
  ghost function CreateFood(b: Board, snake: seq<Point>): (p: Point)
    requires HasFreeCell(b, snake)
    ensures IsCell(b, p)
    ensures !IsFoodOnSnake(snake, p)
  {
    var p :| IsFreeCell(b, snake, p); p
  }

  /** One value of the random source, taken to lie in [0, 1). */
  predicate IsRandom(r: real) {
    0.0 <= r < 1.0
  }

  /** The index of the cell a random value picks along an axis: `floor(r * extent / UNIT)`. */
  function CellIndex(r: real, extent: int): int {
    ((r * extent as real) / UNIT as real).Floor
  }

  lemma CellIndexInRange(r: real, extent: int)
    requires IsRandom(r) && extent >= UNIT && extent % UNIT == 0
    ensures 0 <= CellIndex(r, extent) < extent / UNIT
  {
    var n := extent / UNIT;
    assert (r * extent as real) / UNIT as real < n as real by {
      assert r * extent as real < extent as real;
      assert n * UNIT == extent;
    }
  }

  /** One coordinate of a draw: the random value scaled to the extent, floored to whole cells. */
  function Scale(r: real, extent: int): (v: int)
    requires IsRandom(r) && extent >= UNIT && extent % UNIT == 0
    ensures OnAxis(v, extent)
  {
    CellIndexInRange(r, extent);
    CellIndex(r, extent) * UNIT
  }

  /** Two random values, one per axis, consumed by one attempt of the loop. */
  datatype Draw = Draw(rx: real, ry: real)

  predicate IsDraw(d: Draw) {
    IsRandom(d.rx) && IsRandom(d.ry)
  }

  predicate AllDraws(draws: seq<Draw>) {
    forall i :: 0 <= i < |draws| ==> IsDraw(draws[i])
  }

  /** The cell one attempt proposes. */
  function Candidate(b: Board, d: Draw): (p: Point)
    requires ValidBoard(b) && IsDraw(d)
    ensures IsCell(b, p)
  {
    Point(Scale(d.rx, b.width), Scale(d.ry, b.height))
  }

  /**
    The do-while loop of food placement, fed the random stream `draws`:
    the first proposed cell that is not on the snake, or None when every
    draw available hits the snake (the loop would keep drawing).
   */
  function SampleFood(b: Board, snake: seq<Point>, draws: seq<Draw>): (r: Option<Point>)
    requires ValidBoard(b) && AllDraws(draws)
    ensures r.Some? ==> IsFreeCell(b, snake, r.value)
    ensures r.Some? ==> exists k :: 0 <= k < |draws| && r.value == Candidate(b, draws[k])
                                 && forall j :: 0 <= j < k ==> Candidate(b, draws[j]) in snake
    ensures r.None? <==> forall k :: 0 <= k < |draws| ==> Candidate(b, draws[k]) in snake
    decreases |draws|
  {
    if |draws| == 0 then None
    else
      var p := Candidate(b, draws[0]);
      if IsFoodOnSnake(snake, p) then
        var r := SampleFood(b, snake, draws[1..]);
        assert forall k :: 1 <= k < |draws| ==> draws[1..][k - 1] == draws[k];
        r
      else Some(p)
  }

  /** The draw that lands exactly on coordinate `v`. */
  lemma ScaleHits(v: int, extent: int)
    requires extent >= UNIT && extent % UNIT == 0 && OnAxis(v, extent)
    ensures IsRandom(v as real / extent as real)
    ensures Scale(v as real / extent as real, extent) == v
  {
    var e := extent as real;
    var r := v as real / e;
    assert r * e == v as real;
    assert IsRandom(r);
    var k := v / UNIT;
    assert v == k * UNIT;
    assert (v as real) == (k as real) * (UNIT as real);
    assert (r * e) / UNIT as real == k as real;
    assert CellIndex(r, extent) == k;
  }

  /** The loop can settle on any free cell: every outcome of `CreateFood` is reachable. */
  lemma EveryFreeCellCanBeDrawn(b: Board, snake: seq<Point>, p: Point)
    requires ValidBoard(b) && IsFreeCell(b, snake, p)
    ensures IsDraw(Draw(p.x as real / b.width as real, p.y as real / b.height as real))
    ensures SampleFood(b, snake, [Draw(p.x as real / b.width as real, p.y as real / b.height as real)]) == Some(p)
  {
    ScaleHits(p.x, b.width);
    ScaleHits(p.y, b.height);
  }

  /** A successful run of the loop witnesses that the abstract choice is defined. */
  lemma SampledMeansFree(b: Board, snake: seq<Point>, draws: seq<Draw>)
    requires ValidBoard(b) && AllDraws(draws)
    requires SampleFood(b, snake, draws).Some?
    ensures HasFreeCell(b, snake)
  {
    assert IsFreeCell(b, snake, SampleFood(b, snake, draws).value);
  }
}
