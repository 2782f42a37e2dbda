/** Optional values, for the pending confirmation and for a sampler that may fail. */
module Wrappers {
  datatype Option<+T> = None | Some(value: T)
}

/**
  The whole mutable state of the game, gathered into one immutable record:
  the snake (head first), its velocity, the food cell, the score and the
  control flags.
 */
module GameState {
  import opened Wrappers
  import opened Grid

  /** The three questions the confirmation popup can be asked. */
  datatype Action = NewGame | QuitApp | QuitGameOver

  datatype State = State(
    snake: seq<Point>,        // segments, head first
    vel: Point,               // cells per tick, in pixels
    food: Point,
    score: nat,
    active: bool,             // a game is in progress
    paused: bool,
    pending: Option<Action>,  // the question the confirmation popup answers
    confirmOpen: bool         // the confirmation popup is showing
  )

  /** Velocity of a fresh game: one cell to the right. */
  const START_VEL: Point := Point(UNIT, 0)

  /** The four-segment horizontal snake of a fresh game, head at the third cell of the top row. */
  function InitialSnake(): (s: seq<Point>)
    ensures |s| == 4 && s[0] == Point(3 * UNIT, 0) && s[3] == Point(0, 0)
    ensures forall i :: 0 <= i < |s| ==> s[i] == Point((3 - i) * UNIT, 0)
  {
    [Point(UNIT * 3, 0), Point(UNIT * 2, 0), Point(UNIT, 0), Point(0, 0)]
  }

  /** Every segment is a cell of the board. */
  predicate AllOnBoard(b: Board, snake: seq<Point>) {
    forall i :: 0 <= i < |snake| ==> IsCell(b, snake[i])
  }

  /** Each segment is one step away from the one behind it: the body is connected. */
  predicate Chained(b: Board, snake: seq<Point>)
    requires ValidBoard(b)
  {
    forall i :: 0 <= i < |snake| - 1 ==> Adjacent(b, snake[i + 1], snake[i])
  }

  lemma InitialSnakeFits(b: Board)
    requires ValidBoard(b)
    ensures AllOnBoard(b, InitialSnake()) && Distinct(InitialSnake()) && Chained(b, InitialSnake())
  {
    var s := InitialSnake();
    forall i | 0 <= i < |s| - 1
      ensures Adjacent(b, s[i + 1], s[i])
    {
      assert NextHead(b, s[i + 1], Point(UNIT, 0)) == s[i];
    }
  }
}
