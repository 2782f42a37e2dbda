/**
  One tick of the game: the snake steps forward (growing when it reaches
  the food) and the game ends if the head lands on the body.
 */
module Movement {
  import opened Grid
  import opened Food
  import opened GameState

  /** The cell the head enters on this tick. */
  function NewHead(b: Board, s: State): Point
    requires ValidBoard(b) && |s.snake| > 0
  {
    NextHead(b, s.snake[0], s.vel)
  }

  /** The head enters the food cell on this tick. */
  predicate Eats(b: Board, s: State)
    requires ValidBoard(b) && |s.snake| > 0
  {
    NewHead(b, s) == s.food
  }

  /**
    The step can be taken: there is a head to move and, when the snake
    eats, a free cell left for the next food (the food loop runs on the
    grown snake, before its tail would have been dropped).
   */
  ghost predicate CanMove(b: Board, s: State) {
    && ValidBoard(b)
    && |s.snake| > 0
    && (Eats(b, s) ==> HasFreeCell(b, [NewHead(b, s)] + s.snake))
  }

  /**
    Moving the snake: the new head goes in front of the whole old body;
    on the food the snake keeps its tail, scores a point and new food is
    placed, otherwise the tail segment is dropped.
   */
  ghost function MoveSnake(b: Board, s: State): (r: State)
    requires CanMove(b, s)
    ensures |r.snake| == |s.snake| + (if Eats(b, s) then 1 else 0)
    ensures r.snake[0] == NewHead(b, s)
    ensures forall i :: 1 <= i < |r.snake| ==> r.snake[i] == s.snake[i - 1]
    ensures r.score == s.score + (if Eats(b, s) then 1 else 0)
    ensures Eats(b, s) ==> IsCell(b, r.food) && r.food !in r.snake
    ensures !Eats(b, s) ==> r.food == s.food
    ensures r.vel == s.vel && r.active == s.active && r.paused == s.paused
    ensures r.pending == s.pending && r.confirmOpen == s.confirmOpen
  {
    var grown := [NewHead(b, s)] + s.snake;
    if Eats(b, s) then
      s.(snake := grown, score := s.score + 1, food := CreateFood(b, grown))
    else
      s.(snake := grown[..|grown| - 1])
  }

  /** The head shares its cell with some later segment. */
  predicate BitesItself(snake: seq<Point>) {
    exists i :: 1 <= i < |snake| && snake[i] == snake[0]
  }

  /** End the game when the head has run into the body; nothing else changes. */
  function CheckGameOver(s: State): (r: State)
    ensures r.active <==> s.active && !BitesItself(s.snake)
    ensures r == s.(active := r.active)
  {
    if BitesItself(s.snake) then s.(active := false) else s
  }

  /** The collision scan as the game performs it: compare each later segment with the head, stopping at the first match. */
  method CheckGameOverLoop(s: State) returns (r: State)
    ensures r == CheckGameOver(s)
  {
    r := s;
    var i := 1;
    while i < |s.snake|
      invariant 1 <= i && (i <= |s.snake| || i == 1)
      invariant r == s
      invariant forall j :: 1 <= j < i ==> s.snake[j] != s.snake[0]
    {
      if s.snake[i] == s.snake[0] {
        r := s.(active := false);
        break;
      }
      i := i + 1;
    }
  }

  /** One tick runs only while a game is active and not paused. */
  ghost predicate CanTick(b: Board, s: State) {
    && ValidBoard(b)
    && |s.snake| > 0
    && (s.active && !s.paused ==> CanMove(b, s))
  }

  /** One tick of the game loop: move, then check for a collision. */
  ghost function Tick(b: Board, s: State): (r: State)
    requires CanTick(b, s)
    ensures !s.active || s.paused ==> r == s
    ensures r.vel == s.vel && r.paused == s.paused && r.pending == s.pending && r.confirmOpen == s.confirmOpen
    ensures r.active ==> s.active
  {
    if s.active && !s.paused then CheckGameOver(MoveSnake(b, s)) else s
  }

  /** While the game runs, each tick ends it exactly when the moved head lands on the moved body. */
  lemma TickEndsGameOnBite(b: Board, s: State)
    requires CanTick(b, s) && s.active && !s.paused
    ensures !Tick(b, s).active <==> BitesItself(MoveSnake(b, s).snake)
    ensures Tick(b, s) == MoveSnake(b, s).(active := Tick(b, s).active)
  {
  }

  /** Length and score grow by one on food and stay put otherwise. */
  lemma TickLengthAndScore(b: Board, s: State)
    requires CanTick(b, s) && s.active && !s.paused
    ensures Eats(b, s) ==> |Tick(b, s).snake| == |s.snake| + 1 && Tick(b, s).score == s.score + 1
    ensures !Eats(b, s) ==> |Tick(b, s).snake| == |s.snake| && Tick(b, s).score == s.score
    ensures !Eats(b, s) ==> Tick(b, s).snake == [NewHead(b, s)] + s.snake[..|s.snake| - 1]
    ensures Eats(b, s) ==> Tick(b, s).snake == [NewHead(b, s)] + s.snake
  {
    var m := MoveSnake(b, s);
    if Eats(b, s) {
      assert m.snake == [NewHead(b, s)] + s.snake;
    } else {
      assert m.snake == [NewHead(b, s)] + s.snake[..|s.snake| - 1];
    }
  }

  /** Moving keeps every segment on the board, and keeps the food off the snake. */
  lemma MoveKeepsShape(b: Board, s: State)
    requires CanMove(b, s) && IsUnitStep(s.vel)
    requires AllOnBoard(b, s.snake) && s.food !in s.snake
    ensures AllOnBoard(b, MoveSnake(b, s).snake)
    ensures MoveSnake(b, s).food !in MoveSnake(b, s).snake
  {
    var m := MoveSnake(b, s);
    if !Eats(b, s) {
      forall i | 0 <= i < |m.snake|
        ensures m.snake[i] != s.food
      {
        if i > 0 {
          assert m.snake[i] == s.snake[i - 1];
        }
      }
    }
  }

  /**
    While the game is running the snake never covers a cell twice: a tick
    that leaves the game active leaves the body free of overlaps.
   */
  lemma TickKeepsSnakeSimple(b: Board, s: State)
    requires CanTick(b, s) && Distinct(s.snake)
    requires Tick(b, s).active
    ensures Distinct(Tick(b, s).snake)
  {
    if s.active && !s.paused {
      var m := MoveSnake(b, s);
      assert !BitesItself(m.snake);
      forall i, j | 0 <= i < j < |m.snake|
        ensures m.snake[i] != m.snake[j]
      {
        if i > 0 {
          assert m.snake[i] == s.snake[i - 1] && m.snake[j] == s.snake[j - 1];
        }
      }
    }
  }

  /**
    The head may enter the cell the tail leaves on the same tick: the tail
    is dropped before the collision scan, so this does not end the game.
   */
  lemma ChasingTheTailIsSafe(b: Board, s: State)
    requires ValidBoard(b) && |s.snake| >= 2 && Distinct(s.snake) && s.food !in s.snake
    requires s.active && !s.paused
    requires NewHead(b, s) == s.snake[|s.snake| - 1]
    ensures CanTick(b, s)
    ensures Tick(b, s).active
  {
    var m := MoveSnake(b, s);
    forall i | 1 <= i < |m.snake|
      ensures m.snake[i] != m.snake[0]
    {
      assert m.snake[i] == s.snake[i - 1];
    }
  }

  /**
    The first tick of a fresh game on a board wider than the snake, with
    the food elsewhere: the head moves one cell right and the old tail
    cell at the origin is dropped.
   */
  lemma FirstTickOfFreshGame(b: Board, s: State)
    requires ValidBoard(b) && b.width > 4 * UNIT
    requires s.snake == InitialSnake() && s.vel == START_VEL
    requires s.active && !s.paused && s.food != Point(4 * UNIT, 0)
    ensures CanTick(b, s)
    ensures Tick(b, s).snake == [Point(100, 0), Point(75, 0), Point(50, 0), Point(25, 0)]
    ensures Tick(b, s).active && Tick(b, s).score == s.score
  {
    var m := MoveSnake(b, s);
    assert m.snake == [Point(100, 0)] + InitialSnake()[..3];
  }
}
