/**
  The game as a whole: every input the page reacts to as one event, the
  state each event leads to, and the facts every reachable state keeps.
 */
module Game {
  import opened Wrappers
  import opened Grid
  import opened Food
  import opened Cells
  import opened GameState
  import opened Movement
  import opened Controls

  /** The inputs: the tick of the game loop, a key, and the page's buttons. */
  datatype Event =
    | TimerTick
    | KeyDown(key: Key)
    | StartClicked            // start screen
    | PauseClicked            // sidebar
    | NewGameClicked          // sidebar, asks first
    | QuitAppClicked          // sidebar, asks first
    | GameOverNewGameClicked  // game-over screen, restarts at once
    | GameOverQuitClicked     // game-over screen, asks first
    | YesClicked
    | NoClicked

  /** The event can be handled: the food loop it may run has a cell to find. */
  ghost predicate Enabled(b: Board, s: State, e: Event) {
    && ValidBoard(b)
    && |s.snake| > 0
    && match e
       case TimerTick => CanTick(b, s)
       case GameOverNewGameClicked => HasFreeCell(b, InitialSnake())
       case YesClicked => CanConfirmYes(b, s)
       case _ => true
  }

  /** Events that may move the snake, place food or change the score. */
  predicate RebuildsBoard(e: Event) {
    e == TimerTick || e == GameOverNewGameClicked || e == YesClicked
  }

  /**
    The state after one event, as the listener of that input leaves it,
    with arrow keys going through the corrected direction guard.
   */
  ghost function Step(b: Board, s: State, e: Event): (r: State)
    requires Enabled(b, s, e)
    ensures !RebuildsBoard(e) ==> r.snake == s.snake && r.food == s.food && r.score == s.score
    ensures e.KeyDown? ==> r == s.(vel := r.vel, paused := r.paused)
  {
    match e
    case TimerTick => Tick(b, s)
    case KeyDown(k) => KeyPress(b, s, k)
    case StartClicked => StartButton(s)
    case PauseClicked => HandlePause(s)
    case NewGameClicked => ShowConfirmation(s, NewGame)
    case QuitAppClicked => ShowConfirmation(s, QuitApp)
    case GameOverNewGameClicked => InitGame(b, s, true)
    case GameOverQuitClicked => ShowConfirmation(s, QuitGameOver)
    case YesClicked => ConfirmYes(b, s)
    case NoClicked => ConfirmNo(s)
  }

  /** The state after one event exactly as the page handles it, arrow keys through its own guard. */
  ghost function StepAsWritten(b: Board, s: State, e: Event): (r: State)
    requires Enabled(b, s, e)
    ensures !RebuildsBoard(e) ==> r.snake == s.snake && r.food == s.food && r.score == s.score
    ensures e.KeyDown? ==> r == s.(vel := r.vel, paused := r.paused)
  {
    match e
    case KeyDown(k) => KeyPressAsWritten(s, k)
    case _ => Step(b, s, e)
  }

  /**
    From the same state, the page as written and the corrected game differ
    on one event only in the velocity, and only where the original turns
    into the neck. Over several events the two may drift apart, since the
    velocity decides where later ticks move the snake.
   */
  lemma AsWrittenDiffersOnlyInVelocity(b: Board, s: State, e: Event)
    requires Enabled(b, s, e)
    ensures StepAsWritten(b, s, e) == Step(b, s, e).(vel := StepAsWritten(b, s, e).vel)
    ensures StepAsWritten(b, s, e).vel != Step(b, s, e).vel ==>
              e.KeyDown? && IntoNeck(b, s.snake, StepAsWritten(b, s, e).vel)
  {
    if e.KeyDown? {
      KeyPressRefinesAsWritten(b, s, e.key);
    }
  }

  /** The state before the page's own set-up runs; the food is not placed yet. */
  const BOOT: State := State(InitialSnake(), START_VEL, Point(0, 0), 0, false, false, None, false)

  /** The state the page shows once loaded: the start screen over a fresh board. */
  ghost function Launch(b: Board): State
    requires ValidBoard(b) && HasFreeCell(b, InitialSnake())
  {
    InitGame(b, BOOT, false)
  }

  /**
    What holds of every state the page reaches: a connected snake on the
    board, a unit velocity, food on a free cell, and a popup that always
    knows its question.
   */
  predicate PageInv(b: Board, s: State) {
    && ValidBoard(b)
    && |s.snake| > 0
    && AllOnBoard(b, s.snake)
    && Chained(b, s.snake)
    && IsUnitStep(s.vel)
    && IsCell(b, s.food) && s.food !in s.snake
    && (s.confirmOpen ==> s.pending.Some?)
  }

  /**
    What the corrected game keeps in addition: on boards at least three
    cells high, the velocity does not point into the neck.
   */
  predicate Inv(b: Board, s: State) {
    && PageInv(b, s)
    && (b.height >= 3 * UNIT ==> !IntoNeck(b, s.snake, s.vel))
  }

  lemma InitGameEstablishesInv(b: Board, s: State, resetScore: bool)
    requires ValidBoard(b) && HasFreeCell(b, InitialSnake())
    ensures Inv(b, InitGame(b, s, resetScore))
  {
    InitialSnakeFits(b);
  }

  /** The loaded page satisfies the invariant, with no game running and a zero score. */
  lemma LaunchSatisfiesInv(b: Board)
    requires ValidBoard(b) && HasFreeCell(b, InitialSnake())
    ensures Inv(b, Launch(b))
    ensures !Launch(b).active && Launch(b).score == 0 && Launch(b).pending == None
  {
    InitGameEstablishesInv(b, BOOT, false);
  }

  lemma TickPreservesPageInv(b: Board, s: State)
    requires PageInv(b, s) && CanTick(b, s)
    ensures PageInv(b, Tick(b, s))
  {
    if s.active && !s.paused {
      var m := MoveSnake(b, s);
      MoveKeepsShape(b, s);
      forall i | 0 <= i < |m.snake| - 1
        ensures Adjacent(b, m.snake[i + 1], m.snake[i])
      {
        if i > 0 {
          assert m.snake[i + 1] == s.snake[i] && m.snake[i] == s.snake[i - 1];
        }
      }
    }
  }

  lemma TickPreservesInv(b: Board, s: State)
    requires Inv(b, s) && CanTick(b, s)
    ensures Inv(b, Tick(b, s))
  {
    TickPreservesPageInv(b, s);
    if s.active && !s.paused {
      var m := MoveSnake(b, s);
      if b.height >= 3 * UNIT && |m.snake| >= 2 {
        TwoStepsDoNotReturn(b, s.snake[0], s.vel);
      }
    }
  }

  /** Every event keeps the invariant. */
  lemma StepPreservesInv(b: Board, s: State, e: Event)
    requires Inv(b, s) && Enabled(b, s, e)
    ensures Inv(b, Step(b, s, e))
  {
    match e
    case TimerTick => TickPreservesInv(b, s);
    case GameOverNewGameClicked => InitGameEstablishesInv(b, s, true);
    case YesClicked =>
      if s.pending == Some(NewGame) || s.pending == Some(QuitApp) {
        InitGameEstablishesInv(b, s.(confirmOpen := false), s.pending == Some(NewGame));
      }
    case _ =>
  }

  /** The page exactly as written keeps every part of the invariant but the neck clause. */
  lemma StepAsWrittenPreservesPageInv(b: Board, s: State, e: Event)
    requires PageInv(b, s) && Enabled(b, s, e)
    ensures PageInv(b, StepAsWritten(b, s, e))
  {
    match e
    case TimerTick => TickPreservesPageInv(b, s);
    case GameOverNewGameClicked => InitGameEstablishesInv(b, s, true);
    case YesClicked =>
      if s.pending == Some(NewGame) || s.pending == Some(QuitApp) {
        InitGameEstablishesInv(b, s.(confirmOpen := false), s.pending == Some(NewGame));
      }
    case _ =>
  }

  /**
    While the snake leaves at least two cells of the board uncovered, every
    event can be handled: the food loop always has a cell to find.
   */
  lemma RoomMeansEnabled(b: Board, s: State, e: Event)
    requires ValidBoard(b) && |s.snake| > 0 && |s.snake| + 1 < CellCount(b) && 4 < CellCount(b)
    ensures Enabled(b, s, e)
  {
    RoomForFood(b, InitialSnake());
    if s.active && !s.paused && Eats(b, s) {
      RoomForFood(b, [NewHead(b, s)] + s.snake);
    }
  }

  /** The events that clear the score: a new game from the game-over screen, or Yes to the new-game question. */
  predicate ResetsScore(s: State, e: Event) {
    e == GameOverNewGameClicked || (e == YesClicked && s.pending == Some(NewGame))
  }

  /**
    The score rule of one event leading from `s` to `t`: only a new game
    clears the score, and otherwise it rises by at most one, only on a
    tick that eats.
   */
  predicate ScoreRule(b: Board, s: State, e: Event, t: State)
    requires ValidBoard(b) && |s.snake| > 0
  {
    && (ResetsScore(s, e) ==> t.score == 0)
    && (!ResetsScore(s, e) ==> s.score <= t.score <= s.score + 1)
    && (t.score == s.score + 1 ==> e == TimerTick && s.active && !s.paused && Eats(b, s))
  }

  /** The score rule holds for every event, in the page as written and in the corrected game. */
  lemma ScoreOnlyResetsOnNewGame(b: Board, s: State, e: Event)
    requires Enabled(b, s, e)
    ensures ScoreRule(b, s, e, Step(b, s, e))
    ensures ScoreRule(b, s, e, StepAsWritten(b, s, e))
  {
  }

  /** How a running game may stop on one event leading from `s` to `t`. */
  ghost predicate EndRule(b: Board, s: State, e: Event, t: State)
    requires Enabled(b, s, e)
  {
    s.active && !t.active ==>
      && (e == TimerTick || e == YesClicked)
      && (e == TimerTick ==> !s.paused && BitesItself(MoveSnake(b, s).snake))
      && (e == YesClicked ==> s.pending == Some(QuitApp))
  }

  /**
    The game ends only on a tick, by the head landing on the body, or by
    Yes to the return-to-start question; in the page as written as in the
    corrected game.
   */
  lemma OnlyATickEndsTheGame(b: Board, s: State, e: Event)
    requires Enabled(b, s, e)
    ensures EndRule(b, s, e, Step(b, s, e))
    ensures EndRule(b, s, e, StepAsWritten(b, s, e))
  {
    if e == TimerTick && s.active && !s.paused {
      TickEndsGameOnBite(b, s);
    }
  }

  /**
    Yes to the return-to-start question shows the start screen over a
    fresh board with the score kept, and the start button then plays on
    from that score.
   */
  lemma ReturnToStartKeepsScore(b: Board, s: State)
    requires ValidBoard(b) && |s.snake| > 0
    requires s.pending == Some(QuitApp) && HasFreeCell(b, InitialSnake())
    ensures Enabled(b, s, YesClicked)
    ensures StepAsWritten(b, s, YesClicked) == Step(b, s, YesClicked)
    ensures var t := Step(b, s, YesClicked);
            StepAsWritten(b, t, StartClicked) == Step(b, t, StartClicked)
    ensures var t := Step(b, s, YesClicked);
            && !t.active && !t.confirmOpen && t.pending == None
            && t.score == s.score && t.snake == InitialSnake()
    ensures var u := Step(b, Step(b, s, YesClicked), StartClicked);
            u.active && !u.paused && u.score == s.score && u.snake == InitialSnake() && u.vel == START_VEL
  {
  }

  /**
    A paused game stands still through any number of ticks and ignores
    every key but the space bar; resuming moves it on from where it
    stopped. The page as written and the corrected game agree here.
   */
  lemma PausedGameIsFrozen(b: Board, s: State)
    requires ValidBoard(b) && |s.snake| > 0 && s.active && s.paused
    ensures Enabled(b, s, TimerTick) && Step(b, s, TimerTick) == s
    ensures StepAsWritten(b, s, TimerTick) == s
    ensures forall k :: k != Space ==> StepAsWritten(b, s, KeyDown(k)) == s && Step(b, s, KeyDown(k)) == s
    ensures var t := Step(b, s, PauseClicked);
            !t.paused && t.snake == s.snake && t.vel == s.vel
    ensures StepAsWritten(b, s, PauseClicked) == Step(b, s, PauseClicked)
  {
  }

  /**
    With the corrected direction guard, on a board at least three cells
    high, a running snake is never steered into the segment behind its head.
   */
  lemma NeverIntoTheNeck(b: Board, s: State)
    requires Inv(b, s) && b.height >= 3 * UNIT && |s.snake| >= 2
    ensures NewHead(b, s) != s.snake[1]
  {
  }

  /** The events `es` can be handled one after another from `s`, each in the state the previous left. */
  ghost predicate Runs(b: Board, s: State, es: seq<Event>)
    decreases |es|
  {
    |es| == 0 || (Enabled(b, s, es[0]) && Runs(b, Step(b, s, es[0]), es[1..]))
  }

  /** The state the corrected game reaches from `s` after the events `es`. */
  ghost function Run(b: Board, s: State, es: seq<Event>): State
    requires Runs(b, s, es)
    decreases |es|
  {
    if |es| == 0 then s else Run(b, Step(b, s, es[0]), es[1..])
  }

  /** The same for the page as written. */
  ghost predicate RunsAsWritten(b: Board, s: State, es: seq<Event>)
    decreases |es|
  {
    |es| == 0 || (Enabled(b, s, es[0]) && RunsAsWritten(b, StepAsWritten(b, s, es[0]), es[1..]))
  }

  ghost function RunAsWritten(b: Board, s: State, es: seq<Event>): State
    requires RunsAsWritten(b, s, es)
    decreases |es|
  {
    if |es| == 0 then s else RunAsWritten(b, StepAsWritten(b, s, es[0]), es[1..])
  }

  /** Any run of the corrected game keeps the full invariant. */
  lemma {:induction false} RunKeepsInv(b: Board, s: State, es: seq<Event>)
    requires Inv(b, s) && Runs(b, s, es)
    ensures Inv(b, Run(b, s, es))
    decreases |es|
  {
    if |es| > 0 {
      StepPreservesInv(b, s, es[0]);
      RunKeepsInv(b, Step(b, s, es[0]), es[1..]);
    }
  }

  /** Any run of the page as written keeps the invariant without the neck clause. */
  lemma {:induction false} RunAsWrittenKeepsPageInv(b: Board, s: State, es: seq<Event>)
    requires PageInv(b, s) && RunsAsWritten(b, s, es)
    ensures PageInv(b, RunAsWritten(b, s, es))
    decreases |es|
  {
    if |es| > 0 {
      StepAsWrittenPreservesPageInv(b, s, es[0]);
      RunAsWrittenKeepsPageInv(b, StepAsWritten(b, s, es[0]), es[1..]);
    }
  }

  /**
    Every state the corrected game reaches from the loaded page, on a board
    at least three cells high, heads away from the segment behind the head.
   */
  lemma ReachableNeverIntoTheNeck(b: Board, es: seq<Event>)
    requires ValidBoard(b) && HasFreeCell(b, InitialSnake()) && b.height >= 3 * UNIT
    requires Runs(b, Launch(b), es)
    ensures var t := Run(b, Launch(b), es);
            |t.snake| >= 2 ==> NewHead(b, t) != t.snake[1]
  {
    LaunchSatisfiesInv(b);
    RunKeepsInv(b, Launch(b), es);
    var t := Run(b, Launch(b), es);
    if |t.snake| >= 2 {
      NeverIntoTheNeck(b, t);
    }
  }

  /** Every state the page as written reaches from the loaded page keeps the invariant without the neck clause. */
  lemma ReachableAsWrittenKeepsPageInv(b: Board, es: seq<Event>)
    requires ValidBoard(b) && HasFreeCell(b, InitialSnake())
    requires RunsAsWritten(b, Launch(b), es)
    ensures PageInv(b, RunAsWritten(b, Launch(b), es))
  {
    LaunchSatisfiesInv(b);
    RunAsWrittenKeepsPageInv(b, Launch(b), es);
  }

  /** A game in progress on a 500 by 500 board: the fresh snake heading right, food far away. */
  const RUNNING: State := BOOT.(food := Point(250, 250), active := true)

  /**
    The direction guard as written lets two arrow keys in one tick turn the
    snake back on itself: Up then Left while heading right points it at its
    neck, and the next tick ends the game. The corrected guard refuses the
    second key and the game goes on.
   */
  lemma QuickTurnBitesNeck()
    ensures var b := Board(500, 500);
            var w := KeyPressAsWritten(KeyPressAsWritten(RUNNING, ArrowUp), ArrowLeft);
            && w.vel == Point(-UNIT, 0)
            && IntoNeck(b, w.snake, w.vel)
            && CanTick(b, w) && !Tick(b, w).active
    ensures var b := Board(500, 500);
            var c := KeyPress(b, KeyPress(b, RUNNING, ArrowUp), ArrowLeft);
            && c.vel == Point(0, -UNIT)
            && CanTick(b, c) && Tick(b, c).active
  {
    var b := Board(500, 500);
    var up := RUNNING.(vel := Point(0, -UNIT));
    assert KeyPressAsWritten(RUNNING, ArrowUp) == up;
    var w := up.(vel := Point(-UNIT, 0));
    assert KeyPressAsWritten(up, ArrowLeft) == w;
    assert NewHead(b, w) == Point(50, 0) != w.food;
    var mw := MoveSnake(b, w);
    assert mw.snake[2] == mw.snake[0];
    assert KeyPress(b, RUNNING, ArrowUp) == up;
    assert NewHead(b, up) == Point(75, 475);
    assert KeyPress(b, up, ArrowLeft) == up;
    var mc := MoveSnake(b, up);
    assert mc.snake == [Point(75, 475), Point(75, 0), Point(50, 0), Point(25, 0)];
    assert !BitesItself(mc.snake);
  }
}
