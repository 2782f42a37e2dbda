/**
  The event handlers: arrow keys and the space bar, the pause button, the
  start button, and the confirmation popup with its Yes and No answers.
 */
module Controls {
  import opened Wrappers
  import opened Grid
  import opened Food
  import opened GameState

  /** The keys the game reacts to; every other key is `OtherKey`. */
  datatype Key = ArrowLeft | ArrowUp | ArrowRight | ArrowDown | Space | OtherKey

  predicate IsArrow(k: Key) {
    k.ArrowLeft? || k.ArrowUp? || k.ArrowRight? || k.ArrowDown?
  }

  /** The velocity an arrow key asks for. */
  function Heading(k: Key): (v: Point)
    requires IsArrow(k)
    ensures IsUnitStep(v)
  {
    match k
    case ArrowLeft => Point(-UNIT, 0)
    case ArrowUp => Point(0, -UNIT)
    case ArrowRight => Point(UNIT, 0)
    case ArrowDown => Point(0, UNIT)
  }

  /**
    The direction guard: an arrow key sets its heading unless the current
    velocity on the same axis points the opposite way; any other key leaves
    the velocity alone.
   */
  function Steer(vel: Point, k: Key): (r: Point)
    ensures r == vel || (IsArrow(k) && r == Heading(k))
    ensures IsUnitStep(vel) ==> r != Reverse(vel)
  {
    match k
    case ArrowLeft => if vel.x != UNIT then Point(-UNIT, 0) else vel
    case ArrowRight => if vel.x != -UNIT then Point(UNIT, 0) else vel
    case ArrowUp => if vel.y != UNIT then Point(0, -UNIT) else vel
    case ArrowDown => if vel.y != -UNIT then Point(0, UNIT) else vel
    case _ => vel
  }

  /** For a unit velocity, an arrow key turns the snake exactly when it does not ask for the reverse. */
  lemma SteerTurnsUnlessReversing(vel: Point, k: Key)
    requires IsUnitStep(vel) && IsArrow(k)
    ensures Steer(vel, k) == Heading(k) <==> Heading(k) != Reverse(vel)
    ensures Steer(vel, k) != Heading(k) ==> Steer(vel, k) == vel
  {
  }

  /** The pause toggle: flips `paused` while a game is active, does nothing otherwise. */
  function HandlePause(s: State): (r: State)
    ensures !s.active ==> r == s
    ensures s.active ==> r.paused != s.paused
    ensures r == s.(paused := r.paused)
  {
    if s.active then s.(paused := !s.paused) else s
  }

  /** Pausing twice is no change at all. */
  lemma PauseTwiceRestores(s: State)
    ensures HandlePause(HandlePause(s)) == s
  {
  }

  /** The start button begins the game with whatever snake, food and score are in place. */
  function StartButton(s: State): (r: State)
    ensures r.active && r == s.(active := true)
  {
    s.(active := true)
  }

  /**
    A key press as the game handles it: the space bar toggles the pause;
    then, while the game is active, not paused and no confirmation popup
    is showing, an arrow key goes through the direction guard.
   */
  function KeyPressAsWritten(s: State, k: Key): (r: State)
    ensures k == Space ==> r == HandlePause(s)
    ensures k != Space && (!s.active || s.paused || s.confirmOpen) ==> r == s
    ensures k != Space && s.active && !s.paused && !s.confirmOpen ==> r.vel == Steer(s.vel, k)
    ensures k != Space ==> r == s.(vel := r.vel)
    ensures IsUnitStep(s.vel) ==> IsUnitStep(r.vel) && r.vel != Reverse(s.vel)
    ensures r == s.(vel := r.vel, paused := r.paused)
  {
    var t := if k == Space then HandlePause(s) else s;
    if t.active && !t.paused && !t.confirmOpen then t.(vel := Steer(t.vel, k)) else t
  }

  /** The arrow key opposite the current heading changes nothing, whatever the flags. */
  lemma ReverseKeyIgnored(s: State)
    ensures s.vel == Point(UNIT, 0) ==> KeyPressAsWritten(s, ArrowLeft) == s
    ensures s.vel == Point(-UNIT, 0) ==> KeyPressAsWritten(s, ArrowRight) == s
    ensures s.vel == Point(0, UNIT) ==> KeyPressAsWritten(s, ArrowUp) == s
    ensures s.vel == Point(0, -UNIT) ==> KeyPressAsWritten(s, ArrowDown) == s
  {
  }

  /** The snake would, on its next step with velocity `v`, enter the cell right behind its head. */
  predicate IntoNeck(b: Board, snake: seq<Point>, v: Point)
    requires ValidBoard(b)
  {
    |snake| >= 2 && NextHead(b, snake[0], v) == snake[1]
  }

  /**
    The direction guard with the check it evidently intends: besides the
    guard above, a turn is refused when it would send the head into the
    segment behind it. (The guard above only compares with the current
    velocity, which an earlier key press in the same tick may already
    have changed.)
   */
  function KeyPress(b: Board, s: State, k: Key): (r: State)
    requires ValidBoard(b)
    ensures k == Space ==> r == HandlePause(s)
    ensures k != Space && (!s.active || s.paused || s.confirmOpen) ==> r == s
    ensures IsUnitStep(s.vel) ==> IsUnitStep(r.vel) && r.vel != Reverse(s.vel)
    ensures k != Space && s.active && !s.paused && !s.confirmOpen ==>
              var v := Steer(s.vel, k);
              r.vel == (if v != s.vel && IntoNeck(b, s.snake, v) then s.vel else v)
    ensures r.vel != s.vel ==> !IntoNeck(b, s.snake, r.vel)
    ensures k != Space ==> r == s.(vel := r.vel)
    ensures r == s.(vel := r.vel, paused := r.paused)
  {
    var t := if k == Space then HandlePause(s) else s;
    if t.active && !t.paused && !t.confirmOpen then
      var v := Steer(t.vel, k);
      if v != t.vel && IntoNeck(b, t.snake, v) then t else t.(vel := v)
    else t
  }

  /** The corrected handler differs from the original only by refusing turns into the neck. */
  lemma KeyPressRefinesAsWritten(b: Board, s: State, k: Key)
    requires ValidBoard(b)
    ensures var w := KeyPressAsWritten(s, k);
            KeyPress(b, s, k) == (if w.vel != s.vel && IntoNeck(b, s.snake, w.vel) then w.(vel := s.vel) else w)
  {
  }

  /**
    Showing the confirmation popup records the question and pauses a
    running game, except for the quit question asked from the game-over
    screen.
   */
  function ShowConfirmation(s: State, a: Action): (r: State)
    ensures r.pending == Some(a) && r.confirmOpen
    ensures r.paused <==> s.paused || (s.active && a != QuitGameOver)
    ensures r == s.(pending := r.pending, confirmOpen := r.confirmOpen, paused := r.paused)
  {
    var t := s.(pending := Some(a), confirmOpen := true);
    if s.active && !s.paused && a != QuitGameOver then t.(paused := true) else t
  }

  /**
    Answering No closes the popup and forgets the question; after the
    new-game or quit-to-start questions the game is resumed.
   */
  function ConfirmNo(s: State): (r: State)
    ensures r.pending == None && !r.confirmOpen
    ensures s.pending == Some(NewGame) || s.pending == Some(QuitApp) ==> !r.paused
    ensures !(s.pending == Some(NewGame) || s.pending == Some(QuitApp)) ==> r.paused == s.paused
    ensures r == s.(pending := None, confirmOpen := false, paused := r.paused)
  {
    var t := s.(confirmOpen := false, pending := None);
    if s.pending == Some(NewGame) || s.pending == Some(QuitApp) then t.(paused := false) else t
  }

  /**
    Asking a question during an unpaused game and answering No returns to
    exactly that game, only the record of the last question is cleared.
   */
  lemma DeclineResumes(s: State, a: Action)
    requires s.active && !s.paused && !s.confirmOpen && s.pending == None
    ensures ConfirmNo(ShowConfirmation(s, a)) == s
  {
  }

  /**
    A fresh game: the start snake heading right, unpaused, popup closed,
    new food placed; the score is cleared and the game starts only when
    `resetScore` is set, otherwise the start screen waits.
   */
  ghost function InitGame(b: Board, s: State, resetScore: bool): (r: State)
    requires ValidBoard(b) && HasFreeCell(b, InitialSnake())
    ensures r.snake == InitialSnake() && r.vel == START_VEL
    ensures !r.paused && !r.confirmOpen && r.active == resetScore
    ensures r.score == (if resetScore then 0 else s.score)
    ensures IsCell(b, r.food) && r.food !in r.snake
    ensures r.pending == s.pending
  {
    s.(active := resetScore, paused := false, snake := InitialSnake(), vel := START_VEL,
       score := if resetScore then 0 else s.score, confirmOpen := false,
       food := CreateFood(b, InitialSnake()))
  }

  /** Yes is answerable: a board to play on and, when the answer restarts, room for food. */
  ghost predicate CanConfirmYes(b: Board, s: State) {
    && ValidBoard(b)
    && (s.pending == Some(NewGame) || s.pending == Some(QuitApp) ==> HasFreeCell(b, InitialSnake()))
  }

  /**
    Answering Yes closes the popup and carries out the question: a new
    game for `NewGame`, the start screen (score kept) for `QuitApp`,
    and for `QuitGameOver` only the farewell, which changes no state.
   */
  ghost function ConfirmYes(b: Board, s: State): (r: State)
    requires CanConfirmYes(b, s)
    ensures r.pending == None && !r.confirmOpen
    ensures s.pending == Some(NewGame) ==> r == InitGame(b, s, true).(pending := None)
    ensures s.pending == Some(QuitApp) ==> r == InitGame(b, s, false).(pending := None)
    ensures !(s.pending == Some(NewGame) || s.pending == Some(QuitApp)) ==> r == s.(pending := None, confirmOpen := false)
  {
    var t := s.(confirmOpen := false);
    var u :=
      match s.pending
      case Some(NewGame) => InitGame(b, t, true)
      case Some(QuitApp) => InitGame(b, t, false)
      case _ => t;
    u.(pending := None)
  }
}
