# Snake game logic in Dafny

A model of the game logic of a browser Snake game, separated from the
canvas and the page. The snake lives on a board of 25-pixel cells whose
edges wrap around (a torus). Each tick it moves one cell, grows by one when
its head reaches the food, and the game ends when the head lands on the
body. Arrow keys steer through a guard against reversing. The space bar and
the pause button pause the game. A confirmation popup asks before starting
a new game, returning to the start screen, or quitting.

The whole mutable state of the page (snake, velocity, food, score, and the
flags `active`, `paused`, `pendingAction` and "confirmation popup showing")
is one immutable `GameState.State` record. Every handler is a pure function
from state to state, and `Game.Step` dispatches one input event.

Modules, following the structure of `script.js`:

- `Grid`: the unit, points, the board, wrap-around and adjacency.
- `GameState`: the state record, the start snake and shape predicates.
- `Food`: `isFoodOnSnake` and `createFood`. The random choice is modelled two ways:
  - as an abstract choice of any free cell (`CreateFood`);
  - as the draw-and-retry loop over a given stream of random draws (`SampleFood`), proved to agree with that choice.
- `Cells`: a counting argument that a free cell exists while the snake is shorter than the board.
- `Movement`: `moveSnake`, `checkGameOver`, and one tick of the loop.
- `Controls`: key handling, pause, start, the confirmation flow and `initGame`.
- `Game`: events, the global invariant, and the score, pause and neck-safety properties.

Model decisions:

- The board size is a parameter, because the canvas dimensions are not part of the script. `ValidBoard` asks for:
  - a positive whole number of cells each way;
  - a width of at least four cells, so the start snake fits.
- Coordinates are mathematical integers. The page's numbers are floating point, but every coordinate stays a small integer, so nothing is lost.
- The random source is a sequence of reals in [0, 1). Floating-point rounding of `Math.random() * WIDTH / UNIT` is not modelled.
- Handlers that place food are ghost functions, because the abstract choice of a free cell uses `:|`. These are `CreateFood`, `MoveSnake`, `Tick`, `InitGame`, `ConfirmYes` and `Step`.
- One tick is `CheckGameOver(MoveSnake(s))`. It applies only while `active && !paused`, which is when the game loop has a tick scheduled. Otherwise the state is unchanged.
- `Game.Step` handles arrow keys with the corrected direction guard `Controls.KeyPress` (see Findings). `Game.StepAsWritten` is the page exactly as written, with `Controls.KeyPressAsWritten`. `Game.AsWrittenDiffersOnlyInVelocity` relates the two.
- The three questions of the confirmation popup are named after the code:
  - `QuitApp` is the question of the sidebar quit button (script.js:59). Yes returns to the start screen and keeps the score (script.js:336-337).
  - `QuitGameOver` is the question of the game-over quit button (script.js:62-64). Yes only says farewell (script.js:338-339).
- Answering No to `NewGame` or `QuitApp` clears `paused`, even when the player had paused the game before asking (script.js:348-349).
- The space bar toggles the pause even while the confirmation popup is open, because the popup check guards only the arrow keys (script.js:386-390).

## Model

| member | source | states |
|---|---|---|
| Grid.Wrap | script.js:247-256 | an in-range coordinate is kept, a coordinate below zero becomes the last cell (extent minus one cell) and one at or past the extent becomes zero; the result is always inside the board |
| Grid.NextHead | script.js:243-256 | the new head is the old head plus the velocity, each axis wrapped; from a board cell with a unit velocity it is again a board cell |
| Grid.WrapIsModulo | script.js:247-256 | for on-grid coordinates and steps of at most one cell, the wrap equals arithmetic modulo the board extent (the board is a torus) |
| Grid.EdgesAreGlued | script.js:247-256 | leaving the right, left, bottom or top edge re-enters at the opposite edge, and the other axis does not move |
| Grid.TwoStepsDoNotReturn | script.js:243-256 | on a board at least three cells high, two steps in one direction never return to the start cell |
| GameState.InitialSnake | script.js:27-32 | the start snake has four segments, head at (75,0), each one cell left of the one before |
| GameState.InitialSnakeFits | script.js:27-32 | on any valid board the start snake lies on board cells, has no repeated cell and is connected |
| Food.IsFoodOnSnake | script.js:121-123 | the scan holds exactly when some segment equals the point |
| Food.CreateFood | script.js:125-134 | the chosen food cell is a board cell on the grid and not on any segment |
| Food.Scale | script.js:128-129 | a random value in [0,1), scaled and floored to whole cells, gives a grid coordinate inside the board |
| Food.Candidate | script.js:127-129 | every attempt of the loop proposes a board cell |
| Food.SampleFood | script.js:125-134 | the loop returns the first draw whose cell is off the snake (every earlier draw hit the snake), which is a free board cell; it fails exactly when every draw hits the snake |
| Food.ScaleHits | script.js:128-129 | every grid coordinate is produced by some random value in [0,1) |
| Food.EveryFreeCellCanBeDrawn | script.js:125-134 | every free cell is a possible outcome of the loop, so the sampler can reach every cell the abstract choice can pick |
| Food.SampledMeansFree | script.js:125-134 | a successful run of the loop shows that a free cell exists |
| Cells.RoomForFood | script.js:125-134 | while the snake has fewer segments than the board has cells, a free cell exists for the loop to find |
| Movement.MoveSnake | script.js:243-267 | the new body is the new head followed by the old body; on food, length and score grow by one and new food is placed off the snake; otherwise the tail is dropped, and length, score and food are unchanged; no flag changes |
| Movement.CheckGameOver | script.js:288-295 | `active` becomes false exactly when the head equals a segment at index 1 or more; nothing else changes |
| Movement.CheckGameOverLoop | script.js:288-295 | the loop over the later segments, stopping at the first match, computes the same state as the collision rule |
| Movement.Tick | script.js:270-279 | a paused or inactive game does not change; a tick never changes velocity, pause or popup flags, and never makes a finished game active |
| Movement.TickEndsGameOnBite | script.js:272-278 | a running tick ends the game exactly when the moved head lands on the moved body; otherwise the state is the moved state |
| Movement.TickLengthAndScore | script.js:259-267 | a tick that eats gives head + whole old body, with one more point; otherwise head + body without its last segment, with the same length and score |
| Movement.MoveKeepsShape | script.js:243-267 | moving keeps every segment on the board and the food off the snake |
| Movement.TickKeepsSnakeSimple | script.js:288-295 | a tick after which the game is still active leaves a snake with no repeated cell |
| Movement.ChasingTheTailIsSafe | script.js:259-294 | the head may enter the cell the tail leaves on the same tick without ending the game, since the tail is dropped before the scan |
| Movement.FirstTickOfFreshGame | script.js:243-267 | from the start snake heading right with no food eaten, one tick gives [(100,0),(75,0),(50,0),(25,0)] and the game goes on |
| Controls.Heading | script.js:392-407 | each arrow key asks for one of the four unit velocities |
| Controls.Steer | script.js:391-408 | the guard keeps the velocity or takes the key's heading; from a unit velocity it gives a unit velocity, never the exact reverse |
| Controls.SteerTurnsUnlessReversing | script.js:391-408 | an arrow key changes a unit velocity to its heading exactly when the heading is not the reverse of that velocity |
| Controls.HandlePause | script.js:360-374 | nothing changes when the game is inactive; when it is active only `paused` flips |
| Controls.PauseTwiceRestores | script.js:360-374 | two pause toggles in a row restore the state |
| Controls.StartButton | script.js:48-53 | the start button makes the game active and changes nothing else |
| Controls.KeyPressAsWritten | script.js:380-410 | space routes to the pause toggle; any other key changes at most the velocity, and nothing at all when the game is inactive, paused or the popup is open; otherwise the new velocity is the direction guard applied to the key; the velocity stays a unit vector and never becomes the reverse of the current one |
| Controls.KeyPress | script.js:380-410 | the same handler with the direction guard corrected (see Findings): any key but space changes at most the velocity; in a running game the key's guarded velocity is taken unless it is a turn into the neck, which is refused; a changed velocity never leads the head into the neck |
| Controls.ReverseKeyIgnored | script.js:391-408 | the arrow key opposite the current heading leaves the whole state unchanged, whatever the flags |
| Controls.KeyPressRefinesAsWritten | script.js:390-409 | the corrected handler differs from the original only by refusing a turn into the neck |
| Controls.ShowConfirmation | script.js:299-328 | records the question and opens the popup; pauses an active, unpaused game unless the question is `QuitGameOver`; nothing else changes |
| Controls.ConfirmNo | script.js:344-356 | closes the popup and clears the question; after `NewGame` or `QuitApp` the game is unpaused, otherwise `paused` is kept |
| Controls.DeclineResumes | script.js:299-356 | asking a question during an unpaused game and answering No returns exactly the same game |
| Controls.InitGame | script.js:71-105 | restores the start snake and the velocity (UNIT,0), unpauses, closes the popup and places food off the snake; clears the score only when `resetScore` is set; `active` equals `resetScore` |
| Controls.ConfirmYes | script.js:330-342 | clears the question and closes the popup; `NewGame` starts a new game with score 0, `QuitApp` returns to the start screen keeping the score, `QuitGameOver` changes nothing else |
| Game.InitGameEstablishesInv | script.js:71-112 | a fresh board satisfies the game invariant |
| Game.LaunchSatisfiesInv | script.js:412-413 | the loaded page satisfies the invariant, with no game running, score 0 and no pending question |
| Game.TickPreservesPageInv | script.js:243-295 | a tick keeps the snake connected and on the board, the velocity a unit vector, the food on a free cell and the popup's question recorded |
| Game.TickPreservesInv | script.js:243-295 | a tick keeps the snake connected and on the board, the velocity a unit vector, the food on a free cell, and (on boards at least three cells high) the velocity pointing away from the neck |
| Game.Step | script.js:45-67 | one input event of the corrected game: only a tick, a new game from the game-over screen or Yes can change snake, food or score; a key press changes at most velocity and pause |
| Game.StepAsWritten | script.js:45-67 | one input event exactly as the page handles it, with the same frame: only a tick, a new game from the game-over screen or Yes can change snake, food or score; a key press changes at most velocity and pause |
| Game.AsWrittenDiffersOnlyInVelocity | script.js:390-409 | the page as written and the corrected game agree on every event except in the velocity, and their velocities differ only when the page turns into the neck |
| Game.StepAsWrittenPreservesPageInv | script.js:45-67 | the page as written keeps every part of the invariant but the neck clause on every input event |
| Game.StepPreservesInv | script.js:45-67 | with the corrected direction guard, every input event keeps the game invariant, including the velocity pointing away from the neck |
| Game.RoomMeansEnabled | script.js:125-134 | from any state, in the page as written as in the corrected game, while at least two cells are uncovered every event can be handled because the food loop has a cell to find |
| Game.ScoreOnlyResetsOnNewGame | script.js:80-83 | in the page as written and in the corrected game, from any state where the event can be handled: the score drops only to zero, and only on a new game; otherwise it rises by at most one, and only on a tick that eats |
| Game.OnlyATickEndsTheGame | script.js:288-295 | in the page as written and in the corrected game, from any state where the event can be handled: a running game ends only on an unpaused tick where the head lands on the body, or by Yes to the return-to-start question |
| Game.ReturnToStartKeepsScore | script.js:336-337 | from any state with that question pending, Yes gives the start screen over a fresh snake with the score kept, and the start button then plays on from that score; the page as written does the same |
| Game.PausedGameIsFrozen | script.js:270-286 | in the page as written and in the corrected game, a tick or any key but space does not change a paused game; resuming keeps the snake and velocity where they stopped |
| Game.NeverIntoTheNeck | script.js:390-409 | with the corrected guard, on boards at least three cells high, the next head is never the segment right behind the head |
| Game.RunKeepsInv | script.js:45-67 | every sequence of events the corrected game can handle keeps the full invariant |
| Game.RunAsWrittenKeepsPageInv | script.js:45-67 | every sequence of events the page as written can handle keeps the invariant without the neck clause |
| Game.ReachableNeverIntoTheNeck | script.js:390-409 | in every state the corrected game reaches from the loaded page, on boards at least three cells high, the next head is not the segment right behind the head |
| Game.ReachableAsWrittenKeepsPageInv | script.js:45-67 | every state the page as written reaches from the loaded page has a connected snake on the board, a unit velocity, food on a free cell and a recorded question while the popup is open |
| Game.QuickTurnBitesNeck | script.js:390-409 | on a 500x500 board, Up then Left within one tick ends a fresh game under the original guard; the corrected guard refuses Left and the game goes on |

## Left out

- Drawing is not modelled: `clearBoard`, `displayFood`, `drawSnake`, `drawSnakeHead` and the "PAUSED" text. They do not affect the game state.
- Page updates are not modelled: popup class toggling, the score and final-score text, and the confirmation labels and message. The one exception is the confirmation popup's visibility, which `keyPress` reads; it is the `confirmOpen` flag.
- Start and game-over popup visibility is not modelled. Every button's event may occur in any state, so `StartClicked` can also follow a finished game.
- The timer chain of `nextTick` (`setTimeout`/`clearTimeout`) is not modelled; one tick is a pure step that applies only while `active && !paused`. Showing the game-over popup when a tick finds the game inactive is not modelled either.
- A second timer chain is not modelled. The page can start one: open a sidebar question (which pauses), press space (which unpauses and starts a chain), then answer No (which starts another, script.js:348-350). The scheduled callback runs `moveSnake` and `checkGameOver` without re-checking `active` or `paused` (script.js:272-278). `clearTimeout` cancels only the most recently scheduled callback (script.js:72, 323, 367), so the other chain keeps running. It can move a paused snake, a finished one, or the fresh snake of the start screen after Yes to `QuitApp`. Such a move can eat and score, and the following `nextTick` then shows the game-over popup.
- Movement.Tick: its `active && !paused` guard models the page only while a single timer chain runs; with a second chain the page also moves inactive and paused games.
- Game.PausedGameIsFrozen: holds only while a single timer chain runs; a stray second chain moves a paused snake.
- `Math.random` becomes either an abstract choice or a supplied sequence of draws. The unbounded retry loop becomes a precondition that a free cell exists. When a snake that has just eaten covers every cell, the do-while at script.js:127-130 never exits and the page freezes, because the game has no win state; the free-cell clause of `Movement.CanMove` excludes exactly this case. Floating-point rounding and the probability that the loop ends are not modelled.
- The `alert` of `handleQuit` is not modelled. Yes to the game-over question only closes the popup and clears the question.
- Raw `keyCode` values are not modelled; keys are the `Key` datatype.
- The board size comes from the canvas, which is outside the script. It is a parameter restricted by `ValidBoard`.
- Movement.Tick: requires a non-empty snake even when paused, which the original does not need. The snake is never empty: it starts with four segments and never shrinks.
- Game.NeverIntoTheNeck: holds only on boards at least three cells high. On one- or two-row boards a vertical step can return to the neck under any guard, and the original does the same.
- Game.ReachableNeverIntoTheNeck: holds only on boards at least three cells high, for the same reason.

## Findings

| source | as written | input that shows it | evidently intended | confidence | as-written member | corrected member |
|---|---|---|---|---|---|---|
| script.js:390-409 | the reversal guard compares the requested direction with the current velocity, which an earlier key press in the same tick may already have changed | fresh game heading right on a 500x500 board; press Up, then Left, before the next tick; the head moves to (50,0), the segment behind it, and the game ends | a turn that would send the head into the segment behind it is refused; the guard exists to stop the snake reversing into itself | high; not executed | Controls.KeyPressAsWritten (counterexample Game.QuickTurnBitesNeck) | Controls.KeyPress (property Game.ReachableNeverIntoTheNeck) |
