# Snake game state machine, modelled in Dafny

This project models the game logic of a browser snake game (`script.js`). The board is 20 × 20 cells: a canvas of 400 pixels whose cells are 20 pixels wide. The snake is a list of cells with the head first. The game state is the page's module-level variables: `snake`, `food`, `direction`, `nextDirection`, `score`, `highScore`, `gameSpeed`, `gameStarted` and `gamePaused`. These operations change it:

- `startGame`/`resetGame` build a five-cell snake at (10,10)…(6,10), heading right, with score 0.
- `update` runs one tick. It commits the buffered heading and tests the new head against the walls and the whole pre-move body. It then moves the snake, or grows it when the head lands on the food, and scores.
- `changeDirection` buffers a heading unless it reverses the committed one.
- `togglePause`, `updateDifficulty` and `gameOver` set the run flags and the speed.
- `generateFood` lists the free cells column by column and picks one at random.
- `getDifficultyMultiplier` and the speed switch are lookup tables.

Modules:

- `Grid`: cells, headings, bounds, one step of movement.
- `Difficulty`: the speed and score tables.
- `Food`: the free-cell enumeration, the random choice and `generateFood` with its nested loops.
- `Collision`: `checkCollision` with its search loop.
- `Rules`: the whole state as a `State` value, one function per operation, and the lemmas. These cover single ticks, the invariant (distinct in-bounds body, food off the body, buffered heading never the reverse of the committed one, score at most the high score) and runs of events.
- `Game`: class `Session` holds the variables as fields. Its methods update them in place and are proved to agree with the `Rules` functions and to keep the invariant.
- `Timers`: the interval bookkeeping of `startGame`, kept only to show the finding below.

External inputs become parameters:

- `level` is the difficulty selector's value, which the game reads at call time.
- `pick` is a natural number standing for the random draw of `Math.random()`. The chosen index is `pick % n`.
- The stored high score is the constructor's argument.

## Model

| member | source | states |
|---|---|---|
| Grid.BoardConstants | script.js:74-75 | the board has CANVAS_SIZE / GRID_SIZE = 20 cells per side and the snake starts at column and row floor(20 / 2) = 10 |
| Grid.Opposite | script.js:309-314 | the reverse heading is never the heading itself and lies on the same axis |
| Grid.Move | script.js:160-175 | the candidate head is a cell sharing a side with the old head; up/down keep the column, left/right keep the row |
| Grid.MoveUndoneByOpposite | script.js:162-175 | stepping along the reverse heading returns to the old head |
| Grid.MoveInjective | script.js:162-175 | two headings lead to the same cell only when they are equal |
| Difficulty.Speed | script.js:131-146 | easy gives 8 ticks per second, hard 17, every other value (medium included) 12 |
| Difficulty.Multiplier | script.js:208-220 | points per food are 1..3: medium 2, hard 3, easy and any unknown value 1 |
| Difficulty.UnknownLevelDefaults | script.js:208-220 | an unknown level runs at medium speed but scores like easy, not like medium |
| Difficulty.HarderIsFasterAndRicher | script.js:134-146 | easy < medium < hard for both the speed and the multiplier |
| Food.FreePrefixMembers | script.js:252-267 | after the first n cells of the column-major scan, the list holds exactly the in-bounds cells with index below n that the snake does not occupy |
| Food.FreeCellsExactly | script.js:250-267 | a cell is in `emptySpaces` if and only if it is on the board and not on the snake |
| Food.NoFreeCellIffFull | script.js:250-270 | `emptySpaces` is empty if and only if the snake covers every board cell |
| Food.RandomIndex | script.js:271 | the index drawn for the free-cell list is a valid index below its length n |
| Food.RandomIndexReachesEvery | script.js:271 | every index below n is drawn by some random value, so every free cell can receive the food |
| Food.PlacementFree | script.js:269-273 | when a free cell exists the food is put on the board off the snake; on a full board the old food stays |
| Food.GenerateFood | script.js:246-274 | the nested scan and random pick give exactly the specified placement, on a free cell whenever one exists and the old food otherwise |
| Collision.CheckCollision | script.js:224-243 | the result is true exactly when the position is off the board or equals some cell of the body |
| Collision.AdvanceKeepsBodyValid | script.js:178-204 | prepending a non-fatal head keeps the body distinct and in bounds, with or without dropping the last cell |
| Collision.FullBoardIsFatal | script.js:226-240 | when the snake fills the board every candidate head is fatal |
| Rules.Initial | script.js:9-18 | the loaded page has an empty snake, no food, score 0, not started nor paused, and meets the invariant |
| Rules.ChangeDirection | script.js:307-317 | the four-case guard buffers the request exactly when it is not the reverse of the committed heading, and changes nothing else |
| Rules.ChangeDirectionNeverReverses | script.js:307-317 | the buffered heading is never the reverse of the committed one, a reversing request is a no-op, and the invariant is kept |
| Rules.TickCommitsHeading | script.js:157 | a tick commits the buffered heading, so consecutive committed headings are never opposite |
| Rules.TickPlainMove | script.js:157-204 | with no collision and no food the length is unchanged, the head moves one cell along the committed heading and the rest is the old body minus its last cell; score, high score and food are unchanged |
| Rules.TickEats | script.js:184-200 | on food the snake grows by exactly one keeping its old tail, the score rises by exactly the multiplier, and the high score becomes the score only if the score passes it |
| Rules.TickFatal | script.js:178-181 | a tick is fatal exactly when the new head has x<0, y<0, x>=20, y>=20 or equals a pre-move body cell; then only the started flag (and the commit) change |
| Rules.TickOntoTailEnds | script.js:157-181 | a tick onto the cell the tail is about to leave ends the game: the snake stays as it was, only the heading is committed and the started flag cleared |
| Rules.TickPlacesFoodOffSnake | script.js:199-200 | after eating, the new food is on the board and off the grown snake unless the board is full |
| Rules.TickPreservesInv | script.js:155-205 | every tick keeps the body distinct and in bounds, the food off the body, the buffer non-reversing and the score at most the high score; the high score never decreases |
| Rules.StartLayout | script.js:66-100 | starting a running game is a no-op; otherwise score 0, both headings right, snake (10,10),(9,10),(8,10),(7,10),(6,10), food on a free cell, the level's speed, high score kept |
| Rules.StartPreservesInv | script.js:66-90 | starting keeps the invariant |
| Rules.TogglePauseFlipsOnlyFlag | script.js:109-112 | pausing before a start is a no-op; otherwise only the pause flag flips, and two toggles restore the state |
| Rules.StepPreservesInv | script.js:66-317 | each page event keeps the invariant and never lowers the high score |
| Rules.RunPreservesInv | script.js:66-317 | over any sequence of starts, pauses, turns, difficulty changes and ticks the invariant holds and the high score never decreases |
| Rules.StepKeepsSnake | script.js:66-317 | no event empties a snake that has cells, so a tick always has a head to move |
| Rules.RunKeepsSnake | script.js:66-317 | over any sequence of events after a start the snake keeps at least one cell |
| Game.Session.constructor | script.js:9-18 | the session starts in the loaded-page state, which is valid |
| Game.Session.StartGame | script.js:66-90 | the snake-building loop and the calls leave the session in the state of `Rules.Start` and keep it valid |
| Game.Session.ResetGame | script.js:93-100 | score 0 and both headings right, nothing else changed |
| Game.Session.TogglePause | script.js:109-120 | the session moves as `Rules.TogglePause` says |
| Game.Session.UpdateDifficulty | script.js:131-152 | the speed becomes `Speed(level)`, nothing else changed |
| Game.Session.Update | script.js:155-205 | one tick moves the session as `Rules.Tick` says, keeps it valid and never lowers the high score |
| Game.Session.ChangeDirection | script.js:307-317 | the session moves as `Rules.ChangeDirection` says |
| Game.Session.GameOver | script.js:493-499 | only the started flag is cleared |
| Timers.StartLeaksInterval | script.js:66-152 | as written, a start leaves two intervals running and keeps only the second handle; a pause then leaves the first one running |
| Timers.StartKeepsOneInterval | script.js:66-152 | with the loop started once, exactly the interval held in `gameLoop` runs and a pause stops every tick |
| Timers.OtherCallsKeepTidy | script.js:109-152 | difficulty changes, pausing, game over and resuming keep at most the held interval running |

The method `Game.OpeningMoves` (script.js:66-90, 155-205, 307-317) plays the first moves of a game on a `Session`. It checks that the snake starts at (10,10)…(6,10) at easy speed and that one tick puts the head on (11,10), growing the snake and scoring 1 only when the food was there. It also checks that a reversing turn is refused and that a pause flips only the pause flag.

In these places the code behaves in ways a reader might not expect; the model keeps that behaviour:

- An unknown difficulty scores 1 per food, as easy does, not 2 as medium does. Its speed is medium's 12.
- `update` does not check `gameStarted` or `gamePaused`. A tick delivered after game over or while paused is applied like any other.
- A full board gives no win or terminal signal. `generateFood` leaves the food where it was, which is the head that has just eaten it. The invariant allows the food on the body only in that case. Every later tick on a full board is fatal.
- The food is not removed at game over. It stays until the next start replaces it.

## Left out

- Canvas rendering (`render`, `drawGrid`, `drawEmptyGame`, `drawSnake`, `drawSnakeEyes`, `drawFood`) is pure presentation with floating-point geometry.
- DOM wiring, button labels and the game-over dialog (`showGameOverModal`, `hideGameOverModal`) are I/O. `restartGame` only hides the dialog and calls `startGame`, so `Game.Session.StartGame` covers it.
- `handleKeyPress` maps keys to `changeDirection`, `startGame` and `togglePause`. Those operations are modelled; the key mapping is not.
- The game sessions have no timers. Ticks are explicit calls to `Game.Session.Update`, and only the integer speed table is kept. The interval of `1000 / gameSpeed` ms is floating point. The `Timers` module models only the interval handles of `startGame`, `updateDifficulty`, `togglePause` and `gameOver`, to show the finding.
- `localStorage` is left out: the stored high score is a constructor argument. Writing it back and comparing a stored string with a number are not modelled.
- Food.RandomIndex: `Math.floor(Math.random() * n)` becomes the parameter `pick` reduced modulo n. This keeps the index in range and lets every free cell be chosen. The floating-point scaling and the distribution of the draw are not modelled.
- Headings are the enumeration `Direction`. The game passes the strings "up", "down", "left" and "right", and no other string reaches `changeDirection` or `update`.
- `gameSpeed` is `None` until the first `updateDifficulty`. In the game it is undefined until then.
- Rules.Step: a tick that reaches a state with an empty snake is dropped. In the game no interval runs before the first start, so `update` never sees an empty snake. `Game.Session.Update` requires a non-empty snake for the same reason. `Rules.StartLayout` gives the started snake five cells, and `Rules.StepKeepsSnake` and `Rules.RunKeepsSnake` show that no later event empties it.

## Findings

| source | as written | input that shows it | evidently intended | confidence | as-written member | corrected member |
|---|---|---|---|---|---|---|
| script.js:86-89 | `startGame` sets `gameStarted` first, so `updateDifficulty` (lines 148-151) starts one interval. Line 89 then starts a second one, overwriting `gameLoop`. | The first start on a loaded page leaves intervals 1 and 2 running. A pause clears only 2, so interval 1 keeps calling `update`: the game ticks at twice the speed and does not stop on pause or game over. | One interval per game, cleared by pause and game over | high; not executed | Timers.StartLeaksInterval | Timers.StartKeepsOneInterval |
