/** The game as a state machine on values: the state held by the page's
    module-level variables, and one function per operation that changes it.
    The class in module Game performs these operations in place and is proved
    to agree with these functions. */
module Rules {
  import opened Options
  import opened Grid
  import opened Difficulty
  import opened Food
  import opened Collision

  datatype State = State(
    snake: seq<Cell>,          // head first
    food: Option<Cell>,        // None until the first food is placed
    direction: Direction,      // heading committed by the last tick
    nextDirection: Direction,  // heading buffered for the next tick
    score: nat,
    highScore: nat,
    gameSpeed: Option<nat>,    // ticks per second; None until first set
    gameStarted: bool,
    gamePaused: bool)

  /** The invariant every reachable state keeps. The food may sit on the
      snake only when the board is full, because `generateFood` then leaves it
      on the head that has just eaten it. */
  ghost predicate Inv(s: State) {
    && Distinct(s.snake)
    && AllInBounds(s.snake)
    && (s.food.Some? ==> InBounds(s.food.value) && (s.food.value !in s.snake || Full(s.snake)))
    && s.nextDirection != Opposite(s.direction)
    && s.score <= s.highScore
  }

  /** The values of the module-level variables when the page loads; the
      high score is the one read from storage. */
  function Initial(highScore: nat): (s: State)
    ensures Inv(s)
    ensures s.snake == [] && s.food == None && s.score == 0 && !s.gameStarted && !s.gamePaused
  {
    State([], None, Right, Right, 0, highScore, None, false, false)
  }

  /** `resetGame`: score back to zero, both headings to the right. */
  function Reset(s: State): State {
    s.(score := 0, direction := Right, nextDirection := Right)
  }

  /** The snake that `startGame` builds: (Center - i, Center) for
      i = 0 .. InitialLength - 1, head first. */
  function InitialSnake(): seq<Cell> {
    seq(InitialLength, i => Cell(Center - i, Center))
  }

  /** `updateDifficulty`, without the timer restart. */
  function UpdateDifficulty(s: State, level: string): State {
    s.(gameSpeed := Some(Speed(level)))
  }

  /** `startGame`: ignored while a game runs; otherwise reset, mark started,
      build the snake, place the first food and apply the difficulty. */
  function Start(s: State, level: string, pick: nat): State
  {
    if s.gameStarted then s
    else
      var r := Reset(s).(gameStarted := true, snake := InitialSnake());
      UpdateDifficulty(r.(food := Placement(r.snake, r.food, pick)), level)
  }

  /** `togglePause`: ignored before a game starts. */
  function TogglePause(s: State): State {
    if !s.gameStarted then s else s.(gamePaused := !s.gamePaused)
  }

  /** `changeDirection`: the request is buffered unless it reverses the
      committed heading, written as the four cases of the game. */
  function ChangeDirection(s: State, newDirection: Direction): (r: State)
    ensures r.nextDirection == if newDirection == Opposite(s.direction) then s.nextDirection else newDirection
    ensures r == s.(nextDirection := r.nextDirection)
  {
    if (newDirection == Up && s.direction != Down)
      || (newDirection == Down && s.direction != Up)
      || (newDirection == Left && s.direction != Right)
      || (newDirection == Right && s.direction != Left)
    then s.(nextDirection := newDirection)
    else s
  }

  /** `gameOver`, for the state it changes. */
  function GameOver(s: State): State {
    s.(gameStarted := false)
  }

  /** The cell the head moves to on the next tick. */
  function NextHead(s: State): Cell
    requires |s.snake| >= 1
  {
    Move(s.snake[0], s.nextDirection)
  }

  /** `update`: one tick. It commits the buffered heading, stops the game
      when the new head is fatal, and otherwise puts the head in front; on
      food it scores, raises the high score and places new food, else it
      drops the last cell. `level` is the selector's value at that moment and
      `pick` the random draw the food placement uses. */
  function Tick(s: State, level: string, pick: nat): State
    requires |s.snake| >= 1
  {
    var committed := s.(direction := s.nextDirection);
    var head := Move(s.snake[0], committed.direction);
    if IsFatal(head, s.snake) then GameOver(committed)
    else
      var grown := [head] + s.snake;
      if s.food == Some(head) then
        var score := s.score + Multiplier(level);
        committed.(
          snake := grown,
          score := score,
          highScore := if score > s.highScore then score else s.highScore,
          food := Placement(grown, s.food, pick))
      else
        committed.(snake := grown[..|grown| - 1])
  }

  // ---------------------------------------------------------------------
  // Properties of a single tick

  /** A tick commits the buffered heading, and with the invariant the new
      heading never reverses the old one. */
  lemma TickCommitsHeading(s: State, level: string, pick: nat)
    requires Inv(s) && |s.snake| >= 1
    ensures Tick(s, level, pick).direction == s.nextDirection
    ensures Tick(s, level, pick).nextDirection == s.nextDirection
    ensures Tick(s, level, pick).direction != Opposite(s.direction)
  {
  }

  /** A tick whose head is neither fatal nor on the food moves the snake
      without changing its length: the new head is one step from the old head
      along the committed heading and the rest is the old body minus its last
      cell. */
  lemma TickPlainMove(s: State, level: string, pick: nat)
    requires |s.snake| >= 1
    requires !IsFatal(NextHead(s), s.snake) && s.food != Some(NextHead(s))
    ensures var t := Tick(s, level, pick);
      && |t.snake| == |s.snake|
      && t.snake[0] == Move(s.snake[0], s.nextDirection)
      && Adjacent(t.snake[0], s.snake[0])
      && t.snake[1..] == s.snake[..|s.snake| - 1]
      && t.score == s.score && t.highScore == s.highScore && t.food == s.food
      && t.gameStarted == s.gameStarted && t.gamePaused == s.gamePaused
  {
    var t := Tick(s, level, pick);
    assert t.snake == ([NextHead(s)] + s.snake)[..|s.snake|];
  }

  /** A tick that lands on the food grows the snake by exactly one cell and
      keeps the old tail, adds exactly the multiplier to the score, and sets
      the high score to the score only when the score passes it. */
  lemma TickEats(s: State, level: string, pick: nat)
    requires |s.snake| >= 1
    requires !IsFatal(NextHead(s), s.snake) && s.food == Some(NextHead(s))
    ensures var t := Tick(s, level, pick);
      && |t.snake| == |s.snake| + 1
      && t.snake[0] == NextHead(s) && t.snake[1..] == s.snake
      && t.snake[|t.snake| - 1] == s.snake[|s.snake| - 1]
      && t.score == s.score + Multiplier(level)
      && t.highScore == (if t.score > s.highScore then t.score else s.highScore)
      && t.highScore >= s.highScore && t.highScore >= t.score
      && t.food == Placement(t.snake, s.food, pick)
  {
    var t := Tick(s, level, pick);
    assert t.snake == [NextHead(s)] + s.snake;
    assert t.snake[|t.snake| - 1] == s.snake[|s.snake| - 1];
  }

  /** A tick is fatal exactly when the new head leaves the board or meets any
      cell of the pre-move body; then the game stops and the snake, the
      scores and the food stay as they were. */
  lemma TickFatal(s: State, level: string, pick: nat)
    requires |s.snake| >= 1
    ensures var h := NextHead(s);
      IsFatal(h, s.snake) <==> h.x < 0 || h.y < 0 || h.x >= Extent || h.y >= Extent || exists i :: 0 <= i < |s.snake| && s.snake[i] == h
    ensures IsFatal(NextHead(s), s.snake) ==>
      Tick(s, level, pick) == s.(direction := s.nextDirection, gameStarted := false)
    ensures !IsFatal(NextHead(s), s.snake) ==>
      Tick(s, level, pick).snake[0] == NextHead(s) && Tick(s, level, pick).gameStarted == s.gameStarted
  {
  }

  /** Moving onto the cell the tail is about to leave ends the game: the
      test runs against the whole pre-move body, so the snake is left as it
      was and only the heading is committed. */
  lemma TickOntoTailEnds(s: State, level: string, pick: nat)
    requires |s.snake| >= 1 && NextHead(s) == s.snake[|s.snake| - 1]
    ensures Tick(s, level, pick) == s.(direction := s.nextDirection, gameStarted := false)
  {
  }

  /** The new food of an eating tick is on the board and off the grown snake
      unless that snake fills the board. */
  lemma TickPlacesFoodOffSnake(s: State, level: string, pick: nat)
    requires |s.snake| >= 1
    requires !IsFatal(NextHead(s), s.snake) && s.food == Some(NextHead(s))
    ensures var t := Tick(s, level, pick);
      !Full(t.snake) ==> t.food.Some? && InBounds(t.food.value) && t.food.value !in t.snake
  {
    PlacementFree([NextHead(s)] + s.snake, s.food, pick);
  }

  /** Every tick keeps the invariant: the body stays pairwise distinct and on
      the board, the food stays off the body, and the high score stays at or
      above the score. */
  lemma TickPreservesInv(s: State, level: string, pick: nat)
    requires Inv(s) && |s.snake| >= 1
    ensures Inv(Tick(s, level, pick))
    ensures Tick(s, level, pick).highScore >= s.highScore
  {
    var head := NextHead(s);
    if !IsFatal(head, s.snake) {
      var grown := [head] + s.snake;
      AdvanceKeepsBodyValid(head, s.snake);
      if s.food == Some(head) {
        PlacementFree(grown, s.food, pick);
      } else {
        var t := Tick(s, level, pick);
        assert t.snake == grown[..|s.snake|];
        if t.food.Some? {
          assert t.food.value !in s.snake || Full(s.snake);
          if Full(s.snake) {
            FullBoardIsFatal(s.snake, head);
          }
          forall i | 0 <= i < |t.snake| ensures t.snake[i] != t.food.value {
            if i > 0 {
              assert t.snake[i] == s.snake[i - 1];
            }
          }
        }
      }
    }
  }

  // ---------------------------------------------------------------------
  // Properties of the other operations

  /** Starting a running game changes nothing; starting otherwise yields
      score 0, both headings to the right, the snake (10,10), (9,10), ...,
      (6,10) head first, food on a free cell, the speed of the selected level,
      and keeps the high score. */
  lemma StartLayout(s: State, level: string, pick: nat)
    ensures s.gameStarted ==> Start(s, level, pick) == s
    ensures !s.gameStarted ==> var t := Start(s, level, pick);
      && t.gameStarted && t.gamePaused == s.gamePaused
      && t.score == 0 && t.highScore == s.highScore
      && t.direction == Right && t.nextDirection == Right
      && t.snake == [Cell(10, 10), Cell(9, 10), Cell(8, 10), Cell(7, 10), Cell(6, 10)]
      && t.food.Some? && InBounds(t.food.value) && t.food.value !in t.snake
      && t.gameSpeed == Some(Speed(level))
  {
    if !s.gameStarted {
      var body := InitialSnake();
      assert !Full(body) by {
        assert Cell(0, 0) !in body;
      }
      PlacementFree(body, s.food, pick);
    }
  }

  lemma StartPreservesInv(s: State, level: string, pick: nat)
    requires Inv(s)
    ensures Inv(Start(s, level, pick))
  {
    StartLayout(s, level, pick);
  }

  /** Pausing is ignored before a game starts and otherwise flips only the
      pause flag. */
  lemma TogglePauseFlipsOnlyFlag(s: State)
    ensures !s.gameStarted ==> TogglePause(s) == s
    ensures s.gameStarted ==> TogglePause(s) == s.(gamePaused := !s.gamePaused)
    ensures TogglePause(TogglePause(s)) == s
  {
  }

  /** A reversing request leaves the buffer alone; any accepted request is
      never the reverse of the committed heading. */
  lemma ChangeDirectionNeverReverses(s: State, d: Direction)
    requires Inv(s)
    ensures Inv(ChangeDirection(s, d))
    ensures ChangeDirection(s, d).nextDirection != Opposite(s.direction)
    ensures d == Opposite(s.direction) ==> ChangeDirection(s, d) == s
  {
  }

  // ---------------------------------------------------------------------
  // Runs of operations

  /** What the page can do to the game: button and key presses, changes of
      the difficulty selector and ticks of the game loop. */
  datatype Event =
    | StartGame(level: string, pick: nat)
    | Pause
    | Turn(d: Direction)
    | SetDifficulty(level: string)
    | TickEvent(level: string, pick: nat)

  /** One event. No game loop runs before the first start, so a tick is only
      delivered to a state that has a snake; one that reaches an empty snake
      is dropped. */
  function Step(s: State, e: Event): State
  {
    match e
    case StartGame(level, pick) => Start(s, level, pick)
    case Pause => TogglePause(s)
    case Turn(d) => ChangeDirection(s, d)
    case SetDifficulty(level) => UpdateDifficulty(s, level)
    case TickEvent(level, pick) => if |s.snake| == 0 then s else Tick(s, level, pick)
  }

  function Run(s: State, events: seq<Event>): State
    decreases |events|
  {
    if events == [] then s else Run(Step(s, events[0]), events[1..])
  }

  lemma StepPreservesInv(s: State, e: Event)
    requires Inv(s)
    ensures Inv(Step(s, e))
    ensures Step(s, e).highScore >= s.highScore
  {
    match e
    case StartGame(level, pick) => StartPreservesInv(s, level, pick);
    case Pause =>
    case Turn(d) => ChangeDirectionNeverReverses(s, d);
    case SetDifficulty(level) =>
    case TickEvent(level, pick) =>
      if |s.snake| > 0 {
        TickPreservesInv(s, level, pick);
      }
  }

  /** Over any run from the page's initial state the invariant holds and the
      high score never decreases. */
  lemma {:induction false} RunPreservesInv(s: State, events: seq<Event>)
    requires Inv(s)
    ensures Inv(Run(s, events))
    ensures Run(s, events).highScore >= s.highScore
    decreases |events|
  {
    if events != [] {
      StepPreservesInv(s, events[0]);
      RunPreservesInv(Step(s, events[0]), events[1..]);
    }
  }

  /** Once a start has laid the snake down, no event empties it again, so
      every later tick finds a head to move. */
  lemma StepKeepsSnake(s: State, e: Event)
    requires |s.snake| >= 1
    ensures |Step(s, e).snake| >= 1
  {
  }

  lemma {:induction false} RunKeepsSnake(s: State, events: seq<Event>)
    requires |s.snake| >= 1
    ensures |Run(s, events).snake| >= 1
    decreases |events|
  {
    if events != [] {
      StepKeepsSnake(s, events[0]);
      RunKeepsSnake(Step(s, events[0]), events[1..]);
    }
  }
}
