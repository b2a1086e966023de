/** The game session: the page's module-level variables as the fields of one
    object, and the operations of the game as methods that update them in
    place. Each method is proved to take the session from state `s` to the
    state the matching function of module Rules gives for `s`, and to keep
    the invariant `Rules.Inv`. */
module Game {
  import opened Options
  import opened Grid
  import opened Difficulty
  import opened Food
  import opened Collision
  import opened Rules

  class Session {
    var snake: seq<Cell>
    var food: Option<Cell>
    var direction: Direction
    var nextDirection: Direction
    var score: nat
    var highScore: nat
    var gameSpeed: Option<nat>
    var gameStarted: bool
    var gamePaused: bool

    /** The session's state as a value. */
    function Snapshot(): State
      reads this
    {
      State(snake, food, direction, nextDirection, score, highScore, gameSpeed, gameStarted, gamePaused)
    }

    ghost predicate Valid()
      reads this
    {
      Inv(Snapshot())
    }

    /** The page as it loads, with the high score read from storage. */
    constructor (storedHighScore: nat)
      ensures Snapshot() == Initial(storedHighScore)
      ensures Valid()
    {
      snake := [];
      food := None;
      direction := Right;
      nextDirection := Right;
      score := 0;
      highScore := storedHighScore;
      gameSpeed := None;
      gameStarted := false;
      gamePaused := false;
    }

    /** `startGame`. */
    method StartGame(level: string, pick: nat)
      modifies this
      ensures Snapshot() == Start(old(Snapshot()), level, pick)
      ensures old(Valid()) ==> Valid()
    {
      ghost var s := Snapshot();
      if gameStarted {
        return;
      }
      ResetGame();
      gameStarted := true;

      var centerX := Center;
      var centerY := Center;
      snake := [];
      var i := 0;
      while i < InitialLength
        invariant 0 <= i <= InitialLength
        invariant snake == InitialSnake()[..i]
        invariant Snapshot() == Reset(s).(gameStarted := true, snake := snake)
      {
        snake := snake + [Cell(centerX - i, centerY)];
        i := i + 1;
      }
      assert snake == InitialSnake();

      food := GenerateFood(snake, food, pick);
      UpdateDifficulty(level);
      if Inv(s) {
        StartPreservesInv(s, level, pick);
      }
    }

    /** `resetGame`, for the game state. */
    method ResetGame()
      modifies this
      ensures Snapshot() == Reset(old(Snapshot()))
      ensures old(Valid()) ==> Valid()
    {
      score := 0;
      direction := Right;
      nextDirection := Right;
    }

    /** `togglePause`, for the game state. */
    method TogglePause()
      modifies this
      ensures Snapshot() == Rules.TogglePause(old(Snapshot()))
      ensures old(Valid()) ==> Valid()
    {
      if !gameStarted {
        return;
      }
      gamePaused := !gamePaused;
    }

    /** `updateDifficulty`, for the game state. */
    method UpdateDifficulty(level: string)
      modifies this
      ensures Snapshot() == Rules.UpdateDifficulty(old(Snapshot()), level)
      ensures old(Valid()) ==> Valid()
    {
      var speed: nat;
      if level == "easy" {
        speed := 8;
      } else if level == "medium" {
        speed := 12;
      } else if level == "hard" {
        speed := 17;
      } else {
        speed := 12;
      }
      gameSpeed := Some(speed);
    }

    /** `update`: one tick of the game loop. */
    method Update(level: string, pick: nat)
      requires Valid() && |snake| >= 1
      modifies this
      ensures Snapshot() == Tick(old(Snapshot()), level, pick)
      ensures Valid()
      ensures highScore >= old(highScore)
    {
      ghost var s := Snapshot();
      TickPreservesInv(s, level, pick);

      direction := nextDirection;
      var head := Move(snake[0], direction);

      var hit := CheckCollision(snake, head);
      if hit {
        GameOver();
        return;
      }

      snake := [head] + snake;

      if food == Some(head) {
        score := score + Multiplier(level);
        if score > highScore {
          highScore := score;
        }
        food := GenerateFood(snake, food, pick);
      } else {
        snake := snake[..|snake| - 1];
      }
    }

    /** `changeDirection`. */
    method ChangeDirection(newDirection: Direction)
      modifies this
      ensures Snapshot() == Rules.ChangeDirection(old(Snapshot()), newDirection)
      ensures nextDirection != Opposite(direction) || nextDirection == old(nextDirection)
      ensures old(Valid()) ==> Valid()
    {
      if (newDirection == Up && direction != Down)
        || (newDirection == Down && direction != Up)
        || (newDirection == Left && direction != Right)
        || (newDirection == Right && direction != Left)
      {
        nextDirection := newDirection;
      }
    }

    /** `gameOver`, for the game state. */
    method GameOver()
      modifies this
      ensures Snapshot() == Rules.GameOver(old(Snapshot()))
      ensures old(Valid()) ==> Valid()
    {
      gameStarted := false;
    }
  }

  /** The opening moves of a game: the snake starts at (10,10) heading
      right, one tick moves its head to (11,10), growing it only if the food
      was there, a reversing request is ignored and a pause flips only the
      pause flag. */
  method OpeningMoves(storedHighScore: nat, pick: nat)
  {
    var g := new Session(storedHighScore);
    g.StartGame("easy", pick);
    StartLayout(Initial(storedHighScore), "easy", pick);
    assert g.snake == [Cell(10, 10), Cell(9, 10), Cell(8, 10), Cell(7, 10), Cell(6, 10)];
    assert g.gameSpeed == Some(8);

    var ate := g.food == Some(Cell(11, 10));
    g.Update("easy", pick);
    assert g.snake[0] == Cell(11, 10) && g.direction == Right;
    assert ate ==> g.score == 1 && |g.snake| == 6;
    assert !ate ==> g.score == 0 && g.snake == [Cell(11, 10), Cell(10, 10), Cell(9, 10), Cell(8, 10), Cell(7, 10)];

    g.ChangeDirection(Left);
    assert g.nextDirection == Right;
    g.TogglePause();
    assert g.gamePaused && g.gameStarted;
  }
}
