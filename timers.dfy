/** The intervals of the game loop, as handles. `setInterval` issues a new
    handle that keeps running until `clearInterval` is called with it; the
    page keeps one handle in `gameLoop`, and only that one is ever cleared.
    Handle 0 stands for the undefined `gameLoop` of a fresh page and is never
    issued. */
module Timers {

  datatype TimerState = TimerState(running: set<nat>, gameLoop: nat, issued: nat)

  /** The page as it loads: nothing runs. */
  const Loaded: TimerState := TimerState({}, 0, 0)

  /** At most one interval runs, and it is the one held in `gameLoop`, so
      pausing or ending the game stops every tick. */
  predicate Tidy(t: TimerState) {
    t.running <= {t.gameLoop}
  }

  /** `clearInterval(gameLoop)`. */
  function ClearInterval(t: TimerState): TimerState {
    t.(running := t.running - {t.gameLoop})
  }

  /** `startGameLoop`: a new interval whose handle replaces `gameLoop`. */
  function StartGameLoop(t: TimerState): TimerState {
    var h := t.issued + 1;
    TimerState(t.running + {h}, h, h)
  }

  /** The restart at the end of `updateDifficulty`. */
  function UpdateDifficultyTimers(t: TimerState, gameStarted: bool, gamePaused: bool): TimerState {
    if gameStarted && !gamePaused then StartGameLoop(ClearInterval(t)) else t
  }

  /** The interval calls of `startGame` as written: the clear in
      `resetGame`, then `updateDifficulty` after `gameStarted` has been set,
      then `startGameLoop`. */
  function StartGameTimers(t: TimerState, gamePaused: bool): TimerState {
    StartGameLoop(UpdateDifficultyTimers(ClearInterval(t), true, gamePaused))
  }

  /** `startGame` with the speed applied but the loop started once. */
  function StartGameTimersOnce(t: TimerState): TimerState {
    StartGameLoop(ClearInterval(t))
  }

  /** The clear in `togglePause` when it pauses, and in `gameOver`. */
  function StopTimers(t: TimerState): TimerState {
    ClearInterval(t)
  }

  /** As written, starting a game from any tidy state leaves two intervals
      running and keeps only the second handle: the game ticks at twice the
      selected speed, and pausing or ending the game leaves the first
      interval calling `update`. From the loaded page the handles are 1 and
      2, and interval 1 survives the pause. */
  lemma StartLeaksInterval(t: TimerState)
    requires Tidy(t)
    ensures var u := StartGameTimers(t, false);
      && u.running == {t.issued + 1, t.issued + 2}
      && u.gameLoop == t.issued + 2
      && !Tidy(u)
      && StopTimers(u).running == {t.issued + 1}
    ensures StopTimers(StartGameTimers(Loaded, false)).running == {1}
  {
    var u := StartGameTimers(t, false);
    assert ClearInterval(t).running == {};
    assert t.issued + 1 in u.running && t.issued + 1 != u.gameLoop;
  }

  /** Started once, exactly one interval runs, it is the one held in
      `gameLoop`, and pausing or ending the game stops it. */
  lemma StartKeepsOneInterval(t: TimerState)
    requires Tidy(t)
    ensures var u := StartGameTimersOnce(t);
      && u.running == {u.gameLoop}
      && Tidy(u)
      && StopTimers(u).running == {}
  {
    assert ClearInterval(t).running == {};
  }

  /** Changing the difficulty, stopping and resuming a stopped game keep the
      timers tidy. */
  lemma OtherCallsKeepTidy(t: TimerState, gameStarted: bool, gamePaused: bool)
    requires Tidy(t)
    ensures Tidy(UpdateDifficultyTimers(t, gameStarted, gamePaused))
    ensures Tidy(StopTimers(t)) && StopTimers(t).running == {}
    ensures t.running == {} ==> Tidy(StartGameLoop(t))
  {
  }
}
