/** The two lookup tables keyed by the value of the difficulty selector: the
    tick rate (ticks per second, `updateDifficulty`) and the points earned per
    food (`getDifficultyMultiplier`). Any value other than the three known
    names takes the `default` branch of each switch. */
module Difficulty {

  /** Ticks per second for a selector value. */
  function Speed(level: string): (r: nat)
    ensures r == 8 <==> level == "easy"
    ensures r == 17 <==> level == "hard"
    ensures r == 12 <==> level != "easy" && level != "hard"
  {
    if level == "easy" then 8
    else if level == "medium" then 12
    else if level == "hard" then 17
    else 12
  }

  /** Points added to the score for one food. */
  function Multiplier(level: string): (r: nat)
    ensures 1 <= r <= 3
    ensures r == 2 <==> level == "medium"
    ensures r == 3 <==> level == "hard"
    ensures r == 1 <==> level != "medium" && level != "hard"
  {
    if level == "easy" then 1
    else if level == "medium" then 2
    else if level == "hard" then 3
    else 1
  }

  /** An unrecognised selector value runs at the medium speed but scores as
      easy: the two defaults disagree. */
  lemma UnknownLevelDefaults(level: string)
    requires level != "easy" && level != "medium" && level != "hard"
    ensures Speed(level) == Speed("medium") && Multiplier(level) == Multiplier("easy")
    ensures Multiplier(level) != Multiplier("medium")
  {
  }

  /** A harder level is never slower and never scores less. */
  lemma HarderIsFasterAndRicher()
    ensures Speed("easy") < Speed("medium") < Speed("hard")
    ensures Multiplier("easy") < Multiplier("medium") < Multiplier("hard")
  {
  }
}
