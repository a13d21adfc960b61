/** The game loop shared by all four solvers. While the game is not won and attempts remain, it
    counts an attempt, asks the strategy for a guess, sends it to the referee and records the
    feedback; an error while asking or recording ends the game at once, unsolved.

    The referee is a function of the attempt number and the guess, fixed for the game; `None`
    stands for any error thrown inside the `try` (a failed request or a malformed response). */
module GameLoop {
  import opened Types

  /** How the loop ended. The source returns only `isCorrect` and `attempts`; the ending tells the
      budget running out apart from an error break. */
  datatype Ending = Solved | Exhausted | Aborted

  datatype Outcome = Outcome(isCorrect: bool, attempts: nat, ending: Ending)

  /** The loop as a recursion over rounds: `attempt` rounds have been played, none of them a win
      or an error, and the solver is in `state`. */
  function Rounds<S>(state: S, attempt: nat, maxAttempts: nat,
                     next: (S, nat) -> Guess,
                     update: (S, Feedback) -> (S, bool),
                     referee: (nat, Guess) -> Option<Feedback>): (out: Outcome)
    requires attempt <= maxAttempts
    ensures attempt <= out.attempts <= maxAttempts
    ensures out.isCorrect <==> out.ending == Solved
    ensures out.ending == Exhausted ==> out.attempts == maxAttempts
    ensures out.ending != Exhausted ==> out.attempts > attempt
    decreases maxAttempts - attempt
  {
    if attempt == maxAttempts then Outcome(false, attempt, Exhausted)
    else
      var a := attempt + 1;
      match referee(a, next(state, a))
      case None => Outcome(false, a, Aborted)
      case Some(fb) =>
        var (state', won) := update(state, fb);
        if won then Outcome(true, a, Solved) else Rounds(state', a, maxAttempts, next, update, referee)
  }

  /** With the budget spent the game ends unsolved, every round counted. */
  lemma BudgetSpent<S>(state: S, maxAttempts: nat,
                       next: (S, nat) -> Guess,
                       update: (S, Feedback) -> (S, bool),
                       referee: (nat, Guess) -> Option<Feedback>)
    ensures Rounds(state, maxAttempts, maxAttempts, next, update, referee) == Outcome(false, maxAttempts, Exhausted)
  {
  }

  /** A round answered with feedback that is not a win leads to the next round from the updated
      state, the round counted. */
  lemma RoundContinues<S>(state: S, attempt: nat, maxAttempts: nat,
                          next: (S, nat) -> Guess,
                          update: (S, Feedback) -> (S, bool),
                          referee: (nat, Guess) -> Option<Feedback>,
                          fb: Feedback, state': S)
    requires attempt < maxAttempts
    requires referee(attempt + 1, next(state, attempt + 1)) == Some(fb)
    requires update(state, fb) == (state', false)
    ensures Rounds(state, attempt, maxAttempts, next, update, referee)
            == Rounds(state', attempt + 1, maxAttempts, next, update, referee)
  {
  }

  /** A round answered with a win ends the game there, that round counted. */
  lemma RoundWins<S>(state: S, attempt: nat, maxAttempts: nat,
                     next: (S, nat) -> Guess,
                     update: (S, Feedback) -> (S, bool),
                     referee: (nat, Guess) -> Option<Feedback>,
                     fb: Feedback)
    requires attempt < maxAttempts
    requires referee(attempt + 1, next(state, attempt + 1)) == Some(fb)
    requires update(state, fb).1
    ensures Rounds(state, attempt, maxAttempts, next, update, referee) == Outcome(true, attempt + 1, Solved)
  {
  }

  /** A round whose request fails ends the game there, unsolved, the failed round counted. */
  lemma RoundFails<S>(state: S, attempt: nat, maxAttempts: nat,
                      next: (S, nat) -> Guess,
                      update: (S, Feedback) -> (S, bool),
                      referee: (nat, Guess) -> Option<Feedback>)
    requires attempt < maxAttempts
    requires referee(attempt + 1, next(state, attempt + 1)).None?
    ensures Rounds(state, attempt, maxAttempts, next, update, referee) == Outcome(false, attempt + 1, Aborted)
  {
  }

  /** The `while` loop itself. */
  method RunGame<S>(initial: S, maxAttempts: nat,
                    next: (S, nat) -> Guess,
                    update: (S, Feedback) -> (S, bool),
                    referee: (nat, Guess) -> Option<Feedback>) returns (out: Outcome)
    ensures out == Rounds(initial, 0, maxAttempts, next, update, referee)
    ensures out.attempts <= maxAttempts
    ensures out.isCorrect <==> out.ending == Solved
    ensures out.ending == Exhausted ==> out.attempts == maxAttempts
    ensures out.ending != Exhausted ==> out.attempts >= 1
  {
    var state := initial;
    var attempt := 0;
    var isCorrect := false;
    var ending := Exhausted;
    while !isCorrect && attempt < maxAttempts
      invariant attempt <= maxAttempts
      invariant isCorrect ==> 1 <= attempt && ending == Solved
      invariant !isCorrect ==> ending == Exhausted
      invariant Rounds(initial, 0, maxAttempts, next, update, referee)
                == if isCorrect then Outcome(true, attempt, Solved)
                   else Rounds(state, attempt, maxAttempts, next, update, referee)
      decreases maxAttempts - attempt
    {
      attempt := attempt + 1;
      var guess := next(state, attempt);
      var response := referee(attempt, guess);
      if response.None? {
        ending := Aborted;
        break;
      }
      var (state', won) := update(state, response.value);
      state := state';
      isCorrect := won;
      if won {
        ending := Solved;
      }
    }
    out := Outcome(isCorrect, attempt, ending);
  }
}
