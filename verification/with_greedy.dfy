/** The greedy baseline: always guess the first word left in the pool, play at most 100 rounds. */
module WithGreedy {
  import opened Types
  import opened PatternMatcher
  import opened CandidateFilter
  import opened GameState
  import opened GameLoop

  const MaxAttempts: nat := 100

  /** `possibleWords[0]`; an empty pool reads `undefined`. */
  function FirstCandidate(pool: seq<Word>): (g: Guess)
    ensures g.Some? <==> |pool| > 0
    ensures g.Some? ==> g.value in pool
  {
    if |pool| > 0 then Some(pool[0]) else None
  }

  function Strategy(): (PoolState, nat) -> Guess {
    (s: PoolState, attempt: nat) => FirstCandidate(s.pool)
  }

  /** `playWordleWithGreedy(seed)`; the seed lives inside `referee`. */
  method Play(words: seq<string>, referee: (nat, Guess) -> Option<Feedback>) returns (out: Outcome)
    ensures out == Rounds(Start(words), 0, MaxAttempts, Strategy(), UpdateGameState, referee)
    ensures out.attempts <= MaxAttempts
    ensures out.isCorrect <==> out.ending == Solved
    ensures out.ending == Exhausted ==> out.attempts == MaxAttempts
    ensures out.ending != Exhausted ==> out.attempts >= 1
  {
    out := RunGame(Start(words), MaxAttempts, Strategy(), UpdateGameState, referee);
  }

  /** The entries of `fb` repeat the letters of `guess` at their slots. */
  predicate Echoes(fb: Feedback, guess: string) {
    forall k :: 0 <= k < |fb| ==> fb[k].slot < |guess| && fb[k].letter == guess[fb[k].slot]
  }

  /** A guess passes the filter built from its own feedback exactly when no entry is "absent". */
  lemma GuessSurvivesIffNoAbsent(guess: Word, fb: Feedback)
    requires Echoes(fb, guess)
    ensures Consistent(guess, fb) <==> forall k :: 0 <= k < |fb| ==> fb[k].state != Absent
  {
    if !Consistent(guess, fb) {
      var k :| 0 <= k < |fb| && !Admits(guess, fb[k]);
      assert fb[k].letter in guess;
    }
  }

  /** So a guess that draws only "correct" and "present" stays at the head of the pool and is
      guessed again in the next round. */
  lemma GuessRepeats(s: PoolState, fb: Feedback)
    requires |s.pool| > 0 && Echoes(fb, s.pool[0])
    requires forall k :: 0 <= k < |fb| ==> fb[k].state != Absent
    ensures FirstCandidate(UpdateGameState(s, fb).0.pool) == FirstCandidate(s.pool)
  {
    GuessSurvivesIffNoAbsent(s.pool[0], fb);
    HeadSurvives(s.pool, fb);
  }

  /** When the first word is the solution, the greedy game is won in the first round. */
  lemma SolvedAtOnce(s: PoolState, sol: Word)
    requires |s.pool| > 0 && s.pool[0] == sol
    ensures Rounds(s, 0, MaxAttempts, Strategy(), UpdateGameState, HonestReferee(sol)) == Outcome(true, 1, Solved)
  {
    WinIffSolved(s, sol, sol);
  }

  /** One such round: the same word is guessed, graded, not a win, and stays at the head. */
  lemma StallRound(s: PoolState, a: nat, sol: Word)
    requires |s.pool| > 0 && s.pool[0] != sol
    requires forall k :: 0 <= k < WordLength ==> GetPattern(s.pool[0], sol)[k] != Absent
    ensures var fb := Grade(s.pool[0], sol);
      && HonestReferee(sol)(a, Strategy()(s, a)) == Some(fb)
      && UpdateGameState(s, fb) == (UpdateGameState(s, fb).0, false)
      && |UpdateGameState(s, fb).0.pool| > 0
      && UpdateGameState(s, fb).0.pool[0] == s.pool[0]
  {
    var g := s.pool[0];
    var fb := Grade(g, sol);
    RefereeGradesHead(s, a, sol);
    WinIffSolved(s, g, sol);
    EchoNoAbsent(g, GetPattern(g, sol));
    GuessRepeats(s, fb);
  }

  /** The honest referee grades the head of the pool, the greedy guess. */
  lemma RefereeGradesHead(s: PoolState, a: nat, sol: Word)
    requires |s.pool| > 0
    ensures HonestReferee(sol)(a, Strategy()(s, a)) == Some(Grade(s.pool[0], sol))
  {
  }

  /** Echoing a pattern without an Absent slot gives feedback without an "absent" entry. */
  lemma EchoNoAbsent(g: Word, p: Pattern)
    requires |p| == WordLength && forall k :: 0 <= k < WordLength ==> p[k] != Absent
    ensures Echoes(Echo(g, p), g)
    ensures forall k :: 0 <= k < |Echo(g, p)| ==> Echo(g, p)[k].state != Absent
  {
  }

  /** When the first word is not the solution but draws no "absent" (an anagram of the solution,
      say), the greedy solver guesses it in every remaining round and runs out of attempts. */
  lemma {:induction false} AnagramStalls(s: PoolState, attempt: nat, sol: Word)
    requires attempt <= MaxAttempts
    requires |s.pool| > 0 && s.pool[0] != sol
    requires forall k :: 0 <= k < WordLength ==> GetPattern(s.pool[0], sol)[k] != Absent
    ensures Rounds(s, attempt, MaxAttempts, Strategy(), UpdateGameState, HonestReferee(sol))
            == Outcome(false, MaxAttempts, Exhausted)
    decreases MaxAttempts - attempt
  {
    if attempt < MaxAttempts {
      var fb := Grade(s.pool[0], sol);
      var s' := UpdateGameState(s, fb).0;
      StallRound(s, attempt + 1, sol);
      RoundContinues(s, attempt, MaxAttempts, Strategy(), UpdateGameState, HonestReferee(sol), fb, s');
      AnagramStalls(s', attempt + 1, sol);
    } else {
      BudgetSpent(s, MaxAttempts, Strategy(), UpdateGameState, HonestReferee(sol));
    }
  }
}
