/** `updateGameState`: what one round of feedback does to the solver's knowledge (the correct,
    present and absent letters), to the candidate pool, and whether it reports a win. */
module GameState {
  import opened Types
  import opened PatternMatcher
  import opened CandidateFilter

  /** The letter bookkeeping of the game state. `correct` is the `correctLetters` array with its
      null slots left out; `present` is the `presentLetters` Set in insertion order (the order in
      which spreading it lists its letters); `absent` is the `absentLetters` Set. */
  datatype Knowledge = Knowledge(correct: map<nat, char>, present: seq<char>, absent: set<char>)

  /** The knowledge at the start of a game: five null slots and two empty sets. */
  const NoKnowledge := Knowledge(map[], [], {})

  /** The state of the three pool-based solvers. */
  datatype PoolState = PoolState(known: Knowledge, pool: seq<Word>)

  /** The words of the fetched list that have five letters, in list order. */
  function FiveLetterWords(words: seq<string>): (pool: seq<Word>)
    ensures forall w :: w in pool <==> w in words && |w| == WordLength
    ensures IsSubsequence(pool, words)
  {
    if |words| == 0 then []
    else if |words[0]| == WordLength then
      var w: Word := words[0];
      [w] + FiveLetterWords(words[1..])
    else FiveLetterWords(words[1..])
  }

  /** The pool holds each five-letter word as often as the list does, and nothing else. */
  lemma {:induction false} FiveLetterWordsCounts(words: seq<string>)
    ensures forall w: string :: multiset(FiveLetterWords(words))[w] == if |w| == WordLength then multiset(words)[w] else 0
    decreases |words|
  {
    if |words| > 0 {
      assert words == [words[0]] + words[1..];
      FiveLetterWordsCounts(words[1..]);
    }
  }

  /** The filter distributes over concatenation: it decides each word of the list on its own. */
  lemma {:induction false} FiveLetterWordsAppend(a: seq<string>, b: seq<string>)
    ensures FiveLetterWords(a + b) == FiveLetterWords(a) + FiveLetterWords(b)
    decreases |a|
  {
    if |a| > 0 {
      assert (a + b)[0] == a[0] && (a + b)[1..] == a[1..] + b;
      FiveLetterWordsAppend(a[1..], b);
    } else {
      assert a + b == b;
    }
  }

  /** The state before the first round: nothing known, the pool is the fetched five-letter words. */
  function Start(words: seq<string>): PoolState {
    PoolState(NoKnowledge, FiveLetterWords(words))
  }

  /** The letters of the entries of `fb` in state `s`. */
  function LettersIn(fb: Feedback, s: LetterState): set<char> {
    set k | 0 <= k < |fb| && fb[k].state == s :: fb[k].letter
  }

  /** The slots of the "correct" entries of `fb`. */
  function CorrectSlots(fb: Feedback): set<nat> {
    set k | 0 <= k < |fb| && fb[k].state == Correct :: fb[k].slot
  }

  lemma LettersInCons(fb: Feedback, s: LetterState)
    requires |fb| > 0
    ensures LettersIn(fb, s) == (if fb[0].state == s then {fb[0].letter} else {}) + LettersIn(fb[1..], s)
  {
    assert forall k :: 0 < k < |fb| ==> fb[k] == fb[1..][k - 1];
    forall c | c in LettersIn(fb, s)
      ensures c in (if fb[0].state == s then {fb[0].letter} else {}) + LettersIn(fb[1..], s)
    {
      var k :| 0 <= k < |fb| && fb[k].state == s && fb[k].letter == c;
      if k > 0 {
        assert fb[1..][k - 1].letter == c;
      }
    }
  }

  lemma CorrectSlotsCons(fb: Feedback)
    requires |fb| > 0
    ensures CorrectSlots(fb) == (if fb[0].state == Correct then {fb[0].slot} else {}) + CorrectSlots(fb[1..])
  {
    assert forall k :: 0 < k < |fb| ==> fb[k] == fb[1..][k - 1];
    forall x | x in CorrectSlots(fb)
      ensures x in (if fb[0].state == Correct then {fb[0].slot} else {}) + CorrectSlots(fb[1..])
    {
      var k :| 0 <= k < |fb| && fb[k].state == Correct && fb[k].slot == x;
      if k > 0 {
        assert fb[1..][k - 1].slot == x;
      }
    }
  }

  /** The `switch` on one entry. */
  function RecordEntry(k: Knowledge, e: Entry): Knowledge {
    match e.state
    case Correct => k.(correct := k.correct[e.slot := e.letter])
    case Present => k.(present := if e.letter in k.present then k.present else k.present + [e.letter])
    case Absent => k.(absent := k.absent + {e.letter})
  }

  datatype Recorded = Recorded(known: Knowledge, isCorrect: bool)

  /** `result.forEach(...)`: the entries in order, each updating the knowledge, and the
      `isCorrect` flag cleared by any "present" or "absent" entry. */
  function Record(k: Knowledge, isCorrect: bool, fb: Feedback): (r: Recorded)
    ensures r.isCorrect <==> isCorrect && forall i :: 0 <= i < |fb| ==> fb[i].state == Correct
    ensures k.present <= r.known.present
    ensures k.absent <= r.known.absent
    ensures k.correct.Keys <= r.known.correct.Keys
    decreases |fb|
  {
    if |fb| == 0 then Recorded(k, isCorrect)
    else
      assert forall i :: 0 < i < |fb| ==> fb[i] == fb[1..][i - 1];
      Record(RecordEntry(k, fb[0]), isCorrect && fb[0].state == Correct, fb[1..])
  }

  /** `presentLetters` stays a set: it gains exactly the letters of the "present" entries, each once,
      behind the letters it already held. */
  lemma {:induction false} RecordPresent(k: Knowledge, isCorrect: bool, fb: Feedback)
    ensures var r := Record(k, isCorrect, fb);
      && (NoDuplicates(k.present) ==> NoDuplicates(r.known.present))
      && (forall c :: c in r.known.present <==> c in k.present || c in LettersIn(fb, Present))
    decreases |fb|
  {
    if |fb| > 0 {
      var k' := RecordEntry(k, fb[0]);
      RecordPresent(k', isCorrect && fb[0].state == Correct, fb[1..]);
      LettersInCons(fb, Present);
      assert NoDuplicates(k.present) ==> NoDuplicates(k'.present);
    }
  }

  /** `absentLetters` gains exactly the letters of the "absent" entries. */
  lemma {:induction false} RecordAbsent(k: Knowledge, isCorrect: bool, fb: Feedback)
    ensures Record(k, isCorrect, fb).known.absent == k.absent + LettersIn(fb, Absent)
    decreases |fb|
  {
    if |fb| > 0 {
      RecordAbsent(RecordEntry(k, fb[0]), isCorrect && fb[0].state == Correct, fb[1..]);
      LettersInCons(fb, Absent);
    }
  }

  /** Entry i is "correct" and no later "correct" entry names its slot: its write is the last one. */
  predicate LastCorrectWrite(fb: Feedback, i: nat)
    requires i < |fb|
  {
    fb[i].state == Correct && forall j :: i < j < |fb| && fb[j].state == Correct ==> fb[j].slot != fb[i].slot
  }

  /** `correctLetters[slot] = guess` overwrites: a slot named by "correct" entries ends with the letter
      of the last of them, a slot none names keeps what it held, and every filled slot holds its old
      letter or the letter of a "correct" entry naming it. */
  lemma RecordCorrect(k: Knowledge, isCorrect: bool, fb: Feedback)
    ensures var r := Record(k, isCorrect, fb);
      && r.known.correct.Keys == k.correct.Keys + CorrectSlots(fb)
      && (forall i :: 0 <= i < |fb| && LastCorrectWrite(fb, i) ==> r.known.correct[fb[i].slot] == fb[i].letter)
      && (forall x :: x in k.correct && x !in CorrectSlots(fb) ==> r.known.correct[x] == k.correct[x])
      && (forall x :: x in r.known.correct ==>
            (x in k.correct && r.known.correct[x] == k.correct[x])
            || (exists i :: 0 <= i < |fb| && fb[i] == Entry(x, r.known.correct[x], Correct)))
  {
    RecordCorrectSlots(k, isCorrect, fb);
    RecordCorrectLast(k, isCorrect, fb);
    RecordCorrectUntouched(k, isCorrect, fb);
    RecordCorrectLetters(k, isCorrect, fb);
  }

  /** A slot that no "correct" entry names keeps its letter. */
  lemma {:induction false} RecordCorrectUntouched(k: Knowledge, isCorrect: bool, fb: Feedback)
    ensures var r := Record(k, isCorrect, fb);
      forall x :: x in k.correct && x !in CorrectSlots(fb) ==> x in r.known.correct && r.known.correct[x] == k.correct[x]
    decreases |fb|
  {
    if |fb| > 0 {
      RecordCorrectUntouched(RecordEntry(k, fb[0]), isCorrect && fb[0].state == Correct, fb[1..]);
      CorrectSlotsCons(fb);
    }
  }

  /** The last "correct" entry for a slot decides its letter. */
  lemma {:induction false} RecordCorrectLast(k: Knowledge, isCorrect: bool, fb: Feedback)
    ensures var r := Record(k, isCorrect, fb);
      forall i :: 0 <= i < |fb| && LastCorrectWrite(fb, i) ==>
        fb[i].slot in r.known.correct && r.known.correct[fb[i].slot] == fb[i].letter
    decreases |fb|
  {
    if |fb| > 0 {
      var k' := RecordEntry(k, fb[0]);
      var c' := isCorrect && fb[0].state == Correct;
      var r := Record(k, isCorrect, fb);
      assert r == Record(k', c', fb[1..]);
      RecordCorrectLast(k', c', fb[1..]);
      forall i | 0 <= i < |fb| && LastCorrectWrite(fb, i)
        ensures fb[i].slot in r.known.correct && r.known.correct[fb[i].slot] == fb[i].letter
      {
        if i == 0 {
          var x := fb[0].slot;
          forall j | 0 <= j < |fb[1..]| && fb[1..][j].state == Correct
            ensures fb[1..][j].slot != x
          {
            assert fb[1..][j] == fb[j + 1];
          }
          assert x !in CorrectSlots(fb[1..]);
          RecordCorrectUntouched(k', c', fb[1..]);
        } else {
          assert fb[1..][i - 1] == fb[i];
          forall j | i - 1 < j < |fb[1..]| && fb[1..][j].state == Correct
            ensures fb[1..][j].slot != fb[1..][i - 1].slot
          {
            assert fb[1..][j] == fb[j + 1];
          }
          assert LastCorrectWrite(fb[1..], i - 1);
        }
      }
    }
  }

  lemma {:induction false} RecordCorrectSlots(k: Knowledge, isCorrect: bool, fb: Feedback)
    ensures Record(k, isCorrect, fb).known.correct.Keys == k.correct.Keys + CorrectSlots(fb)
    decreases |fb|
  {
    if |fb| > 0 {
      RecordCorrectSlots(RecordEntry(k, fb[0]), isCorrect && fb[0].state == Correct, fb[1..]);
      CorrectSlotsCons(fb);
    }
  }

  lemma {:induction false} RecordCorrectLetters(k: Knowledge, isCorrect: bool, fb: Feedback)
    ensures var r := Record(k, isCorrect, fb);
      forall x :: x in r.known.correct ==>
        (x in k.correct && r.known.correct[x] == k.correct[x])
        || (exists i :: 0 <= i < |fb| && fb[i] == Entry(x, r.known.correct[x], Correct))
    decreases |fb|
  {
    if |fb| > 0 {
      var k' := RecordEntry(k, fb[0]);
      var r := Record(k, isCorrect, fb);
      assert r == Record(k', isCorrect && fb[0].state == Correct, fb[1..]);
      RecordCorrectLetters(k', isCorrect && fb[0].state == Correct, fb[1..]);
      forall x | x in r.known.correct && !(x in k.correct && r.known.correct[x] == k.correct[x])
        ensures exists i :: 0 <= i < |fb| && fb[i] == Entry(x, r.known.correct[x], Correct)
      {
        if x in k'.correct && r.known.correct[x] == k'.correct[x] {
          assert fb[0] == Entry(x, r.known.correct[x], Correct);
        } else {
          var i :| 0 <= i < |fb[1..]| && fb[1..][i] == Entry(x, r.known.correct[x], Correct);
          assert fb[i + 1] == fb[1..][i];
        }
      }
    }
  }

  /** `updateGameState` of the three pool-based solvers: record the entries, filter the pool,
      report whether the round was a win. */
  function UpdateGameState(s: PoolState, fb: Feedback): (r: (PoolState, bool))
    ensures r.1 <==> forall i :: 0 <= i < |fb| ==> fb[i].state == Correct
    ensures forall w :: w in r.0.pool <==> w in s.pool && Consistent(w, fb)
    ensures IsSubsequence(r.0.pool, s.pool)
    ensures s.known.present <= r.0.known.present
    ensures s.known.absent <= r.0.known.absent
    ensures s.known.correct.Keys <= r.0.known.correct.Keys
  {
    var rec := Record(s.known, true, fb);
    (PoolState(rec.known, FilterPool(s.pool, fb)), rec.isCorrect)
  }

  /** `updateGameState` of the letter-construction solver, which keeps no pool. */
  function UpdateKnowledge(k: Knowledge, fb: Feedback): (r: (Knowledge, bool))
    ensures r.1 <==> forall i :: 0 <= i < |fb| ==> fb[i].state == Correct
    ensures k.present <= r.0.present && k.absent <= r.0.absent
    ensures k.correct.Keys <= r.0.correct.Keys
  {
    var rec := Record(k, true, fb);
    (rec.known, rec.isCorrect)
  }

  /** Against an honest referee a round is reported as a win exactly when the guess is the solution. */
  lemma WinIffSolved(s: PoolState, guess: Word, sol: Word)
    ensures UpdateGameState(s, Grade(guess, sol)).1 <==> guess == sol
  {
    GradeAllCorrect(guess, sol);
  }

  /** With a guess of five distinct letters, the true solution stays in the pool. */
  lemma SolutionStaysInPool(s: PoolState, guess: Word, sol: Word)
    requires sol in s.pool
    requires forall i, j :: 0 <= i < j < WordLength ==> guess[i] != guess[j]
    ensures sol in UpdateGameState(s, Grade(guess, sol)).0.pool
  {
    SolutionSurvives(guess, sol);
  }
}
