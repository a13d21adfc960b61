/** The candidate filter of `updateGameState`: a word stays in the pool when it agrees with every
    entry of one round of feedback, under the source's loose per-entry test. */
module CandidateFilter {
  import opened Types
  import opened PatternMatcher

  /** The per-entry test. A "correct" entry only asks that the slot holds the letter (a slot past the
      end of the word reads `undefined` and fails); "present" and "absent" only ask whether the letter
      occurs anywhere in the word, whatever the counts. */
  predicate Admits(w: string, e: Entry) {
    match e.state
    case Correct => e.slot < |w| && w[e.slot] == e.letter
    case Present => e.letter in w
    case Absent => e.letter !in w
  }

  /** `result.every(...)`: the word passes every entry. */
  predicate Consistent(w: string, fb: Feedback) {
    forall k :: 0 <= k < |fb| ==> Admits(w, fb[k])
  }

  /** `possibleWords.filter(...)`. */
  function FilterPool(pool: seq<Word>, fb: Feedback): (r: seq<Word>)
    ensures forall w :: w in r <==> w in pool && Consistent(w, fb)
    ensures IsSubsequence(r, pool)
    ensures |r| <= |pool|
  {
    if |pool| == 0 then []
    else if Consistent(pool[0], fb) then [pool[0]] + FilterPool(pool[1..], fb)
    else FilterPool(pool[1..], fb)
  }

  /** A pool whose words all agree with the feedback passes through unchanged. */
  lemma {:induction false} FilterKeepsConsistentPool(pool: seq<Word>, fb: Feedback)
    requires forall k :: 0 <= k < |pool| ==> Consistent(pool[k], fb)
    ensures FilterPool(pool, fb) == pool
  {
    if |pool| > 0 {
      FilterKeepsConsistentPool(pool[1..], fb);
    }
  }

  /** Filtering twice with the same feedback is filtering once. */
  lemma FilterIdempotent(pool: seq<Word>, fb: Feedback)
    ensures FilterPool(FilterPool(pool, fb), fb) == FilterPool(pool, fb)
  {
    var once := FilterPool(pool, fb);
    assert forall k :: 0 <= k < |once| ==> once[k] in once;
    FilterKeepsConsistentPool(once, fb);
  }

  /** Filtering splits over concatenation, so the filter acts word by word, in pool order. */
  lemma {:induction false} FilterAppend(a: seq<Word>, b: seq<Word>, fb: Feedback)
    ensures FilterPool(a + b, fb) == FilterPool(a, fb) + FilterPool(b, fb)
  {
    if |a| > 0 {
      assert (a + b)[1..] == a[1..] + b;
      FilterAppend(a[1..], b, fb);
    } else {
      assert a + b == b;
    }
  }

  /** The word at the head of the pool stays at the head exactly when it agrees with the feedback. */
  lemma HeadSurvives(pool: seq<Word>, fb: Feedback)
    requires |pool| > 0
    ensures Consistent(pool[0], fb) <==> (|FilterPool(pool, fb)| > 0 && FilterPool(pool, fb)[0] == pool[0])
  {
    if !Consistent(pool[0], fb) && |FilterPool(pool, fb)| > 0 {
      var r := FilterPool(pool, fb);
      assert r[0] in r;
    }
  }

  /** With five pairwise distinct letters in the guess, the true solution survives the honest
      referee's feedback. */
  lemma SolutionSurvives(guess: Word, sol: Word)
    requires forall i, j :: 0 <= i < j < WordLength ==> guess[i] != guess[j]
    ensures Consistent(sol, Grade(guess, sol))
  {
    var p := GetPattern(guess, sol);
    var fb := Grade(guess, sol);
    forall k | 0 <= k < |fb|
      ensures Admits(sol, fb[k])
    {
      if p[k] == Absent {
        // the only slot carrying this letter is k itself, so no copy of it was charged; an Absent
        // slot has every copy of its letter charged, hence the solution holds none
        MarkedExcludes(guess, p, |guess|, guess[k]);
        assert multiset(sol)[guess[k]] == 0;
      }
    }
  }

  /** When the guess repeats a letter of the solution more often than the solution holds it, some
      copy is graded Absent, and the loose "absent" test then drops the true solution. */
  lemma RepeatedLetterDropsSolution(guess: Word, sol: Word, c: char)
    requires c in sol
    requires multiset(guess)[c] > multiset(sol)[c]
    ensures !Consistent(sol, Grade(guess, sol))
  {
    var p := GetPattern(guess, sol);
    var j := SurplusCopyAbsent(guess, sol, p, c);
    AbsentEntryRejects(sol, Grade(guess, sol), j);
  }

  /** A pattern charging no more copies than the solution holds leaves some copy of a surplus
      letter Absent; the slot of one such copy. */
  lemma SurplusCopyAbsent(guess: Word, sol: Word, p: Pattern, c: char) returns (j: nat)
    requires |p| == WordLength && Marked(guess, p, |guess|) <= multiset(sol)
    requires multiset(guess)[c] > multiset(sol)[c]
    ensures j < WordLength && guess[j] == c && p[j] == Absent
  {
    assert guess[..|guess|] == guess;
    UnchargedCopy(guess, p, |guess|, c);
    j :| 0 <= j < |guess| && guess[j] == c && p[j] == Absent;
  }

  /** An "absent" entry whose letter the word holds rejects the word. */
  lemma AbsentEntryRejects(w: string, fb: Feedback, j: nat)
    requires j < |fb| && fb[j].state == Absent && fb[j].letter in w
    ensures !Consistent(w, fb)
  {
    assert !Admits(w, fb[j]);
  }
}
