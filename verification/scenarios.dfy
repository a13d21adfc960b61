/** Concrete rounds worked through the model. */
module Scenarios {
  import opened Types
  import opened PatternMatcher
  import opened CandidateFilter

  /** Five slot states make the pattern. */
  lemma Spell(p: Pattern, s0: LetterState, s1: LetterState, s2: LetterState, s3: LetterState, s4: LetterState)
    requires |p| == 5 && p[0] == s0 && p[1] == s1 && p[2] == s2 && p[3] == s3 && p[4] == s4
    ensures p == [s0, s1, s2, s3, s4]
  {
  }

  lemma CraneLetters(g: Word, a: Word)
    requires g == "crane" && a == "swine"
    ensures g[0] !in a && g[1] !in a && g[2] !in a && g[3] == a[3] && g[4] == a[4]
  {
  }

  /** "crane" against "swine": only the final "ne" lines up, and c, r, a do not occur. */
  lemma CraneAgainstSwine(g: Word, a: Word)
    requires g == "crane" && a == "swine"
    ensures GetPattern(g, a) == [Absent, Absent, Absent, Correct, Correct]
  {
    CraneLetters(g, a);
    MissingLetterAbsent(g, a, 0);
    MissingLetterAbsent(g, a, 1);
    MissingLetterAbsent(g, a, 2);
    SameLetterCorrect(g, a, 3);
    SameLetterCorrect(g, a, 4);
    Spell(GetPattern(g, a), Absent, Absent, Absent, Correct, Correct);
  }

  /** A five-slot pattern, echoed back entry by entry. */
  lemma EchoFive(g: Word, p: Pattern)
    requires |p| == 5
    ensures Echo(g, p) == [Entry(0, g[0], p[0]), Entry(1, g[1], p[1]), Entry(2, g[2], p[2]),
                           Entry(3, g[3], p[3]), Entry(4, g[4], p[4])]
  {
  }

  /** The feedback of that round, entry by entry. */
  lemma CraneFeedback(g: Word, a: Word)
    requires g == "crane" && a == "swine"
    ensures Grade(g, a) == [Entry(0, 'c', Absent), Entry(1, 'r', Absent), Entry(2, 'a', Absent),
                            Entry(3, 'n', Correct), Entry(4, 'e', Correct)]
  {
    CraneAgainstSwine(g, a);
    EchoFive(g, GetPattern(g, a));
  }

  /** A word ending in "ne" without c, r or a passes the filter built from that feedback. */
  lemma CraneFeedbackAdmits(fb: Feedback, w: Word)
    requires fb == [Entry(0, 'c', Absent), Entry(1, 'r', Absent), Entry(2, 'a', Absent),
                    Entry(3, 'n', Correct), Entry(4, 'e', Correct)]
    requires w[3] == 'n' && w[4] == 'e' && 'c' !in w && 'r' !in w && 'a' !in w
    ensures Consistent(w, fb)
  {
  }

  /** The verdict of the filter on each of the five words. */
  lemma CraneVerdicts(fb: Feedback)
    requires fb == [Entry(0, 'c', Absent), Entry(1, 'r', Absent), Entry(2, 'a', Absent),
                    Entry(3, 'n', Correct), Entry(4, 'e', Correct)]
    ensures !Consistent("crane", fb) && !Consistent("slate", fb)
    ensures Consistent("shine", fb) && Consistent("spine", fb) && Consistent("swine", fb)
  {
    assert !Admits("crane", fb[0]);
    assert !Admits("slate", fb[3]);
    CraneFeedbackAdmits(fb, "shine");
    CraneFeedbackAdmits(fb, "spine");
    CraneFeedbackAdmits(fb, "swine");
  }

  /** Filtering the pool with that feedback keeps the three words ending in "ne" that lack c, r, a. */
  lemma CraneRoundFiltersPool(fb: Feedback, pool: seq<Word>)
    requires fb == [Entry(0, 'c', Absent), Entry(1, 'r', Absent), Entry(2, 'a', Absent),
                    Entry(3, 'n', Correct), Entry(4, 'e', Correct)]
    requires pool == ["crane", "slate", "shine", "spine", "swine"]
    ensures FilterPool(pool, fb) == ["shine", "spine", "swine"]
  {
    CraneVerdicts(fb);
    var tail := pool[2..];
    assert tail == ["shine", "spine", "swine"];
    FilterKeepsConsistentPool(tail, fb);
    assert pool[1..][1..] == tail;
  }

  lemma SheepLetters(a: string)
    requires a == "sheep"
    ensures a[0] == 's' && a[1] == 'h' && a[2] == 'e' && a[3] == 'e' && a[4] == 'p'
    ensures 'g' !in a && 's' in a && multiset(a)['e'] == 2
  {
    assert a == ['s', 'h'] + ['e', 'e'] + ['p'];
  }

  lemma GeeseLetters(g: string)
    requires g == "geese"
    ensures g[0] == 'g' && g[1] == 'e' && g[2] == 'e' && g[3] == 's' && g[4] == 'e'
    ensures multiset(g)['e'] == 3
  {
    assert g == ['g'] + ['e', 'e'] + ['s'] + ['e'];
  }

  /** How many copies of c a five-slot pattern charges, slot by slot. */
  lemma MarkedFive(g: string, p: Pattern, c: char)
    requires |g| == 5 && |p| == 5
    ensures Marked(g, p, 5)[c] == Charge(g, p, 0, c) + Charge(g, p, 1, c) + Charge(g, p, 2, c)
                                + Charge(g, p, 3, c) + Charge(g, p, 4, c)
  {
    MarkedStep(g, p, 1, c);
    MarkedStep(g, p, 2, c);
    MarkedStep(g, p, 3, c);
    MarkedStep(g, p, 4, c);
    MarkedStep(g, p, 5, c);
  }

  /** The case split on the e slots 1 and 4 of "geese": neither is correct, at most two e's are
      charged, slot 4 present forces slot 1 not absent, and slot 1 absent forces both copies of the
      solution charged. */
  lemma ESlots(p1: LetterState, p4: LetterState, m: nat)
    requires p1 != Correct && p4 != Correct
    requires m <= 2
    requires p4 == Present ==> p1 != Absent
    requires p1 == Absent ==> m == 2
    requires m == (if p1 != Absent then 1 else 0) + 1 + (if p4 != Absent then 1 else 0)
    ensures p1 == Present && p4 == Absent
  {
  }

  /** "geese" against "sheep": the e at slot 2 is correct, the one spare e of the solution goes to
      the leftmost other e (slot 1), so the e at slot 4 is absent. */
  lemma GeeseAgainstSheep(g: Word, a: Word)
    requires g == "geese" && a == "sheep"
    ensures GetPattern(g, a) == [Absent, Present, Correct, Present, Absent]
  {
    var p := GetPattern(g, a);
    GeeseLetters(g);
    SheepLetters(a);
    assert p[0] == Absent by { MissingLetterAbsent(g, a, 0); }
    assert p[2] == Correct by { SameLetterCorrect(g, a, 2); }
    assert p[3] == Present by { LoneLetterPresent(g, a, 3); }
    assert p[1] != Correct && p[4] != Correct by {
      DifferentLetterNotCorrect(g, a, 1);
      DifferentLetterNotCorrect(g, a, 4);
    }
    // three e's in the guess against two in the solution
    var p1, p4, m := p[1], p[4], Marked(g, p, |g|)['e'];
    assert m <= 2 by { ChargedWithin(g, a, 'e'); }
    assert m == (if p1 != Absent then 1 else 0) + 1 + (if p4 != Absent then 1 else 0) by {
      MarkedFive(g, p, 'e');
    }
    assert p4 == Present ==> p1 != Absent by { LeftmostFirst(g, a, 1, 4); }
    assert p1 == Absent ==> m == 2 by { AbsentChargesAll(g, a, 1); }
    ESlots(p1, p4, m);
    Spell(p, Absent, Present, Correct, Present, Absent);
  }

  /** The loose "absent" test then drops the true solution from the pool. */
  lemma GeeseRoundDropsSheep(g: Word, a: Word)
    requires g == "geese" && a == "sheep"
    ensures FilterPool([a], Grade(g, a)) == []
  {
    SheepLetters(a);
    GeeseLetters(g);
    assert a[2] == 'e';
    RepeatedLetterDropsSolution(g, a, 'e');
  }
}
