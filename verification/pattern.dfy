/** The two-pass Wordle grading (`getPattern`): which slots of a guess are correct, present or absent
    against a hypothetical solution, with duplicate letters never counted more often than the
    solution holds them. */
module PatternMatcher {
  import opened Types

  /** The letters that `marks` charges against the solution among the first `n` slots:
      one copy of guess[j] for every slot j < n that is not Absent. */
  function Marked(guess: string, marks: Pattern, n: nat): multiset<char>
    requires n <= |guess| && n <= |marks|
  {
    if n == 0 then multiset{}
    else Marked(guess, marks, n - 1) + (if marks[n - 1] != Absent then multiset{guess[n - 1]} else multiset{})
  }

  lemma {:induction false} MarkedUpdate(guess: string, marks: Pattern, n: nat, i: nat, s: LetterState)
    requires n <= |guess| && n <= |marks| && i < |marks|
    requires marks[i] == Absent && s != Absent
    ensures Marked(guess, marks[i := s], n) == Marked(guess, marks, n) + (if i < n then multiset{guess[i]} else multiset{})
  {
    if n > 0 {
      MarkedUpdate(guess, marks, n - 1, i, s);
      var updated := marks[i := s];
      if n - 1 == i {
        assert Marked(guess, updated, n) == Marked(guess, updated, n - 1) + multiset{guess[i]};
        assert Marked(guess, marks, n) == Marked(guess, marks, n - 1);
      } else {
        assert updated[n - 1] == marks[n - 1];
      }
    }
  }

  lemma {:induction false} MarkedNone(guess: string, marks: Pattern, n: nat)
    requires n <= |guess| && n <= |marks|
    requires forall j :: 0 <= j < n ==> marks[j] == Absent
    ensures Marked(guess, marks, n) == multiset{}
  {
    if n > 0 {
      MarkedNone(guess, marks, n - 1);
    }
  }

  /** Every slot that is not Absent contributes its letter. */
  lemma {:induction false} MarkedContains(guess: string, marks: Pattern, n: nat)
    requires n <= |guess| && n <= |marks|
    ensures forall j :: 0 <= j < n && marks[j] != Absent ==> guess[j] in Marked(guess, marks, n)
  {
    if n > 0 {
      MarkedContains(guess, marks, n - 1);
    }
  }

  /** Every letter charged comes from some slot that is not Absent. */
  lemma {:induction false} MarkedWitness(guess: string, marks: Pattern, n: nat, c: char)
    requires n <= |guess| && n <= |marks|
    requires c in Marked(guess, marks, n)
    ensures exists j :: 0 <= j < n && marks[j] != Absent && guess[j] == c
  {
    if n > 0 && !(marks[n - 1] != Absent && guess[n - 1] == c) {
      MarkedWitness(guess, marks, n - 1, c);
    }
  }

  /** A letter carried only by Absent slots is not charged at all. */
  lemma {:induction false} MarkedExcludes(guess: string, marks: Pattern, n: nat, c: char)
    requires n <= |guess| && n <= |marks|
    requires forall j :: 0 <= j < n && guess[j] == c ==> marks[j] == Absent
    ensures c !in Marked(guess, marks, n)
  {
    if n > 0 {
      MarkedExcludes(guess, marks, n - 1, c);
    }
  }

  /** If fewer copies of `c` are charged than the guess holds, some slot carrying `c` is Absent. */
  lemma {:induction false} UnchargedCopy(guess: string, marks: Pattern, n: nat, c: char)
    requires n <= |guess| && n <= |marks|
    requires Marked(guess, marks, n)[c] < multiset(guess[..n])[c]
    ensures exists j :: 0 <= j < n && guess[j] == c && marks[j] == Absent
  {
    assert n > 0;
    assert guess[..n] == guess[..n - 1] + [guess[n - 1]];
    if !(guess[n - 1] == c && marks[n - 1] == Absent) {
      UnchargedCopy(guess, marks, n - 1, c);
    }
  }

  /** The working state of `getPattern`: the marks so far and the copies of each letter of the
      solution not yet used up (the source's `actualLetters` count map; a missing key reads
      as 0, just as `undefined > 0` is false). */
  datatype Tally = Tally(marks: Pattern, left: multiset<char>)

  /** Pass 1 over slots i.. : an exact match becomes Correct and uses up one copy of its letter. */
  function ExactPass(guess: Word, actual: Word, i: nat, t: Tally): (r: Tally)
    requires i <= WordLength && |t.marks| == WordLength
    requires forall j :: 0 <= j < i ==> (t.marks[j] == Correct <==> guess[j] == actual[j]) && t.marks[j] != Present
    requires forall j :: i <= j < WordLength ==> t.marks[j] == Absent
    requires Marked(guess, t.marks, |guess|) <= multiset(actual[..i])
    requires Marked(guess, t.marks, |guess|) + t.left == multiset(actual)
    ensures |r.marks| == WordLength
    ensures forall j :: 0 <= j < WordLength ==> (r.marks[j] == Correct <==> guess[j] == actual[j]) && r.marks[j] != Present
    ensures Marked(guess, r.marks, |guess|) + r.left == multiset(actual)
    decreases WordLength - i
  {
    if i == WordLength then t
    else if guess[i] == actual[i] then
      MatchStep(guess, actual, i, t);
      MarksStep(guess, actual, i, t.marks);
      ExactPass(guess, actual, i + 1, Tally(t.marks[i := Correct], t.left - multiset{guess[i]}))
    else
      PrefixGrows(actual, i, Marked(guess, t.marks, |guess|));
      MarksStep(guess, actual, i, t.marks);
      ExactPass(guess, actual, i + 1, t)
  }

  /** Pass 1 moves past slot i: it is Correct exactly when it matches, and nothing after it is marked. */
  lemma MarksStep(guess: Word, actual: Word, i: nat, marks: Pattern)
    requires i < WordLength && |marks| == WordLength
    requires forall j :: 0 <= j < i ==> (marks[j] == Correct <==> guess[j] == actual[j]) && marks[j] != Present
    requires forall j :: i <= j < WordLength ==> marks[j] == Absent
    ensures var m := if guess[i] == actual[i] then marks[i := Correct] else marks;
      && (forall j :: 0 <= j < i + 1 ==> (m[j] == Correct <==> guess[j] == actual[j]) && m[j] != Present)
      && (forall j :: i + 1 <= j < WordLength ==> m[j] == Absent)
  {
  }

  /** Charging an exact match at slot i keeps the charged letters within the solution's first i + 1
      letters and keeps charged plus left equal to the whole solution. */
  lemma MatchStep(guess: Word, actual: Word, i: nat, t: Tally)
    requires i < WordLength && |t.marks| == WordLength
    requires t.marks[i] == Absent && guess[i] == actual[i]
    requires Marked(guess, t.marks, |guess|) <= multiset(actual[..i])
    requires Marked(guess, t.marks, |guess|) + t.left == multiset(actual)
    ensures Marked(guess, t.marks[i := Correct], |guess|) <= multiset(actual[..i + 1])
    ensures Marked(guess, t.marks[i := Correct], |guess|) + (t.left - multiset{guess[i]}) == multiset(actual)
  {
    CopyLeft(actual, i, Marked(guess, t.marks, |guess|), t.left);
    MarkedUpdate(guess, t.marks, |guess|, i, Correct);
    PrefixStep(actual, i);
  }

  lemma PrefixGrows(s: string, i: nat, used: multiset<char>)
    requires i < |s| && used <= multiset(s[..i])
    ensures used <= multiset(s[..i + 1])
  {
    PrefixStep(s, i);
  }

  lemma PrefixStep(s: string, i: nat)
    requires i < |s|
    ensures multiset(s[..i + 1]) == multiset(s[..i]) + multiset{s[i]}
  {
    assert s[..i + 1] == s[..i] + [s[i]];
  }

  /** If the letters used so far all come from the first i slots, the letter at slot i still has a
      copy left: pass 1 never drives a count below zero. */
  lemma CopyLeft(actual: string, i: nat, used: multiset<char>, left: multiset<char>)
    requires i < |actual|
    requires used <= multiset(actual[..i])
    requires used + left == multiset(actual)
    ensures actual[i] in left
  {
    assert actual == actual[..i] + actual[i..];
    assert multiset(actual) == multiset(actual[..i]) + multiset(actual[i..]);
    assert actual[i] in multiset(actual[i..]);
    var c := actual[i];
    assert used[c] <= multiset(actual[..i])[c];
    assert used[c] + left[c] == multiset(actual)[c];
  }

  /** Pass 2 over slots i.. : a slot that is not Correct becomes Present while a copy of its letter
      is left, and uses that copy up; otherwise it stays Absent. */
  function PresentPass(guess: Word, i: nat, t: Tally): (r: Tally)
    requires i <= WordLength && |t.marks| == WordLength
    requires forall j :: i <= j < WordLength ==> t.marks[j] != Present
    ensures |r.marks| == WordLength
    ensures forall j :: 0 <= j < WordLength ==> (r.marks[j] == Correct <==> t.marks[j] == Correct)
    ensures forall j :: 0 <= j < i ==> r.marks[j] == t.marks[j]
    ensures Marked(guess, r.marks, |guess|) + r.left == Marked(guess, t.marks, |guess|) + t.left
    ensures r.left <= t.left
    decreases WordLength - i
  {
    if i == WordLength then t
    else if t.marks[i] != Correct && t.left[guess[i]] > 0 then
      TakeCopy(guess, i, t);
      PresentPass(guess, i + 1, Tally(t.marks[i := Present], t.left - multiset{guess[i]}))
    else
      PresentPass(guess, i + 1, t)
  }

  /** Marking slot i Present moves one copy of its letter from the pool to the charged letters. */
  lemma TakeCopy(guess: Word, i: nat, t: Tally)
    requires i < WordLength && |t.marks| == WordLength
    requires t.marks[i] == Absent && t.left[guess[i]] > 0
    ensures Marked(guess, t.marks[i := Present], |guess|) + (t.left - multiset{guess[i]})
            == Marked(guess, t.marks, |guess|) + t.left
    ensures t.left - multiset{guess[i]} <= t.left
  {
    MarkedUpdate(guess, t.marks, |guess|, i, Present);
  }

  /** What pass 2 decides: an Absent slot found no copy left, a Present slot took a copy that was
      there when the pass reached it, and copies go to the leftmost misplaced slots first. */
  lemma PresentPassDecisions(guess: Word, i: nat, t: Tally)
    requires i <= WordLength && |t.marks| == WordLength
    requires forall j :: i <= j < WordLength ==> t.marks[j] != Present
    ensures var r := PresentPass(guess, i, t);
      && (forall j :: i <= j < WordLength && r.marks[j] == Absent ==> guess[j] !in r.left)
      && (forall j :: i <= j < WordLength && r.marks[j] == Present ==> guess[j] in t.left)
      && (forall j, k :: i <= j < k < WordLength && guess[j] == guess[k] && r.marks[k] == Present ==> r.marks[j] != Absent)
  {
    AbsentFoundNone(guess, i, t);
    PresentHadCopy(guess, i, t);
    LeftmostCopies(guess, i, t);
  }

  /** The pass from slot i on when slot i takes a copy. */
  lemma PresentPassTakes(guess: Word, i: nat, t: Tally)
    requires i < WordLength && |t.marks| == WordLength
    requires forall j :: i <= j < WordLength ==> t.marks[j] != Present
    requires t.marks[i] != Correct && t.left[guess[i]] > 0
    ensures PresentPass(guess, i, t) == PresentPass(guess, i + 1, Tally(t.marks[i := Present], t.left - multiset{guess[i]}))
    ensures PresentPass(guess, i, t).marks[i] == Present
  {
  }

  /** The pass from slot i on when slot i keeps its mark. */
  lemma PresentPassSkips(guess: Word, i: nat, t: Tally)
    requires i < WordLength && |t.marks| == WordLength
    requires forall j :: i <= j < WordLength ==> t.marks[j] != Present
    requires !(t.marks[i] != Correct && t.left[guess[i]] > 0)
    ensures PresentPass(guess, i, t) == PresentPass(guess, i + 1, t)
    ensures PresentPass(guess, i, t).marks[i] == t.marks[i]
  {
  }

  lemma {:induction false} AbsentFoundNone(guess: Word, i: nat, t: Tally)
    requires i <= WordLength && |t.marks| == WordLength
    requires forall j :: i <= j < WordLength ==> t.marks[j] != Present
    ensures var r := PresentPass(guess, i, t);
      forall j :: i <= j < WordLength && r.marks[j] == Absent ==> guess[j] !in r.left
    decreases WordLength - i
  {
    if i < WordLength {
      if t.marks[i] != Correct && t.left[guess[i]] > 0 {
        PresentPassTakes(guess, i, t);
        AbsentFoundNone(guess, i + 1, Tally(t.marks[i := Present], t.left - multiset{guess[i]}));
      } else {
        var r := PresentPass(guess, i, t);
        PresentPassSkips(guess, i, t);
        AbsentFoundNone(guess, i + 1, t);
        if r.marks[i] == Absent {
          NoneLeftOf(r.left, t.left, guess[i]);
        }
      }
    }
  }

  /** A letter missing from a pool is missing from every part of it. */
  lemma NoneLeftOf(part: multiset<char>, pool: multiset<char>, c: char)
    requires part <= pool && pool[c] == 0
    ensures c !in part
  {
  }

  lemma {:induction false} PresentHadCopy(guess: Word, i: nat, t: Tally)
    requires i <= WordLength && |t.marks| == WordLength
    requires forall j :: i <= j < WordLength ==> t.marks[j] != Present
    ensures var r := PresentPass(guess, i, t);
      forall j :: i <= j < WordLength && r.marks[j] == Present ==> guess[j] in t.left
    decreases WordLength - i
  {
    if i < WordLength {
      if t.marks[i] != Correct && t.left[guess[i]] > 0 {
        PresentPassTakes(guess, i, t);
        PresentHadCopy(guess, i + 1, Tally(t.marks[i := Present], t.left - multiset{guess[i]}));
      } else {
        PresentPassSkips(guess, i, t);
        PresentHadCopy(guess, i + 1, t);
      }
    }
  }

  lemma {:induction false} LeftmostCopies(guess: Word, i: nat, t: Tally)
    requires i <= WordLength && |t.marks| == WordLength
    requires forall j :: i <= j < WordLength ==> t.marks[j] != Present
    ensures var r := PresentPass(guess, i, t);
      forall j, k :: i <= j < k < WordLength && guess[j] == guess[k] && r.marks[k] == Present ==> r.marks[j] != Absent
    decreases WordLength - i
  {
    if i < WordLength {
      if t.marks[i] != Correct && t.left[guess[i]] > 0 {
        PresentPassTakes(guess, i, t);
        LeftmostCopies(guess, i + 1, Tally(t.marks[i := Present], t.left - multiset{guess[i]}));
      } else {
        PresentPassSkips(guess, i, t);
        LeftmostCopies(guess, i + 1, t);
        PresentHadCopy(guess, i + 1, t);
      }
    }
  }

  /** `getPattern(guess, actual)`. */
  function GetPattern(guess: Word, actual: Word): (p: Pattern)
    ensures IsWordlePattern(guess, actual, p)
    ensures forall i :: 0 <= i < WordLength && p[i] == Present ==> guess[i] in actual
  {
    var blank := Tally(seq(WordLength, _ => Absent), multiset(actual));
    MarkedNone(guess, blank.marks, WordLength);
    var exact := ExactPass(guess, actual, 0, blank);
    var r := PresentPass(guess, 0, exact);
    PresentPassDecisions(guess, 0, exact);
    PassesObeyRules(guess, actual, r);
    r.marks
  }

  /** What the two passes leave behind is a grading by the rules: the exact matches are Correct,
      the charged letters and the copies left make up the solution, no copy is left of an Absent
      slot's letter, and earlier copies are served first. */
  lemma PassesObeyRules(guess: Word, actual: Word, r: Tally)
    requires |r.marks| == WordLength
    requires forall j :: 0 <= j < WordLength ==> (r.marks[j] == Correct <==> guess[j] == actual[j])
    requires Marked(guess, r.marks, |guess|) + r.left == multiset(actual)
    requires forall j :: 0 <= j < WordLength && r.marks[j] == Absent ==> guess[j] !in r.left
    requires forall j, k :: 0 <= j < k < WordLength && guess[j] == guess[k] && r.marks[k] == Present ==> r.marks[j] != Absent
    ensures IsWordlePattern(guess, actual, r.marks)
    ensures forall i :: 0 <= i < WordLength && r.marks[i] == Present ==> guess[i] in actual
  {
    MarkedContains(guess, r.marks, WordLength);
  }

  /** The feedback an honest referee hiding `actual` returns for `guess`. */
  function Grade(guess: Word, actual: Word): (fb: Feedback)
    ensures |fb| == WordLength
  {
    Echo(guess, GetPattern(guess, actual))
  }

  /** The rules of a Wordle grading, stated without reference to how it is computed: exactly the
      exact matches are Correct, no letter is charged (Correct or Present) more often than the
      solution holds it, an Absent slot means every copy of its letter is already charged, and a
      later copy of a letter is never Present while an earlier copy is Absent. */
  predicate IsWordlePattern(guess: Word, actual: Word, p: Pattern) {
    && |p| == WordLength
    && (forall i :: 0 <= i < WordLength ==> (p[i] == Correct <==> guess[i] == actual[i]))
    && Marked(guess, p, |guess|) <= multiset(actual)
    && (forall i :: 0 <= i < WordLength && p[i] == Absent ==>
          Marked(guess, p, |guess|)[guess[i]] == multiset(actual)[guess[i]])
    && (forall i, j :: 0 <= i < j < WordLength && guess[i] == guess[j] && p[j] == Present ==> p[i] != Absent)
  }

  /** The rules determine the grading: `getPattern` computes the one pattern that obeys them. */
  lemma PatternUnique(guess: Word, actual: Word, p: Pattern)
    requires IsWordlePattern(guess, actual, p)
    ensures p == GetPattern(guess, actual)
  {
    var q := GetPattern(guess, actual);
    AgreeUpTo(guess, actual, p, q, WordLength);
  }

  /** Two patterns obeying the rules agree on their first n slots. */
  lemma {:induction false} AgreeUpTo(guess: Word, actual: Word, p: Pattern, q: Pattern, n: nat)
    requires n <= WordLength
    requires IsWordlePattern(guess, actual, p) && IsWordlePattern(guess, actual, q)
    ensures forall j :: 0 <= j < n ==> p[j] == q[j]
  {
    if n > 0 {
      AgreeUpTo(guess, actual, p, q, n - 1);
      SlotAgrees(guess, actual, p, q, n - 1);
    }
  }

  /** Slot k is decided by the slots before it. */
  lemma SlotAgrees(guess: Word, actual: Word, p: Pattern, q: Pattern, k: nat)
    requires k < WordLength
    requires IsWordlePattern(guess, actual, p) && IsWordlePattern(guess, actual, q)
    requires forall j :: 0 <= j < k ==> p[j] == q[j]
    ensures p[k] == q[k]
  {
    NotPresentAgainstAbsent(guess, actual, p, q, k);
    NotPresentAgainstAbsent(guess, actual, q, p, k);
  }

  /** With equal earlier slots, slot k cannot be Present in one pattern and Absent in the other: the
      Present one would charge one copy more than the Absent one, which has charged them all. */
  lemma NotPresentAgainstAbsent(guess: Word, actual: Word, p: Pattern, q: Pattern, k: nat)
    requires k < WordLength
    requires IsWordlePattern(guess, actual, p) && IsWordlePattern(guess, actual, q)
    requires forall j :: 0 <= j < k ==> p[j] == q[j]
    ensures !(p[k] == Present && q[k] == Absent)
  {
    if p[k] == Present && q[k] == Absent {
      LaterCopiesCorrect(guess, actual, q, k);
      PresentOutcharges(guess, p, q, k);
      assert false;
    }
  }

  /** Two patterns equal before slot k, Present and Absent at k, where after k the first charges
      every copy of the letter the second charges: the first charges more copies of that letter. */
  lemma PresentOutcharges(guess: Word, p: Pattern, q: Pattern, k: nat)
    requires k < WordLength && |p| == WordLength && |q| == WordLength
    requires forall j :: 0 <= j < k ==> p[j] == q[j]
    requires p[k] == Present && q[k] == Absent
    requires forall j :: k < j < WordLength && guess[j] == guess[k] && q[j] != Absent ==> p[j] != Absent
    ensures Marked(guess, p, |guess|)[guess[k]] > Marked(guess, q, |guess|)[guess[k]]
  {
    var c := guess[k];
    MarkedAgree(guess, p, q, k);
    MarkedCounts(guess, p, k, c);
    MarkedCounts(guess, q, k, c);
    MarkedCounts(guess, p, |guess|, c);
    MarkedCounts(guess, q, |guess|, c);
    ChargedRange(guess, p, q, k + 1, |guess|, c);
  }

  /** After an Absent slot, every copy of its letter that is charged is Correct. */
  lemma LaterCopiesCorrect(guess: Word, actual: Word, q: Pattern, k: nat)
    requires k < WordLength
    requires IsWordlePattern(guess, actual, q)
    ensures q[k] == Absent ==>
      forall j :: k + 1 <= j < WordLength && guess[j] == guess[k] && q[j] != Absent ==> guess[j] == actual[j]
  {
  }

  /** The count of c charged over the first n slots, one slot at a time. */
  lemma MarkedStep(guess: string, marks: Pattern, n: nat, c: char)
    requires 0 < n <= |guess| && n <= |marks|
    ensures Marked(guess, marks, n)[c] == Marked(guess, marks, n - 1)[c] + Charge(guess, marks, n - 1, c)
  {
  }

  /** The copies of c that slot j charges: one when it holds c and is not Absent. */
  function Charge(guess: string, marks: Pattern, j: nat, c: char): nat
    requires j < |guess| && j < |marks|
  {
    if guess[j] == c && marks[j] != Absent then 1 else 0
  }

  /** Patterns equal on the first n slots charge the same letters there. */
  lemma {:induction false} MarkedAgree(guess: string, p: Pattern, q: Pattern, n: nat)
    requires n <= |guess| && n <= |p| && n <= |q|
    requires forall j :: 0 <= j < n ==> p[j] == q[j]
    ensures Marked(guess, p, n) == Marked(guess, q, n)
  {
    if n > 0 {
      MarkedAgree(guess, p, q, n - 1);
    }
  }

  /** How many copies of c the first n slots charge, as a number: the count of c in `Marked`
      (`MarkedCounts`), kept as a `nat` so that arguments over a range of slots stay arithmetic. */
  function Charged(guess: string, marks: Pattern, n: nat, c: char): nat
    requires n <= |guess| && n <= |marks|
  {
    if n == 0 then 0 else Charged(guess, marks, n - 1, c) + Charge(guess, marks, n - 1, c)
  }

  /** `Charged` counts c in `Marked`. */
  lemma {:induction false} MarkedCounts(guess: string, marks: Pattern, n: nat, c: char)
    requires n <= |guess| && n <= |marks|
    ensures Marked(guess, marks, n)[c] == Charged(guess, marks, n, c)
  {
    if n > 0 {
      MarkedCounts(guess, marks, n - 1, c);
      MarkedStep(guess, marks, n, c);
    }
  }

  /** If p charges c wherever q does on slots lo..n-1, then p charges at least as many copies of c
      there as q does. */
  lemma {:induction false} ChargedRange(guess: string, p: Pattern, q: Pattern, lo: nat, n: nat, c: char)
    requires lo <= n <= |guess| && n <= |p| && n <= |q|
    requires forall j :: lo <= j < n && guess[j] == c && q[j] != Absent ==> p[j] != Absent
    ensures Charged(guess, p, n, c) + Charged(guess, q, lo, c) >= Charged(guess, q, n, c) + Charged(guess, p, lo, c)
    decreases n - lo
  {
    if lo < n {
      ChargedRange(guess, p, q, lo, n - 1, c);
      assert Charge(guess, q, n - 1, c) <= Charge(guess, p, n - 1, c);
    }
  }

  /** A letter the guess holds only once, graded Absent, does not occur in the solution at all. */
  lemma LoneAbsentLetterMissing(guess: Word, actual: Word, i: nat)
    requires i < WordLength
    requires forall j :: 0 <= j < WordLength && j != i ==> guess[j] != guess[i]
    ensures GetPattern(guess, actual)[i] == Absent ==> guess[i] !in actual
  {
    var p := GetPattern(guess, actual);
    if p[i] == Absent {
      MarkedExcludes(guess, p, |guess|, guess[i]);
      assert multiset(actual)[guess[i]] == 0;
    }
  }

  /** The honest referee hiding `sol`; a missing or malformed guess is an error. */
  function HonestReferee(sol: Word): (nat, Guess) -> Option<Feedback> {
    (attempt: nat, g: Guess) =>
      if g.Some? && |g.value| == WordLength then
        var w: Word := g.value;
        Some(Grade(w, sol))
      else None
  }

  /** The honest referee marks every slot correct exactly when the guess is the solution. */
  lemma GradeAllCorrect(guess: Word, actual: Word)
    ensures (forall i :: 0 <= i < |Grade(guess, actual)| ==> Grade(guess, actual)[i].state == Correct) <==> guess == actual
  {
    var p := GetPattern(guess, actual);
    StatesAllCorrect(Grade(guess, actual), p);
    CorrectEverywhereIffSame(guess, actual, p);
  }

  /** Feedback echoing a pattern is all correct exactly when the pattern is. */
  lemma StatesAllCorrect(fb: Feedback, p: Pattern)
    requires |fb| == |p| && forall i :: 0 <= i < |fb| ==> fb[i].state == p[i]
    ensures (forall i :: 0 <= i < |fb| ==> fb[i].state == Correct) <==> (forall i :: 0 <= i < |p| ==> p[i] == Correct)
  {
  }

  /** A pattern whose correct slots are the exact matches is all correct exactly for equal words. */
  lemma CorrectEverywhereIffSame(guess: Word, actual: Word, p: Pattern)
    requires |p| == WordLength
    requires forall i :: 0 <= i < WordLength ==> (p[i] == Correct <==> guess[i] == actual[i])
    ensures (forall i :: 0 <= i < |p| ==> p[i] == Correct) <==> guess == actual
  {
    if forall i :: 0 <= i < |p| ==> p[i] == Correct {
      SameLetters(guess, actual);
    }
  }

  lemma SameLetters(a: Word, b: Word)
    requires forall i :: 0 <= i < WordLength ==> a[i] == b[i]
    ensures a == b
  {
  }

  /** A word graded against itself is correct in every slot. */
  lemma SelfPatternAllCorrect(w: Word)
    ensures GetPattern(w, w) == seq(WordLength, _ => Correct)
  {
    AllCorrect(GetPattern(w, w));
  }

  lemma AllCorrect(p: Pattern)
    requires |p| == WordLength && forall i :: 0 <= i < |p| ==> p[i] == Correct
    ensures p == seq(WordLength, _ => Correct)
  {
  }

  /** A slot whose letter does not occur in the solution is absent. */
  lemma MissingLetterAbsent(g: Word, a: Word, i: nat)
    requires i < WordLength && g[i] !in a
    ensures GetPattern(g, a)[i] == Absent
  {
  }

  /** A slot whose letter matches the solution's is correct. */
  lemma SameLetterCorrect(g: Word, a: Word, i: nat)
    requires i < WordLength && g[i] == a[i]
    ensures GetPattern(g, a)[i] == Correct
  {
  }

  /** A slot whose letter differs from the solution's is not correct. */
  lemma DifferentLetterNotCorrect(g: Word, a: Word, i: nat)
    requires i < WordLength && g[i] != a[i]
    ensures GetPattern(g, a)[i] != Correct
  {
  }

  /** A letter the guess holds once, found elsewhere in the solution, is present. */
  lemma LoneLetterPresent(g: Word, a: Word, i: nat)
    requires i < WordLength && g[i] in a && g[i] != a[i]
    requires forall j :: 0 <= j < WordLength && j != i ==> g[j] != g[i]
    ensures GetPattern(g, a)[i] == Present
  {
    LoneAbsentLetterMissing(g, a, i);
  }

  /** Of two equal letters, a later one is present only if the earlier one is not absent. */
  lemma LeftmostFirst(g: Word, a: Word, i: nat, j: nat)
    requires i < j < WordLength && g[i] == g[j]
    ensures GetPattern(g, a)[j] == Present ==> GetPattern(g, a)[i] != Absent
  {
  }

  /** An absent slot means every copy of its letter in the solution is already charged. */
  lemma AbsentChargesAll(g: Word, a: Word, i: nat)
    requires i < WordLength
    ensures GetPattern(g, a)[i] == Absent ==> Marked(g, GetPattern(g, a), |g|)[g[i]] == multiset(a)[g[i]]
  {
  }

  /** No letter is charged more often than the solution holds it. */
  lemma ChargedWithin(g: Word, a: Word, c: char)
    ensures Marked(g, GetPattern(g, a), |g|)[c] <= multiset(a)[c]
  {
  }
}
