/** The letter-construction solver: keep no pool, build each guess slot by slot from the letters
    learned so far, play at most 100 rounds. */
module GreedyVersion {
  import opened Types
  import opened GameState
  import opened GameLoop
  import opened RandomPick

  const MaxAttempts: nat := 100

  /** `COMMON_LETTERS`, most frequent first. */
  const CommonLetters: string := "etaoinsrhdlucmfywgpbvkxqjz"

  /** `letters.filter((letter) => !absent.has(letter))`. */
  function Without(letters: string, absent: set<char>): (r: string)
    ensures forall c :: c in r <==> c in letters && c !in absent
    ensures IsSubsequence(r, letters)
  {
    if |letters| == 0 then ""
    else if letters[0] !in absent then [letters[0]] + Without(letters[1..], absent)
    else Without(letters[1..], absent)
  }

  /** `availableLetters`: the common letters in their order, without the absent ones. */
  function AvailableLetters(absent: set<char>): (r: string)
    ensures forall c :: c in r <==> c in CommonLetters && c !in absent
    ensures IsSubsequence(r, CommonLetters)
  {
    Without(CommonLetters, absent)
  }

  /** `[...presentLetters, ...availableLetters]`: a present letter stays eligible even when it is
      also recorded as absent. */
  function LetterPool(k: Knowledge): (r: string)
    ensures forall c :: c in r <==> c in k.present || (c in CommonLetters && c !in k.absent)
    ensures k.present <= r
  {
    k.present + AvailableLetters(k.absent)
  }

  /** The `map` callback for slot i: the known correct letter, or a random pick from the pool
      (`undefined`, here `None`, when the pool is empty). */
  function SlotLetter(k: Knowledge, i: nat, r: real): (o: Option<char>)
    ensures i in k.correct ==> o == Some(k.correct[i])
    ensures i !in k.correct && o.Some? ==> o.value in LetterPool(k)
    ensures i !in k.correct && 0.0 <= r < 1.0 ==> (o.Some? <==> |LetterPool(k)| > 0)
  {
    if i in k.correct then Some(k.correct[i]) else Pick(LetterPool(k), r)
  }

  /** `.join("")`: an `undefined` element joins as the empty string. */
  function Join(slots: seq<Option<char>>): (w: string)
    ensures |w| <= |slots|
    ensures (forall i :: 0 <= i < |slots| ==> slots[i].Some?) ==>
              |w| == |slots| && forall i :: 0 <= i < |slots| ==> w[i] == slots[i].value
  {
    if |slots| == 0 then ""
    else
      var n := |slots| - 1;
      Join(slots[..n]) + (match slots[n] case Some(c) => [c] case None => "")
  }

  /** Joining a concatenation joins each part, so the slots are joined one by one, in order. */
  lemma {:induction false} JoinAppend(a: seq<Option<char>>, b: seq<Option<char>>)
    ensures Join(a + b) == Join(a) + Join(b)
    decreases |b|
  {
    if |b| == 0 {
      assert a + b == a;
    } else {
      var n := |b| - 1;
      assert (a + b)[..|a + b| - 1] == a + b[..n];
      JoinAppend(a, b[..n]);
    }
  }

  /** A single slot joins as its letter, or as nothing when it is `undefined`. */
  lemma JoinSlot(o: Option<char>)
    ensures Join([o]) == (match o case Some(c) => [c] case None => "")
  {
    assert [o][..0] == [];
  }

  /** `generateGuessWord(gameState)`, with `random(i)` the draw for slot i. */
  function BuildGuess(k: Knowledge, random: nat -> real): (w: string)
    ensures |w| <= WordLength
    ensures (forall i :: 0 <= i < WordLength && i !in k.correct ==> 0.0 <= random(i) < 1.0 && |LetterPool(k)| > 0) ==>
              && |w| == WordLength
              && (forall i :: 0 <= i < WordLength && i in k.correct ==> w[i] == k.correct[i])
              && (forall i :: 0 <= i < WordLength && i !in k.correct ==> w[i] in LetterPool(k))
  {
    Join(seq(WordLength, i requires 0 <= i < WordLength => SlotLetter(k, i, random(i))))
  }

  /** `random(attempt, i)` is the `Math.random()` draw for slot i in that round. */
  function Strategy(random: (nat, nat) -> real): (Knowledge, nat) -> Guess {
    (k: Knowledge, attempt: nat) => Some(BuildGuess(k, (i: nat) => random(attempt, i)))
  }

  /** `playWordle()`; the module-level `SEED` lives inside `referee`. */
  method Play(random: (nat, nat) -> real, referee: (nat, Guess) -> Option<Feedback>) returns (out: Outcome)
    ensures out == Rounds(NoKnowledge, 0, MaxAttempts, Strategy(random), UpdateKnowledge, referee)
    ensures out.attempts <= MaxAttempts
    ensures out.isCorrect <==> out.ending == Solved
    ensures out.ending == Exhausted ==> out.attempts == MaxAttempts
    ensures out.ending != Exhausted ==> out.attempts >= 1
  {
    out := RunGame(NoKnowledge, MaxAttempts, Strategy(random), UpdateKnowledge, referee);
  }
}
