/** The pure-entropy solver: guess the first pool word of maximal entropy, play at most 100 rounds. */
module PureEntropy {
  import opened Types
  import opened PatternCounts
  import opened GameState
  import opened GameLoop

  const MaxAttempts: nat := 100

  /** k is the first slot of pool[..n] whose score is maximal. */
  predicate IsFirstMax(pool: seq<Word>, score: Word -> real, n: nat, k: nat)
    requires n <= |pool|
  {
    && k < n
    && (forall j :: 0 <= j < n ==> score(pool[j]) <= score(pool[k]))
    && (forall j :: 0 <= j < k ==> score(pool[j]) < score(pool[k]))
  }

  /** At most one slot is the first maximum. */
  lemma FirstMaxUnique(pool: seq<Word>, score: Word -> real, n: nat, k1: nat, k2: nat)
    requires n <= |pool|
    requires IsFirstMax(pool, score, n, k1) && IsFirstMax(pool, score, n, k2)
    ensures k1 == k2
  {
    assert score(pool[k1]) <= score(pool[k2]);
    assert score(pool[k2]) <= score(pool[k1]);
  }

  /** The `for` loop of `generateGuessWord` from slot i on. `best` is the slot of `bestWord`;
      `None` is the start, `maxEntropy = -Infinity`, which every score beats. A later word replaces
      the best only when it scores strictly more. */
  function ScanBest(pool: seq<Word>, score: Word -> real, i: nat, best: Option<nat>): (r: Option<nat>)
    requires i <= |pool|
    requires best.None? <==> i == 0
    requires best.Some? ==> IsFirstMax(pool, score, i, best.value)
    ensures r.None? <==> |pool| == 0
    ensures r.Some? ==> IsFirstMax(pool, score, |pool|, r.value)
    decreases |pool| - i
  {
    if i == |pool| then best
    else if best.None? || score(pool[i]) > score(pool[best.value]) then ScanBest(pool, score, i + 1, Some(i))
    else ScanBest(pool, score, i + 1, best)
  }

  /** `generateGuessWord` with the score left abstract: the earliest word of maximal score, or ""
      for an empty pool. */
  function FirstBest(pool: seq<Word>, score: Word -> real): (w: string)
    ensures |pool| == 0 ==> w == ""
    ensures |pool| > 0 ==> exists k: nat :: IsFirstMax(pool, score, |pool|, k) && w == pool[k]
  {
    match ScanBest(pool, score, 0, None)
    case None => ""
    case Some(k) => pool[k]
  }

  /** A pool of one word yields that word, whatever its score. */
  lemma SingleWordChosen(w: Word, score: Word -> real)
    ensures FirstBest([w], score) == w
  {
    var k: nat :| IsFirstMax([w], score, 1, k) && FirstBest([w], score) == [w][k];
  }

  /** `calculateEntropy(word, possibleWords)` as the score. */
  function EntropyScore(entropyOf: (seq<nat>, nat) -> real, pool: seq<Word>): Word -> real {
    (w: Word) => Entropy(entropyOf, w, pool)
  }

  function Strategy(entropyOf: (seq<nat>, nat) -> real): (PoolState, nat) -> Guess {
    (s: PoolState, attempt: nat) => Some(FirstBest(s.pool, EntropyScore(entropyOf, s.pool)))
  }

  /** `playWordleWithPureEntropy(seed)`; the seed lives inside `referee`. */
  method Play(words: seq<string>, entropyOf: (seq<nat>, nat) -> real,
              referee: (nat, Guess) -> Option<Feedback>) returns (out: Outcome)
    ensures out == Rounds(Start(words), 0, MaxAttempts,
                          Strategy(entropyOf), UpdateGameState, referee)
    ensures out.attempts <= MaxAttempts
    ensures out.isCorrect <==> out.ending == Solved
    ensures out.ending == Exhausted ==> out.attempts == MaxAttempts
    ensures out.ending != Exhausted ==> out.attempts >= 1
  {
    out := RunGame(Start(words), MaxAttempts,
                   Strategy(entropyOf), UpdateGameState, referee);
  }
}
