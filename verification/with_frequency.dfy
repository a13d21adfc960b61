/** The entropy-plus-frequency solver: score each word by its entropy plus one hundredth of its
    letter-frequency score, collect every word tied at the maximum, pick one of them at random,
    play at most 1000 rounds. */
module WithFrequency {
  import opened Types
  import opened PatternCounts
  import opened GameState
  import opened GameLoop
  import opened RandomPick

  const MaxAttempts: nat := 1000

  /** `LETTER_FREQUENCY[ch] || 0`, in hundredths of a percent (8.17 is 817); a character outside
      the table scores 0. */
  function LetterFrequency(c: char): (f: nat)
    ensures f > 0 <==> 'a' <= c <= 'z'
    ensures f <= 1270
  {
    match c
    case 'a' => 817  case 'b' => 149  case 'c' => 278  case 'd' => 425  case 'e' => 1270
    case 'f' => 223  case 'g' => 202  case 'h' => 609  case 'i' => 697  case 'j' => 15
    case 'k' => 77   case 'l' => 403  case 'm' => 241  case 'n' => 675  case 'o' => 751
    case 'p' => 193  case 'q' => 10   case 'r' => 599  case 's' => 633  case 't' => 906
    case 'u' => 276  case 'v' => 98   case 'w' => 236  case 'x' => 15   case 'y' => 197
    case 'z' => 7
    case _ => 0
  }

  /** `letterFrequencyScore(word)`: the `reduce` over the characters, left to right. */
  function FrequencyScore(w: string): (s: nat)
    ensures s <= 1270 * |w|
  {
    if |w| == 0 then 0 else FrequencyScore(w[..|w| - 1]) + LetterFrequency(w[|w| - 1])
  }

  /** The score of a concatenation is the sum of the scores. */
  lemma {:induction false} FrequencyAppend(a: string, b: string)
    ensures FrequencyScore(a + b) == FrequencyScore(a) + FrequencyScore(b)
    decreases |b|
  {
    if |b| > 0 {
      var b' := b[..|b| - 1];
      assert (a + b)[..|a + b| - 1] == a + b';
      FrequencyAppend(a, b');
    } else {
      assert a + b == a;
    }
  }

  /** The score depends only on which letters occur how often, not on their order. */
  lemma {:induction false} FrequencyPermutation(a: string, b: string)
    requires multiset(a) == multiset(b)
    ensures FrequencyScore(a) == FrequencyScore(b)
    decreases |a|
  {
    if |a| > 0 {
      var n := |a| - 1;
      var x := a[n];
      assert a == a[..n] + [x];
      assert x in multiset(b);
      var i :| 0 <= i < |b| && b[i] == x;
      var rest := b[..i] + b[i + 1..];
      assert b == b[..i] + [x] + b[i + 1..];
      assert multiset(rest) == multiset(b) - multiset{x};
      assert multiset(a[..n]) == multiset(a) - multiset{x};
      FrequencyPermutation(a[..n], rest);
      FrequencyAppend(a[..n], [x]);
      FrequencyAppend(b[..i], [x]);
      FrequencyAppend(b[..i] + [x], b[i + 1..]);
      FrequencyAppend(b[..i], b[i + 1..]);
      assert FrequencyScore([x]) == LetterFrequency(x) by {
        assert [x][..0] == [];
      }
    } else {
      assert b == [];
    }
  }

  /** `entropy + frequencyScore / 100`, with the entropy abstract and exact real arithmetic. */
  function BlendedScore(entropyOf: (seq<nat>, nat) -> real, pool: seq<Word>): Word -> real {
    (w: Word) => Entropy(entropyOf, w, pool) + FrequencyScore(w) as real / 10000.0
  }

  /** The words of pool with score exactly m, in pool order. */
  function ScoredAt(pool: seq<Word>, score: Word -> real, m: real): (ws: seq<Word>)
    ensures forall w :: w in ws <==> w in pool && score(w) == m
  {
    if |pool| == 0 then []
    else ScoredAt(pool[..|pool| - 1], score, m)
         + (if score(pool[|pool| - 1]) == m then [pool[|pool| - 1]] else [])
  }

  /** m is the maximum score over pool[..n]. */
  predicate IsMax(pool: seq<Word>, score: Word -> real, n: nat, m: real)
    requires n <= |pool|
  {
    (forall j :: 0 <= j < n ==> score(pool[j]) <= m) && (exists j :: 0 <= j < n && score(pool[j]) == m)
  }

  /** `bestWords` and `maxScore`; `None` is `-Infinity`. */
  datatype Ties = Ties(words: seq<Word>, max: Option<real>)

  /** `bestWords` and `maxScore` after the first i words: nothing seen yet, or the maximum score of
      pool[..i] with exactly the words of pool[..i] that reach it, in pool order. */
  predicate TiesSoFar(pool: seq<Word>, score: Word -> real, i: nat, t: Ties)
    requires i <= |pool|
  {
    match t.max
    case None => i == 0 && t.words == []
    case Some(m) => IsMax(pool, score, i, m) && t.words == ScoredAt(pool[..i], score, m)
  }

  /** The `for` loop of `generateGuessWord` from slot i on: a strictly better word restarts
      `bestWords`, an equal one is pushed. */
  function ScanTies(pool: seq<Word>, score: Word -> real, i: nat, t: Ties): (r: Ties)
    requires i <= |pool| && TiesSoFar(pool, score, i, t)
    ensures r.max.None? <==> |pool| == 0
    ensures r.max.None? ==> r.words == []
    ensures r.max.Some? ==> IsMax(pool, score, |pool|, r.max.value) && r.words == ScoredAt(pool, score, r.max.value)
    decreases |pool| - i
  {
    if i == |pool| then
      assert pool[..i] == pool;
      t
    else
      var w := pool[i];
      var s := score(w);
      if t.max.None? || s > t.max.value then
        TiesRestart(pool, score, i, t);
        ScanTies(pool, score, i + 1, Ties([w], Some(s)))
      else
        TiesKeep(pool, score, i, t);
        ScanTies(pool, score, i + 1, Ties(if s == t.max.value then t.words + [w] else t.words, t.max))
  }

  /** A word scoring at most the maximum so far keeps that maximum, and joins the tied words exactly
      when it scores the maximum. */
  lemma TiesKeep(pool: seq<Word>, score: Word -> real, i: nat, t: Ties)
    requires i < |pool| && TiesSoFar(pool, score, i, t)
    requires t.max.Some? && score(pool[i]) <= t.max.value
    ensures TiesSoFar(pool, score, i + 1,
                      Ties(if score(pool[i]) == t.max.value then t.words + [pool[i]] else t.words, t.max))
  {
    TiesStep(pool, score, i, t.max.value);
  }

  /** A word scoring above every earlier one (or the first word) is the maximum of the prefix up to
      it and the only word there with its score. */
  lemma TiesRestart(pool: seq<Word>, score: Word -> real, i: nat, t: Ties)
    requires i < |pool| && TiesSoFar(pool, score, i, t)
    requires t.max.Some? ==> score(pool[i]) > t.max.value
    ensures TiesSoFar(pool, score, i + 1, Ties([pool[i]], Some(score(pool[i]))))
  {
    var s := score(pool[i]);
    TiesStep(pool, score, i, s);
    if t.max.Some? {
      NoneScoredAbove(pool[..i], score, t.max.value, s);
    }
  }

  /** One more word of the pool: the words scored m gain it exactly when it scores m, and a maximum
      over the prefix that the word does not exceed stays the maximum. */
  lemma TiesStep(pool: seq<Word>, score: Word -> real, i: nat, m: real)
    requires i < |pool|
    ensures ScoredAt(pool[..i + 1], score, m)
            == ScoredAt(pool[..i], score, m) + (if score(pool[i]) == m then [pool[i]] else [])
    ensures IsMax(pool, score, i, m) && score(pool[i]) <= m ==> IsMax(pool, score, i + 1, m)
    ensures (forall j :: 0 <= j < i ==> score(pool[j]) <= m) && score(pool[i]) == m ==> IsMax(pool, score, i + 1, m)
  {
    assert pool[..i + 1][..i] == pool[..i];
    if (forall j :: 0 <= j < i ==> score(pool[j]) <= m) && score(pool[i]) == m {
      assert IsMax(pool, score, i + 1, m);
    }
  }

  /** No word scores exactly s when every score is at most m < s. */
  lemma {:induction false} NoneScoredAbove(pool: seq<Word>, score: Word -> real, m: real, s: real)
    requires forall j :: 0 <= j < |pool| ==> score(pool[j]) <= m
    requires m < s
    ensures ScoredAt(pool, score, s) == []
  {
    if |pool| > 0 {
      NoneScoredAbove(pool[..|pool| - 1], score, m, s);
    }
  }

  /** `bestWords` after the loop: every pool word whose score equals the maximum, in pool order;
      empty exactly when the pool is. */
  function TiedBest(pool: seq<Word>, score: Word -> real): (best: seq<Word>)
    ensures |pool| == 0 ==> best == []
    ensures |pool| > 0 ==> |best| > 0 && exists m :: IsMax(pool, score, |pool|, m) && best == ScoredAt(pool, score, m)
  {
    var t := ScanTies(pool, score, 0, Ties([], None));
    match t.max
    case None => t.words
    case Some(m) =>
      MaxIsScored(pool, score, m);
      t.words
  }

  /** Some word attains the maximum, so the tie set is never empty. */
  lemma MaxIsScored(pool: seq<Word>, score: Word -> real, m: real)
    requires IsMax(pool, score, |pool|, m)
    ensures |ScoredAt(pool, score, m)| > 0
  {
    var j :| 0 <= j < |pool| && score(pool[j]) == m;
    assert pool[j] in ScoredAt(pool, score, m);
  }

  /** `bestWords[Math.floor(Math.random() * bestWords.length)]` with the draw `r`. */
  function NextGuess(pool: seq<Word>, score: Word -> real, r: real): (g: Guess)
    ensures g.Some? ==> g.value in TiedBest(pool, score)
    ensures 0.0 <= r < 1.0 ==> (g.Some? <==> |pool| > 0)
  {
    match Pick(TiedBest(pool, score), r)
    case None => None
    case Some(w) => Some(w)
  }

  /** The same draw picks the same word: the choice depends on nothing but the pool, the score and
      the draw. */
  lemma DrawDecidesChoice(pool: seq<Word>, score: Word -> real, r: real)
    requires 0.0 <= r < 1.0 && |pool| > 0
    ensures var k := RandomIndex(r, |TiedBest(pool, score)|);
      0 <= k < |TiedBest(pool, score)| && NextGuess(pool, score, r) == Some(TiedBest(pool, score)[k])
  {
  }

  /** `random(attempt)` is the `Math.random()` draw of that round. */
  function Strategy(entropyOf: (seq<nat>, nat) -> real, random: nat -> real): (PoolState, nat) -> Guess {
    (s: PoolState, attempt: nat) => NextGuess(s.pool, BlendedScore(entropyOf, s.pool), random(attempt))
  }

  /** `playWordleWithFrequency(seed)`; the seed lives inside `referee`. */
  method Play(words: seq<string>, entropyOf: (seq<nat>, nat) -> real, random: nat -> real,
              referee: (nat, Guess) -> Option<Feedback>) returns (out: Outcome)
    ensures out == Rounds(Start(words), 0, MaxAttempts, Strategy(entropyOf, random), UpdateGameState, referee)
    ensures out.attempts <= MaxAttempts
    ensures out.isCorrect <==> out.ending == Solved
    ensures out.ending == Exhausted ==> out.attempts == MaxAttempts
    ensures out.ending != Exhausted ==> out.attempts >= 1
  {
    out := RunGame(Start(words), MaxAttempts, Strategy(entropyOf, random), UpdateGameState, referee);
  }
}
