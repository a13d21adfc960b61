# Wordle solver guess-selection engine, in Dafny

This project models the core of a Wordle solver. The solver plays against a remote referee that hides a
five-letter solution and answers every guess with one `{slot, guess, result}` record per slot, where
`result` is "correct", "present" or "absent". The solver keeps a pool of candidate words, grades
candidates against each other with its own `getPattern`, picks the next guess, and narrows the pool
after each round. There are four strategy files that share this engine:

- `wordleWithPureEntropy.js` guesses the first pool word of maximal entropy. It plays at most 100
  rounds.
- `wordleWithFrequency.js` scores each word by entropy plus one hundredth of a letter-frequency score,
  collects every word tied at the maximum, and picks one of them at random. It plays at most 1000
  rounds.
- `wordleWithGreedy.js` always guesses the first word of the pool. It plays at most 100 rounds.
- `greedy_version.js` keeps no pool. It builds each guess slot by slot from the letters learned so far
  and plays at most 100 rounds.

The modules follow that structure:

- `Types`: words, letter states and feedback entries.
- `PatternMatcher`: the two-pass grading function `getPattern`. Its pass-2 letter counts are a multiset. It also
  holds a rule-based description of a Wordle grading, which `getPattern` is proved to meet, and which
  is proved to determine the grading uniquely.
- `PatternCounts`: the pattern-count map inside `calculateEntropy`.
- `CandidateFilter`: the loose per-entry filter of `updateGameState`.
- `GameState`: the letter bookkeeping and the win flag of `updateGameState`.
- `RandomPick`: `xs[Math.floor(Math.random() * xs.length)]`.
- `GameLoop`: the shared `while` loop. It is written once as a recursive reference and once as the
  loop itself, proved equal.
- `PureEntropy`, `WithFrequency`, `WithGreedy` and `GreedyVersion`: one module per strategy file,
  each with its own constants, guess selection and entry point.
- `Scenarios`: concrete rounds worked through the model.

Modelling choices:

- The referee is a function from the attempt number and the guess to the feedback. It is fixed for
  the game, and `None` stands for any error thrown inside the `try`.
- The random draws are passed in as reals in [0, 1).
- The entropy value is an abstract function of the pattern counts and the pool size.
- The loop's result has an `Ending` field (Solved, Exhausted, Aborted) beside `isCorrect` and
  `attempts`. The three pool-based solvers return `{ isCorrect, attempts }`. `greedy_version.js`
  returns nothing; it only logs whether the word was found and after how many attempts
  (greedy_version.js:83-89). Its model returns those two logged values instead. The `Ending` field
  lets the contracts tell an exhausted budget apart from an error break.
- `wordleWithPureEntropy.js` and `wordleWithFrequency.js` carry identical copies of `getPattern`,
  `calculateEntropy` and `updateGameState`. `wordleWithGreedy.js` carries the same `updateGameState`.
  Each of these is modelled once.

Pass 1 runs before pass 2, so a letter in the same slot of both words is always correct, never
present. For "crane" against "swine", both words hold `n` at slot 3 and `e` at slot 4, so the grading is
absent, absent, absent, correct, correct (`Scenarios.CraneAgainstSwine`). Filtering the pool crane,
slate, shine, spine, swine with that feedback keeps exactly "shine", "spine" and "swine".

## Model

| member | source | states |
|---|---|---|
| PatternMatcher.ExactPass | wordleWithPureEntropy.js:77-82 | After pass 1, a slot is correct exactly when its letter matches the solution's, and no slot is present. The charged letters plus the copies left make up exactly the solution's letters, so no count goes below zero. |
| PatternMatcher.PresentPass | wordleWithPureEntropy.js:84-89 | Pass 2 never turns a correct slot into anything else and never marks one. It only takes copies that remain, so the pool of copies only shrinks. Charged letters plus the copies left are preserved. |
| PatternMatcher.PresentPassDecisions | wordleWithPureEntropy.js:84-89 | Pass 2 leaves a slot absent only when no copy of its letter is left at the end. It marks a slot present only when a copy was left before the pass. A later copy of a letter is never present while an earlier copy is absent. |
| PatternMatcher.GetPattern | wordleWithPureEntropy.js:69-92 | The grading obeys the Wordle rules. It has five slots, and correct means the letters match. No letter is charged as correct or present more often than the solution holds it. An absent slot means every copy of its letter is already charged. Copies are served leftmost first. Every present letter occurs in the solution. |
| PatternMatcher.PatternUnique | wordleWithFrequency.js:107-130 | Any pattern that obeys those rules equals `getPattern`'s, so the rules are a complete description of `getPattern`. |
| PatternMatcher.LoneAbsentLetterMissing | wordleWithPureEntropy.js:84-89 | A letter that the guess holds only once, graded absent, does not occur in the solution at all. |
| PatternMatcher.GradeAllCorrect | wordleWithPureEntropy.js:77-82 | An honest referee's feedback is correct in every slot if and only if the guess is the solution. |
| PatternMatcher.SelfPatternAllCorrect | wordleWithPureEntropy.js:70-82 | A word graded against itself is correct in all five slots. |
| CandidateFilter.FilterPool | wordleWithPureEntropy.js:125-132 | A word stays exactly when every entry admits it: "correct" requires the letter at the slot, "present" requires the letter somewhere, "absent" requires it nowhere. The result is an order-preserving subsequence of the pool. |
| CandidateFilter.FilterKeepsConsistentPool | wordleWithPureEntropy.js:126-131 | A pool all of whose words agree with the feedback comes through unchanged. |
| CandidateFilter.FilterIdempotent | wordleWithGreedy.js:69-76 | Filtering again with the same feedback changes nothing. |
| CandidateFilter.FilterAppend | wordleWithFrequency.js:157-164 | Filtering a concatenation filters each part, so the filter acts word by word and keeps pool order. |
| CandidateFilter.HeadSurvives | wordleWithGreedy.js:69-76 | The first word stays first exactly when it agrees with the feedback. |
| CandidateFilter.SolutionSurvives | wordleWithFrequency.js:157-164 | With five pairwise distinct letters in the guess, the solution agrees with the honest referee's feedback, so it is never filtered out. |
| CandidateFilter.RepeatedLetterDropsSolution | wordleWithFrequency.js:161 | When the guess holds a letter of the solution more often than the solution does, the loose "absent" test rejects the solution itself. |
| PatternCounts.Bump | wordleWithPureEntropy.js:60 | Setting `get(p) + 1` raises the count of p by one and leaves every other count alone. A known pattern keeps its place, and a new one is appended. The total grows by one. |
| PatternCounts.BumpKeepsShape | wordleWithPureEntropy.js:60 | The map keeps distinct keys and positive counts. |
| PatternCounts.CountPatterns | wordleWithPureEntropy.js:58-61 | The count of every pattern is its number of occurrences. The counts are positive and sum to the number of patterns counted, and there are no more keys than patterns. |
| PatternCounts.Tabulate | wordleWithPureEntropy.js:57-61 | The map of a guess against the pool has only positive counts. They sum to the pool size, so there are at most as many distinct patterns as pool words. Its keys are exactly the patterns that occur. |
| GameState.FiveLetterWords | wordleWithPureEntropy.js:18-20 | The starting pool holds a word exactly when the fetched list holds it and it has five letters. The pool keeps the list's order. |
| GameState.FiveLetterWordsCounts | wordleWithPureEntropy.js:18-20 | Each five-letter word is in the pool as many times as in the fetched list, and no other word is in it. |
| GameState.FiveLetterWordsAppend | wordleWithPureEntropy.js:18-20 | The filter distributes over concatenation, so it decides each word of the list on its own and in place. |
| GameState.Record | wordleWithPureEntropy.js:108-123 | The win flag stays set exactly when every entry is "correct". The present letters, the absent letters and the filled correct slots only grow. |
| GameState.RecordPresent | wordleWithPureEntropy.js:114-117 | The present letters gain exactly the letters of the "present" entries, each once, so they stay duplicate-free like a Set. |
| GameState.RecordAbsent | wordleWithPureEntropy.js:118-121 | The absent letters gain exactly the letters of the "absent" entries. |
| GameState.RecordCorrect | greedy_version.js:46-50 | A slot becomes filled exactly when some "correct" entry names it, and it never becomes empty again. The write overwrites: a slot named by "correct" entries ends with the letter of the last of them. A slot that no "correct" entry names keeps its old letter. |
| GameState.UpdateGameState | wordleWithPureEntropy.js:107-135 | The function reports a win exactly when every entry is "correct". The new pool holds exactly the old pool words that agree with the feedback, in order. The letter sets only grow. |
| GameState.UpdateKnowledge | greedy_version.js:44-62 | The same bookkeeping without a pool: a win exactly when every entry is "correct", and the letter sets and correct slots only grow. |
| GameState.WinIffSolved | wordleWithFrequency.js:139-166 | Against an honest referee, a round reports a win if and only if the guess is the solution. |
| GameState.SolutionStaysInPool | wordleWithFrequency.js:157-164 | With five distinct guess letters, the solution stays in the pool after a round graded by an honest referee. |
| GameLoop.Rounds | wordleWithPureEntropy.js:25-38 | The loop plays at most the budget of rounds. It reports success exactly when it was solved. It runs out only with the whole budget spent, and every other ending counts the round that ended it. |
| GameLoop.RunGame | wordleWithPureEntropy.js:22-38 | The `while` loop returns exactly the recursive reference's outcome, with the attempt bound and the ending laws. |
| GameLoop.BudgetSpent | wordleWithPureEntropy.js:25 | With the budget spent, no further round is played and the game ends unsolved. |
| GameLoop.RoundContinues | wordleWithPureEntropy.js:26-31 | A round answered with feedback that is not a win moves on to the next round from the updated state. |
| GameLoop.RoundWins | wordleWithGreedy.js:24-30 | A winning round ends the game at once, solved, with that round counted. |
| GameLoop.RoundFails | wordleWithPureEntropy.js:32-35 | A round whose request fails ends the game at once, unsolved, with the failed round counted. |
| RandomPick.RandomIndex | wordleWithFrequency.js:91 | A draw in [0, 1) scaled by a positive length gives an index inside the sequence. |
| RandomPick.Pick | greedy_version.js:32 | A pick is always an element of the sequence. With a draw in [0, 1) it exists exactly when the sequence is non-empty; otherwise it is `undefined`. |
| RandomPick.PickSingle | wordleWithFrequency.js:91 | From a single-element sequence every draw picks that element. |
| PureEntropy.ScanBest | wordleWithPureEntropy.js:45-51 | The loop ends on the first slot of maximal score: no word scores more, and every earlier word scores strictly less. |
| PureEntropy.FirstBest | wordleWithPureEntropy.js:41-54 | For a non-empty pool, `generateGuessWord` returns the earliest word of maximal score. For an empty pool it returns "". |
| PureEntropy.FirstMaxUnique | wordleWithPureEntropy.js:47 | Because the comparison is strict, the first maximum is unique. |
| PureEntropy.SingleWordChosen | wordleWithPureEntropy.js:41-53 | A pool of one word yields that word whatever its score. |
| PureEntropy.Play | wordleWithPureEntropy.js:9-39 | The game is the shared loop over the five-letter pool with a budget of 100. It uses at most 100 attempts, and exhaustion means exactly 100. |
| WithFrequency.LetterFrequency | wordleWithFrequency.js:8-35 | The table in hundredths: positive exactly for 'a' to 'z', at most 1270 ('e'), and 0 for any other character. |
| WithFrequency.FrequencyScore | wordleWithFrequency.js:37-41 | The score of a word is at most 1270 per character. |
| WithFrequency.FrequencyAppend | wordleWithFrequency.js:38-40 | The score of a concatenation is the sum of the scores, so the score is the per-character sum of table values. |
| WithFrequency.FrequencyPermutation | wordleWithFrequency.js:38-40 | The score depends only on which letters occur and how often, not on their order. |
| WithFrequency.ScoredAt | wordleWithFrequency.js:86-88 | A word is among those scored m exactly when it is a pool word with score m. |
| WithFrequency.TiesRestart | wordleWithFrequency.js:83-85 | A word that beats every earlier score becomes the maximum and the only word tied at it. |
| WithFrequency.TiesKeep | wordleWithFrequency.js:86-88 | A word at or below the maximum keeps the maximum, and joins the tied words exactly when it equals it. |
| WithFrequency.ScanTies | wordleWithFrequency.js:79-89 | After the loop, `maxScore` is the maximum score of the pool. `bestWords` is exactly the pool words scoring it, in pool order, and it is empty only for an empty pool. |
| WithFrequency.TiedBest | wordleWithFrequency.js:75-89 | `bestWords` is empty exactly for an empty pool. Otherwise it is non-empty and equals the pool words at the maximal score, in pool order. |
| WithFrequency.NextGuess | wordleWithFrequency.js:91 | The guess is one of the tied words. With a draw in [0, 1) there is a guess exactly when the pool is non-empty; otherwise it is `undefined`. |
| WithFrequency.DrawDecidesChoice | wordleWithFrequency.js:91 | The guess is `bestWords[k]` for the index k of the draw, and k lies inside `bestWords`. |
| WithFrequency.Play | wordleWithFrequency.js:43-73 | The game is the shared loop with a budget of 1000. It uses at most 1000 attempts, and exhaustion means exactly 1000. |
| WithGreedy.FirstCandidate | wordleWithGreedy.js:40-42 | A non-empty pool yields a guess from the pool. An empty pool yields `undefined`. |
| WithGreedy.GuessSurvivesIffNoAbsent | wordleWithGreedy.js:69-76 | When the feedback echoes the guess, the guess survives the filter if and only if no entry is "absent". |
| WithGreedy.GuessRepeats | wordleWithGreedy.js:41 | A guess that draws only "correct" and "present" stays first in the pool, so it is guessed again. |
| WithGreedy.SolvedAtOnce | wordleWithGreedy.js:24-31 | When the first pool word is the solution, the game is won in round 1. |
| WithGreedy.AnagramStalls | wordleWithGreedy.js:24-35 | Suppose the first word is not the solution but draws no "absent" (an anagram of the solution, say). Then it is guessed in every remaining round, and the game ends exhausted after 100 attempts. |
| WithGreedy.Play | wordleWithGreedy.js:8-38 | The game is the shared loop with a budget of 100. It uses at most 100 attempts, and exhaustion means exactly 100. |
| GreedyVersion.Without | greedy_version.js:19-21 | Filtering keeps exactly the letters that are not absent, in their original order. Membership and order fix the result for a duplicate-free string such as `COMMON_LETTERS`, the only one it is given. |
| GreedyVersion.AvailableLetters | greedy_version.js:19-21 | `availableLetters` is `COMMON_LETTERS` in its order, with exactly the absent letters removed. |
| GreedyVersion.LetterPool | greedy_version.js:31 | The pool holds exactly the present letters and the common letters that are not absent. A present letter stays eligible even when it is also absent. |
| GreedyVersion.SlotLetter | greedy_version.js:25-33 | A slot with a known correct letter gets that letter. Any other slot gets a letter from the pool, and it gets one exactly when the pool is non-empty. |
| GreedyVersion.Join | greedy_version.js:34 | When every slot has a letter, the joined word has one character per slot, in order. It is never longer than the slots. |
| GreedyVersion.JoinAppend | greedy_version.js:34 | Joining a concatenation joins each part, so the slots are joined one after another, in order. |
| GreedyVersion.JoinSlot | greedy_version.js:34 | A slot with a letter joins as that letter, and an `undefined` slot joins as the empty string. Together with `JoinAppend`, this fixes the joined word for any mix of slots. |
| GreedyVersion.BuildGuess | greedy_version.js:17-35 | When draws are valid and the pool is non-empty, the guess has five letters. Each known correct slot holds its letter, and every other slot holds a letter from the pool. It is never longer than five. |
| GreedyVersion.Play | greedy_version.js:64-81 | The game is the shared loop over the letter bookkeeping alone, with a budget of 100. It uses at most 100 attempts and stops at once on a win or an error. |
| Scenarios.CraneAgainstSwine | wordleWithPureEntropy.js:77-89 | "crane" against "swine" grades absent, absent, absent, correct, correct. |
| Scenarios.CraneRoundFiltersPool | wordleWithPureEntropy.js:125-132 | The pool crane, slate, shine, spine, swine filtered with that feedback is exactly shine, spine, swine. |
| Scenarios.GeeseAgainstSheep | wordleWithFrequency.js:115-127 | "geese" against "sheep" grades absent, present, correct, present, absent. The e at slot 2 is correct, the spare e goes to slot 1, and the e at slot 4 is absent. |
| Scenarios.GeeseRoundDropsSheep | wordleWithFrequency.js:161 | The feedback of that round removes "sheep", the true solution, from the pool. |

## Left out

- `makeGuess` and the word-list fetch (HTTP through axios). The referee is an abstract function, and the starting word list is a parameter.
- The retry and interceptor plumbing of `utils.js`, and the benchmark driver `index.js`. Both are network timing and console output around the core.
- The numeric value of the entropy (`Math.log2` and floating-point division). The score is an abstract function `entropyOf` of the pattern counts, in insertion order, and of the pool size.
- WithFrequency.BlendedScore: adds the entropy and the frequency score in exact real arithmetic. Floating-point rounding, which could break or create ties, is not modelled.
- Scores are exact reals. NaN and infinite scores are not modelled. They would defeat the strict `>` and `===` comparisons, but the entropy sum of a non-empty pool never produces them.
- WithFrequency.FrequencyScore, WithFrequency.FrequencyAppend, WithFrequency.FrequencyPermutation: the model adds the table values exactly, as integer hundredths. The source's `reduce` adds IEEE doubles (8.17, 12.7, ...), whose last bits depend on the order of the letters. For example, "slate" sums to 40.290000000000006 and its anagram "least" to 40.29. Additivity and order-independence therefore hold for the exact sum only.
- Words are sequences of Unicode scalar values. JavaScript's `length`, indexing, `split("")` and `includes` work on UTF-16 code units. A word with a character outside the Basic Multilingual Plane therefore has a different length in the two. It could pass one five-letter filter and fail the other, and it would be graded slot by slot differently. The model assumes every character is one code unit, as for the lower-case letters of the word list.
- `Math.random`: every draw is an injected real. Contracts that need it assume the draw lies in [0, 1).
- Console logging, `Date.now`, the module-level `SEED`, the global `gameState` object and the top-level `playWordle()` call of `greedy_version.js`. The seed lives inside the referee, and the state is passed explicitly.
- The mixed ES module and CommonJS export in `wordleWithGreedy.js`. It is packaging, not logic.
- A `result` string other than "correct", "present" or "absent". The `switch` would ignore it and the filter would accept it. `LetterState` has only the three values.
- Entries whose `guess` field is not a single character. Letters are `char`s.
- The outcome's `Ending` field is an addition. The pool-based solvers return only `isCorrect` and `attempts`.
- GreedyVersion.Play: `playWordle` returns nothing and only logs the outcome. The model returns the logged `isCorrect` and attempt count as its result, and it does not model the log lines or the joined `correctLetters` word they print.
