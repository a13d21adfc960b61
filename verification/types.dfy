/** Shared vocabulary of the Wordle solver: words, letter states, feedback entries. */
module Types {

  /** Every word the solver works with has this many letters. */
  const WordLength: nat := 5

  /** A candidate word. The word list is cut down to five-letter words before the first round,
      so every word in a pool has exactly `WordLength` characters. */
  type Word = w: string | |w| == WordLength witness "aaaaa"

  datatype Option<+T> = None | Some(value: T)

  /** What the solver sends to the referee; `None` stands for JavaScript's `undefined`
      (an empty pool indexed at 0, an out-of-range random pick). */
  type Guess = Option<string>

  datatype LetterState = Correct | Present | Absent

  /** A grading pattern: one state per slot, in slot order. The source joins the state names into
      one string used as a map key; since "correct", "present" and "absent" start with different
      letters, that join is injective, so a sequence of states is the same key. */
  type Pattern = seq<LetterState>

  /** One `{slot, guess, result}` record of the referee's response. */
  datatype Entry = Entry(slot: nat, letter: char, state: LetterState)

  type Feedback = seq<Entry>

  /** The feedback a referee gives when it grades `guess` with `states`: slot i carries guess[i]. */
  function Echo(guess: string, states: Pattern): (fb: Feedback)
    requires |guess| == |states|
    ensures |fb| == |states|
    ensures forall k :: 0 <= k < |fb| ==> fb[k].slot == k && fb[k].letter == guess[k] && fb[k].state == states[k]
  {
    seq(|states|, k requires 0 <= k < |states| => Entry(k, guess[k], states[k]))
  }

  /** `a` is an order-preserving subsequence of `b`. */
  predicate IsSubsequence<T(==)>(a: seq<T>, b: seq<T>)
    decreases |b|
  {
    if |a| == 0 then true
    else if |b| == 0 then false
    else if a[0] == b[0] then IsSubsequence(a[1..], b[1..])
    else IsSubsequence(a, b[1..])
  }

  /** No element occurs twice (a JavaScript `Set` kept as a sequence in insertion order). */
  predicate NoDuplicates<T(==)>(s: seq<T>) {
    forall i, j :: 0 <= i < j < |s| ==> s[i] != s[j]
  }
}
