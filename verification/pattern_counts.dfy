/** The counting half of `calculateEntropy`: how many words of the pool each grading pattern of a
    candidate guess covers. The entropy value itself (a sum of floating-point logarithms) is not
    modelled; it is an abstract function of the counts. */
module PatternCounts {
  import opened Types
  import opened PatternMatcher

  /** The source's `patterns` Map as (pattern, count) pairs in insertion order, the order in which
      `Array.from(patterns.values())` hands the counts to the entropy sum. */
  type Table = seq<(Pattern, nat)>

  /** `patterns.get(p) || 0`. */
  function CountOf(t: Table, p: Pattern): nat {
    if |t| == 0 then 0 else if t[0].0 == p then t[0].1 else CountOf(t[1..], p)
  }

  function Keys(t: Table): set<Pattern> {
    if |t| == 0 then {} else {t[0].0} + Keys(t[1..])
  }

  predicate DistinctKeys(t: Table) {
    forall i, j :: 0 <= i < j < |t| ==> t[i].0 != t[j].0
  }

  predicate AllPositive(t: Table) {
    forall i :: 0 <= i < |t| ==> t[i].1 > 0
  }

  /** The sum of all counts. */
  function Total(t: Table): nat {
    if |t| == 0 then 0 else t[0].1 + Total(t[1..])
  }

  /** `Array.from(patterns.values())`. */
  function Counts(t: Table): seq<nat> {
    seq(|t|, i requires 0 <= i < |t| => t[i].1)
  }

  /** `patterns.set(p, (patterns.get(p) || 0) + 1)`: a known pattern keeps its place and gains one,
      a new pattern is appended with count 1. */
  function Bump(t: Table, p: Pattern): (r: Table)
    ensures |t| <= |r| <= |t| + 1
    ensures forall i :: 0 <= i < |t| ==> r[i].0 == t[i].0
    ensures Keys(r) == Keys(t) + {p}
    ensures forall q :: CountOf(r, q) == CountOf(t, q) + (if q == p then 1 else 0)
    ensures Total(r) == Total(t) + 1
  {
    if |t| == 0 then [(p, 1)]
    else if t[0].0 == p then
      var r := [(p, t[0].1 + 1)] + t[1..];
      assert r[1..] == t[1..];
      r
    else
      var r := [t[0]] + Bump(t[1..], p);
      assert r[1..] == Bump(t[1..], p);
      r
  }

  /** Bumping keeps the keys distinct and the counts positive. */
  lemma {:induction false} BumpKeepsShape(t: Table, p: Pattern)
    requires DistinctKeys(t) && AllPositive(t)
    ensures DistinctKeys(Bump(t, p)) && AllPositive(Bump(t, p))
  {
    var r := Bump(t, p);
    if |t| > 0 && t[0].0 != p {
      BumpKeepsShape(t[1..], p);
      var rest := Bump(t[1..], p);
      assert r == [t[0]] + rest;
      KeysCover(t[1..]);
      KeysCover(rest);
      forall i, j | 0 <= i < j < |r|
        ensures r[i].0 != r[j].0
      {
        if i == 0 {
          assert r[j].0 == rest[j - 1].0;
          assert rest[j - 1].0 in Keys(rest);
          assert t[0].0 !in Keys(t[1..]) by {
            KeysWitness(t[1..], t[0].0);
          }
        }
      }
    }
  }

  lemma {:induction false} KeysCover(t: Table)
    ensures forall i :: 0 <= i < |t| ==> t[i].0 in Keys(t)
  {
    if |t| > 0 {
      KeysCover(t[1..]);
      assert forall i :: 0 < i < |t| ==> t[i] == t[1..][i - 1];
    }
  }

  lemma {:induction false} KeysWitness(t: Table, q: Pattern)
    ensures q in Keys(t) ==> exists i :: 0 <= i < |t| && t[i].0 == q
  {
    if |t| > 0 && q != t[0].0 {
      KeysWitness(t[1..], q);
      if q in Keys(t) {
        var i :| 0 <= i < |t[1..]| && t[1..][i].0 == q;
        assert t[i + 1].0 == q;
      }
    }
  }

  /** The pattern of `guess` against each word of the pool, in pool order. */
  function Patterns(guess: Word, pool: seq<Word>): (ps: seq<Pattern>)
    ensures |ps| == |pool|
  {
    seq(|pool|, i requires 0 <= i < |pool| => GetPattern(guess, pool[i]))
  }

  /** The loop of `calculateEntropy` that fills the `patterns` Map, one pool word at a time. */
  function Tabulate(guess: Word, pool: seq<Word>): (t: Table)
    ensures DistinctKeys(t) && AllPositive(t)
    ensures Total(t) == |pool|
    ensures |t| <= |pool|
    ensures forall q :: q in Keys(t) <==> q in Patterns(guess, pool)
    ensures forall q :: CountOf(t, q) == multiset(Patterns(guess, pool))[q]
  {
    CountPatterns(Patterns(guess, pool))
  }

  /** Counting a sequence of patterns left to right. */
  function CountPatterns(ps: seq<Pattern>): (t: Table)
    ensures DistinctKeys(t) && AllPositive(t)
    ensures Total(t) == |ps|
    ensures |t| <= |ps|
    ensures forall q :: q in Keys(t) <==> q in ps
    ensures forall q :: CountOf(t, q) == multiset(ps)[q]
  {
    if |ps| == 0 then []
    else
      var n := |ps| - 1;
      var before := CountPatterns(ps[..n]);
      BumpKeepsShape(before, ps[n]);
      assert ps == ps[..n] + [ps[n]];
      Bump(before, ps[n])
  }

  /** `calculateEntropy(word, possibleWords)`: the entropy sum, abstracted as `entropyOf`, applied
      to the pattern counts in insertion order and to the pool size. */
  function Entropy(entropyOf: (seq<nat>, nat) -> real, guess: Word, pool: seq<Word>): real {
    entropyOf(Counts(Tabulate(guess, pool)), |pool|)
  }
}
