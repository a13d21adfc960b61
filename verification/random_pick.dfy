/** `xs[Math.floor(Math.random() * xs.length)]` with the random draw passed in as a real number. */
module RandomPick {
  import opened Types

  /** `Math.floor(r * n)`. */
  function RandomIndex(r: real, n: nat): (k: int)
    ensures 0.0 <= r < 1.0 && n > 0 ==> 0 <= k < n
  {
    ScaledDrawInRange(r, n);
    (r * n as real).Floor
  }

  /** A draw from [0, 1) scaled by a positive length lands in [0, length). */
  lemma ScaledDrawInRange(r: real, n: nat)
    ensures 0.0 <= r < 1.0 && n > 0 ==> 0.0 <= r * n as real < n as real
  {
    if 0.0 <= r < 1.0 && n > 0 {
      assert n as real - r * n as real == (1.0 - r) * n as real;
    }
  }

  /** Indexing with the drawn index; outside the sequence JavaScript reads `undefined`, here `None`. */
  function Pick<T>(xs: seq<T>, r: real): (o: Option<T>)
    ensures o.Some? ==> o.value in xs
    ensures 0.0 <= r < 1.0 ==> (o.Some? <==> |xs| > 0)
  {
    var k := RandomIndex(r, |xs|);
    if 0 <= k < |xs| then Some(xs[k]) else None
  }

  /** Picking from a sequence of one element yields that element, whatever the draw. */
  lemma PickSingle<T>(x: T, r: real)
    requires 0.0 <= r < 1.0
    ensures Pick([x], r) == Some(x)
  {
  }
}
