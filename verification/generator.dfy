/**
 The generator a fountain's two ends seed alike, as the stream of fractions it yields.

 Nothing below depends on which stream it is: what is proved holds for every one.
 */
module Generator {
  /** A draw: `next_double`, with no rounding. */
  type Fraction = d: real | 0.0 <= d < 1.0 witness 0.0

  /** Draw `k` of a seeded generator is `s(k)`. */
  type Stream = nat -> Fraction

  /** `d` scaled to a whole number in `0..n`. */
  function Scaled(d: Fraction, n: nat): (k: nat)
    requires 0 < n
    ensures k < n
  {
    assert d * n as real < n as real;
    (d * n as real).Floor
  }

  /** The draws are cut into `n` stretches of equal length, and `d` is in stretch `k`. */
  ghost predicate InStretch(d: Fraction, n: nat, k: nat) {
    k as real <= d * n as real < (k + 1) as real
  }

  /** A draw is in exactly one stretch, and that is the number it gives. */
  lemma ScaledIsStretch(d: Fraction, n: nat, k: nat)
    requires 0 < n
    ensures InStretch(d, n, k) <==> k == Scaled(d, n)
  {
  }

  /** A number in `low..=high`. */
  function IntIn(d: Fraction, low: nat, high: nat): (k: nat)
    requires low <= high
    ensures low <= k <= high
  {
    Scaled(d, high - low + 1) + low
  }

  class Rng {
    const stream: Stream
    /** How many draws have been made. */
    var drawn: nat

    constructor (seeded: Stream)
      ensures stream == seeded && drawn == 0
    {
      stream := seeded;
      drawn := 0;
    }

    method NextDouble() returns (d: Fraction)
      modifies this
      ensures d == stream(old(drawn)) && drawn == old(drawn) + 1
    {
      d := stream(drawn);
      drawn := drawn + 1;
    }

    method NextInt(low: nat, high: nat) returns (k: nat)
      requires low <= high
      modifies this
      ensures k == IntIn(stream(old(drawn)), low, high) && drawn == old(drawn) + 1
      ensures low <= k <= high && InStretch(stream(old(drawn)), high - low + 1, k - low)
    {
      var d := NextDouble();
      ScaledIsStretch(d, high - low + 1, Scaled(d, high - low + 1));
      k := IntIn(d, low, high);
    }
  }
}
