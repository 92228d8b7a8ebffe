/**
  The product of a real factor and a count, written as repeated addition so
  that proofs reason about it through a handful of lemmas rather than through
  nonlinear arithmetic.
 */
module Scaling {

  /** `p * n`: `n` copies of `p` added together. */
  function Scaled(p: real, n: nat): real
  {
    if n == 0 then 0.0 else Scaled(p, n - 1) + p
  }

  /** Repeated addition is multiplication. */
  lemma {:induction false} ScaledIsProduct(p: real, n: nat)
    ensures Scaled(p, n) == p * (n as real)
    decreases n
  {
    if n > 0 {
      ScaledIsProduct(p, n - 1);
      assert p * (n as real) == p * ((n - 1) as real) + p;
    }
  }

  /** A factor in `(0, 1]` scales a positive count into `(0, n]`. */
  lemma {:induction false} ScaledWithin(p: real, n: nat)
    requires 0.0 < p <= 1.0 && n > 0
    ensures 0.0 < Scaled(p, n) <= n as real
    decreases n
  {
    if n > 1 {
      ScaledWithin(p, n - 1);
    }
  }

  /** Scaling is monotone in the factor. */
  lemma {:induction false} ScaledMonotone(p: real, p': real, n: nat)
    requires p <= p'
    ensures Scaled(p, n) <= Scaled(p', n)
    decreases n
  {
    if n > 0 {
      ScaledMonotone(p, p', n - 1);
    }
  }

  /** Scaling by `1 - p` leaves what scaling by `p` does not take. */
  lemma {:induction false} ScaledComplement(p: real, n: nat)
    ensures Scaled(1.0 - p, n) == (n as real) - Scaled(p, n)
    decreases n
  {
    if n > 0 {
      ScaledComplement(p, n - 1);
    }
  }
}
