/**
  The raw samples behind a histogram, kept only as a reference for stating
  what the histogram's counters and derived statistics mean.
 */
module Samples {
  import opened Layout
  import opened Histogram
  import opened Scaling

  /** The histogram obtained by adding the samples of `s`, in order, to an empty one; it holds one count per sample. */
  function FromSamples(s: seq<U64>): (h: HdrHist)
    ensures h.Valid() && h.Total() == |s|
  {
    if |s| == 0 then
      EmptyTotal();
      Empty()
    else
      var prefix := FromSamples(s[..|s| - 1]);
      AddValueTotal(prefix, s[|s| - 1]);
      prefix.AddValue(s[|s| - 1])
  }

  /** Number of samples strictly below `x`. */
  function CountLess(s: seq<U64>, x: nat): (n: nat)
    ensures n <= |s|
  {
    if |s| == 0 then 0 else CountLess(s[..|s| - 1], x) + (if s[|s| - 1] < x then 1 else 0)
  }

  /** Number of samples at or above `x`. */
  function CountAtLeast(s: seq<U64>, x: nat): nat
  {
    |s| - CountLess(s, x)
  }

  /**
    `x` is the value at quantile `q`: fewer than `q * |s|` samples lie below
    it and at least `q * |s|` lie at or below it.
   */
  ghost predicate IsQuantile(s: seq<U64>, q: real, x: nat)
  {
    (CountLess(s, x) as real) < Scaled(q, |s|) <= (CountLess(s, x + 1) as real)
  }

  lemma {:induction false} CountLessMonotone(s: seq<U64>, x: nat, y: nat)
    requires x <= y
    ensures CountLess(s, x) <= CountLess(s, y)
    decreases |s|
  {
    if |s| > 0 {
      CountLessMonotone(s[..|s| - 1], x, y);
    }
  }

  /** Counting below `x` splits over a concatenation. */
  lemma {:induction false} CountLessAppend(a: seq<U64>, b: seq<U64>, x: nat)
    ensures CountLess(a + b, x) == CountLess(a, x) + CountLess(b, x)
    decreases |b|
  {
    if |b| == 0 {
      assert a + b == a;
    } else {
      assert (a + b)[..|a + b| - 1] == a + b[..|b| - 1];
      CountLessAppend(a, b[..|b| - 1], x);
    }
  }

  /** `n` copies of `v` are all below `x` or none is. */
  lemma {:induction false} CountLessConst(n: nat, v: U64, x: nat)
    ensures CountLess(seq(n, _ => v), x) == if v < x then n else 0
  {
    if n > 0 {
      assert seq(n, _ => v)[..n - 1] == seq(n - 1, _ => v);
      CountLessConst(n - 1, v, x);
    }
  }

  /** Every prefix sum of the histogram counts the samples below a representative. */
  lemma {:induction false} SamplesBelow(s: seq<U64>, i: nat)
    requires i <= Cells
    ensures FromSamples(s).Below(i) == CountLess(s, RepAt(i))
    decreases |s|
  {
    if |s| == 0 {
      EmptyBelow(i);
    } else {
      var v := s[|s| - 1];
      SamplesBelow(s[..|s| - 1], i);
      AddValueBelow(FromSamples(s[..|s| - 1]), v, i);
      IndexBelowIff(v, i);
    }
  }

  /** `h` counts the samples `s`: the cells before `i` hold exactly the samples below `RepAt(i)`. */
  ghost predicate Summarises(h: HdrHist, s: seq<U64>)
  {
    && h.Valid() && h.Total() == |s|
    && forall i {:trigger CountLess(s, RepAt(i))} :: 0 <= i <= Cells ==> h.Below(i) == CountLess(s, RepAt(i))
  }

  lemma FromSamplesSummarises(s: seq<U64>)
    ensures Summarises(FromSamples(s), s)
  {
    forall i | 0 <= i <= Cells
      ensures FromSamples(s).Below(i) == CountLess(s, RepAt(i))
    {
      SamplesBelow(s, i);
    }
  }

  lemma EmptyBelow(i: nat)
    requires i <= Cells
    ensures Empty().Below(i) == 0
  {
    BelowAcrossEmpty(Empty(), 0, i);
  }

  /** Each counter holds the number of samples in its cell's value range. */
  lemma SamplesCount(s: seq<U64>, i: nat)
    requires i < Cells
    ensures FromSamples(s).Count(i) == CountLess(s, RepAt(i + 1)) - CountLess(s, RepAt(i))
  {
    SamplesBelow(s, i);
    SamplesBelow(s, i + 1);
  }

  /** Discrete intermediate value: a threshold crossed on `[a, b]` is crossed at a single step. */
  lemma {:induction false} CrossingPoint(s: seq<U64>, t: real, a: nat, b: nat) returns (x: nat)
    requires a < b && (CountLess(s, a) as real) < t <= (CountLess(s, b) as real)
    ensures a <= x < b
    ensures (CountLess(s, x) as real) < t <= (CountLess(s, x + 1) as real)
    decreases b - a
  {
    if t <= (CountLess(s, a + 1) as real) {
      x := a;
    } else {
      x := CrossingPoint(s, t, a + 1, b);
    }
  }

  /** There is at most one value at a given quantile. */
  lemma QuantileUnique(s: seq<U64>, q: real, x: nat, y: nat)
    requires IsQuantile(s, q, x) && IsQuantile(s, q, y)
    ensures x == y
  {
    if x < y {
      CountLessMonotone(s, x + 1, y);
    } else if y < x {
      CountLessMonotone(s, y + 1, x);
    }
  }
}
