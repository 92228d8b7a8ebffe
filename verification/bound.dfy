/**
  The CCDF bound cursors: they pair each CCDF element with its successor, so
  that the emitted steps lie on or above (upper mode) or on or below (lower
  mode) the true CCDF.
 */
module CcdfBound {
  import opened Options
  import opened Layout
  import opened Histogram
  import opened Samples
  import opened Ccdf

  /** The element emitted for the consecutive CCDF elements `prev` and `next`. */
  function Pair(upper: bool, prev: CcdfElement, next: CcdfElement): CcdfElement
  {
    if upper then CcdfElement(next.value, prev.fraction, prev.count)
    else CcdfElement(prev.value, next.fraction, next.count)
  }

  /** Every pair of consecutive elements of `e`, in order. */
  function Paired(e: seq<CcdfElement>, upper: bool): (r: seq<CcdfElement>)
    ensures |r| == if |e| == 0 then 0 else |e| - 1
    ensures forall k :: 0 <= k < |r| ==> r[k] == Pair(upper, e[k], e[k + 1])
  {
    if |e| <= 1 then [] else [Pair(upper, e[0], e[1])] + Paired(e[1..], upper)
  }

  /** The wrapped CCDF cursor, the mode, and the element read ahead (if any). */
  datatype BoundCursor = BoundCursor(ccdf: Cursor, upper: bool, curr: Option<CcdfElement>)
  {
    predicate Valid()
    {
      ccdf.Valid()
    }

    /** Bounds the number of further steps. */
    function Remaining(): nat
    {
      ccdf.Remaining() + (if curr.Some? then 1 else 0)
    }

    /**
      Read the next CCDF element and pair it with the one read ahead. When the
      CCDF is exhausted the read-ahead element is dropped, so the cursor stays
      exhausted.
     */
    function Next(): (r: (Option<CcdfElement>, BoundCursor))
      requires Valid()
      ensures r.1.Valid() && r.1.upper == upper && r.1.ccdf.hist == ccdf.hist
      ensures r.0.Some? ==> curr.Some? && r.1.Remaining() < Remaining()
      ensures r.0.None? ==> r.1.curr.None?
    {
      match curr
      case None => (None, this)
      case Some(prev) =>
        match ccdf.Next()
        case None => (None, this.(curr := None))
        case Some((next, rest)) => (Some(Pair(upper, prev, next)), BoundCursor(rest, upper, Some(next)))
    }
  }

  /** Wrap a CCDF cursor, reading its first element ahead. */
  function New(c: Cursor, upper: bool): (b: BoundCursor)
    requires c.Valid()
    ensures b.Valid() && b.upper == upper
    ensures b.curr.None? <==> c.Next().None?
  {
    match c.Next()
    case None => BoundCursor(c, upper, None)
    case Some((first, rest)) => BoundCursor(rest, upper, Some(first))
  }

  /** Everything the bound cursor still emits, in order. */
  function BoundElements(b: BoundCursor): seq<CcdfElement>
    requires b.Valid()
    decreases b.Remaining()
  {
    match b.Next()
    case (None, _) => []
    case (Some(e), rest) => [e] + BoundElements(rest)
  }

  /** The upper-bound cursor of a histogram. */
  function UpperBound(h: HdrHist): (b: BoundCursor)
    requires h.Valid()
    ensures b.Valid() && b.upper
  {
    New(Start(h), true)
  }

  /** The lower-bound cursor of a histogram. */
  function LowerBound(h: HdrHist): (b: BoundCursor)
    requires h.Valid()
    ensures b.Valid() && !b.upper
  {
    New(Start(h), false)
  }

  lemma PairedCons(x: CcdfElement, e: seq<CcdfElement>, upper: bool)
    requires |e| > 0
    ensures Paired([x] + e, upper) == [Pair(upper, x, e[0])] + Paired(e, upper)
  {
    assert ([x] + e)[1..] == e;
  }

  /** A cursor with `x` read ahead emits the pairs of `x` followed by the rest of the CCDF. */
  lemma {:induction false} BoundElementsPaired(c: Cursor, upper: bool, x: CcdfElement)
    requires c.Valid()
    ensures BoundElements(BoundCursor(c, upper, Some(x))) == Paired([x] + Elements(c), upper)
    decreases c.Remaining()
  {
    match c.Next()
    case None =>
    case Some((next, rest)) =>
      BoundElementsPaired(rest, upper, next);
      PairedCons(x, [next] + Elements(rest), upper);
  }

  /** A bound cursor emits one element per consecutive pair of the CCDF it wraps. */
  lemma BoundIsPairing(c: Cursor, upper: bool)
    requires c.Valid()
    ensures BoundElements(New(c, upper)) == Paired(Elements(c), upper)
  {
    match c.Next()
    case None =>
    case Some((first, rest)) =>
      BoundElementsPaired(rest, upper, first);
  }

  /**
    The upper-bound cursor of a histogram emits one element fewer than its
    CCDF (none for an empty histogram), each with the next value and the
    current fraction and count.
   */
  lemma UpperBoundElements(h: HdrHist)
    requires h.Valid()
    ensures var e, u := CcdfOf(h), BoundElements(UpperBound(h));
      && |u| == (if |e| == 0 then 0 else |e| - 1)
      && forall k :: 0 <= k < |u| ==> u[k] == CcdfElement(e[k + 1].value, e[k].fraction, e[k].count)
  {
    BoundIsPairing(Start(h), true);
  }

  /**
    The lower-bound cursor of a histogram emits one element fewer than its
    CCDF (none for an empty histogram), each with the current value and the
    next fraction and count.
   */
  lemma LowerBoundElements(h: HdrHist)
    requires h.Valid()
    ensures var e, l := CcdfOf(h), BoundElements(LowerBound(h));
      && |l| == (if |e| == 0 then 0 else |e| - 1)
      && forall k :: 0 <= k < |l| ==> l[k] == CcdfElement(e[k].value, e[k + 1].fraction, e[k + 1].count)
  {
    BoundIsPairing(Start(h), false);
  }

  /** Read against the raw samples, the upper bound never reports less than the true share at its value. */
  lemma UpperBoundDominates(s: seq<U64>)
    ensures var u := BoundElements(UpperBound(FromSamples(s)));
      forall k :: 0 <= k < |u| ==> u[k].fraction.den == |s| && CountAtLeast(s, u[k].value) <= u[k].fraction.num
  {
    var h := FromSamples(s);
    var e := CcdfOf(h);
    UpperBoundElements(h);
    CcdfValuesIncrease(h);
    var u := BoundElements(UpperBound(h));
    forall k | 0 <= k < |u|
      ensures u[k].fraction.den == |s| && CountAtLeast(s, u[k].value) <= u[k].fraction.num
    {
      CcdfMatchesSamples(s, k);
      CountLessMonotone(s, e[k].value, e[k + 1].value);
    }
  }

  /** Read against the raw samples, the lower bound never reports more than the true share at its value. */
  lemma LowerBoundIsDominated(s: seq<U64>)
    ensures var l := BoundElements(LowerBound(FromSamples(s)));
      forall k :: 0 <= k < |l| ==> l[k].fraction.den == |s| && l[k].fraction.num <= CountAtLeast(s, l[k].value)
  {
    var h := FromSamples(s);
    var e := CcdfOf(h);
    LowerBoundElements(h);
    CcdfValuesIncrease(h);
    var l := BoundElements(LowerBound(h));
    forall k | 0 <= k < |l|
      ensures l[k].fraction.den == |s| && l[k].fraction.num <= CountAtLeast(s, l[k].value)
    {
      CcdfMatchesSamples(s, k + 1);
      CountLessMonotone(s, e[k].value, e[k + 1].value);
    }
  }

  /** The `k`-th upper-bound element, read off the CCDF. */
  lemma UpperBoundAt(h: HdrHist, k: nat)
    requires h.Valid() && k < |BoundElements(UpperBound(h))|
    ensures k + 1 < |CcdfOf(h)|
    ensures BoundElements(UpperBound(h))[k] == CcdfElement(CcdfOf(h)[k + 1].value, CcdfOf(h)[k].fraction, CcdfOf(h)[k].count)
  {
    UpperBoundElements(h);
  }

  /** The `k`-th lower-bound element, read off the CCDF. */
  lemma LowerBoundAt(h: HdrHist, k: nat)
    requires h.Valid() && k < |BoundElements(LowerBound(h))|
    ensures k + 1 < |CcdfOf(h)|
    ensures BoundElements(LowerBound(h))[k] == CcdfElement(CcdfOf(h)[k].value, CcdfOf(h)[k + 1].fraction, CcdfOf(h)[k + 1].count)
  {
    LowerBoundElements(h);
  }

  /**
    Plotted with linear interpolation, the upper bound stays above the truth:
    between two consecutive points the fractions do not increase, and the
    true share at any value in between is at most the later (smaller) one.
   */
  lemma UpperBoundInterpolated(s: seq<U64>, k: nat, x: nat)
    requires var u := BoundElements(UpperBound(FromSamples(s)));
      k + 1 < |u| && u[k].value <= x <= u[k + 1].value
    ensures var u := BoundElements(UpperBound(FromSamples(s)));
      && u[k + 1].fraction.num <= u[k].fraction.num
      && CountAtLeast(s, x) <= u[k + 1].fraction.num
  {
    var h := FromSamples(s);
    var e := CcdfOf(h);
    var u := BoundElements(UpperBound(h));
    UpperBoundAt(h, k);
    UpperBoundAt(h, k + 1);
    assert e[k].value < e[k + 1].value by {
      CcdfValuesIncrease(h);
    }
    assert e[k].fraction.num == CountAtLeast(s, e[k].value) by {
      CcdfMatchesSamples(s, k);
    }
    assert e[k + 1].fraction.num == CountAtLeast(s, e[k + 1].value) by {
      CcdfMatchesSamples(s, k + 1);
    }
    CountLessMonotone(s, e[k].value, e[k + 1].value);
    CountLessMonotone(s, e[k + 1].value, x);
  }

  /**
    Plotted with linear interpolation, the lower bound stays below the truth:
    between two consecutive points the fractions do not increase, and the
    true share at any value in between is at least the earlier (larger) one.
   */
  lemma LowerBoundInterpolated(s: seq<U64>, k: nat, x: nat)
    requires var l := BoundElements(LowerBound(FromSamples(s)));
      k + 1 < |l| && l[k].value <= x <= l[k + 1].value
    ensures var l := BoundElements(LowerBound(FromSamples(s)));
      && l[k + 1].fraction.num <= l[k].fraction.num
      && l[k].fraction.num <= CountAtLeast(s, x)
  {
    var h := FromSamples(s);
    var e := CcdfOf(h);
    var l := BoundElements(LowerBound(h));
    LowerBoundAt(h, k);
    LowerBoundAt(h, k + 1);
    assert e[k + 1].value < e[k + 2].value by {
      CcdfValuesIncrease(h);
    }
    assert e[k + 1].fraction.num == CountAtLeast(s, e[k + 1].value) by {
      CcdfMatchesSamples(s, k + 1);
    }
    assert e[k + 2].fraction.num == CountAtLeast(s, e[k + 2].value) by {
      CcdfMatchesSamples(s, k + 2);
    }
    CountLessMonotone(s, e[k + 1].value, e[k + 2].value);
    CountLessMonotone(s, x, e[k + 1].value);
  }
}
