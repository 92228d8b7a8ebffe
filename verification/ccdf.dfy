/**
  The CCDF cursor: one scan of the grid finds the first non-empty cell, the
  total and a stop marker; `Next` then walks the cells contiguously and emits
  `(value, fraction, count)` for each, where the fraction is the share of
  samples not yet passed.
 */
module Ccdf {
  import opened Options
  import opened Layout
  import opened Histogram
  import opened Samples
  import opened Scaling

  /** The exact ratio `num / den` that stands in for the `double` fraction. */
  datatype Ratio = Ratio(num: nat, den: nat) {

    /** `num / den > p`, compared without dividing (meaningful for `den > 0`). */
    predicate Above(p: real)
    {
      (num as real) > Scaled(p, den)
    }
  }

  datatype CcdfElement = CcdfElement(value: nat, fraction: Ratio, count: nat)

  /**
    The cursor state: a snapshot of the histogram, the cell to emit next, the
    stop marker, the number of samples and the number of samples already
    passed.
   */
  datatype Cursor = Cursor(hist: HdrHist, bucket: nat, lowBits: nat, lastBucket: nat, lastLowBits: nat,
                           total: nat, cumulative: nat)
  {
    /** The linear index of the cell to emit next. */
    function Position(): nat
    {
      bucket * LowBits + lowBits
    }

    /**
      Either the exhausted cursor of an empty histogram, or a cursor on a grid
      cell (or one past the last) that has passed exactly the samples of the
      cells before it.
     */
    predicate Valid()
    {
      && hist.Valid()
      && total == hist.Total()
      && ((bucket == Buckets && lowBits == LowBits && cumulative == 0)
          || (lowBits < LowBits && Position() <= Cells && cumulative == hist.Below(Position())))
    }

    /** Cells left before the end of the grid; bounds the number of further steps. */
    function Remaining(): nat
    {
      if lowBits < LowBits && Position() <= Cells then Cells - Position() else 0
    }

    /** The number of samples in the histogram. */
    function Samples(): nat
    {
      total
    }

    /** Emit the current cell and advance to the next one, unless a stop condition holds. */
    function Next(): (r: Option<(CcdfElement, Cursor)>)
      requires Valid()
      ensures r.Some? ==> r.value.1.Valid() && r.value.1.hist == hist && r.value.1.Remaining() < Remaining()
      ensures r.Some? ==> r.value.0.value == RepAt(Position()) && r.value.1.Position() == Position() + 1
    {
      if bucket == Buckets || lowBits == LowBits || (bucket == lastBucket && lowBits == lastLowBits) then None
      else
        CellAtIndex(Cell(bucket, lowBits));
        BelowCoversCell(hist, Position(), Cells);
        var value := Rep(Cell(bucket, lowBits));
        var fraction := Ratio(total - cumulative, total);
        var count := hist.counts[bucket][lowBits];
        var cumulative' := cumulative + count;
        var lowBits' := lowBits + 1;
        var next := if lowBits' == LowBits then this.(cumulative := cumulative', lowBits := 0, bucket := bucket + 1)
                    else this.(cumulative := cumulative', lowBits := lowBits');
        Some((CcdfElement(value, fraction, count), next))
    }
  }

  /** Everything the cursor still emits, in order. */
  function Elements(c: Cursor): (r: seq<CcdfElement>)
    requires c.Valid()
    ensures |r| <= c.Remaining()
    decreases c.Remaining()
  {
    match c.Next()
    case None => []
    case Some((e, rest)) => [e] + Elements(rest)
  }

  // ---------------------------------------------------------------------------
  // Construction

  /** The first non-empty cell at or after `i`. */
  function FirstFrom(h: HdrHist, i: nat): (r: Option<nat>)
    requires h.Valid() && i <= Cells
    ensures r.Some? ==> i <= r.value < Cells && h.Count(r.value) > 0
    ensures r.Some? ==> forall k :: i <= k < r.value ==> h.Count(k) == 0
    ensures r.None? ==> forall k :: i <= k < Cells ==> h.Count(k) == 0
    decreases Cells - i
  {
    if i == Cells then None
    else if h.Count(i) > 0 then Some(i)
    else FirstFrom(h, i + 1)
  }

  /** The last non-empty cell before `i`. */
  function LastBefore(h: HdrHist, i: nat): (r: Option<nat>)
    requires h.Valid() && i <= Cells
    ensures r.Some? ==> r.value < i && h.Count(r.value) > 0
    ensures r.Some? ==> forall k :: r.value < k < i ==> h.Count(k) == 0
    ensures r.None? ==> forall k :: 0 <= k < i ==> h.Count(k) == 0
  {
    if i == 0 then None
    else if h.Count(i - 1) > 0 then Some(i - 1)
    else LastBefore(h, i - 1)
  }

  /** The stop marker: the last non-empty cell advanced by two low-bits positions, wrapping into the next bucket. */
  function Marker(last: nat): (m: (nat, nat))
    ensures m.0 * LowBits + m.1 == last + 2 && m.1 < LowBits
  {
    var lastBucket := last / LowBits;
    var lastLowBits := last % LowBits + 2;
    if lastLowBits >= LowBits then (lastBucket + 1, lastLowBits % LowBits) else (lastBucket, lastLowBits)
  }

  /**
    The cursor as constructed: positioned on the first non-empty cell with the
    stop marker derived from the last one, or exhausted when there are no
    samples.
   */
  function Start(h: HdrHist): (c: Cursor)
    requires h.Valid()
    ensures c.Valid()
  {
    match FirstFrom(h, 0)
    case None =>
      BelowAcrossEmpty(h, 0, Cells);
      // The stop marker is never read on an empty histogram.
      Cursor(h, Buckets, LowBits, 0, 0, h.Total(), 0)
    case Some(first) =>
      BelowAcrossEmpty(h, 0, first);
      var last := LastBefore(h, Cells).value;
      var (lastBucket, lastLowBits) := Marker(last);
      Cursor(h, first / LowBits, first % LowBits, lastBucket, lastLowBits, h.Total(), 0)
  }

  /** The CCDF of a histogram, as the sequence its cursor emits. */
  function CcdfOf(h: HdrHist): seq<CcdfElement>
    requires h.Valid()
  {
    Elements(Start(h))
  }

  /** `FirstFrom` finds `p` when `p` is the first non-empty cell from `i` on. */
  lemma FirstFromIs(h: HdrHist, i: nat, p: nat)
    requires h.Valid() && i <= p < Cells && h.Count(p) > 0
    requires forall k :: i <= k < p ==> h.Count(k) == 0
    ensures FirstFrom(h, i) == Some(p)
  {
  }

  /**
    What the constructor's scan knows after visiting the cells before `p`:
    the running total, whether a non-empty cell was seen, the first one and
    the last one so far.
   */
  ghost predicate ScannedUpTo(h: HdrHist, p: nat, init: bool, first: Cell, last: Cell, total: nat)
    requires h.Valid() && p <= Cells
  {
    && total == h.Below(p)
    && (init <==> LastBefore(h, p).None?)
    && (init ==> last == Cell(0, 0))
    && (!init ==> first.lowBits < LowBits && last.lowBits < LowBits)
    && (!init ==> FirstFrom(h, 0) == Some(Index(first)))
    && (!init ==> LastBefore(h, p) == Some(Index(last)))
  }

  /**
    One step of the scan: visiting cell `(b, l)` extends the knowledge by one
    cell. A non-empty cell becomes the last one seen, and the first one too
    when none was seen before; every cell adds its count to the total.
   */
  lemma ScanStep(h: HdrHist, b: nat, l: nat, init: bool, first: Cell, last: Cell, total: nat,
                 init': bool, first': Cell, last': Cell, total': nat)
    requires h.Valid() && b < Buckets && l < LowBits
    requires ScannedUpTo(h, b * LowBits + l, init, first, last, total)
    requires h.counts[b][l] > 0 ==> !init' && last' == Cell(b, l) && first' == (if init then Cell(b, l) else first)
    requires h.counts[b][l] == 0 ==> init' == init && first' == first && last' == last
    requires total' == total + h.counts[b][l]
    ensures ScannedUpTo(h, b * LowBits + l + 1, init', first', last', total')
  {
    var p := b * LowBits + l;
    assert h.Count(p) == h.counts[b][l];
    if h.counts[b][l] > 0 && init {
      FirstFromIs(h, 0, p);
    }
  }

  /** The constructor's single pass over the grid, as the source performs it. */
  method Scan(h: HdrHist) returns (c: Cursor)
    requires h.Valid()
    ensures c == Start(h)
  {
    var init, first, last, total := true, Cell(0, 0), Cell(0, 0), 0;
    var b := 0;
    while b < Buckets
      invariant b <= Buckets
      invariant ScannedUpTo(h, b * LowBits, init, first, last, total)
    {
      init, first, last, total := ScanBucket(h, b, init, first, last, total);
      b := b + 1;
    }
    c := ScanFinish(h, init, first, last, total);
  }

  /** The inner loop of the scan: visit the cells of bucket `b` in order. */
  method ScanBucket(h: HdrHist, b: nat, init: bool, first: Cell, last: Cell, total: nat)
    returns (init': bool, first': Cell, last': Cell, total': nat)
    requires h.Valid() && b < Buckets && ScannedUpTo(h, b * LowBits, init, first, last, total)
    ensures ScannedUpTo(h, (b + 1) * LowBits, init', first', last', total')
  {
    init', first', last', total' := init, first, last, total;
    var l := 0;
    while l < LowBits
      invariant l <= LowBits
      invariant ScannedUpTo(h, b * LowBits + l, init', first', last', total')
    {
      ghost var init0, first0, last0, total0 := init', first', last', total';
      if h.counts[b][l] > 0 {
        if init' {
          init' := false;
          first' := Cell(b, l);
        }
        last' := Cell(b, l);
      }
      total' := total' + h.counts[b][l];
      ScanStep(h, b, l, init0, first0, last0, total0, init', first', last', total');
      l := l + 1;
    }
  }

  /**
    The end of the constructor: the stop marker is the last non-empty cell
    advanced by two low-bits positions, wrapping into the next bucket; with no
    samples the cursor is placed past the grid.
   */
  method ScanFinish(h: HdrHist, init: bool, first: Cell, last: Cell, total: nat) returns (c: Cursor)
    requires h.Valid() && ScannedUpTo(h, Cells, init, first, last, total)
    ensures c == Start(h)
  {
    ScanComplete(h, init, first, last, total);
    var bucket, lowBits, lastBucket, lastLowBits := first.bucket, first.lowBits, last.bucket, last.lowBits;
    if !init {
      lastLowBits := lastLowBits + 2;
      if lastLowBits >= LowBits {
        lastBucket := lastBucket + 1;
        lastLowBits := lastLowBits % LowBits;
      }
    } else {
      bucket := Buckets;
      lowBits := LowBits;
    }
    c := Cursor(h, bucket, lowBits, lastBucket, lastLowBits, total, 0);
    var s := Start(h);
    assert c.bucket == s.bucket && c.lowBits == s.lowBits && c.total == s.total;
    assert c.lastBucket == s.lastBucket && c.lastLowBits == s.lastLowBits;
  }

  /** After the whole grid, the scan has found what `Start` is built from. */
  lemma ScanComplete(h: HdrHist, init: bool, first: Cell, last: Cell, total: nat)
    requires h.Valid() && ScannedUpTo(h, Cells, init, first, last, total)
    ensures total == h.Total()
    ensures init <==> FirstFrom(h, 0).None?
    ensures init ==> last == Cell(0, 0)
    ensures !init ==> FirstFrom(h, 0).value / LowBits == first.bucket && FirstFrom(h, 0).value % LowBits == first.lowBits
    ensures !init ==> LastBefore(h, Cells).value / LowBits == last.bucket
    ensures !init ==> LastBefore(h, Cells).value % LowBits == last.lowBits
  {
    if !init {
      CellAtIndex(first);
      CellAtIndex(last);
    }
  }


  // ---------------------------------------------------------------------------
  // The walk in closed form

  /** A histogram with samples has a first and a last non-empty cell, in that order. */
  lemma NonEmptyCells(h: HdrHist)
    requires h.Valid() && h.Total() > 0
    ensures FirstFrom(h, 0).Some? && LastBefore(h, Cells).Some?
    ensures FirstFrom(h, 0).value <= LastBefore(h, Cells).value
  {
    TotalPositiveIff(h);
  }

  /** The first non-empty cell. */
  function First(h: HdrHist): (r: nat)
    requires h.Valid() && h.Total() > 0
    ensures r < Cells && h.Count(r) > 0
  {
    NonEmptyCells(h);
    FirstFrom(h, 0).value
  }

  /** The last non-empty cell. */
  function Last(h: HdrHist): (r: nat)
    requires h.Valid() && h.Total() > 0
    ensures First(h) <= r < Cells && h.Count(r) > 0
  {
    NonEmptyCells(h);
    LastBefore(h, Cells).value
  }

  /** One past the last cell the walk emits: two past the last non-empty cell, capped at the end of the grid. */
  function Stop(h: HdrHist): (r: nat)
    requires h.Valid() && h.Total() > 0
    ensures First(h) < r <= Cells
  {
    if Last(h) + 2 < Cells then Last(h) + 2 else Cells
  }

  /** The element for cell `i`: its representative, the share of samples in cells `>= i`, its counter. */
  function CellElement(h: HdrHist, i: nat): CcdfElement
    requires h.Valid() && i < Cells
  {
    BelowMonotone(h, i, Cells);
    CcdfElement(RepAt(i), Ratio(h.Total() - h.Below(i), h.Total()), h.Count(i))
  }

  /** Reference definition: the elements of the cells `[from, to)`, cell by cell. */
  function Reference(h: HdrHist, from: nat, to: nat): seq<CcdfElement>
    requires h.Valid() && from <= to <= Cells
  {
    seq(to - from, k requires 0 <= k < to - from => CellElement(h, from + k))
  }

  /** The cursor positioned on cell `p` of a histogram with samples. */
  function At(h: HdrHist, p: nat): (c: Cursor)
    requires h.Valid() && h.Total() > 0 && p <= Cells
    ensures c.Valid() && c.Position() == p
  {
    var (lastBucket, lastLowBits) := Marker(Last(h));
    Cursor(h, p / LowBits, p % LowBits, lastBucket, lastLowBits, h.Total(), h.Below(p))
  }

  lemma StartIsAt(h: HdrHist)
    requires h.Valid() && h.Total() > 0
    ensures Start(h) == At(h, First(h))
  {
    NonEmptyCells(h);
    BelowAcrossEmpty(h, 0, First(h));
  }

  /**
    One step from cell `p`: the marker and the bucket guard stop the walk
    exactly at `Stop(h)`; before that the cursor emits `CellElement(h, p)`.
   */
  lemma NextAt(h: HdrHist, p: nat)
    requires h.Valid() && h.Total() > 0 && p <= Stop(h)
    ensures At(h, p).Next() == if p < Stop(h) then Some((CellElement(h, p), At(h, p + 1))) else None
  {
    var c := At(h, p);
    var m := Marker(Last(h));
    CellAtIndex(Cell(m.0, m.1));
    assert c.bucket == m.0 && c.lowBits == m.1 <==> p == Last(h) + 2;
    if p < Stop(h) {
      CellAtIndex(Cell(p / LowBits, p % LowBits));
      var (e, next) := c.Next().value;
      assert e == CellElement(h, p);
      assert next.bucket == (p + 1) / LowBits && next.lowBits == (p + 1) % LowBits;
    }
  }

  lemma ReferenceCons(h: HdrHist, a: nat, b: nat)
    requires h.Valid() && a < b <= Cells
    ensures Reference(h, a, b) == [CellElement(h, a)] + Reference(h, a + 1, b)
  {
    var r, t := Reference(h, a, b), [CellElement(h, a)] + Reference(h, a + 1, b);
    assert |r| == |t|;
    forall k | 0 <= k < |r|
      ensures r[k] == t[k]
    {
      if k > 0 {
        assert t[k] == Reference(h, a + 1, b)[k - 1];
      }
    }
  }

  /** From cell `p` on, the cursor emits exactly the reference elements of `[p, Stop(h))`. */
  lemma {:induction false} ElementsAt(h: HdrHist, p: nat)
    requires h.Valid() && h.Total() > 0 && p <= Stop(h)
    ensures Elements(At(h, p)) == Reference(h, p, Stop(h))
    decreases Stop(h) - p
  {
    if p < Stop(h) {
      ElementsStep(h, p);
      ElementsAt(h, p + 1);
      ReferenceCons(h, p, Stop(h));
    } else {
      NextAt(h, p);
    }
  }

  lemma ElementsStep(h: HdrHist, p: nat)
    requires h.Valid() && h.Total() > 0 && p < Stop(h)
    ensures Elements(At(h, p)) == [CellElement(h, p)] + Elements(At(h, p + 1))
  {
    NextAt(h, p);
  }

  /**
    The CCDF is empty for an empty histogram; otherwise it is the contiguous
    run of cells from the first non-empty one up to, not including, `Stop(h)`:
    through one cell past the last non-empty one, or through the last cell of
    the grid when that is the last non-empty one.
   */
  lemma CcdfIsContiguousWalk(h: HdrHist)
    requires h.Valid()
    ensures h.Total() == 0 ==> CcdfOf(h) == []
    ensures h.Total() > 0 ==> First(h) < Stop(h) && CcdfOf(h) == Reference(h, First(h), Stop(h))
    ensures h.Total() > 0 ==> Stop(h) == (if Last(h) + 1 < Cells then Last(h) + 2 else Last(h) + 1)
  {
    if h.Total() > 0 {
      NonEmptyCells(h);
      StartIsAt(h);
      ElementsAt(h, First(h));
    } else {
      TotalPositiveIff(h);
    }
  }

  // ---------------------------------------------------------------------------
  // Shape of the CCDF

  function SumCounts(e: seq<CcdfElement>): nat
  {
    if |e| == 0 then 0 else e[0].count + SumCounts(e[1..])
  }

  lemma {:induction false} SumReference(h: HdrHist, a: nat, b: nat)
    requires h.Valid() && a <= b <= Cells
    ensures h.Below(a) + SumCounts(Reference(h, a, b)) == h.Below(b)
    decreases b - a
  {
    if a < b {
      ReferenceCons(h, a, b);
      assert Reference(h, a, b)[1..] == Reference(h, a + 1, b);
      SumReference(h, a + 1, b);
    }
  }

  /** On an empty histogram the cursor is exhausted at once and reports no samples. */
  lemma CcdfEmpty(h: HdrHist)
    requires h.Valid() && h.Total() == 0
    ensures Start(h).Next() == None
    ensures Start(h).Samples() == 0
  {
    TotalPositiveIff(h);
  }

  /** The cursor reports the number of samples in the histogram. */
  lemma CcdfSamples(h: HdrHist)
    requires h.Valid()
    ensures Start(h).Samples() == h.Total()
  {
  }

  lemma ReferenceShape(h: HdrHist, a: nat, b: nat)
    requires h.Valid() && a <= b <= Cells
    ensures var e := Reference(h, a, b); forall i, j :: 0 <= i < j < |e| ==> e[i].value < e[j].value
    ensures var e := Reference(h, a, b); forall k :: 0 <= k < |e| ==> e[k].fraction.den == h.Total()
    ensures var e := Reference(h, a, b); forall i, j :: 0 <= i < j < |e| ==> e[j].fraction.num <= e[i].fraction.num
  {
    var e := Reference(h, a, b);
    forall k | 0 <= k < |e|
      ensures e[k] == CellElement(h, a + k)
    {
    }
    forall i, j | 0 <= i < j < |e|
      ensures e[i].value < e[j].value && e[j].fraction.num <= e[i].fraction.num
    {
      RepAtMonotone(a + i, a + j);
      BelowMonotone(h, a + i, a + j);
    }
  }

  /** Emitted values are strictly increasing. */
  lemma CcdfValuesIncrease(h: HdrHist)
    requires h.Valid()
    ensures var e := CcdfOf(h); forall i, j :: 0 <= i < j < |e| ==> e[i].value < e[j].value
  {
    CcdfIsContiguousWalk(h);
    if h.Total() > 0 {
      ReferenceShape(h, First(h), Stop(h));
    }
  }

  /** Every fraction has the total as denominator, and the numerators never increase. */
  lemma CcdfFractionsNonIncreasing(h: HdrHist)
    requires h.Valid()
    ensures var e := CcdfOf(h); forall k :: 0 <= k < |e| ==> e[k].fraction.den == h.Total()
    ensures var e := CcdfOf(h); forall i, j :: 0 <= i < j < |e| ==> e[j].fraction.num <= e[i].fraction.num
  {
    CcdfIsContiguousWalk(h);
    if h.Total() > 0 {
      ReferenceShape(h, First(h), Stop(h));
    }
  }

  /** A histogram with samples starts its CCDF at its first non-empty cell, with fraction 1. */
  lemma CcdfStartsAtOne(h: HdrHist)
    requires h.Valid() && h.Total() > 0
    ensures |CcdfOf(h)| > 0
    ensures CcdfOf(h)[0].fraction == Ratio(h.Total(), h.Total())
    ensures CcdfOf(h)[0].count > 0
  {
    CcdfIsContiguousWalk(h);
    NonEmptyCells(h);
    BelowAcrossEmpty(h, 0, First(h));
  }

  /** The emitted counts add up to the number of samples. */
  lemma CcdfCountsSum(h: HdrHist)
    requires h.Valid()
    ensures SumCounts(CcdfOf(h)) == h.Total()
  {
    CcdfIsContiguousWalk(h);
    if h.Total() > 0 {
      WalkCoversSamples(h);
      SumReference(h, First(h), Stop(h));
    }
  }

  /** No sample lies below the first emitted cell, and every sample lies below the stop marker. */
  lemma WalkCoversSamples(h: HdrHist)
    requires h.Valid() && h.Total() > 0
    ensures h.Below(First(h)) == 0 && h.Below(Stop(h)) == h.Total()
  {
    NonEmptyCells(h);
    BelowAcrossEmpty(h, 0, First(h));
    BelowAcrossEmpty(h, Last(h) + 1, Cells);
    BelowMonotone(h, Last(h) + 1, Stop(h));
    BelowMonotone(h, Stop(h), Cells);
  }

  /**
    The last fraction is 0 exactly when the top cell of the grid is empty;
    when the top cell holds samples the bucket guard ends the walk on it.
   */
  lemma CcdfEndsAtZero(h: HdrHist)
    requires h.Valid() && h.Total() > 0
    ensures var e := CcdfOf(h); |e| > 0 && (e[|e| - 1].fraction.num == 0 <==> h.Count(Cells - 1) == 0)
  {
    CcdfIsContiguousWalk(h);
    LastElementFraction(h);
  }

  lemma LastElementFraction(h: HdrHist)
    requires h.Valid() && h.Total() > 0
    ensures First(h) < Stop(h)
    ensures CellElement(h, Stop(h) - 1).fraction.num == 0 <==> h.Count(Cells - 1) == 0
  {
    NonEmptyCells(h);
    var last := Last(h);
    if last + 1 < Cells {
      BelowAcrossEmpty(h, last + 1, Cells);
      assert h.Count(Cells - 1) == 0;
    } else {
      assert h.Below(Cells) == h.Below(last) + h.Count(last);
    }
  }

  /** One cell's element, read against the raw samples. */
  lemma CellElementSamples(s: seq<U64>, h: HdrHist, i: nat)
    requires Summarises(h, s) && i < Cells
    ensures CellElement(h, i).value == RepAt(i)
    ensures CellElement(h, i).fraction == Ratio(CountAtLeast(s, RepAt(i)), |s|)
    ensures CellElement(h, i).count == CountLess(s, RepAt(i + 1)) - CountLess(s, RepAt(i))
  {
    assert h.Below(i) == CountLess(s, RepAt(i));
    assert h.Below(i + 1) == CountLess(s, RepAt(i + 1));
  }

  /**
    Read against the raw samples: each fraction is the share of samples at or
    above the element's value, and each count is the number of samples at or
    above its value and below the next element's value.
   */
  lemma CcdfMatchesSamples(s: seq<U64>, k: nat)
    requires k < |CcdfOf(FromSamples(s))|
    ensures CcdfOf(FromSamples(s))[k].fraction == Ratio(CountAtLeast(s, CcdfOf(FromSamples(s))[k].value), |s|)
    ensures k + 1 < |CcdfOf(FromSamples(s))| ==>
      CcdfOf(FromSamples(s))[k].count
        == CountLess(s, CcdfOf(FromSamples(s))[k + 1].value) - CountLess(s, CcdfOf(FromSamples(s))[k].value)
  {
    var h := FromSamples(s);
    FromSamplesSummarises(s);
    CcdfIsContiguousWalk(h);
    TotalPositiveIff(h);
    ReferenceMatchesSamples(s, h, First(h), Stop(h));
  }

  lemma ReferenceMatchesSamples(s: seq<U64>, h: HdrHist, a: nat, b: nat)
    requires Summarises(h, s) && a <= b <= Cells
    ensures var e := Reference(h, a, b);
      forall k :: 0 <= k < |e| ==> e[k].fraction == Ratio(CountAtLeast(s, e[k].value), |s|)
    ensures var e := Reference(h, a, b);
      forall k :: 0 <= k < |e| - 1 ==> e[k].count == CountLess(s, e[k + 1].value) - CountLess(s, e[k].value)
  {
    var e := Reference(h, a, b);
    forall k | 0 <= k < |e|
      ensures e[k] == CellElement(h, a + k)
    {
    }
    forall k | 0 <= k < |e|
      ensures e[k].fraction == Ratio(CountAtLeast(s, e[k].value), |s|)
    {
      CellElementSamples(s, h, a + k);
    }
    forall k | 0 <= k < |e| - 1
      ensures e[k].count == CountLess(s, e[k + 1].value) - CountLess(s, e[k].value)
    {
      CellElementSamples(s, h, a + k);
      CellElementSamples(s, h, a + k + 1);
    }
  }

  // ---------------------------------------------------------------------------
  // Combination

  /** The two histograms have samples in exactly the same cells. */
  predicate SameSupport(h: HdrHist, g: HdrHist)
    requires h.Valid() && g.Valid()
  {
    forall i :: 0 <= i < Cells ==> (h.Count(i) > 0 <==> g.Count(i) > 0)
  }

  lemma {:induction false} FirstFromSameSupport(h: HdrHist, g: HdrHist, i: nat)
    requires h.Valid() && g.Valid() && SameSupport(h, g) && i <= Cells
    ensures FirstFrom(h, i) == FirstFrom(g, i)
    decreases Cells - i
  {
    if i < Cells {
      FirstFromSameSupport(h, g, i + 1);
    }
  }

  lemma {:induction false} LastBeforeSameSupport(h: HdrHist, g: HdrHist, i: nat)
    requires h.Valid() && g.Valid() && SameSupport(h, g) && i <= Cells
    ensures LastBefore(h, i) == LastBefore(g, i)
    decreases i
  {
    if i > 0 {
      LastBeforeSameSupport(h, g, i - 1);
    }
  }

  /** Doubling every counter doubles each cell's count and both terms of its fraction. */
  lemma SelfCombinedCell(h: HdrHist, i: nat)
    requires h.Valid() && i < Cells
    ensures var c, c' := CellElement(h, i), CellElement(h.Combined(h), i);
      c'.value == c.value && c'.count == 2 * c.count
      && c'.fraction == Ratio(2 * c.fraction.num, 2 * c.fraction.den)
  {
    CombinedBelow(h, h, i);
    CombinedBelow(h, h, Cells);
    BelowMonotone(h, i, Cells);
  }

  /** Doubling every counter keeps the walk's first cell and stop cell. */
  lemma SelfCombinedBounds(h: HdrHist)
    requires h.Valid() && h.Total() > 0
    ensures h.Combined(h).Total() > 0
    ensures First(h.Combined(h)) == First(h) && Stop(h.Combined(h)) == Stop(h)
  {
    var g := h.Combined(h);
    CombinedTotal(h, h);
    assert SameSupport(h, g);
    FirstFromSameSupport(h, g, 0);
    LastBeforeSameSupport(h, g, Cells);
  }

  /** Cell by cell, the self-combined reference is the original one with counts and fraction terms doubled. */
  lemma SelfCombinedReference(h: HdrHist, a: nat, b: nat, k: nat)
    requires h.Valid() && a <= b <= Cells && k < b - a
    ensures var c, c' := Reference(h, a, b)[k], Reference(h.Combined(h), a, b)[k];
      && c'.value == c.value && c'.count == 2 * c.count
      && c'.fraction == Ratio(2 * c.fraction.num, 2 * c.fraction.den)
      && c'.fraction.num * c.fraction.den == c.fraction.num * c'.fraction.den
  {
    var c := CellElement(h, a + k);
    SelfCombinedCell(h, a + k);
    DoubledRatio(c.fraction.num, c.fraction.den);
  }

  lemma DoubledRatio(a: nat, b: nat)
    ensures (2 * a) * b == a * (2 * b)
  {
  }

  /**
    Combining a histogram with itself leaves its CCDF unchanged up to scale:
    the same values in the same order, every count doubled, and every
    fraction with numerator and denominator doubled, so the same ratio.
   */
  lemma SelfCombinedCcdf(h: HdrHist)
    requires h.Valid()
    ensures var e, d := CcdfOf(h), CcdfOf(h.Combined(h));
      && |d| == |e|
      && forall k :: 0 <= k < |e| ==>
        && d[k].value == e[k].value
        && d[k].count == 2 * e[k].count
        && d[k].fraction == Ratio(2 * e[k].fraction.num, 2 * e[k].fraction.den)
        && d[k].fraction.num * e[k].fraction.den == e[k].fraction.num * d[k].fraction.den
  {
    var g := h.Combined(h);
    var e, d := CcdfOf(h), CcdfOf(g);
    if h.Total() == 0 {
      CombinedTotal(h, h);
      CcdfIsContiguousWalk(h);
      CcdfIsContiguousWalk(g);
    } else {
      SelfCombinedBounds(h);
      var a, b := First(h), Stop(h);
      assert e == Reference(h, a, b) by {
        CcdfIsContiguousWalk(h);
      }
      assert d == Reference(g, a, b) by {
        CcdfIsContiguousWalk(g);
      }
      forall k | 0 <= k < |e|
        ensures d[k].value == e[k].value && d[k].count == 2 * e[k].count
        ensures d[k].fraction == Ratio(2 * e[k].fraction.num, 2 * e[k].fraction.den)
        ensures d[k].fraction.num * e[k].fraction.den == e[k].fraction.num * d[k].fraction.den
      {
        SelfCombinedReference(h, a, b, k);
      }
    }
  }
}
