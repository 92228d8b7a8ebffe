/**
  Concrete histograms from the library's own examples, with the cursors'
  output worked out exactly.
 */
module Scenarios {
  import opened Options
  import opened Layout
  import opened Histogram
  import opened Samples
  import opened Scaling
  import opened Ccdf
  import opened Quantiles

  // ---------------------------------------------------------------------------
  // A single sample

  /** The histogram of one sample `v`: only `v`'s cell holds a count. */
  lemma SingleSampleCounts(v: U64)
    ensures var h := FromSamples([v]);
      h.Valid() && forall j :: 0 <= j < Cells ==> h.Count(j) == if j == Index(CellOf(v)) then 1 else 0
  {
    assert [v][..0] == [];
  }

  /**
    A histogram whose samples all lie in cell `i`, below the top cell of the
    grid.
   */
  predicate OneCell(h: HdrHist, i: nat)
  {
    && h.Valid() && i + 1 < Cells && h.Total() > 0
    && h.Below(i) == 0 && h.Below(i + 1) == h.Total()
    && h.Count(i + 1) == 0 && h.Count(Cells - 1) == 0
  }

  /** One sample below the top cell makes a one-cell histogram. */
  lemma SingleSampleOneCell(v: U64)
    requires Index(CellOf(v)) + 1 < Cells
    ensures OneCell(FromSamples([v]), Index(CellOf(v))) && FromSamples([v]).Total() == 1
  {
    var h, i := FromSamples([v]), Index(CellOf(v));
    SingleSampleCounts(v);
    BelowAcrossEmpty(h, 0, i);
    BelowAcrossEmpty(h, i + 1, Cells);
  }

  /** A one-cell histogram's walk runs from its cell to the cell after the next one. */
  lemma OneCellWalk(h: HdrHist, i: nat)
    requires OneCell(h, i)
    ensures First(h) == i && Stop(h) == i + 2
  {
    var f, l := First(h), Last(h);
    if f < i {
      BelowCoversCell(h, f, i);
    }
    if i < l {
      BelowMonotone(h, i + 1, l);
      BelowCoversCell(h, l, Cells);
    }
  }

  /** The two elements a one-cell histogram emits. */
  lemma OneCellElements(h: HdrHist, i: nat)
    requires OneCell(h, i)
    ensures CellElement(h, i) == CcdfElement(RepAt(i), Ratio(h.Total(), h.Total()), h.Total())
    ensures CellElement(h, i + 1) == CcdfElement(RepAt(i + 1), Ratio(0, h.Total()), 0)
  {
  }

  lemma TwoCells(h: HdrHist, i: nat)
    requires h.Valid() && i + 2 <= Cells
    ensures Reference(h, i, i + 2) == [CellElement(h, i), CellElement(h, i + 1)]
  {
  }

  /** A one-cell histogram's CCDF is its cell with the whole share, then the next cell with none. */
  lemma OneCellCcdf(h: HdrHist, i: nat, n: nat)
    requires OneCell(h, i) && h.Total() == n
    ensures CcdfOf(h) == [CcdfElement(RepAt(i), Ratio(n, n), n), CcdfElement(RepAt(i + 1), Ratio(0, n), 0)]
  {
    OneCellWalk(h, i);
    CcdfIsContiguousWalk(h);
    TwoCells(h, i);
    OneCellElements(h, i);
  }

  /**
    The CCDF of one sample below the top cell has two elements: the
    sample's cell with the whole share and a count of one, then the next cell
    with share 0. By `Layout.Bracket` the sample lies at or above the first
    value and below the second.
   */
  lemma SingleSampleCcdf(v: U64)
    requires Index(CellOf(v)) + 1 < Cells
    ensures var i := Index(CellOf(v));
      CcdfOf(FromSamples([v])) == [CcdfElement(RepAt(i), Ratio(1, 1), 1), CcdfElement(RepAt(i + 1), Ratio(0, 1), 0)]
  {
    var h, i := FromSamples([v]), Index(CellOf(v));
    assert CcdfOf(h) == [CcdfElement(RepAt(i), Ratio(1, 1), 1), CcdfElement(RepAt(i + 1), Ratio(0, 1), 0)] by {
      SingleSampleOneCell(v);
      OneCellCcdf(h, i, 1);
    }
  }

  /**
    The `single_value` example: the sample 1000000 lands in cell (16, 14), whose
    representative 983040 is reported with share 1, and the walk ends on the
    next cell, 1015808, with share 0. So the last value below 1000000 has share
    1 and the first value at or above it has share 0.
   */
  lemma SingleValueTest()
    ensures CellOf(1000000) == Cell(16, 14)
    ensures CcdfOf(FromSamples([1000000])) == [CcdfElement(983040, Ratio(1, 1), 1), CcdfElement(1015808, Ratio(0, 1), 0)]
  {
    SingleValueReps();
    CellOfIff(1000000, 270);
    CellAtIndex(CellOf(1000000));
    SingleSampleCcdf(1000000);
  }

  /** The representatives of cells (16, 14) and (16, 15), the linear indices 270 and 271. */
  lemma SingleValueReps()
    ensures RepAt(270) == 983040 && RepAt(271) == 1015808
  {
    assert CellAt(270) == Cell(16, 14) && CellAt(271) == Cell(16, 15);
    ShlCompose(30, 8, 7);
    ShlCompose(31, 8, 7);
    assert Shl(30, 8) == 7680 && Shl(31, 8) == 7936;
    assert Shl(7680, 7) == 983040 && Shl(7936, 7) == 1015808;
  }

  /**
    A histogram whose samples all lie in the top cell: the bucket guard ends
    the walk after that cell, so the CCDF is one element with the whole share.
   */
  lemma TopCellCcdf(h: HdrHist)
    requires h.Valid() && h.Total() > 0 && h.Below(Cells - 1) == 0
    ensures CcdfOf(h) == [CcdfElement(RepAt(Cells - 1), Ratio(h.Total(), h.Total()), h.Total())]
  {
    if First(h) < Cells - 1 {
      BelowCoversCell(h, First(h), Cells - 1);
    }
    assert Stop(h) == Cells;
    CcdfIsContiguousWalk(h);
    ReferenceCons(h, Cells - 1, Cells);
  }

  /** The CCDF of one sample in the top cell is that cell alone, with share 1: its last fraction is not 0. */
  lemma SingleSampleTopCcdf(v: U64)
    requires Index(CellOf(v)) == Cells - 1
    ensures CcdfOf(FromSamples([v])) == [CcdfElement(RepAt(Cells - 1), Ratio(1, 1), 1)]
  {
    var h := FromSamples([v]);
    SingleSampleCounts(v);
    BelowAcrossEmpty(h, 0, Cells - 1);
    TopCellCcdf(h);
  }

  /** The answer for quantile `q` is the bracket of the cell where the running count reaches `q` times the total. */
  lemma AnswerIn(h: HdrHist, q: real, c: nat)
    requires h.Valid() && h.Total() > 0 && 0.0 < q <= 1.0 && c < Cells
    requires (h.Below(c) as real) < Scaled(q, h.Total()) <= (h.Below(c + 1) as real)
    ensures Answer(h, q) == Quantile(q, RepAt(c), RepAt(c + 1))
  {
    QuantileCellUnique(h, q, c);
    var a := Answer(h, q);
    assert a.lowerBound == RepAt(c) && a.upperBound == RepAt(c + 1);
  }

  /**
    One sample in the top cell, asked for its maximum: the bucket guard ends
    the walk on the top cell without reading a cell after it, so the cursor
    answers `[0, RepAt(Cells - 1))`, whose upper bound does not exceed the
    sample.
   */
  lemma TopSampleQuantile(v: U64)
    requires Index(CellOf(v)) == Cells - 1
    ensures Collect(QuantilesOf(FromSamples([v]), [1.0])) == [Quantile(1.0, 0, RepAt(Cells - 1))]
    ensures RepAt(Cells - 1) <= v
  {
    SingleSampleTopCcdf(v);
    WholeShareQuantile(FromSamples([v]), RepAt(Cells - 1));
    Bracket(v);
  }

  /** A histogram whose CCDF is one element with share 1 answers its maximum from 0 up to that element's value. */
  lemma WholeShareQuantile(h: HdrHist, r: nat)
    requires h.Valid() && CcdfOf(h) == [CcdfElement(r, Ratio(1, 1), 1)]
    ensures Collect(QuantilesOf(h, [1.0])) == [Quantile(1.0, 0, r)]
  {
    var e := CcdfElement(r, Ratio(1, 1), 1);
    var c := Start(h);
    assert Elements(c) == [e];
    assert c.Next().Some?;
    var (e', rest) := c.Next().value;
    assert c.Next() == Some((e', rest));
    assert [e'] + Elements(rest) == [e];
    assert ([e'] + Elements(rest))[0] == e' && |Elements(rest)| == 0;
    assert e' == e && Elements(rest) == [];
    assert rest.Next() == None;
    var qc := QuantilesOf(h, [1.0]);
    OneAbove(1.0);
    var qc1 := qc.(ccdf := rest, prevV := 0, curF := Ratio(1, 1), curV := r);
    assert qc1.Advance(TailShare(1.0)) == qc1;
    assert qc.Advance(TailShare(1.0)) == qc1;
    assert qc.Next() == Some((Quantile(1.0, 0, r), qc1.(current := 1)));
  }

  /** The same sample, answered by `Answer`: the bracket of the top cell, which ends at `2^64` and holds the sample. */
  lemma TopSampleAnswer(v: U64)
    requires Index(CellOf(v)) == Cells - 1
    ensures Answer(FromSamples([v]), 1.0) == Quantile(1.0, RepAt(Cells - 1), U64Limit)
    ensures RepAt(Cells - 1) <= v < U64Limit
  {
    var h := FromSamples([v]);
    SingleSampleCounts(v);
    BelowAcrossEmpty(h, 0, Cells - 1);
    ScaledWithin(1.0, 1);
    AnswerIn(h, 1.0, Cells - 1);
    RepPastTop();
    Bracket(v);
  }

  /** A one-cell histogram answers every quantile with its cell's bracket. */
  lemma OneCellAnswer(h: HdrHist, i: nat, q: real)
    requires OneCell(h, i) && 0.0 < q <= 1.0
    ensures Answer(h, q) == Quantile(q, RepAt(i), RepAt(i + 1))
  {
    ScaledWithin(q, h.Total());
    AnswerIn(h, q, i);
  }

  /** The summary in which every quantile is answered with the bracket of cell `i`. */
  function SameBracket(i: nat): seq<Quantile>
  {
    seq(7, k requires 0 <= k < 7 => Quantile(SummaryQuantiles[k], RepAt(i), RepAt(i + 1)))
  }

  /** A one-cell histogram answers the `k`-th summary quantile with its cell's bracket. */
  lemma OneCellSummaryAt(h: HdrHist, i: nat, k: nat)
    requires OneCell(h, i) && k < 7
    ensures Answers(h, SummaryQuantiles)[k] == Quantile(SummaryQuantiles[k], RepAt(i), RepAt(i + 1))
  {
    SummaryAscending();
    AnswersAt(h, SummaryQuantiles, k);
    OneCellAnswer(h, i, SummaryQuantiles[k]);
  }

  /** A one-cell histogram answers every summary quantile with its cell's bracket. */
  lemma OneCellSummary(h: HdrHist, i: nat)
    requires OneCell(h, i)
    ensures Collect(Summary(h)) == SameBracket(i)
  {
    SummaryAscending();
    QuantilesAscending(h, SummaryQuantiles);
    forall k | 0 <= k < 7
      ensures Answers(h, SummaryQuantiles)[k] == Quantile(SummaryQuantiles[k], RepAt(i), RepAt(i + 1))
    {
      OneCellSummaryAt(h, i, k);
    }
  }

  /** The summary of one sample below the top cell brackets the sample's cell for every quantile. */
  lemma SingleSampleSummary(v: U64)
    requires Index(CellOf(v)) + 1 < Cells
    ensures var i := Index(CellOf(v));
      Collect(Summary(FromSamples([v]))) == SameBracket(i)
  {
    SingleSampleOneCell(v);
    OneCellSummary(FromSamples([v]), Index(CellOf(v)));
  }

  /** The summary quantiles are ascending and in `(0, 1]`. */
  lemma SummaryAscending()
    ensures Ascending(SummaryQuantiles)
  {
  }

  // ---------------------------------------------------------------------------
  // The boundary example: 2400 samples of 1, 200 of 2, 7400 of 3 and one of 5

  /** The boundary example's insertions: 2400 ones, 200 twos, 7400 threes and one five. */
  function BoundarySamples(): seq<U64>
  {
    seq(2400, _ => 1) + seq(200, _ => 2) + seq(7400, _ => 3) + [5]
  }

  /** The number of the boundary example's samples below `x`. */
  lemma BoundaryCountLess(x: nat)
    ensures CountLess(BoundarySamples(), x)
      == (if 1 < x then 2400 else 0) + (if 2 < x then 200 else 0)
       + (if 3 < x then 7400 else 0) + (if 5 < x then 1 else 0)
  {
    var ones, twos, threes := seq(2400, _ => 1), seq(200, _ => 2), seq(7400, _ => 3);
    CountLessAppend(ones + twos + threes, [5], x);
    CountLessAppend(ones + twos, threes, x);
    CountLessAppend(ones, twos, x);
    CountLessConst(2400, 1, x);
    CountLessConst(200, 2, x);
    CountLessConst(7400, 3, x);
    assert [5][..0] == [];
  }

  /** The prefix sums of the boundary example. */
  predicate BoundaryPrefixes(h: HdrHist)
  {
    && h.Valid()
    && h.Below(2) == 2400 && h.Below(3) == 2600 && h.Below(4) == 10000
    && h.Below(5) == 10000 && h.Below(6) == 10001
    && h.Total() == 10001 && h.Count(Cells - 1) == 0
  }

  /** Recording the boundary example's insertions gives its prefix sums, and leaves the top cell empty. */
  lemma BoundaryBelow()
    ensures BoundaryPrefixes(FromSamples(BoundarySamples()))
  {
    var s := BoundarySamples();
    var h := FromSamples(s);
    FromSamplesSummarises(s);
    forall c | 2 <= c <= 6
      ensures h.Below(c) == CountLess(s, c)
    {
      SmallRep(c);
      assert h.Below(c) == CountLess(s, RepAt(c));
    }
    BoundaryCountLess(2);
    BoundaryCountLess(3);
    BoundaryCountLess(4);
    BoundaryCountLess(5);
    BoundaryCountLess(6);
    SmallRep(6);
    RepAtMonotone(6, Cells - 1);
    RepAtMonotone(Cells - 1, Cells);
    BoundaryCountLess(RepAt(Cells - 1));
    BoundaryCountLess(RepAt(Cells));
    SamplesCount(s, Cells - 1);
  }

  /** The first cells' representatives are their own indices. */
  lemma SmallRep(i: nat)
    requires i < LowBits
    ensures RepAt(i) == i
  {
  }

  /** With the boundary example's prefix sums, quantile `q` whose threshold falls in cell `c < 6` is answered `[c, c + 1)`. */
  lemma BoundaryAnswer(h: HdrHist, q: real, c: nat)
    requires BoundaryPrefixes(h) && 0.0 < q <= 1.0 && c < 6
    requires (h.Below(c) as real) < q * 10001.0 <= (h.Below(c + 1) as real)
    ensures Answer(h, q) == Quantile(q, c, c + 1)
  {
    ScaledIsProduct(q, 10001);
    AnswerIn(h, q, c);
    SmallRep(c);
    SmallRep(c + 1);
  }

  /**
    Any histogram with the boundary example's prefix sums summarises as: the
    quartile between 2 and 3, the median up to the 99.9th percentile between
    3 and 4, the maximum between 5 and 6.
   */
  lemma BoundaryPrefixesSummary(h: HdrHist)
    requires BoundaryPrefixes(h)
    ensures Collect(Summary(h))
      == [Quantile(0.25, 2, 3), Quantile(0.5, 3, 4), Quantile(0.75, 3, 4), Quantile(0.95, 3, 4),
          Quantile(0.99, 3, 4), Quantile(0.999, 3, 4), Quantile(1.0, 5, 6)]
  {
    SummaryAscending();
    QuantilesAscending(h, SummaryQuantiles);
    var a := Answers(h, SummaryQuantiles);
    AnswersAt(h, SummaryQuantiles, 0);
    BoundaryAnswer(h, 0.25, 2);
    AnswersAt(h, SummaryQuantiles, 1);
    BoundaryAnswer(h, 0.5, 3);
    AnswersAt(h, SummaryQuantiles, 2);
    BoundaryAnswer(h, 0.75, 3);
    AnswersAt(h, SummaryQuantiles, 3);
    BoundaryAnswer(h, 0.95, 3);
    AnswersAt(h, SummaryQuantiles, 4);
    BoundaryAnswer(h, 0.99, 3);
    AnswersAt(h, SummaryQuantiles, 5);
    BoundaryAnswer(h, 0.999, 3);
    AnswersAt(h, SummaryQuantiles, 6);
    BoundaryAnswer(h, 1.0, 5);
  }

  /** The boundary example's summary. */
  lemma BoundarySummary()
    ensures Collect(Summary(FromSamples(BoundarySamples())))
      == [Quantile(0.25, 2, 3), Quantile(0.5, 3, 4), Quantile(0.75, 3, 4), Quantile(0.95, 3, 4),
          Quantile(0.99, 3, 4), Quantile(0.999, 3, 4), Quantile(1.0, 5, 6)]
  {
    BoundaryBelow();
    BoundaryPrefixesSummary(FromSamples(BoundarySamples()));
  }

  // ---------------------------------------------------------------------------
  // No samples

  /** With no samples the CCDF is exhausted at once and the summary ends with `(1.0, 0, 0)`. */
  lemma EmptyScenario()
    ensures CcdfOf(Empty()) == [] && Start(Empty()).Next() == None
    ensures var r := Collect(Summary(Empty())); |r| == 7 && r[6] == Quantile(1.0, 0, 0)
  {
    EmptyTotal();
    CcdfIsContiguousWalk(Empty());
    CcdfEmpty(Empty());
    SummaryEmpty(Empty());
  }
}
