/**
  The histogram value: a fixed `Buckets x LowBits` grid of counters, the
  insertion of one sample and the element-wise combination of two grids.
  Counters are unbounded naturals.
 */
module Histogram {
  import opened Layout

  datatype HdrHist = HdrHist(counts: seq<seq<nat>>) {

    /** The grid has the fixed shape of the layout. */
    predicate Valid()
    {
      |counts| == Buckets && forall b :: 0 <= b < |counts| ==> |counts[b]| == LowBits
    }

    /** The counter of cell `i` in linear order. */
    function Count(i: nat): nat
      requires Valid() && i < Cells
    {
      counts[i / LowBits][i % LowBits]
    }

    /** Number of samples in the cells before cell `i` in linear order. */
    function Below(i: nat): nat
      requires Valid() && i <= Cells
    {
      if i == 0 then 0 else Below(i - 1) + Count(i - 1)
    }

    /** Number of samples in the histogram. */
    function Total(): nat
      requires Valid()
    {
      Below(Cells)
    }

    /** Record sample `v`: exactly the counter of `CellOf(v)` grows by one. */
    function AddValue(v: U64): (r: HdrHist)
      requires Valid()
      ensures r.Valid()
      ensures forall i :: 0 <= i < Cells ==> r.Count(i) == Count(i) + (if i == Index(CellOf(v)) then 1 else 0)
    {
      var c := CellOf(v);
      var r := HdrHist(counts[c.bucket := counts[c.bucket][c.lowBits := counts[c.bucket][c.lowBits] + 1]]);
      assert forall i :: 0 <= i < Cells ==> (i == Index(c) <==> CellAt(i) == c);
      r
    }

    /** Add the counters of `other` cell by cell, without normalising. */
    function Combined(other: HdrHist): (r: HdrHist)
      requires Valid() && other.Valid()
      ensures r.Valid()
      ensures forall i :: 0 <= i < Cells ==> r.Count(i) == Count(i) + other.Count(i)
    {
      HdrHist(seq(Buckets, b requires 0 <= b < Buckets =>
        seq(LowBits, l requires 0 <= l < LowBits => counts[b][l] + other.counts[b][l])))
    }
  }

  /** The histogram with no samples. */
  function Empty(): (h: HdrHist)
    ensures h.Valid()
    ensures forall i :: 0 <= i < Cells ==> h.Count(i) == 0
  {
    HdrHist(seq(Buckets, _ => seq(LowBits, _ => 0)))
  }

  // ---------------------------------------------------------------------------
  // Prefix sums

  lemma {:induction false} BelowMonotone(h: HdrHist, i: nat, j: nat)
    requires h.Valid() && i <= j <= Cells
    ensures h.Below(i) <= h.Below(j)
    decreases j - i
  {
    if i < j {
      BelowMonotone(h, i, j - 1);
    }
  }

  /** A non-empty cell before `i` contributes to `Below(i)`. */
  lemma BelowCoversCell(h: HdrHist, j: nat, i: nat)
    requires h.Valid() && j < i <= Cells
    ensures h.Below(j) + h.Count(j) <= h.Below(i)
  {
    BelowMonotone(h, j + 1, i);
  }

  /** Empty cells in `[i, j)` add nothing to the prefix sum. */
  lemma {:induction false} BelowAcrossEmpty(h: HdrHist, i: nat, j: nat)
    requires h.Valid() && i <= j <= Cells
    requires forall k :: i <= k < j ==> h.Count(k) == 0
    ensures h.Below(j) == h.Below(i)
    decreases j - i
  {
    if i < j {
      BelowAcrossEmpty(h, i, j - 1);
    }
  }

  /** A histogram has samples exactly when some counter is positive. */
  lemma TotalPositiveIff(h: HdrHist)
    requires h.Valid()
    ensures h.Total() > 0 <==> exists i :: 0 <= i < Cells && h.Count(i) > 0
  {
    if exists i :: 0 <= i < Cells && h.Count(i) > 0 {
      var i :| 0 <= i < Cells && h.Count(i) > 0;
      BelowCoversCell(h, i, Cells);
    } else {
      BelowAcrossEmpty(h, 0, Cells);
    }
  }

  lemma EmptyTotal()
    ensures Empty().Total() == 0
  {
    BelowAcrossEmpty(Empty(), 0, Cells);
  }

  // ---------------------------------------------------------------------------
  // Insertion

  /** Inserting `v` adds one to every prefix that covers `v`'s cell. */
  lemma {:induction false} AddValueBelow(h: HdrHist, v: U64, i: nat)
    requires h.Valid() && i <= Cells
    ensures h.AddValue(v).Below(i) == h.Below(i) + (if Index(CellOf(v)) < i then 1 else 0)
    decreases i
  {
    if i > 0 {
      AddValueBelow(h, v, i - 1);
    }
  }

  /** Every insertion grows the total by exactly one. */
  lemma AddValueTotal(h: HdrHist, v: U64)
    requires h.Valid()
    ensures h.AddValue(v).Total() == h.Total() + 1
  {
    AddValueBelow(h, v, Cells);
  }

  // ---------------------------------------------------------------------------
  // Combination

  lemma {:induction false} CombinedBelow(h: HdrHist, o: HdrHist, i: nat)
    requires h.Valid() && o.Valid() && i <= Cells
    ensures h.Combined(o).Below(i) == h.Below(i) + o.Below(i)
    decreases i
  {
    if i > 0 {
      CombinedBelow(h, o, i - 1);
    }
  }

  /** Combination adds the totals. */
  lemma CombinedTotal(h: HdrHist, o: HdrHist)
    requires h.Valid() && o.Valid()
    ensures h.Combined(o).Total() == h.Total() + o.Total()
  {
    CombinedBelow(h, o, Cells);
  }

  /** Combining a histogram with itself doubles every counter and every prefix sum. */
  lemma SelfCombinedDoubles(h: HdrHist)
    requires h.Valid()
    ensures forall i :: 0 <= i < Cells ==> h.Combined(h).Count(i) == 2 * h.Count(i)
    ensures forall i :: 0 <= i <= Cells ==> h.Combined(h).Below(i) == 2 * h.Below(i)
  {
    forall i | 0 <= i <= Cells
      ensures h.Combined(h).Below(i) == 2 * h.Below(i)
    {
      CombinedBelow(h, h, i);
    }
  }
}
