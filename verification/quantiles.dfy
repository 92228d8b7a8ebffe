/**
  The quantile cursor: for each requested quantile `q` it walks the CCDF
  until the fraction of samples not yet passed drops to `1 - q`, and reports
  the last two values it read as a `[lower, upper)` bracket.
 */
module Quantiles {
  import opened Options
  import opened Layout
  import opened Histogram
  import opened Samples
  import opened Ccdf
  import opened Scaling

  datatype Quantile = Quantile(quantile: real, lowerBound: nat, upperBound: nat)

  /** `1 - q`: the share of samples a quantile `q` leaves at or above it. */
  function TailShare(q: real): real
  {
    1.0 - q
  }

  /** The quantiles reported by the summary cursor. */
  const SummaryQuantiles: seq<real> := [0.25, 0.5, 0.75, 0.95, 0.99, 0.999, 1.0]

  /**
    The cursor state: the CCDF cursor, the requested quantiles and the next
    one to answer, and the last two values and the last fraction read.
   */
  datatype QuantilesCursor = QuantilesCursor(ccdf: Cursor, quantiles: seq<real>, current: nat,
                                             prevV: nat, curF: Ratio, curV: nat)
  {
    /** The two values read so far are ordered, and no later CCDF value lies below them. */
    predicate Valid()
    {
      && ccdf.Valid()
      && prevV <= curV
      && (ccdf.lowBits < LowBits && ccdf.Position() < Cells ==> curV <= RepAt(ccdf.Position()))
    }

    /** The number of samples in the histogram. */
    function Samples(): nat
    {
      ccdf.Samples()
    }

    /** Read CCDF elements while the last fraction read is above `pf`, or until the CCDF ends. */
    function Advance(pf: real): (r: QuantilesCursor)
      requires Valid()
      ensures r.Valid() && r.quantiles == quantiles && r.current == current
      ensures r.ccdf.hist == ccdf.hist
      decreases ccdf.Remaining()
    {
      if !curF.Above(pf) then this
      else
        match ccdf.Next()
        case None => this
        case Some((e, rest)) =>
          RepAtMonotone(ccdf.Position(), ccdf.Position() + 1);
          this.(ccdf := rest, prevV := curV, curF := e.fraction, curV := e.value).Advance(pf)
    }

    /** Answer the next requested quantile, if any. */
    function Next(): (r: Option<(Quantile, QuantilesCursor)>)
      requires Valid()
      ensures r.Some? <==> current < |quantiles|
      ensures r.Some? ==> r.value.1.Valid() && r.value.1.quantiles == quantiles && r.value.1.current == current + 1
      ensures r.Some? ==> r.value.0.quantile == quantiles[current] && r.value.0.lowerBound <= r.value.0.upperBound
    {
      if current >= |quantiles| then None
      else
        var quantile := quantiles[current];
        var r := Advance(TailShare(quantile));
        Some((Quantile(quantile, r.prevV, r.curV), r.(current := current + 1)))
    }
  }

  /** Every answer the cursor still gives: one per remaining quantile, in order, each an ordered bracket. */
  function Collect(qc: QuantilesCursor): (r: seq<Quantile>)
    requires qc.Valid()
    ensures |r| == |qc.quantiles| - qc.current || (qc.current > |qc.quantiles| && r == [])
    ensures forall k :: 0 <= k < |r| ==> r[k].quantile == qc.quantiles[qc.current + k]
    ensures forall k :: 0 <= k < |r| ==> r[k].lowerBound <= r[k].upperBound
    decreases |qc.quantiles| - qc.current
  {
    match qc.Next()
    case None => []
    case Some((q, rest)) => [q] + Collect(rest)
  }

  /** The quantile cursor of a histogram over the given quantiles. */
  function QuantilesOf(h: HdrHist, quantiles: seq<real>): (qc: QuantilesCursor)
    requires h.Valid()
    ensures qc.Valid() && qc.quantiles == quantiles && qc.current == 0
  {
    QuantilesCursor(Start(h), quantiles, 0, 0, Ratio(1, 1), 0)
  }

  /** The quantile cursor of a histogram over `SummaryQuantiles`. */
  function Summary(h: HdrHist): (qc: QuantilesCursor)
    requires h.Valid()
    ensures qc.Valid() && qc.quantiles == SummaryQuantiles && qc.current == 0
  {
    QuantilesOf(h, SummaryQuantiles)
  }

  // ---------------------------------------------------------------------------
  // Empty histogram

  lemma {:induction false} CollectExhausted(qc: QuantilesCursor)
    requires qc.Valid() && qc.ccdf.Next() == None && qc.prevV == 0 && qc.curV == 0
    ensures var r := Collect(qc); forall k :: 0 <= k < |r| ==> r[k] == Quantile(qc.quantiles[qc.current + k], 0, 0)
    decreases |qc.quantiles| - qc.current
  {
    if qc.current < |qc.quantiles| {
      var rest := qc.(current := qc.current + 1);
      assert qc.Advance(TailShare(qc.quantiles[qc.current])) == qc;
      assert qc.Next() == Some((Quantile(qc.quantiles[qc.current], 0, 0), rest));
      CollectExhausted(rest);
      var r := Collect(qc);
      assert r == [Quantile(qc.quantiles[qc.current], 0, 0)] + Collect(rest);
      forall k | 0 < k < |r|
        ensures r[k] == Quantile(qc.quantiles[qc.current + k], 0, 0)
      {
        assert r[k] == Collect(rest)[k - 1];
      }
    }
  }

  /** On an empty histogram every quantile is answered with the bracket `[0, 0)`. */
  lemma QuantilesEmpty(h: HdrHist, quantiles: seq<real>)
    requires h.Valid() && h.Total() == 0
    ensures Collect(QuantilesOf(h, quantiles)) == seq(|quantiles|, k requires 0 <= k < |quantiles| => Quantile(quantiles[k], 0, 0))
  {
    CcdfEmpty(h);
    CollectExhausted(QuantilesOf(h, quantiles));
  }

  /** On an empty histogram the summary ends with `(1.0, 0, 0)`. */
  lemma SummaryEmpty(h: HdrHist)
    requires h.Valid() && h.Total() == 0
    ensures var r := Collect(Summary(h)); |r| == 7 && r[6] == Quantile(1.0, 0, 0)
  {
    QuantilesEmpty(h, SummaryQuantiles);
  }

  /**
    A first requested quantile `q <= 0` asks for a tail share of at least 1,
    which the initial fraction 1 never exceeds: it is answered `[0, 0)`
    without reading the CCDF.
   */
  lemma NonPositiveFirst(h: HdrHist, quantiles: seq<real>)
    requires h.Valid() && |quantiles| > 0 && quantiles[0] <= 0.0
    ensures QuantilesOf(h, quantiles).Next() == Some((Quantile(quantiles[0], 0, 0), QuantilesOf(h, quantiles).(current := 1)))
  {
    assert Scaled(TailShare(quantiles[0]), 1) == TailShare(quantiles[0]);
  }

  // ---------------------------------------------------------------------------
  // The cell holding a quantile

  /** The first `j` in `[i, Cells]` whose prefix reaches `t`, or `Cells` when none does. */
  function Crossing(h: HdrHist, t: real, i: nat): (r: nat)
    requires h.Valid() && i <= Cells
    ensures i <= r <= Cells
    ensures r < Cells ==> (h.Below(r) as real) >= t
    ensures i < r ==> (h.Below(r - 1) as real) < t
    decreases Cells - i
  {
    if i == Cells || (h.Below(i) as real) >= t then i else Crossing(h, t, i + 1)
  }

  /** The cell where the running count first reaches `t`. */
  function Reaching(h: HdrHist, t: real): (c: nat)
    requires h.Valid() && 0.0 < t <= h.Total() as real
    ensures c < Cells
    ensures (h.Below(c) as real) < t <= (h.Below(c + 1) as real)
  {
    var r := Crossing(h, t, 0);
    assert 0 < r by {
      assert h.Below(0) == 0;
    }
    assert t <= h.Below(r) as real by {
      assert h.Below(Cells) == h.Total();
    }
    var c := r - 1;
    assert c + 1 == r;
    c
  }

  /**
    The cell where the `q` quantile of a histogram with samples falls: fewer
    than `q * n` samples lie in the cells before it, at least `q * n` in the
    cells up to and including it.
   */
  function QuantileCell(h: HdrHist, q: real): (c: nat)
    requires h.Valid() && h.Total() > 0 && 0.0 < q <= 1.0
    ensures c < Cells
    ensures (h.Below(c) as real) < Scaled(q, h.Total()) <= (h.Below(c + 1) as real)
  {
    ScaledWithin(q, h.Total());
    Reaching(h, Scaled(q, h.Total()))
  }

  /** The bracket condition determines the quantile cell. */
  lemma QuantileCellUnique(h: HdrHist, q: real, i: nat)
    requires h.Valid() && h.Total() > 0 && 0.0 < q <= 1.0 && i < Cells
    requires (h.Below(i) as real) < Scaled(q, h.Total()) <= (h.Below(i + 1) as real)
    ensures i == QuantileCell(h, q)
  {
    BracketUnique(h, Scaled(q, h.Total()), i, QuantileCell(h, q));
  }

  /** Two cells where the running count reaches `t` are the same cell. */
  lemma BracketUnique(h: HdrHist, t: real, i: nat, j: nat)
    requires h.Valid() && i < Cells && j < Cells
    requires (h.Below(i) as real) < t <= (h.Below(i + 1) as real)
    requires (h.Below(j) as real) < t <= (h.Below(j + 1) as real)
    ensures i == j
  {
    if i < j {
      BelowMonotone(h, i + 1, j);
    } else if j < i {
      BelowMonotone(h, j + 1, i);
    }
  }

  /** A larger quantile never falls in an earlier cell. */
  lemma QuantileCellMonotone(h: HdrHist, q: real, q': real)
    requires h.Valid() && h.Total() > 0 && 0.0 < q <= q' <= 1.0
    ensures QuantileCell(h, q) <= QuantileCell(h, q')
  {
    ScaledMonotone(q, q', h.Total());
    BracketMonotone(h, Scaled(q, h.Total()), Scaled(q', h.Total()), QuantileCell(h, q), QuantileCell(h, q'));
  }

  /** A larger threshold is never reached in an earlier cell. */
  lemma BracketMonotone(h: HdrHist, t: real, t': real, i: nat, j: nat)
    requires h.Valid() && i < Cells && j < Cells && t <= t'
    requires (h.Below(i) as real) < t <= (h.Below(i + 1) as real)
    requires (h.Below(j) as real) < t' <= (h.Below(j + 1) as real)
    ensures i <= j
  {
    if j < i {
      BelowMonotone(h, j + 1, i);
    }
  }

  /** The quantile cell holds samples and lies between the first and last non-empty cells. */
  lemma QuantileCellRange(h: HdrHist, q: real)
    requires h.Valid() && h.Total() > 0 && 0.0 < q <= 1.0
    ensures First(h) <= QuantileCell(h, q) <= Last(h)
  {
    ScaledWithin(q, h.Total());
    BracketRange(h, Scaled(q, h.Total()), QuantileCell(h, q));
  }

  /** A positive threshold up to the total is reached between the first and last non-empty cells. */
  lemma BracketRange(h: HdrHist, t: real, c: nat)
    requires h.Valid() && h.Total() > 0 && c < Cells && 0.0 < t <= h.Total() as real
    requires (h.Below(c) as real) < t <= (h.Below(c + 1) as real)
    ensures First(h) <= c <= Last(h)
  {
    NonEmptyCells(h);
    BelowAcrossEmpty(h, 0, First(h));
    BelowAcrossEmpty(h, Last(h) + 1, Cells);
  }

  // ---------------------------------------------------------------------------
  // Ascending quantiles on a histogram with samples

  /**
    The cursor after reading the CCDF up to, not including, cell `p`: its CCDF
    cursor sits on `p`, and the values and fraction read are those of cells
    `p - 2` and `p - 1` (0, 0 and 1 before anything is read).
   */
  function StateAt(h: HdrHist, quantiles: seq<real>, current: nat, p: nat): (qc: QuantilesCursor)
    requires h.Valid() && h.Total() > 0 && First(h) <= p <= Cells
    ensures qc.Valid() && qc.quantiles == quantiles && qc.current == current && qc.ccdf == At(h, p)
  {
    if p == First(h) then QuantilesCursor(At(h, p), quantiles, current, 0, Ratio(1, 1), 0)
    else
      RepAtMonotone(p - 1, p);
      var prevV := if p - 1 > First(h) then RepAt(p - 2) else 0;
      assert p - 1 > First(h) ==> RepAt(p - 2) < RepAt(p - 1) by {
        if p - 1 > First(h) {
          RepAtMonotone(p - 2, p - 1);
        }
      }
      QuantilesCursor(At(h, p), quantiles, current, prevV, CellElement(h, p - 1).fraction, RepAt(p - 1))
  }

  /** Whether `1 - q` lies strictly below the share of samples in the cells from `i` on. */
  lemma AboveIff(h: HdrHist, q: real, i: nat)
    requires h.Valid() && h.Total() > 0 && i < Cells && h.Below(i) <= h.Total()
    ensures CellElement(h, i).fraction.Above(TailShare(q)) <==> (h.Below(i) as real) < Scaled(q, h.Total())
  {
    ScaledComplement(q, h.Total());
  }

  /** While its fraction is above `pf`, the cursor on a cell before `Stop(h)` reads that cell and goes on. */
  lemma AdvanceStep(h: HdrHist, quantiles: seq<real>, current: nat, p: nat, pf: real)
    requires h.Valid() && h.Total() > 0 && First(h) <= p < Stop(h)
    requires StateAt(h, quantiles, current, p).curF.Above(pf)
    ensures StateAt(h, quantiles, current, p).Advance(pf) == StateAt(h, quantiles, current, p + 1).Advance(pf)
  {
    NextAt(h, p);
  }

  /** The first fraction read is above `1 - q` for every positive `q`. */
  lemma OneAbove(q: real)
    requires 0.0 < q
    ensures Ratio(1, 1).Above(TailShare(q))
  {
    ScaledComplement(q, 1);
  }

  /** Up to the cell after `c`, the fraction read is still above the tail share of `q`. */
  lemma ReadsOn(h: HdrHist, quantiles: seq<real>, current: nat, p: nat, q: real, c: nat)
    requires h.Valid() && h.Total() > 0 && 0.0 < q && c < Cells
    requires (h.Below(c) as real) < Scaled(q, h.Total())
    requires First(h) <= p <= c + 1
    ensures StateAt(h, quantiles, current, p).curF.Above(TailShare(q))
  {
    if p > First(h) {
      BelowMonotone(h, p - 1, c);
      BelowMonotone(h, p - 1, Cells);
      AboveIff(h, q, p - 1);
    } else {
      OneAbove(q);
    }
  }

  /** Before the cell after `c`, the cursor reads the cell it is on and goes on. */
  lemma ReadsOnStep(h: HdrHist, quantiles: seq<real>, current: nat, p: nat, q: real, c: nat)
    requires h.Valid() && h.Total() > 0 && 0.0 < q
    requires First(h) <= p <= c + 1 && c + 2 <= Stop(h)
    requires (h.Below(c) as real) < Scaled(q, h.Total())
    ensures StateAt(h, quantiles, current, p).Advance(TailShare(q)) == StateAt(h, quantiles, current, p + 1).Advance(TailShare(q))
  {
    ReadsOn(h, quantiles, current, p, q, c);
    AdvanceStep(h, quantiles, current, p, TailShare(q));
  }

  /** On the cell after `c`, where the running count has reached `q * n`, the cursor stops reading. */
  lemma StopsAt(h: HdrHist, quantiles: seq<real>, current: nat, q: real, c: nat)
    requires h.Valid() && h.Total() > 0 && First(h) <= c && c + 2 <= Cells
    requires Scaled(q, h.Total()) <= (h.Below(c + 1) as real)
    ensures StateAt(h, quantiles, current, c + 2).Advance(TailShare(q)) == StateAt(h, quantiles, current, c + 2)
  {
    BelowMonotone(h, c + 1, Cells);
    AboveIff(h, q, c + 1);
    var qc := StateAt(h, quantiles, current, c + 2);
    assert qc.curF == CellElement(h, c + 1).fraction;
    Stays(qc, TailShare(q));
  }

  /** A cursor whose last fraction is not above `pf` does not move. */
  lemma Stays(qc: QuantilesCursor, pf: real)
    requires qc.Valid() && !qc.curF.Above(pf)
    ensures qc.Advance(pf) == qc
  {
  }

  /**
    From any cell up to the one after the cell `c` where the running count
    reaches `q * n`, the cursor reads on to that cell.
   */
  lemma {:induction false} AdvanceSettles(h: HdrHist, quantiles: seq<real>, current: nat, p: nat, q: real, c: nat)
    requires h.Valid() && h.Total() > 0 && 0.0 < q
    requires First(h) <= p <= c + 2 <= Stop(h)
    requires (h.Below(c) as real) < Scaled(q, h.Total())
    ensures StateAt(h, quantiles, current, p).Advance(TailShare(q)) == StateAt(h, quantiles, current, c + 2).Advance(TailShare(q))
    decreases c + 2 - p
  {
    if p < c + 2 {
      ReadsOnStep(h, quantiles, current, p, q, c);
      AdvanceSettles(h, quantiles, current, p + 1, q, c);
    }
  }

  /** The answer for quantile `q`: the bracket `[RepAt(c), RepAt(c + 1))` of its cell `c`. */
  function Answer(h: HdrHist, q: real): (a: Quantile)
    requires h.Valid() && h.Total() > 0 && 0.0 < q <= 1.0
    ensures a.quantile == q && a.lowerBound < a.upperBound
  {
    var c := QuantileCell(h, q);
    RepAtMonotone(c, c + 1);
    Quantile(q, RepAt(c), RepAt(c + 1))
  }

  /**
    Answering quantile `q` from any cell up to the one after its cell `c`
    gives the bracket of `c` and leaves the cursor on the cell after `c`.
   */
  lemma NextAnswer(h: HdrHist, quantiles: seq<real>, current: nat, p: nat, c: nat)
    requires h.Valid() && h.Total() > 0 && h.Count(Cells - 1) == 0 && current < |quantiles| && 0.0 < quantiles[current]
    requires First(h) <= c <= Last(h) && First(h) <= p <= c + 2
    requires (h.Below(c) as real) < Scaled(quantiles[current], h.Total()) <= (h.Below(c + 1) as real)
    ensures c + 2 <= Cells
    ensures StateAt(h, quantiles, current, p).Next()
      == Some((Quantile(quantiles[current], RepAt(c), RepAt(c + 1)), StateAt(h, quantiles, current + 1, c + 2)))
  {
    assert Stop(h) == Last(h) + 2;
    SettlesAt(h, quantiles, current, p, quantiles[current], c);
    NextFrom(h, quantiles, current, p, c);
  }

  /** From any cell up to the one after `c`, the cursor advances to exactly that cell. */
  lemma SettlesAt(h: HdrHist, quantiles: seq<real>, current: nat, p: nat, q: real, c: nat)
    requires h.Valid() && h.Total() > 0 && 0.0 < q
    requires First(h) <= p <= c + 2 <= Stop(h)
    requires (h.Below(c) as real) < Scaled(q, h.Total()) <= (h.Below(c + 1) as real)
    ensures StateAt(h, quantiles, current, p).Advance(TailShare(q)) == StateAt(h, quantiles, current, c + 2)
  {
    AdvanceSettles(h, quantiles, current, p, q, c);
    StopsAt(h, quantiles, current, q, c);
  }

  /** A cursor that advances to the cell after `c + 1` answers with the bracket of cell `c`. */
  lemma NextFrom(h: HdrHist, quantiles: seq<real>, current: nat, p: nat, c: nat)
    requires h.Valid() && h.Total() > 0 && current < |quantiles|
    requires First(h) <= p <= Cells && First(h) <= c && c + 2 <= Cells
    requires StateAt(h, quantiles, current, p).Advance(TailShare(quantiles[current])) == StateAt(h, quantiles, current, c + 2)
    ensures StateAt(h, quantiles, current, p).Next()
      == Some((Quantile(quantiles[current], RepAt(c), RepAt(c + 1)), StateAt(h, quantiles, current + 1, c + 2)))
  {
    StateAfter(h, quantiles, current, c);
  }

  /** On the cell after `c + 1` the cursor holds the bracket of cell `c`. */
  lemma StateAfter(h: HdrHist, quantiles: seq<real>, current: nat, c: nat)
    requires h.Valid() && h.Total() > 0 && First(h) <= c && c + 2 <= Cells
    ensures StateAt(h, quantiles, current, c + 2).prevV == RepAt(c)
    ensures StateAt(h, quantiles, current, c + 2).curV == RepAt(c + 1)
    ensures StateAt(h, quantiles, current, c + 2).(current := current + 1) == StateAt(h, quantiles, current + 1, c + 2)
  {
  }

  /** Requested quantiles all in `(0, 1]`. */
  predicate Proper(quantiles: seq<real>)
  {
    forall k :: 0 <= k < |quantiles| ==> 0.0 < quantiles[k] <= 1.0
  }

  /** Ascending requested quantiles, all in `(0, 1]`. */
  predicate Ascending(quantiles: seq<real>)
  {
    && Proper(quantiles)
    && (forall i, j :: 0 <= i < j < |quantiles| ==> quantiles[i] <= quantiles[j])
  }

  /** The answer for each quantile, in order. */
  function Answers(h: HdrHist, quantiles: seq<real>): (r: seq<Quantile>)
    requires h.Valid() && h.Total() > 0 && Proper(quantiles)
    ensures |r| == |quantiles|
  {
    if |quantiles| == 0 then [] else [Answer(h, quantiles[0])] + Answers(h, quantiles[1..])
  }

  lemma {:induction false} AnswersAt(h: HdrHist, quantiles: seq<real>, k: nat)
    requires h.Valid() && h.Total() > 0 && Proper(quantiles) && k < |quantiles|
    ensures Answers(h, quantiles)[k] == Answer(h, quantiles[k])
    decreases k
  {
    if k > 0 {
      AnswersAt(h, quantiles[1..], k - 1);
    }
  }

  lemma CollectCons(qc: QuantilesCursor, a: Quantile, rest: QuantilesCursor)
    requires qc.Valid() && qc.Next() == Some((a, rest))
    ensures Collect(qc) == [a] + Collect(rest)
  {
  }

  lemma AnswersCons(h: HdrHist, quantiles: seq<real>, current: nat)
    requires h.Valid() && h.Total() > 0 && Proper(quantiles) && current < |quantiles|
    ensures Answers(h, quantiles[current..]) == [Answer(h, quantiles[current])] + Answers(h, quantiles[current + 1..])
  {
    assert quantiles[current..][1..] == quantiles[current + 1..];
  }

  lemma {:induction false} CollectAscending(h: HdrHist, quantiles: seq<real>, current: nat, p: nat)
    requires h.Valid() && h.Total() > 0 && h.Count(Cells - 1) == 0
    requires Ascending(quantiles) && current <= |quantiles| && First(h) <= p <= Cells
    requires current < |quantiles| ==> p <= QuantileCell(h, quantiles[current]) + 2
    ensures Collect(StateAt(h, quantiles, current, p)) == Answers(h, quantiles[current..])
    decreases |quantiles| - current
  {
    if current < |quantiles| {
      var q := quantiles[current];
      var c := QuantileCell(h, q);
      QuantileCellRange(h, q);
      NextAnswer(h, quantiles, current, p, c);
      var a, rest := Answer(h, q), StateAt(h, quantiles, current + 1, c + 2);
      assert a == Quantile(q, RepAt(c), RepAt(c + 1));
      CollectCons(StateAt(h, quantiles, current, p), a, rest);
      if current + 1 < |quantiles| {
        QuantileCellMonotone(h, q, quantiles[current + 1]);
      }
      CollectAscending(h, quantiles, current + 1, c + 2);
      AnswersCons(h, quantiles, current);
    } else {
      assert quantiles[current..] == [];
    }
  }

  /**
    For ascending quantiles in `(0, 1]` on a histogram with samples whose top
    cell is empty, the cursor answers each quantile with the bracket of its
    cell.
   */
  lemma QuantilesAscending(h: HdrHist, quantiles: seq<real>)
    requires h.Valid() && h.Total() > 0 && h.Count(Cells - 1) == 0 && Ascending(quantiles)
    ensures Collect(QuantilesOf(h, quantiles)) == Answers(h, quantiles)
  {
    StartIsAt(h);
    assert QuantilesOf(h, quantiles) == StateAt(h, quantiles, 0, First(h));
    if |quantiles| > 0 {
      QuantileCellRange(h, quantiles[0]);
    }
    CollectAscending(h, quantiles, 0, First(h));
    assert quantiles[0..] == quantiles;
  }

  // ---------------------------------------------------------------------------
  // Against the raw samples

  lemma {:induction false} CountLessAll(s: seq<U64>, x: nat)
    requires forall k :: 0 <= k < |s| ==> s[k] < x
    ensures CountLess(s, x) == |s|
    decreases |s|
  {
    if |s| > 0 {
      CountLessAll(s[..|s| - 1], x);
    }
  }

  lemma {:induction false} CountLessZero(s: seq<U64>)
    ensures CountLess(s, 0) == 0
    decreases |s|
  {
    if |s| > 0 {
      CountLessZero(s[..|s| - 1]);
    }
  }

  /** Every quantile in `(0, 1]` of a non-empty sample set is attained by some value. */
  lemma QuantileExists(s: seq<U64>, q: real) returns (x: nat)
    requires |s| > 0 && 0.0 < q <= 1.0
    ensures IsQuantile(s, q, x)
  {
    CountLessAll(s, U64Limit);
    CountLessZero(s);
    ScaledWithin(q, |s|);
    x := CrossingPoint(s, Scaled(q, |s|), 0, U64Limit);
  }

  /** The quantile cell's bracket contains the sample value at that quantile. */
  lemma QuantileCellContains(s: seq<U64>, h: HdrHist, q: real, x: nat)
    requires Summarises(h, s) && |s| > 0 && 0.0 < q <= 1.0 && IsQuantile(s, q, x)
    ensures RepAt(QuantileCell(h, q)) <= x < RepAt(QuantileCell(h, q) + 1)
  {
    var c, t := QuantileCell(h, q), Scaled(q, |s|);
    assert (h.Below(c) as real) < t <= (h.Below(c + 1) as real);
    assert h.Below(c) == CountLess(s, RepAt(c)) && h.Below(c + 1) == CountLess(s, RepAt(c + 1));
    CellContains(s, h, c, t, x);
  }

  /** A cell whose prefix sums straddle `t` holds the value where the sample count crosses `t`. */
  lemma CellContains(s: seq<U64>, h: HdrHist, c: nat, t: real, x: nat)
    requires h.Valid() && c < Cells && h.Below(c) == CountLess(s, RepAt(c)) && h.Below(c + 1) == CountLess(s, RepAt(c + 1))
    requires (h.Below(c) as real) < t <= (h.Below(c + 1) as real)
    requires (CountLess(s, x) as real) < t <= (CountLess(s, x + 1) as real)
    ensures RepAt(c) <= x < RepAt(c + 1)
  {
    CrossingBetween(s, t, RepAt(c), RepAt(c + 1), x);
  }

  /** A value where the count below crosses `t` lies between any two values whose counts straddle `t`. */
  lemma CrossingBetween(s: seq<U64>, t: real, lo: nat, hi: nat, x: nat)
    requires (CountLess(s, lo) as real) < t <= (CountLess(s, hi) as real)
    requires (CountLess(s, x) as real) < t <= (CountLess(s, x + 1) as real)
    ensures lo <= x < hi
  {
    if x < lo {
      CountLessMonotone(s, x + 1, lo);
    }
    if hi <= x {
      CountLessMonotone(s, hi, x);
    }
  }

  /**
    For a histogram that counts samples all below the top cell, each answer of
    the quantile cursor for ascending quantiles in `(0, 1]` brackets the
    sample value at that quantile: `lower <= x < upper`.
   */
  lemma QuantilesBracket(s: seq<U64>, h: HdrHist, quantiles: seq<real>, k: nat, x: nat)
    requires Summarises(h, s) && |s| > 0 && forall i :: 0 <= i < |s| ==> s[i] < RepAt(Cells - 1)
    requires Ascending(quantiles) && k < |quantiles| && IsQuantile(s, quantiles[k], x)
    ensures var r := Collect(QuantilesOf(h, quantiles));
      k < |r| && r[k].quantile == quantiles[k] && r[k].lowerBound <= x < r[k].upperBound
  {
    TopCellEmpty(s, h);
    QuantilesAscending(h, quantiles);
    AnswersAt(h, quantiles, k);
    QuantileCellContains(s, h, quantiles[k], x);
  }

  /** When every sample lies below the top cell's representative, the top cell of a histogram counting them is empty. */
  lemma TopCellEmpty(s: seq<U64>, h: HdrHist)
    requires Summarises(h, s) && forall i :: 0 <= i < |s| ==> s[i] < RepAt(Cells - 1)
    ensures h.Count(Cells - 1) == 0
  {
    CountLessAll(s, RepAt(Cells - 1));
    assert h.Below(Cells - 1) == |s|;
  }

  /** The bracketing property for the histogram built from the samples themselves. */
  lemma QuantilesBracketSamples(s: seq<U64>, quantiles: seq<real>, k: nat, x: nat)
    requires |s| > 0 && forall i :: 0 <= i < |s| ==> s[i] < RepAt(Cells - 1)
    requires Ascending(quantiles) && k < |quantiles| && IsQuantile(s, quantiles[k], x)
    ensures var r := Collect(QuantilesOf(FromSamples(s), quantiles));
      k < |r| && r[k].quantile == quantiles[k] && r[k].lowerBound <= x < r[k].upperBound
  {
    FromSamplesSummarises(s);
    QuantilesBracket(s, FromSamples(s), quantiles, k, x);
  }

  /**
    The answer for quantile `q` of the histogram built from any samples
    brackets the sample value at that quantile, samples in the top cell
    included: `lower <= x < upper`.
   */
  lemma AnswerBrackets(s: seq<U64>, q: real, x: nat)
    requires |s| > 0 && 0.0 < q <= 1.0 && IsQuantile(s, q, x)
    ensures var a := Answer(FromSamples(s), q); a.quantile == q && a.lowerBound <= x < a.upperBound
  {
    FromSamplesSummarises(s);
    AnswerContains(s, FromSamples(s), q, x);
  }

  /** The answer for quantile `q` of a histogram counting `s` brackets the sample value at that quantile. */
  lemma AnswerContains(s: seq<U64>, h: HdrHist, q: real, x: nat)
    requires Summarises(h, s) && |s| > 0 && 0.0 < q <= 1.0 && IsQuantile(s, q, x)
    ensures Answer(h, q).quantile == q && Answer(h, q).lowerBound <= x < Answer(h, q).upperBound
  {
    QuantileCellContains(s, h, q, x);
  }
}
