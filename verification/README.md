# hdrhist in Dafny

A model of `hdrhist`, a small fixed-layout HDR histogram for unsigned 64-bit
samples with five significant bits of precision, and proofs about it.

- **Layout** (`layout.dfy`). A sample goes to a `(bucket, low bits)` cell. The bucket is the bit length minus 4, or 0 for values below 16. The low bits are the four bits just below the leading one, or the sample itself below 16. The inverse maps a cell to its representative, which is the smallest value the cell holds.
- **Histogram** (`histogram.dfy`). A fixed 61 x 16 grid of counters, with `add_value` and `combined`.
- **CCDF cursor** (`ccdf.dfy`).
  - One scan of the grid finds the first non-empty cell, the total and the stop marker. The marker is the last non-empty cell advanced by two low-bits positions, wrapping into the next bucket.
  - `next` then walks the cells contiguously, emitting `(value, fraction, count)`.
- **Bound cursors** (`bound.dfy`). They keep one element of look-ahead and pair neighbouring CCDF elements into the upper or lower envelope.
- **Quantile cursor** (`quantiles.dfy`).
  - For each requested quantile `q` it reads the CCDF while the last fraction exceeds `1 - q`.
  - It then answers with the last two values read, as a `[lower, upper)` bracket.
  - `summary` uses the fixed list 0.25, 0.5, 0.75, 0.95, 0.99, 0.999, 1.0.
- **Samples** (`samples.dfy`). Raw sample sequences, used only to state what the counters and the derived statistics mean.
- **Scenarios** (`scenarios.dfy`). The library's own example histograms, with their output worked out exactly.

Cursors are immutable records with a pure `Next`. The C++ cursors hold a pointer to the histogram; here each cursor holds a snapshot of the counter grid. Cells are also numbered linearly, `bucket * 16 + lowBits`, which is the order in which the cursors walk the grid.

The central results:
- **`Ccdf.CcdfIsContiguousWalk`**: the cursor emits exactly the cells from the first non-empty one up to two past the last non-empty one, capped at the end of the grid.
- **`Quantiles.QuantilesAscending`**: for ascending quantiles in (0, 1], on a histogram whose top cell is empty, the quantile cursor answers each `q` with the bracket of the cell where the running count first reaches `q * n`.
- **`Quantiles.QuantilesBracket`**: under the same conditions, that bracket contains the sample value at quantile `q`.

Quantiles and fractions are exact. A CCDF fraction is the ratio `(total - cumulative) / total`, and a requested quantile is a `real`. The products `q * n` are written as repeated addition (`Scaling.Scaled`), which keeps the proofs linear.

## Model

All source paths are relative to `docker-ssd/src/veribetrkv-dynamic-frames/vendor/hdrhist/`; in the table that prefix is written out.

| member | source | states |
|---|---|---|
| Layout.CellOf | docker-ssd/src/veribetrkv-dynamic-frames/vendor/hdrhist/hdrhist.hpp:47-55 | every sample selects a cell with bucket below 61 and low bits below 16; sample 0 selects cell (0, 0) |
| Layout.CellOfSmall | docker-ssd/src/veribetrkv-dynamic-frames/vendor/hdrhist/hdrhist.hpp:52-53 | a sample below 16 goes to bucket 0 with the sample itself as low bits |
| Layout.CellOfLarge | docker-ssd/src/veribetrkv-dynamic-frames/vendor/hdrhist/hdrhist.hpp:51-53 | a sample of bit length m > 4 goes to bucket m - 4, and its low bits are `(v >> (m - 5)) - 16`, with the shifted value in [16, 32) |
| Layout.Bracket | docker-ssd/src/veribetrkv-dynamic-frames/vendor/hdrhist/hdrhist.hpp:51-53 | every sample lies at or above its cell's representative and below the next cell's representative |
| Layout.CellOfIff | docker-ssd/src/veribetrkv-dynamic-frames/vendor/hdrhist/hdrhist.hpp:51-53 | a sample lands in cell i if and only if it lies in [RepAt(i), RepAt(i + 1)) |
| Layout.IndexBelowIff | docker-ssd/src/veribetrkv-dynamic-frames/vendor/hdrhist/hdrhist.hpp:51-53 | a sample's cell comes before cell i if and only if the sample is below i's representative |
| Layout.CellOfMonotone | docker-ssd/src/veribetrkv-dynamic-frames/vendor/hdrhist/hdrhist.hpp:51-53 | a larger sample never selects an earlier cell |
| Layout.ExactBelow32 | docker-ssd/src/veribetrkv-dynamic-frames/vendor/hdrhist/hdrhist.hpp:51-53 | samples below 32 are stored exactly: their cell's representative is the sample |
| Layout.RepFitsU64 | docker-ssd/src/veribetrkv-dynamic-frames/vendor/hdrhist/hdrhist.hpp:149-154 | every grid cell's representative fits in `unsigned long` |
| Layout.RepAtMonotone | docker-ssd/src/veribetrkv-dynamic-frames/vendor/hdrhist/hdrhist.hpp:149-154 | representatives strictly increase along the linear cell order |
| Layout.CellOfRep | docker-ssd/src/veribetrkv-dynamic-frames/vendor/hdrhist/hdrhist.hpp:149-154 | round trip: inserting a cell's representative selects that same cell |
| Layout.RepAsWrittenAgrees | docker-ssd/src/veribetrkv-dynamic-frames/vendor/hdrhist/hdrhist.hpp:150-151 | below bucket 28, the formula with the `int` shift equals the intended representative |
| Layout.RepAsWrittenDiverges | docker-ssd/src/veribetrkv-dynamic-frames/vendor/hdrhist/hdrhist.hpp:150-151 | sample 2^31 lands in cell (28, 0), whose intended representative is 2^31, but the formula as written yields 2^64 - 2^31 there |
| Layout.RepAsWrittenAt28 | docker-ssd/src/veribetrkv-dynamic-frames/vendor/hdrhist/hdrhist.hpp:150-151 | in bucket 28 the `int` shift gives `INT_MIN`, which widens to 2^64 - 2^31, so every representative there is 2^64 - 2^32 too large |
| Layout.RepAsWrittenUndefined | docker-ssd/src/veribetrkv-dynamic-frames/vendor/hdrhist/hdrhist.hpp:150 | from bucket 29 on the `int` shift is by 32 or more and has no defined value |
| Layout.RepPastTop | docker-ssd/src/veribetrkv-dynamic-frames/vendor/hdrhist/hdrhist.hpp:10-13 | the cell after the top cell has representative 2^64, one past the largest 64-bit sample |
| Histogram.Empty | docker-ssd/src/veribetrkv-dynamic-frames/vendor/hdrhist/hdrhist.hpp:34 | a new histogram has every counter 0 |
| Histogram.EmptyTotal | docker-ssd/src/veribetrkv-dynamic-frames/vendor/hdrhist/hdrhist.hpp:34 | a new histogram holds no samples |
| Histogram.HdrHist.AddValue | docker-ssd/src/veribetrkv-dynamic-frames/vendor/hdrhist/hdrhist.hpp:47-55 | exactly the counter of the sample's cell grows by one; every other counter is unchanged |
| Histogram.AddValueBelow | docker-ssd/src/veribetrkv-dynamic-frames/vendor/hdrhist/hdrhist.hpp:47-55 | insertion adds one to exactly those prefix sums that cover the sample's cell |
| Histogram.AddValueTotal | docker-ssd/src/veribetrkv-dynamic-frames/vendor/hdrhist/hdrhist.hpp:49-54 | each insertion grows the number of samples by exactly one |
| Histogram.HdrHist.Combined | docker-ssd/src/veribetrkv-dynamic-frames/vendor/hdrhist/hdrhist.hpp:61-67 | each combined counter is the sum of the two counters in that cell |
| Histogram.CombinedBelow | docker-ssd/src/veribetrkv-dynamic-frames/vendor/hdrhist/hdrhist.hpp:61-67 | every prefix sum of the combination is the sum of the two prefix sums |
| Histogram.CombinedTotal | docker-ssd/src/veribetrkv-dynamic-frames/vendor/hdrhist/hdrhist.hpp:61-67 | combination adds the sample counts |
| Histogram.SelfCombinedDoubles | docker-ssd/src/veribetrkv-dynamic-frames/vendor/hdrhist/hdrhist.hpp:59-67 | combining a histogram with itself doubles every counter and every prefix sum |
| Histogram.TotalPositiveIff | docker-ssd/src/veribetrkv-dynamic-frames/vendor/hdrhist/hdrhist.hpp:114-136 | a histogram has samples if and only if some counter is positive, which is what the scan's `init` flag records |
| Samples.FromSamples | docker-ssd/src/veribetrkv-dynamic-frames/vendor/hdrhist/hdrhist.hpp:47-55 | adding the samples of a sequence to a new histogram gives a valid grid holding exactly as many samples as the sequence |
| Samples.SamplesBelow | docker-ssd/src/veribetrkv-dynamic-frames/vendor/hdrhist/hdrhist.hpp:47-55 | every prefix sum counts the samples below the representative of the cell where it stops |
| Samples.SamplesCount | docker-ssd/src/veribetrkv-dynamic-frames/vendor/hdrhist/hdrhist.hpp:47-55 | each counter holds the number of samples in its cell's value range |
| Samples.FromSamplesSummarises | docker-ssd/src/veribetrkv-dynamic-frames/vendor/hdrhist/hdrhist.hpp:47-55 | the histogram of a sample sequence summarises it: total and every prefix sum match the samples |
| Ccdf.FirstFrom | docker-ssd/src/veribetrkv-dynamic-frames/vendor/hdrhist/hdrhist.hpp:114-119 | the first non-empty cell from a position on, or none, with every cell skipped empty |
| Ccdf.LastBefore | docker-ssd/src/veribetrkv-dynamic-frames/vendor/hdrhist/hdrhist.hpp:120-121 | the last non-empty cell before a position, or none, with every later cell empty |
| Ccdf.Marker | docker-ssd/src/veribetrkv-dynamic-frames/vendor/hdrhist/hdrhist.hpp:127-131 | the stop marker's coordinates denote, in linear order, the last non-empty cell plus two, with low bits below 16 |
| Ccdf.Start | docker-ssd/src/veribetrkv-dynamic-frames/vendor/hdrhist/hdrhist.hpp:110-137 | the constructed cursor is well formed: either exhausted, or on a cell having passed exactly the samples before it |
| Ccdf.ScanStep | docker-ssd/src/veribetrkv-dynamic-frames/vendor/hdrhist/hdrhist.hpp:114-123 | visiting one cell extends the scan's knowledge of total, first and last non-empty cell by that cell |
| Ccdf.ScanBucket | docker-ssd/src/veribetrkv-dynamic-frames/vendor/hdrhist/hdrhist.hpp:113-124 | the inner loop over one bucket carries the scan's knowledge across the bucket |
| Ccdf.ScanComplete | docker-ssd/src/veribetrkv-dynamic-frames/vendor/hdrhist/hdrhist.hpp:110-125 | after the whole grid the scan holds the total and the coordinates of the first and last non-empty cells |
| Ccdf.ScanFinish | docker-ssd/src/veribetrkv-dynamic-frames/vendor/hdrhist/hdrhist.hpp:126-136 | the marker advance with wrap-around, or placing the cursor past the grid when there are no samples, yields the cursor `Start` describes |
| Ccdf.Scan | docker-ssd/src/veribetrkv-dynamic-frames/vendor/hdrhist/hdrhist.hpp:110-137 | the constructor's nested loop computes the cursor `Start` describes from first and last non-empty cells |
| Ccdf.CcdfSamples | docker-ssd/src/veribetrkv-dynamic-frames/vendor/hdrhist/hdrhist.hpp:139-141 | the cursor reports the histogram's number of samples |
| Ccdf.CcdfEmpty | docker-ssd/src/veribetrkv-dynamic-frames/vendor/hdrhist/hdrhist.hpp:132-136 | on an empty histogram the cursor is exhausted at once and reports 0 samples |
| Ccdf.Cursor.Next | docker-ssd/src/veribetrkv-dynamic-frames/vendor/hdrhist/hdrhist.hpp:143-168 | a step emits the current cell's representative and moves to the next cell in linear order, keeping the cursor well formed |
| Ccdf.First | docker-ssd/src/veribetrkv-dynamic-frames/vendor/hdrhist/hdrhist.hpp:114-119 | a histogram with samples has a first non-empty cell |
| Ccdf.Last | docker-ssd/src/veribetrkv-dynamic-frames/vendor/hdrhist/hdrhist.hpp:120-121 | a histogram with samples has a last non-empty cell, at or after the first |
| Ccdf.Stop | docker-ssd/src/veribetrkv-dynamic-frames/vendor/hdrhist/hdrhist.hpp:144-146 | the walk ends after the first cell and no later than the end of the grid |
| Ccdf.At | docker-ssd/src/veribetrkv-dynamic-frames/vendor/hdrhist/hdrhist.hpp:157-162 | the cursor on any cell is well formed |
| Ccdf.StartIsAt | docker-ssd/src/veribetrkv-dynamic-frames/vendor/hdrhist/hdrhist.hpp:110-137 | the constructed cursor of a histogram with samples sits on its first non-empty cell having passed nothing |
| Ccdf.NextAt | docker-ssd/src/veribetrkv-dynamic-frames/vendor/hdrhist/hdrhist.hpp:143-168 | the marker and bucket guards stop the walk exactly at `Stop`; before that each step emits the cell's element |
| Ccdf.ReferenceCons | docker-ssd/src/veribetrkv-dynamic-frames/vendor/hdrhist/hdrhist.hpp:158-162 | the cells of a range are its first cell followed by the rest |
| Ccdf.ElementsStep | docker-ssd/src/veribetrkv-dynamic-frames/vendor/hdrhist/hdrhist.hpp:143-168 | before the stop the cursor emits the current cell followed by what the next cursor emits |
| Ccdf.ElementsAt | docker-ssd/src/veribetrkv-dynamic-frames/vendor/hdrhist/hdrhist.hpp:143-168 | from any cell the cursor emits exactly the cells up to `Stop` |
| Ccdf.CcdfIsContiguousWalk | docker-ssd/src/veribetrkv-dynamic-frames/vendor/hdrhist/hdrhist.hpp:110-168 | the CCDF is empty for an empty histogram; otherwise it is the contiguous run from the first non-empty cell through one cell past the last, or through the top cell when that is the last |
| Ccdf.SumReference | docker-ssd/src/veribetrkv-dynamic-frames/vendor/hdrhist/hdrhist.hpp:156-157 | the counts emitted over a range add up to the difference of its prefix sums |
| Ccdf.ReferenceShape | docker-ssd/src/veribetrkv-dynamic-frames/vendor/hdrhist/hdrhist.hpp:149-157 | over any range, values strictly increase, every denominator is the total and numerators never increase |
| Ccdf.CcdfValuesIncrease | docker-ssd/src/veribetrkv-dynamic-frames/vendor/hdrhist/hdrhist.hpp:149-154 | emitted values strictly increase |
| Ccdf.CcdfFractionsNonIncreasing | docker-ssd/src/veribetrkv-dynamic-frames/vendor/hdrhist/hdrhist.hpp:155-157 | every fraction has the total as denominator and numerators never increase |
| Ccdf.CcdfStartsAtOne | docker-ssd/src/veribetrkv-dynamic-frames/vendor/hdrhist/hdrhist.hpp:155 | with samples, the first element has fraction 1 and a positive count |
| Ccdf.WalkCoversSamples | docker-ssd/src/veribetrkv-dynamic-frames/vendor/hdrhist/hdrhist.hpp:110-137 | no sample lies before the first emitted cell, and every sample lies before the stop |
| Ccdf.CcdfCountsSum | docker-ssd/src/veribetrkv-dynamic-frames/vendor/hdrhist/hdrhist.hpp:156-157 | emitted counts add up to the number of samples |
| Ccdf.LastElementFraction | docker-ssd/src/veribetrkv-dynamic-frames/vendor/hdrhist/hdrhist.hpp:144-146 | the cell before the stop has fraction 0 if and only if the top cell of the grid is empty |
| Ccdf.CcdfEndsAtZero | docker-ssd/src/veribetrkv-dynamic-frames/vendor/hdrhist/hdrhist.hpp:144-146 | the last emitted fraction is 0 if and only if the top cell is empty |
| Ccdf.CellElementSamples | docker-ssd/src/veribetrkv-dynamic-frames/vendor/hdrhist/hdrhist.hpp:71-73 | a cell's element reports the share of samples at or above its value, and the samples in its range |
| Ccdf.ReferenceMatchesSamples | docker-ssd/src/veribetrkv-dynamic-frames/vendor/hdrhist/hdrhist.hpp:71-73 | over any range, each fraction is the share of samples at or above the value, and each count is the samples up to the next value |
| Ccdf.CcdfMatchesSamples | docker-ssd/src/veribetrkv-dynamic-frames/vendor/hdrhist/hdrhist.hpp:71-73 | each fraction is the share of samples at or above its value; each count is the samples from its value up to the next element's value |
| Ccdf.SelfCombinedCell | docker-ssd/src/veribetrkv-dynamic-frames/vendor/hdrhist/hdrhist.hpp:59-67 | after combining a histogram with itself, each cell's element keeps its value and has its count and both fraction terms doubled |
| Ccdf.SelfCombinedBounds | docker-ssd/src/veribetrkv-dynamic-frames/vendor/hdrhist/hdrhist.hpp:59-67 | combining a histogram with samples with itself keeps the CCDF walk's first cell and stop cell |
| Ccdf.SelfCombinedCcdf | docker-ssd/src/veribetrkv-dynamic-frames/vendor/hdrhist/hdrhist.hpp:59-67 | the CCDF of a histogram combined with itself has the same length and values, doubled counts, and fractions equal as ratios to the original ones |
| CcdfBound.Paired | docker-ssd/src/veribetrkv-dynamic-frames/vendor/hdrhist/hdrhist.hpp:183-205 | one element per pair of neighbours, each the pair's bound element |
| CcdfBound.BoundCursor.Next | docker-ssd/src/veribetrkv-dynamic-frames/vendor/hdrhist/hdrhist.hpp:183-205 | an element is emitted only with an element read ahead; once the CCDF ends the cursor stays exhausted |
| CcdfBound.New | docker-ssd/src/veribetrkv-dynamic-frames/vendor/hdrhist/hdrhist.hpp:179-181 | the look-ahead is empty exactly when the CCDF is empty |
| CcdfBound.UpperBound | docker-ssd/src/veribetrkv-dynamic-frames/vendor/hdrhist/hdrhist.hpp:267-269 | the upper-bound factory gives a well-formed bound cursor in upper mode; what it emits is `UpperBoundElements` |
| CcdfBound.LowerBound | docker-ssd/src/veribetrkv-dynamic-frames/vendor/hdrhist/hdrhist.hpp:271-273 | the lower-bound factory gives a well-formed bound cursor in lower mode; what it emits is `LowerBoundElements` |
| CcdfBound.PairedCons | docker-ssd/src/veribetrkv-dynamic-frames/vendor/hdrhist/hdrhist.hpp:187-204 | pairing an element in front pairs it with the first of the rest |
| CcdfBound.BoundElementsPaired | docker-ssd/src/veribetrkv-dynamic-frames/vendor/hdrhist/hdrhist.hpp:183-205 | with one element read ahead, the cursor emits the pairs of that element followed by the rest of the CCDF |
| CcdfBound.BoundIsPairing | docker-ssd/src/veribetrkv-dynamic-frames/vendor/hdrhist/hdrhist.hpp:179-205 | a bound cursor emits exactly the bound elements of the neighbouring pairs of the CCDF it wraps |
| CcdfBound.UpperBoundElements | docker-ssd/src/veribetrkv-dynamic-frames/vendor/hdrhist/hdrhist.hpp:192-197 | the upper bound has one element fewer than the CCDF (none if empty), each with the next value and the current fraction and count |
| CcdfBound.LowerBoundElements | docker-ssd/src/veribetrkv-dynamic-frames/vendor/hdrhist/hdrhist.hpp:198-204 | the lower bound has one element fewer than the CCDF (none if empty), each with the current value and the next fraction and count |
| CcdfBound.UpperBoundDominates | docker-ssd/src/veribetrkv-dynamic-frames/vendor/hdrhist/hdrhist.hpp:84-89 | each upper-bound element's fraction is at least the true share of samples at or above its value |
| CcdfBound.LowerBoundIsDominated | docker-ssd/src/veribetrkv-dynamic-frames/vendor/hdrhist/hdrhist.hpp:91-96 | each lower-bound element's fraction is at most the true share of samples at or above its value |
| CcdfBound.UpperBoundInterpolated | docker-ssd/src/veribetrkv-dynamic-frames/vendor/hdrhist/hdrhist.hpp:84-89 | between two consecutive upper-bound points the fractions do not increase, and the true share of samples at or above any value in between is at most the later point's fraction, so the linearly interpolated curve never falls below the truth |
| CcdfBound.LowerBoundInterpolated | docker-ssd/src/veribetrkv-dynamic-frames/vendor/hdrhist/hdrhist.hpp:91-96 | between two consecutive lower-bound points the fractions do not increase, and the true share of samples at or above any value in between is at least the earlier point's fraction, so the linearly interpolated curve never rises above the truth |
| Quantiles.QuantilesCursor.Advance | docker-ssd/src/veribetrkv-dynamic-frames/vendor/hdrhist/hdrhist.hpp:234-242 | the inner loop keeps the cursor well formed: the two values read stay ordered and below what the CCDF still emits |
| Quantiles.QuantilesCursor.Next | docker-ssd/src/veribetrkv-dynamic-frames/vendor/hdrhist/hdrhist.hpp:227-251 | there is an answer exactly while requested quantiles remain; it carries the requested quantile and an ordered bracket, and moves to the next quantile |
| Quantiles.Collect | docker-ssd/src/veribetrkv-dynamic-frames/vendor/hdrhist/hdrhist.hpp:227-251 | one answer per remaining requested quantile, in order, each with lower bound at most upper bound |
| Quantiles.QuantilesOf | docker-ssd/src/veribetrkv-dynamic-frames/vendor/hdrhist/hdrhist.hpp:258-260 | the factory starts at the first requested quantile |
| Quantiles.Summary | docker-ssd/src/veribetrkv-dynamic-frames/vendor/hdrhist/hdrhist.hpp:262-265 | the summary asks for 0.25, 0.5, 0.75, 0.95, 0.99, 0.999 and 1.0 |
| Quantiles.CollectExhausted | docker-ssd/src/veribetrkv-dynamic-frames/vendor/hdrhist/hdrhist.hpp:234-242 | once the CCDF is exhausted before anything was read, every remaining quantile is answered [0, 0) |
| Quantiles.QuantilesEmpty | docker-ssd/src/veribetrkv-dynamic-frames/vendor/hdrhist/hdrhist.hpp:227-251 | on an empty histogram every requested quantile is answered (q, 0, 0) |
| Quantiles.SummaryEmpty | docker-ssd/src/veribetrkv-dynamic-frames/vendor/hdrhist/hdrhist.hpp:318 | on an empty histogram the summary has seven answers and ends with (1.0, 0, 0) |
| Quantiles.NonPositiveFirst | docker-ssd/src/veribetrkv-dynamic-frames/vendor/hdrhist/hdrhist.hpp:233-234 | a first requested quantile q <= 0 is answered [0, 0) without reading the CCDF |
| Quantiles.Crossing | docker-ssd/src/veribetrkv-dynamic-frames/vendor/hdrhist/hdrhist.hpp:234-242 | the first position whose prefix sum reaches a threshold, with every earlier one below it |
| Quantiles.Reaching | docker-ssd/src/veribetrkv-dynamic-frames/vendor/hdrhist/hdrhist.hpp:234-242 | for a threshold in (0, n] a cell whose prefix sums straddle it |
| Quantiles.QuantileCell | docker-ssd/src/veribetrkv-dynamic-frames/vendor/hdrhist/hdrhist.hpp:234-242 | the cell where quantile q falls: fewer than q * n samples before it, at least q * n up to and including it |
| Quantiles.QuantileCellUnique | docker-ssd/src/veribetrkv-dynamic-frames/vendor/hdrhist/hdrhist.hpp:234-242 | that straddling condition determines the quantile cell |
| Quantiles.BracketUnique | docker-ssd/src/veribetrkv-dynamic-frames/vendor/hdrhist/hdrhist.hpp:234-242 | two cells whose prefix sums straddle the same threshold are the same cell |
| Quantiles.QuantileCellMonotone | docker-ssd/src/veribetrkv-dynamic-frames/vendor/hdrhist/hdrhist.hpp:234-242 | a larger quantile never falls in an earlier cell |
| Quantiles.BracketMonotone | docker-ssd/src/veribetrkv-dynamic-frames/vendor/hdrhist/hdrhist.hpp:234-242 | a larger threshold is never reached in an earlier cell |
| Quantiles.QuantileCellRange | docker-ssd/src/veribetrkv-dynamic-frames/vendor/hdrhist/hdrhist.hpp:234-242 | the quantile cell lies between the first and last non-empty cells |
| Quantiles.BracketRange | docker-ssd/src/veribetrkv-dynamic-frames/vendor/hdrhist/hdrhist.hpp:234-242 | a positive threshold up to the total is reached between the first and last non-empty cells |
| Quantiles.StateAt | docker-ssd/src/veribetrkv-dynamic-frames/vendor/hdrhist/hdrhist.hpp:234-242 | the cursor state after reading the cells before a position is well formed and keeps the requested list |
| Quantiles.AboveIff | docker-ssd/src/veribetrkv-dynamic-frames/vendor/hdrhist/hdrhist.hpp:233-234 | a cell's fraction exceeds 1 - q if and only if fewer than q * n samples lie before the cell |
| Quantiles.OneAbove | docker-ssd/src/veribetrkv-dynamic-frames/vendor/hdrhist/hdrhist.hpp:215 | the initial fraction 1 exceeds 1 - q for every positive q |
| Quantiles.AdvanceStep | docker-ssd/src/veribetrkv-dynamic-frames/vendor/hdrhist/hdrhist.hpp:234-241 | while the last fraction exceeds the tail share, the cursor reads the cell it is on and goes on |
| Quantiles.ReadsOn | docker-ssd/src/veribetrkv-dynamic-frames/vendor/hdrhist/hdrhist.hpp:234 | up to the cell after the quantile cell, the last fraction read still exceeds 1 - q |
| Quantiles.ReadsOnStep | docker-ssd/src/veribetrkv-dynamic-frames/vendor/hdrhist/hdrhist.hpp:234-241 | before the cell after the quantile cell, the cursor reads on |
| Quantiles.Stays | docker-ssd/src/veribetrkv-dynamic-frames/vendor/hdrhist/hdrhist.hpp:234 | a cursor whose last fraction is not above the tail share does not move |
| Quantiles.StopsAt | docker-ssd/src/veribetrkv-dynamic-frames/vendor/hdrhist/hdrhist.hpp:234 | on the cell after the quantile cell the cursor stops reading |
| Quantiles.AdvanceSettles | docker-ssd/src/veribetrkv-dynamic-frames/vendor/hdrhist/hdrhist.hpp:234-242 | from any cell up to the one after the quantile cell, the inner loop reads on to that cell |
| Quantiles.SettlesAt | docker-ssd/src/veribetrkv-dynamic-frames/vendor/hdrhist/hdrhist.hpp:234-242 | from any such cell the inner loop ends exactly on the cell after the quantile cell |
| Quantiles.StateAfter | docker-ssd/src/veribetrkv-dynamic-frames/vendor/hdrhist/hdrhist.hpp:239-241 | on the cell after c + 1 the cursor holds c's representative as lower and c + 1's as upper value |
| Quantiles.NextFrom | docker-ssd/src/veribetrkv-dynamic-frames/vendor/hdrhist/hdrhist.hpp:244-250 | a cursor that settles after cell c + 1 answers with the bracket of cell c and moves to the next quantile |
| Quantiles.NextAnswer | docker-ssd/src/veribetrkv-dynamic-frames/vendor/hdrhist/hdrhist.hpp:227-251 | answering quantile q from any cell up to the one after its cell c gives c's bracket and leaves the cursor after c + 1 |
| Quantiles.Answer | docker-ssd/src/veribetrkv-dynamic-frames/vendor/hdrhist/hdrhist.hpp:78 | the answer expected for q carries q and a non-empty interval [lower, upper) |
| Quantiles.Answers | docker-ssd/src/veribetrkv-dynamic-frames/vendor/hdrhist/hdrhist.hpp:227-251 | one answer per requested quantile |
| Quantiles.AnswersAt | docker-ssd/src/veribetrkv-dynamic-frames/vendor/hdrhist/hdrhist.hpp:227-251 | the k-th answer is the answer for the k-th quantile |
| Quantiles.CollectAscending | docker-ssd/src/veribetrkv-dynamic-frames/vendor/hdrhist/hdrhist.hpp:227-251 | from any reachable state, the remaining answers for ascending quantiles are their cells' brackets |
| Quantiles.QuantilesAscending | docker-ssd/src/veribetrkv-dynamic-frames/vendor/hdrhist/hdrhist.hpp:227-251 | for ascending quantiles in (0, 1], the cursor answers each with the bracket of its quantile cell |
| Quantiles.QuantileExists | docker-ssd/src/veribetrkv-dynamic-frames/vendor/hdrhist/hdrhist.hpp:78 | every quantile in (0, 1] of a non-empty sample set is attained by some value |
| Quantiles.CrossingBetween | docker-ssd/src/veribetrkv-dynamic-frames/vendor/hdrhist/hdrhist.hpp:78 | the value where the sample count crosses t lies between any two values whose counts straddle t |
| Quantiles.CellContains | docker-ssd/src/veribetrkv-dynamic-frames/vendor/hdrhist/hdrhist.hpp:78 | a cell whose prefix sums straddle t contains the value where the sample count crosses t |
| Quantiles.QuantileCellContains | docker-ssd/src/veribetrkv-dynamic-frames/vendor/hdrhist/hdrhist.hpp:78 | the quantile cell's bracket contains the sample value at that quantile |
| Quantiles.TopCellEmpty | docker-ssd/src/veribetrkv-dynamic-frames/vendor/hdrhist/hdrhist.hpp:144 | samples all below the top cell's representative leave the top cell empty |
| Quantiles.QuantilesBracket | docker-ssd/src/veribetrkv-dynamic-frames/vendor/hdrhist/hdrhist.hpp:78 | each answer for ascending quantiles brackets the true quantile value: lower <= x < upper |
| Quantiles.QuantilesBracketSamples | docker-ssd/src/veribetrkv-dynamic-frames/vendor/hdrhist/hdrhist.hpp:336-358 | the same for the histogram built from the samples, as the quartiles example checks |
| Quantiles.AnswerContains | docker-ssd/src/veribetrkv-dynamic-frames/vendor/hdrhist/hdrhist.hpp:76-78 | for a histogram that counts the samples, the answer for q in (0, 1] brackets the sample value at that quantile, with no condition on the top cell |
| Quantiles.AnswerBrackets | docker-ssd/src/veribetrkv-dynamic-frames/vendor/hdrhist/hdrhist.hpp:76-78 | the answer for q in (0, 1] of the histogram built from any non-empty samples brackets the sample value at that quantile, samples in the top cell included |
| Scenarios.SingleSampleCounts | docker-ssd/src/veribetrkv-dynamic-frames/vendor/hdrhist/hdrhist.hpp:323-325 | after one insertion only the sample's cell holds a count, of one |
| Scenarios.SingleSampleOneCell | docker-ssd/src/veribetrkv-dynamic-frames/vendor/hdrhist/hdrhist.hpp:323-325 | one sample below the top cell gives a histogram with one sample, all in one cell |
| Scenarios.OneCellWalk | docker-ssd/src/veribetrkv-dynamic-frames/vendor/hdrhist/hdrhist.hpp:126-131 | a one-cell histogram's walk runs from its cell to two past it |
| Scenarios.OneCellElements | docker-ssd/src/veribetrkv-dynamic-frames/vendor/hdrhist/hdrhist.hpp:155-156 | its cell reports the whole share and count; the next cell reports share 0 and count 0 |
| Scenarios.TwoCells | docker-ssd/src/veribetrkv-dynamic-frames/vendor/hdrhist/hdrhist.hpp:158-162 | a two-cell range is those two cells |
| Scenarios.OneCellCcdf | docker-ssd/src/veribetrkv-dynamic-frames/vendor/hdrhist/hdrhist.hpp:323-333 | a one-cell histogram's CCDF is its cell with share 1, then the next cell with share 0 |
| Scenarios.SingleSampleCcdf | docker-ssd/src/veribetrkv-dynamic-frames/vendor/hdrhist/hdrhist.hpp:323-333 | one sample's CCDF: its cell with share 1 and count 1, then the next cell with share 0 |
| Scenarios.SingleValueReps | docker-ssd/src/veribetrkv-dynamic-frames/vendor/hdrhist/hdrhist.hpp:150 | the cells (16, 14) and (16, 15) report the values 983040 and 1015808 |
| Scenarios.SingleValueTest | docker-ssd/src/veribetrkv-dynamic-frames/vendor/hdrhist/hdrhist.hpp:323-333 | the sample 1000000 lands in cell (16, 14); its CCDF is (983040, 1/1, 1) then (1015808, 0/1, 0), so the last value below 1000000 has share 1 and the first value at or above it has share 0 |
| Scenarios.TopCellCcdf | docker-ssd/src/veribetrkv-dynamic-frames/vendor/hdrhist/hdrhist.hpp:144 | with all samples in the top cell, the bucket guard leaves one element, with share 1 |
| Scenarios.SingleSampleTopCcdf | docker-ssd/src/veribetrkv-dynamic-frames/vendor/hdrhist/hdrhist.hpp:144 | one sample in the top cell gives a one-element CCDF whose fraction is 1, not 0 |
| Scenarios.TopSampleQuantile | docker-ssd/src/veribetrkv-dynamic-frames/vendor/hdrhist/hdrhist.hpp:144-146 | one sample in the top cell, asked for quantile 1.0, gets the bracket [0, representative of the top cell), whose upper bound is not above the sample |
| Scenarios.TopSampleAnswer | docker-ssd/src/veribetrkv-dynamic-frames/vendor/hdrhist/hdrhist.hpp:76-78 | for the same sample, `Answer` gives [representative of the top cell, 2^64), which holds the sample |
| Scenarios.AnswerIn | docker-ssd/src/veribetrkv-dynamic-frames/vendor/hdrhist/hdrhist.hpp:78 | the answer for q is the bracket of any cell whose prefix sums straddle q * n |
| Scenarios.OneCellAnswer | docker-ssd/src/veribetrkv-dynamic-frames/vendor/hdrhist/hdrhist.hpp:78 | a one-cell histogram answers every quantile in (0, 1] with its cell's bracket |
| Scenarios.OneCellSummaryAt | docker-ssd/src/veribetrkv-dynamic-frames/vendor/hdrhist/hdrhist.hpp:262-265 | a one-cell histogram answers the k-th summary quantile with its cell's bracket |
| Scenarios.OneCellSummary | docker-ssd/src/veribetrkv-dynamic-frames/vendor/hdrhist/hdrhist.hpp:262-265 | a one-cell histogram's summary brackets its cell seven times |
| Scenarios.SingleSampleSummary | docker-ssd/src/veribetrkv-dynamic-frames/vendor/hdrhist/hdrhist.hpp:262-265 | the summary of one sample below the top cell brackets the sample's cell for every quantile |
| Scenarios.SummaryAscending | docker-ssd/src/veribetrkv-dynamic-frames/vendor/hdrhist/hdrhist.hpp:263 | the summary quantiles are ascending and in (0, 1] |
| Scenarios.BoundaryCountLess | docker-ssd/src/veribetrkv-dynamic-frames/vendor/hdrhist/hdrhist.hpp:364-367 | of the example's 10001 insertions (2400 ones, 200 twos, 7400 threes, one five), the number below x is the sum of the groups whose value is below x |
| Scenarios.BoundaryBelow | docker-ssd/src/veribetrkv-dynamic-frames/vendor/hdrhist/hdrhist.hpp:363-367 | recording the example's insertions one by one gives prefix sums 2400, 2600, 10000, 10000, 10001 at cells 2 to 6, and leaves the top cell empty |
| Scenarios.SmallRep | docker-ssd/src/veribetrkv-dynamic-frames/vendor/hdrhist/hdrhist.hpp:152-153 | bucket-0 representatives are their own indices |
| Scenarios.BoundaryAnswer | docker-ssd/src/veribetrkv-dynamic-frames/vendor/hdrhist/hdrhist.hpp:368-376 | in the boundary example, a quantile whose threshold falls in cell c is answered [c, c + 1) |
| Scenarios.BoundaryPrefixesSummary | docker-ssd/src/veribetrkv-dynamic-frames/vendor/hdrhist/hdrhist.hpp:368-376 | any histogram with those prefix sums summarises as (0.25, 2, 3), (0.5 up to 0.999, 3, 4), (1.0, 5, 6) |
| Scenarios.BoundarySummary | docker-ssd/src/veribetrkv-dynamic-frames/vendor/hdrhist/hdrhist.hpp:362-377 | the summary of the histogram built from the example's insertions is exactly the expected list of seven triples |
| Scenarios.EmptyScenario | docker-ssd/src/veribetrkv-dynamic-frames/vendor/hdrhist/hdrhist.hpp:315-318 | a new histogram's CCDF is empty and its summary ends with (1.0, 0, 0) |

## Left out

- Floating point: the `double` fraction and `float` quantile are exact rationals and reals here. Rounding in `1.0 - quantile`, in the division and in the comparison `cur_f > pf` is not modelled; the quantile `0.999f` is exactly 0.999. The boundary example gives the expected output under exact arithmetic.
- Counter width: counters, totals and `cumulative` are unbounded naturals. 64-bit wrap-around of `unsigned long` counters after 2^64 insertions is not modelled.
- `__builtin_clzl`: it is replaced by `Layout.BitLength` on positive samples. The source calls it only on non-zero samples, as the model does.
- Samples are `Layout.U64`, values below 2^64; negative inputs do not exist for `unsigned long`.
- Layout.Rep: states the representative as evidently intended, over naturals, not the `int` shift as written (see Findings).
- The empty histogram's cursor: the source leaves `last_bucket` and `last_low_bits` uninitialised. The model sets them to 0; they are never read, because the `bucket == BUCKETS` guard stops the walk first.
- The pointer to the histogram, and its lifetime, are modelled as a snapshot of the counter grid held by each cursor. Mutating the histogram during iteration cannot be expressed.
- `HDRHistQuantiles::samples` (hdrhist.hpp:223-225) is `Quantiles.QuantilesCursor.Samples`, which returns the CCDF cursor's count; it carries no contract of its own.
- Quantiles.QuantilesAscending: proved for ascending quantiles in (0, 1] on a histogram whose top cell (60, 15) is empty. When the top cell holds samples, the bucket guard ends the walk on that cell without reading the cell after it, so the last bracket's upper bound can be the top cell's own representative (see Findings). Unordered lists are not characterised; the source documents them as giving unreliable bounds.
- Quantiles.QuantilesBracket: requires every sample below the top cell's representative, for the same reason; `Quantiles.AnswerContains` states the intended bracket without that condition.
- Quantiles.QuantilesBracketSamples: requires every sample below the top cell's representative, for the same reason; `Quantiles.AnswerBrackets` states the intended bracket without that condition.
- Ccdf.CcdfEndsAtZero: the last fraction is 0 only when the top cell is empty (an if-and-only-if is proved); with samples in the top cell the walk stops on it, as `Scenarios.SingleSampleTopCcdf` shows.
- The quartiles example (hdrhist.hpp:336-358) is covered by the general `Quantiles.QuantilesBracketSamples`; its three million samples are not worked out as a concrete histogram.
- `test.cpp` only prints the cursors' output to standard error.
- The commented-out `summary_string` (hdrhist.hpp:275-310) is text formatting that is not part of the C++ code.
- Concurrency: the library has none.

## Findings

| source | as written | input that shows it | evidently intended | confidence | as-written member | corrected member |
|---|---|---|---|---|---|---|
| docker-ssd/src/veribetrkv-dynamic-frames/vendor/hdrhist/hdrhist.hpp:150 | `1 << (bucket + HDHISTOGRAM_BITS - 1)` shifts the `int` literal 1. In bucket 28 the shift by 31 gives `INT_MIN`, which widens to 2^64 - 2^31 when added to the `unsigned long` low-bits term. From bucket 29 on the shift is by 32 or more and has no defined value | sample 2^31 = 2147483648 lands in cell (28, 0); `next()` reports its value as 2^64 - 2^31 instead of 2^31 | `1UL << (bucket + 3)`, giving representative 2^31 for cell (28, 0) | high; not executed | Layout.RepAsWrittenDiverges, Layout.RepAsWrittenAt28, Layout.RepAsWrittenUndefined | Layout.Rep, Layout.CellOfRep |
| docker-ssd/src/veribetrkv-dynamic-frames/vendor/hdrhist/hdrhist.hpp:144 | the `bucket == BUCKETS` guard ends the CCDF walk on the top cell (60, 15) when it holds samples, so the quantile cursor never reads a value above that cell's representative | one sample 2^64 - 1 with quantiles [1.0], with line 150 corrected as in the row above (as written, the top cell's value shifts the `int` 1 by 63, which has no defined value): the cursor answers (1.0, 0, 31 * 2^59), and the sample is not below that upper bound | the top cell's bracket [31 * 2^59, 2^64), keeping `lower_bound <= value < upper_bound` as documented at lines 76-78. The upper bound 2^64 does not fit the `unsigned long` that `upper_bound` has, so a fix needs a wider type or a documented inclusive top bracket | medium; not executed | Scenarios.TopSampleQuantile | Quantiles.AnswerBrackets, Scenarios.TopSampleAnswer |
