# Read alignment, trimming and coverage in anvi'o (`anvio/sequence.py`)

This project is a Dafny model of the alignment core of anvi'o's `anvio/sequence.py`. It
covers the following parts:

- **`Read`**: one read aligned to a reference. It holds its `cigartuples`, its
  `query_sequence`, the `reference_sequence` under the alignment, and the half-open
  interval `reference_start`..`reference_end`.
- **Trimming**: `Read.trim`, with the single-run fast path, and the compiled helper `_trim`.
  `_trim` walks the cigar from one end, absorbs the indels the cut leaves dangling, and
  cuts both base sequences.
- **Slicing**: `Read.__getitem__`, that is `read[start:stop]` in reference coordinates.
- **Alignment**: `get_blocks`, `get_aligned_sequence_and_reference_positions` with its
  compiled helper, and `iterate_cigartuples`.
- **Coverage**: `Coverage._accurate_routine`, which adds one for every aligned block of
  every read. It also covers the `max_coverage` cap, the integer part of `Coverage.run`,
  and the statistics of `process_c`.
- **Outliers**: `get_list_of_outliers` on a one-dimensional vector, using the modified
  z-score of Iglewicz and Hoaglin. Also `get_indices_for_outlier_values`.
- **Codons**: `Codon.get_codon_to_codon_sequence_trajectory` and
  `get_codon_to_codon_dist_dictionary`.
- **Composition**: `Composition.report`, which counts bases and computes GC content.

The model uses these modules:

| module | what it holds |
|---|---|
| `Wrappers` | `Option` and `Result`, for optional arguments and for the errors a call raises |
| `Cigar` | the CIGAR operations of SAMv1 and the table of which axis each one consumes |
| `PySlice` | Python and numpy basic slicing |
| `Reads` | the `Read` value and its consistency invariant |
| `Trimming`, `Slicing`, `Alignment` | the three groups of `Read` operations |
| `Sorting` | `sorted`, `np.median` and `np.mean` on exact reals |
| `Coverage`, `Outliers`, `Codons`, `Composition` | the remaining parts |

Reads are immutable values. An operation that mutates a read in place (`trim`) returns the
new read instead. `__getitem__` works on a deep copy in any case, so its model leaves the
original unchanged. The class invariant that every edit must keep is `Reads.Consistent`:

- run lengths are non-negative;
- the query has one base per query-consuming position;
- the reference has one base per reference-consuming position;
- the interval is exactly as long as the reference-consuming part of the cigar.

Where the code and its own documentation and comments disagree, the model follows the
code. The exceptions are the three defects listed under "## Findings". Each one is modelled
twice, as written and corrected, and the rest of the model builds on the corrected version.
"## Left out" names every member this affects. The disagreements resolved in favour of the
code are these:

- `get_blocks` closes a block at an insertion (sequence.py:252-257), so `M3 I2 M4` gives two
  adjacent blocks rather than one.
- `_accurate_routine` increments `c[start:end]` with the blocks' absolute reference
  coordinates (sequence.py:497-498), even though `c` only spans the requested range.
- The transition/transversion table marks the pairs AT and CG as transitions
  (sequence.py:87-92). The documented example `dist['TTC']['AAA'] == (3, 2, 1)` agrees
  with that table, so it is kept.
- The mask `get_list_of_outliers` returns is named `non_outliers`, but it holds True for the
  outliers (sequence.py:578). The model calls it an outlier mask.
- Two left trims do not compose into one. The first trim absorbs a deletion that follows
  the cut (`Trimming.LeftTrimsDoNotCompose`).

## Model

| member | source | states |
|---|---|---|
| Cigar.ConsumptionClasses | anvio/sequence.py:637-645 | the consumption flags yielded per operation: M, =, X consume read and reference; D, N only the reference; I, S only the read; H, P neither |
| Cigar.LenReverse | anvio/sequence.py:651 | walking the reversed cigar from the right sees the same number of read and reference positions |
| Cigar.ReverseReverse | anvio/sequence.py:691-692 | reversing the cut cigar back restores reading order |
| Cigar.AlignedLenBounded | anvio/sequence.py:593-596 | the size of the aligned arrays is at most the read length and at most the reference length |
| PySlice.DropFront | anvio/sequence.py:698-699 | `s[k:]` for `k >= 0` drops the first `k` elements, or everything when `k` exceeds the length |
| PySlice.DropBack | anvio/sequence.py:345-346 | `s[:-k]` for `k > 0` drops the last `k` elements, or everything when `k` exceeds the length |
| PySlice.NegatedZeroStopEmpties | anvio/sequence.py:693 | `s[:-0]` is empty, not the whole sequence |
| PySlice.KeepPrefix | anvio/sequence.py:693 | `s[:len(s) - k]` keeps all but the last `k` elements, including when `k` is 0 |
| Trimming.Trim | anvio/sequence.py:324-332 | a zero trim returns the read unchanged; a negative trim raises; a trim beyond `reference_end - reference_start` raises; every other trim succeeds |
| Trimming.WalkCut | anvio/sequence.py:658-689 | the walk keeps the removed plus the kept positions equal to the original on both axes; it removes at least `trim_by` reference positions unless it runs out of runs; it keeps a suffix of the cigar whose first run may be shortened; that run consumes both read and reference |
| Trimming.TrimIndelsConsistent | anvio/sequence.py:649-702 | `_trim` (right-side read cut corrected) keeps a consistent read consistent and removes at least `trim_by` reference positions |
| Trimming.SingleRunTrimExact | anvio/sequence.py:334-349 | on a single match run the fast path removes exactly `trim_by` from the run, from both sequences at the chosen end, and from the interval at that end |
| Trimming.SingleRunTrimConsistent | anvio/sequence.py:334-349 | the fast path on any single run keeps the read consistent; the kept bases are the original's at the far end, and the new cigar is a cut of the old |
| Trimming.TrimKeepsConsistency | anvio/sequence.py:298-365 | a successful trim keeps the read consistent. From the left, `reference_end` is unchanged and the start moves by at least `trim_by`; the query is a suffix of the original, the reference bases are the original's from the new start, and the cigar is a cut. The right side is the mirror image |
| Trimming.TrimCollapsesTerminalGap | anvio/sequence.py:314-318 | after a trim, the run at the trimmed end consumes both read and reference, or no run is left. This is the documented terminal-gap collapse; a single-run cigar must be a match-like run for it to hold |
| Trimming.AsWrittenDiffersOnlyWithoutReadTrim | anvio/sequence.py:691-695 | `_trim` as written and as corrected differ exactly when a right-side walk trims no read position from a read with bases, and then the as-written query is empty |
| Trimming.AsWrittenRightTrimEmptiesRead | anvio/sequence.py:693 | `M2 D3` trimmed by 2 from the right: as written, the query is emptied while the cigar keeps `M2`, which breaks consistency; corrected, both bases are kept |
| Trimming.LeftTrimsDoNotCompose | anvio/sequence.py:660-689 | on `M2 D3 M5` at 100, a left trim of 2 then of 1 starts at 106, but a single trim of 3 starts at 105 |
| Slicing.GetItem | anvio/sequence.py:183-184 | a key that is not a step-less slice raises `ValueError` |
| Slicing.GetItemWithinBounds | anvio/sequence.py:139-194 | a successful slice is consistent and lies inside the requested interval and inside the read. Its reference bases are the original's over that interval, and its blocks lie in the requested interval |
| Slicing.TrimBothEnds | anvio/sequence.py:191-192 | a left trim followed by a right trim stays inside the original read, and its query is a contiguous stretch of the original query |
| Slicing.GetItemParts | anvio/sequence.py:191-192 | a successful slice is a left trim to `start` followed by a right trim to `stop` of what is left |
| Slicing.GetItemRejectsOutOfSpan | anvio/sequence.py:188-192 | a basic slice that starts before the read or stops after it raises |
| Slicing.OmittedBoundsUseReadSpan | anvio/sequence.py:188-189 | an omitted bound stands for the read's own start or end; `read[:]` is the read |
| Slicing.DocumentedClampExample | anvio/sequence.py:177-180 | `read[4400:4700]` on a read over 4500..4600 raises, where the documentation promises the read's own interval; the clamped slice returns it |
| Slicing.GetItemClamped | anvio/sequence.py:177-184 | the documented slice still raises `ValueError` on a key that is not a basic slice |
| Slicing.GetItemClampedSucceeds | anvio/sequence.py:177-180 | with clamping, every basic slice of a consistent read succeeds |
| Slicing.GetItemClampedWithinBounds | anvio/sequence.py:177-180 | the clamped slice is consistent and inside the read, with the original's reference bases; its blocks lie where the request and the read overlap |
| Slicing.BlocksInsideInterval | anvio/sequence.py:236-272 | the blocks of a consistent read lie inside any interval that holds its span |
| Alignment.BlocksOfRead | anvio/sequence.py:236-272 | `get_blocks` of a consistent read is ordered and non-overlapping, inside the read's interval, and as long in total as the aligned part of the cigar; it covers exactly the reference positions of the aligned columns |
| Alignment.BlocksFromOrdered | anvio/sequence.py:244-272 | the block loop from any open block yields ordered blocks between that block's start and the end of the walk |
| Alignment.BlocksFromTotal | anvio/sequence.py:249-250 | the blocks add up to the open block plus the lengths of the runs consuming both axes |
| Alignment.ColumnsShape | anvio/sequence.py:602-618 | the aligned columns have strictly increasing read offsets and reference positions, each inside the read and inside the reference span |
| Alignment.ColumnsMatchBlocks | anvio/sequence.py:236-272 | a reference position is in a block exactly when an aligned column sits at it |
| Alignment.ProjectRun | anvio/sequence.py:604-618 | one run of the loop in `_get_aligned_sequence_and_reference_positions` appends the bases and positions of that run's aligned columns |
| Alignment.AlignedSequenceAndPositions | anvio/sequence.py:589-620 | returns one base and one reference position per aligned column, each base being the query base at its read offset; the positions strictly increase, lie in the read's interval, and are exactly the positions the blocks cover |
| Alignment.InsertionSplitsBlock | anvio/sequence.py:252-257 | `M3 I2 M4` at 10 gives the two adjacent blocks 10..13 and 13..17 |
| Alignment.DeletionLeavesGap | anvio/sequence.py:259-264 | `M3 D2 M4` at 10 gives the blocks 10..13 and 15..19, leaving the deleted positions uncovered |
| Coverage.AccurateRoutine | anvio/sequence.py:484-500 | every position's depth is its starting value plus the number of blocks, over all reads, whose `c[start:end]` slice reaches it |
| Coverage.HitsAppend | anvio/sequence.py:496-498 | the reads' contributions add up over concatenated batches of reads |
| Coverage.HitsPermutation | anvio/sequence.py:496-498 | the depth does not depend on the order in which the reads arrive |
| Coverage.CoversInside | anvio/sequence.py:498 | for a block inside the array, `c[start:end] += 1` touches exactly `start <= k < end` |
| Coverage.BlockHitsIsMembership | anvio/sequence.py:497-498 | ordered blocks inside the array add one to a position inside a block and zero elsewhere |
| Coverage.HitsCountReads | anvio/sequence.py:496-498 | for consistent reads inside the array, a position's depth is the number of reads whose blocks cover it, so it never exceeds the number of reads |
| Coverage.AbsoluteCoordinates | anvio/sequence.py:497-498 | a read over 100..105 adds nothing to an array of length 10, because block coordinates are used as indices as they are |
| Coverage.MaxOf | anvio/sequence.py:471 | `np.max` is a value of the array and bounds it from above |
| Coverage.MinOf | anvio/sequence.py:504 | `np.amin` is a value of the array and bounds it from below |
| Coverage.ClampToMax | anvio/sequence.py:470-472 | with no cap the array is unchanged; a cap on an empty array raises; otherwise every value above the cap becomes the cap and the others stay |
| Coverage.ClampIdempotent | anvio/sequence.py:470-472 | capping twice at the same value is capping once |
| Coverage.RunRange | anvio/sequence.py:460-481 | a range with `end < start` raises, because `np.zeros` refuses a negative size; the range's depth is the capped count of blocks at each position; with a cap, an empty range raises; the summary is computed exactly when the range is non-empty and not skipped |
| Coverage.QuarterBounds | anvio/sequence.py:517 | `int(size * 0.25)` is the floor of a quarter of the size |
| Coverage.InnerHalfShape | anvio/sequence.py:515-518 | from four values up, `sorted_c[Q:-Q]` is a non-empty middle stretch of the sorted values, holding `size - 2Q` of them |
| Coverage.CountPositiveMeaning | anvio/sequence.py:509 | no position is counted as covered exactly when none is positive, and all are exactly when all are positive |
| Coverage.MinMaxBounds | anvio/sequence.py:504-505 | the summary's minimum and maximum are values of the array that bound every value |
| Coverage.CentralBounds | anvio/sequence.py:506-507 | the median and the mean lie between the minimum and the maximum |
| Coverage.MeanQ2Q3Bounds | anvio/sequence.py:513-519 | `mean_Q2Q3` lies between the minimum and the maximum, and is the plain mean below four values |
| Coverage.DetectionBounds | anvio/sequence.py:509 | detection is between 0 and 1; it is 0 exactly when no position is covered and 1 exactly when all are |
| Coverage.ProcessCBounds | anvio/sequence.py:503-519 | all of the summary's statistics together, as in the rows above |
| Sorting.SortSpec | anvio/sequence.py:516 | `sorted` returns an ordered permutation of its input |
| Sorting.SortedUnique | anvio/sequence.py:516 | two ordered permutations of the same values are equal, so the sorted order is unique |
| Sorting.MedianBetween | anvio/sequence.py:506 | `np.median` lies between any bounds of its input |
| Sorting.MeanBetween | anvio/sequence.py:507 | `np.mean` lies between any bounds of its input |
| Sorting.MedianOfConstant | anvio/sequence.py:562 | the median of a constant vector is that constant |
| Sorting.MedianPermutation | anvio/sequence.py:562-566 | the median does not depend on the order of the values |
| Sorting.MedianScale | anvio/sequence.py:562-566 | scaling every value by a positive factor scales the median by it |
| Outliers.DeviationsPermutation | anvio/sequence.py:564-566 | the absolute deviations from a fixed centre are a permutation-invariant multiset |
| Outliers.ThresholdMonotone | anvio/sequence.py:577-578 | raising the threshold can only clear verdicts, never add one |
| Outliers.CentreOnlyByZero | anvio/sequence.py:577-586 | with a non-zero deviation scale and a non-negative threshold, a value equal to the centre is flagged only by the zero override, and only when it is zero |
| Outliers.AsWrittenMaskAgrees | anvio/sequence.py:568-575 | the code's mask and the corrected one are equal exactly when the vector is empty, or its deviation scale is non-zero, or its first value is zero just when its centre is |
| Outliers.FlatSignal | anvio/sequence.py:568-575 | a constant vector is all outliers when it is zero and none otherwise, whatever the threshold, and both versions of the mask agree on it |
| Outliers.FlatVerdictDependsOnOrder | anvio/sequence.py:568-575 | as written, `[0, 0, 0, 5]` is all outliers and `[5, 0, 0, 0]` none; corrected, both are all outliers |
| Outliers.OutlierMaskPermutation | anvio/sequence.py:527-586 | the corrected verdict on a value does not depend on the order of the values |
| Outliers.OutlierMaskScale | anvio/sequence.py:562-586 | scaling all values, and the median hint, by a positive factor leaves the mask unchanged |
| Outliers.CenterScale | anvio/sequence.py:562 | the centre, hinted or computed, scales with the values |
| Outliers.ModifiedZScale | anvio/sequence.py:577 | the modified z-score is unchanged when deviation and scale are multiplied by the same positive factor |
| Outliers.OutlierIndicesPermutation | anvio/sequence.py:522-524 | the reported set does not depend on the order of the values: a value is reported at its position in one order exactly when it is reported in any other |
| Outliers.OutlierIndicesFlat | anvio/sequence.py:522-524 | on a constant vector, every position is reported when the constant is zero and none otherwise |
| Codons.VariedFrom | anvio/sequence.py:39-42 | the varied indices are increasing, each one a position where the codons differ, and they include every such position |
| Codons.VariedCount | anvio/sequence.py:39-42 | there are as many varied indices as the codons' Hamming distance |
| Codons.PermutationsCount | anvio/sequence.py:43 | `permutations` of `n` indices yields `n!` orders |
| Codons.PermutationsPermute | anvio/sequence.py:43 | every order is a permutation of the indices |
| Codons.OrderFacts | anvio/sequence.py:43 | every order of increasing indices lists each index exactly once |
| Codons.StepsReach | anvio/sequence.py:47-51 | mutating the positions in a given order reaches the end codon, with each step changing exactly one base |
| Codons.TrajectoryAt | anvio/sequence.py:44-52 | each trajectory starts at the start codon and ends at the end codon in Hamming-distance single-base steps |
| Codons.TrajectoriesShape | anvio/sequence.py:33-64 | there are (Hamming distance)! trajectories, each of the shape above |
| Codons.FirstTwoPositions | anvio/sequence.py:43-52 | for codons differing at positions 0 and 1, the trajectories are the order (0, 1) followed by the order (1, 0) |
| Codons.TwoPositionSteps | anvio/sequence.py:47-51 | AAA to CCA goes through CAA in the order (0, 1) and through ACA in the order (1, 0) |
| Codons.DistFromCounts | anvio/sequence.py:101-113 | over a suffix of positions, the total is transitions plus transversions and equals the Hamming distance; the count is symmetric in the two codons |
| Codons.DistSpec | anvio/sequence.py:97-113 | `dist[s][e] == (s + v, s, v)` with `s + v` the number of differing positions, and `dist[s][e] == dist[e][s]` |
| Codons.DistDictionarySpec | anvio/sequence.py:84-115 | for any two listed codons both entries exist; the entry's total equals transitions plus transversions and the number of positions where the codons differ; and `dist[s][e] == dist[e][s]` |
| Codons.DocumentedDistance | anvio/sequence.py:75-76 | `dist['TTC']['AAA'] == (3, 2, 1)` |
| Composition.CountsPartition | anvio/sequence.py:380-384 | A, T, C, G and N counts add up to the length of the sequence |
| Composition.CountAppend | anvio/sequence.py:380-383 | counting a concatenation is adding the counts of its parts |
| Composition.ReportSpec | anvio/sequence.py:376-391 | N counts every character that is not an upper-case base; the counts add up to the length; GC content is between 0 and 1, and 0 exactly when there is no G or C |
| Composition.ReportAppend | anvio/sequence.py:380-384 | the report's counts add up over concatenated sequences |
| Composition.GgcanReport | anvio/sequence.py:380-391 | `GGCAN` reports one A, no T, one C, two G, one N and GC content 0.75 |

## Left out

- `Read.__init__` builds a read from a `pysam.AlignedSegment`. That object is not part of this model. A read here is built directly from its four parts, and `Reads.Consistent` states what the constructor is expected to establish.
- `Read.__repr__` is a text rendering only.
- `get_reference_sequence` returns a field.
- `Coverage.run` resolves a contig, a split or a name to a range, and reads come from a BAM iterator, which may also trim them to the range. This I/O is not modelled. `Coverage.RunRange` takes the reads and the range bounds as parameters. An unknown `method` name and an unknown `contig_or_split` type raise `ConfigError`; both are left out, since only `'accurate'` exists.
- `Coverage.RunRange`: leaves out the `explicit_length` attribute it writes on a contig or split. That is a side effect on an object outside this model.
- `Coverage.ProcessCBounds`: says nothing about `std`, because `np.std` needs a square root that exact reals cannot express. The other statistics use exact reals rather than floating point. That includes `0.6745`, `0.25` and the division in `detection`.
- `Outliers.OutlierMask`: takes a one-dimensional vector only. The source also accepts an `N x d` array and uses Euclidean distances. Coverage only ever passes a vector, and the square root of a sum of squares is not exact on reals.
- The `@njit` compilation and numpy's fixed-width integers are left out. Lengths and coordinates are unbounded integers, because coverage counts and alignment lengths do not approach `int64` limits.
- `get_codon_to_codon_sequence_trajectory` with `as_amino_acids=True` is left out. It needs the table `constants.codon_to_AA`, which is not part of this model. For the same reason, `Codons.DistDictionary` takes its list of codons as a parameter instead of the table's keys.
- `Trimming.Trim`: the `side` argument is two-valued. The source treats any string other than `'left'` as the right side.
- `Trimming.TrimCollapsesTerminalGap`: requires a single-run cigar to be a match-like run. The fast path shortens a single run of any operation without looking at it.
- `Trimming.Trim`: uses the corrected right-side read cut of `_trim` (sequence.py:693). When a right trim removes no read position, the code empties the query and the model keeps it. `Trimming.AsWrittenDiffersOnlyWithoutReadTrim` characterises exactly when the two differ.
- `Slicing.GetItem`: is as written with respect to clamping, but its right trim inherits the corrected cut of `Trimming.Trim`. For example, `read[100:102]` of `M2 D3` over 100..105 keeps both bases, while the code empties them.
- `Outliers.OutlierIndices`: uses the corrected mask. On a vector whose deviation scale is zero and whose first value is zero while its median is not, or the other way round, the code reports the opposite verdict for every position. `Outliers.AsWrittenMaskAgrees` characterises exactly when the two masks differ.
- `Coverage.ProcessC`: its `is_outlier` uses the corrected mask, with the same difference from the code as `Outliers.OutlierIndices`.
- `Slicing.GetItemWithinBounds`: leaves out that the slice's query is a contiguous stretch of the original's. `Slicing.TrimBothEnds` states that for the two trims the slice is made of.

## Findings

| source | as written | input that shows it | evidently intended | confidence | as-written member | corrected member |
|---|---|---|---|---|---|---|
| anvio/sequence.py:693 | the right-side read cut is `query_sequence[:-read_positions_trimmed]`, and `[:-0]` is empty | cigar `M2 D3` over 100..105 with query `AC`, `trim(2, side='right')`: the deletion meets the budget, no read position is trimmed, and the query becomes empty while the cigar keeps `M2` | keep `len(query_sequence) - read_positions_trimmed` bases, so that trimming no read position keeps the read | high (not executed) | Trimming.TrimIndelsAsWritten (Trimming.AsWrittenRightTrimEmptiesRead, Trimming.AsWrittenDiffersOnlyWithoutReadTrim) | Trimming.TrimIndels (Trimming.TrimIndelsConsistent, Trimming.TrimKeepsConsistency) |
| anvio/sequence.py:177-180, 191-192 | the documentation says bounds outside the read are clamped to it, but the code passes them to `trim`, which raises on a negative amount | a read over 4500..4600 and `read[4400:4700]`: the left trim by -100 raises `ConfigError` | clamp the bounds to the read's interval, so that the example returns 4500..4600 | medium (not executed) | Slicing.GetItem (Slicing.DocumentedClampExample, Slicing.GetItemRejectsOutOfSpan) | Slicing.GetItemClamped (Slicing.GetItemClampedSucceeds, Slicing.GetItemClampedWithinBounds) |
| anvio/sequence.py:568-575 | when the median absolute deviation is zero, every verdict is decided by whether the first value is zero | `[0, 0, 0, 5]` (median 0, deviation scale 0) is all outliers, but the same values as `[5, 0, 0, 0]` are all non-outliers | decide the zero-scale case from the median, a property of the values as a whole, so that the verdict does not depend on their order | medium (not executed) | Outliers.OutlierMaskAsWritten (Outliers.FlatVerdictDependsOnOrder, Outliers.AsWrittenMaskAgrees) | Outliers.OutlierMask (Outliers.OutlierMaskPermutation, Outliers.FlatSignal, Outliers.OutlierIndicesPermutation) |
