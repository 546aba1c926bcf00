# Population Stability Index monitor: a Dafny model

This project models the drift monitor in `src/monitor/psi.py` and proves properties of it.

The `psi` routine compares a numeric sample against a reference sample in five steps:

1. It takes `bins + 1` evenly spaced probabilities in [0, 1].
2. It takes the reference sample's quantiles at those probabilities as candidate bin edges. NumPy's default "linear" method is used.
3. It removes duplicate edges.
4. It counts both samples into the bins. Bins are half-open, except the last, which is closed. Values outside the edges are not counted.
5. It turns each histogram into shares: it divides by the larger of 1 and the total, then clips into [1e-6, 1]. It returns the sum over bins of `(a - e) * ln(a / e)`.

`main` scores every train column that meets three conditions:

- it also appears in the new table;
- it is not the label column `default.payment.next.month`;
- it is numeric in the train table.

It inserts each score into a result dictionary in train column order.

All arithmetic is over exact reals. The natural logarithm is a function parameter `ln`.

Modules:

- `Sequences`: order, sorting, counting and sums.
- `Quantile`: the grid, linear quantiles, candidate edges and `np.unique`.
- `Binning`: bin membership and the histogram.
- `PopulationStability`: clipping, normalising, the score and `Psi`.
- `Monitor`: column selection, plus the loop that fills the report.
- `Invariance`: which transformations of both samples leave the index unchanged.

## Model

| member | source | states |
|---|---|---|
| `Sequences.Sort` | src/monitor/psi.py:13 | the sorted rearrangement that the quantile is taken over: sorted, and the same multiset as the input |
| `Sequences.SortedUnique` | src/monitor/psi.py:13 | two sorted sequences with the same multiset are equal, so any correct sort gives the same quantiles |
| `Sequences.SortPermutation` | src/monitor/psi.py:13 | reordering the input does not change its sorted form |
| `Sequences.SortEnds` | src/monitor/psi.py:13 | the sorted sample has the input's length, starts at its minimum and ends at its maximum |
| `Sequences.CountWherePermutation` | src/monitor/psi.py:14-15 | a count of the values meeting a condition depends only on the multiset of values |
| `Sequences.SumZero` | src/monitor/psi.py:16-17 | a histogram totals zero exactly when every count is zero |
| `Quantile.Grid` | src/monitor/psi.py:12 | `bins + 1` evenly spaced probabilities: the i-th is exactly i / bins, so they run from 0 to 1, lie in [0, 1] and strictly increase |
| `Quantile.Position` | src/monitor/psi.py:13 | the linear-method position (n - 1) q lies in [0, n - 1] |
| `Quantile.InterpBetween` | src/monitor/psi.py:13 | `Interp`, NumPy's linear quantile, lies between the two order statistics around its position, and is the maximum at the top position |
| `Quantile.InterpBounds` | src/monitor/psi.py:13 | an `Interp` quantile lies within [min, max]; probability 0 gives the minimum and probability 1 the maximum |
| `Quantile.InterpMonotone` | src/monitor/psi.py:13 | `Interp` quantiles are non-decreasing in the probability |
| `Quantile.Candidates` | src/monitor/psi.py:12-13 | `bins + 1` candidate edges, non-decreasing; the first is the reference minimum and the last the reference maximum |
| `Quantile.Dedup` | src/monitor/psi.py:13 | collapsing runs of a sorted sequence gives a strictly increasing sequence with the same values and the same first value |
| `Quantile.Unique` | src/monitor/psi.py:13 | strictly increasing, holds exactly the input's values, no longer than the input, non-empty for non-empty input |
| `Quantile.UniqueDetermined` | src/monitor/psi.py:13 | two strictly increasing sequences with the same values are equal, so the "sorted distinct values" result is unique |
| `Quantile.Cuts` | src/monitor/psi.py:13 | the cut points are strictly increasing, number between 1 and `bins + 1`, and run from the reference minimum to its maximum |
| `Quantile.CutsCollapse` | src/monitor/psi.py:13-14 | there is a single cut, and so no bin, exactly when all reference values are equal |
| `Quantile.CutsPermutation` | src/monitor/psi.py:13 | the cut points depend only on the multiset of reference values |
| `Binning.BinExactlyOne` | src/monitor/psi.py:14-15 | with strictly increasing edges, a value falls in some bin (`InBin`: half-open, the last closed) exactly when it lies within [first edge, last edge], and then in exactly one bin |
| `Binning.Histogram` | src/monitor/psi.py:14-15 | one count per bin (one fewer than the edges, none for a single edge), each at most the sample size |
| `Binning.TallySum` | src/monitor/psi.py:14-15 | a single value adds 1 to the total if it is within the edges, and 0 otherwise |
| `Binning.HistogramTotal` | src/monitor/psi.py:14-15 | the counts add up to the number of values within the edges, so at most the sample size |
| `Binning.HistogramCountsAll` | src/monitor/psi.py:14-15 | when every value is within the edges, the counts add up to the sample size |
| `Binning.HistogramOutside` | src/monitor/psi.py:14-15 | a sample lying wholly outside the edges gets an all-zero histogram |
| `Binning.HistogramPermutation` | src/monitor/psi.py:14-15 | the histogram depends only on the multiset of the sample |
| `PopulationStability.Clip` | src/monitor/psi.py:16-17 | the result is in [1e-6, 1]: the value itself inside, the nearer bound outside |
| `PopulationStability.Normalise` | src/monitor/psi.py:16-17 | one share per count, each in [1e-6, 1]; a zero total gives 1e-6 everywhere; otherwise each share is count/total in [0, 1], raised to 1e-6 when below it |
| `PopulationStability.NormaliseEmpty` | src/monitor/psi.py:16-17 | an all-zero histogram becomes the constant vector 1e-6 |
| `PopulationStability.Probabilities` | src/monitor/psi.py:14-17 | one probability per bin, each in [1e-6, 1] |
| `PopulationStability.ScoreSelf` | src/monitor/psi.py:18 | `Score`, the sum of (a - e) ln(a / e), is 0 for a vector against itself, whatever the logarithm is |
| `PopulationStability.TermNonNegative` | src/monitor/psi.py:18 | each summand (a - e) ln(a / e) is non-negative when ln is increasing and ln(1) = 0 |
| `PopulationStability.ScoreNonNegative` | src/monitor/psi.py:18 | under the same assumptions `Score` is non-negative |
| `PopulationStability.Psi` | src/monitor/psi.py:10-18 | the routine succeeds exactly when the reference sample is non-empty, and then returns `Index`, the cut, bin, normalise and score chain |
| `PopulationStability.PsiHistograms` | src/monitor/psi.py:13-15 | both histograms have length (cuts - 1), at most `bins`; the reference counts every value unless there is no bin; the actual counts exactly its in-range values, at most its size |
| `PopulationStability.PsiOfPermutationIsZero` | src/monitor/psi.py:14-18 | an actual sample that is a permutation of the reference gives exactly 0 |
| `PopulationStability.PsiPermutation` | src/monitor/psi.py:13-18 | reordering either sample leaves the result unchanged |
| `PopulationStability.PsiConstantReference` | src/monitor/psi.py:13-18 | an all-equal reference gives a single cut and the result 0, whatever the actual sample is |
| `PopulationStability.PsiTotalDrift` | src/monitor/psi.py:14-18 | an actual sample lying wholly outside the reference range scores the constant 1e-6 vector against the reference vector |
| `PopulationStability.PsiNonNegative` | src/monitor/psi.py:18 | the result is non-negative when ln is increasing and ln(1) = 0 |
| `Monitor.Names` | src/monitor/psi.py:23 | the column names, one per column, in table order |
| `Monitor.Lookup` | src/monitor/psi.py:27 | selecting a column by name returns a column of the table that carries that name |
| `Monitor.Common` | src/monitor/psi.py:23 | a name is kept exactly when it is a train column, is in the new table and is not the label; the kept names are in train order |
| `Monitor.NumericOnly` | src/monitor/psi.py:25-26 | a name is kept exactly when it is in the input and the numeric test holds; the kept names are in input order |
| `Monitor.SubsequenceDistinct` | src/monitor/psi.py:23-26 | filtering draws names from the input and keeps distinct names distinct |
| `Monitor.Selected` | src/monitor/psi.py:23-26 | the scored keys are exactly the train columns present in the new table, other than the label, numeric in train; they are in train order, each once when train names are distinct |
| `Monitor.PsiReport` | src/monitor/psi.py:23-27 | the loop returns exactly `Report`, which is `ReportOf` over the common columns: the column-by-column definition of the result, error included |
| `Monitor.ReportOfStep` | src/monitor/psi.py:25-27 | one loop iteration: a non-numeric column leaves the report as it is; a numeric one appends its score or ends with its error |
| `Monitor.ReportErrPersists` | src/monitor/psi.py:25-27 | once a score has failed, the run ends in an error |
| `Monitor.ReportOfOk` | src/monitor/psi.py:25-27 | the run succeeds exactly when every visited numeric column scores |
| `Monitor.ReportOfEntries` | src/monitor/psi.py:24-27 | a successful run has one entry per visited numeric column, in order, each carrying that column's score |
| `Monitor.ColumnPsiOk` | src/monitor/psi.py:27 | on a common column the score fails exactly when the train sample is empty |
| `Monitor.ReportOk` | src/monitor/psi.py:23-27 | `main` fails exactly when some selected column has an empty train sample |
| `Monitor.ReportEntries` | src/monitor/psi.py:23-27 | a successful report's keys are the selected columns, in order, and each value is the index of that column's new values against its train values with 10 bins |
| `Invariance.SortMap` | src/monitor/psi.py:13 | sorting commutes with every strictly increasing map |
| `Invariance.InterpAffine` | src/monitor/psi.py:13 | a linear quantile commutes with every affine map |
| `Invariance.CandidatesAffine` | src/monitor/psi.py:12-13 | the candidate edges commute with every map v -> k v + c with k > 0 |
| `Invariance.UniqueMap` | src/monitor/psi.py:13 | removing duplicates commutes with every strictly increasing map |
| `Invariance.HistogramMap` | src/monitor/psi.py:14-15 | mapping the sample and the edges by the same increasing map leaves every count unchanged |
| `Invariance.PsiMap` | src/monitor/psi.py:12-18 | an increasing map applied to both samples leaves the result unchanged when it carries the candidate edges along |
| `Invariance.PsiAffine` | src/monitor/psi.py:12-18 | rescaling both samples by k > 0 and shifting them by c leaves the result unchanged |
| `Invariance.BendMovesCandidates` | src/monitor/psi.py:13 | a strictly increasing but non-affine map that does not carry the candidate edges along |
| `Invariance.CutsOfPair` | src/monitor/psi.py:12-13 | with two bins, the cut points of a two-value sample lo < hi are lo, the midpoint and hi |
| `Invariance.BendMovesHistogram` | src/monitor/psi.py:13-15 | under that map the reference counts stay [1, 1] while the counts of the actual sample [0.1, 0.6, 0.6] move from [1, 2] to [3, 0] |

## Left out

- Reading the CSV files, writing the JSON file, the final message, the command line and creating the output directory (lines 21-22 and 28-38) are left out. They are I/O.
- `is_numeric_dtype` is a library call. Each column carries its answer as a given boolean.
- Floating point is left out. All values are exact reals, including the quantile interpolation, the divisions at lines 16-18 and the clip. So finiteness of the float result, NaN and infinities are not modelled.
- The natural logarithm is the parameter `ln`. Only non-negativity assumes anything about it: ln(1) = 0 and ln increasing.
- Missing values in a column are left out. Columns hold reals only.
- A column that is numeric in train but non-numeric in the new table is left out. Both tables' values are reals.
- Duplicate column names are left out: `read_csv` renames them, so names are distinct. `Selected` proves that distinct train names give distinct keys. The report is a sequence of (name, score) pairs in insertion order, which is the dictionary for distinct keys.
- An empty reference sample makes `np.quantile` raise. `Psi` returns `Err(EmptyReference)` in that case, and the report stops with that error, as the exception would stop `main`.
- `bins <= 0` is excluded by `Psi`'s precondition. `main` always passes 10.
- When every reference value is equal there is one cut and no bin. `np.histogram` then returns empty counts and the sum of an empty vector is 0. The model computes exactly that: the result is 0 whatever the actual sample is (`PsiConstantReference`). There is no requirement of at least two distinct values.
- Invariance under transformations follows the code. PSI is often described as unchanged by any strictly increasing transform applied to both samples. With linear interpolation between order statistics, that holds for positive affine maps (`PsiAffine`). It also holds for any increasing map that carries the candidate edges along (`PsiMap`), but not for increasing maps in general: `BendMovesCandidates` shows the candidate edges failing to follow such a map, and `BendMovesHistogram` shows the actual sample's histogram changing while the reference's does not. The index then differs for the usual logarithm, but the model, with `ln` a parameter, does not prove that last step.
- For total drift, the value is sometimes given as the sum of e * ln(1 / e). The code computes (1e-6 - e) * ln(1e-6 / e) per bin, because the clipped actual vector is 1e-6, not 0. `PsiTotalDrift` states the code's value.
