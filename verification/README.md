# Consistent rescaling of distance matrices

This project is a Dafny model of the `ConsistentRescaling` transformer
(`giotto/homology/consistent.py`), together with proofs about it. For every
sample of a batch the transformer does three things:

1. It obtains a distance matrix `Xm`. In `precomputed` mode that is the sample
   itself; otherwise it applies a metric to every pair of rows.
2. It builds a reference vector: `dk[i] = Xm[i, argsort(X)[i, n_neighbor]]`.
3. It divides every off-diagonal distance by the geometric mean of the two
   points' reference distances. It writes only the strict upper triangle of a
   zero matrix and then adds the transpose.

`fit` validates that `n_neighbor` lies in `[1, inf)`. `transform` refuses to run
before a successful `fit` and maps the kernel over the samples in input order.

Modules, one file each:

- `Matrices` (`matrices.dfy`): square, symmetric and zero-diagonal matrices
  over `seq<seq<real>>`.
- `Sorting` (`sorting.dfy`): the row-wise argsort and what it means.
  - `IsArgsort` characterises *every* ascending-sort permutation.
  - `Argsort` is one concrete such permutation.
  - `SortedRow` is the unique ascending rearrangement of a row.
- `Rescaling` (`rescaling.dfy`): the rescaling kernel.
  - `RescaledMatrix` is its entrywise specification.
  - `Rescale` is the imperative upper-triangle loop over a 2-D array, proved
    equal to `RescaledMatrix`.
- `ConsistentRescaling` (`consistent.dfy`): the rest of the transformer.
  - `DistanceMatrix`, `ReferenceVector` and the per-sample pipeline
    `ConsistentDistance`.
  - Batch collection, `Fit` and `Transform`.
- `NearestReference` (`nearest.dfy`): the reference lookup that the class
  documentation describes (lines 18-24), the code's lookup (line 80), and
  proofs of how the two relate. See Findings.

Modelling choices:

- The square root is a parameter `sqrt: real -> real`.
  - The kernel only needs `PositiveRoot(sqrt)`: a positive argument has a
    positive root.
  - The scaling law needs `IsSqrt(sqrt)`: the non-negative root of a
    non-negative argument.
- The metric is either `Precomputed` or `Pairwise(dist)` for an arbitrary
  distance function `dist`. Metric names and `metric_params` amount to choosing
  `dist`.
- A pairwise distance matrix is built as scikit-learn builds it for a callable
  metric. `dist` is applied to each pair `i < j` and mirrored below the
  diagonal, and the diagonal holds `dist(x, x)`. So `Xm` is symmetric even
  when `dist` is not.
- The code reports no error in three places where numpy raises instead. The
  model makes each of them a `Result` error rather than a precondition:
  - an argsort column `n_neighbor` that does not exist (an `IndexError` at line
    80);
  - a selected column that is not a row of `Xm` (an `IndexError` at line 81);
  - a non-square precomputed sample (rejected inside `pairwise_distances`).
- The argsort is one concrete ascending sort, stable on ties.
  - `Sorting.ArgsortSelectsOrderStatistic` holds for every permutation
    satisfying `IsArgsort`: the value read from the sample row is the row's
    rank-`k` value, however ties are broken.
  - Which column is selected on tied coordinates does depend on the sort (see
    Left out). This matters in feature mode. In precomputed mode only the
    selected value matters, and that is the same for every sort.
- The model follows the code:
  - the reference column comes from the argsort of the raw sample, not of
    `Xm`;
  - errors carry no sample index;
  - `transform` stops at the first failing sample.

## Model

| member | source | states |
|---|---|---|
| `Sorting.Argsort` | giotto/homology/consistent.py:80 | The per-row `np.argsort` result lists every column index of the row exactly once. The row's values are non-decreasing when read in that order. |
| `Sorting.ArgsortSelectsOrderStatistic` | giotto/homology/consistent.py:80 | Take any ascending-sort permutation `p` of a row, whatever its tie-breaking. The entry of the row at column `p[k]` is the row's rank-`k` smallest value. |
| `Sorting.SortedUnique` | giotto/homology/consistent.py:80 | Two ascending sequences holding the same multiset of values are equal. So the value the lookup selects does not depend on how the sort breaks ties. |
| `Sorting.ArgsortDistinct` | giotto/homology/consistent.py:80 | An argsort row never names the same column at two ranks. |
| `Rescaling.RescaledMatrix` | giotto/homology/consistent.py:84-90 | The rescaled matrix of `n` points is `n x n`, the shape of `Xc + Xc.T`. |
| `Rescaling.Entries` | giotto/homology/consistent.py:87-90 | Take a pair `i < j`. Output `(i, j)` and output `(j, i)` are both `Xm[i][j] / sqrt(dk[i] * dk[j])`. Entry `(j, i)` comes from the transpose of the upper triangle, not from `Xm[j][i]`. |
| `Rescaling.RescaledShape` | giotto/homology/consistent.py:85-90 | The output is exactly symmetric and has a zero diagonal, whatever `Xm` holds on or below its diagonal. |
| `Rescaling.Rescale` | giotto/homology/consistent.py:84-90 | The imperative kernel produces the entrywise specification. It fills a zero array over the pairs of `combinations(range(n), 2)` and then adds its transpose. |
| `Rescaling.ScaleReferences` | giotto/homology/consistent.py:88-89 | Multiply every reference distance by `c > 0`: every output entry is divided by `c`, and the divisors stay positive. |
| `Rescaling.UpperTriangleOnly` | giotto/homology/consistent.py:86-90 | Two distance matrices that agree above the diagonal rescale to the same output. The kernel never reads the lower triangle or the diagonal of `Xm`. |
| `ConsistentRescaling.DistanceMatrix` | giotto/homology/consistent.py:77-78 | Precomputed: the result is the sample itself exactly when the sample is square, and `NotSquare(rows, cols)` otherwise. Pairwise: the result always exists and is symmetric, and entry `(i, j)` for `i <= j` is `dist(row i, row j)`. |
| `ConsistentRescaling.SymmetricMetricEntries` | giotto/homology/consistent.py:77-78 | For a metric that is symmetric on the sample's points, every entry `(i, j)` of the pairwise matrix, in either triangle, is `dist(row i, row j)`. |
| `ConsistentRescaling.NeighborIndices` | giotto/homology/consistent.py:80 | Column `k` of the row-wise argsort of the sample. For each point, the index is a column of the sample, and the sample row holds its rank-`k` smallest value there. |
| `ConsistentRescaling.FirstOutside` | giotto/homology/consistent.py:81-82 | The first position whose selected column is not a row of `Xm`. Every earlier position is in range. This is the point where `Xm[arange(n), idx]` raises. |
| `ConsistentRescaling.ReferenceVector` | giotto/homology/consistent.py:80-82 | Fails with `RankOutOfBounds` when `k >= width`. Otherwise it succeeds exactly when every selected column names a row of `Xm`, and fails with `NeighborOutOfBounds(index, n)` otherwise, where `index >= n` is a column some point selected. On success, `dk[i]` is `Xm[i][j]` for a column `j` where sample row `i` holds its rank-`k` value. |
| `ConsistentRescaling.PrecomputedReference` | giotto/homology/consistent.py:80-82 | For a square precomputed sample, the lookup succeeds and `dk[i]` is the rank-`k` smallest entry of row `i`. |
| `ConsistentRescaling.ConsistentDistance` | giotto/homology/consistent.py:76-90 | A successful per-sample result is an `n x n` symmetric matrix with a zero diagonal, and the rank was a column of the sample. `KernelOutcome` and `PairwiseEntries` give when it succeeds and what the entries are. |
| `ConsistentRescaling.KernelOutcome` | giotto/homology/consistent.py:76-90 | For any metric, the kernel's outcome in every case. A distance-matrix error is the kernel's error. Otherwise a lookup error (`RankOutOfBounds`, `NeighborOutOfBounds`) is the kernel's error. Otherwise it fails with `DegenerateReference` exactly when some pair's reference product is not positive, and succeeds with the rescaled distance matrix otherwise. |
| `ConsistentRescaling.FeatureReferences` | giotto/homology/consistent.py:80-82 | In feature mode each reference distance `dk[i]` is the metric's distance from point `i` to the point numbered by a column where row `i` holds its rank-`k` coordinate. |
| `ConsistentRescaling.PairwiseEntries` | giotto/homology/consistent.py:76-90 | A successful feature-mode result has reference distances with positive pairwise products, each read as `FeatureReferences` states. For every `i < j`, entries `(i, j)` and `(j, i)` are `dist(row i, row j) / sqrt(dk[i] * dk[j])`. |
| `ConsistentRescaling.PrecomputedSucceeds` | giotto/homology/consistent.py:76-90 | In precomputed mode the kernel succeeds exactly when three things hold: the sample is square, `k < n`, and the rows' rank-`k` smallest entries have positive pairwise products. |
| `ConsistentRescaling.PrecomputedIsRescaled` | giotto/homology/consistent.py:76-90 | A successful precomputed result is the rescaled matrix whose reference distances are the rows' rank-`k` smallest entries. |
| `ConsistentRescaling.Collect` | giotto/homology/consistent.py:152-155 | The batch succeeds exactly when every sample succeeds. Its results are then the per-sample results, same length, same order. |
| `ConsistentRescaling.CollectFirstFailure` | giotto/homology/consistent.py:152-155 | A failing batch reports the error of a failing sample, and every sample before that one succeeded. |
| `ConsistentRescaling.CollectConcat` | giotto/homology/consistent.py:152-155 | Collecting a batch whole gives the same outcome, error included, as collecting two consecutive parts and joining them. |
| `ConsistentRescaling.Fit` | giotto/homology/consistent.py:117-120 | Succeeds exactly when `n_neighbor >= 1`, otherwise fails with `InvalidNeighbor(n_neighbor)`. On success the estimator is fitted with the same parameters. |
| `ConsistentRescaling.Transform` | giotto/homology/consistent.py:149-156 | Before `fit`, fails with `NotFitted`. When fitted, succeeds exactly when every sample's kernel succeeds. It then returns one square, symmetric, zero-diagonal matrix per sample, in input order, each equal to that sample's kernel result. |
| `ConsistentRescaling.TransformFirstFailure` | giotto/homology/consistent.py:152-155 | A fitted transform that fails reports the error of a sample whose kernel fails, and every earlier sample's kernel succeeded. |
| `ConsistentRescaling.TransformSplit` | giotto/homology/consistent.py:152-156 | Transforming a batch whole gives the same outcome as transforming two consecutive parts and joining the results. So how the samples are spread over jobs does not matter. |
| `NearestReference.SelfColumnReference` | giotto/homology/consistent.py:80-82 | Suppose point `i`'s rank-`k` coordinate sits only in column `i`. Then the code's lookup makes `dk[i] = Xm[i][i]`, the point's distance to itself. |
| `NearestReference.SelfReferenceDegenerate` | giotto/homology/consistent.py:80-90 | Take a feature sample whose width is at most its number of points, with a metric that is zero from a point to itself. Suppose point `i` holds its rank-`k` coordinate only in column `i`. Then the lookup succeeds, `dk[i]` is 0, and the kernel fails with `DegenerateReference`. |
| `NearestReference.SampleColumnSelectsSelf` | giotto/homology/consistent.py:59-62 | For the points `(0, 0), (1, 2), (5, 6)` with `n_neighbor = 1`, the code's lookup succeeds and gives point `(1, 2)` the reference distance `dk[1] = 0`, and the kernel fails with `DegenerateReference`. |
| `NearestReference.IntendedReference` | giotto/homology/consistent.py:18-24 | The documented reference: `dk[i]` is the rank-`k` smallest entry of row `i` of the distance matrix. It exists exactly when `k < n`. |
| `NearestReference.IntendedDistance` | giotto/homology/consistent.py:18-24 | The kernel with the documented reference. A successful result is square, symmetric and has a zero diagonal. |
| `NearestReference.AgreeOnPrecomputed` | giotto/homology/consistent.py:76-82 | In precomputed mode the documented lookup and the code's lookup give the same outcome, error included. |
| `NearestReference.RankAboveSelfIsPositive` | giotto/homology/consistent.py:18-24 | Suppose a row's only non-positive entry is a zero at the point's own column. Then every rank from 1 on holds a positive value. |
| `NearestReference.IntendedReferencePositive` | giotto/homology/consistent.py:18-24 | Take a distance matrix that is zero exactly on its diagonal. For every `1 <= k < n` it has documented reference distances, with positive pairwise products. |
| `NearestReference.IntendedSucceeds` | giotto/homology/consistent.py:18-24 | Take pairwise distinct points under a metric that is zero only from a point to itself. With the documented lookup the kernel succeeds for every `1 <= k < n`. |
| `NearestReference.ThreePointsIntended` | giotto/homology/consistent.py:57-64 | With the documented lookup, the example points `(0, 0), (1, 2), (5, 6)` rescale at `n_neighbor = 1`. |

## Left out

- `pairwise_distances` internals are not modelled: metric names, `metric_params`, input validation and forcing the Euclidean diagonal to zero. A metric is an arbitrary `dist` function, and a named metric is the choice of that function.
- joblib's `Parallel` and `n_jobs` are not modelled. Scheduling is not observable in the result, so the batch is collected sequentially in input order. `TransformSplit` states that splitting the batch does not change the outcome.
- The `np.array` stacking at line 155 is not modelled. The result is a sequence of matrices, one per sample, so samples of different sizes need no object array.
- IEEE-754 arithmetic is not modelled. Values are mathematical reals, and `math.sqrt` is the parameter `sqrt`.
- ConsistentRescaling.ConsistentDistance: reports `DegenerateReference` when a pair's reference product is not positive. The source instead stores `inf`/`nan` for a zero product and raises `ValueError` from `math.sqrt` for a negative one.
- ConsistentRescaling.Transform: requires a fitted estimator to hold a valid `n_neighbor` (`Valid`). Changing `n_neighbor` with `set_params` after `fit` is not modelled. In the source, `n_neighbor = 0` reads the rank-0 column at line 80. In precomputed mode with zero self-distances that column usually holds a zero reference distance, so line 88 yields `inf`/`nan`. A negative value reaches numpy's negative indexing at line 80 and reads a column counted from the end of the argsort.
- ConsistentRescaling.Fit: checks only the range `[1, inf)` of `n_neighbor` (line 67). The `int` type check of `validate_params` is not modelled, because the field already has type `int`.
- Sorting.Argsort: numpy's default sort is not stable; the model's insertion sort is. The order-statistic lemmas hold for any permutation satisfying `IsArgsort`, but the functions built on `Argsort` follow the stable order.
- ConsistentRescaling.ReferenceVector: on tied feature coordinates the model selects the column a stable sort ranks `k`-th, while numpy may select another tied column. So in feature mode, which `Xm` entry becomes `dk[i]`, and whether the selected column is a row of `Xm` at all, may differ from numpy on such rows. The value the column holds in the sample row is the same for every sort. In precomputed mode the reference distances are therefore unaffected (`PrecomputedReference`).
- The exception messages are not modelled: `check_is_fitted`'s `NotFittedError`, numpy's `IndexError`, and the type of the error `pairwise_distances` raises. They become the constructors of `Error`.
- The unused `y` arguments of `fit` and `transform` are not modelled.

## Findings

| source | as written | input that shows it | evidently intended | confidence | as-written member | corrected member |
|---|---|---|---|---|---|---|
| giotto/homology/consistent.py:80 | The rank-`n_neighbor` column is taken from `np.argsort(X)`, the row-wise argsort of the raw sample. For a feature sample that ranks coordinates, not points, yet the column is used as a point index into `Xm`. | The example points `(0, 0), (1, 2), (5, 6)` with `n_neighbor = 1`. The argsort of the row `(1, 2)` is `[0, 1]`, so at rank 1 it selects column 1, which as a point index is point 1 itself. Its reference distance is `Xm[1][1] = 0`, and every pair involving it divides by zero. | Per lines 18-24, `k_i` is the k-th nearest neighbour "according to d", i.e. the argsort of the rows of `Xm`. | high; not executed | `NearestReference.SampleColumnSelectsSelf` | `NearestReference.IntendedDistance` |

Notes on the finding:

- The as-written counterexample uses the taxicab metric, because `sqrt` is a
  parameter. The self-selection depends only on the coordinates, so the
  Euclidean metric of the docstring example behaves the same way.
  `NearestReference.SelfReferenceDegenerate` states the defect for any metric.
- The corrected lookup has two proved properties:
  - it agrees with the code in precomputed mode (`AgreeOnPrecomputed`);
  - it never selects a zero reference for distinct points and ranks
    `1 <= k < n` (`IntendedSucceeds`, `ThreePointsIntended`).
- `Transform` keeps the code's lookup because that is the program's
  behaviour. `IntendedDistance` is the per-sample kernel a corrected
  transformer would map over the batch.
