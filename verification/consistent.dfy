/** The consistent-rescaling transformer: for each sample of a batch, obtain a
    distance matrix, look up every point's reference distance through the
    row-wise argsort of the sample, and divide each pairwise distance by the
    geometric mean of the two reference distances. `fit` validates the rank
    hyperparameter; `transform` refuses to run before a successful `fit`. */
module ConsistentRescaling {
  import opened Matrices
  import opened Sorting
  import opened Rescaling

  /** The ways a call can fail. */
  datatype Error =
    | InvalidNeighbor(nNeighbor: int)           // `fit`: n_neighbor outside [1, inf)
    | NotFitted                                 // `transform` before a successful `fit`
    | NotSquare(rows: nat, cols: nat)           // precomputed sample that is not square
    | RankOutOfBounds(rank: nat, width: nat)    // argsort has no column `rank`
    | NeighborOutOfBounds(index: nat, size: nat) // selected column is not a row of the distance matrix
    | DegenerateReference                       // a pair's reference product is not positive

  datatype Result<T> = Success(value: T) | Failure(error: Error) {
    predicate IsFailure() {
      Failure?
    }

    function PropagateFailure<U>(): Result<U>
      requires Failure?
    {
      Failure(error)
    }

    function Extract(): T
      requires Success?
    {
      value
    }
  }

  /** One entry of the batch: `rows` points of `width` coordinates each, or,
      in precomputed mode, the rows of a distance matrix. The width is kept
      explicitly because an array with no rows still has one. */
  datatype Sample = Sample(width: nat, rows: seq<seq<real>>)

  /** Every row has the sample's width (the shape of an array). */
  predicate WellShaped(x: Sample) {
    forall i :: 0 <= i < |x.rows| ==> |x.rows[i]| == x.width
  }

  /** How the distance matrix of a sample is obtained: the sample is one
      already, or entry (i, j) is a distance function applied to rows i and j. */
  datatype Metric = Precomputed | Pairwise(dist: (seq<real>, seq<real>) -> real)

  /** Entry (i, j) of a pairwise distance matrix: the metric is applied to
      the pair with the lower-numbered point first, so the matrix is
      symmetric whatever `dist` does, and the diagonal is each point's
      distance to itself. */
  function PairDistance(dist: (seq<real>, seq<real>) -> real, rows: seq<seq<real>>, i: nat, j: nat): real
    requires i < |rows| && j < |rows|
  {
    if i <= j then dist(rows[i], rows[j]) else dist(rows[j], rows[i])
  }

  /** The sample's distance matrix. */
  function DistanceMatrix(x: Sample, metric: Metric): (r: Result<Matrix>)
    requires WellShaped(x)
    ensures r.Success? ==> IsSquare(r.value, |x.rows|)
    ensures metric.Precomputed? ==>
      && (r.Success? <==> x.width == |x.rows|)
      && (r.Success? ==> r.value == x.rows)
      && (r.Failure? ==> r.error == NotSquare(|x.rows|, x.width))
    ensures metric.Pairwise? ==>
      && r.Success?
      && Symmetric(r.value)
      && forall i, j :: 0 <= i <= j < |x.rows| ==> r.value[i][j] == metric.dist(x.rows[i], x.rows[j])
  {
    match metric
    case Precomputed =>
      if x.width == |x.rows| then Success(x.rows) else Failure(NotSquare(|x.rows|, x.width))
    case Pairwise(dist) =>
      var n := |x.rows|;
      Success(seq(n, i requires 0 <= i < n => seq(n, j requires 0 <= j < n => PairDistance(dist, x.rows, i, j))))
  }

  /** For a metric that is symmetric on the sample's points, every entry of
      the pairwise distance matrix, in either triangle, is the metric applied
      to its row and column point. */
  lemma SymmetricMetricEntries(x: Sample, dist: (seq<real>, seq<real>) -> real)
    requires WellShaped(x)
    requires forall i, j :: 0 <= i < |x.rows| && 0 <= j < |x.rows| ==> dist(x.rows[i], x.rows[j]) == dist(x.rows[j], x.rows[i])
    ensures forall i, j :: 0 <= i < |x.rows| && 0 <= j < |x.rows| ==>
      DistanceMatrix(x, Pairwise(dist)).value[i][j] == dist(x.rows[i], x.rows[j])
  {
    var xm := DistanceMatrix(x, Pairwise(dist)).value;
    forall i, j | 0 <= i < |x.rows| && 0 <= j < |x.rows|
      ensures xm[i][j] == dist(x.rows[i], x.rows[j])
    {
      if j < i {
        assert xm[j][i] == dist(x.rows[j], x.rows[i]);
      }
    }
  }

  /** Column `k` of the row-wise argsort of the sample: for every point, the
      column of its row that holds the row's rank-`k` smallest value. */
  function NeighborIndices(x: Sample, k: nat): (idx: seq<nat>)
    requires WellShaped(x) && k < x.width
    ensures |idx| == |x.rows|
    ensures forall i :: 0 <= i < |x.rows| ==>
      idx[i] < x.width && x.rows[i][idx[i]] == SortedRow(x.rows[i])[k]
  {
    var idx := seq(|x.rows|, i requires 0 <= i < |x.rows| => Argsort(x.rows[i])[k]);
    assert forall i :: 0 <= i < |x.rows| ==> x.rows[i][idx[i]] == SortedRow(x.rows[i])[k] by {
      forall i | 0 <= i < |x.rows|
        ensures x.rows[i][idx[i]] == SortedRow(x.rows[i])[k]
      {
        ArgsortSelectsOrderStatistic(x.rows[i], Argsort(x.rows[i]), k);
      }
    }
    idx
  }

  /** The first position of `idx` holding an index not below `n`, or `|idx|`
      when every index is below `n`. */
  function FirstOutside(idx: seq<nat>, n: nat): (i: nat)
    ensures i <= |idx|
    ensures forall a :: 0 <= a < i ==> idx[a] < n
    ensures i < |idx| ==> n <= idx[i]
  {
    if idx == [] then 0
    else if n <= idx[0] then 0
    else 1 + FirstOutside(idx[1..], n)
  }

  /** `v` is the entry of `drow` at a column where `row` holds its rank-`k`
      smallest value. */
  ghost predicate SelectsRank(row: seq<real>, drow: seq<real>, k: nat, v: real) {
    k < |row| && exists j :: 0 <= j < |row| && j < |drow| && row[j] == SortedRow(row)[k] && v == drow[j]
  }

  /** The reference vector: point i's entry is its distance, in `xm`, to the
      point numbered by the column that argsort ranks `k`-th in row i of the
      SAMPLE. Fails when argsort has no column `k`, or when the selected
      column is not a point of `xm`. */
  function ReferenceVector(x: Sample, xm: Matrix, k: nat): (r: Result<seq<real>>)
    requires WellShaped(x) && IsSquare(xm, |x.rows|)
    ensures x.width <= k ==> r == Failure(RankOutOfBounds(k, x.width))
    ensures r.Success? <==>
      k < x.width && forall i :: 0 <= i < |x.rows| ==> NeighborIndices(x, k)[i] < |xm|
    ensures k < x.width && r.Failure? ==>
      && r.error.NeighborOutOfBounds?
      && r.error.size == |xm| <= r.error.index
      && exists i :: 0 <= i < |x.rows| && NeighborIndices(x, k)[i] == r.error.index
    ensures r.Success? ==>
      && |r.value| == |x.rows|
      && forall i :: 0 <= i < |x.rows| ==> SelectsRank(x.rows[i], xm[i], k, r.value[i])
  {
    if x.width <= k then Failure(RankOutOfBounds(k, x.width))
    else
      var idx := NeighborIndices(x, k);
      var bad := FirstOutside(idx, |xm|);
      if bad < |idx| then Failure(NeighborOutOfBounds(idx[bad], |xm|))
      else
        var dk := seq(|idx|, i requires 0 <= i < |idx| => xm[i][idx[i]]);
        assert forall i :: 0 <= i < |x.rows| ==> SelectsRank(x.rows[i], xm[i], k, dk[i]) by {
          forall i | 0 <= i < |x.rows|
            ensures SelectsRank(x.rows[i], xm[i], k, dk[i])
          {
            var j := idx[i];
            assert x.rows[i][j] == SortedRow(x.rows[i])[k] && dk[i] == xm[i][j];
          }
        }
        Success(dk)
  }

  /** With a precomputed sample the argsort runs over the distance matrix
      itself, so every point's reference distance is the rank-`k` smallest
      entry of its own row. */
  lemma PrecomputedReference(x: Sample, k: nat)
    requires WellShaped(x) && x.width == |x.rows| && k < x.width
    ensures IsSquare(x.rows, |x.rows|)
    ensures ReferenceVector(x, x.rows, k).Success?
    ensures forall i :: 0 <= i < |x.rows| ==>
      ReferenceVector(x, x.rows, k).value[i] == SortedRow(x.rows[i])[k]
  {
    var r := ReferenceVector(x, x.rows, k);
    forall i | 0 <= i < |x.rows|
      ensures r.value[i] == SortedRow(x.rows[i])[k]
    {
      assert SelectsRank(x.rows[i], x.rows[i], k, r.value[i]);
    }
  }

  /** The per-sample kernel: distance matrix, reference vector, rescaling. */
  function ConsistentDistance(x: Sample, metric: Metric, k: nat, sqrt: real -> real): (r: Result<Matrix>)
    requires WellShaped(x) && PositiveRoot(sqrt)
    ensures r.Success? ==> IsSquare(r.value, |x.rows|) && Symmetric(r.value) && ZeroDiagonal(r.value)
    ensures r.Success? ==> k < x.width
  {
    var xm :- DistanceMatrix(x, metric);
    var dk :- ReferenceVector(x, xm, k);
    if PositivePairs(dk) then
      RescaledShape(xm, dk, sqrt);
      Success(RescaledMatrix(xm, dk, sqrt))
    else
      Failure(DegenerateReference)
  }

  /** The kernel's outcome for any metric. It fails with the distance
      matrix's error when there is none, with the lookup's error when the
      reference vector cannot be read, and otherwise with
      `DegenerateReference` exactly when some pair's reference product is
      not positive. On success it is the rescaled distance matrix. */
  lemma KernelOutcome(x: Sample, metric: Metric, k: nat, sqrt: real -> real)
    requires WellShaped(x) && PositiveRoot(sqrt)
    ensures DistanceMatrix(x, metric).Failure? ==>
      ConsistentDistance(x, metric, k, sqrt) == Failure(DistanceMatrix(x, metric).error)
    ensures DistanceMatrix(x, metric).Success? ==>
      var xm := DistanceMatrix(x, metric).value;
      && (ReferenceVector(x, xm, k).Failure? ==>
            ConsistentDistance(x, metric, k, sqrt) == Failure(ReferenceVector(x, xm, k).error))
      && (ReferenceVector(x, xm, k).Success? ==>
            var dk := ReferenceVector(x, xm, k).value;
            && (ConsistentDistance(x, metric, k, sqrt).Success? <==> PositivePairs(dk))
            && (!PositivePairs(dk) ==> ConsistentDistance(x, metric, k, sqrt) == Failure(DegenerateReference))
            && (PositivePairs(dk) ==> ConsistentDistance(x, metric, k, sqrt) == Success(RescaledMatrix(xm, dk, sqrt))))
  {
  }

  /** Point i's reference distance in feature mode: its distance to the point
      numbered by a column where its own coordinates hold their rank-`k`
      value. */
  ghost predicate FeatureReference(x: Sample, dist: (seq<real>, seq<real>) -> real, k: nat, i: nat, v: real)
    requires WellShaped(x) && i < |x.rows|
  {
    && k < x.width
    && exists c :: 0 <= c < |x.rows| && c < x.width && x.rows[i][c] == SortedRow(x.rows[i])[k] && v == PairDistance(dist, x.rows, i, c)
  }

  /** Entry (i, j) and (j, i) of `r`, for every pair i < j, are the metric's
      distance between the two points divided by the root of the product of
      their reference distances `dk`. */
  ghost predicate PairsRescaled(x: Sample, dist: (seq<real>, seq<real>) -> real, sqrt: real -> real, dk: seq<real>, r: Matrix)
    requires IsSquare(r, |x.rows|) && |dk| == |x.rows| && PositivePairs(dk) && PositiveRoot(sqrt)
  {
    forall i, j :: 0 <= i < j < |x.rows| ==>
      && r[i][j] == dist(x.rows[i], x.rows[j]) / sqrt(dk[i] * dk[j])
      && r[j][i] == dist(x.rows[i], x.rows[j]) / sqrt(dk[i] * dk[j])
  }

  /** In feature mode every successfully read reference distance is a
      distance to a point named by a rank-`k` column of the point's row. */
  lemma FeatureReferences(x: Sample, dist: (seq<real>, seq<real>) -> real, k: nat, dk: seq<real>)
    requires WellShaped(x)
    requires ReferenceVector(x, DistanceMatrix(x, Pairwise(dist)).value, k) == Success(dk)
    ensures |dk| == |x.rows|
    ensures forall i :: 0 <= i < |x.rows| ==> FeatureReference(x, dist, k, i, dk[i])
  {
    forall i | 0 <= i < |x.rows|
      ensures FeatureReference(x, dist, k, i, dk[i])
    {
      FeatureReferenceAt(x, dist, k, i, dk[i]);
    }
  }

  /** One point's reference distance read from the pairwise distance matrix. */
  lemma FeatureReferenceAt(x: Sample, dist: (seq<real>, seq<real>) -> real, k: nat, i: nat, v: real)
    requires WellShaped(x) && i < |x.rows|
    requires SelectsRank(x.rows[i], DistanceMatrix(x, Pairwise(dist)).value[i], k, v)
    ensures FeatureReference(x, dist, k, i, v)
  {
    var xm := DistanceMatrix(x, Pairwise(dist)).value;
    var c :| 0 <= c < |x.rows[i]| && c < |xm[i]| && x.rows[i][c] == SortedRow(x.rows[i])[k] && v == xm[i][c];
    assert v == PairDistance(dist, x.rows, i, c);
  }

  /** A successful feature-mode result, entry by entry: for i < j, both
      (i, j) and (j, i) are the metric's distance between points i and j
      divided by the root of the product of their reference distances, each
      reference distance read at a rank-`k` column of the point's own row,
      and every pair's reference product positive. */
  lemma PairwiseEntries(x: Sample, dist: (seq<real>, seq<real>) -> real, k: nat, sqrt: real -> real, r: Matrix)
    requires WellShaped(x) && PositiveRoot(sqrt)
    requires ConsistentDistance(x, Pairwise(dist), k, sqrt) == Success(r)
    ensures IsSquare(r, |x.rows|)
    ensures exists dk: seq<real> ::
      && |dk| == |x.rows|
      && PositivePairs(dk)
      && (forall i :: 0 <= i < |x.rows| ==> FeatureReference(x, dist, k, i, dk[i]))
      && PairsRescaled(x, dist, sqrt, dk, r)
  {
    KernelOutcome(x, Pairwise(dist), k, sqrt);
    var xm := DistanceMatrix(x, Pairwise(dist)).value;
    var dk := ReferenceVector(x, xm, k).value;
    FeatureReferences(x, dist, k, dk);
    Entries(xm, dk, sqrt);
    assert PairsRescaled(x, dist, sqrt, dk, r);
  }

  /** Every point's rank-`k` smallest row entry. */
  ghost function OrderStatistics(x: Sample, k: nat): (d: seq<real>)
    requires WellShaped(x) && k < x.width
    ensures |d| == |x.rows|
  {
    seq(|x.rows|, i requires 0 <= i < |x.rows| => SortedRow(x.rows[i])[k])
  }

  /** In precomputed mode the kernel succeeds exactly when the sample is
      square, the rank names a column, and the rows' rank-`k` smallest
      entries have positive pairwise products. */
  lemma PrecomputedSucceeds(x: Sample, k: nat, sqrt: real -> real)
    requires WellShaped(x) && PositiveRoot(sqrt)
    ensures ConsistentDistance(x, Precomputed, k, sqrt).Success? <==>
      x.width == |x.rows| && k < x.width && PositivePairs(OrderStatistics(x, k))
  {
    if x.width == |x.rows| && k < x.width {
      PrecomputedReference(x, k);
      assert ReferenceVector(x, x.rows, k).value == OrderStatistics(x, k);
    }
  }

  /** A successful precomputed rescaling is the kernel applied to the sample
      with the rows' rank-`k` smallest entries as reference distances. */
  lemma PrecomputedIsRescaled(x: Sample, k: nat, sqrt: real -> real, r: Matrix)
    requires WellShaped(x) && PositiveRoot(sqrt)
    requires ConsistentDistance(x, Precomputed, k, sqrt) == Success(r)
    ensures x.width == |x.rows| && k < x.width && IsSquare(x.rows, |x.rows|)
    ensures PositivePairs(OrderStatistics(x, k))
    ensures r == RescaledMatrix(x.rows, OrderStatistics(x, k), sqrt)
  {
    PrecomputedSucceeds(x, k, sqrt);
    PrecomputedReference(x, k);
    assert ReferenceVector(x, x.rows, k).value == OrderStatistics(x, k);
  }

  /** Gathers per-sample outcomes in order into the outcome of the batch: all
      the results when every sample succeeded, otherwise the error of the
      first sample that failed. */
  function Collect<T>(rs: seq<Result<T>>): (r: Result<seq<T>>)
    ensures r.Success? <==> forall i :: 0 <= i < |rs| ==> rs[i].Success?
    ensures r.Success? ==> |r.value| == |rs| && forall i :: 0 <= i < |rs| ==> r.value[i] == rs[i].value
  {
    if rs == [] then Success([])
    else
      var first :- rs[0];
      var rest :- Collect(rs[1..]);
      Success([first] + rest)
  }

  /** A failing batch reports the error of its first failing sample: some
      sample fails with exactly that error and every sample before it
      succeeds. */
  lemma {:induction false} CollectFirstFailure<T>(rs: seq<Result<T>>)
    requires Collect(rs).Failure?
    ensures exists i ::
      && 0 <= i < |rs|
      && rs[i] == Failure(Collect(rs).error)
      && forall a :: 0 <= a < i ==> rs[a].Success?
  {
    if rs[0].Success? {
      var tail := rs[1..];
      CollectFirstFailure(tail);
      var i :|
        && 0 <= i < |tail|
        && tail[i] == Failure(Collect(tail).error)
        && forall a :: 0 <= a < i ==> tail[a].Success?;
      assert rs[i + 1] == tail[i];
      forall a | 0 <= a < i + 1
        ensures rs[a].Success?
      {
        if a > 0 {
          assert rs[a] == tail[a - 1];
        }
      }
    }
  }

  /** The outcome of a batch made of two consecutive parts, from the outcomes
      of the parts: the first part's error, else the second part's error, else
      both results side by side. */
  function Join<T>(ra: Result<seq<T>>, rb: Result<seq<T>>): Result<seq<T>> {
    match ra
    case Failure(e) => Failure(e)
    case Success(va) =>
      match rb
      case Failure(e) => Failure(e)
      case Success(vb) => Success(va + vb)
  }

  /** Splitting a batch into two consecutive parts, gathering each part on its
      own and joining the outcomes gives the outcome of the whole batch, error
      included: the result does not depend on how the samples are distributed
      over workers. */
  lemma {:induction false} CollectConcat<T>(a: seq<Result<T>>, b: seq<Result<T>>)
    ensures Collect(a + b) == Join(Collect(a), Collect(b))
    decreases |a|
  {
    if a == [] {
      assert a + b == b;
      if Collect(b).Success? {
        assert [] + Collect(b).value == Collect(b).value;
      }
    } else {
      assert (a + b)[0] == a[0];
      assert (a + b)[1..] == a[1..] + b;
      CollectConcat(a[1..], b);
      var rest, rb := Collect(a[1..]), Collect(b);
      if a[0].Success? && rest.Success? && rb.Success? {
        assert [a[0].value] + (rest.value + rb.value) == ([a[0].value] + rest.value) + rb.value;
      }
    }
  }

  /** The kernel's outcome for every sample of the batch, in order. */
  function Kernels(batch: seq<Sample>, metric: Metric, k: nat, sqrt: real -> real): (rs: seq<Result<Matrix>>)
    requires PositiveRoot(sqrt) && forall i :: 0 <= i < |batch| ==> WellShaped(batch[i])
    ensures |rs| == |batch|
    ensures forall i :: 0 <= i < |batch| ==> rs[i] == ConsistentDistance(batch[i], metric, k, sqrt)
  {
    seq(|batch|, i requires 0 <= i < |batch| => ConsistentDistance(batch[i], metric, k, sqrt))
  }

  /** The transformer's hyperparameters. */
  datatype Params = Params(metric: Metric, nNeighbor: int)

  /** The transformer: its hyperparameters and whether `fit` has succeeded. */
  datatype Estimator = Estimator(params: Params, isFitted: bool)

  /** A fitted transformer holds a validated rank. */
  predicate Valid(e: Estimator) {
    e.isFitted ==> 1 <= e.params.nNeighbor
  }

  /** Validates the rank and marks the transformer fitted. */
  function Fit(e: Estimator): (r: Result<Estimator>)
    ensures r.Success? <==> 1 <= e.params.nNeighbor
    ensures r.Success? ==> r.value.isFitted && r.value.params == e.params && Valid(r.value)
    ensures r.Failure? ==> r.error == InvalidNeighbor(e.params.nNeighbor)
  {
    if e.params.nNeighbor < 1 then Failure(InvalidNeighbor(e.params.nNeighbor))
    else Success(e.(isFitted := true))
  }

  /** Rescales every sample of the batch, in input order, once fitted. */
  function Transform(e: Estimator, batch: seq<Sample>, sqrt: real -> real): (r: Result<seq<Matrix>>)
    requires Valid(e) && PositiveRoot(sqrt)
    requires forall i :: 0 <= i < |batch| ==> WellShaped(batch[i])
    ensures !e.isFitted ==> r == Failure(NotFitted)
    ensures e.isFitted ==> (r.Success? <==>
      forall i :: 0 <= i < |batch| ==> ConsistentDistance(batch[i], e.params.metric, e.params.nNeighbor, sqrt).Success?)
    ensures r.Success? ==> e.isFitted && |r.value| == |batch|
    ensures r.Success? ==> forall i :: 0 <= i < |batch| ==>
      && IsSquare(r.value[i], |batch[i].rows|)
      && Symmetric(r.value[i])
      && ZeroDiagonal(r.value[i])
      && r.value[i] == ConsistentDistance(batch[i], e.params.metric, e.params.nNeighbor, sqrt).value
  {
    if !e.isFitted then Failure(NotFitted)
    else Collect(Kernels(batch, e.params.metric, e.params.nNeighbor, sqrt))
  }

  /** A fitted transformer that fails on a batch reports the error of the
      first sample whose kernel fails; every earlier sample succeeded. */
  lemma TransformFirstFailure(e: Estimator, batch: seq<Sample>, sqrt: real -> real)
    requires Valid(e) && PositiveRoot(sqrt)
    requires forall i :: 0 <= i < |batch| ==> WellShaped(batch[i])
    requires e.isFitted && Transform(e, batch, sqrt).Failure?
    ensures exists i ::
      && 0 <= i < |batch|
      && ConsistentDistance(batch[i], e.params.metric, e.params.nNeighbor, sqrt)
         == Failure(Transform(e, batch, sqrt).error)
      && forall a :: 0 <= a < i ==> ConsistentDistance(batch[a], e.params.metric, e.params.nNeighbor, sqrt).Success?
  {
    CollectFirstFailure(Kernels(batch, e.params.metric, e.params.nNeighbor, sqrt));
  }

  /** Transforming a batch in two consecutive parts and joining the outcomes
      gives the outcome of transforming it whole. */
  lemma TransformSplit(e: Estimator, a: seq<Sample>, b: seq<Sample>, sqrt: real -> real)
    requires Valid(e) && PositiveRoot(sqrt) && e.isFitted
    requires forall i :: 0 <= i < |a| ==> WellShaped(a[i])
    requires forall i :: 0 <= i < |b| ==> WellShaped(b[i])
    ensures forall i :: 0 <= i < |a + b| ==> WellShaped((a + b)[i])
    ensures Transform(e, a + b, sqrt) == Join(Transform(e, a, sqrt), Transform(e, b, sqrt))
  {
    var metric, k := e.params.metric, e.params.nNeighbor;
    assert Kernels(a + b, metric, k, sqrt) == Kernels(a, metric, k, sqrt) + Kernels(b, metric, k, sqrt);
    CollectConcat(Kernels(a, metric, k, sqrt), Kernels(b, metric, k, sqrt));
  }
}
