/** The reference lookup the transformer's documentation describes: point i's
    reference distance is its distance to its rank-`k` nearest point, ranks
    counted in row i of the DISTANCE MATRIX. The code instead ranks the
    columns of the sample itself; the two coincide in precomputed mode and
    differ on feature samples, where the code's lookup can select the point
    itself and divide by a zero reference distance. */
module NearestReference {
  import opened Matrices
  import opened Sorting
  import opened Rescaling
  import opened ConsistentRescaling

  /** Every point's rank-`k` smallest distance, read through the row-wise
      argsort of the distance matrix. Fails when rows have no rank `k`. */
  function IntendedReference(xm: Matrix, k: nat): (r: Result<seq<real>>)
    requires IsSquare(xm, |xm|)
    ensures r.Success? <==> k < |xm|
    ensures r.Failure? ==> r.error == RankOutOfBounds(k, |xm|)
    ensures r.Success? ==>
      && |r.value| == |xm|
      && forall i :: 0 <= i < |xm| ==> r.value[i] == SortedRow(xm[i])[k]
  {
    if |xm| <= k then Failure(RankOutOfBounds(k, |xm|))
    else
      var dk := seq(|xm|, i requires 0 <= i < |xm| => xm[i][Argsort(xm[i])[k]]);
      assert forall i :: 0 <= i < |xm| ==> dk[i] == SortedRow(xm[i])[k] by {
        forall i | 0 <= i < |xm|
          ensures dk[i] == SortedRow(xm[i])[k]
        {
          ArgsortSelectsOrderStatistic(xm[i], Argsort(xm[i]), k);
        }
      }
      Success(dk)
  }

  /** The per-sample kernel with the documented reference lookup. */
  function IntendedDistance(x: Sample, metric: Metric, k: nat, sqrt: real -> real): (r: Result<Matrix>)
    requires WellShaped(x) && PositiveRoot(sqrt)
    ensures r.Success? ==> IsSquare(r.value, |x.rows|) && Symmetric(r.value) && ZeroDiagonal(r.value)
    ensures r.Success? ==> k < |x.rows|
  {
    var xm :- DistanceMatrix(x, metric);
    var dk :- IntendedReference(xm, k);
    if PositivePairs(dk) then
      RescaledShape(xm, dk, sqrt);
      Success(RescaledMatrix(xm, dk, sqrt))
    else
      Failure(DegenerateReference)
  }

  /** In precomputed mode the documented lookup and the code's lookup give the
      same outcome, error included. */
  lemma AgreeOnPrecomputed(x: Sample, k: nat, sqrt: real -> real)
    requires WellShaped(x) && PositiveRoot(sqrt)
    ensures IntendedDistance(x, Precomputed, k, sqrt) == ConsistentDistance(x, Precomputed, k, sqrt)
  {
    if x.width == |x.rows| && k < x.width {
      PrecomputedReference(x, k);
      var dk := ReferenceVector(x, x.rows, k).value;
      assert IntendedReference(x.rows, k).value == dk;
    }
  }

  /** In a row whose only non-positive entry is a zero at the point's own
      column, every rank from 1 on holds a positive value. */
  lemma RankAboveSelfIsPositive(row: seq<real>, self: nat, k: nat)
    requires self < |row| && row[self] == 0.0
    requires forall j :: 0 <= j < |row| && j != self ==> 0.0 < row[j]
    requires 1 <= k < |row|
    ensures 0.0 < SortedRow(row)[k]
  {
    var p := Argsort(row);
    ArgsortSelectsOrderStatistic(row, p, k);
    if p[k] == self {
      assert row[p[0]] <= row[p[k]];
      assert p[0] == self;
      ArgsortDistinct(row, p, 0, k);
      assert false;
    }
  }

  /** A distance matrix that is zero exactly on its diagonal gives positive
      documented reference distances for every rank 1 <= k < size. */
  lemma IntendedReferencePositive(xm: Matrix, k: nat)
    requires IsSquare(xm, |xm|) && 1 <= k < |xm|
    requires forall i, j :: 0 <= i < |xm| && 0 <= j < |xm| ==> (xm[i][j] == 0.0 <==> i == j)
    requires forall i, j :: 0 <= i < |xm| && 0 <= j < |xm| ==> 0.0 <= xm[i][j]
    ensures IntendedReference(xm, k).Success?
    ensures PositivePairs(IntendedReference(xm, k).value)
  {
    var dk := IntendedReference(xm, k).value;
    forall i | 0 <= i < |xm|
      ensures 0.0 < dk[i]
    {
      RankAboveSelfIsPositive(xm[i], i, k);
    }
    forall i, j | 0 <= i < j < |dk|
      ensures 0.0 < dk[i] * dk[j]
    {
      PositiveProduct(dk[i], dk[j]);
    }
  }

  /** With the documented lookup, a feature sample of pairwise distinct points
      under a metric that is zero exactly on a point and itself always
      rescales for every rank 1 <= k < number of points: no reference
      distance is zero. */
  lemma IntendedSucceeds(x: Sample, dist: (seq<real>, seq<real>) -> real, k: nat, sqrt: real -> real)
    requires WellShaped(x) && PositiveRoot(sqrt)
    requires forall i :: 0 <= i < |x.rows| ==> dist(x.rows[i], x.rows[i]) == 0.0
    requires forall i, j :: 0 <= i < |x.rows| && 0 <= j < |x.rows| && i != j ==> 0.0 < dist(x.rows[i], x.rows[j])
    requires 1 <= k < |x.rows|
    ensures IntendedDistance(x, Pairwise(dist), k, sqrt).Success?
  {
    IntendedReferencePositive(DistanceMatrix(x, Pairwise(dist)).value, k);
  }

  lemma ZeroProduct(a: real, b: real)
    requires a == 0.0 || b == 0.0
    ensures a * b == 0.0
  {
  }

  lemma PositiveProduct(a: real, b: real)
    requires 0.0 < a && 0.0 < b
    ensures 0.0 < a * b
  {
  }

  /** The defect of the code's lookup: when the only column of point i's
      coordinates that holds their rank-`k` value is column i itself, the
      point's reference distance is its distance to itself. */
  lemma SelfColumnReference(x: Sample, xm: Matrix, k: nat, i: nat)
    requires WellShaped(x) && IsSquare(xm, |x.rows|) && i < |x.rows|
    requires ReferenceVector(x, xm, k).Success?
    requires forall j :: 0 <= j < x.width && x.rows[i][j] == SortedRow(x.rows[i])[k] ==> j == i
    ensures ReferenceVector(x, xm, k).value[i] == xm[i][i]
  {
    assert SelectsRank(x.rows[i], xm[i], k, ReferenceVector(x, xm, k).value[i]);
  }

  /** The absolute value. */
  function Abs(v: real): (a: real)
    ensures 0.0 <= a && (a == v || a == -v)
  {
    if v < 0.0 then -v else v
  }

  /** The taxicab distance between two points of the plane (zero for rows of
      any other length, which the counterexample never uses). */
  function PlaneTaxicab(a: seq<real>, b: seq<real>): (d: real)
    ensures |a| == 2 && |b| == 2 ==> d == Abs(a[0] - b[0]) + Abs(a[1] - b[1])
    ensures a == b ==> d == 0.0
  {
    if |a| == 2 && |b| == 2 then Abs(a[0] - b[0]) + Abs(a[1] - b[1]) else 0.0
  }

  /** The three points (0, 0), (1, 2), (5, 6). */
  function ThreePoints(): (x: Sample)
    ensures WellShaped(x) && |x.rows| == 3
  {
    Sample(2, [[0.0, 0.0], [1.0, 2.0], [5.0, 6.0]])
  }

  /** The three points are pairwise at positive taxicab distance. */
  lemma ThreePointsSeparated()
    ensures forall i, j :: 0 <= i < 3 && 0 <= j < 3 && i != j ==>
      0.0 < PlaneTaxicab(ThreePoints().rows[i], ThreePoints().rows[j])
  {
    var p := ThreePoints().rows;
    assert PlaneTaxicab(p[0], p[1]) == 3.0 && PlaneTaxicab(p[1], p[0]) == 3.0;
    assert PlaneTaxicab(p[0], p[2]) == 11.0 && PlaneTaxicab(p[2], p[0]) == 11.0;
    assert PlaneTaxicab(p[1], p[2]) == 8.0 && PlaneTaxicab(p[2], p[1]) == 8.0;
  }

  /** Point (1, 2) holds its rank-1 value in its own column 1 only. */
  lemma SecondPointRankColumn()
    ensures forall j :: 0 <= j < ThreePoints().width && ThreePoints().rows[1][j] == SortedRow(ThreePoints().rows[1])[1] ==> j == 1
  {
    var row := ThreePoints().rows[1];
    assert row == [1.0, 2.0];
    SortedUnique(SortedRow(row), row);
  }

  /** On the three points (0, 0), (1, 2), (5, 6) with rank 1, the code's lookup
      ranks the coordinates of point (1, 2), picks column 1 and so reads the
      point's distance to ITSELF: a zero reference distance, whatever the
      tie-breaking of the sort, so the kernel cannot rescale. */
  lemma SampleColumnSelectsSelf(sqrt: real -> real)
    requires PositiveRoot(sqrt)
    ensures ReferenceVector(ThreePoints(), DistanceMatrix(ThreePoints(), Pairwise(PlaneTaxicab)).value, 1).Success?
    ensures ReferenceVector(ThreePoints(), DistanceMatrix(ThreePoints(), Pairwise(PlaneTaxicab)).value, 1).value[1] == 0.0
    ensures ConsistentDistance(ThreePoints(), Pairwise(PlaneTaxicab), 1, sqrt) == Failure(DegenerateReference)
  {
    SecondPointRankColumn();
    SelfReferenceDegenerate(ThreePoints(), PlaneTaxicab, 1, 1, sqrt);
  }

  /** The code's lookup on a feature sample whose width does not exceed its
      number of points: once point i's rank-`k` coordinate sits only in column
      i, its reference distance is its zero distance to itself and the kernel
      cannot rescale. */
  lemma SelfReferenceDegenerate(x: Sample, dist: (seq<real>, seq<real>) -> real, k: nat, i: nat, sqrt: real -> real)
    requires WellShaped(x) && PositiveRoot(sqrt)
    requires k < x.width <= |x.rows| && 2 <= |x.rows| && i < |x.rows|
    requires dist(x.rows[i], x.rows[i]) == 0.0
    requires forall j :: 0 <= j < x.width && x.rows[i][j] == SortedRow(x.rows[i])[k] ==> j == i
    ensures ReferenceVector(x, DistanceMatrix(x, Pairwise(dist)).value, k).Success?
    ensures ReferenceVector(x, DistanceMatrix(x, Pairwise(dist)).value, k).value[i] == 0.0
    ensures ConsistentDistance(x, Pairwise(dist), k, sqrt) == Failure(DegenerateReference)
  {
    var xm := DistanceMatrix(x, Pairwise(dist)).value;
    assert ReferenceVector(x, xm, k).Success?;
    var dk := ReferenceVector(x, xm, k).value;
    SelfColumnReference(x, xm, k, i);
    if i == 0 {
      ZeroProduct(dk[0], dk[1]);
    } else {
      ZeroProduct(dk[0], dk[i]);
    }
    KernelOutcome(x, Pairwise(dist), k, sqrt);
  }

  /** The documented lookup rescales the same three points at rank 1. */
  lemma ThreePointsIntended(sqrt: real -> real)
    requires PositiveRoot(sqrt)
    ensures IntendedDistance(ThreePoints(), Pairwise(PlaneTaxicab), 1, sqrt).Success?
  {
    ThreePointsSeparated();
    IntendedSucceeds(ThreePoints(), PlaneTaxicab, 1, sqrt);
  }
}
