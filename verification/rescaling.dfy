/** The rescaling kernel: every off-diagonal distance divided by the geometric
    mean of the two points' reference distances. The imperative method follows
    the source's loop over the strict upper triangle of a zero matrix followed
    by the transpose-add; the entrywise function is its specification. */
module Rescaling {
  import opened Matrices

  /** What the kernel needs of the square root it is given: a positive
      argument has a nonzero (indeed positive) root. */
  ghost predicate PositiveRoot(sqrt: real -> real) {
    forall x :: 0.0 < x ==> 0.0 < sqrt(x)
  }

  /** `sqrt` is the non-negative square root on the non-negative reals. */
  ghost predicate IsSqrt(sqrt: real -> real) {
    forall x :: 0.0 <= x ==> 0.0 <= sqrt(x) && sqrt(x) * sqrt(x) == x
  }

  /** Every pair of distinct points has a positive product of reference
      distances, so no pair's divisor is zero and no root is of a negative. */
  predicate PositivePairs(dk: seq<real>) {
    forall i, j :: 0 <= i < j < |dk| ==> 0.0 < dk[i] * dk[j]
  }

  /** The geometric mean of two reference distances, the divisor of a pair. */
  function GeometricMean(sqrt: real -> real, a: real, b: real): real {
    sqrt(a * b)
  }

  /** The rescaled distance of the pair i < j. */
  function Scaled(xm: Matrix, dk: seq<real>, sqrt: real -> real, i: nat, j: nat): real
    requires IsSquare(xm, |dk|) && PositivePairs(dk) && PositiveRoot(sqrt)
    requires i < j < |dk|
  {
    xm[i][j] / GeometricMean(sqrt, dk[i], dk[j])
  }

  /** The rescaled matrix, entry by entry: the pair's rescaled distance above
      the diagonal, the same value mirrored below it (read from `xm[j][i]`'s
      partner `xm[i][j]`, never from `xm[j][i]`), and zero on the diagonal. */
  function RescaledMatrix(xm: Matrix, dk: seq<real>, sqrt: real -> real): (r: Matrix)
    requires IsSquare(xm, |dk|) && PositivePairs(dk) && PositiveRoot(sqrt)
    ensures IsSquare(r, |dk|)
  {
    var n := |dk|;
    seq(n, i requires 0 <= i < n => seq(n, j requires 0 <= j < n => Cell(xm, dk, sqrt, i, j)))
  }

  /** Entry (i, j) of the rescaled matrix. */
  function Cell(xm: Matrix, dk: seq<real>, sqrt: real -> real, i: nat, j: nat): real
    requires IsSquare(xm, |dk|) && PositivePairs(dk) && PositiveRoot(sqrt)
    requires i < |dk| && j < |dk|
  {
    if i < j then Scaled(xm, dk, sqrt, i, j)
    else if j < i then Scaled(xm, dk, sqrt, j, i)
    else 0.0
  }

  /** The pair i < j reads its value from `xm[i][j]` in both triangles of the
      output. */
  lemma Entries(xm: Matrix, dk: seq<real>, sqrt: real -> real)
    requires IsSquare(xm, |dk|) && PositivePairs(dk) && PositiveRoot(sqrt)
    ensures forall i, j :: 0 <= i < j < |dk| ==>
      && RescaledMatrix(xm, dk, sqrt)[i][j] == xm[i][j] / GeometricMean(sqrt, dk[i], dk[j])
      && RescaledMatrix(xm, dk, sqrt)[j][i] == xm[i][j] / GeometricMean(sqrt, dk[i], dk[j])
  {
  }

  /** The rescaled matrix is a distance matrix shape: symmetric, with zeros
      on the diagonal, whatever `xm` holds below or on its diagonal. */
  lemma RescaledShape(xm: Matrix, dk: seq<real>, sqrt: real -> real)
    requires IsSquare(xm, |dk|) && PositivePairs(dk) && PositiveRoot(sqrt)
    ensures Symmetric(RescaledMatrix(xm, dk, sqrt)) && ZeroDiagonal(RescaledMatrix(xm, dk, sqrt))
  {
  }

  /** The kernel as the source runs it: fill the strict upper triangle of a
      zero matrix, then add its transpose. */
  method Rescale(xm: Matrix, dk: seq<real>, sqrt: real -> real) returns (out: Matrix)
    requires IsSquare(xm, |dk|) && PositivePairs(dk) && PositiveRoot(sqrt)
    ensures out == RescaledMatrix(xm, dk, sqrt)
  {
    var n := |dk|;
    var xc := new real[n, n]((a, b) => 0.0);
    var i := 0;
    while i < n
      invariant 0 <= i <= n
      invariant forall a, b :: 0 <= a < n && 0 <= b < n ==>
        xc[a, b] == (if a < i && a < b then Scaled(xm, dk, sqrt, a, b) else 0.0)
    {
      var j := i + 1;
      while j < n
        invariant i < j <= n
        invariant forall a, b :: 0 <= a < n && 0 <= b < n ==>
          xc[a, b] == (if (a < i && a < b) || (a == i && i < b < j) then Scaled(xm, dk, sqrt, a, b) else 0.0)
      {
        xc[i, j] := Scaled(xm, dk, sqrt, i, j);
        j := j + 1;
      }
      i := i + 1;
    }
    out := seq(n, a requires 0 <= a < n reads xc =>
      seq(n, b requires 0 <= b < n reads xc => xc[a, b] + xc[b, a]));
    forall a | 0 <= a < n
      ensures out[a] == RescaledMatrix(xm, dk, sqrt)[a]
    {
    }
  }

  /** The non-negative root of a square is unique. */
  lemma RootUnique(a: real, b: real)
    requires 0.0 <= a && 0.0 <= b && a * a == b * b
    ensures a == b
  {
    assert (a - b) * (a + b) == a * a - b * b;
    if a + b == 0.0 {
    } else {
      assert a - b == 0.0;
    }
  }

  /** Scaling the argument by c * c scales the root by c. */
  lemma SqrtScale(sqrt: real -> real, c: real, x: real, y: real)
    requires IsSqrt(sqrt) && 0.0 < c && 0.0 <= x && y == c * c * x
    ensures sqrt(y) == c * sqrt(x)
  {
    var s, t := sqrt(x), sqrt(y);
    assert (c * s) * (c * s) == c * c * (s * s);
    RootUnique(t, c * s);
  }

  lemma ProductScale(c: real, x: real, y: real, x': real, y': real)
    requires x' == c * x && y' == c * y
    ensures x' * y' == c * c * (x * y)
  {
  }

  /** A true square root is positive on positive arguments. */
  lemma SqrtIsPositiveRoot(sqrt: real -> real)
    requires IsSqrt(sqrt)
    ensures PositiveRoot(sqrt)
  {
  }

  lemma DivideTwice(x: real, s: real, s': real, c: real)
    requires s != 0.0 && c != 0.0 && s' == c * s
    ensures x / s' == (x / s) / c
  {
  }

  /** One entry under reference distances scaled by `c > 0`. */
  lemma ScaleCell(xm: Matrix, dk: seq<real>, dk': seq<real>, sqrt: real -> real, c: real, i: nat, j: nat)
    requires IsSquare(xm, |dk|) && PositivePairs(dk) && IsSqrt(sqrt) && 0.0 < c
    requires |dk'| == |dk| && PositivePairs(dk') && i < |dk| && j < |dk|
    requires dk'[i] == c * dk[i] && dk'[j] == c * dk[j]
    ensures PositiveRoot(sqrt)
    ensures Cell(xm, dk', sqrt, i, j) == Cell(xm, dk, sqrt, i, j) / c
  {
    SqrtIsPositiveRoot(sqrt);
    if i < j {
      ScaleQuotient(sqrt, c, xm[i][j], dk[i], dk[j], dk'[i], dk'[j]);
    } else if j < i {
      ScaleQuotient(sqrt, c, xm[j][i], dk[j], dk[i], dk'[j], dk'[i]);
    }
  }

  /** One pair's quotient under reference distances scaled by `c > 0`. */
  lemma ScaleQuotient(sqrt: real -> real, c: real, v: real, x: real, y: real, x': real, y': real)
    requires IsSqrt(sqrt) && 0.0 < c && 0.0 < x * y
    requires x' == c * x && y' == c * y
    ensures v / GeometricMean(sqrt, x', y') == (v / GeometricMean(sqrt, x, y)) / c
  {
    MeanScale(sqrt, c, x, y, x', y');
    DivideTwice(v, GeometricMean(sqrt, x, y), GeometricMean(sqrt, x', y'), c);
  }

  /** Scaling both arguments by `c > 0` scales their geometric mean by `c`. */
  lemma MeanScale(sqrt: real -> real, c: real, x: real, y: real, x': real, y': real)
    requires IsSqrt(sqrt) && 0.0 < c && 0.0 < x * y
    requires x' == c * x && y' == c * y
    ensures 0.0 < GeometricMean(sqrt, x, y)
    ensures GeometricMean(sqrt, x', y') == c * GeometricMean(sqrt, x, y)
  {
    ProductScale(c, x, y, x', y');
    SqrtScale(sqrt, c, x * y, x' * y');
  }

  /** Multiplying every reference distance by c > 0 divides every rescaled
      entry by c. */
  lemma ScaleReferences(xm: Matrix, dk: seq<real>, dk': seq<real>, sqrt: real -> real, c: real)
    requires IsSquare(xm, |dk|) && PositivePairs(dk) && IsSqrt(sqrt) && 0.0 < c
    requires |dk'| == |dk| && forall i :: 0 <= i < |dk| ==> dk'[i] == c * dk[i]
    ensures PositiveRoot(sqrt) && PositivePairs(dk')
    ensures forall i, j :: 0 <= i < |dk| && 0 <= j < |dk| ==>
      RescaledMatrix(xm, dk', sqrt)[i][j] == RescaledMatrix(xm, dk, sqrt)[i][j] / c
  {
    forall i, j | 0 <= i < j < |dk|
      ensures 0.0 < dk'[i] * dk'[j]
    {
      ProductScale(c, dk[i], dk[j], dk'[i], dk'[j]);
    }
    var r, r' := RescaledMatrix(xm, dk, sqrt), RescaledMatrix(xm, dk', sqrt);
    forall i, j | 0 <= i < |dk| && 0 <= j < |dk|
      ensures r'[i][j] == r[i][j] / c
    {
      ScaleCell(xm, dk, dk', sqrt, c, i, j);
    }
  }

  /** The output depends on `xm` only through its strict upper triangle: two
      matrices that agree above the diagonal rescale to the same matrix. */
  lemma UpperTriangleOnly(xm: Matrix, xm': Matrix, dk: seq<real>, sqrt: real -> real)
    requires IsSquare(xm, |dk|) && IsSquare(xm', |dk|) && PositivePairs(dk) && PositiveRoot(sqrt)
    requires forall i, j :: 0 <= i < j < |dk| ==> xm[i][j] == xm'[i][j]
    ensures RescaledMatrix(xm, dk, sqrt) == RescaledMatrix(xm', dk, sqrt)
  {
    var r, r' := RescaledMatrix(xm, dk, sqrt), RescaledMatrix(xm', dk, sqrt);
    forall i | 0 <= i < |dk|
      ensures r[i] == r'[i]
    {
    }
  }
}
