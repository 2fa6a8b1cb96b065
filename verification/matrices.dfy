/** Square real matrices stored row by row, and the shape facts the rescaling
    transform promises about its output. */
module Matrices {

  /** A dense real matrix, one sequence per row. */
  type Matrix = seq<seq<real>>

  /** `m` has `n` rows of `n` entries each. */
  predicate IsSquare(m: Matrix, n: nat) {
    |m| == n && forall i :: 0 <= i < n ==> |m[i]| == n
  }

  /** Entry (i, j) equals entry (j, i), exactly. */
  predicate Symmetric(m: Matrix)
    requires IsSquare(m, |m|)
  {
    forall i, j :: 0 <= i < |m| && 0 <= j < |m| ==> m[i][j] == m[j][i]
  }

  /** Every diagonal entry is zero. */
  predicate ZeroDiagonal(m: Matrix)
    requires IsSquare(m, |m|)
  {
    forall i :: 0 <= i < |m| ==> m[i][i] == 0.0
  }
}
