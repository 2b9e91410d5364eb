/** Real vectors and matrices (matrices are sequences of rows), with the sums the
    COOP contraction is built from and the facts about them that the model needs. */
module Matrices {

  /** `M` has `rows` rows, each of length `cols`. */
  predicate IsMatrix(M: seq<seq<real>>, rows: nat, cols: nat) {
    |M| == rows && forall a :: 0 <= a < rows ==> |M[a]| == cols
  }

  /** Sum of the entries of a vector. */
  function Sum(s: seq<real>): real {
    if |s| == 0 then 0.0 else Sum(s[..|s| - 1]) + s[|s| - 1]
  }

  /** Sum of all entries of a matrix (`np.sum` of a 2-D array). */
  function SumAll(M: seq<seq<real>>): real {
    if |M| == 0 then 0.0 else SumAll(M[..|M| - 1]) + Sum(M[|M| - 1])
  }

  /** Inner product of two vectors of equal length. */
  function Dot(u: seq<real>, v: seq<real>): real
    requires |u| == |v|
  {
    if |u| == 0 then 0.0 else Dot(u[..|u| - 1], v[..|v| - 1]) + u[|u| - 1] * v[|v| - 1]
  }

  /** Matrix-vector product `R · v`. */
  function MatVec(R: seq<seq<real>>, v: seq<real>): seq<real>
    requires forall a :: 0 <= a < |R| ==> |R[a]| == |v|
  {
    seq(|R|, a requires 0 <= a < |R| => Dot(R[a], v))
  }

  /** The bilinear form `uᵀ · R · v` (the matrix triple product). */
  function Bilinear(u: seq<real>, R: seq<seq<real>>, v: seq<real>): real
    requires IsMatrix(R, |u|, |v|)
  {
    Dot(u, MatVec(R, v))
  }

  /** Outer product `u ⊗ v` (`np.tensordot(u, v, 0)`). */
  function Outer(u: seq<real>, v: seq<real>): seq<seq<real>> {
    seq(|u|, a requires 0 <= a < |u| => seq(|v|, b requires 0 <= b < |v| => u[a] * v[b]))
  }

  /** Elementwise product of two matrices of the same shape (`*` on 2-D arrays). */
  function Hadamard(M: seq<seq<real>>, N: seq<seq<real>>): seq<seq<real>>
    requires |M| == |N| && forall a :: 0 <= a < |M| ==> |M[a]| == |N[a]|
  {
    seq(|M|, a requires 0 <= a < |M| =>
      seq(|M[a]|, b requires 0 <= b < |M[a]| => M[a][b] * N[a][b]))
  }

  /** Transpose of a matrix whose rows all have length `cols`. */
  function Transpose(M: seq<seq<real>>, cols: nat): (T: seq<seq<real>>)
    requires forall a :: 0 <= a < |M| ==> |M[a]| == cols
    ensures IsMatrix(T, cols, |M|)
    ensures forall b, a :: 0 <= b < cols && 0 <= a < |M| ==> T[b][a] == M[a][b]
  {
    seq(cols, b requires 0 <= b < cols => seq(|M|, a requires 0 <= a < |M| => M[a][b]))
  }

  /** A row whose entries are `x * v[b] * r[b]` sums to `x` times `r · v`. */
  lemma {:induction false} SumScaledRow(w: seq<real>, x: real, r: seq<real>, v: seq<real>)
    requires |w| == |r| == |v|
    requires forall b :: 0 <= b < |w| ==> w[b] == x * v[b] * r[b]
    ensures Sum(w) == x * Dot(r, v)
  {
    if |w| > 0 {
      var n := |w| - 1;
      SumScaledRow(w[..n], x, r[..n], v[..n]);
    }
  }

  /** A matrix whose row `a` sums to `u[a] * w[a]` sums to `u · w`. */
  lemma {:induction false} SumAllOfRowSums(M: seq<seq<real>>, u: seq<real>, w: seq<real>)
    requires |M| == |u| == |w|
    requires forall a :: 0 <= a < |M| ==> Sum(M[a]) == u[a] * w[a]
    ensures SumAll(M) == Dot(u, w)
  {
    if |M| > 0 {
      var n := |M| - 1;
      SumAllOfRowSums(M[..n], u[..n], w[..n]);
    }
  }

  /** Summing the entries `u[a] * v[b] * R[a][b]` over the whole matrix gives `uᵀ · R · v`. */
  lemma SumAllIsBilinear(M: seq<seq<real>>, u: seq<real>, R: seq<seq<real>>, v: seq<real>)
    requires IsMatrix(M, |u|, |v|) && IsMatrix(R, |u|, |v|)
    requires forall a, b :: 0 <= a < |u| && 0 <= b < |v| ==> M[a][b] == u[a] * v[b] * R[a][b]
    ensures SumAll(M) == Bilinear(u, R, v)
  {
    var w := MatVec(R, v);
    forall a | 0 <= a < |u|
      ensures Sum(M[a]) == u[a] * w[a]
    {
      SumScaledRow(M[a], u[a], R[a], v);
    }
    SumAllOfRowSums(M, u, w);
  }

  /** A matrix all of whose rows are empty sums to zero. */
  lemma {:induction false} SumAllOfEmptyRows(T: seq<seq<real>>)
    requires forall b :: 0 <= b < |T| ==> |T[b]| == 0
    ensures SumAll(T) == 0.0
  {
    if |T| > 0 {
      SumAllOfEmptyRows(T[..|T| - 1]);
    }
  }

  /** Splitting the last entry off every row splits the total into the rest and that column. */
  lemma {:induction false} SumAllSplitLastColumn(T: seq<seq<real>>, rest: seq<seq<real>>, col: seq<real>)
    requires |T| == |rest| == |col|
    requires forall b :: 0 <= b < |T| ==> |T[b]| > 0 && T[b][..|T[b]| - 1] == rest[b] && T[b][|T[b]| - 1] == col[b]
    ensures SumAll(T) == SumAll(rest) + Sum(col)
  {
    if |T| > 0 {
      var n := |T| - 1;
      SumAllSplitLastColumn(T[..n], rest[..n], col[..n]);
    }
  }

  /** Summing a matrix by rows or by columns gives the same total. */
  lemma {:induction false} SumAllTranspose(M: seq<seq<real>>, T: seq<seq<real>>, rows: nat, cols: nat)
    requires IsMatrix(M, rows, cols) && IsMatrix(T, cols, rows)
    requires forall b, a :: 0 <= b < cols && 0 <= a < rows ==> T[b][a] == M[a][b]
    ensures SumAll(T) == SumAll(M)
  {
    if rows == 0 {
      SumAllOfEmptyRows(T);
    } else {
      var n := rows - 1;
      var rest := seq(cols, b requires 0 <= b < cols => T[b][..n]);
      var col := seq(cols, b requires 0 <= b < cols => T[b][n]);
      SumAllTranspose(M[..n], rest, n, cols);
      SumAllSplitLastColumn(T, rest, col);
      assert col == M[n];
    }
  }
}
