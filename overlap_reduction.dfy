/** Reduction of the full atomic-orbital overlap matrix to the block whose rows are
    element 1's orbitals and whose columns are element 2's orbitals. */
module OverlapReduction {
  import opened Errors
  import opened Matrices
  import opened ElementSelection

  /** `S[rows, :]`: the listed rows, in the listed order. */
  function SelectRows(S: seq<seq<real>>, rows: seq<nat>): (M: seq<seq<real>>)
    requires AllBelow(rows, |S|)
    ensures |M| == |rows|
    ensures forall a :: 0 <= a < |rows| ==> M[a] == S[rows[a]]
  {
    seq(|rows|, a requires 0 <= a < |rows| => S[rows[a]])
  }

  /** `M[:, cols]` for a matrix whose rows have length `n`: the listed columns, in the listed order. */
  function SelectColumns(M: seq<seq<real>>, n: nat, cols: seq<nat>): (N: seq<seq<real>>)
    requires forall a :: 0 <= a < |M| ==> |M[a]| == n
    requires AllBelow(cols, n)
    ensures IsMatrix(N, |M|, |cols|)
    ensures forall a, b :: 0 <= a < |M| && 0 <= b < |cols| ==> N[a][b] == M[a][cols[b]]
  {
    seq(|M|, a requires 0 <= a < |M| => seq(|cols|, b requires 0 <= b < |cols| => M[a][cols[b]]))
  }

  /** Selecting the rows first and then the columns, as the workflow does, gives the
      same block as selecting the columns first. */
  lemma SelectionOrderIrrelevant(S: seq<seq<real>>, n: nat, rows: seq<nat>, cols: seq<nat>)
    requires IsMatrix(S, |S|, n) && AllBelow(rows, |S|) && AllBelow(cols, n)
    ensures SelectColumns(SelectRows(S, rows), n, cols) == SelectRows(SelectColumns(S, n, cols), rows)
  {
  }

  /** The reduced overlap matrix of an `|S|` by `n` overlap matrix: rows selected
      first, then columns; an index beyond either axis is an error. */
  function ReduceOverlap(S: seq<seq<real>>, n: nat, orbitals1: seq<nat>, orbitals2: seq<nat>): (r: Result<seq<seq<real>>>)
    requires IsMatrix(S, |S|, n)
    ensures r.Ok? <==> AllBelow(orbitals1, |S|) && AllBelow(orbitals2, n)
    ensures r.Err? ==> r.error == IndexOutOfRange
    ensures r.Ok? ==> IsMatrix(r.value, |orbitals1|, |orbitals2|)
    ensures r.Ok? ==> forall a, b :: 0 <= a < |orbitals1| && 0 <= b < |orbitals2| ==>
      r.value[a][b] == S[orbitals1[a]][orbitals2[b]]
  {
    if !AllBelow(orbitals1, |S|) then Err(IndexOutOfRange)
    else
      var rows := SelectRows(S, orbitals1);
      if !AllBelow(orbitals2, n) then Err(IndexOutOfRange)
      else Ok(SelectColumns(rows, n, orbitals2))
  }

  /** `S` is an `n` by `n` symmetric matrix, as an overlap matrix is. */
  predicate Symmetric(S: seq<seq<real>>, n: nat) {
    IsMatrix(S, n, n) && forall p, q :: 0 <= p < n && 0 <= q < n ==> S[p][q] == S[q][p]
  }

  /** For a symmetric overlap matrix, reducing with the two index sequences swapped
      gives the transpose of the reduced matrix. */
  lemma ReduceSwapped(S: seq<seq<real>>, n: nat, orbitals1: seq<nat>, orbitals2: seq<nat>)
    requires Symmetric(S, n) && AllBelow(orbitals1, n) && AllBelow(orbitals2, n)
    ensures ReduceOverlap(S, n, orbitals2, orbitals1).value
         == Transpose(ReduceOverlap(S, n, orbitals1, orbitals2).value, |orbitals2|)
  {
    var R12 := ReduceOverlap(S, n, orbitals1, orbitals2).value;
    var R21 := ReduceOverlap(S, n, orbitals2, orbitals1).value;
    var T := Transpose(R12, |orbitals2|);
    forall b | 0 <= b < |orbitals2|
      ensures R21[b] == T[b]
    {
      forall a | 0 <= a < |orbitals1|
        ensures R21[b][a] == T[b][a]
      {
        assert S[orbitals2[b]][orbitals1[a]] == S[orbitals1[a]][orbitals2[b]];
      }
    }
  }
}
