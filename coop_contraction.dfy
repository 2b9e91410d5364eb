/** The COOP contraction (`compute_coop` and its inner `coop_func`): for every column
    `k` of the coefficient matrix, the sum over the reduced overlap block of
    `C[orbitals1[a]][k] * C[orbitals2[b]][k] * R[a][b]`. */
module CoopContraction {
  import opened Errors
  import opened Matrices
  import opened ElementSelection

  /** Column `k` of the coefficient matrix restricted to the listed orbitals
      (`atomic_orbitals[el_orbital_ind]` on one column). */
  function Gather(C: seq<seq<real>>, orbitals: seq<nat>, k: nat): (c: seq<real>)
    requires AllBelow(orbitals, |C|)
    requires forall p :: 0 <= p < |C| ==> k < |C[p]|
    ensures |c| == |orbitals|
  {
    seq(|orbitals|, a requires 0 <= a < |orbitals| => C[orbitals[a]][k])
  }

  /** `coop_func` on column `k`: outer product of the two gathered coefficient
      vectors, multiplied elementwise by the reduced overlap, summed. The value is
      the triple product `c1ᵀ · R · c2` of the two gathered vectors. */
  function CoopLevel(C: seq<seq<real>>, R: seq<seq<real>>, orbitals1: seq<nat>, orbitals2: seq<nat>, k: nat): (x: real)
    requires AllBelow(orbitals1, |C|) && AllBelow(orbitals2, |C|)
    requires forall p :: 0 <= p < |C| ==> k < |C[p]|
    requires IsMatrix(R, |orbitals1|, |orbitals2|)
    ensures x == Bilinear(Gather(C, orbitals1, k), R, Gather(C, orbitals2, k))
  {
    var c1, c2 := Gather(C, orbitals1, k), Gather(C, orbitals2, k);
    SumAllIsBilinear(Hadamard(Outer(c1, c2), R), c1, R, c2);
    SumAll(Hadamard(Outer(c1, c2), R))
  }

  /** Swapping the two index sequences and transposing the reduced overlap leaves
      the value of `coop_func` unchanged. */
  lemma CoopLevelSwap(C: seq<seq<real>>, R: seq<seq<real>>, orbitals1: seq<nat>, orbitals2: seq<nat>, k: nat)
    requires AllBelow(orbitals1, |C|) && AllBelow(orbitals2, |C|)
    requires forall p :: 0 <= p < |C| ==> k < |C[p]|
    requires IsMatrix(R, |orbitals1|, |orbitals2|)
    ensures CoopLevel(C, Transpose(R, |orbitals2|), orbitals2, orbitals1, k)
         == CoopLevel(C, R, orbitals1, orbitals2, k)
  {
    var c1, c2 := Gather(C, orbitals1, k), Gather(C, orbitals2, k);
    var M := Hadamard(Outer(c1, c2), R);
    var T := Hadamard(Outer(c2, c1), Transpose(R, |orbitals2|));
    forall b, a | 0 <= b < |orbitals2| && 0 <= a < |orbitals1|
      ensures T[b][a] == M[a][b]
    {
      assert T[b][a] == c2[b] * c1[a] * R[a][b];
    }
    SumAllTranspose(M, T, |orbitals1|, |orbitals2|);
  }

  /** `compute_coop`: one value per column of the `|C|` by `levels` coefficient
      matrix, each the triple product `c1ᵀ · R · c2` for that column. A matrix with
      no columns, or an orbital index beyond its rows, is an error. */
  function ComputeCoop(C: seq<seq<real>>, levels: nat, R: seq<seq<real>>, orbitals1: seq<nat>, orbitals2: seq<nat>): (r: Result<seq<real>>)
    requires IsMatrix(C, |C|, levels)
    requires IsMatrix(R, |orbitals1|, |orbitals2|)
    ensures r.Ok? <==> levels > 0 && AllBelow(orbitals1, |C|) && AllBelow(orbitals2, |C|)
    ensures levels == 0 ==> r == Err(NoEnergyLevels)
    ensures levels > 0 && r.Err? ==> r == Err(IndexOutOfRange)
    ensures r.Ok? ==> |r.value| == levels
    ensures r.Ok? ==> forall k :: 0 <= k < levels ==>
      r.value[k] == Bilinear(Gather(C, orbitals1, k), R, Gather(C, orbitals2, k))
  {
    if levels == 0 then Err(NoEnergyLevels)
    else if !AllBelow(orbitals1, |C|) || !AllBelow(orbitals2, |C|) then Err(IndexOutOfRange)
    else
      Ok(seq(levels, k requires 0 <= k < levels => CoopLevel(C, R, orbitals1, orbitals2, k)))
  }

  /** Swapping the two index sequences and transposing the reduced overlap gives
      the same COOP vector (or the same error). */
  lemma ComputeCoopSwap(C: seq<seq<real>>, levels: nat, R: seq<seq<real>>, orbitals1: seq<nat>, orbitals2: seq<nat>)
    requires IsMatrix(C, |C|, levels)
    requires IsMatrix(R, |orbitals1|, |orbitals2|)
    ensures ComputeCoop(C, levels, Transpose(R, |orbitals2|), orbitals2, orbitals1)
         == ComputeCoop(C, levels, R, orbitals1, orbitals2)
  {
    var R' := Transpose(R, |orbitals2|);
    var r1 := ComputeCoop(C, levels, R, orbitals1, orbitals2);
    var r2 := ComputeCoop(C, levels, R', orbitals2, orbitals1);
    if r1.Ok? {
      forall k | 0 <= k < levels
        ensures r2.value[k] == r1.value[k]
      {
        CoopLevelSwap(C, R, orbitals1, orbitals2, k);
      }
      assert r2.value == r1.value;
    }
  }
}
