/** The orbital offset table: where each atom's spherical basis functions start in
    the global atomic-orbital ordering (`atom_indices` in the workflow). */
module OrbitalIndex {

  /** Total of a sequence of counts. */
  function SumNat(s: seq<nat>): nat {
    if |s| == 0 then 0 else SumNat(s[..|s| - 1]) + s[|s| - 1]
  }

  /** The table `[0] + cumsum(sphericals)`: entry `i` is the first global orbital
      index of atom `i`, and each step up the table is that atom's orbital count. */
  function Offsets(sphericals: seq<nat>): (offsets: seq<nat>)
    ensures |offsets| == |sphericals| + 1
    ensures offsets[0] == 0
    ensures forall i :: 0 <= i < |sphericals| ==> offsets[i + 1] == offsets[i] + sphericals[i]
  {
    if |sphericals| == 0 then [0]
    else
      var n := |sphericals| - 1;
      var prev := Offsets(sphericals[..n]);
      prev + [prev[n] + sphericals[n]]
  }

  /** Entry `i` of the table is the number of orbitals on the atoms before `i`. */
  lemma {:induction false} OffsetsArePrefixSums(sphericals: seq<nat>, i: nat)
    requires i <= |sphericals|
    ensures Offsets(sphericals)[i] == SumNat(sphericals[..i])
  {
    if i > 0 {
      OffsetsArePrefixSums(sphericals, i - 1);
      assert sphericals[..i][..i - 1] == sphericals[..i - 1];
    }
  }

  /** The last entry of the table is the total number of atomic orbitals. */
  lemma OffsetsTotal(sphericals: seq<nat>)
    ensures Offsets(sphericals)[|sphericals|] == SumNat(sphericals)
  {
    OffsetsArePrefixSums(sphericals, |sphericals|);
    assert sphericals[..|sphericals|] == sphericals;
  }

  /** The table is non-decreasing, and the difference between two entries is at
      least the count of the first of the atoms between them. */
  lemma {:induction false} OffsetsMonotone(sphericals: seq<nat>, i: nat, j: nat)
    requires i <= j <= |sphericals|
    ensures Offsets(sphericals)[i] <= Offsets(sphericals)[j]
    ensures i < j ==> Offsets(sphericals)[i] + sphericals[i] <= Offsets(sphericals)[j]
  {
    if i < j {
      OffsetsMonotone(sphericals, i, j - 1);
    }
  }

  /** Builds the table in a fresh array: `np.zeros(len(mol) + 1)` whose tail is then
      assigned the running sums of the counts. */
  method OffsetTable(sphericals: seq<nat>) returns (offsets: array<nat>)
    ensures fresh(offsets)
    ensures offsets[..] == Offsets(sphericals)
  {
    offsets := new nat[|sphericals| + 1](_ => 0);
    var total: nat := 0;
    var i := 0;
    while i < |sphericals|
      invariant 0 <= i <= |sphericals|
      invariant total == Offsets(sphericals)[i]
      invariant forall j :: 0 <= j <= i ==> offsets[j] == Offsets(sphericals)[j]
    {
      total := total + sphericals[i];
      offsets[i + 1] := total;
      i := i + 1;
    }
  }
}
