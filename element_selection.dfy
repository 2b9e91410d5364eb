/** Element selection: which atoms carry a chosen element label, and the global
    atomic-orbital indices those atoms contribute. */
module ElementSelection {
  import opened Errors
  import opened OrbitalIndex

  /** Every entry of `s` is an index below `n`. */
  predicate AllBelow(s: seq<nat>, n: nat) {
    forall j :: 0 <= j < |s| ==> s[j] < n
  }

  predicate StrictlyIncreasing(s: seq<nat>) {
    forall j, l :: 0 <= j < l < |s| ==> s[j] < s[l]
  }

  /** The indices of the atoms of `mol` that satisfy `matches`, in atom-list order
      (`[i for i, s in enumerate(mol) if ...]`). */
  function AtomIndices<A>(mol: seq<A>, matches: A -> bool): (atoms: seq<nat>)
    ensures StrictlyIncreasing(atoms) && AllBelow(atoms, |mol|)
    ensures forall i :: 0 <= i < |mol| ==> (i in atoms <==> matches(mol[i]))
  {
    if |mol| == 0 then []
    else
      var n := |mol| - 1;
      var prev := AtomIndices(mol[..n], matches);
      if matches(mol[n]) then prev + [n] else prev
  }

  /** The atoms one label matches: `AtomIndices` with `isElement` bound to `element`. */
  function Selected<A>(mol: seq<A>, isElement: (string, A) -> bool, element: string): seq<nat> {
    AtomIndices(mol, a => isElement(element, a))
  }

  /** Every selected atom carries `k` spherical functions. */
  predicate SameCount(atoms: seq<nat>, sphericals: seq<nat>, k: nat)
    requires AllBelow(atoms, |sphericals|)
  {
    forall j :: 0 <= j < |atoms| ==> sphericals[atoms[j]] == k
  }

  /** A selection the reshape accepts: at least one atom, all with the same count. */
  predicate ValidSelection(atoms: seq<nat>, sphericals: seq<nat>)
    requires AllBelow(atoms, |sphericals|)
  {
    |atoms| > 0 && SameCount(atoms, sphericals, sphericals[atoms[0]])
  }

  /** `np.arange(count) + start`: the contiguous block of `count` indices from `start`. */
  function Range(start: nat, count: nat): (r: seq<nat>)
    ensures |r| == count
    ensures forall x :: x in r <==> start <= x < start + count
  {
    var r := seq(count, q requires 0 <= q < count => start + q);
    assert forall x :: start <= x < start + count ==> x in r by {
      forall x | start <= x < start + count ensures x in r {
        assert r[x - start] == x;
      }
    }
    r
  }

  /** Index `x` is one of the orbitals of atom `i`. */
  predicate OrbitalOf(x: nat, i: nat, sphericals: seq<nat>, offsets: seq<nat>)
    requires i < |sphericals| && |offsets| == |sphericals| + 1
  {
    offsets[i] <= x < offsets[i] + sphericals[i]
  }

  /** The per-atom ranges `[offsets[i], offsets[i] + sphericals[i])`, one after the
      other in selection order: it holds exactly the orbitals of the selected atoms. */
  function Expand(atoms: seq<nat>, sphericals: seq<nat>, offsets: seq<nat>): (r: seq<nat>)
    requires AllBelow(atoms, |sphericals|) && |offsets| == |sphericals| + 1
    ensures forall x :: x in r <==> exists j :: 0 <= j < |atoms| && OrbitalOf(x, atoms[j], sphericals, offsets)
  {
    if |atoms| == 0 then []
    else Range(offsets[atoms[0]], sphericals[atoms[0]]) + Expand(atoms[1..], sphericals, offsets)
  }

  lemma {:induction false} ExpandLength(atoms: seq<nat>, sphericals: seq<nat>, offsets: seq<nat>, k: nat)
    requires AllBelow(atoms, |sphericals|) && |offsets| == |sphericals| + 1
    requires SameCount(atoms, sphericals, k)
    ensures |Expand(atoms, sphericals, offsets)| == |atoms| * k
  {
    if |atoms| > 0 {
      ExpandLength(atoms[1..], sphericals, offsets, k);
      assert (|atoms| - 1) * k + k == |atoms| * k;
    }
  }

  /** With count `k` on every selected atom, position `j * k + q` of the expansion
      is orbital `q` of the `j`-th selected atom. */
  lemma {:induction false} ExpandAt(atoms: seq<nat>, sphericals: seq<nat>, offsets: seq<nat>, k: nat, j: nat, q: nat)
    requires AllBelow(atoms, |sphericals|) && |offsets| == |sphericals| + 1
    requires SameCount(atoms, sphericals, k)
    requires j < |atoms| && q < k
    ensures j * k + q < |Expand(atoms, sphericals, offsets)|
    ensures Expand(atoms, sphericals, offsets)[j * k + q] == offsets[atoms[j]] + q
  {
    ExpandLength(atoms, sphericals, offsets, k);
    if j > 0 {
      ExpandAt(atoms[1..], sphericals, offsets, k, j - 1, q);
      assert j * k + q == k + ((j - 1) * k + q);
    }
  }

  /** Every entry of the expansion lies at or above the offset of atom `lo` when
      all selected atoms are at or after `lo`. */
  lemma {:induction false} ExpandAtLeast(atoms: seq<nat>, sphericals: seq<nat>, lo: nat)
    requires AllBelow(atoms, |sphericals|) && lo <= |sphericals|
    requires forall j :: 0 <= j < |atoms| ==> lo <= atoms[j]
    ensures forall p :: 0 <= p < |Expand(atoms, sphericals, Offsets(sphericals))| ==>
      Offsets(sphericals)[lo] <= Expand(atoms, sphericals, Offsets(sphericals))[p]
  {
    if |atoms| > 0 {
      ExpandAtLeast(atoms[1..], sphericals, lo);
      OffsetsMonotone(sphericals, lo, atoms[0]);
    }
  }

  /** Every expanded orbital index is below the total number of atomic orbitals. */
  lemma {:induction false} ExpandBelowTotal(atoms: seq<nat>, sphericals: seq<nat>)
    requires AllBelow(atoms, |sphericals|)
    ensures AllBelow(Expand(atoms, sphericals, Offsets(sphericals)), SumNat(sphericals))
  {
    OffsetsTotal(sphericals);
    if |atoms| > 0 {
      ExpandBelowTotal(atoms[1..], sphericals);
      OffsetsMonotone(sphericals, atoms[0], |sphericals|);
    }
  }

  /** Atoms in increasing order expand to orbital indices in increasing order, so
      no orbital of one element is listed twice. */
  lemma {:induction false} ExpandIncreasing(atoms: seq<nat>, sphericals: seq<nat>)
    requires AllBelow(atoms, |sphericals|) && StrictlyIncreasing(atoms)
    ensures StrictlyIncreasing(Expand(atoms, sphericals, Offsets(sphericals)))
  {
    if |atoms| > 0 {
      var offsets := Offsets(sphericals);
      var head := Range(offsets[atoms[0]], sphericals[atoms[0]]);
      var tail := Expand(atoms[1..], sphericals, offsets);
      ExpandIncreasing(atoms[1..], sphericals);
      ExpandAtLeast(atoms[1..], sphericals, atoms[0] + 1);
      assert forall p, l :: 0 <= p < |head| && 0 <= l < |tail| ==> head[p] < tail[l];
    }
  }

  /** The orbital indices of one element (the comprehension and `np.reshape` of the
      workflow): an empty selection or mixed counts are errors, otherwise the
      expansion, of length (number of atoms) times (count per atom). */
  function OrbitalIndices(element: string, atoms: seq<nat>, sphericals: seq<nat>, offsets: seq<nat>): (r: Result<seq<nat>>)
    requires AllBelow(atoms, |sphericals|) && |offsets| == |sphericals| + 1
    ensures r.Ok? <==> ValidSelection(atoms, sphericals)
    ensures |atoms| == 0 ==> r == Err(EmptySelection(element))
    ensures |atoms| > 0 && !ValidSelection(atoms, sphericals) ==> r == Err(MixedOrbitalCounts(element))
    ensures r.Ok? ==> |r.value| == |atoms| * sphericals[atoms[0]]
  {
    if |atoms| == 0 then Err(EmptySelection(element))
    else if !SameCount(atoms, sphericals, sphericals[atoms[0]]) then Err(MixedOrbitalCounts(element))
    else
      ExpandLength(atoms, sphericals, offsets, sphericals[atoms[0]]);
      Ok(Expand(atoms, sphericals, offsets))
  }

  /** Layout of an accepted selection: with `k` orbitals per atom, position
      `j * k + q` holds orbital `q` of the `j`-th selected atom. */
  lemma OrbitalIndicesLayout(element: string, atoms: seq<nat>, sphericals: seq<nat>, offsets: seq<nat>, j: nat, q: nat)
    requires AllBelow(atoms, |sphericals|) && |offsets| == |sphericals| + 1
    requires ValidSelection(atoms, sphericals)
    requires j < |atoms| && q < sphericals[atoms[0]]
    ensures var orbitals := OrbitalIndices(element, atoms, sphericals, offsets).value;
      var k := sphericals[atoms[0]];
      j * k + q < |orbitals| && orbitals[j * k + q] == offsets[atoms[j]] + q
  {
    ExpandAt(atoms, sphericals, offsets, sphericals[atoms[0]], j, q);
  }

  /** With the true offset table, an accepted selection holds distinct orbital
      indices in increasing order, all below the total orbital count. */
  lemma OrbitalIndicesInRange(element: string, atoms: seq<nat>, sphericals: seq<nat>)
    requires AllBelow(atoms, |sphericals|) && StrictlyIncreasing(atoms)
    requires ValidSelection(atoms, sphericals)
    ensures var orbitals := OrbitalIndices(element, atoms, sphericals, Offsets(sphericals)).value;
      AllBelow(orbitals, SumNat(sphericals)) && StrictlyIncreasing(orbitals)
  {
    ExpandBelowTotal(atoms, sphericals);
    ExpandIncreasing(atoms, sphericals);
  }
}
