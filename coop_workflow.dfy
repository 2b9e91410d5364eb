/** The COOP workflow from the atom list onwards: offsets and element selection,
    reduction of the overlap matrix, the contraction, and the result table. The
    atom list, the per-atom orbital counts, the overlap matrix, the coefficient
    matrix and the energies are inputs. */
module CoopWorkflow {
  import opened Errors
  import opened Matrices
  import opened OrbitalIndex
  import opened ElementSelection
  import opened OverlapReduction
  import opened CoopContraction
  import opened ResultTable

  /** What `compute_overlap_and_atomic_orbitals` returns. */
  datatype Selection = Selection(orbitals1: seq<nat>, orbitals2: seq<nat>, reduced: seq<seq<real>>)

  /** Specification of `compute_overlap_and_atomic_orbitals` for an `|S|` by `n`
      overlap matrix: the errors of element 1 come before those of element 2,
      which come before an out-of-range reduction. */
  function SelectAndReduce<A>(mol: seq<A>, isElement: (string, A) -> bool, element1: string, element2: string,
                              sphericals: seq<nat>, S: seq<seq<real>>, n: nat): (r: Result<Selection>)
    requires |sphericals| == |mol| && IsMatrix(S, |S|, n)
    ensures var atoms1, atoms2 := Selected(mol, isElement, element1), Selected(mol, isElement, element2);
      r.Ok? ==> ValidSelection(atoms1, sphericals) && ValidSelection(atoms2, sphericals)
    ensures var atoms1 := Selected(mol, isElement, element1);
      !ValidSelection(atoms1, sphericals) ==>
        r == Err(if |atoms1| == 0 then EmptySelection(element1) else MixedOrbitalCounts(element1))
    ensures var atoms1, atoms2 := Selected(mol, isElement, element1), Selected(mol, isElement, element2);
      ValidSelection(atoms1, sphericals) && !ValidSelection(atoms2, sphericals) ==>
        r == Err(if |atoms2| == 0 then EmptySelection(element2) else MixedOrbitalCounts(element2))
    ensures var atoms1, atoms2 := Selected(mol, isElement, element1), Selected(mol, isElement, element2);
      ValidSelection(atoms1, sphericals) && ValidSelection(atoms2, sphericals) && r.Err? ==>
        r == Err(IndexOutOfRange)
    ensures var atoms1, atoms2 := Selected(mol, isElement, element1), Selected(mol, isElement, element2);
      ValidSelection(atoms1, sphericals) && ValidSelection(atoms2, sphericals) ==>
        (r.Ok? <==>
          AllBelow(OrbitalIndices(element1, atoms1, sphericals, Offsets(sphericals)).value, |S|) &&
          AllBelow(OrbitalIndices(element2, atoms2, sphericals, Offsets(sphericals)).value, n))
    ensures var atoms1, atoms2 := Selected(mol, isElement, element1), Selected(mol, isElement, element2);
      r.Ok? ==>
        r.value.orbitals1 == OrbitalIndices(element1, atoms1, sphericals, Offsets(sphericals)).value &&
        r.value.orbitals2 == OrbitalIndices(element2, atoms2, sphericals, Offsets(sphericals)).value
    ensures r.Ok? ==> IsMatrix(r.value.reduced, |r.value.orbitals1|, |r.value.orbitals2|)
    ensures r.Ok? ==> AllBelow(r.value.orbitals1, |S|) && AllBelow(r.value.orbitals2, n)
    ensures r.Ok? ==> forall a, b :: 0 <= a < |r.value.orbitals1| && 0 <= b < |r.value.orbitals2| ==>
      r.value.reduced[a][b] == S[r.value.orbitals1[a]][r.value.orbitals2[b]]
  {
    SelectAndReduceWith(mol, isElement, element1, element2, sphericals, Offsets(sphericals), S, n)
  }

  /** The steps of `compute_overlap_and_atomic_orbitals` from the element lookup on,
      given the offset table. */
  function SelectAndReduceWith<A>(mol: seq<A>, isElement: (string, A) -> bool, element1: string, element2: string,
                                  sphericals: seq<nat>, offsets: seq<nat>, S: seq<seq<real>>, n: nat): Result<Selection>
    requires |sphericals| == |mol| && |offsets| == |sphericals| + 1 && IsMatrix(S, |S|, n)
  {
    var o1 := OrbitalIndices(element1, Selected(mol, isElement, element1), sphericals, offsets);
    var o2 := OrbitalIndices(element2, Selected(mol, isElement, element2), sphericals, offsets);
    if o1.Err? then Err(o1.error)
    else if o2.Err? then Err(o2.error)
    else
      var reduced := ReduceOverlap(S, n, o1.value, o2.value);
      if reduced.Err? then Err(reduced.error)
      else Ok(Selection(o1.value, o2.value, reduced.value))
  }

  /** With a square overlap matrix over all `SumNat(sphericals)` orbitals, the
      reduction is always in range: the selection fails exactly when an element
      matches no atom or its atoms carry mixed counts. */
  lemma SelectAndReduceInRange<A>(mol: seq<A>, isElement: (string, A) -> bool, element1: string, element2: string,
                                  sphericals: seq<nat>, S: seq<seq<real>>)
    requires |sphericals| == |mol| && IsMatrix(S, SumNat(sphericals), SumNat(sphericals))
    ensures var atoms1, atoms2 := Selected(mol, isElement, element1), Selected(mol, isElement, element2);
      (SelectAndReduce(mol, isElement, element1, element2, sphericals, S, SumNat(sphericals)).Ok?
       <==> ValidSelection(atoms1, sphericals) && ValidSelection(atoms2, sphericals))
  {
    var atoms1, atoms2 := Selected(mol, isElement, element1), Selected(mol, isElement, element2);
    if ValidSelection(atoms1, sphericals) && ValidSelection(atoms2, sphericals) {
      OrbitalIndicesInRange(element1, atoms1, sphericals);
      OrbitalIndicesInRange(element2, atoms2, sphericals);
    }
  }

  /** `compute_overlap_and_atomic_orbitals` from the element lookup on: builds the
      offset table in an array, then selects, expands and reduces. */
  method ComputeOverlapAndAtomicOrbitals<A>(mol: seq<A>, isElement: (string, A) -> bool, element1: string, element2: string,
                                            sphericals: seq<nat>, S: seq<seq<real>>, n: nat) returns (r: Result<Selection>)
    requires |sphericals| == |mol| && IsMatrix(S, |S|, n)
    ensures r == SelectAndReduce(mol, isElement, element1, element2, sphericals, S, n)
  {
    var table := OffsetTable(sphericals);
    r := SelectAndReduceWith(mol, isElement, element1, element2, sphericals, table[..], S, n);
  }

  /** The COOP computation from the atom list to the result table: every error of
      the selection, the contraction and the table is passed on, and on success row
      `k` of the table pairs `energies[k]` with the COOP value of level `k`. */
  method CrystalOrbitalOverlapPopulation<A>(mol: seq<A>, isElement: (string, A) -> bool, element1: string, element2: string,
                                            sphericals: seq<nat>, S: seq<seq<real>>, n: nat,
                                            C: seq<seq<real>>, levels: nat, energies: seq<real>)
    returns (r: Result<array2<real>>)
    requires |sphericals| == |mol| && IsMatrix(S, |S|, n) && IsMatrix(C, |C|, levels)
    ensures var sel := SelectAndReduce(mol, isElement, element1, element2, sphericals, S, n);
      sel.Err? ==> r == Err(sel.error)
    ensures var sel := SelectAndReduce(mol, isElement, element1, element2, sphericals, S, n);
      sel.Ok? ==>
        var coop := ComputeCoop(C, levels, sel.value.reduced, sel.value.orbitals1, sel.value.orbitals2);
        (coop.Err? ==> r == Err(coop.error)) &&
        (coop.Ok? && |energies| != levels ==> r == Err(LengthMismatch)) &&
        (coop.Ok? && |energies| == levels ==>
          r.Ok? && fresh(r.value) && r.value.Length0 == levels && r.value.Length1 == 2 &&
          forall k :: 0 <= k < levels ==> r.value[k, 0] == energies[k] && r.value[k, 1] == coop.value[k])
  {
    var sel := ComputeOverlapAndAtomicOrbitals(mol, isElement, element1, element2, sphericals, S, n);
    if sel.Err? {
      return Err(sel.error);
    }
    var coop := ComputeCoop(C, levels, sel.value.reduced, sel.value.orbitals1, sel.value.orbitals2);
    if coop.Err? {
      return Err(coop.error);
    }
    if |energies| != |coop.value| {
      return Err(LengthMismatch);
    }
    var table := CoopTable(energies, coop.value);
    r := Ok(table);
  }

  /** For a symmetric overlap matrix, swapping the two orbital index sequences
      gives the same COOP vector. */
  lemma SwappedOrbitalsSameCoop(S: seq<seq<real>>, n: nat, C: seq<seq<real>>, levels: nat,
                                orbitals1: seq<nat>, orbitals2: seq<nat>)
    requires Symmetric(S, n) && AllBelow(orbitals1, n) && AllBelow(orbitals2, n)
    requires IsMatrix(C, |C|, levels)
    ensures ComputeCoop(C, levels, ReduceOverlap(S, n, orbitals2, orbitals1).value, orbitals2, orbitals1)
         == ComputeCoop(C, levels, ReduceOverlap(S, n, orbitals1, orbitals2).value, orbitals1, orbitals2)
  {
    ReduceSwapped(S, n, orbitals1, orbitals2);
    ComputeCoopSwap(C, levels, ReduceOverlap(S, n, orbitals1, orbitals2).value, orbitals1, orbitals2);
  }

  /** For a symmetric overlap matrix, naming the two elements in the other order
      succeeds whenever the original order does, and gives the same COOP vector. */
  lemma SwappedElementsSameCoop<A>(mol: seq<A>, isElement: (string, A) -> bool, element1: string, element2: string,
                                   sphericals: seq<nat>, S: seq<seq<real>>, n: nat, C: seq<seq<real>>, levels: nat)
    requires |sphericals| == |mol| && Symmetric(S, n) && IsMatrix(C, |C|, levels)
    requires SelectAndReduce(mol, isElement, element1, element2, sphericals, S, n).Ok?
    ensures var forward := SelectAndReduce(mol, isElement, element1, element2, sphericals, S, n).value;
      var swapped := SelectAndReduce(mol, isElement, element2, element1, sphericals, S, n);
      swapped.Ok? &&
      ComputeCoop(C, levels, swapped.value.reduced, swapped.value.orbitals1, swapped.value.orbitals2)
        == ComputeCoop(C, levels, forward.reduced, forward.orbitals1, forward.orbitals2)
  {
    var forward := SelectAndReduce(mol, isElement, element1, element2, sphericals, S, n).value;
    SwappedOrbitalsSameCoop(S, n, C, levels, forward.orbitals1, forward.orbitals2);
  }

  /** One orbital per element, coefficient 1.0 on both at the only level, overlap
      0.5 between them: the COOP is 0.5. */
  lemma SingleLevelExample()
    ensures ComputeCoop([[1.0], [1.0]], 1, [[0.5]], [0], [1]) == Ok([0.5])
  {
    var r := ComputeCoop([[1.0], [1.0]], 1, [[0.5]], [0], [1]);
    assert AllBelow([0], 2) && AllBelow([1], 2);
    assert Gather([[1.0], [1.0]], [0], 0) == [1.0];
    assert Gather([[1.0], [1.0]], [1], 0) == [1.0];
    assert r.value[0] == Bilinear([1.0], [[0.5]], [1.0]);
    assert Dot([0.5], [1.0]) == 0.5 by { assert [0.5][..0] == []; }
    assert MatVec([[0.5]], [1.0]) == [0.5];
    assert Dot([1.0], [0.5]) == 0.5 by { assert [1.0][..0] == []; }
    assert r.value == [0.5];
  }

  /** Two levels, each with its coefficient on only one of the two orbitals: both
      COOP values vanish whatever the overlap. */
  lemma CrossTermsVanishExample()
    ensures ComputeCoop([[1.0, 0.0], [0.0, 1.0]], 2, [[0.3]], [0], [1]) == Ok([0.0, 0.0])
  {
    var C := [[1.0, 0.0], [0.0, 1.0]];
    var r := ComputeCoop(C, 2, [[0.3]], [0], [1]);
    assert AllBelow([0], 2) && AllBelow([1], 2);
    assert Gather(C, [0], 0) == [1.0] && Gather(C, [1], 0) == [0.0];
    assert Gather(C, [0], 1) == [0.0] && Gather(C, [1], 1) == [1.0];
    assert r.value[0] == Bilinear([1.0], [[0.3]], [0.0]);
    assert r.value[1] == Bilinear([0.0], [[0.3]], [1.0]);
    assert Dot([0.3], [0.0]) == 0.0 by { assert [0.3][..0] == []; }
    assert Dot([0.3], [1.0]) == 0.3 by { assert [0.3][..0] == []; }
    assert MatVec([[0.3]], [0.0]) == [0.0];
    assert MatVec([[0.3]], [1.0]) == [0.3];
    assert Dot([1.0], [0.0]) == 0.0 by { assert [1.0][..0] == []; }
    assert Dot([0.0], [0.3]) == 0.0 by { assert [0.0][..0] == []; }
    assert r.value == [0.0, 0.0];
  }
}
