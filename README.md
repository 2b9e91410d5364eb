# COOP workflow: index and contraction logic

This project models the numerical core of the Crystal Orbital Overlap Population
(COOP) workflow in `nac/workflows/workflow_coop.py`. The workflow maps atoms to
their atomic-orbital index ranges. It selects the orbitals of two chosen
elements and cuts the cross-element block out of the atomic-orbital overlap
matrix. It then contracts that block against the molecular-orbital coefficients,
giving one COOP value per energy level. Finally it pairs each energy with its
COOP value in a two-column table.

Modules, one per component:

- `OrbitalIndex`: the offset table `atom_indices` (`[0] + cumsum(sphericals)`), as the
  function `Offsets` and as the array-filling method `OffsetTable`.
- `ElementSelection`: the atom indices of one element, their expansion into
  orbital index ranges, and the reshape that rejects empty or mixed selections.
- `OverlapReduction`: row and then column selection of the overlap matrix.
- `CoopContraction`: `coop_func` (`CoopLevel`) and `compute_coop` (`ComputeCoop`).
- `ResultTable`: the table of `print_coop`, filled column by column in a fresh `array2`.
- `CoopWorkflow`: `compute_overlap_and_atomic_orbitals` and the path from the atom list to the table.
- `Matrices`, `Errors`: sums, inner and outer products and transposes over `real`; the error kinds.

Coefficients, overlap entries and energies are `real`, so every sum is exact.
The atom list is a sequence of any type `A`. The test `element.lower() in s` becomes
a parameter `isElement(label, atom)`, because the atom entries come from a parser
that is not part of this model. The per-atom orbital counts (`sphericals`), the full
overlap matrix, the coefficient matrix and the energy vector are inputs.

Where numpy raises, the model returns `Err`:

- An element that matches no atom fails at `element_index[0]` (`EmptySelection`).
- Atoms of one element with different orbital counts give a ragged list
  (`MixedOrbitalCounts`). Numpy 1.24 and later refuse it in `np.reshape`. Older
  numpy builds an object array, and the computation fails at the latest at the
  row selection of the overlap matrix (line 137).
- An orbital index beyond the overlap or coefficient matrix is an `IndexOutOfRange`.
- `np.apply_along_axis` over a coefficient matrix with no columns fails (`NoEnergyLevels`).
- Energy and COOP vectors of different lengths cannot fill the table (`LengthMismatch`).

The errors of element 1 are reported before those of element 2, as in the source.

## Model

| member | source | states |
|---|---|---|
| OrbitalIndex.Offsets | nac/workflows/workflow_coop.py:121-122 | the table has one entry more than there are atoms, starts at 0, and each step up is that atom's orbital count |
| OrbitalIndex.OffsetsArePrefixSums | nac/workflows/workflow_coop.py:121-122 | entry `i` is the total orbital count of the atoms before atom `i` |
| OrbitalIndex.OffsetsTotal | nac/workflows/workflow_coop.py:121-122 | the last entry is the total number of atomic orbitals, `sum(sphericals)` |
| OrbitalIndex.OffsetsMonotone | nac/workflows/workflow_coop.py:121-122 | the table is non-decreasing, and atom `i`'s range ends at or before every later entry |
| OrbitalIndex.OffsetTable | nac/workflows/workflow_coop.py:121-122 | the zero-initialised array filled with running sums holds exactly the offset table |
| ElementSelection.AtomIndices | nac/workflows/workflow_coop.py:116-117 | the result is strictly increasing, in range, and holds index `i` exactly when atom `i` matches |
| ElementSelection.Range | nac/workflows/workflow_coop.py:124-125 | `np.arange(count) + start` has `count` entries and holds exactly the indices in `[start, start + count)` |
| ElementSelection.Expand | nac/workflows/workflow_coop.py:124-125 | the flattened per-atom ranges hold exactly the orbitals of the selected atoms |
| ElementSelection.ExpandLength | nac/workflows/workflow_coop.py:124-127 | with `k` orbitals on each of `n` atoms, the expansion has `n * k` entries |
| ElementSelection.ExpandAt | nac/workflows/workflow_coop.py:124-127 | position `j * k + q` of the expansion is `offset[atoms[j]] + q` |
| ElementSelection.ExpandAtLeast | nac/workflows/workflow_coop.py:121-125 | atoms at or after `lo` expand to indices at or above `offset[lo]` |
| ElementSelection.ExpandBelowTotal | nac/workflows/workflow_coop.py:121-132 | every expanded orbital index is below the total orbital count |
| ElementSelection.ExpandIncreasing | nac/workflows/workflow_coop.py:116-132 | increasing atoms expand to strictly increasing, hence distinct, orbital indices |
| ElementSelection.OrbitalIndices | nac/workflows/workflow_coop.py:124-132 | succeeds exactly for a non-empty selection of uniform count; empty is `EmptySelection`, mixed is `MixedOrbitalCounts`; the result has `n * k` entries |
| ElementSelection.OrbitalIndicesLayout | nac/workflows/workflow_coop.py:124-132 | in an accepted selection, position `j * k + q` holds orbital `q` of the `j`-th selected atom |
| ElementSelection.OrbitalIndicesInRange | nac/workflows/workflow_coop.py:121-132 | an accepted selection holds distinct increasing orbital indices, all below the total orbital count |
| OverlapReduction.SelectRows | nac/workflows/workflow_coop.py:137 | `S[rows, :]` has one row per listed index, row `a` being row `rows[a]` of `S` |
| OverlapReduction.SelectColumns | nac/workflows/workflow_coop.py:139 | `M[:, cols]` keeps every row and holds `M[a][cols[b]]` at `(a, b)` |
| OverlapReduction.SelectionOrderIrrelevant | nac/workflows/workflow_coop.py:137-139 | selecting rows then columns gives the same block as columns then rows |
| OverlapReduction.ReduceOverlap | nac/workflows/workflow_coop.py:137-139 | succeeds exactly when all indices are within the matrix; the result is `|idx1|` by `|idx2|` with entry `(a, b)` equal to `S[idx1[a]][idx2[b]]` |
| OverlapReduction.ReduceSwapped | nac/workflows/workflow_coop.py:137-139 | for a symmetric overlap, reducing with the index sequences swapped gives the transpose |
| CoopContraction.Gather | nac/workflows/workflow_coop.py:163-164 | the gathered coefficient vector has one entry per listed orbital |
| CoopContraction.CoopLevel | nac/workflows/workflow_coop.py:154-165 | `coop_func`'s outer-product, elementwise-product and full-sum value equals `c1ᵀ · R · c2` |
| CoopContraction.CoopLevelSwap | nac/workflows/workflow_coop.py:161-165 | swapping the index sequences and transposing `R` leaves the level's value unchanged |
| CoopContraction.ComputeCoop | nac/workflows/workflow_coop.py:146-177 | one value per coefficient column, entry `k` equal to `c1ᵀ · R · c2` for column `k`; no columns is `NoEnergyLevels`, an index beyond the rows is `IndexOutOfRange` |
| CoopContraction.ComputeCoopSwap | nac/workflows/workflow_coop.py:161-174 | swapping the index sequences and transposing `R` gives the same COOP vector or the same error |
| ResultTable.CoopTable | nac/workflows/workflow_coop.py:182-183 | the table has `len(coop)` rows and two columns; row `k` is `(energies[k], coop[k])` in the original order |
| CoopWorkflow.SelectAndReduce | nac/workflows/workflow_coop.py:113-143 | element 1's errors come first, then element 2's; after two accepted selections it succeeds exactly when their orbital indices lie within the overlap matrix, else `IndexOutOfRange`; on success the orbital sequences are the two accepted selections and the reduced matrix is their cross block |
| CoopWorkflow.SelectAndReduceInRange | nac/workflows/workflow_coop.py:121-139 | with a square overlap over all orbitals, the reduction succeeds exactly when both selections are accepted |
| CoopWorkflow.ComputeOverlapAndAtomicOrbitals | nac/workflows/workflow_coop.py:113-143 | the array-based computation returns exactly the specified selection and reduction, errors included |
| CoopWorkflow.CrystalOrbitalOverlapPopulation | nac/workflows/workflow_coop.py:40-52 | every stage's error is passed on; on success row `k` of a fresh table is `(energies[k], COOP of level k)` |
| CoopWorkflow.SwappedOrbitalsSameCoop | nac/workflows/workflow_coop.py:137-174 | for a symmetric overlap, swapping the two orbital index sequences gives the same COOP vector |
| CoopWorkflow.SwappedElementsSameCoop | nac/workflows/workflow_coop.py:113-174 | for a symmetric overlap, naming the two elements in the other order succeeds whenever the original order does and gives the same COOP vector |
| CoopWorkflow.SingleLevelExample | nac/workflows/workflow_coop.py:154-174 | one orbital per element with coefficient 1 and overlap 0.5 gives COOP 0.5 |
| CoopWorkflow.CrossTermsVanishExample | nac/workflows/workflow_coop.py:154-174 | two levels, each with its coefficient on only one orbital, give COOP `[0, 0]` |

## Left out

- Reading coefficients and energies from HDF5, and the single-point fallback (lines 58-96): storage I/O and an external calculation.
- `initialize`, `readXYZ`, `compute_matrix_multipole` and `number_spherical_functions_per_atom` (lines 22, 35, 103, 106-110): configuration, parsing, integral evaluation and basis lookup; their results are inputs.
- The Hartree to eV conversion (lines 92-93): it multiplies every energy by one external constant inside an I/O function, so the energies given to the model are already in eV.
- `np.savetxt` (line 184) and the logging calls: file output and side effects.
- Floating-point rounding, and any difference between `tensordot` followed by `sum` and the triple product: values are exact `real`s.
- The atom-match test: it is a parameter, so neither substring matching nor tuple membership is fixed.
- CrystalOrbitalOverlapPopulation: numpy broadcasting of a one-entry energy vector over the whole energy column is not modelled; such an input is a `LengthMismatch`.
- ResultTable.CoopTable: it requires equal lengths instead of modelling broadcasting; the workflow checks the lengths before the call.
- The per-atom orbital counts are assumed to have one entry per atom (a requires), as the counting helper that produces them is not part of this model.
