# Periodic neighbour lists and a Lennard-Jones energy

This project models the geometric core of the `mlp` machine-learning-potential
package in Dafny.

- `mlp/tf/utils.py` builds triangle masks and the indices of the upper and
  lower triangle of a matrix (after `numpy.tri`, `numpy.triu_indices` and
  `numpy.tril_indices`).
- `mlp/ag/neighborlist.py` finds the periodic images of atoms in a unit cell:
  - `get_distances` builds a dense tensor of distances over a block of
    image offsets;
  - `get_neighbors_oneway` builds a one-way neighbour list by visiting
    half of the image offsets in a loop.
- `mlp/ag/lennardjones.py` computes the energy of a periodic Lennard-Jones
  system from that tensor, and turns a strain derivative into a Voigt stress.

Modules, one per concern:

- `Common`: `Option`, `Result` and the Python errors the code raises.
- `Linalg`: exact 3-vectors, integer 3-vectors and 3×3 matrices over `real`.
- `Ranges`: `arange`.
- `Images`: the row-major product of three integer ranges.
- `Cells`: strain, fractional coordinates, wrapping into the cell, pair
  vectors, and the bounds that link a cutoff to the column norms of the
  inverse cell.
- `TriUtils`: `utils.py`.
- `Distances`: `get_distances`.
- `Oneway`: `get_neighbors_oneway`, an imperative method with loops.
- `LennardJones`: `energy` and `stress`.

Distances are kept squared. The tensor entry for atoms `i`, `j` and image `n`
is `|p_j + n·cell − p_i|²` when that is non-zero and within
`(cutoff + skin)²`, and `0` otherwise. The energy squares the tensor anyway,
so it is modelled exactly.

## Model

| member | source | states |
|---|---|---|
| TriUtils.Tri | mlp/tf/utils.py:8-35 | the mask is N×M (M defaults to N) and entry (i, j) holds exactly when j ≤ i + k |
| TriUtils.TriDefaultsToSquare | mlp/tf/utils.py:30-31 | omitting M gives the same mask and the same triangle indices as M = N |
| TriUtils.WhereSpec | mlp/tf/utils.py:60-61 | `tf.where` lists exactly the true cells of a mask, in row-major order, one per true cell |
| TriUtils.ZipUnzip | mlp/tf/utils.py:61 | splitting the index pairs into two columns loses nothing: re-pairing gives the list back |
| TriUtils.TriuIndices | mlp/tf/utils.py:38-61 | the index columns have equal length, every (i, j) listed is in the N×M grid with j ≥ i + k, every such cell is listed, and the list is row-major |
| TriUtils.TrilIndices | mlp/tf/utils.py:81-104 | the same with j ≤ i + k |
| TriUtils.TriuIndicesFrom | mlp/tf/utils.py:64-78 | fails with ValueError "Tensor must be 2d" exactly when the shape is not 2-d, and otherwise returns `triu_indices(rows, k, cols)` |
| TriUtils.TrilIndicesFrom | mlp/tf/utils.py:107-121 | the same for `tril_indices` |
| TriUtils.TriuTrilPartition | mlp/tf/utils.py:60 | `triu_indices(k+1)` and `tril_indices(k)` are disjoint, their union is the whole N×M grid, and their sizes add up to N·M |
| TriUtils.TrilMember | mlp/tf/utils.py:103 | a cell is among the lower indices iff it is in the grid and j ≤ i + k |
| TriUtils.TriuMember | mlp/tf/utils.py:60 | a cell is among the upper indices iff it is in the grid and j ≥ i + k |
| TriUtils.SquareTriangles | mlp/tf/utils.py:38-104 | for a square n×n matrix each triangle has n(n+1)/2 cells, and the two triangles meet exactly on the n cells of the diagonal |
| TriUtils.TriangleNumberClosedForm | mlp/tf/utils.py:103 | the row counts 1 + 2 + … + l sum to l(l+1)/2 |
| Ranges.RangeMembers | mlp/ag/neighborlist.py:39-41 | `arange(lo, hi)` is increasing and holds exactly the integers in [lo, hi) |
| Images.ProductSpec | mlp/ag/neighborlist.py:47-54 | the reshaped broadcast sum has \|r0\|·\|r1\|·\|r2\| offsets, holds exactly the triples drawn from the three ranges, and is lexicographically sorted when the ranges increase |
| Images.LexSortedUnique | mlp/ag/neighborlist.py:54 | an offset occurs at most once in a sorted offset list |
| Cells.ZeroStrain | mlp/ag/neighborlist.py:5-6 | the default zero strain leaves the cell and the positions unchanged |
| Cells.StrainLattice | mlp/ag/neighborlist.py:27-29 | straining a lattice vector n·cell gives n·(strained cell) |
| Cells.Frac | mlp/ag/neighborlist.py:34 | `x % 1` lies in [0, 1) and differs from x by an integer, namely floor(x) |
| Cells.FracUnique | mlp/ag/neighborlist.py:34 | a value in [0, 1) that differs from x by an integer is `x % 1`, and that integer is floor(x) |
| Cells.WrapShift | mlp/ag/neighborlist.py:112 | `round(scaled % 1 − scaled)` is exactly the integer vector `scaled % 1 − scaled` |
| Cells.WrapInCell | mlp/ag/neighborlist.py:109-113 | a wrapped position has fractional coordinates `scaled % 1`, inside the unit cube |
| Cells.WrapShiftInCell | mlp/ag/neighborlist.py:110-112 | an atom whose fractional coordinates are already in [0, 1) gets the zero wrapping offset |
| Cells.WrapAllInCell | mlp/ag/neighborlist.py:109-113 | wrapping leaves atoms that already lie in the cell unchanged: `positions0` equals the positions |
| Cells.SelfPairVector | mlp/ag/neighborlist.py:62-66 | an atom's vector to itself at the zero image is zero |
| Cells.PairVectorSwap | mlp/ag/neighborlist.py:62-66 | the vector from j to i at image −n is minus the vector from i to j at n, and has the same length |
| Cells.StrainPairVector | mlp/ag/neighborlist.py:27-29 | pair vectors of the strained system are the strained pair vectors of the unstrained one |
| Cells.ScaledReach | mlp/ag/neighborlist.py:32 | a vector no longer than the cutoff spans at most `cutoff · norm(column a of inv)` cells along axis a |
| Cells.InverseColumnsNonzero | mlp/ag/neighborlist.py:31-32 | every column of an inverse cell has positive norm |
| Distances.Repeats | mlp/ag/neighborlist.py:32 | `num_repeats` along each axis is `cutoff · norm(column of inv)` |
| Distances.FractionalCoords | mlp/ag/neighborlist.py:34 | one fractional coordinate per atom, each the position times the inverse cell, mod 1 |
| Distances.MinOf | mlp/ag/neighborlist.py:35 | the minimum is an element and no element is below it |
| Distances.MaxOf | mlp/ag/neighborlist.py:36 | the maximum is an element and no element is above it |
| Distances.OffsetsSpec | mlp/ag/neighborlist.py:35-54 | the offsets are exactly the integer triples in [min floor(f − r), max ceil(f + r)) per axis, sorted, with the product of the three spans as their number |
| Distances.ZeroOffsetInRanges | mlp/ag/neighborlist.py:35-41 | when the coordinates lie in [0, 1) and the repeat count is positive, each axis range contains 0 |
| Distances.Tabulate | mlp/ag/neighborlist.py:58-78 | the tensor is natoms × natoms × noffsets, and each entry is the masked squared length of its pair vector |
| Distances.GetDistancesAsWritten | mlp/ag/neighborlist.py:5-78 | as written: fails with the empty-reduction ValueError exactly when there are no atoms; otherwise entry (i, j, k) is non-zero iff the squared pair vector from the unwrapped strained positions is non-zero and within (cutoff + skin)², and then equals it |
| Distances.GetDistances | mlp/ag/neighborlist.py:5-78 | corrected: the same, with the pair vectors taken from the strained positions wrapped into the cell |
| Distances.EntryRange | mlp/ag/neighborlist.py:74-78 | every entry is 0 or a squared distance in (0, (cutoff + skin)²] |
| Distances.SelfEntryZero | mlp/ag/neighborlist.py:74-76 | an atom paired with itself at the zero image gives 0, never a spurious zero distance |
| Distances.EntrySwap | mlp/ag/neighborlist.py:62-78 | entry (j, i, −n) equals entry (i, j, n): each pair is counted from both ends |
| Distances.FractionalInCell | mlp/ag/neighborlist.py:34 | every fractional coordinate lies in [0, 1) |
| Distances.ZeroOffsetIncluded | mlp/ag/neighborlist.py:35-54 | for atoms and a positive cutoff, the zero offset is among the offsets |
| Distances.SelfEntriesMasked | mlp/ag/neighborlist.py:74-78 | in the tensor, every (i, i) entry at the zero offset is 0 |
| Distances.GetDistancesTabulates | mlp/ag/neighborlist.py:58-78 | for atoms, the result is the tabulation over the offsets of the wrapped positions with bound cutoff + skin |
| Distances.AxisCovered | mlp/ag/neighborlist.py:35-36 | an image offset k whose pair spans less than r cells lies in [floor(f_i − r), ceil(f_i + r)) |
| Distances.ImagesCovered | mlp/ag/neighborlist.py:32-54 | for atoms inside the cell, every image offset at which a pair is strictly within the cutoff is among the offsets |
| Distances.NeighborFound | mlp/ag/neighborlist.py:5-78 | every pair strictly within the cutoff appears in the tensor at its own image offset with its squared distance |
| Distances.StrainedEntry | mlp/ag/neighborlist.py:27-29 | the entries of a strained system are the masked squared lengths of the strained pair vectors |
| Distances.AsWrittenInCell | mlp/ag/neighborlist.py:5-78 | when the strained atoms already lie in the cell, the code as written and the corrected definition give the same result |
| Distances.UnwrappedNeighborMissed | mlp/ag/neighborlist.py:34-66 | as written, two atoms a cutoff-sized step apart via image −m, where m reaches beyond the ranges, have only zero entries |
| Oneway.AxisCount | mlp/ag/neighborlist.py:106-107 | `int(2·cutoff/h) + 1` is at least 1 |
| Oneway.MakeSetup | mlp/ag/neighborlist.py:101-114 | one wrapped position and one wrapping offset per atom |
| Oneway.BoxSpec | mlp/ag/neighborlist.py:117-133 | the loop's offsets are exactly those with n1 in [0, N0], n2 in [−N1, N1] and n3 in [−N2, N2], in row-major order |
| Oneway.HalfSpace | mlp/ag/neighborlist.py:139-140 | of a non-zero offset in the symmetric box and its negation, exactly one is visited |
| Oneway.ZeroVisitedOnce | mlp/ag/neighborlist.py:138-140 | the zero offset is visited, and only once |
| Oneway.Indices | mlp/ag/neighborlist.py:144 | the selected indices are exactly those whose mask entry holds, increasing |
| Oneway.Above | mlp/ag/neighborlist.py:146 | `i[i > a]` keeps exactly the indices above a, still increasing |
| Oneway.Found | mlp/ag/neighborlist.py:143-146 | for offset n the atoms found for a are exactly those strictly within the cutoff, and above a at the zero offset |
| Oneway.Shifted | mlp/ag/neighborlist.py:148-150 | one displacement per atom found |
| Oneway.OverStep | mlp/ag/neighborlist.py:138-151 | the lists after one more offset are the lists before it plus that offset's contribution |
| Oneway.VisitOffset | mlp/ag/neighborlist.py:141-151 | each atom's lists grow by the atoms found at n and their displacements n + offsets[j] − offsets[a]; the lists keep one entry per atom |
| Oneway.GetNeighborsOneway | mlp/ag/neighborlist.py:81-152 | each atom's neighbour and displacement lists are the concatenation, over the visited offsets in order, of what is found at each |
| Oneway.OverEntries | mlp/ag/neighborlist.py:147-151 | every list entry is an atom within the cutoff at a visited offset from the box, with displacement image + offsets[j] − offsets[a] |
| Oneway.OverComplete | mlp/ag/neighborlist.py:138-151 | an atom found at an offset of the loop is in the final list at that offset |
| Oneway.ListedIff | mlp/ag/neighborlist.py:138-151 | j is listed for a at image n iff n is a visited offset of the loop, j is strictly within the cutoff there, and j > a when n = 0 |
| Oneway.NoSelfPair | mlp/ag/neighborlist.py:145-146 | no atom lists itself at the zero image |
| Oneway.DisplacementIdentity | mlp/ag/neighborlist.py:141-150 | the pair vector between wrapped atoms at image n is the pair vector between the strained atoms at displacement n + offsets[j] − offsets[a] |
| Oneway.WrappedInCell | mlp/ag/neighborlist.py:109-113 | every `positions0` has fractional coordinates in the unit cube |
| Oneway.SetupWellFormed | mlp/ag/neighborlist.py:101-114 | the set-up holds wrapped atoms in the cell and the reach computed from the cutoff and the norms |
| Oneway.AxisReach | mlp/ag/neighborlist.py:106-107 | an image that spans at most x cells along an axis lies within ±`int(2x) + 1` |
| Oneway.Coverage | mlp/ag/neighborlist.py:105-133 | every image at which a pair is within the cutoff lies in the symmetric box ±N |
| Oneway.ReachPositive | mlp/ag/neighborlist.py:107 | N is at least 1 along each axis |
| Oneway.ListedInBox | mlp/ag/neighborlist.py:117-151 | over the whole loop, j is listed for a at image n iff n is visited, j is strictly within the cutoff there, and j > a when n = 0 |
| Oneway.ListedClose | mlp/ag/neighborlist.py:138-151 | a pair within the cutoff is listed for a at image n iff n is visited and, at the zero image, j > a |
| Oneway.VisitedOnce | mlp/ag/neighborlist.py:139-140 | within the symmetric box the zero offset is visited, and of every other offset and its negation exactly one |
| Oneway.ListedOnce | mlp/ag/neighborlist.py:138-151 | inside the box, j is listed for a at n exactly when a is not listed for j at −n |
| Oneway.OverNoRepeats | mlp/ag/neighborlist.py:138-151 | when the offsets visited are distinct, no (atom, image) entry occurs twice in an atom's list |
| Oneway.ListedAtMostOnce | mlp/ag/neighborlist.py:117-151 | over the loop's offsets, each atom's list holds every (atom, image) entry at most once |
| Oneway.PairOnce | mlp/ag/neighborlist.py:81-152 | every pair within the cutoff is in exactly one of the two atoms' lists, and neither list repeats an entry, so the pair is recorded exactly once |
| LennardJones.ParamDefaults | mlp/ag/lennardjones.py:29-30 | sigma and epsilon default to 1.0, and other keys do not affect them |
| LennardJones.Shift | mlp/ag/lennardjones.py:32-34 | the energy shift fails with ZeroDivisionError exactly when sigma is 0 |
| LennardJones.ShiftIsCutoffEnergy | mlp/ag/lennardjones.py:32-34 | for non-zero sigma, the shift e0 is the pair energy at the cutoff 3·sigma |
| LennardJones.C6NonzeroIffCounted | mlp/ag/lennardjones.py:38-44 | c6 is non-zero exactly for squared distances in (0, rc²], so the count of shifted pairs is the count of pairs within the cutoff |
| LennardJones.C6s | mlp/ag/lennardjones.py:41-43 | c6 is computed entrywise |
| LennardJones.PairTerms | mlp/ag/lennardjones.py:45-46 | the pair terms 4ε(c12 − c6) are computed entrywise |
| LennardJones.EnergyOfSquares | mlp/ag/lennardjones.py:32-49 | the energy of a list of squared distances fails exactly when sigma is 0 |
| LennardJones.Contributions | mlp/ag/lennardjones.py:41-46 | the shifted contributions are computed entrywise |
| LennardJones.ShiftVanishesAtCutoff | mlp/ag/lennardjones.py:34-46 | a pair exactly at the cutoff is counted and contributes 0: the potential is shifted to vanish there |
| LennardJones.UncountedContributeNothing | mlp/ag/lennardjones.py:38-43 | zero entries and entries beyond the cutoff contribute nothing and have c6 = 0 |
| LennardJones.EntryShares | mlp/ag/lennardjones.py:41-46 | `−e0 · count + Σ 4ε(c12 − c6)` equals the sum of the per-entry shifted contributions |
| LennardJones.EnergyIsHalfShiftedSum | mlp/ag/lennardjones.py:36-49 | the energy is half the sum of the shifted pair energies of the entries |
| LennardJones.NothingCountedZeroEnergy | mlp/ag/lennardjones.py:38-49 | with no pair within the cutoff, the energy is 0 |
| LennardJones.SumPermutation | mlp/ag/lennardjones.py:46 | the sum does not depend on the order of its terms |
| LennardJones.DoubleCountingHalved | mlp/ag/lennardjones.py:48-49 | when every pair occurs twice among the entries, the energy is the sum over the pairs, each counted once |
| LennardJones.Energy | mlp/ag/lennardjones.py:9-49 | fails with ZeroDivisionError when sigma is 0; otherwise fails with ValueError exactly when there are no atoms |
| LennardJones.EnergyOfTensor | mlp/ag/lennardjones.py:36-49 | once the distance tensor exists, the energy is that of its flattened entries |
| LennardJones.EnergyInCell | mlp/ag/lennardjones.py:9-49 | when the strained atoms already lie in the cell, `Energy` equals the energy computed over the as-written `get_distances`, so the model is the program's energy there |
| LennardJones.Volume | mlp/ag/lennardjones.py:95 | \|det(cell)\| is non-negative and zero exactly when the cell is singular |
| LennardJones.Symmetrized | mlp/ag/lennardjones.py:98 | `(der + derᵀ) / 2 / volume` is symmetric |
| LennardJones.Voigt | mlp/ag/lennardjones.py:90-99 | `take(result, [0, 4, 8, 5, 2, 1])` is [sxx, syy, szz, syz, sxz, sxy] |
| LennardJones.VoigtRoundTrip | mlp/ag/lennardjones.py:99 | the six Voigt components determine a symmetric matrix and are recovered from it |
| LennardJones.Stress | mlp/ag/lennardjones.py:95-99 | the stress has six components, and they are the Voigt form of the symmetrised derivative over the volume |
| LennardJones.SymmetricGradientStress | mlp/ag/lennardjones.py:98 | for a symmetric derivative the stress is just the derivative divided by the volume |
| LennardJones.StressOfTranspose | mlp/ag/lennardjones.py:98-99 | transposing the derivative does not change the stress |

## Left out

- Square roots and floating point are left out. All arithmetic is exact over `real`. `get_distances` returns squared distances, and its `d <= cutoff + skin` is modelled as `d² <= (cutoff + skin)²` with `cutoff + skin >= 0`. `energy` squares the tensor anyway.
- `np.linalg.inv`, `np.linalg.pinv` and `np.linalg.norm` are not computed. The inverse of the strained cell and the column norms of that inverse are parameters, and preconditions relate them to the cell. Singular cells, where `inv` raises and `pinv` returns a pseudo-inverse, are outside the model.
- NumPy's round-half-to-even in `round()` is not modelled. Its argument on line 112 of `mlp/ag/neighborlist.py` is already an integer, so the model uses that integer.
- `forces` and the derivative in `stress` are left out: automatic differentiation cannot be expressed here. `stress` takes the derivative `der` as a parameter and models the post-processing on lines 95-99.
- TensorFlow machinery is left out: tensors, dtypes, `convert_to_tensor` and graph execution. A tensor's static shape is a `seq<nat>`, and the boolean masks of `tri` are sequences of sequences of `bool`.
- TriUtils.Tri: for a negative N, or a negative M, the source raises. `tf.range(N)` and `tf.range(-k, M - k)` on lines 33-34 of `mlp/tf/utils.py` reject a limit below the start. The model does not raise: it clamps rows and columns at 0 and returns an empty mask. The index functions built on `Tri` inherit this clamp. Their `_from` variants read sizes from a shape and are unaffected.
- Oneway.GetNeighborsOneway: its `skin` parameter is unused in `mlp/ag/neighborlist.py:81-152` and stays unused in the model.
- Oneway.PairOnce and Distances.NeighborFound cover pairs strictly within the cutoff. Entries between `cutoff` and `cutoff + skin` in `get_distances` are described by `GetDistances` but are not proved complete.
- LennardJones.Energy uses the corrected `Distances.GetDistances`, not the as-written one. See Findings. `LennardJones.EnergyInCell` shows the two agree when the strained atoms lie in the cell. When an atom lies several cells outside, the modelled energy can differ from the program's.
- LennardJones.DoubleCountingHalved takes as a premise that the entries hold every pair twice. That premise is not derived for the tensor `get_distances` builds. `Distances.EntrySwap` gives only the equality of the two entries of a pair.
- Python's dynamic typing is left out. `params` is a map from strings to reals.

## Findings

| source | as written | input that shows it | evidently intended | confidence | as-written member | corrected member |
|---|---|---|---|---|---|---|
| mlp/ag/neighborlist.py:34-66 | the image ranges come from `positions · inv % 1`, the coordinates wrapped into the cell (lines 34-36), but the pair vectors come from the unwrapped positions (lines 62-66); an atom several cells outside the cell needs offsets the ranges never reach | unit cube, zero strain, atoms at (0.5, 0.5, 0.5) and (5.75, 0.5, 0.5), cutoff 1, skin 0.01: the pair is 0.25 apart through image (−5, 0, 0), but the offsets along x run over [−1, 2) only, so every entry for the pair is 0 | every pair within the cutoff appears, as `get_neighbors_oneway` achieves by wrapping atoms first (`positions0`, lines 109-113) | medium; not executed | Distances.UnwrappedNeighborMissed | Distances.GetDistances, Distances.NeighborFound |
