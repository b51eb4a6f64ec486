/** The dense distance tensor of `get_distances`: the (strained) atoms, a box
    of integer image offsets derived from the cutoff and the atoms' fractional
    coordinates, and for every (i, j, image) triple the distance from atom i to
    that image of atom j, zeroed when it is 0 or beyond `cutoff + skin`.

    Square roots are not modelled: the tensor holds the SQUARED entries, i.e.
    `get_distances(...)**2`, which is what the energy consumes. An entry `d`
    passes the test `d <= cutoff + skin` exactly when its square `d2` satisfies
    `WithinBound(d2, cutoff + skin)`. */
module Distances {
  import opened Common
  import opened Linalg
  import opened Ranges
  import opened Images
  import opened Cells

  type Tensor = seq<seq<seq<real>>>

  // ------------------------------------------------------------ image box

  /** `cutoff_radius * np.linalg.norm(inverse_cell, axis=0)`: how many cells
      the cutoff sphere spans along each fractional axis. */
  function Repeats(cutoff: real, norms: Vec3): (r: Vec3)
    ensures forall axis :: 0 <= axis < 3 ==> Comp(r, axis) == Extent(cutoff, Comp(norms, axis))
  {
    Vec3(Extent(cutoff, norms.x), Extent(cutoff, norms.y), Extent(cutoff, norms.z))
  }

  /** `np.dot(positions, inverse_cell) % 1`. */
  function FractionalCoords(ps: seq<Vec3>, inv: Mat3): (f: seq<Vec3>)
    ensures |f| == |ps|
    ensures forall i :: 0 <= i < |f| ==> f[i] == FracVec(Scaled(ps[i], inv))
  {
    seq(|ps|, i requires 0 <= i < |ps| => FracVec(Scaled(ps[i], inv)))
  }

  /** The smallest element of a non-empty list, `np.min`. */
  function MinOf(xs: seq<int>): (m: int)
    requires |xs| > 0
    ensures m in xs && forall x :: x in xs ==> m <= x
    decreases |xs|
  {
    if |xs| == 1 then xs[0]
    else
      var rest := MinOf(xs[1..]);
      assert forall x :: x in xs ==> x == xs[0] || x in xs[1..];
      if xs[0] <= rest then xs[0] else rest
  }

  /** The largest element of a non-empty list, `np.max`. */
  function MaxOf(xs: seq<int>): (m: int)
    requires |xs| > 0
    ensures m in xs && forall x :: x in xs ==> x <= m
    decreases |xs|
  {
    if |xs| == 1 then xs[0]
    else
      var rest := MaxOf(xs[1..]);
      assert forall x :: x in xs ==> x == xs[0] || x in xs[1..];
      if xs[0] >= rest then xs[0] else rest
  }

  /** `np.floor(fractional_coords - num_repeats)` along one axis. */
  function Lows(frac: seq<Vec3>, rep: Vec3, axis: nat): (r: seq<int>)
    requires axis < 3
    ensures |r| == |frac|
  {
    seq(|frac|, i requires 0 <= i < |frac| => Floor(Comp(frac[i], axis) - Comp(rep, axis)))
  }

  /** `np.ceil(fractional_coords + num_repeats)` along one axis. */
  function Highs(frac: seq<Vec3>, rep: Vec3, axis: nat): (r: seq<int>)
    requires axis < 3
    ensures |r| == |frac|
  {
    seq(|frac|, i requires 0 <= i < |frac| => Ceil(Comp(frac[i], axis) + Comp(rep, axis)))
  }

  /** `mins[axis]` and `maxs[axis]`. */
  function Low(frac: seq<Vec3>, rep: Vec3, axis: nat): int
    requires axis < 3 && |frac| > 0
  {
    MinOf(Lows(frac, rep, axis))
  }

  function High(frac: seq<Vec3>, rep: Vec3, axis: nat): int
    requires axis < 3 && |frac| > 0
  {
    MaxOf(Highs(frac, rep, axis))
  }

  /** `np.arange(mins[axis], maxs[axis])`: the half-open range of image indices along one axis. */
  function AxisRange(frac: seq<Vec3>, rep: Vec3, axis: nat): seq<int>
    requires axis < 3 && |frac| > 0
  {
    Range(Low(frac, rep, axis), High(frac, rep, axis))
  }

  /** The image offsets: the row-major product of the three axis ranges. */
  function Offsets(frac: seq<Vec3>, rep: Vec3): seq<IVec3>
    requires |frac| > 0
  {
    Product(AxisRange(frac, rep, 0), AxisRange(frac, rep, 1), AxisRange(frac, rep, 2))
  }

  /** An offset lies in the half-open box [mins, maxs) of every axis. */
  predicate InRanges(frac: seq<Vec3>, rep: Vec3, n: IVec3)
    requires |frac| > 0
  {
    && Low(frac, rep, 0) <= n.a < High(frac, rep, 0)
    && Low(frac, rep, 1) <= n.b < High(frac, rep, 1)
    && Low(frac, rep, 2) <= n.c < High(frac, rep, 2)
  }

  /** Length of the half-open range [lo, hi). */
  function Span(lo: int, hi: int): nat { if lo <= hi then hi - lo else 0 }

  /** The offsets are exactly the integer points of the half-open box, each
      once, in row-major order with axis 0 outermost; there are as many as the
      product of the three range lengths. */
  lemma OffsetsSpec(frac: seq<Vec3>, rep: Vec3)
    requires |frac| > 0
    ensures forall n :: n in Offsets(frac, rep) <==> InRanges(frac, rep, n)
    ensures LexSorted(Offsets(frac, rep))
    ensures |Offsets(frac, rep)|
         == Span(Low(frac, rep, 0), High(frac, rep, 0))
          * (Span(Low(frac, rep, 1), High(frac, rep, 1)) * Span(Low(frac, rep, 2), High(frac, rep, 2)))
  {
    var lo0, lo1, lo2 := Low(frac, rep, 0), Low(frac, rep, 1), Low(frac, rep, 2);
    var hi0, hi1, hi2 := High(frac, rep, 0), High(frac, rep, 1), High(frac, rep, 2);
    var r0, r1, r2 := Range(lo0, hi0), Range(lo1, hi1), Range(lo2, hi2);
    RangeMembers(lo0, hi0);
    RangeMembers(lo1, hi1);
    RangeMembers(lo2, hi2);
    ProductLength(r0, r1, r2);
    ProductSorted(r0, r1, r2);
    forall n: IVec3 ensures n in Offsets(frac, rep) <==> InRanges(frac, rep, n) {
      RangesProductMember(lo0, hi0, lo1, hi1, lo2, hi2, n);
    }
  }

  /** With a positive reach on every axis the box contains the zero offset:
      `mins <= 0 < maxs` along each axis. */
  lemma ZeroOffsetInRanges(frac: seq<Vec3>, rep: Vec3, axis: nat)
    requires |frac| > 0 && axis < 3 && 0.0 < Comp(rep, axis)
    requires forall i :: 0 <= i < |frac| ==> 0.0 <= Comp(frac[i], axis) < 1.0
    ensures Low(frac, rep, axis) <= 0 < High(frac, rep, axis)
  {
    var lows, highs := Lows(frac, rep, axis), Highs(frac, rep, axis);
    assert lows[0] in lows && highs[0] in highs;
  }

  // -------------------------------------------------- the distance tensor

  /** `d <= bound` for the non-negative root `d` of `d2`. */
  predicate WithinBound(d2: real, bound: real) { 0.0 <= bound && d2 <= bound * bound }

  /** One entry, from the squared length `d2` of its pair vector: zero when
      `d2` is zero, zero beyond the bound, `d2` otherwise. */
  function Masked(d2: real, bound: real): real {
    if d2 == 0.0 then 0.0 else if WithinBound(d2, bound) then d2 else 0.0
  }

  /** The tensor entry for atoms `i`, `j` and image offset `n`. */
  function Entry(ps: seq<Vec3>, cell: Mat3, i: nat, j: nat, n: IVec3, bound: real): real
    requires i < |ps| && j < |ps|
  {
    Masked(SqNorm(PairVector(ps, cell, i, j, n)), bound)
  }

  /** The (natoms, natoms, noffsets) tensor over the given offsets. */
  function Tabulate(ps: seq<Vec3>, cell: Mat3, offs: seq<IVec3>, bound: real): (t: Tensor)
    ensures |t| == |ps|
    ensures forall i :: 0 <= i < |ps| ==> |t[i]| == |ps|
    ensures forall i, j :: 0 <= i < |ps| && 0 <= j < |ps| ==> |t[i][j]| == |offs|
    ensures forall i, j, k :: 0 <= i < |ps| && 0 <= j < |ps| && 0 <= k < |offs| ==>
      t[i][j][k] == Entry(ps, cell, i, j, offs[k], bound)
  {
    seq(|ps|, i requires 0 <= i < |ps| =>
      seq(|ps|, j requires 0 <= j < |ps| =>
        seq(|offs|, k requires 0 <= k < |offs| => Entry(ps, cell, i, j, offs[k], bound))))
  }

  /** The error the reductions `np.min`/`np.max` raise when there are no atoms. */
  const EmptyReduction: Error := ValueError("zero-size array to reduction operation minimum which has no identity")

  /** `get_distances(positions, cell, cutoff_radius, skin, strain)` as written,
      squared. `inv` is the inverse of the strained cell and `norms` its column
      norms. The image ranges come from the fractional coordinates taken mod 1,
      but the pair vectors from the positions as given, which need not lie in
      the cell (see `UnwrappedNeighborMissed`). */
  function GetDistancesAsWritten(positions: seq<Vec3>, cell: Mat3, cutoff: real, skin: real, strain: Mat3,
                                 inv: Mat3, norms: Vec3): (r: Result<Tensor>)
    requires IsInverse(StrainCell(strain, cell), inv) && ColumnNorms(inv, norms)
    ensures r.Err? <==> |positions| == 0
    ensures r.Err? ==> r.error == EmptyReduction
    ensures r.Ok? ==>
      var ps, c := StrainPositions(strain, positions), StrainCell(strain, cell);
      var offs := Offsets(FractionalCoords(ps, inv), Repeats(cutoff, norms));
      && |r.value| == |positions|
      && (forall i :: 0 <= i < |positions| ==> |r.value[i]| == |positions|)
      && (forall i, j :: 0 <= i < |positions| && 0 <= j < |positions| ==> |r.value[i][j]| == |offs|)
      && forall i, j, k :: 0 <= i < |positions| && 0 <= j < |positions| && 0 <= k < |offs| ==>
           var d2 := SqNorm(PairVector(ps, c, i, j, offs[k]));
           && (r.value[i][j][k] != 0.0 <==> d2 != 0.0 && WithinBound(d2, cutoff + skin))
           && (r.value[i][j][k] != 0.0 ==> r.value[i][j][k] == d2)
  {
    if |positions| == 0 then Err(EmptyReduction)
    else
      var c := StrainCell(strain, cell);
      var ps := StrainPositions(strain, positions);
      var offs := Offsets(FractionalCoords(ps, inv), Repeats(cutoff, norms));
      Ok(Tabulate(ps, c, offs, cutoff + skin))
  }

  /** `get_distances` with the strained atoms first wrapped into the cell, as
      `get_neighbors_oneway` does with `positions0`: the image ranges then
      belong to the very positions the pair vectors start from, and every pair
      within the cutoff is found (`NeighborFound`). Wrapping moves each atom by
      a lattice vector, so the set of periodic distances is unchanged. */
  function GetDistances(positions: seq<Vec3>, cell: Mat3, cutoff: real, skin: real, strain: Mat3,
                        inv: Mat3, norms: Vec3): (r: Result<Tensor>)
    requires IsInverse(StrainCell(strain, cell), inv) && ColumnNorms(inv, norms)
    ensures r.Err? <==> |positions| == 0
    ensures r.Err? ==> r.error == EmptyReduction
    ensures r.Ok? ==>
      var c := StrainCell(strain, cell);
      var ws := WrapAll(StrainPositions(strain, positions), c, inv);
      var offs := Offsets(FractionalCoords(ws, inv), Repeats(cutoff, norms));
      && |r.value| == |positions|
      && (forall i :: 0 <= i < |positions| ==> |r.value[i]| == |positions|)
      && (forall i, j :: 0 <= i < |positions| && 0 <= j < |positions| ==> |r.value[i][j]| == |offs|)
      && forall i, j, k :: 0 <= i < |positions| && 0 <= j < |positions| && 0 <= k < |offs| ==>
           var d2 := SqNorm(PairVector(ws, c, i, j, offs[k]));
           && (r.value[i][j][k] != 0.0 <==> d2 != 0.0 && WithinBound(d2, cutoff + skin))
           && (r.value[i][j][k] != 0.0 ==> r.value[i][j][k] == d2)
  {
    if |positions| == 0 then Err(EmptyReduction)
    else
      var c := StrainCell(strain, cell);
      var ws := WrapAll(StrainPositions(strain, positions), c, inv);
      var offs := Offsets(FractionalCoords(ws, inv), Repeats(cutoff, norms));
      Ok(Tabulate(ws, c, offs, cutoff + skin))
  }

  // ------------------------------------------------------------ properties

  /** Every entry is zero or a squared length in (0, (cutoff + skin)^2]:
      nothing beyond `cutoff + skin` survives. */
  lemma EntryRange(ps: seq<Vec3>, cell: Mat3, i: nat, j: nat, n: IVec3, bound: real)
    requires i < |ps| && j < |ps|
    ensures var e := Entry(ps, cell, i, j, n, bound);
      e == 0.0 || (0.0 < e && 0.0 <= bound && e <= bound * bound)
  {
    SqNormNonNegative(PairVector(ps, cell, i, j, n));
  }

  /** An atom and itself at the zero image give a zero entry. */
  lemma SelfEntryZero(ps: seq<Vec3>, cell: Mat3, i: nat, bound: real)
    requires i < |ps|
    ensures Entry(ps, cell, i, i, IZero, bound) == 0.0
  {
    SelfPairVector(ps, cell, i);
  }

  /** The entry of atom `j` seen from `i` at image `n` equals the entry of
      `i` seen from `j` at image `-n`: the dense tensor holds every pair from
      both sides when both images are enumerated. */
  lemma EntrySwap(ps: seq<Vec3>, cell: Mat3, i: nat, j: nat, n: IVec3, bound: real)
    requires i < |ps| && j < |ps|
    ensures Entry(ps, cell, j, i, INeg(n), bound) == Entry(ps, cell, i, j, n, bound)
  {
    PairVectorSwap(ps, cell, i, j, n);
  }

  /** Fractional coordinates taken mod 1 lie in [0, 1). */
  lemma FractionalInCell(ps: seq<Vec3>, inv: Mat3, i: nat, axis: nat)
    requires i < |ps| && axis < 3
    ensures 0.0 <= Comp(FractionalCoords(ps, inv)[i], axis) < 1.0
  {
  }

  /** With a positive cutoff the zero offset is always one of the images,
      since every column of the inverse cell is nonzero. */
  lemma ZeroOffsetIncluded(positions: seq<Vec3>, cell: Mat3, cutoff: real, strain: Mat3, inv: Mat3, norms: Vec3)
    requires IsInverse(StrainCell(strain, cell), inv) && ColumnNorms(inv, norms)
    requires |positions| > 0 && 0.0 < cutoff
    ensures var ws := WrapAll(StrainPositions(strain, positions), StrainCell(strain, cell), inv);
      var frac, rep := FractionalCoords(ws, inv), Repeats(cutoff, norms);
      && (forall axis :: 0 <= axis < 3 ==> Low(frac, rep, axis) <= 0 < High(frac, rep, axis))
      && IZero in Offsets(frac, rep)
  {
    var ws := WrapAll(StrainPositions(strain, positions), StrainCell(strain, cell), inv);
    var frac, rep := FractionalCoords(ws, inv), Repeats(cutoff, norms);
    forall axis | 0 <= axis < 3 ensures Low(frac, rep, axis) <= 0 < High(frac, rep, axis) {
      InverseColumnsNonzero(StrainCell(strain, cell), inv, norms, axis);
      MulMonoStrict(0.0, Comp(norms, axis), cutoff);
      forall i | 0 <= i < |frac| ensures 0.0 <= Comp(frac[i], axis) < 1.0 {
        FractionalInCell(ws, inv, i, axis);
      }
      ZeroOffsetInRanges(frac, rep, axis);
    }
    OffsetsSpec(frac, rep);
    assert InRanges(frac, rep, IZero) by {
      assert Low(frac, rep, 0) <= 0 < High(frac, rep, 0);
      assert Low(frac, rep, 1) <= 0 < High(frac, rep, 1);
      assert Low(frac, rep, 2) <= 0 < High(frac, rep, 2);
    }
  }

  /** The entry of an atom with itself at the zero image is zero: together
      with `ZeroOffsetIncluded`, every atom's self-distance is present in the
      tensor and masked out. */
  lemma SelfEntriesMasked(positions: seq<Vec3>, cell: Mat3, cutoff: real, skin: real, strain: Mat3,
                          inv: Mat3, norms: Vec3, i: nat)
    requires IsInverse(StrainCell(strain, cell), inv) && ColumnNorms(inv, norms)
    requires i < |positions|
    ensures var t := GetDistances(positions, cell, cutoff, skin, strain, inv, norms);
      var ws := WrapAll(StrainPositions(strain, positions), StrainCell(strain, cell), inv);
      var offs := Offsets(FractionalCoords(ws, inv), Repeats(cutoff, norms));
      && t.Ok?
      && forall k :: 0 <= k < |offs| && offs[k] == IZero ==> t.value[i][i][k] == 0.0
  {
    var c := StrainCell(strain, cell);
    var ws := WrapAll(StrainPositions(strain, positions), c, inv);
    var offs := Offsets(FractionalCoords(ws, inv), Repeats(cutoff, norms));
    GetDistancesTabulates(positions, cell, cutoff, skin, strain, inv, norms);
    var t := GetDistances(positions, cell, cutoff, skin, strain, inv, norms);
    TabulatedSelfEntries(ws, c, offs, cutoff + skin, t.value, i);
  }

  /** The result is the tabulation of the wrapped, strained system over the offsets. */
  lemma GetDistancesTabulates(positions: seq<Vec3>, cell: Mat3, cutoff: real, skin: real, strain: Mat3,
                              inv: Mat3, norms: Vec3)
    requires IsInverse(StrainCell(strain, cell), inv) && ColumnNorms(inv, norms)
    requires |positions| > 0
    ensures var t := GetDistances(positions, cell, cutoff, skin, strain, inv, norms);
      var c := StrainCell(strain, cell);
      var ws := WrapAll(StrainPositions(strain, positions), c, inv);
      && t.Ok?
      && t.value == Tabulate(ws, c, Offsets(FractionalCoords(ws, inv), Repeats(cutoff, norms)), cutoff + skin)
  {
  }

  /** The tabulated tensor `t` has zero self-entries at every zero offset. */
  lemma TabulatedSelfEntries(ps: seq<Vec3>, cell: Mat3, offs: seq<IVec3>, bound: real, t: Tensor, i: nat)
    requires i < |ps| && t == Tabulate(ps, cell, offs, bound)
    ensures forall k :: 0 <= k < |offs| && offs[k] == IZero ==> t[i][i][k] == 0.0
  {
    forall k | 0 <= k < |offs| && offs[k] == IZero ensures t[i][i][k] == 0.0 {
      TabulatedSelfEntry(ps, cell, offs, bound, i, k);
    }
  }

  /** In the tabulated tensor, an atom and itself at a zero offset give zero. */
  lemma TabulatedSelfEntry(ps: seq<Vec3>, cell: Mat3, offs: seq<IVec3>, bound: real, i: nat, k: nat)
    requires i < |ps| && k < |offs| && offs[k] == IZero
    ensures Tabulate(ps, cell, offs, bound)[i][i][k] == 0.0
  {
    SelfEntryZero(ps, cell, i, bound);
  }

  // ------------------------------------------------------------- coverage

  /** Along one axis: an integer `k` that moves a point `fj` of [0, 1) to
      strictly within `r` of a point `fi` of [0, 1) lies in the half-open
      range `[floor(fi - r), ceil(fi + r))` built for `fi`. */
  lemma AxisCovered(k: int, t: real, fi: real, fj: real, r: real)
    requires 0.0 <= fi < 1.0 && 0.0 <= fj < 1.0
    requires -r < t < r && t == fj + k as real - fi
    ensures Floor(fi - r) <= k < Ceil(fi + r)
  {
  }

  /** A wrapped atom's fractional coordinates are already in [0, 1), so
      taking them mod 1 again changes nothing. */
  lemma WrappedFractional(ps: seq<Vec3>, cell: Mat3, inv: Mat3, i: nat)
    requires IsInverse(cell, inv) && i < |ps|
    ensures FractionalCoords(WrapAll(ps, cell, inv), inv)[i] == Scaled(WrapAll(ps, cell, inv)[i], inv)
  {
    var s := Scaled(ps[i], inv);
    WrapInCell(ps[i], cell, inv);
    FracUnique(Frac(s.x), Frac(s.x), 0);
    FracUnique(Frac(s.y), Frac(s.y), 0);
    FracUnique(Frac(s.z), Frac(s.z), 0);
  }

  /** Along each axis, the image offset of a pair strictly within the cutoff
      lies in that axis's range, for atoms that lie in the cell. */
  lemma AxisInRanges(ws: seq<Vec3>, c: Mat3, inv: Mat3, norms: Vec3, cutoff: real, i: nat, j: nat, n: IVec3, axis: nat)
    requires IsInverse(c, inv) && ColumnNorms(inv, norms) && 0.0 <= cutoff && axis < 3
    requires i < |ws| && j < |ws|
    requires FractionalCoords(ws, inv)[i] == Scaled(ws[i], inv) && FractionalCoords(ws, inv)[j] == Scaled(ws[j], inv)
    requires SqNorm(PairVector(ws, c, i, j, n)) < cutoff * cutoff
    ensures Low(FractionalCoords(ws, inv), Repeats(cutoff, norms), axis) <= IComp(n, axis)
                                                                     < High(FractionalCoords(ws, inv), Repeats(cutoff, norms), axis)
  {
    var frac, rep := FractionalCoords(ws, inv), Repeats(cutoff, norms);
    var v := PairVector(ws, c, i, j, n);
    InverseColumnsNonzero(c, inv, norms, axis);
    ScaledReachStrict(v, inv, norms, cutoff, axis);
    ScaledPairVector(ws, c, inv, i, j, n);
    FractionalInCell(ws, inv, i, axis);
    FractionalInCell(ws, inv, j, axis);
    var fi, fj := Comp(frac[i], axis), Comp(frac[j], axis);
    assert Comp(Scaled(v, inv), axis) == fj + IComp(n, axis) as real - fi;
    AxisCovered(IComp(n, axis), Comp(Scaled(v, inv), axis), fi, fj, Comp(rep, axis));
    var lows, highs := Lows(frac, rep, axis), Highs(frac, rep, axis);
    assert lows[i] in lows && highs[i] in highs;
  }

  /** For atoms that lie in the cell, the image offset of every pair strictly
      within the cutoff is one of the offsets. */
  lemma ImagesCovered(ws: seq<Vec3>, c: Mat3, inv: Mat3, norms: Vec3, cutoff: real, i: nat, j: nat, n: IVec3)
    requires IsInverse(c, inv) && ColumnNorms(inv, norms) && 0.0 <= cutoff
    requires i < |ws| && j < |ws|
    requires FractionalCoords(ws, inv)[i] == Scaled(ws[i], inv) && FractionalCoords(ws, inv)[j] == Scaled(ws[j], inv)
    requires SqNorm(PairVector(ws, c, i, j, n)) < cutoff * cutoff
    ensures n in Offsets(FractionalCoords(ws, inv), Repeats(cutoff, norms))
  {
    var frac, rep := FractionalCoords(ws, inv), Repeats(cutoff, norms);
    AxisInRanges(ws, c, inv, norms, cutoff, i, j, n, 0);
    AxisInRanges(ws, c, inv, norms, cutoff, i, j, n, 1);
    AxisInRanges(ws, c, inv, norms, cutoff, i, j, n, 2);
    OffsetsSpec(frac, rep);
    assert InRanges(frac, rep, n);
  }

  /** Every pair strictly within the cutoff is in the tensor: at its own image
      offset, with its squared distance. */
  lemma NeighborFound(positions: seq<Vec3>, cell: Mat3, cutoff: real, skin: real, strain: Mat3,
                      inv: Mat3, norms: Vec3, i: nat, j: nat, n: IVec3)
    requires IsInverse(StrainCell(strain, cell), inv) && ColumnNorms(inv, norms)
    requires 0.0 <= cutoff && 0.0 <= skin && i < |positions| && j < |positions|
    requires var c := StrainCell(strain, cell);
      SqNorm(PairVector(WrapAll(StrainPositions(strain, positions), c, inv), c, i, j, n)) < cutoff * cutoff
    ensures var c := StrainCell(strain, cell);
      var ws := WrapAll(StrainPositions(strain, positions), c, inv);
      var offs := Offsets(FractionalCoords(ws, inv), Repeats(cutoff, norms));
      var t := GetDistances(positions, cell, cutoff, skin, strain, inv, norms);
      && t.Ok?
      && exists k :: 0 <= k < |offs| && offs[k] == n && t.value[i][j][k] == SqNorm(PairVector(ws, c, i, j, n))
  {
    var c, ps := StrainCell(strain, cell), StrainPositions(strain, positions);
    var ws := WrapAll(ps, c, inv);
    WrappedFractional(ps, c, inv, i);
    WrappedFractional(ps, c, inv, j);
    GetDistancesTabulates(positions, cell, cutoff, skin, strain, inv, norms);
    var t := GetDistances(positions, cell, cutoff, skin, strain, inv, norms);
    TabulatedNeighbor(ws, c, inv, norms, cutoff, skin, t.value, i, j, n);
  }

  /** `NeighborFound` for a tabulation `t` of atoms that lie in the cell. */
  lemma TabulatedNeighbor(ws: seq<Vec3>, c: Mat3, inv: Mat3, norms: Vec3, cutoff: real, skin: real,
                          t: Tensor, i: nat, j: nat, n: IVec3)
    requires IsInverse(c, inv) && ColumnNorms(inv, norms) && 0.0 <= cutoff && 0.0 <= skin
    requires i < |ws| && j < |ws|
    requires FractionalCoords(ws, inv)[i] == Scaled(ws[i], inv) && FractionalCoords(ws, inv)[j] == Scaled(ws[j], inv)
    requires SqNorm(PairVector(ws, c, i, j, n)) < cutoff * cutoff
    requires t == Tabulate(ws, c, Offsets(FractionalCoords(ws, inv), Repeats(cutoff, norms)), cutoff + skin)
    ensures var offs := Offsets(FractionalCoords(ws, inv), Repeats(cutoff, norms));
      exists k :: 0 <= k < |offs| && offs[k] == n && t[i][j][k] == SqNorm(PairVector(ws, c, i, j, n))
  {
    var offs := Offsets(FractionalCoords(ws, inv), Repeats(cutoff, norms));
    ImagesCovered(ws, c, inv, norms, cutoff, i, j, n);
    var k :| 0 <= k < |offs| && offs[k] == n;
    var d2 := SqNorm(PairVector(ws, c, i, j, n));
    SqNormNonNegative(PairVector(ws, c, i, j, n));
    SquareMono(cutoff, cutoff + skin);
    assert Masked(d2, cutoff + skin) == d2;
    assert t[i][j][k] == d2;
  }

  /** The tensor of a strained system is built from the strained pair vectors
      `(I + strain) v` of the unstrained system. */
  lemma StrainedEntry(strain: Mat3, positions: seq<Vec3>, cell: Mat3, i: nat, j: nat, n: IVec3, bound: real)
    requires i < |positions| && j < |positions|
    ensures Entry(StrainPositions(strain, positions), StrainCell(strain, cell), i, j, n, bound)
         == Masked(SqNorm(Strain(strain, PairVector(positions, cell, i, j, n))), bound)
  {
    StrainPairVector(strain, positions, cell, i, j, n);
  }

  /** Where the strained atoms already lie in the cell, the code as written
      and the corrected definition agree: wrapping moves nothing. */
  lemma AsWrittenInCell(positions: seq<Vec3>, cell: Mat3, cutoff: real, skin: real, strain: Mat3,
                        inv: Mat3, norms: Vec3)
    requires IsInverse(StrainCell(strain, cell), inv) && ColumnNorms(inv, norms)
    requires forall i :: 0 <= i < |positions| ==> InUnitCube(Scaled(StrainPositions(strain, positions)[i], inv))
    ensures GetDistancesAsWritten(positions, cell, cutoff, skin, strain, inv, norms)
         == GetDistances(positions, cell, cutoff, skin, strain, inv, norms)
  {
    WrapAllInCell(StrainPositions(strain, positions), StrainCell(strain, cell), inv);
  }

  // ------------------------------------------- atoms outside the cell, as written

  /** As written, an atom outside the cell can be missed. Let the strained
      atom 1 sit `m` cells away from a point `e` off atom 0, with `e` shorter
      than the cutoff and `m` far along the first axis. Through the image
      `-m` the pair vector is `e`, within the cutoff; but the ranges come from
      the coordinates mod 1, so they start no further back than
      `-cutoff * norms.x - 1`, and every image they reach keeps the pair more
      than `cutoff + skin` apart: every entry for the pair (0, 1) is zero.
      The unit cube with atoms at (0.5, 0.5, 0.5) and (5.75, 0.5, 0.5), cutoff
      1 and skin 0.01 is an instance, with `m = (5, 0, 0)` and `e = (0.25, 0, 0)`. */
  lemma UnwrappedNeighborMissed(positions: seq<Vec3>, cell: Mat3, cutoff: real, skin: real, strain: Mat3,
                                inv: Mat3, norms: Vec3, m: IVec3, e: Vec3)
    requires IsInverse(StrainCell(strain, cell), inv) && ColumnNorms(inv, norms)
    requires |positions| == 2 && 0.0 <= cutoff && 0.0 <= skin
    requires var ps := StrainPositions(strain, positions);
      ps[1] == Add(Add(ps[0], Lattice(m, StrainCell(strain, cell))), e)
    requires SqNorm(e) < cutoff * cutoff
    requires Extent(3.0 * cutoff + skin, norms.x) + 1.0 <= m.a as real
    ensures PairVector(StrainPositions(strain, positions), StrainCell(strain, cell), 0, 1, INeg(m)) == e
    ensures var t := GetDistancesAsWritten(positions, cell, cutoff, skin, strain, inv, norms);
      && t.Ok? && |t.value[0][1]| > 0
      && forall k :: 0 <= k < |t.value[0][1]| ==> t.value[0][1][k] == 0.0
  {
    var ps, c := StrainPositions(strain, positions), StrainCell(strain, cell);
    LatticeNeg(m, c);
    var frac, rep := FractionalCoords(ps, inv), Repeats(cutoff, norms);
    SqNormNonNegative(e);
    AsWrittenRanges(ps, c, inv, norms, cutoff);
    var t := GetDistancesAsWritten(positions, cell, cutoff, skin, strain, inv, norms);
    assert t == Ok(Tabulate(ps, c, Offsets(frac, rep), cutoff + skin));
    FarImages(ps, c, inv, norms, cutoff, skin, m, e, t.value);
  }

  /** The ranges built from the coordinates mod 1 are never empty, and along
      the first axis they start after `-cutoff * norms.x - 1`. */
  lemma AsWrittenRanges(ps: seq<Vec3>, c: Mat3, inv: Mat3, norms: Vec3, cutoff: real)
    requires IsInverse(c, inv) && ColumnNorms(inv, norms)
    requires |ps| > 0 && 0.0 < cutoff
    ensures var frac, rep := FractionalCoords(ps, inv), Repeats(cutoff, norms);
      && IZero in Offsets(frac, rep)
      && -Extent(cutoff, norms.x) - 1.0 < Low(frac, rep, 0) as real
  {
    var frac, rep := FractionalCoords(ps, inv), Repeats(cutoff, norms);
    forall axis | 0 <= axis < 3 ensures Low(frac, rep, axis) <= 0 < High(frac, rep, axis) {
      InverseColumnsNonzero(c, inv, norms, axis);
      MulMonoStrict(0.0, cutoff, Comp(norms, axis));
      forall i | 0 <= i < |frac| ensures 0.0 <= Comp(frac[i], axis) < 1.0 {
        FractionalInCell(ps, inv, i, axis);
      }
      ZeroOffsetInRanges(frac, rep, axis);
    }
    OffsetsSpec(frac, rep);
    assert InRanges(frac, rep, IZero);
    RangesStartNear(frac, rep);
  }

  /** Every image of the ranges built from the coordinates mod 1 leaves the
      pair (0, 1) of `UnwrappedNeighborMissed` beyond `cutoff + skin`. */
  lemma FarImages(ps: seq<Vec3>, c: Mat3, inv: Mat3, norms: Vec3, cutoff: real, skin: real,
                  m: IVec3, e: Vec3, t: Tensor)
    requires IsInverse(c, inv) && ColumnNorms(inv, norms)
    requires |ps| == 2 && 0.0 <= cutoff && 0.0 <= skin
    requires ps[1] == Add(Add(ps[0], Lattice(m, c)), e)
    requires SqNorm(e) < cutoff * cutoff
    requires Extent(3.0 * cutoff + skin, norms.x) + 1.0 <= m.a as real
    requires -Extent(cutoff, norms.x) - 1.0 < Low(FractionalCoords(ps, inv), Repeats(cutoff, norms), 0) as real
    requires t == Tabulate(ps, c, Offsets(FractionalCoords(ps, inv), Repeats(cutoff, norms)), cutoff + skin)
    ensures forall k :: 0 <= k < |t[0][1]| ==> t[0][1][k] == 0.0
  {
    var frac, rep := FractionalCoords(ps, inv), Repeats(cutoff, norms);
    var offs := Offsets(frac, rep);
    OffsetsSpec(frac, rep);
    forall k | 0 <= k < |offs| ensures t[0][1][k] == 0.0 {
      assert InRanges(frac, rep, offs[k]);
      FarImage(ps, c, inv, norms, cutoff, skin, m, e, offs[k]);
    }
  }

  /** Built from coordinates in [0, 1), the range along the first axis starts
      after `-rep.x - 1`. */
  lemma RangesStartNear(frac: seq<Vec3>, rep: Vec3)
    requires |frac| > 0
    requires forall i :: 0 <= i < |frac| ==> 0.0 <= frac[i].x
    ensures -rep.x - 1.0 < Low(frac, rep, 0) as real
  {
    var lows := Lows(frac, rep, 0);
    assert Low(frac, rep, 0) in lows;
  }

  /** An image that starts after `-cutoff * norms.x - 1` along the first axis
      keeps atom 1 more than `cutoff + skin` from atom 0. */
  lemma FarImage(ps: seq<Vec3>, c: Mat3, inv: Mat3, norms: Vec3, cutoff: real, skin: real,
                 m: IVec3, e: Vec3, n: IVec3)
    requires IsInverse(c, inv) && ColumnNorms(inv, norms)
    requires |ps| == 2 && 0.0 <= cutoff && 0.0 <= skin
    requires ps[1] == Add(Add(ps[0], Lattice(m, c)), e)
    requires SqNorm(e) < cutoff * cutoff
    requires Extent(3.0 * cutoff + skin, norms.x) + 1.0 <= m.a as real
    requires -Extent(cutoff, norms.x) - 1.0 < n.a as real
    ensures Entry(ps, c, 0, 1, n, cutoff + skin) == 0.0
  {
    WithinReach(e, c, inv, norms, cutoff);
    var bound := cutoff + skin;
    FarBound(cutoff, skin, bound, norms.x, m.a as real, n.a as real, Scaled(e, inv).x);
    FarAlong(ps, c, inv, norms, m, e, n, bound);
  }

  /** Through image `n`, atom 1 is beyond `bound` when `m.a + n.a` cells plus
      the fractional extent of `e` clear `bound * norms.x`. */
  lemma FarAlong(ps: seq<Vec3>, c: Mat3, inv: Mat3, norms: Vec3, m: IVec3, e: Vec3, n: IVec3, bound: real)
    requires IsInverse(c, inv) && ColumnNorms(inv, norms) && 0.0 <= bound
    requires |ps| == 2 && ps[1] == Add(Add(ps[0], Lattice(m, c)), e)
    requires Extent(bound, norms.x) < m.a as real + n.a as real + Scaled(e, inv).x
    ensures Entry(ps, c, 0, 1, n, bound) == 0.0
  {
    ShiftedScaled(ps, c, inv, m, e, n);
    BeyondReach(PairVector(ps, c, 0, 1, n), inv, norms, bound);
  }

  /** A vector shorter than `cutoff` has first fractional coordinate above
      `-cutoff * norms.x`. */
  lemma WithinReach(e: Vec3, c: Mat3, inv: Mat3, norms: Vec3, cutoff: real)
    requires IsInverse(c, inv) && ColumnNorms(inv, norms)
    requires 0.0 <= cutoff && SqNorm(e) < cutoff * cutoff
    ensures -Extent(cutoff, norms.x) < Scaled(e, inv).x
  {
    InverseColumnsNonzero(c, inv, norms, 0);
    ScaledReachStrict(e, inv, norms, cutoff, 0);
  }

  /** A vector whose first fractional coordinate exceeds `bound * norms.x`
      is longer than `bound`. */
  lemma BeyondReach(v: Vec3, inv: Mat3, norms: Vec3, bound: real)
    requires ColumnNorms(inv, norms) && 0.0 <= bound
    requires Extent(bound, norms.x) < Scaled(v, inv).x
    ensures !WithinBound(SqNorm(v), bound)
  {
    if WithinBound(SqNorm(v), bound) {
      ScaledReach(v, inv, norms, bound, 0);
      assert false;
    }
  }

  /** Along the first fractional axis, the pair vector through image `n`
      moves by `m.a + n.a` cells plus the fractional extent of `e`. */
  lemma ShiftedScaled(ps: seq<Vec3>, c: Mat3, inv: Mat3, m: IVec3, e: Vec3, n: IVec3)
    requires IsInverse(c, inv)
    requires |ps| == 2 && ps[1] == Add(Add(ps[0], Lattice(m, c)), e)
    ensures Scaled(PairVector(ps, c, 0, 1, n), inv).x == m.a as real + n.a as real + Scaled(e, inv).x
  {
    ScaledPairVector(ps, c, inv, 0, 1, n);
    VecMatAdd(Add(ps[0], Lattice(m, c)), e, inv);
    VecMatAdd(ps[0], Lattice(m, c), inv);
    LatticeFractional(m, c, inv);
  }

  /** The arithmetic of `FarImage`: `m.a + n.a + ex` clears `bound * norm`. */
  lemma FarBound(cutoff: real, skin: real, bound: real, norm: real, ma: real, na: real, ex: real)
    requires 0.0 <= cutoff && 0.0 <= skin && bound == cutoff + skin
    requires -Extent(cutoff, norm) < ex && -Extent(cutoff, norm) - 1.0 < na
    requires Extent(3.0 * cutoff + skin, norm) + 1.0 <= ma
    ensures 0.0 <= bound && Extent(bound, norm) < ma + na + ex
  {
    assert (3.0 * cutoff + skin) * norm == 3.0 * (cutoff * norm) + skin * norm;
    assert bound * norm == cutoff * norm + skin * norm;
  }
}
