/** Cell geometry shared by both neighbour-list builders: the strain applied
    to cell and positions, fractional coordinates taken mod 1, wrapping atoms
    back into the cell, and the bound on how far (in fractional units) a
    vector of bounded length can reach along each cell axis. */
module Cells {
  import opened Linalg

  // ---------------------------------------------------------------- strain

  /** `np.eye(3) + strain`. */
  function StrainTensor(strain: Mat3): Mat3 { MatAdd(Identity, strain) }

  /** One row of `np.dot(strain_tensor, a.T).T`: the tensor applied to a row vector. */
  function Strain(strain: Mat3, v: Vec3): Vec3 { MatVec(StrainTensor(strain), v) }

  /** The strained cell: each lattice vector (row) is strained. */
  function StrainCell(strain: Mat3, cell: Mat3): Mat3 {
    Mat3(Strain(strain, cell.r0), Strain(strain, cell.r1), Strain(strain, cell.r2))
  }

  /** The strained positions, row by row. */
  function StrainPositions(strain: Mat3, positions: seq<Vec3>): (r: seq<Vec3>)
    ensures |r| == |positions|
  {
    seq(|positions|, i requires 0 <= i < |positions| => Strain(strain, positions[i]))
  }

  /** The default strain (zeros) leaves cell and positions unchanged. */
  lemma ZeroStrain(cell: Mat3, positions: seq<Vec3>)
    ensures StrainCell(ZeroMat, cell) == cell
    ensures StrainPositions(ZeroMat, positions) == positions
  {
    assert StrainTensor(ZeroMat) == Identity;
    MatVecIdentity(cell.r0);
    MatVecIdentity(cell.r1);
    MatVecIdentity(cell.r2);
    forall i | 0 <= i < |positions| ensures StrainPositions(ZeroMat, positions)[i] == positions[i] {
      MatVecIdentity(positions[i]);
    }
  }

  /** Straining a lattice translation of the old cell gives the same
      translation of the strained cell. */
  lemma StrainLattice(strain: Mat3, n: IVec3, cell: Mat3)
    ensures Strain(strain, Lattice(n, cell)) == Lattice(n, StrainCell(strain, cell))
  {
    var t, v := StrainTensor(strain), ToReal(n);
    var a, b, c := Scale(v.x, cell.r0), Scale(v.y, cell.r1), Scale(v.z, cell.r2);
    assert Lattice(n, cell) == Add(Add(a, b), c);
    MatVecAdd(t, Add(a, b), c);
    MatVecAdd(t, a, b);
    MatVecScale(t, v.x, cell.r0);
    MatVecScale(t, v.y, cell.r1);
    MatVecScale(t, v.z, cell.r2);
  }

  // ------------------------------------------------ integer parts of reals

  function Floor(x: real): (f: int)
    ensures f as real <= x < f as real + 1.0
  {
    x.Floor
  }

  /** `np.ceil`. */
  function Ceil(x: real): (c: int)
    ensures c as real - 1.0 < x <= c as real
  {
    -Floor(-x)
  }

  /** `astype(int)` on a float: truncation toward zero. */
  function Trunc(x: real): (t: int)
    ensures 0.0 <= x ==> 0 <= t && t as real <= x < t as real + 1.0
    ensures x < 0.0 ==> t <= 0 && t as real - 1.0 < x <= t as real
  {
    if x < 0.0 then -Floor(-x) else Floor(x)
  }

  /** Python's `x % 1.0`: the fractional part, in [0, 1), differing from `x` by an integer. */
  function Frac(x: real): (f: real)
    ensures 0.0 <= f < 1.0
    ensures x - f == Floor(x) as real
  {
    x - Floor(x) as real
  }

  /** The fractional part is the only value in [0, 1) an integer away from `x`. */
  lemma FracUnique(x: real, y: real, k: int)
    requires 0.0 <= y < 1.0 && x - y == k as real
    ensures y == Frac(x) && k == Floor(x)
  {
  }

  function FracVec(v: Vec3): Vec3 { Vec3(Frac(v.x), Frac(v.y), Frac(v.z)) }

  // ------------------------------------------------- fractional coordinates

  /** `np.dot(position, inverse_cell)`: fractional coordinates of a position. */
  function Scaled(p: Vec3, inv: Mat3): Vec3 { VecMat(p, inv) }

  /** The integer offset `(scaled % 1 - scaled).round()` that wraps an atom with
      fractional coordinates `s` back into the cell. The argument of `round` is
      an integer already, so rounding is exact. */
  function WrapShift(s: Vec3): (n: IVec3)
    ensures ToReal(n) == Sub(FracVec(s), s)
  {
    IVec3(-Floor(s.x), -Floor(s.y), -Floor(s.z))
  }

  /** `position + np.dot(offset, cell)` with the wrapping offset. */
  function Wrap(p: Vec3, cell: Mat3, inv: Mat3): Vec3 {
    Add(p, Lattice(WrapShift(Scaled(p, inv)), cell))
  }

  /** `positions0`: every atom wrapped into the cell. */
  function WrapAll(ps: seq<Vec3>, cell: Mat3, inv: Mat3): (w: seq<Vec3>)
    ensures |w| == |ps|
  {
    seq(|ps|, i requires 0 <= i < |ps| => Wrap(ps[i], cell, inv))
  }

  /** A wrapped atom lies in the cell: its fractional coordinates are those
      of the original atom taken mod 1, each in [0, 1). */
  lemma WrapInCell(p: Vec3, cell: Mat3, inv: Mat3)
    requires IsInverse(cell, inv)
    ensures Scaled(Wrap(p, cell, inv), inv) == FracVec(Scaled(p, inv))
  {
    var n := WrapShift(Scaled(p, inv));
    VecMatAdd(p, Lattice(n, cell), inv);
    LatticeFractional(n, cell, inv);
  }

  /** Fractional coordinates inside the cell: each in [0, 1). */
  predicate InUnitCube(s: Vec3) {
    0.0 <= s.x < 1.0 && 0.0 <= s.y < 1.0 && 0.0 <= s.z < 1.0
  }

  /** An atom already in the cell is not moved by wrapping. */
  lemma WrapShiftInCell(s: Vec3)
    requires InUnitCube(s)
    ensures WrapShift(s) == IZero
  {
    FracUnique(s.x, s.x, 0);
    FracUnique(s.y, s.y, 0);
    FracUnique(s.z, s.z, 0);
  }

  /** Wrapping leaves atoms that lie in the cell where they are. */
  lemma WrapAllInCell(ps: seq<Vec3>, cell: Mat3, inv: Mat3)
    requires forall i :: 0 <= i < |ps| ==> InUnitCube(Scaled(ps[i], inv))
    ensures WrapAll(ps, cell, inv) == ps
  {
    forall i | 0 <= i < |ps| ensures WrapAll(ps, cell, inv)[i] == ps[i] {
      WrapShiftInCell(Scaled(ps[i], inv));
      LatticeZero(cell);
      AddZero(ps[i]);
    }
  }

  lemma AddZero(p: Vec3)
    ensures Add(p, Zero3) == p
  {
  }

  /** The vector from atom `i` to the image of atom `j` under offset `n`:
      `positions[j] + np.dot(n, cell) - positions[i]`. */
  function PairVector(ps: seq<Vec3>, cell: Mat3, i: nat, j: nat, n: IVec3): Vec3
    requires i < |ps| && j < |ps|
  {
    Sub(Add(ps[j], Lattice(n, cell)), ps[i])
  }

  /** An atom seen from itself at the zero image is at distance zero. */
  lemma SelfPairVector(ps: seq<Vec3>, cell: Mat3, i: nat)
    requires i < |ps|
    ensures PairVector(ps, cell, i, i, IZero) == Zero3
  {
    LatticeZero(cell);
  }

  /** Seen from `j`, atom `i` sits at the opposite offset and the opposite vector. */
  lemma PairVectorSwap(ps: seq<Vec3>, cell: Mat3, i: nat, j: nat, n: IVec3)
    requires i < |ps| && j < |ps|
    ensures PairVector(ps, cell, j, i, INeg(n)) == Neg(PairVector(ps, cell, i, j, n))
    ensures SqNorm(PairVector(ps, cell, j, i, INeg(n))) == SqNorm(PairVector(ps, cell, i, j, n))
  {
    LatticeNeg(n, cell);
    SqNormNeg(PairVector(ps, cell, i, j, n));
  }

  /** Pair vectors of the strained system are the strained pair vectors. */
  lemma StrainPairVector(strain: Mat3, ps: seq<Vec3>, cell: Mat3, i: nat, j: nat, n: IVec3)
    requires i < |ps| && j < |ps|
    ensures PairVector(StrainPositions(strain, ps), StrainCell(strain, cell), i, j, n)
         == Strain(strain, PairVector(ps, cell, i, j, n))
  {
    var t := StrainTensor(strain);
    StrainLattice(strain, n, cell);
    MatVecAdd(t, ps[j], Lattice(n, cell));
    var u := Add(ps[j], Lattice(n, cell));
    assert Sub(u, ps[i]) == Add(u, Scale(-1.0, ps[i]));
    MatVecAdd(t, u, Scale(-1.0, ps[i]));
    MatVecScale(t, -1.0, ps[i]);
  }

  /** In fractional units the pair vector is the difference of the two
      atoms' fractional coordinates plus the integer offset. */
  lemma ScaledPairVector(ps: seq<Vec3>, cell: Mat3, inv: Mat3, i: nat, j: nat, n: IVec3)
    requires IsInverse(cell, inv)
    requires i < |ps| && j < |ps|
    ensures Scaled(PairVector(ps, cell, i, j, n), inv)
         == Sub(Add(Scaled(ps[j], inv), ToReal(n)), Scaled(ps[i], inv))
  {
    VecMatSub(Add(ps[j], Lattice(n, cell)), ps[i], inv);
    VecMatAdd(ps[j], Lattice(n, cell), inv);
    LatticeFractional(n, cell, inv);
  }

  // ------------------------------------------------------- reach per axis

  lemma MulMono(a: real, b: real, k: real)
    ensures a <= b && 0.0 <= k ==> a * k <= b * k
  {
  }

  lemma MulMonoStrict(a: real, b: real, k: real)
    ensures a < b && 0.0 < k ==> a * k < b * k
  {
  }

  lemma SquareMono(b: real, t: real)
    ensures 0.0 <= b <= t ==> b * b <= t * t
  {
    if 0.0 <= b <= t {
      var d := t - b;
      assert t * t == b * b + 2.0 * b * d + d * d;
      assert d * d >= 0.0;
      assert b * d >= 0.0;
    }
  }

  lemma SquareMonoStrict(b: real, t: real)
    ensures 0.0 <= b < t ==> b * b < t * t
  {
    if 0.0 <= b < t {
      var d := t - b;
      assert t * t == b * b + 2.0 * b * d + d * d;
      assert d * d > 0.0;
      assert b * d >= 0.0;
    }
  }

  /** From `t^2 <= b^2` with `b >= 0`: `-b <= t <= b`. */
  lemma AbsFromSquare(t: real, b: real)
    requires 0.0 <= b && t * t <= b * b
    ensures -b <= t <= b
  {
    SquareMonoStrict(b, t);
    SquareMonoStrict(b, -t);
  }

  /** From `t^2 < b^2` with `b >= 0`: `-b < t < b`. */
  lemma AbsFromSquareStrict(t: real, b: real)
    requires 0.0 <= b && t * t < b * b
    ensures -b < t < b
  {
    SquareMono(b, t);
    SquareMono(b, -t);
  }

  lemma CompVecMat(v: Vec3, m: Mat3, axis: nat)
    requires axis < 3
    ensures Comp(VecMat(v, m), axis) == Dot(v, Column(m, axis))
  {
    VecMatColumns(v, m);
  }

  lemma NormOfColumn(m: Mat3, norms: Vec3, axis: nat)
    requires ColumnNorms(m, norms) && axis < 3
    ensures 0.0 <= Comp(norms, axis)
    ensures Comp(norms, axis) * Comp(norms, axis) == SqNorm(Column(m, axis))
  {
  }

  /** How far, in fractional coordinates along one axis, the cutoff sphere
      reaches: `cutoff / h` with `h = 1 / norm`. */
  function Extent(cutoff: real, norm: real): real {
    cutoff * norm
  }

  /** `t` lies in `[-x, x]`. */
  predicate Within(t: real, x: real) { -x <= t <= x }

  /** A vector no longer than `cutoff` moves by at most `cutoff * |column a|`
      along fractional axis `a` (Cauchy-Schwarz). */
  lemma ScaledReach(v: Vec3, inv: Mat3, norms: Vec3, cutoff: real, axis: nat)
    requires ColumnNorms(inv, norms) && axis < 3
    requires 0.0 <= cutoff && SqNorm(v) <= cutoff * cutoff
    ensures Within(Comp(Scaled(v, inv), axis), Extent(cutoff, Comp(norms, axis)))
  {
    ScaledBound(v, inv, norms, cutoff, axis);
    WithinExtent(Comp(Scaled(v, inv), axis), cutoff, Comp(norms, axis));
  }

  lemma WithinExtent(t: real, c: real, h: real)
    requires -(c * h) <= t <= c * h
    ensures Within(t, Extent(c, h))
  {
  }

  lemma ScaledBound(v: Vec3, inv: Mat3, norms: Vec3, cutoff: real, axis: nat)
    requires ColumnNorms(inv, norms) && axis < 3
    requires 0.0 <= cutoff && SqNorm(v) <= cutoff * cutoff
    ensures -(cutoff * Comp(norms, axis)) <= Comp(Scaled(v, inv), axis) <= cutoff * Comp(norms, axis)
  {
    var col := Column(inv, axis);
    CompVecMat(v, inv, axis);
    CauchySchwarz(v, col);
    SquareBound(Dot(v, col), SqNorm(v), SqNorm(col), cutoff, Comp(norms, axis));
  }

  /** From `t^2 <= s2 n2` with `s2 <= c^2` and `n2 = h^2`: `|t| <= c h`. */
  lemma SquareBound(t: real, s2: real, n2: real, c: real, h: real)
    requires 0.0 <= c && 0.0 <= h && s2 <= c * c && n2 == h * h && t * t <= s2 * n2
    ensures -(c * h) <= t <= c * h
  {
    MulMono(s2, c * c, n2);
    assert (c * c) * (h * h) == (c * h) * (c * h);
    AbsFromSquare(t, c * h);
  }

  /** The strict version, for a strictly shorter vector and a nonzero column. */
  lemma ScaledReachStrict(v: Vec3, inv: Mat3, norms: Vec3, cutoff: real, axis: nat)
    requires ColumnNorms(inv, norms) && axis < 3 && 0.0 < Comp(norms, axis)
    requires 0.0 <= cutoff && SqNorm(v) < cutoff * cutoff
    ensures -(cutoff * Comp(norms, axis)) < Comp(Scaled(v, inv), axis) < cutoff * Comp(norms, axis)
  {
    var col := Column(inv, axis);
    CompVecMat(v, inv, axis);
    CauchySchwarz(v, col);
    SquareBoundStrict(Dot(v, col), SqNorm(v), SqNorm(col), cutoff, Comp(norms, axis));
  }

  /** From `t^2 <= s2 n2` with `s2 < c^2` and `n2 = h^2 > 0`: `|t| < c h`. */
  lemma SquareBoundStrict(t: real, s2: real, n2: real, c: real, h: real)
    requires 0.0 <= c && 0.0 < h && s2 < c * c && n2 == h * h && t * t <= s2 * n2
    ensures -(c * h) < t < c * h
  {
    SquareMonoStrict(0.0, h);
    MulMonoStrict(s2, c * c, n2);
    assert (c * c) * (h * h) == (c * h) * (c * h);
    AbsFromSquareStrict(t, c * h);
  }

  /** Every column of the inverse of a matrix is nonzero, so its norm is positive. */
  lemma InverseColumnsNonzero(m: Mat3, inv: Mat3, norms: Vec3, axis: nat)
    requires IsInverse(m, inv) && ColumnNorms(inv, norms) && axis < 3
    ensures 0.0 < Comp(norms, axis)
  {
    var row := if axis == 0 then m.r0 else if axis == 1 then m.r1 else m.r2;
    var col := Column(inv, axis);
    assert VecMat(row, inv) == (if axis == 0 then Identity.r0 else if axis == 1 then Identity.r1 else Identity.r2);
    CompVecMat(row, inv, axis);
    assert Dot(row, col) == 1.0;
    CauchySchwarz(row, col);
    NormOfColumn(inv, norms, axis);
  }
}
