/** Exact 3-vectors and 3x3 matrices over `real`, with lattice offsets over `int`.
    A `Mat3` is stored by rows; a cell's rows are its lattice vectors. */
module Linalg {

  datatype Vec3 = Vec3(x: real, y: real, z: real)
  datatype IVec3 = IVec3(a: int, b: int, c: int)
  datatype Mat3 = Mat3(r0: Vec3, r1: Vec3, r2: Vec3)

  const Zero3: Vec3 := Vec3(0.0, 0.0, 0.0)
  const IZero: IVec3 := IVec3(0, 0, 0)
  const Identity: Mat3 := Mat3(Vec3(1.0, 0.0, 0.0), Vec3(0.0, 1.0, 0.0), Vec3(0.0, 0.0, 1.0))
  const ZeroMat: Mat3 := Mat3(Zero3, Zero3, Zero3)

  function Add(u: Vec3, v: Vec3): Vec3 { Vec3(u.x + v.x, u.y + v.y, u.z + v.z) }
  function Sub(u: Vec3, v: Vec3): Vec3 { Vec3(u.x - v.x, u.y - v.y, u.z - v.z) }
  function Neg(v: Vec3): Vec3 { Vec3(-v.x, -v.y, -v.z) }
  function Scale(s: real, v: Vec3): Vec3 { Vec3(s * v.x, s * v.y, s * v.z) }
  function Dot(u: Vec3, v: Vec3): real { u.x * v.x + u.y * v.y + u.z * v.z }
  function SqNorm(v: Vec3): real { Dot(v, v) }

  /** Component `axis` (0, 1 or 2) of a vector. */
  function Comp(v: Vec3, axis: nat): real
    requires axis < 3
  {
    if axis == 0 then v.x else if axis == 1 then v.y else v.z
  }

  function IAdd(n: IVec3, m: IVec3): IVec3 { IVec3(n.a + m.a, n.b + m.b, n.c + m.c) }
  function ISub(n: IVec3, m: IVec3): IVec3 { IVec3(n.a - m.a, n.b - m.b, n.c - m.c) }
  function INeg(n: IVec3): IVec3 { IVec3(-n.a, -n.b, -n.c) }
  function ToReal(n: IVec3): Vec3 { Vec3(n.a as real, n.b as real, n.c as real) }

  /** Component `axis` (0, 1 or 2) of an integer vector. */
  function IComp(n: IVec3, axis: nat): int
    requires axis < 3
  {
    if axis == 0 then n.a else if axis == 1 then n.b else n.c
  }

  /** Row vector times matrix, `np.dot(v, m)`. */
  function VecMat(v: Vec3, m: Mat3): Vec3 {
    Add(Add(Scale(v.x, m.r0), Scale(v.y, m.r1)), Scale(v.z, m.r2))
  }

  /** Matrix times column vector, `np.dot(m, v)`. */
  function MatVec(m: Mat3, v: Vec3): Vec3 { Vec3(Dot(m.r0, v), Dot(m.r1, v), Dot(m.r2, v)) }

  /** The Cartesian displacement `np.dot(n, cell)` of the integer image offset `n`. */
  function Lattice(n: IVec3, cell: Mat3): Vec3 { VecMat(ToReal(n), cell) }

  function MatAdd(p: Mat3, q: Mat3): Mat3 { Mat3(Add(p.r0, q.r0), Add(p.r1, q.r1), Add(p.r2, q.r2)) }
  function MatScale(s: real, m: Mat3): Mat3 { Mat3(Scale(s, m.r0), Scale(s, m.r1), Scale(s, m.r2)) }
  function MatMul(p: Mat3, q: Mat3): Mat3 { Mat3(VecMat(p.r0, q), VecMat(p.r1, q), VecMat(p.r2, q)) }

  function Transpose(m: Mat3): Mat3 {
    Mat3(Vec3(m.r0.x, m.r1.x, m.r2.x), Vec3(m.r0.y, m.r1.y, m.r2.y), Vec3(m.r0.z, m.r1.z, m.r2.z))
  }

  predicate Symmetric(m: Mat3) { Transpose(m) == m }

  /** Column `axis` of a matrix, as a vector. */
  function Column(m: Mat3, axis: nat): Vec3
    requires axis < 3
  {
    Vec3(Comp(m.r0, axis), Comp(m.r1, axis), Comp(m.r2, axis))
  }

  /** The determinant, by cofactor expansion along the first row. */
  function Det(m: Mat3): real {
    m.r0.x * (m.r1.y * m.r2.z - m.r1.z * m.r2.y)
    - m.r0.y * (m.r1.x * m.r2.z - m.r1.z * m.r2.x)
    + m.r0.z * (m.r1.x * m.r2.y - m.r1.y * m.r2.x)
  }

  /** `inv` is the inverse of `m` (as returned by `np.linalg.inv` or, for an
      invertible matrix, `np.linalg.pinv`). */
  predicate IsInverse(m: Mat3, inv: Mat3) { MatMul(m, inv) == Identity }

  /** `norms` holds the Euclidean norms of the columns of `m`, `np.linalg.norm(m, axis=0)`. */
  predicate ColumnNorms(m: Mat3, norms: Vec3) {
    forall axis :: 0 <= axis < 3 ==>
      0.0 <= Comp(norms, axis) && Comp(norms, axis) * Comp(norms, axis) == SqNorm(Column(m, axis))
  }

  lemma SqNormNonNegative(v: Vec3)
    ensures SqNorm(v) >= 0.0
  {
    Square(v.x);
    Square(v.y);
    Square(v.z);
  }

  lemma Square(t: real)
    ensures t * t >= 0.0
  {
  }

  lemma SqNormZero()
    ensures SqNorm(Zero3) == 0.0
  {
  }

  lemma SqNormNeg(v: Vec3)
    ensures SqNorm(Neg(v)) == SqNorm(v)
  {
  }

  /** The displacement of an integer combination is the same combination of displacements. */
  lemma LatticeLinear(n: IVec3, p: IVec3, q: IVec3, cell: Mat3)
    ensures Lattice(IAdd(n, ISub(p, q)), cell)
         == Add(Lattice(n, cell), Sub(Lattice(p, cell), Lattice(q, cell)))
  {
    assert ToReal(IAdd(n, ISub(p, q))) == Add(ToReal(n), Sub(ToReal(p), ToReal(q)));
    VecMatAdd(ToReal(n), Sub(ToReal(p), ToReal(q)), cell);
    VecMatSub(ToReal(p), ToReal(q), cell);
  }

  lemma LatticeNeg(n: IVec3, cell: Mat3)
    ensures Lattice(INeg(n), cell) == Neg(Lattice(n, cell))
  {
  }

  lemma LatticeZero(cell: Mat3)
    ensures Lattice(IZero, cell) == Zero3
  {
  }

  /** A row vector times a matrix takes the dot product with each column. */
  lemma VecMatColumns(v: Vec3, m: Mat3)
    ensures VecMat(v, m) == Vec3(Dot(v, Column(m, 0)), Dot(v, Column(m, 1)), Dot(v, Column(m, 2)))
  {
  }

  lemma DotScale(s: real, u: Vec3, c: Vec3)
    ensures Dot(Scale(s, u), c) == s * Dot(u, c)
  {
  }

  lemma DotAdd(u: Vec3, v: Vec3, c: Vec3)
    ensures Dot(Add(u, v), c) == Dot(u, c) + Dot(v, c)
  {
  }

  lemma VecMatScale(s: real, u: Vec3, m: Mat3)
    ensures VecMat(Scale(s, u), m) == Scale(s, VecMat(u, m))
  {
    var a, b, c := Scale(u.x, m.r0), Scale(u.y, m.r1), Scale(u.z, m.r2);
    RowsScaled(s, u, m);
    ScaleAdd(s, Add(a, b), c);
    ScaleAdd(s, a, b);
  }

  /** Scaling each term of `VecMat(u, m)` by `s`. */
  lemma RowsScaled(s: real, u: Vec3, m: Mat3)
    ensures Scale(Scale(s, u).x, m.r0) == Scale(s, Scale(u.x, m.r0))
    ensures Scale(Scale(s, u).y, m.r1) == Scale(s, Scale(u.y, m.r1))
    ensures Scale(Scale(s, u).z, m.r2) == Scale(s, Scale(u.z, m.r2))
  {
    ScaleScale(s, u.x, Scale(s, u).x, m.r0);
    ScaleScale(s, u.y, Scale(s, u).y, m.r1);
    ScaleScale(s, u.z, Scale(s, u).z, m.r2);
  }

  /** Scaling by a product is scaling twice. */
  lemma ScaleScale(s: real, t: real, st: real, v: Vec3)
    requires st == s * t
    ensures Scale(st, v) == Scale(s, Scale(t, v))
  {
  }

  lemma ScaleAdd(s: real, v: Vec3, w: Vec3)
    ensures Scale(s, Add(v, w)) == Add(Scale(s, v), Scale(s, w))
  {
  }

  lemma VecMatAdd(u: Vec3, v: Vec3, m: Mat3)
    ensures VecMat(Add(u, v), m) == Add(VecMat(u, m), VecMat(v, m))
  {
    VecMatColumns(Add(u, v), m);
    VecMatColumns(u, m);
    VecMatColumns(v, m);
    DotAdd(u, v, Column(m, 0));
    DotAdd(u, v, Column(m, 1));
    DotAdd(u, v, Column(m, 2));
  }

  lemma VecMatAssoc(v: Vec3, p: Mat3, q: Mat3)
    ensures VecMat(VecMat(v, p), q) == VecMat(v, MatMul(p, q))
  {
    var a, b, c := Scale(v.x, p.r0), Scale(v.y, p.r1), Scale(v.z, p.r2);
    assert VecMat(v, p) == Add(Add(a, b), c);
    VecMatAdd(Add(a, b), c, q);
    VecMatAdd(a, b, q);
    VecMatScale(v.x, p.r0, q);
    VecMatScale(v.y, p.r1, q);
    VecMatScale(v.z, p.r2, q);
    assert MatMul(p, q) == Mat3(VecMat(p.r0, q), VecMat(p.r1, q), VecMat(p.r2, q));
  }

  lemma VecMatIdentity(v: Vec3)
    ensures VecMat(v, Identity) == v
  {
  }

  lemma MatVecIdentity(v: Vec3)
    ensures MatVec(Identity, v) == v
  {
  }

  lemma MatVecAdd(m: Mat3, u: Vec3, v: Vec3)
    ensures MatVec(m, Add(u, v)) == Add(MatVec(m, u), MatVec(m, v))
  {
  }

  lemma MatVecScale(m: Mat3, s: real, v: Vec3)
    ensures MatVec(m, Scale(s, v)) == Scale(s, MatVec(m, v))
  {
  }

  lemma DotSub(u: Vec3, v: Vec3, c: Vec3)
    ensures Dot(Sub(u, v), c) == Dot(u, c) - Dot(v, c)
  {
  }

  lemma VecMatSub(u: Vec3, v: Vec3, m: Mat3)
    ensures VecMat(Sub(u, v), m) == Sub(VecMat(u, m), VecMat(v, m))
  {
    VecMatColumns(Sub(u, v), m);
    VecMatColumns(u, m);
    VecMatColumns(v, m);
    DotSub(u, v, Column(m, 0));
    DotSub(u, v, Column(m, 1));
    DotSub(u, v, Column(m, 2));
  }

  /** Fractional coordinates of a lattice translation are its integer coefficients. */
  lemma LatticeFractional(n: IVec3, cell: Mat3, inv: Mat3)
    requires IsInverse(cell, inv)
    ensures VecMat(Lattice(n, cell), inv) == ToReal(n)
  {
    VecMatAssoc(ToReal(n), cell, inv);
    VecMatIdentity(ToReal(n));
  }

  function Cross(u: Vec3, v: Vec3): Vec3 {
    Vec3(u.y * v.z - u.z * v.y, u.z * v.x - u.x * v.z, u.x * v.y - u.y * v.x)
  }

  /** Lagrange's identity in three dimensions. */
  lemma Lagrange(u: Vec3, v: Vec3)
    ensures SqNorm(u) * SqNorm(v) == Dot(u, v) * Dot(u, v) + SqNorm(Cross(u, v))
  {
  }

  lemma CauchySchwarz(u: Vec3, v: Vec3)
    ensures Dot(u, v) * Dot(u, v) <= SqNorm(u) * SqNorm(v)
  {
    Lagrange(u, v);
    SqNormNonNegative(Cross(u, v));
  }
}
