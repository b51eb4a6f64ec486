/** The one-way neighbour list: atoms are wrapped into the cell, a half-space
    of integer image offsets is visited, and for every visited offset and every
    atom `a` the atoms within the cutoff of `a` are appended to `a`'s list
    together with their integer displacements. Each pair of atoms within the
    cutoff is recorded once, in the list of one of its two atoms. */
module Oneway {
  import opened Common
  import opened Linalg
  import opened Ranges
  import opened Images
  import opened Cells

  // ----------------------------------------------------------------- set-up

  /** What the lines before the main loop compute: the strained cell, the
      wrapped positions `positions0`, the wrapping offsets `offsets`, the
      per-axis image counts `N` and the cutoff. */
  datatype Setup = Setup(cell: Mat3, wrapped: seq<Vec3>, shifts: seq<IVec3>, reach: IVec3, cutoff: real)
  {
    predicate Valid() { |wrapped| == |shifts| }
  }

  /** Images tried along one axis on each side: `int(2 * cutoff / h) + 1`,
      where `h = 1 / norm` makes `2 * cutoff / h` equal to `2 * cutoff * norm`. */
  function AxisCount(extent: real): (k: int)
    ensures 0.0 <= extent ==> k >= 1
  {
    Trunc(2.0 * extent) + 1
  }

  /** `N`: the images tried along each axis, from the cutoff and the column
      norms of the inverse cell. */
  function Reach(cutoff: real, norms: Vec3): IVec3 {
    IVec3(AxisCount(Extent(cutoff, Comp(norms, 0))), AxisCount(Extent(cutoff, Comp(norms, 1))),
          AxisCount(Extent(cutoff, Comp(norms, 2))))
  }

  function MakeSetup(positions: seq<Vec3>, cell: Mat3, cutoff: real, strain: Mat3, inv: Mat3, norms: Vec3): (g: Setup)
    ensures g.Valid() && |g.wrapped| == |positions|
  {
    var c := StrainCell(strain, cell);
    var ps := StrainPositions(strain, positions);
    Setup(c,
          WrapAll(ps, c, inv),
          seq(|ps|, i requires 0 <= i < |ps| => WrapShift(Scaled(ps[i], inv))),
          Reach(cutoff, norms),
          cutoff)
  }

  // ---------------------------------------------------------- image offsets

  /** The offsets enumerated by the loop: n1 in 0..N0, n2 in -N1..N1,
      n3 in -N2..N2, in row-major order. */
  function Box(r: IVec3): seq<IVec3> {
    Product(Range(0, r.a + 1), Range(-r.b, r.b + 1), Range(-r.c, r.c + 1))
  }

  predicate InBox(r: IVec3, n: IVec3) {
    0 <= n.a <= r.a && -r.b <= n.b <= r.b && -r.c <= n.c <= r.c
  }

  /** The symmetric box of offsets with |n1| <= N0, |n2| <= N1, |n3| <= N2. */
  predicate InSymBox(r: IVec3, n: IVec3) {
    -r.a <= n.a <= r.a && -r.b <= n.b <= r.b && -r.c <= n.c <= r.c
  }

  /** The offsets the loop skips with `continue`: the half of the n1 == 0 plane
      that is the mirror image of the other half. */
  predicate Skipped(n: IVec3) {
    n.a == 0 && (n.b < 0 || (n.b == 0 && n.c < 0))
  }

  predicate Visited(r: IVec3, n: IVec3) { InBox(r, n) && !Skipped(n) }

  lemma BoxSpec(r: IVec3)
    ensures forall n :: n in Box(r) <==> InBox(r, n)
    ensures LexSorted(Box(r))
  {
    BoxMembers(r);
    BoxSorted(r);
  }

  lemma BoxMembers(r: IVec3)
    ensures forall n :: n in Box(r) <==> InBox(r, n)
  {
    forall n ensures n in Box(r) <==> InBox(r, n) {
      BoxMember(r, n);
    }
  }

  lemma BoxMember(r: IVec3, n: IVec3)
    ensures n in Box(r) <==> InBox(r, n)
  {
    var r0, r1, r2 := Range(0, r.a + 1), Range(-r.b, r.b + 1), Range(-r.c, r.c + 1);
    assert Box(r) == Product(r0, r1, r2);
    RangesProductMember(0, r.a + 1, -r.b, r.b + 1, -r.c, r.c + 1, n);
  }

  lemma BoxSorted(r: IVec3)
    ensures LexSorted(Box(r))
  {
    RangeMembers(0, r.a + 1);
    RangeMembers(-r.b, r.b + 1);
    RangeMembers(-r.c, r.c + 1);
    ProductSorted(Range(0, r.a + 1), Range(-r.b, r.b + 1), Range(-r.c, r.c + 1));
  }

  /** For every nonzero offset of the symmetric box exactly one of `n` and `-n` is visited. */
  lemma HalfSpace(r: IVec3, n: IVec3)
    requires InSymBox(r, n) && n != IZero
    ensures Visited(r, n) <==> !Visited(r, INeg(n))
  {
  }

  /** The zero offset is visited, and it occurs exactly once in the enumeration. */
  lemma ZeroVisitedOnce(r: IVec3, p: int, q: int)
    requires r.a >= 0 && r.b >= 0 && r.c >= 0
    requires 0 <= p < |Box(r)| && 0 <= q < |Box(r)| && Box(r)[p] == IZero && Box(r)[q] == IZero
    ensures Visited(r, IZero) && IZero in Box(r)
    ensures p == q
  {
    BoxSpec(r);
    LexSortedUnique(Box(r), p, q);
  }

  // ------------------------------------------------- one (offset, atom) step

  /** The cutoff test of the loop body: strict, on the squared length. The skin is not used. */
  predicate InCutoff(g: Setup, a: nat, j: nat, n: IVec3)
    requires a < |g.wrapped| && j < |g.wrapped|
  {
    SqNorm(PairVector(g.wrapped, g.cell, a, j, n)) < g.cutoff * g.cutoff
  }

  /** `(d**2).sum(1) < cutoff**2` for all atoms j at once. */
  function CutoffMask(g: Setup, a: nat, n: IVec3): (m: seq<bool>)
    requires a < |g.wrapped|
    ensures |m| == |g.wrapped|
  {
    seq(|g.wrapped|, j requires 0 <= j < |g.wrapped| => InCutoff(g, a, j, n))
  }

  /** `indices[mask]`: the positions of the true entries, in increasing order. */
  function Indices(mask: seq<bool>): (r: seq<nat>)
    ensures forall j: nat :: j in r <==> j < |mask| && mask[j]
    ensures Increasing(r)
    decreases |mask|
  {
    if mask == [] then []
    else
      var last := |mask| - 1;
      var rest := Indices(mask[..last]);
      assert forall j: nat :: j < last ==> mask[..last][j] == mask[j];
      assert forall p :: 0 <= p < |rest| ==> rest[p] in rest;
      rest + (if mask[last] then [last] else [])
  }

  /** `i[i > a]`: the entries greater than `a`, in their order. */
  function Above(i: seq<nat>, a: nat): (r: seq<nat>)
    ensures forall x :: x in r <==> x in i && x > a
    ensures Increasing(i) ==> Increasing(r)
    decreases |i|
  {
    if i == [] then []
    else
      var last := i[|i| - 1];
      var rest := Above(i[..|i| - 1], a);
      assert i == i[..|i| - 1] + [last];
      assert Increasing(i) ==> forall p :: 0 <= p < |rest| ==> rest[p] < last by {
        if Increasing(i) {
          forall p | 0 <= p < |rest| ensures rest[p] < last {
            assert rest[p] in rest;
            BelowLast(i, rest[p]);
          }
        }
      }
      rest + (if last > a then [last] else [])
  }

  lemma BelowLast(i: seq<nat>, x: nat)
    requires Increasing(i) && |i| > 0 && x in i[..|i| - 1]
    ensures x < i[|i| - 1]
  {
    var q :| 0 <= q < |i| - 1 && i[..|i| - 1][q] == x;
    assert i[q] == x;
  }

  /** The neighbours appended for atom `a` at a visited offset `n`. */
  function Found(g: Setup, n: IVec3, a: nat): (r: seq<nat>)
    requires a < |g.wrapped|
    ensures forall j: nat :: j in r <==> j < |g.wrapped| && InCutoff(g, a, j, n) && (n == IZero ==> j > a)
    ensures forall p :: 0 <= p < |r| ==> r[p] < |g.wrapped|
    ensures Increasing(r)
  {
    var m := CutoffMask(g, a, n);
    var i := Indices(m);
    assert forall j: nat :: j < |m| ==> m[j] == InCutoff(g, a, j, n);
    var r := if n == IZero then Above(i, a) else i;
    assert forall p :: 0 <= p < |r| ==> r[p] in r;
    r
  }

  /** `disp[:] = n; disp += offsets[i] - offsets[a]`. */
  function Shifted(g: Setup, n: IVec3, a: nat, i: seq<nat>): (d: seq<IVec3>)
    requires g.Valid() && a < |g.wrapped|
    requires forall p :: 0 <= p < |i| ==> i[p] < |g.shifts|
    ensures |d| == |i|
  {
    seq(|i|, p requires 0 <= p < |i| => IAdd(n, ISub(g.shifts[i[p]], g.shifts[a])))
  }

  /** What one offset contributes to atom `a`'s neighbour list. */
  function Step(g: Setup, n: IVec3, a: nat): (r: seq<nat>)
    requires a < |g.wrapped|
    ensures forall p :: 0 <= p < |r| ==> r[p] < |g.wrapped|
  {
    if Skipped(n) then [] else Found(g, n, a)
  }

  // ------------------------------------------------- the lists, by offset prefix

  /** `neighbors[a]` after the loop has handled the offsets `offs`. */
  function NeighborsOver(g: Setup, a: nat, offs: seq<IVec3>): (r: seq<nat>)
    requires a < |g.wrapped|
    ensures forall p :: 0 <= p < |r| ==> r[p] < |g.wrapped|
    decreases |offs|
  {
    if offs == [] then [] else NeighborsOver(g, a, offs[..|offs| - 1]) + Step(g, offs[|offs| - 1], a)
  }

  /** `displacements[a]` after the loop has handled the offsets `offs`. */
  function DisplacementsOver(g: Setup, a: nat, offs: seq<IVec3>): seq<IVec3>
    requires g.Valid() && a < |g.wrapped|
    decreases |offs|
  {
    if offs == [] then []
    else
      var n := offs[|offs| - 1];
      DisplacementsOver(g, a, offs[..|offs| - 1]) + Shifted(g, n, a, Step(g, n, a))
  }

  /** The image offset each entry of `neighbors[a]` was found at. */
  function ImagesOver(g: Setup, a: nat, offs: seq<IVec3>): seq<IVec3>
    requires a < |g.wrapped|
    decreases |offs|
  {
    if offs == [] then []
    else
      var n := offs[|offs| - 1];
      ImagesOver(g, a, offs[..|offs| - 1]) + seq(|Step(g, n, a)|, _ => n)
  }

  /** One more offset appends its step to both lists. */
  lemma OverStep(g: Setup, a: nat, offs: seq<IVec3>, t: nat)
    requires g.Valid() && a < |g.wrapped| && t < |offs|
    ensures NeighborsOver(g, a, offs[..t + 1]) == NeighborsOver(g, a, offs[..t]) + Step(g, offs[t], a)
    ensures DisplacementsOver(g, a, offs[..t + 1])
         == DisplacementsOver(g, a, offs[..t]) + Shifted(g, offs[t], a, Step(g, offs[t], a))
  {
    assert offs[..t + 1][..t] == offs[..t];
  }

  // ------------------------------------------------------------- the method

  /** The body of the outer loop for one visited offset `n`: for every atom
      `a` in turn, append the atoms within the cutoff and their displacements
      to entry `a` of each list, leaving the other entries alone. */
  method VisitOffset(g: Setup, n: IVec3, neighbors: seq<seq<nat>>, displacements: seq<seq<IVec3>>)
    returns (neighbors': seq<seq<nat>>, displacements': seq<seq<IVec3>>)
    requires g.Valid() && !Skipped(n)
    requires |neighbors| == |g.wrapped| && |displacements| == |g.wrapped|
    ensures |neighbors'| == |g.wrapped| && |displacements'| == |g.wrapped|
    ensures forall a :: 0 <= a < |g.wrapped| ==>
      && neighbors'[a] == neighbors[a] + Found(g, n, a)
      && displacements'[a] == displacements[a] + Shifted(g, n, a, Found(g, n, a))
  {
    var natoms := |g.wrapped|;
    neighbors', displacements' := neighbors, displacements;
    var a := 0;
    while a < natoms
      invariant 0 <= a <= natoms
      invariant |neighbors'| == natoms && |displacements'| == natoms
      invariant forall b :: 0 <= b < a ==>
        && neighbors'[b] == neighbors[b] + Found(g, n, b)
        && displacements'[b] == displacements[b] + Shifted(g, n, b, Found(g, n, b))
      invariant forall b :: a <= b < natoms ==> neighbors'[b] == neighbors[b] && displacements'[b] == displacements[b]
    {
      var i := Indices(CutoffMask(g, a, n));
      if n == IZero {
        i := Above(i, a);
      }
      assert i == Found(g, n, a);
      neighbors' := neighbors'[a := neighbors'[a] + i];
      var disp := Shifted(g, n, a, i);
      displacements' := displacements'[a := displacements'[a] + disp];
      a := a + 1;
    }
  }

  method GetNeighborsOneway(positions: seq<Vec3>, cell: Mat3, cutoff: real, skin: real,
                            strain: Mat3, inv: Mat3, norms: Vec3)
    returns (neighbors: seq<seq<nat>>, displacements: seq<seq<IVec3>>)
    requires IsInverse(StrainCell(strain, cell), inv) && ColumnNorms(inv, norms)
    ensures var g := MakeSetup(positions, cell, cutoff, strain, inv, norms);
      && |neighbors| == |positions| && |displacements| == |positions|
      && forall a :: 0 <= a < |positions| ==>
           && neighbors[a] == NeighborsOver(g, a, Box(g.reach))
           && displacements[a] == DisplacementsOver(g, a, Box(g.reach))
  {
    var g := MakeSetup(positions, cell, cutoff, strain, inv, norms);
    var box := Box(g.reach);
    var natoms := |positions|;
    neighbors := seq(natoms, _ => []);
    displacements := seq(natoms, _ => []);
    var t := 0;
    while t < |box|
      invariant 0 <= t <= |box|
      invariant |neighbors| == natoms && |displacements| == natoms
      invariant forall a :: 0 <= a < natoms ==>
        neighbors[a] == NeighborsOver(g, a, box[..t]) && displacements[a] == DisplacementsOver(g, a, box[..t])
    {
      var n := box[t];
      forall b | 0 <= b < natoms
        ensures NeighborsOver(g, b, box[..t + 1]) == NeighborsOver(g, b, box[..t]) + Step(g, n, b)
        ensures DisplacementsOver(g, b, box[..t + 1]) == DisplacementsOver(g, b, box[..t]) + Shifted(g, n, b, Step(g, n, b))
      {
        OverStep(g, b, box, t);
      }
      if !Skipped(n) {
        neighbors, displacements := VisitOffset(g, n, neighbors, displacements);
      }
      t := t + 1;
    }
    assert box[..t] == box;
  }

  // ------------------------------------------------ what the lists contain

  /** Atom `j` is recorded at image `n`: some entry holds `j` with image `n`. */
  predicate Listed(ns: seq<nat>, imgs: seq<IVec3>, j: nat, n: IVec3) {
    exists p :: 0 <= p < |ns| && p < |imgs| && ns[p] == j && imgs[p] == n
  }

  /** `neighbors[a]` and `displacements[a]` always have the same length. */
  lemma {:induction false} OverLengths(g: Setup, a: nat, offs: seq<IVec3>)
    requires g.Valid() && a < |g.wrapped|
    ensures |DisplacementsOver(g, a, offs)| == |NeighborsOver(g, a, offs)|
    ensures |ImagesOver(g, a, offs)| == |NeighborsOver(g, a, offs)|
    decreases |offs|
  {
    if offs != [] {
      OverLengths(g, a, offs[..|offs| - 1]);
    }
  }

  /** Every entry of atom `a`'s lists: a visited offset of `offs`, an atom
      within the cutoff of `a` at that image, `j > a` at the zero image, and
      the recorded displacement `n + offsets[j] - offsets[a]`. */
  lemma {:induction false} OverEntries(g: Setup, a: nat, offs: seq<IVec3>)
    requires g.Valid() && a < |g.wrapped|
    ensures |DisplacementsOver(g, a, offs)| == |NeighborsOver(g, a, offs)| == |ImagesOver(g, a, offs)|
    ensures forall p :: 0 <= p < |NeighborsOver(g, a, offs)| ==>
      var j, n := NeighborsOver(g, a, offs)[p], ImagesOver(g, a, offs)[p];
      && j < |g.wrapped| && n in offs && !Skipped(n)
      && InCutoff(g, a, j, n) && (n == IZero ==> j > a)
      && DisplacementsOver(g, a, offs)[p] == IAdd(n, ISub(g.shifts[j], g.shifts[a]))
    decreases |offs|
  {
    OverLengths(g, a, offs);
    if offs != [] {
      var init, n := offs[..|offs| - 1], offs[|offs| - 1];
      OverEntries(g, a, init);
      OverLengths(g, a, init);
      var ns, ims, ds := NeighborsOver(g, a, offs), ImagesOver(g, a, offs), DisplacementsOver(g, a, offs);
      var step := Step(g, n, a);
      var k := |NeighborsOver(g, a, init)|;
      forall p | 0 <= p < |ns|
        ensures && ns[p] < |g.wrapped| && ims[p] in offs && !Skipped(ims[p])
                && InCutoff(g, a, ns[p], ims[p]) && (ims[p] == IZero ==> ns[p] > a)
                && ds[p] == IAdd(ims[p], ISub(g.shifts[ns[p]], g.shifts[a]))
      {
        if p < k {
          assert ns[p] == NeighborsOver(g, a, init)[p];
          assert ims[p] == ImagesOver(g, a, init)[p];
          assert ds[p] == DisplacementsOver(g, a, init)[p];
          assert ims[p] in init;
        } else {
          assert ns[p] == step[p - k] && step[p - k] in step;
          assert ims[p] == n;
          assert ds[p] == Shifted(g, n, a, step)[p - k];
        }
      }
    }
  }

  /** Appending one offset's step keeps every pair listed before and lists
      the step's atoms at that offset. */
  lemma ListedSnoc(ns: seq<nat>, ims: seq<IVec3>, step: seq<nat>, last: IVec3, j: nat, n: IVec3)
    requires |ns| == |ims|
    requires (n == last && j in step) || Listed(ns, ims, j, n)
    ensures Listed(ns + step, ims + seq(|step|, _ => last), j, n)
  {
    var ims2 := ims + seq(|step|, _ => last);
    if Listed(ns, ims, j, n) {
      var p :| 0 <= p < |ns| && p < |ims| && ns[p] == j && ims[p] == n;
      assert (ns + step)[p] == j && ims2[p] == n;
    } else {
      var q :| 0 <= q < |step| && step[q] == j;
      assert (ns + step)[|ns| + q] == j && ims2[|ns| + q] == n;
    }
  }

  /** An element of a list other than its last is in the list without it. */
  lemma InInit(offs: seq<IVec3>, n: IVec3)
    requires n in offs && n != offs[|offs| - 1]
    ensures n in offs[..|offs| - 1]
  {
    var q :| 0 <= q < |offs| && offs[q] == n;
    assert offs[..|offs| - 1][q] == n;
  }

  /** Conversely, every atom within the cutoff at a visited offset of `offs`
      (above `a` at the zero image) is recorded at that image. */
  lemma {:induction false} OverComplete(g: Setup, a: nat, offs: seq<IVec3>, j: nat, n: IVec3)
    requires g.Valid() && a < |g.wrapped|
    requires n in offs && j in Step(g, n, a)
    ensures Listed(NeighborsOver(g, a, offs), ImagesOver(g, a, offs), j, n)
    decreases |offs|
  {
    var init, last := offs[..|offs| - 1], offs[|offs| - 1];
    OverLengths(g, a, init);
    OverSnoc(g, a, offs);
    if n != last {
      InInit(offs, n);
      OverComplete(g, a, init, j, n);
    }
    ListedSnoc(NeighborsOver(g, a, init), ImagesOver(g, a, init), Step(g, last, a), last, j, n);
  }

  /** An atom within the cutoff at a visited offset is in that offset's step. */
  lemma StepFinds(g: Setup, a: nat, j: nat, n: IVec3)
    requires g.Valid() && a < |g.wrapped| && j < |g.wrapped|
    requires !Skipped(n) && InCutoff(g, a, j, n) && (n == IZero ==> j > a)
    ensures j in Step(g, n, a)
  {
  }

  /** The lists over a non-empty offset list: those over all but the last
      offset, followed by the last offset's step. */
  lemma OverSnoc(g: Setup, a: nat, offs: seq<IVec3>)
    requires a < |g.wrapped| && offs != []
    ensures var init, last := offs[..|offs| - 1], offs[|offs| - 1];
      && NeighborsOver(g, a, offs) == NeighborsOver(g, a, init) + Step(g, last, a)
      && ImagesOver(g, a, offs) == ImagesOver(g, a, init) + seq(|Step(g, last, a)|, _ => last)
  {
  }

  lemma ListedIff(g: Setup, a: nat, offs: seq<IVec3>, j: nat, n: IVec3)
    requires g.Valid() && a < |g.wrapped| && j < |g.wrapped|
    ensures Listed(NeighborsOver(g, a, offs), ImagesOver(g, a, offs), j, n)
        <==> n in offs && !Skipped(n) && InCutoff(g, a, j, n) && (n == IZero ==> j > a)
  {
    OverEntries(g, a, offs);
    if n in offs && !Skipped(n) && InCutoff(g, a, j, n) && (n == IZero ==> j > a) {
      StepFinds(g, a, j, n);
      OverComplete(g, a, offs, j, n);
    }
  }

  /** No atom is its own neighbour at the zero image. */
  lemma NoSelfPair(g: Setup, a: nat, offs: seq<IVec3>)
    requires g.Valid() && a < |g.wrapped|
    ensures !Listed(NeighborsOver(g, a, offs), ImagesOver(g, a, offs), a, IZero)
  {
    ListedIff(g, a, offs, a, IZero);
  }

  /** No two entries of a list hold the same atom at the same image. */
  predicate NoRepeats(ns: seq<nat>, imgs: seq<IVec3>) {
    forall p, q :: 0 <= p < q < |ns| && q < |imgs| ==> ns[p] != ns[q] || imgs[p] != imgs[q]
  }

  /** When the offsets handled are distinct, atom `a`'s list repeats no
      (atom, image) entry: offsets differ between steps, and the atoms of
      one step are increasing. */
  lemma {:induction false} OverNoRepeats(g: Setup, a: nat, offs: seq<IVec3>)
    requires g.Valid() && a < |g.wrapped|
    requires forall p, q :: 0 <= p < q < |offs| ==> offs[p] != offs[q]
    ensures NoRepeats(NeighborsOver(g, a, offs), ImagesOver(g, a, offs))
    decreases |offs|
  {
    if offs != [] {
      var init, last := offs[..|offs| - 1], offs[|offs| - 1];
      OverNoRepeats(g, a, init);
      OverEntries(g, a, init);
      var ns0, ims0 := NeighborsOver(g, a, init), ImagesOver(g, a, init);
      var step := Step(g, last, a);
      var ns, ims := ns0 + step, ims0 + seq(|step|, _ => last);
      assert ns == NeighborsOver(g, a, offs) && ims == ImagesOver(g, a, offs);
      var k := |ns0|;
      forall p | 0 <= p < |init| ensures init[p] != last {
        assert init[p] == offs[p];
      }
      assert Increasing(step);
      forall p, q | 0 <= p < q < |ns| && q < |ims| ensures ns[p] != ns[q] || ims[p] != ims[q] {
        if q < k {
          assert ns[p] == ns0[p] && ns[q] == ns0[q] && ims[p] == ims0[p] && ims[q] == ims0[q];
        } else if p < k {
          assert ims[p] == ims0[p] && ims0[p] in init;
          assert ims[q] == last;
        } else {
          assert ns[p] == step[p - k] && ns[q] == step[q - k];
        }
      }
    }
  }

  /** Over the offsets of the loop, atom `a`'s list holds each (atom, image)
      entry at most once. */
  lemma ListedAtMostOnce(g: Setup, a: nat)
    requires g.Valid() && a < |g.wrapped|
    ensures NoRepeats(NeighborsOver(g, a, Box(g.reach)), ImagesOver(g, a, Box(g.reach)))
  {
    var box := Box(g.reach);
    BoxSpec(g.reach);
    forall p, q | 0 <= p < q < |box| ensures box[p] != box[q] {
      if box[p] == box[q] {
        LexSortedUnique(box, p, q);
      }
    }
    OverNoRepeats(g, a, box);
  }

  // ------------------------------------- properties of the computed set-up

  /** The recorded displacement `D = n + offsets[j] - offsets[a]` applied to the
      (strained, unwrapped) input positions gives the very vector the cutoff
      test measured between the wrapped positions. */
  lemma DisplacementIdentity(positions: seq<Vec3>, cell: Mat3, cutoff: real, strain: Mat3, inv: Mat3, norms: Vec3,
                             a: nat, j: nat, n: IVec3)
    requires a < |positions| && j < |positions|
    ensures var g := MakeSetup(positions, cell, cutoff, strain, inv, norms);
      PairVector(StrainPositions(strain, positions), g.cell, a, j, IAdd(n, ISub(g.shifts[j], g.shifts[a])))
        == PairVector(g.wrapped, g.cell, a, j, n)
  {
    var g := MakeSetup(positions, cell, cutoff, strain, inv, norms);
    LatticeLinear(n, g.shifts[j], g.shifts[a], g.cell);
  }

  /** The wrapped positions lie in the cell: fractional coordinates in [0, 1). */
  lemma WrappedInCell(positions: seq<Vec3>, cell: Mat3, cutoff: real, strain: Mat3, inv: Mat3, norms: Vec3, i: nat)
    requires IsInverse(StrainCell(strain, cell), inv)
    requires i < |positions|
    ensures InUnitCube(Scaled(MakeSetup(positions, cell, cutoff, strain, inv, norms).wrapped[i], inv))
  {
    WrapInCell(StrainPositions(strain, positions)[i], StrainCell(strain, cell), inv);
  }

  /** What the set-up guarantees: the cell is inverted by `inv` with column
      norms `norms`, the wrapped atoms lie in the cell, `N` is computed from
      those norms, and the cutoff is not negative. */
  predicate WellFormed(g: Setup, inv: Mat3, norms: Vec3) {
    && g.Valid() && IsInverse(g.cell, inv) && ColumnNorms(inv, norms)
    && g.reach == Reach(g.cutoff, norms) && 0.0 <= g.cutoff
    && forall i :: 0 <= i < |g.wrapped| ==> InUnitCube(Scaled(g.wrapped[i], inv))
  }

  lemma SetupWellFormed(positions: seq<Vec3>, cell: Mat3, cutoff: real, strain: Mat3, inv: Mat3, norms: Vec3)
    requires IsInverse(StrainCell(strain, cell), inv) && ColumnNorms(inv, norms) && 0.0 <= cutoff
    ensures WellFormed(MakeSetup(positions, cell, cutoff, strain, inv, norms), inv, norms)
  {
    var g := MakeSetup(positions, cell, cutoff, strain, inv, norms);
    forall i | 0 <= i < |g.wrapped| ensures InUnitCube(Scaled(g.wrapped[i], inv)) {
      WrappedInCell(positions, cell, cutoff, strain, inv, norms, i);
    }
  }

  /** An integer moved by `t` with `|t| <= x` between two points of [0, 1)
      is at most `AxisCount(x)` in absolute value. */
  lemma AxisReach(k: int, t: real, fa: real, fj: real, x: real)
    requires Within(t, x)
    requires 0.0 <= fa < 1.0 && 0.0 <= fj < 1.0
    requires t == fj + k as real - fa
    ensures -AxisCount(x) <= k <= AxisCount(x)
  {
  }

  /** Along each fractional axis a pair vector within the cutoff is at most `cutoff * norm` long. */
  lemma PairReach(g: Setup, inv: Mat3, norms: Vec3, a: nat, j: nat, n: IVec3, axis: nat)
    requires ColumnNorms(inv, norms) && 0.0 <= g.cutoff && axis < 3
    requires a < |g.wrapped| && j < |g.wrapped| && InCutoff(g, a, j, n)
    ensures Within(Comp(Scaled(PairVector(g.wrapped, g.cell, a, j, n), inv), axis), Extent(g.cutoff, Comp(norms, axis)))
  {
    ScaledReach(PairVector(g.wrapped, g.cell, a, j, n), inv, norms, g.cutoff, axis);
  }

  lemma PairFractional(g: Setup, inv: Mat3, a: nat, j: nat, n: IVec3, axis: nat)
    requires IsInverse(g.cell, inv) && axis < 3
    requires a < |g.wrapped| && j < |g.wrapped|
    ensures Comp(Scaled(PairVector(g.wrapped, g.cell, a, j, n), inv), axis)
         == Comp(Scaled(g.wrapped[j], inv), axis) + IComp(n, axis) as real - Comp(Scaled(g.wrapped[a], inv), axis)
  {
    ScaledPairVector(g.wrapped, g.cell, inv, a, j, n);
  }

  lemma ReachComp(cutoff: real, norms: Vec3, axis: nat)
    requires axis < 3
    ensures IComp(Reach(cutoff, norms), axis) == AxisCount(Extent(cutoff, Comp(norms, axis)))
  {
  }

  lemma AxisInBox(g: Setup, inv: Mat3, norms: Vec3, a: nat, j: nat, n: IVec3, axis: nat)
    requires WellFormed(g, inv, norms) && axis < 3
    requires a < |g.wrapped| && j < |g.wrapped| && InCutoff(g, a, j, n)
    ensures -IComp(g.reach, axis) <= IComp(n, axis) <= IComp(g.reach, axis)
  {
    assert InUnitCube(Scaled(g.wrapped[a], inv)) && InUnitCube(Scaled(g.wrapped[j], inv));
    PairReach(g, inv, norms, a, j, n, axis);
    PairFractional(g, inv, a, j, n, axis);
    AxisReach(IComp(n, axis), Comp(Scaled(PairVector(g.wrapped, g.cell, a, j, n), inv), axis),
              Comp(Scaled(g.wrapped[a], inv), axis), Comp(Scaled(g.wrapped[j], inv), axis),
              Extent(g.cutoff, Comp(norms, axis)));
    ReachComp(g.cutoff, norms, axis);
  }

  /** Every image within the cutoff lies in the symmetric box of `N`: the box
      the half-space enumeration is cut from is large enough. */
  lemma Coverage(g: Setup, inv: Mat3, norms: Vec3, a: nat, j: nat, n: IVec3)
    requires WellFormed(g, inv, norms)
    requires a < |g.wrapped| && j < |g.wrapped| && InCutoff(g, a, j, n)
    ensures InSymBox(g.reach, n)
  {
    AxisInBox(g, inv, norms, a, j, n, 0);
    AxisInBox(g, inv, norms, a, j, n, 1);
    AxisInBox(g, inv, norms, a, j, n, 2);
  }

  /** Over the whole enumeration, `j` is recorded at image `n` in atom `a`'s
      list exactly when `n` is visited, `j` is within the cutoff there, and
      `j > a` if `n` is the zero image. */
  lemma ListedInBox(g: Setup, a: nat, j: nat, n: IVec3)
    requires g.Valid() && a < |g.wrapped| && j < |g.wrapped|
    ensures Listed(NeighborsOver(g, a, Box(g.reach)), ImagesOver(g, a, Box(g.reach)), j, n)
        <==> Visited(g.reach, n) && InCutoff(g, a, j, n) && (n == IZero ==> j > a)
  {
    BoxSpec(g.reach);
    ListedIff(g, a, Box(g.reach), j, n);
  }

  /** With a nonnegative cutoff every axis tries at least one image on each side. */
  lemma ReachPositive(cutoff: real, norms: Vec3)
    requires 0.0 <= cutoff && 0.0 <= norms.x && 0.0 <= norms.y && 0.0 <= norms.z
    ensures var r := Reach(cutoff, norms); r.a >= 1 && r.b >= 1 && r.c >= 1
  {
    MulMono(0.0, cutoff, norms.x);
    MulMono(0.0, cutoff, norms.y);
    MulMono(0.0, cutoff, norms.z);
  }

  /** Within the cutoff, `j` is recorded at image `n` in atom `a`'s list
      exactly when `n` is visited, and `j > a` if `n` is the zero image. */
  lemma ListedClose(g: Setup, a: nat, j: nat, n: IVec3)
    requires g.Valid() && a < |g.wrapped| && j < |g.wrapped| && InCutoff(g, a, j, n)
    ensures Listed(NeighborsOver(g, a, Box(g.reach)), ImagesOver(g, a, Box(g.reach)), j, n)
        <==> Visited(g.reach, n) && (n == IZero ==> j > a)
  {
    ListedInBox(g, a, j, n);
  }

  /** Of an offset in the symmetric box and its negation exactly one is
      visited, except the zero offset, which is visited and is its own negation. */
  lemma VisitedOnce(r: IVec3, n: IVec3)
    requires r.a >= 0 && r.b >= 0 && r.c >= 0 && InSymBox(r, n)
    ensures n != IZero ==> INeg(n) != IZero && (Visited(r, n) <==> !Visited(r, INeg(n)))
    ensures n == IZero ==> INeg(n) == IZero && Visited(r, n)
  {
    if n == IZero {
      assert InBox(r, n) && !Skipped(n);
    } else {
      assert n.a != 0 || n.b != 0 || n.c != 0;
      HalfSpace(r, n);
    }
  }

  /** For a pair inside the symmetric box, `j` is recorded at image `n` in
      atom `a`'s list exactly when `a` is not recorded at image `-n` in atom
      `j`'s list. */
  lemma ListedOnce(g: Setup, a: nat, j: nat, n: IVec3)
    requires g.Valid() && g.reach.a >= 0 && g.reach.b >= 0 && g.reach.c >= 0
    requires a < |g.wrapped| && j < |g.wrapped| && (a != j || n != IZero)
    requires InSymBox(g.reach, n) && InCutoff(g, a, j, n) && InCutoff(g, j, a, INeg(n))
    ensures var box := Box(g.reach);
      (Listed(NeighborsOver(g, a, box), ImagesOver(g, a, box), j, n)
       <==> !Listed(NeighborsOver(g, j, box), ImagesOver(g, j, box), a, INeg(n)))
  {
    var box := Box(g.reach);
    var here := Listed(NeighborsOver(g, a, box), ImagesOver(g, a, box), j, n);
    var there := Listed(NeighborsOver(g, j, box), ImagesOver(g, j, box), a, INeg(n));
    ListedClose(g, a, j, n);
    ListedClose(g, j, a, INeg(n));
    VisitedOnce(g.reach, n);
    if n == IZero {
      assert here <==> j > a;
      assert there <==> a > j;
    } else {
      assert here <==> Visited(g.reach, n);
      assert there <==> Visited(g.reach, INeg(n));
    }
  }

  /** Each pair within the cutoff is recorded exactly once: either as `j` at
      image `n` in atom `a`'s list, or as `a` at image `-n` in atom `j`'s
      list, never both and never neither. Only an atom and itself at the
      zero image is not a pair. Neither list holds an entry twice, so the
      pair occupies exactly one entry of the two lists together. */
  lemma PairOnce(g: Setup, inv: Mat3, norms: Vec3, a: nat, j: nat, n: IVec3)
    requires WellFormed(g, inv, norms)
    requires a < |g.wrapped| && j < |g.wrapped| && (a != j || n != IZero) && InCutoff(g, a, j, n)
    ensures var box := Box(g.reach);
      (Listed(NeighborsOver(g, a, box), ImagesOver(g, a, box), j, n)
       <==> !Listed(NeighborsOver(g, j, box), ImagesOver(g, j, box), a, INeg(n)))
    ensures var box := Box(g.reach);
      NoRepeats(NeighborsOver(g, a, box), ImagesOver(g, a, box))
      && NoRepeats(NeighborsOver(g, j, box), ImagesOver(g, j, box))
  {
    ListedAtMostOnce(g, a);
    ListedAtMostOnce(g, j);
    Coverage(g, inv, norms, a, j, n);
    PairVectorSwap(g.wrapped, g.cell, a, j, n);
    ReachPositive(g.cutoff, norms);
    ListedOnce(g, a, j, n);
  }
}
