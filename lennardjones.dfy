/** The periodic, cutoff-shifted Lennard-Jones energy over the dense distance
    tensor, and the post-processing of a strain gradient into the Voigt
    stress. The gradients themselves (forces, and the strain derivative the
    stress starts from) come from automatic differentiation and are not part
    of this model: the strain gradient `der` is an input. */
module LennardJones {
  import opened Common
  import opened Linalg
  import opened Cells
  import opened Distances

  // ------------------------------------------------------------ parameters

  /** The parameter dictionary; only `sigma` and `epsilon` are read. */
  type Params = map<string, real>

  /** `params.get('sigma', 1.0)`. */
  function Sigma(params: Params): real {
    if "sigma" in params then params["sigma"] else 1.0
  }

  /** `params.get('epsilon', 1.0)`. */
  function Epsilon(params: Params): real {
    if "epsilon" in params then params["epsilon"] else 1.0
  }

  /** The fixed cutoff `rc = 3 * sigma`. */
  function CutoffRadius(sigma: real): real { 3.0 * sigma }

  /** The skin passed to `get_distances`. */
  const Skin: real := 0.01

  /** Missing parameters default to 1.0 and keys other than `sigma` and
      `epsilon` change nothing. */
  lemma ParamDefaults(params: Params, key: string, v: real)
    requires key != "sigma" && key != "epsilon"
    ensures Sigma(map[]) == 1.0 && Epsilon(map[]) == 1.0
    ensures Sigma(params[key := v]) == Sigma(params) && Epsilon(params[key := v]) == Epsilon(params)
  {
  }

  // -------------------------------------------------------- the pair law

  function Cube(x: real): real { x * x * x }

  /** `x**6` and `x**12`. */
  function Pow6(x: real): real { Cube(x * x) }
  function Pow12(x: real): real { Pow6(x) * Pow6(x) }

  /** `4 * epsilon * (c12 - c6)` for a given `c6`. */
  function LJ(epsilon: real, c6: real): real { 4.0 * epsilon * (c6 * c6 - c6) }

  /** The shift `e0 = 4 * epsilon * ((sigma / rc)**12 - (sigma / rc)**6)`;
      `sigma / rc` divides by zero when sigma is zero. */
  function Shift(sigma: real, epsilon: real): (r: Result<real>)
    ensures r.Err? <==> sigma == 0.0
    ensures r.Err? ==> r.error == ZeroDivisionError
  {
    var rc := CutoffRadius(sigma);
    if rc == 0.0 then Err(ZeroDivisionError)
    else Ok(4.0 * epsilon * (Pow12(sigma / rc) - Pow6(sigma / rc)))
  }

  /** An entry of `r2` takes part in the energy: `(r2 <= rc**2) & (r2 > 0.0)`. */
  predicate Counted(r2: real, rc: real) { 0.0 < r2 <= rc * rc }

  /** `c6` after both `np.where`s: `(sigma**2 / r2)**3` for a counted entry, else 0. */
  function C6(sigma: real, rc: real, r2: real): real {
    if r2 == 0.0 then 0.0
    else if Counted(r2, rc) then Cube(sigma * sigma / r2)
    else 0.0
  }

  /** The unshifted pair energy `4 epsilon ((sigma^2/r2)^6 - (sigma^2/r2)^3)` at
      squared distance `r2`, as an independent reference. */
  function PairEnergy(sigma: real, epsilon: real, r2: real): real
    requires r2 > 0.0
  {
    LJ(epsilon, Cube(sigma * sigma / r2))
  }

  /** The unshifted pair energy at the cutoff radius: there `sigma^2 / r2` is
      `(sigma / (3 sigma))^2 = 1/9` whatever sigma is. */
  function CutoffEnergy(epsilon: real): real {
    LJ(epsilon, Cube(1.0 / 9.0))
  }

  lemma QuotientOfSquare(s: real, r2: real)
    requires r2 > 0.0
    ensures s * s / r2 == s * (s / r2)
  {
  }

  lemma PositiveTimesQuotient(s: real, r2: real)
    requires s > 0.0 && r2 > 0.0
    ensures s * (s / r2) > 0.0
  {
    assert s / r2 > 0.0;
  }

  lemma NegativeTimesQuotient(s: real, r2: real)
    requires s < 0.0 && r2 > 0.0
    ensures s * (s / r2) > 0.0
  {
    assert s / r2 < 0.0;
  }

  /** `sigma**2 / r2` is positive for a nonzero sigma and a positive `r2`. */
  lemma SquareOverPositive(s: real, r2: real)
    requires s != 0.0 && r2 > 0.0
    ensures s * s / r2 > 0.0
  {
    QuotientOfSquare(s, r2);
    if s > 0.0 {
      PositiveTimesQuotient(s, r2);
    } else {
      NegativeTimesQuotient(s, r2);
    }
  }

  lemma CubePositive(x: real)
    requires x > 0.0
    ensures Cube(x) > 0.0
  {
  }

  /** For a nonzero sigma, `c6` is nonzero exactly on the counted entries. */
  lemma C6NonzeroIffCounted(sigma: real, rc: real, r2: real)
    requires sigma != 0.0
    ensures C6(sigma, rc, r2) != 0.0 <==> Counted(r2, rc)
  {
    if Counted(r2, rc) {
      SquareOverPositive(sigma, r2);
      CubePositive(sigma * sigma / r2);
    }
  }

  lemma QuotientOfProducts(a: real, b: real, c: real, d: real)
    requires c != 0.0 && d != 0.0
    ensures (a * b) / (c * d) == (a / c) * (b / d)
  {
  }

  /** `sigma / rc` is one third for every nonzero sigma. */
  lemma SigmaOverCutoff(sigma: real)
    requires sigma != 0.0
    ensures sigma / CutoffRadius(sigma) == 1.0 / 3.0
  {
  }

  lemma RadiusSquaredPositive(sigma: real, rc: real)
    requires sigma != 0.0 && rc == 3.0 * sigma
    ensures rc * rc > 0.0
  {
  }

  lemma OneThirdSquared(q: real)
    requires q == 1.0 / 3.0
    ensures q * q == 1.0 / 9.0
  {
  }

  lemma RadiusRatio(sigma: real, rc: real)
    requires sigma != 0.0 && rc == 3.0 * sigma
    ensures sigma / rc == 1.0 / 3.0
  {
  }

  /** At the cutoff `rc = 3 sigma`, `sigma**2 / r2` is one ninth. */
  lemma RatioAtCutoff(sigma: real, rc: real)
    requires sigma != 0.0 && rc == 3.0 * sigma
    ensures rc * rc > 0.0
    ensures sigma * sigma / (rc * rc) == 1.0 / 9.0
  {
    RadiusSquaredPositive(sigma, rc);
    RadiusRatio(sigma, rc);
    QuotientOfProducts(sigma, sigma, rc, rc);
    OneThirdSquared(sigma / rc);
  }

  /** The shift is the unshifted pair energy at the cutoff radius. */
  lemma ShiftIsCutoffEnergy(sigma: real, epsilon: real)
    requires sigma != 0.0
    ensures Shift(sigma, epsilon) == Ok(CutoffEnergy(epsilon))
  {
    SigmaOverCutoff(sigma);
    var q := sigma / CutoffRadius(sigma);
    assert Cube(1.0 / 9.0) == 1.0 / 729.0;
    assert Pow6(q) == 1.0 / 729.0;
    assert Pow12(q) == (1.0 / 729.0) * (1.0 / 729.0);
    assert CutoffRadius(sigma) != 0.0;
    assert Shift(sigma, epsilon).Ok?;
    assert Shift(sigma, epsilon).value == 4.0 * epsilon * (Pow12(q) - Pow6(q));
    assert CutoffEnergy(epsilon) == 4.0 * epsilon * ((1.0 / 729.0) * (1.0 / 729.0) - 1.0 / 729.0);
  }

  // ------------------------------------------------------ sums and counts

  /** `c6` for every entry. */
  function C6s(sigma: real, rc: real, r2s: seq<real>): (c: seq<real>)
    ensures |c| == |r2s|
    ensures forall p :: 0 <= p < |r2s| ==> c[p] == C6(sigma, rc, r2s[p])
  {
    seq(|r2s|, p requires 0 <= p < |r2s| => C6(sigma, rc, r2s[p]))
  }

  /** `4 * epsilon * (c12 - c6)` for every entry. */
  function PairTerms(epsilon: real, c6s: seq<real>): (t: seq<real>)
    ensures |t| == |c6s|
    ensures forall p :: 0 <= p < |c6s| ==> t[p] == LJ(epsilon, c6s[p])
  {
    seq(|c6s|, p requires 0 <= p < |c6s| => LJ(epsilon, c6s[p]))
  }

  /** `(c6 != 0.0).sum()`. */
  function CountNonzero(c6s: seq<real>): nat
    decreases |c6s|
  {
    if c6s == [] then 0 else CountNonzero(c6s[..|c6s| - 1]) + (if c6s[|c6s| - 1] != 0.0 then 1 else 0)
  }

  /** `np.sum` of a flat sequence of entries. */
  function Sum(xs: seq<real>): real
    decreases |xs|
  {
    if xs == [] then 0.0 else Sum(xs[..|xs| - 1]) + xs[|xs| - 1]
  }

  /** Lines 34-49 from the squared distances `r2s` on: `-e0` per nonzero `c6`,
      plus the pair energies, halved. */
  function EnergyOfSquares(sigma: real, epsilon: real, r2s: seq<real>): (r: Result<real>)
    ensures r.Err? <==> sigma == 0.0
  {
    match Shift(sigma, epsilon)
    case Err(e) => Err(e)
    case Ok(e0) =>
      var c6 := C6s(sigma, CutoffRadius(sigma), r2s);
      Ok(Halved(e0, CountNonzero(c6), Sum(PairTerms(epsilon, c6))))
  }

  /** `energy = -e0 * count; energy += pair_sum; return energy / 2`. */
  function Halved(e0: real, count: nat, pairSum: real): real {
    (-(e0 * count as real) + pairSum) / 2.0
  }

  lemma Distribute(e0: real, n: real)
    ensures e0 * n + e0 == e0 * (n + 1.0)
  {
  }

  // --------------------------------------------------- reference energy

  /** What one entry contributes in the reference pair loop: the shifted
      pair energy when it is counted, nothing otherwise. */
  function Contribution(sigma: real, epsilon: real, r2: real): real {
    if Counted(r2, CutoffRadius(sigma))
    then PairEnergy(sigma, epsilon, r2) - CutoffEnergy(epsilon)
    else 0.0
  }

  /** The contribution of every entry. */
  function Contributions(sigma: real, epsilon: real, r2s: seq<real>): (c: seq<real>)
    ensures |c| == |r2s|
    ensures forall p :: 0 <= p < |r2s| ==> c[p] == Contribution(sigma, epsilon, r2s[p])
  {
    seq(|r2s|, p requires 0 <= p < |r2s| => Contribution(sigma, epsilon, r2s[p]))
  }

  /** An entry at exactly the cutoff is counted and contributes nothing:
      the shifted potential is continuous there. */
  lemma ShiftVanishesAtCutoff(sigma: real, epsilon: real)
    requires sigma != 0.0
    ensures Counted(CutoffRadius(sigma) * CutoffRadius(sigma), CutoffRadius(sigma))
    ensures Contribution(sigma, epsilon, CutoffRadius(sigma) * CutoffRadius(sigma)) == 0.0
  {
    RatioAtCutoff(sigma, CutoffRadius(sigma));
  }

  /** Zero entries and entries beyond the energy cutoff (those in
      (rc, rc + skin] that `get_distances` let through) contribute nothing. */
  lemma UncountedContributeNothing(sigma: real, epsilon: real, r2: real)
    requires r2 == 0.0 || r2 > CutoffRadius(sigma) * CutoffRadius(sigma)
    ensures Contribution(sigma, epsilon, r2) == 0.0
    ensures C6(sigma, CutoffRadius(sigma), r2) == 0.0
  {
  }

  /** One entry's share: `-e0` if its `c6` is nonzero, plus `4 epsilon (c12 - c6)`. */
  lemma EntryShare(sigma: real, epsilon: real, e0: real, x: real)
    requires sigma != 0.0
    requires e0 == CutoffEnergy(epsilon)
    ensures var c := C6(sigma, CutoffRadius(sigma), x);
      -(if c != 0.0 then e0 else 0.0) + LJ(epsilon, c) == Contribution(sigma, epsilon, x)
  {
    C6NonzeroIffCounted(sigma, CutoffRadius(sigma), x);
  }

  /** Charging `e0` to every nonzero `c6` and adding the pair terms gives
      the sum of the per-entry shares. */
  lemma {:induction false} ShiftedSum(e0: real, c6s: seq<real>, terms: seq<real>, shares: seq<real>)
    requires |c6s| == |terms| == |shares|
    requires forall p :: 0 <= p < |c6s| ==> -(if c6s[p] != 0.0 then e0 else 0.0) + terms[p] == shares[p]
    ensures -(e0 * CountNonzero(c6s) as real) + Sum(terms) == Sum(shares)
    decreases |c6s|
  {
    if c6s != [] {
      var k := |c6s| - 1;
      ShiftedSum(e0, c6s[..k], terms[..k], shares[..k]);
      if c6s[k] != 0.0 {
        assert CountNonzero(c6s) == CountNonzero(c6s[..k]) + 1;
        Distribute(e0, CountNonzero(c6s[..k]) as real);
      } else {
        assert CountNonzero(c6s) == CountNonzero(c6s[..k]);
      }
    }
  }

  /** Every entry's share, as `EntryShare` states it, over a whole sequence. */
  lemma EntryShares(sigma: real, epsilon: real, r2s: seq<real>)
    requires sigma != 0.0
    ensures var c6 := C6s(sigma, CutoffRadius(sigma), r2s);
      var terms, shares := PairTerms(epsilon, c6), Contributions(sigma, epsilon, r2s);
      forall p :: 0 <= p < |c6| ==>
        -(if c6[p] != 0.0 then CutoffEnergy(epsilon) else 0.0) + terms[p] == shares[p]
  {
    var c6 := C6s(sigma, CutoffRadius(sigma), r2s);
    forall p | 0 <= p < |c6|
      ensures -(if c6[p] != 0.0 then CutoffEnergy(epsilon) else 0.0) + PairTerms(epsilon, c6)[p]
           == Contributions(sigma, epsilon, r2s)[p]
    {
      EntryShare(sigma, epsilon, CutoffEnergy(epsilon), r2s[p]);
    }
  }

  /** The energy computed from the masked `c6` values, the count and the
      shift equals half the sum of one shifted pair energy per counted entry. */
  lemma EnergyIsHalfShiftedSum(sigma: real, epsilon: real, r2s: seq<real>)
    requires sigma != 0.0
    ensures EnergyOfSquares(sigma, epsilon, r2s) == Ok(Sum(Contributions(sigma, epsilon, r2s)) / 2.0)
  {
    ShiftIsCutoffEnergy(sigma, epsilon);
    EntryShares(sigma, epsilon, r2s);
    var c6 := C6s(sigma, CutoffRadius(sigma), r2s);
    var e0, terms := CutoffEnergy(epsilon), PairTerms(epsilon, c6);
    ShiftedSum(e0, c6, terms, Contributions(sigma, epsilon, r2s));
    HalvedTotal(e0, CountNonzero(c6), Sum(terms), Sum(Contributions(sigma, epsilon, r2s)));
  }

  lemma HalvedTotal(e0: real, count: nat, pairSum: real, total: real)
    requires -(e0 * count as real) + pairSum == total
    ensures Halved(e0, count, pairSum) == total / 2.0
  {
  }

  lemma {:induction false} NothingCountedSumsToZero(sigma: real, epsilon: real, r2s: seq<real>)
    requires forall p :: 0 <= p < |r2s| ==> !Counted(r2s[p], CutoffRadius(sigma))
    ensures Sum(Contributions(sigma, epsilon, r2s)) == 0.0
    decreases |r2s|
  {
    if r2s != [] {
      var k := |r2s| - 1;
      NothingCountedSumsToZero(sigma, epsilon, r2s[..k]);
      assert Contributions(sigma, epsilon, r2s)[..k] == Contributions(sigma, epsilon, r2s[..k]);
    }
  }

  /** Without counted entries (all zero, or all beyond the cutoff) the energy is 0. */
  lemma NothingCountedZeroEnergy(sigma: real, epsilon: real, r2s: seq<real>)
    requires sigma != 0.0
    requires forall p :: 0 <= p < |r2s| ==> !Counted(r2s[p], CutoffRadius(sigma))
    ensures EnergyOfSquares(sigma, epsilon, r2s) == Ok(0.0)
  {
    EnergyIsHalfShiftedSum(sigma, epsilon, r2s);
    NothingCountedSumsToZero(sigma, epsilon, r2s);
  }

  lemma {:induction false} SumAppend(xs: seq<real>, ys: seq<real>)
    ensures Sum(xs + ys) == Sum(xs) + Sum(ys)
    decreases |ys|
  {
    if ys == [] {
      assert xs + ys == xs;
    } else {
      var init := ys[..|ys| - 1];
      assert (xs + ys)[..|xs + ys| - 1] == xs + init;
      SumAppend(xs, init);
    }
  }

  lemma MultisetCancel(a: multiset<real>, b: multiset<real>, x: real)
    requires a + multiset{x} == b + multiset{x}
    ensures a == b
  {
    forall y ensures a[y] == b[y] {
      assert (a + multiset{x})[y] == (b + multiset{x})[y];
    }
  }

  /** The sum does not depend on the order of the entries. */
  lemma {:induction false} SumPermutation(xs: seq<real>, ys: seq<real>)
    requires multiset(xs) == multiset(ys)
    ensures Sum(xs) == Sum(ys)
    decreases |xs|
  {
    if xs != [] {
      var init, x := xs[..|xs| - 1], xs[|xs| - 1];
      assert xs == init + [x];
      assert x in multiset(ys);
      var q :| 0 <= q < |ys| && ys[q] == x;
      var before, after := ys[..q], ys[q + 1..];
      assert ys == before + [x] + after;
      assert multiset(init) + multiset{x} == multiset(before + after) + multiset{x};
      MultisetCancel(multiset(init), multiset(before + after), x);
      SumPermutation(init, before + after);
      SumAppend(before + [x], after);
      SumAppend(before, [x]);
      SumAppend(before, after);
      assert Sum([x]) == x by {
        assert [x][..0] == [];
      }
    }
  }

  /** Contributions are computed entry by entry, so the order of the entries
      carries over. */
  lemma ContributionsAppend(sigma: real, epsilon: real, xs: seq<real>, ys: seq<real>)
    ensures Contributions(sigma, epsilon, xs + ys)
         == Contributions(sigma, epsilon, xs) + Contributions(sigma, epsilon, ys)
  {
  }

  lemma {:induction false} ContributionsPermutation(sigma: real, epsilon: real, xs: seq<real>, ys: seq<real>)
    requires multiset(xs) == multiset(ys)
    ensures multiset(Contributions(sigma, epsilon, xs)) == multiset(Contributions(sigma, epsilon, ys))
    decreases |xs|
  {
    if xs == [] {
      assert ys == [];
    } else {
      var init, x := xs[..|xs| - 1], xs[|xs| - 1];
      assert xs == init + [x];
      assert x in multiset(ys);
      var q :| 0 <= q < |ys| && ys[q] == x;
      var before, after := ys[..q], ys[q + 1..];
      assert ys == before + [x] + after;
      assert multiset(init) + multiset{x} == multiset(before + after) + multiset{x};
      MultisetCancel(multiset(init), multiset(before + after), x);
      ContributionsPermutation(sigma, epsilon, init, before + after);
      var c := Contribution(sigma, epsilon, x);
      ContributionsAppend(sigma, epsilon, init, [x]);
      ContributionsAppend(sigma, epsilon, before + [x], after);
      ContributionsAppend(sigma, epsilon, before, [x]);
      ContributionsAppend(sigma, epsilon, before, after);
      assert Contributions(sigma, epsilon, [x]) == [c];
    }
  }

  /** When the entries hold every physical pair twice, the halved total is
      one shifted pair energy per counted pair. This is conditional: the
      doubling is a premise here, and is not derived for the tensors that
      `GetDistances` builds (`EntrySwap` gives the two entries of a pair
      equal values, not the multiset identity). */
  lemma DoubleCountingHalved(sigma: real, epsilon: real, r2s: seq<real>, pairs: seq<real>)
    requires sigma != 0.0
    requires multiset(r2s) == multiset(pairs) + multiset(pairs)
    ensures EnergyOfSquares(sigma, epsilon, r2s) == Ok(Sum(Contributions(sigma, epsilon, pairs)))
  {
    EnergyIsHalfShiftedSum(sigma, epsilon, r2s);
    ContributionsPermutation(sigma, epsilon, r2s, pairs + pairs);
    SumPermutation(Contributions(sigma, epsilon, r2s), Contributions(sigma, epsilon, pairs + pairs));
    assert Contributions(sigma, epsilon, pairs + pairs)
        == Contributions(sigma, epsilon, pairs) + Contributions(sigma, epsilon, pairs);
    SumAppend(Contributions(sigma, epsilon, pairs), Contributions(sigma, epsilon, pairs));
  }

  // ----------------------------------------------------- the whole energy

  /** All entries of a tensor in row-major order (`np.sum` over every axis). */
  function Flatten(t: Tensor): seq<real>
    decreases |t|
  {
    if t == [] then [] else FlattenRow(t[0]) + Flatten(t[1..])
  }

  function FlattenRow(m: seq<seq<real>>): seq<real>
    decreases |m|
  {
    if m == [] then [] else m[0] + FlattenRow(m[1..])
  }

  lemma {:induction false} FlattenRowHolds(m: seq<seq<real>>, j: nat, k: nat)
    requires j < |m| && k < |m[j]|
    ensures m[j][k] in FlattenRow(m)
    decreases |m|
  {
    if j > 0 {
      FlattenRowHolds(m[1..], j - 1, k);
      assert m[1..][j - 1] == m[j];
    } else {
      assert m[0][k] in m[0];
    }
  }

  /** Every entry of the tensor is among the flattened entries. */
  lemma {:induction false} FlattenHolds(t: Tensor, i: nat, j: nat, k: nat)
    requires i < |t| && j < |t[i]| && k < |t[i][j]|
    ensures t[i][j][k] in Flatten(t)
    decreases |t|
  {
    if i > 0 {
      FlattenHolds(t[1..], i - 1, j, k);
      assert t[1..][i - 1] == t[i];
    } else {
      FlattenRowHolds(t[0], j, k);
    }
  }

  /** `energy(params, positions, cell, strain)`: the shift fails first when
      sigma is zero, then the distance tensor for `rc = 3 sigma` and skin 0.01
      fails when there are no atoms; otherwise its squared entries are summed.
      `inv` and `norms` are the inverse of the strained cell and its column
      norms. */
  function Energy(params: Params, positions: seq<Vec3>, cell: Mat3, strain: Mat3, inv: Mat3, norms: Vec3): (r: Result<real>)
    requires IsInverse(StrainCell(strain, cell), inv) && ColumnNorms(inv, norms)
    ensures Sigma(params) == 0.0 ==> r == Err(ZeroDivisionError)
    ensures Sigma(params) != 0.0 ==> (r.Ok? <==> |positions| != 0)
    ensures Sigma(params) != 0.0 && |positions| == 0 ==> r.Err? && r.error.ValueError?
  {
    var sigma, epsilon := Sigma(params), Epsilon(params);
    if sigma == 0.0 then Err(ZeroDivisionError)
    else
      match GetDistances(positions, cell, CutoffRadius(sigma), Skin, strain, inv, norms)
      case Err(e) => Err(e)
      case Ok(t) => EnergyOfSquares(sigma, epsilon, Flatten(t))
  }

  /** Once the distance tensor `t` exists, the energy is the energy of its
      flattened squared entries; `EnergyIsHalfShiftedSum` turns that into
      half the sum of the shifted pair energies. */
  lemma EnergyOfTensor(params: Params, positions: seq<Vec3>, cell: Mat3, strain: Mat3, inv: Mat3, norms: Vec3, t: Tensor)
    requires IsInverse(StrainCell(strain, cell), inv) && ColumnNorms(inv, norms)
    requires Sigma(params) != 0.0
    requires GetDistances(positions, cell, CutoffRadius(Sigma(params)), Skin, strain, inv, norms) == Ok(t)
    ensures Energy(params, positions, cell, strain, inv, norms) == EnergyOfSquares(Sigma(params), Epsilon(params), Flatten(t))
  {
  }

  /** Where the strained atoms already lie in the cell, `Energy` is the
      energy the code as written computes: the same steps over
      `GetDistancesAsWritten`. */
  lemma EnergyInCell(params: Params, positions: seq<Vec3>, cell: Mat3, strain: Mat3, inv: Mat3, norms: Vec3)
    requires IsInverse(StrainCell(strain, cell), inv) && ColumnNorms(inv, norms)
    requires forall i :: 0 <= i < |positions| ==> InUnitCube(Scaled(StrainPositions(strain, positions)[i], inv))
    ensures Energy(params, positions, cell, strain, inv, norms)
         == if Sigma(params) == 0.0 then Err(ZeroDivisionError)
            else match GetDistancesAsWritten(positions, cell, CutoffRadius(Sigma(params)), Skin, strain, inv, norms)
                 case Err(e) => Err(e)
                 case Ok(t) => EnergyOfSquares(Sigma(params), Epsilon(params), Flatten(t))
  {
    AsWrittenInCell(positions, cell, CutoffRadius(Sigma(params)), Skin, strain, inv, norms);
  }

  // ---------------------------------------------------------------- stress

  /** `np.abs(np.linalg.det(cell))`. */
  function Volume(cell: Mat3): (v: real)
    ensures v >= 0.0 && (v == 0.0 <==> Det(cell) == 0.0)
  {
    if Det(cell) < 0.0 then -Det(cell) else Det(cell)
  }

  /** `(der + der.T) / 2 / volume`. */
  function Symmetrized(der: Mat3, volume: real): (s: Mat3)
    requires volume != 0.0
    ensures Symmetric(s)
  {
    MatScale(1.0 / volume, MatScale(0.5, MatAdd(der, Transpose(der))))
  }

  /** Entry `idx` of the matrix flattened row by row. */
  function FlatAt(m: Mat3, idx: nat): real
    requires idx < 9
  {
    var row := if idx / 3 == 0 then m.r0 else if idx / 3 == 1 then m.r1 else m.r2;
    Comp(row, idx % 3)
  }

  /** The flat indices `[0, 4, 8, 5, 2, 1]`. */
  const VoigtOrder: seq<nat> := [0, 4, 8, 5, 2, 1]

  /** `np.take(m, VoigtOrder)`: the Voigt components `[xx, yy, zz, yz, xz, xy]`. */
  function Voigt(m: Mat3): (v: seq<real>)
    ensures |v| == 6
    ensures v == [m.r0.x, m.r1.y, m.r2.z, m.r1.z, m.r0.z, m.r0.y]
  {
    seq(6, p requires 0 <= p < 6 => FlatAt(m, VoigtOrder[p]))
  }

  /** The symmetric matrix with Voigt components `v`. */
  function FromVoigt(v: seq<real>): Mat3
    requires |v| == 6
  {
    Mat3(Vec3(v[0], v[5], v[4]), Vec3(v[5], v[1], v[3]), Vec3(v[4], v[3], v[2]))
  }

  /** A symmetric matrix is recovered from its Voigt components, and every
      six-vector is the Voigt form of the symmetric matrix it describes. */
  lemma VoigtRoundTrip(m: Mat3, v: seq<real>)
    requires |v| == 6
    ensures Symmetric(m) ==> FromVoigt(Voigt(m)) == m
    ensures Voigt(FromVoigt(v)) == v
  {
  }

  /** The stress post-processing: symmetrise the strain gradient `der`,
      divide by the volume of the cell, and take the Voigt components. A
      singular cell makes the (unmodelled) gradient computation fail. */
  function Stress(der: Mat3, cell: Mat3): (s: seq<real>)
    requires Det(cell) != 0.0
    ensures |s| == 6
    ensures FromVoigt(s) == Symmetrized(der, Volume(cell))
  {
    var result := Symmetrized(der, Volume(cell));
    VoigtRoundTrip(result, Voigt(result));
    Voigt(result)
  }

  /** For an already symmetric gradient the stress is the gradient over the volume. */
  lemma SymmetricGradientStress(der: Mat3, cell: Mat3)
    requires Det(cell) != 0.0 && Symmetric(der)
    ensures FromVoigt(Stress(der, cell)) == MatScale(1.0 / Volume(cell), der)
  {
    assert Transpose(der) == der;
    var v := Volume(cell);
    assert MatScale(0.5, MatAdd(der, der)) == der;
  }

  /** The stress sees only the symmetric part of the gradient: transposing
      `der` changes nothing. */
  lemma StressOfTranspose(der: Mat3, cell: Mat3)
    requires Det(cell) != 0.0
    ensures Stress(Transpose(der), cell) == Stress(der, cell)
  {
    assert Transpose(Transpose(der)) == der;
    assert MatAdd(Transpose(der), der) == MatAdd(der, Transpose(der));
  }
}
