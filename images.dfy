/** The list of integer image offsets built from three per-axis ranges: the
    broadcast sum `v0[:, None, None] + v1[None, :, None] + v2[None, None, :]`
    reshaped to `(-1, 3)`, i.e. the Cartesian product in row-major order with
    axis 0 outermost. */
module Images {
  import opened Linalg
  import opened Ranges

  /** (x, y, c) for every c in r2, in order. */
  function Line(x: int, y: int, r2: seq<int>): (s: seq<IVec3>)
    ensures |s| == |r2|
    ensures forall l :: 0 <= l < |s| ==> s[l] == IVec3(x, y, r2[l])
  {
    seq(|r2|, l requires 0 <= l < |r2| => IVec3(x, y, r2[l]))
  }

  /** (x, y, c) for every y in r1 and c in r2, y outermost. */
  function Plane(x: int, r1: seq<int>, r2: seq<int>): seq<IVec3>
    decreases |r1|
  {
    if r1 == [] then [] else Line(x, r1[0], r2) + Plane(x, r1[1..], r2)
  }

  /** (x, y, c) for every x in r0, y in r1 and c in r2, x outermost. */
  function Product(r0: seq<int>, r1: seq<int>, r2: seq<int>): seq<IVec3>
    decreases |r0|
  {
    if r0 == [] then [] else Plane(r0[0], r1, r2) + Product(r0[1..], r1, r2)
  }

  /** Lexicographic (row-major) order on offsets. */
  predicate LexLess(u: IVec3, v: IVec3) {
    u.a < v.a || (u.a == v.a && (u.b < v.b || (u.b == v.b && u.c < v.c)))
  }

  predicate LexSorted(s: seq<IVec3>) {
    forall p, q :: 0 <= p < q < |s| ==> LexLess(s[p], s[q])
  }

  /** A plane lists every (x, y, c) with y in r1 and c in r2, |r1| * |r2| of them,
      strictly increasing in row-major order when the ranges are increasing. */
  lemma PlaneSpec(x: int, r1: seq<int>, r2: seq<int>)
    ensures |Plane(x, r1, r2)| == |r1| * |r2|
    ensures forall n :: n in Plane(x, r1, r2) <==> n.a == x && n.b in r1 && n.c in r2
    ensures Increasing(r1) && Increasing(r2) ==> LexSorted(Plane(x, r1, r2))
  {
    PlaneLength(x, r1, r2);
    PlaneMembers(x, r1, r2);
    if Increasing(r1) && Increasing(r2) {
      PlaneSorted(x, r1, r2);
    }
  }

  lemma {:induction false} PlaneMembers(x: int, r1: seq<int>, r2: seq<int>)
    ensures forall n :: n in Plane(x, r1, r2) <==> n.a == x && n.b in r1 && n.c in r2
    decreases |r1|
  {
    if r1 != [] {
      var line, rest := Line(x, r1[0], r2), Plane(x, r1[1..], r2);
      PlaneMembers(x, r1[1..], r2);
      forall n: IVec3 ensures n in line + rest <==> n.a == x && n.b in r1 && n.c in r2 {
        if n.a == x && n.b in r1 && n.c in r2 && n.b == r1[0] {
          var l :| 0 <= l < |r2| && r2[l] == n.c;
          assert line[l] == n;
        }
      }
    }
  }

  lemma {:induction false} PlaneSorted(x: int, r1: seq<int>, r2: seq<int>)
    requires Increasing(r1) && Increasing(r2)
    ensures LexSorted(Plane(x, r1, r2))
    decreases |r1|
  {
    if r1 != [] {
      var line, rest := Line(x, r1[0], r2), Plane(x, r1[1..], r2);
      assert Increasing(r1[1..]) by {
        forall p, q | 0 <= p < q < |r1[1..]| ensures r1[1..][p] < r1[1..][q] {
          assert r1[1..][p] == r1[p + 1] && r1[1..][q] == r1[q + 1];
        }
      }
      PlaneSorted(x, r1[1..], r2);
      PlaneMembers(x, r1[1..], r2);
      forall p, q | 0 <= p < q < |line + rest| ensures LexLess((line + rest)[p], (line + rest)[q]) {
        if q >= |line| && p < |line| {
          var n := (line + rest)[q];
          assert n in rest;
          var t :| 0 <= t < |r1[1..]| && r1[1..][t] == n.b;
          assert r1[0] < n.b by { assert r1[t + 1] == n.b; }
        } else if q < |line| {
          assert (line + rest)[p] == line[p] && (line + rest)[q] == line[q];
        } else {
          assert (line + rest)[p] == rest[p - |line|] && (line + rest)[q] == rest[q - |line|];
        }
      }
    }
  }

  lemma {:induction false} PlaneLength(x: int, r1: seq<int>, r2: seq<int>)
    ensures |Plane(x, r1, r2)| == |r1| * |r2|
    decreases |r1|
  {
    if r1 != [] {
      PlaneLength(x, r1[1..], r2);
      MulStep(|r1|, |r2|);
    }
  }

  lemma MulStep(a: int, b: int)
    ensures a * b == b + (a - 1) * b
  {
  }

  /** The product lists every combination of the ranges' values, |r0| * |r1| * |r2| of them,
      strictly increasing in row-major order when the ranges are increasing. */
  lemma ProductSpec(r0: seq<int>, r1: seq<int>, r2: seq<int>)
    ensures |Product(r0, r1, r2)| == |r0| * (|r1| * |r2|)
    ensures forall n :: n in Product(r0, r1, r2) <==> n.a in r0 && n.b in r1 && n.c in r2
    ensures Increasing(r0) && Increasing(r1) && Increasing(r2) ==> LexSorted(Product(r0, r1, r2))
  {
    ProductLength(r0, r1, r2);
    ProductMembers(r0, r1, r2);
    if Increasing(r0) && Increasing(r1) && Increasing(r2) {
      ProductSorted(r0, r1, r2);
    }
  }

  lemma {:induction false} ProductLength(r0: seq<int>, r1: seq<int>, r2: seq<int>)
    ensures |Product(r0, r1, r2)| == |r0| * (|r1| * |r2|)
    decreases |r0|
  {
    if r0 != [] {
      PlaneLength(r0[0], r1, r2);
      ProductLength(r0[1..], r1, r2);
      MulStep(|r0|, |r1| * |r2|);
    }
  }

  lemma {:induction false} ProductMembers(r0: seq<int>, r1: seq<int>, r2: seq<int>)
    ensures forall n :: n in Product(r0, r1, r2) <==> n.a in r0 && n.b in r1 && n.c in r2
    decreases |r0|
  {
    if r0 != [] {
      var plane, rest := Plane(r0[0], r1, r2), Product(r0[1..], r1, r2);
      PlaneMembers(r0[0], r1, r2);
      ProductMembers(r0[1..], r1, r2);
      forall n: IVec3 ensures n in plane + rest <==> n.a in r0 && n.b in r1 && n.c in r2 {
        if n.a in r0 && n.a != r0[0] {
          var t :| 0 <= t < |r0| && r0[t] == n.a;
          assert n.a in r0[1..] by { assert r0[1..][t - 1] == n.a; }
        }
      }
    }
  }

  lemma ProductMember(r0: seq<int>, r1: seq<int>, r2: seq<int>, n: IVec3)
    ensures n in Product(r0, r1, r2) <==> n.a in r0 && n.b in r1 && n.c in r2
  {
    ProductMembers(r0, r1, r2);
  }

  /** The product of three integer ranges is the box of points between their bounds. */
  lemma RangesProductMember(lo0: int, hi0: int, lo1: int, hi1: int, lo2: int, hi2: int, n: IVec3)
    ensures n in Product(Range(lo0, hi0), Range(lo1, hi1), Range(lo2, hi2))
        <==> lo0 <= n.a < hi0 && lo1 <= n.b < hi1 && lo2 <= n.c < hi2
  {
    ProductMember(Range(lo0, hi0), Range(lo1, hi1), Range(lo2, hi2), n);
    RangeMember(lo0, hi0, n.a);
    RangeMember(lo1, hi1, n.b);
    RangeMember(lo2, hi2, n.c);
  }

  lemma {:induction false} ProductSorted(r0: seq<int>, r1: seq<int>, r2: seq<int>)
    requires Increasing(r0) && Increasing(r1) && Increasing(r2)
    ensures LexSorted(Product(r0, r1, r2))
    decreases |r0|
  {
    if r0 != [] {
      var plane, rest := Plane(r0[0], r1, r2), Product(r0[1..], r1, r2);
      PlaneMembers(r0[0], r1, r2);
      PlaneSorted(r0[0], r1, r2);
      ProductMembers(r0[1..], r1, r2);
      ProductSorted(r0[1..], r1, r2);
      forall p, q | 0 <= p < q < |plane + rest| ensures LexLess((plane + rest)[p], (plane + rest)[q]) {
        if q >= |plane| && p < |plane| {
          var n := (plane + rest)[q];
          assert n in rest;
          var t :| 0 <= t < |r0[1..]| && r0[1..][t] == n.a;
          assert r0[0] < n.a by { assert r0[t + 1] == n.a; }
          assert (plane + rest)[p] in plane;
        }
      }
    }
  }

  /** A strictly sorted list holds each value at one index only. */
  lemma LexSortedUnique(s: seq<IVec3>, p: int, q: int)
    requires LexSorted(s)
    requires 0 <= p < |s| && 0 <= q < |s| && s[p] == s[q]
    ensures p == q
  {
  }
}
