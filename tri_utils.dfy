/** Triangular masks and the row-major index lists of their cells, after
    `numpy.tri`, `numpy.tril_indices` and `numpy.triu_indices`. */
module TriUtils {
  import opened Common
  import opened Ranges

  type Mask = seq<seq<bool>>

  /** Row i of the result is `r1[i] >= r2[j]` for every j: the broadcast
      comparison `r1[:, None] >= r2[None, :]`. */
  function GreaterEqualOuter(r1: seq<int>, r2: seq<int>): (t: Mask)
    ensures |t| == |r1|
    ensures forall i :: 0 <= i < |t| ==> |t[i]| == |r2|
    ensures forall i, j :: 0 <= i < |r1| && 0 <= j < |r2| ==> t[i][j] == (r1[i] >= r2[j])
  {
    seq(|r1|, i requires 0 <= i < |r1| => seq(|r2|, j requires 0 <= j < |r2| => r1[i] >= r2[j]))
  }

  /** The column count: `M` when given, else `N`. */
  function Columns(n: int, m: Option<int>): int {
    if m.None? then n else m.value
  }

  /** An N x M mask that is true at and below diagonal k. */
  function Tri(n: int, m: Option<int>, k: int): (t: Mask)
    ensures |t| == Max0(n)
    ensures forall i :: 0 <= i < |t| ==> |t[i]| == Max0(Columns(n, m))
    ensures forall i, j :: 0 <= i < |t| && 0 <= j < |t[i]| ==> (t[i][j] <==> j <= i + k)
  {
    var cols := Columns(n, m);
    GreaterEqualOuter(Range(0, n), Range(-k, cols - k))
  }

  function LogicalNot(mask: Mask): (t: Mask)
    ensures |t| == |mask|
    ensures forall i :: 0 <= i < |t| ==> |t[i]| == |mask[i]|
    ensures forall i, j :: 0 <= i < |mask| && 0 <= j < |mask[i]| ==> t[i][j] == !mask[i][j]
  {
    seq(|mask|, i requires 0 <= i < |mask| =>
      seq(|mask[i]|, j requires 0 <= j < |mask[i]| => !mask[i][j]))
  }

  /** (i1, j1) comes strictly before (i2, j2) in row-major order. */
  predicate Before(p: (int, int), q: (int, int)) {
    p.0 < q.0 || (p.0 == q.0 && p.1 < q.1)
  }

  predicate RowMajor(w: seq<(int, int)>) {
    forall p, q :: 0 <= p < q < |w| ==> Before(w[p], w[q])
  }

  /** The coordinates (i, j) of the true cells of row `row`, which is row i, left to right. */
  function RowHits(i: int, row: seq<bool>): seq<(int, int)>
    decreases |row|
  {
    if |row| == 0 then []
    else RowHits(i, row[..|row| - 1]) + (if row[|row| - 1] then [(i, |row| - 1)] else [])
  }

  /** `tf.where` on a 2-D mask: the coordinates of its true cells in row-major order. */
  function Where(mask: Mask): seq<(int, int)>
    decreases |mask|
  {
    if |mask| == 0 then []
    else Where(mask[..|mask| - 1]) + RowHits(|mask| - 1, mask[|mask| - 1])
  }

  /** The two coordinate columns `result[:, 0], result[:, 1]`. */
  function Unzip(w: seq<(int, int)>): (r: (seq<int>, seq<int>))
    ensures |r.0| == |r.1| == |w|
    ensures forall p :: 0 <= p < |w| ==> (r.0[p], r.1[p]) == w[p]
  {
    (seq(|w|, p requires 0 <= p < |w| => w[p].0), seq(|w|, p requires 0 <= p < |w| => w[p].1))
  }

  function CountTrue(row: seq<bool>): nat
    decreases |row|
  {
    if |row| == 0 then 0 else CountTrue(row[..|row| - 1]) + (if row[|row| - 1] then 1 else 0)
  }

  function SumCounts(mask: Mask): nat
    decreases |mask|
  {
    if |mask| == 0 then 0 else SumCounts(mask[..|mask| - 1]) + CountTrue(mask[|mask| - 1])
  }

  lemma {:induction false} RowHitsSpec(i: int, row: seq<bool>)
    ensures |RowHits(i, row)| == CountTrue(row)
    ensures forall p :: 0 <= p < |RowHits(i, row)| ==>
      RowHits(i, row)[p].0 == i && 0 <= RowHits(i, row)[p].1 < |row| && row[RowHits(i, row)[p].1]
    ensures forall j :: 0 <= j < |row| && row[j] ==> (i, j) in RowHits(i, row)
    ensures RowMajor(RowHits(i, row))
    decreases |row|
  {
    if |row| > 0 {
      var init := row[..|row| - 1];
      RowHitsSpec(i, init);
      assert forall j :: 0 <= j < |init| ==> init[j] == row[j];
    }
  }

  /** `Where` lists exactly the true cells of the mask, each once, in row-major order. */
  lemma WhereSpec(mask: Mask)
    ensures |Where(mask)| == SumCounts(mask)
    ensures forall p :: 0 <= p < |Where(mask)| ==>
      0 <= Where(mask)[p].0 < |mask| && 0 <= Where(mask)[p].1 < |mask[Where(mask)[p].0]|
      && mask[Where(mask)[p].0][Where(mask)[p].1]
    ensures forall i, j :: 0 <= i < |mask| && 0 <= j < |mask[i]| && mask[i][j] ==> (i, j) in Where(mask)
    ensures RowMajor(Where(mask))
  {
    WhereLength(mask);
    WhereEntries(mask);
    WhereComplete(mask);
    WhereSorted(mask);
  }

  lemma {:induction false} WhereEntries(mask: Mask)
    ensures forall p :: 0 <= p < |Where(mask)| ==>
      0 <= Where(mask)[p].0 < |mask| && 0 <= Where(mask)[p].1 < |mask[Where(mask)[p].0]|
      && mask[Where(mask)[p].0][Where(mask)[p].1]
    decreases |mask|
  {
    if |mask| > 0 {
      var l := |mask| - 1;
      var init := mask[..l];
      WhereEntries(init);
      RowHitsSpec(l, mask[l]);
      var w0, w1 := Where(init), RowHits(l, mask[l]);
      var w: seq<(int, int)> := w0 + w1;
      assert Where(mask) == w;
      forall p | 0 <= p < |w|
        ensures 0 <= w[p].0 < |mask| && 0 <= w[p].1 < |mask[w[p].0]| && mask[w[p].0][w[p].1]
      {
        if p < |w0| {
          assert w[p] == w0[p];
          assert init[w0[p].0] == mask[w0[p].0];
        } else {
          assert w[p] == w1[p - |w0|];
        }
      }
    }
  }

  lemma {:induction false} WhereComplete(mask: Mask)
    ensures forall i, j :: 0 <= i < |mask| && 0 <= j < |mask[i]| && mask[i][j] ==> (i, j) in Where(mask)
    decreases |mask|
  {
    if |mask| > 0 {
      var l := |mask| - 1;
      var init := mask[..l];
      WhereComplete(init);
      RowHitsSpec(l, mask[l]);
      var w0, w1 := Where(init), RowHits(l, mask[l]);
      forall i, j | 0 <= i < |mask| && 0 <= j < |mask[i]| && mask[i][j]
        ensures (i, j) in w0 + w1
      {
        if i < l {
          assert init[i] == mask[i];
          assert (i, j) in w0;
        } else {
          assert (i, j) in w1;
        }
      }
    }
  }

  lemma {:induction false} WhereSorted(mask: Mask)
    ensures RowMajor(Where(mask))
    decreases |mask|
  {
    if |mask| > 0 {
      var l := |mask| - 1;
      var init := mask[..l];
      WhereSorted(init);
      WhereEntries(init);
      RowHitsSpec(l, mask[l]);
      var w0, w1 := Where(init), RowHits(l, mask[l]);
      forall p, q | 0 <= p < q < |w0 + w1| ensures Before((w0 + w1)[p], (w0 + w1)[q]) {
        if q < |w0| {
          assert (w0 + w1)[p] == w0[p] && (w0 + w1)[q] == w0[q];
        } else if p >= |w0| {
          assert (w0 + w1)[p] == w1[p - |w0|] && (w0 + w1)[q] == w1[q - |w0|];
        } else {
          assert w0[p].0 < l;
          assert w1[q - |w0|].0 == l;
        }
      }
    }
  }

  /** The pairs (r.0[p], r.1[p]) of two equal-length coordinate columns. */
  function Zip(r: (seq<int>, seq<int>)): (w: seq<(int, int)>)
    requires |r.0| == |r.1|
    ensures |w| == |r.0|
    ensures forall p :: 0 <= p < |w| ==> w[p] == (r.0[p], r.1[p])
  {
    seq(|r.0|, p requires 0 <= p < |r.0| => (r.0[p], r.1[p]))
  }

  lemma ZipUnzip(w: seq<(int, int)>)
    ensures Zip(Unzip(w)) == w
  {
  }

  /** `tril_indices(n, k, m)`: the cells (i, j) of the n x m grid with j <= i + k, row-major. */
  function TrilIndices(n: int, k: int, m: Option<int>): (r: (seq<int>, seq<int>))
    ensures |r.0| == |r.1|
    ensures forall p :: 0 <= p < |r.0| ==>
      0 <= r.0[p] < Max0(n) && 0 <= r.1[p] < Max0(Columns(n, m)) && r.1[p] <= r.0[p] + k
    ensures forall i, j :: 0 <= i < Max0(n) && 0 <= j < Max0(Columns(n, m)) && j <= i + k ==>
      (i, j) in Zip(r)
    ensures RowMajor(Zip(r))
  {
    var mask := Tri(n, m, k);
    WhereSpec(mask);
    ZipUnzip(Where(mask));
    Unzip(Where(mask))
  }

  /** `triu_indices(n, k, m)`: the cells (i, j) of the n x m grid with j >= i + k, row-major. */
  function TriuIndices(n: int, k: int, m: Option<int>): (r: (seq<int>, seq<int>))
    ensures |r.0| == |r.1|
    ensures forall p :: 0 <= p < |r.0| ==>
      0 <= r.0[p] < Max0(n) && 0 <= r.1[p] < Max0(Columns(n, m)) && r.1[p] >= r.0[p] + k
    ensures forall i, j :: 0 <= i < Max0(n) && 0 <= j < Max0(Columns(n, m)) && j >= i + k ==>
      (i, j) in Zip(r)
    ensures RowMajor(Zip(r))
  {
    var mask := LogicalNot(Tri(n, m, k - 1));
    WhereSpec(mask);
    ZipUnzip(Where(mask));
    Unzip(Where(mask))
  }

  /** `triu_indices_from(arr, k)`, with the array given by its shape. */
  function TriuIndicesFrom(shape: seq<nat>, k: int): (r: Result<(seq<int>, seq<int>)>)
    ensures r.Err? <==> |shape| != 2
    ensures r.Err? ==> r.error == ValueError("Tensor must be 2d")
    ensures r.Ok? ==> r.value == TriuIndices(shape[0], k, Some(shape[1]))
  {
    if |shape| != 2 then Err(ValueError("Tensor must be 2d"))
    else Ok(TriuIndices(shape[|shape| - 2], k, Some(shape[|shape| - 1])))
  }

  /** `tril_indices_from(arr, k)`, with the array given by its shape. */
  function TrilIndicesFrom(shape: seq<nat>, k: int): (r: Result<(seq<int>, seq<int>)>)
    ensures r.Err? <==> |shape| != 2
    ensures r.Err? ==> r.error == ValueError("Tensor must be 2d")
    ensures r.Ok? ==> r.value == TrilIndices(shape[0], k, Some(shape[1]))
  {
    if |shape| != 2 then Err(ValueError("Tensor must be 2d"))
    else Ok(TrilIndices(shape[|shape| - 2], k, Some(shape[|shape| - 1])))
  }

  function CellSet(r: (seq<int>, seq<int>)): set<(int, int)>
    requires |r.0| == |r.1|
  {
    set x | x in Zip(r)
  }

  function Grid(rows: nat, cols: nat): set<(int, int)> {
    set i, j | 0 <= i < rows && 0 <= j < cols :: (i, j)
  }

  function Diagonal(n: nat): set<(int, int)> {
    set i | 0 <= i < n :: (i, i)
  }

  /** Omitting M gives a square mask. */
  lemma TriDefaultsToSquare(n: int, k: int)
    ensures Tri(n, None, k) == Tri(n, Some(n), k)
    ensures TrilIndices(n, k, None) == TrilIndices(n, k, Some(n))
    ensures TriuIndices(n, k, None) == TriuIndices(n, k, Some(n))
  {
    TriSquare(n, k);
    TriSquare(n, k - 1);
  }

  lemma TriSquare(n: int, k: int)
    ensures Tri(n, None, k) == Tri(n, Some(n), k)
  {
    assert Tri(n, None, k) == GreaterEqualOuter(Range(0, n), Range(-k, n - k));
    assert Tri(n, Some(n), k) == GreaterEqualOuter(Range(0, n), Range(-k, n - k));
  }

  /** The upper cells for diagonal k + 1 and the lower cells for diagonal k split the grid:
      they are disjoint, together they are every cell, and their counts add up to n * m. */
  lemma TriuTrilPartition(n: int, k: int, m: Option<int>)
    ensures CellSet(TriuIndices(n, k + 1, m)) * CellSet(TrilIndices(n, k, m)) == {}
    ensures CellSet(TriuIndices(n, k + 1, m)) + CellSet(TrilIndices(n, k, m))
         == Grid(Max0(n), Max0(Columns(n, m)))
    ensures |TriuIndices(n, k + 1, m).0| + |TrilIndices(n, k, m).0| == Max0(n) * Max0(Columns(n, m))
  {
    TriuTrilCover(n, k, m);
    TriuTrilCount(n, k, m);
  }

  lemma TriuTrilCover(n: int, k: int, m: Option<int>)
    ensures CellSet(TriuIndices(n, k + 1, m)) * CellSet(TrilIndices(n, k, m)) == {}
    ensures CellSet(TriuIndices(n, k + 1, m)) + CellSet(TrilIndices(n, k, m))
         == Grid(Max0(n), Max0(Columns(n, m)))
  {
    TriuTrilDisjoint(n, k, m);
    TriuTrilUnion(n, k, m);
  }

  lemma TriuTrilDisjoint(n: int, k: int, m: Option<int>)
    ensures CellSet(TriuIndices(n, k + 1, m)) * CellSet(TrilIndices(n, k, m)) == {}
  {
    forall x | x in CellSet(TriuIndices(n, k + 1, m)) ensures x !in CellSet(TrilIndices(n, k, m)) {
      TriuMember(n, k + 1, m, x);
      TrilMember(n, k, m, x);
    }
  }

  lemma TriuTrilUnion(n: int, k: int, m: Option<int>)
    ensures CellSet(TriuIndices(n, k + 1, m)) + CellSet(TrilIndices(n, k, m))
         == Grid(Max0(n), Max0(Columns(n, m)))
  {
    var up, low := CellSet(TriuIndices(n, k + 1, m)), CellSet(TrilIndices(n, k, m));
    var g := Grid(Max0(n), Max0(Columns(n, m)));
    forall x ensures x in up + low <==> x in g {
      TriuMember(n, k + 1, m, x);
      TrilMember(n, k, m, x);
      GridMember(Max0(n), Max0(Columns(n, m)), x);
    }
  }

  /** The cells listed by `TrilIndices`. */
  lemma TrilMember(n: int, k: int, m: Option<int>, x: (int, int))
    ensures x in CellSet(TrilIndices(n, k, m))
        <==> 0 <= x.0 < Max0(n) && 0 <= x.1 < Max0(Columns(n, m)) && x.1 <= x.0 + k
  {
    var r := TrilIndices(n, k, m);
    if x in CellSet(r) {
      var p :| 0 <= p < |Zip(r)| && Zip(r)[p] == x;
    } else if 0 <= x.0 < Max0(n) && 0 <= x.1 < Max0(Columns(n, m)) && x.1 <= x.0 + k {
      assert (x.0, x.1) in Zip(r);
    }
  }

  /** The cells listed by `TriuIndices`. */
  lemma TriuMember(n: int, k: int, m: Option<int>, x: (int, int))
    ensures x in CellSet(TriuIndices(n, k, m))
        <==> 0 <= x.0 < Max0(n) && 0 <= x.1 < Max0(Columns(n, m)) && x.1 >= x.0 + k
  {
    var r := TriuIndices(n, k, m);
    if x in CellSet(r) {
      var p :| 0 <= p < |Zip(r)| && Zip(r)[p] == x;
    } else if 0 <= x.0 < Max0(n) && 0 <= x.1 < Max0(Columns(n, m)) && x.1 >= x.0 + k {
      assert (x.0, x.1) in Zip(r);
    }
  }

  lemma GridMember(rows: nat, cols: nat, x: (int, int))
    ensures x in Grid(rows, cols) <==> 0 <= x.0 < rows && 0 <= x.1 < cols
  {
    if 0 <= x.0 < rows && 0 <= x.1 < cols {
      assert x == (x.0, x.1);
    }
  }

  lemma TriuTrilCount(n: int, k: int, m: Option<int>)
    ensures |TriuIndices(n, k + 1, m).0| + |TrilIndices(n, k, m).0| == Max0(n) * Max0(Columns(n, m))
  {
    var mask := Tri(n, m, k);
    assert TriuIndices(n, k + 1, m) == Unzip(Where(LogicalNot(mask)));
    WhereLength(mask);
    WhereLength(LogicalNot(mask));
    SumCountsComplement(mask, LogicalNot(mask), Max0(Columns(n, m)));
  }

  lemma {:induction false} RowHitsLength(i: int, row: seq<bool>)
    ensures |RowHits(i, row)| == CountTrue(row)
    decreases |row|
  {
    if |row| > 0 {
      RowHitsLength(i, row[..|row| - 1]);
    }
  }

  lemma {:induction false} WhereLength(mask: Mask)
    ensures |Where(mask)| == SumCounts(mask)
    decreases |mask|
  {
    if |mask| > 0 {
      WhereLength(mask[..|mask| - 1]);
      RowHitsLength(|mask| - 1, mask[|mask| - 1]);
    }
  }

  lemma {:induction false} CountComplement(row: seq<bool>, flipped: seq<bool>)
    requires |flipped| == |row|
    requires forall j :: 0 <= j < |row| ==> flipped[j] == !row[j]
    ensures CountTrue(row) + CountTrue(flipped) == |row|
    decreases |row|
  {
    if |row| > 0 {
      var l := |row| - 1;
      CountComplement(row[..l], flipped[..l]);
    }
  }

  lemma {:induction false} SumCountsComplement(mask: Mask, flipped: Mask, cols: nat)
    requires |flipped| == |mask|
    requires forall i :: 0 <= i < |mask| ==> |mask[i]| == cols && |flipped[i]| == cols
    requires forall i, j :: 0 <= i < |mask| && 0 <= j < cols ==> flipped[i][j] == !mask[i][j]
    ensures SumCounts(mask) + SumCounts(flipped) == |mask| * cols
    decreases |mask|
  {
    if |mask| > 0 {
      var l := |mask| - 1;
      SumCountsComplement(mask[..l], flipped[..l], cols);
      CountComplement(mask[l], flipped[l]);
      assert |mask| * cols == l * cols + cols;
    }
  }

  /** A row that is true exactly in its first `b + 1` columns (clipped to the row). */
  lemma {:induction false} CountPrefixRow(row: seq<bool>, b: int)
    requires forall j :: 0 <= j < |row| ==> (row[j] <==> j <= b)
    ensures CountTrue(row) == if b < 0 then 0 else if b + 1 >= |row| then |row| else b + 1
    decreases |row|
  {
    if |row| > 0 {
      CountPrefixRow(row[..|row| - 1], b);
    }
  }

  lemma {:induction false} CountSuffixRow(row: seq<bool>, b: int)
    requires forall j :: 0 <= j < |row| ==> (row[j] <==> j >= b)
    ensures CountTrue(row) == |row| - (if b < 0 then 0 else if b >= |row| then |row| else b)
    decreases |row|
  {
    if |row| > 0 {
      CountSuffixRow(row[..|row| - 1], b);
    }
  }

  /** 1 + 2 + ... + l. */
  function TriangleNumber(l: nat): nat {
    if l == 0 then 0 else TriangleNumber(l - 1) + l
  }

  lemma {:induction false} TriangleNumberClosedForm(l: nat)
    ensures TriangleNumber(l) == l * (l + 1) / 2
  {
    if l > 0 {
      TriangleNumberClosedForm(l - 1);
      assert l * (l + 1) == (l - 1) * l + 2 * l;
    }
  }

  lemma LowerRowCount(n: nat, i: nat)
    requires i < n
    ensures CountTrue(Tri(n, None, 0)[i]) == i + 1
  {
    CountPrefixRow(Tri(n, None, 0)[i], i);
  }

  lemma UpperRowCount(n: nat, i: nat)
    requires i < n
    ensures CountTrue(LogicalNot(Tri(n, None, -1))[i]) == n - i
  {
    CountSuffixRow(LogicalNot(Tri(n, None, -1))[i], i);
  }

  lemma {:induction false} LowerPrefixCount(n: nat, l: nat)
    requires l <= n
    ensures SumCounts(Tri(n, None, 0)[..l]) == TriangleNumber(l)
  {
    if l > 0 {
      var mask := Tri(n, None, 0);
      LowerPrefixCount(n, l - 1);
      assert mask[..l][..l - 1] == mask[..l - 1];
      LowerRowCount(n, l - 1);
    }
  }

  lemma {:induction false} UpperPrefixCount(n: nat, l: nat)
    requires l <= n
    ensures SumCounts(LogicalNot(Tri(n, None, -1))[..l]) + TriangleNumber(n - l) == TriangleNumber(n)
  {
    if l > 0 {
      var mask := LogicalNot(Tri(n, None, -1));
      UpperPrefixCount(n, l - 1);
      assert mask[..l][..l - 1] == mask[..l - 1];
      UpperRowCount(n, l - 1);
    }
  }

  lemma SquareLowerCount(n: nat)
    ensures |TrilIndices(n, 0, None).0| == TriangleNumber(n)
  {
    var lower := Tri(n, None, 0);
    WhereLength(lower);
    LowerPrefixCount(n, n);
    assert lower[..n] == lower;
  }

  lemma SquareUpperCount(n: nat)
    ensures |TriuIndices(n, 0, None).0| == TriangleNumber(n)
  {
    var upper := LogicalNot(Tri(n, None, -1));
    WhereLength(upper);
    UpperPrefixCount(n, n);
    assert upper[..n] == upper;
  }

  lemma SquareTriangleCounts(n: nat)
    ensures |TrilIndices(n, 0, None).0| == n * (n + 1) / 2
    ensures |TriuIndices(n, 0, None).0| == n * (n + 1) / 2
  {
    SquareLowerCount(n);
    SquareUpperCount(n);
    TriangleNumberClosedForm(n);
  }

  lemma SquareTrianglesOverlap(n: nat)
    ensures CellSet(TrilIndices(n, 0, None)) * CellSet(TriuIndices(n, 0, None)) == Diagonal(n)
  {
    forall x ensures x in CellSet(TrilIndices(n, 0, None)) * CellSet(TriuIndices(n, 0, None)) <==> x in Diagonal(n) {
      TrilMember(n, 0, None, x);
      TriuMember(n, 0, None, x);
      if x.0 == x.1 && 0 <= x.0 < n {
        assert x == (x.0, x.0);
      }
    }
  }

  /** For a square n x n grid with k = 0 each triangle has n(n+1)/2 cells and they share
      exactly the n diagonal cells. */
  lemma SquareTriangles(n: nat)
    ensures |TrilIndices(n, 0, None).0| == n * (n + 1) / 2
    ensures |TriuIndices(n, 0, None).0| == n * (n + 1) / 2
    ensures CellSet(TrilIndices(n, 0, None)) * CellSet(TriuIndices(n, 0, None)) == Diagonal(n)
    ensures |Diagonal(n)| == n
  {
    SquareTriangleCounts(n);
    SquareTrianglesOverlap(n);
    DiagonalSize(n);
  }

  lemma {:induction false} DiagonalSize(n: nat)
    ensures |Diagonal(n)| == n
  {
    if n > 0 {
      DiagonalSize(n - 1);
      assert Diagonal(n) == Diagonal(n - 1) + {(n - 1, n - 1)};
    }
  }
}
