/** Square grids stored row-major, as `FFT2D` in src/swapspace.rs treats a buffer
    of length l*l: the row transform, the transpose and their composition. */
module Grid {
  import opened PowerOfTwo
  import opened Kernel

  /** The cell at row i, column j of an l-wide row-major grid. */
  function Cell<T>(g: seq<T>, l: nat, i: nat, j: nat): T
    requires i < l && j < l && |g| == l * l
  {
    RowColBound(i, j, l);
    g[i * l + j]
  }

  lemma DivModUnique(q: nat, r: nat, l: nat)
    requires r < l
    ensures (l * q + r) / l == q && (l * q + r) % l == r
  {
    var q' := (l * q + r) / l;
    var r' := (l * q + r) % l;
    if q' < q {
      MulAtLeast(l, q - q');
      assert false;
    } else if q' > q {
      MulAtLeast(l, q' - q);
      assert false;
    }
  }

  lemma RowColBound(i: nat, j: nat, l: nat)
    requires i < l && j < l
    ensures i * l + j < l * l
  {
    RowInPrefix(i, j, l, l);
  }

  /** A cell of row i lies before the end of row k - 1 when i < k. */
  lemma RowInPrefix(i: nat, j: nat, l: nat, k: nat)
    requires i < k && j < l
    ensures i * l + j < k * l
  {
    MulLe(l, i + 1, k);
    Distrib(l, i, 1);
  }

  /** Row i, column j is index i*l + j, and that index gives back i and j. */
  lemma RowCol(i: nat, j: nat, l: nat)
    requires i < l && j < l
    ensures i * l + j < l * l && (i * l + j) / l == i && (i * l + j) % l == j
  {
    RowColBound(i, j, l);
    assert i * l == l * i;
    DivModUnique(i, j, l);
  }

  /** Every index of an l*l grid is the cell of row p/l, column p%l. */
  lemma Split(p: nat, l: nat)
    requires p < l * l
    ensures 0 <= p / l < l && p % l < l && p == (p / l) * l + p % l
  {
    assert l > 0;
    if p / l >= l {
      MulAtLeast(l, p / l - l + 1);
      assert false;
    }
  }

  /** The transpose: the cell at row i, column j is the input's cell at row j, column i. */
  function Transposed<T>(g: seq<T>, l: nat): (r: seq<T>)
    requires |g| == l * l
    ensures |r| == l * l
    ensures forall i, j :: 0 <= i < l && 0 <= j < l ==> Cell(r, l, i, j) == Cell(g, l, j, i)
  {
    var r := seq(l * l, p requires 0 <= p < l * l =>
      Split(p, l);
      Cell(g, l, p % l, p / l));
    forall i, j | 0 <= i < l && 0 <= j < l
      ensures Cell(r, l, i, j) == Cell(g, l, j, i)
    {
      RowCol(i, j, l);
    }
    r
  }

  /** Transposing twice gives the grid back. */
  lemma TransposeInvolution<T>(g: seq<T>, l: nat)
    requires |g| == l * l
    ensures Transposed(Transposed(g, l), l) == g
  {
    var t := Transposed(Transposed(g, l), l);
    forall p | 0 <= p < l * l ensures t[p] == g[p] {
      Split(p, l);
      assert t[p] == Cell(t, l, p / l, p % l);
    }
  }

  /** Row i: positions i*l .. (i+1)*l. */
  function Row<T>(g: seq<T>, l: nat, i: nat): (r: seq<T>)
    requires i < l && |g| == l * l
    ensures |r| == l && forall j :: 0 <= j < l ==> r[j] == Cell(g, l, i, j)
  {
    RowColBound(i, l - 1, l);
    g[i * l .. i * l + l]
  }

  /** Column c: the cells of column c from the top row down. */
  function Column<T>(g: seq<T>, l: nat, c: nat): (r: seq<T>)
    requires c < l && |g| == l * l
    ensures |r| == l
  {
    seq(l, k requires 0 <= k < l => Cell(g, l, k, c))
  }

  /** `row_fft`'s result: every row of the l x l grid transformed, cell p being entry p % l
      of the transform of row p / l. */
  function RowTransforms<C>(ar: Arith<C>, g: seq<C>, l: nat): (res: seq<C>)
    requires |g| == l * l && (l == 0 || IsPow2(l))
    ensures |res| == l * l
  {
    seq(l * l, p requires 0 <= p < l * l =>
      Split(p, l);
      Transform(ar, Row(g, l, p / l))[p % l])
  }

  /** Row i of `row_fft`'s result is the kernel transform of row i of the input. */
  lemma RowTransformsAt<C>(ar: Arith<C>, g: seq<C>, l: nat, i: nat, j: nat)
    requires |g| == l * l && IsPow2(l) && i < l && j < l
    ensures Cell(RowTransforms(ar, g, l), l, i, j) == Transform(ar, Row(g, l, i))[j]
  {
    RowCol(i, j, l);
    var p := i * l + j;
    var res := RowTransforms(ar, g, l);
    assert Cell(res, l, i, j) == res[p];
    assert p / l == i && p % l == j;
  }

  /** `fft2d`'s result: rows, transpose, rows, transpose. */
  function Transform2d<C>(ar: Arith<C>, g: seq<C>, l: nat): (res: seq<C>)
    requires |g| == l * l && (l == 0 || IsPow2(l))
    ensures |res| == l * l
  {
    Transposed(RowTransforms(ar, Transposed(RowTransforms(ar, g, l), l), l), l)
  }

  /** Separability, with rows staying rows: cell (r, c) of the 2D result is entry r of the
      kernel transform of column c of the row-transformed grid. */
  lemma Transform2dAt<C>(ar: Arith<C>, g: seq<C>, l: nat, r: nat, c: nat)
    requires |g| == l * l && IsPow2(l) && r < l && c < l
    ensures Cell(Transform2d(ar, g, l), l, r, c) == Transform(ar, Column(RowTransforms(ar, g, l), l, c))[r]
  {
    var y := RowTransforms(ar, g, l);
    var z := Transposed(y, l);
    var w := RowTransforms(ar, z, l);
    RowTransformsAt(ar, z, l, c, r);
    assert Row(z, l, c) == Column(y, l, c);
  }

  /** Row i of an l x l grid ends no later than the grid. */
  lemma RowFits(i: nat, l: nat)
    requires i < l
    ensures i * l + l <= l * l
  {
    RowColBound(i, l - 1, l);
  }

  /** One pass of `row_fft`'s loop, on the row p .. q of a grid of size L. Before it, a
      holds the finished rows up to p and the original cells from p, and b its original
      cells from L; the pass transforms a's cells p .. q and leaves every other cell of both
      buffers alone. After it, the same holds up to q. */
  lemma RowLoopStep<C>(ar: Arith<C>, rows: seq<C>, orig: seq<C>, borig: seq<C>, L: nat, p: nat, q: nat,
                       a0: seq<C>, a1: seq<C>, b0: seq<C>, b1: seq<C>)
    requires p <= q <= L <= |orig| == |a0| == |a1| == |borig| == |b0| == |b1| && |rows| == L
    requires IsPow2(q - p) && rows[p..q] == Transform(ar, orig[p..q])
    requires a0[..p] == rows[..p] && a0[p..] == orig[p..] && b0[L..] == borig[L..]
    requires a1[..p] == a0[..p] && a1[p..q] == Transform(ar, a0[p..q]) && a1[q..] == a0[q..]
    requires b1[q..] == b0[q..]
    ensures a1[..q] == rows[..q] && a1[q..] == orig[q..] && b1[L..] == borig[L..]
  {
    assert a0[p..q] == a0[p..][..q - p] == orig[p..][..q - p] == orig[p..q];
    assert a1[..q] == a1[..p] + a1[p..q];
    assert rows[..q] == rows[..p] + rows[p..q];
    assert a1[q..] == a0[q..] == a0[p..][q - p..] == orig[p..][q - p..] == orig[q..];
    assert b1[L..] == b1[q..][L - q..] == b0[q..][L - q..] == b0[L..];
  }

  /** Row i of `row_fft`'s result, positions p .. q, is the transform of row i of the input. */
  lemma RowSlice<C>(ar: Arith<C>, g: seq<C>, l: nat, i: nat, p: nat, q: nat)
    requires |g| == l * l && IsPow2(l) && i < l && p == i * l && q == p + l
    ensures q <= |g| && RowTransforms(ar, g, l)[p..q] == Transform(ar, g[p..q])
  {
    RowFits(i, l);
    var rows := RowTransforms(ar, g, l);
    assert Row(g, l, i) == g[p..q];
    forall j | 0 <= j < l ensures rows[p..q][j] == Transform(ar, g[p..q])[j] {
      RowTransformsAt(ar, g, l, i, j);
      RowColBound(i, j, l);
    }
  }
}
