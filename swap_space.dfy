/** src/swapspace.rs: the buffer pair `Swap` with roles a and b, its views, and the
    ping-pong FFT, transpose and 2D FFT run through it. */
module SwapSpace {
  import opened PowerOfTwo
  import opened Kernel
  import opened Grid

  /** `Swap<T>`: two values bound to the roles a and b. */
  datatype Swap<T> = Swap(a: T, b: T)
  {
    /** `into_ab`: the pair (a, b). */
    function IntoAb(): (r: (T, T))
      ensures FromAb(r.0, r.1) == this
    {
      (a, b)
    }

    /** `swap_binding`: the same two values with their roles exchanged. */
    function SwapBinding(): (r: Swap<T>)
      ensures r.IntoAb() == (b, a)
    {
      Swap(b, a)
    }
  }

  /** `Swap::from_ab`. */
  function FromAb<T>(a: T, b: T): (r: Swap<T>)
    ensures r.a == a && r.b == b
  {
    Swap(a, b)
  }

  /** Rebinding exchanges the two roles, and rebinding twice restores the pair. */
  lemma SwapBindingExchanges<T>(p: Swap<T>)
    ensures p.SwapBinding().IntoAb() == (p.b, p.a)
    ensures p.SwapBinding().SwapBinding() == p
  {
  }

  /** The `test_swap` scenario: after one swap of from_ab(10, 20), into_ab gives (20, 10). */
  lemma SwapScenario()
    ensures FromAb(10, 20).SwapBinding().IntoAb() == (20, 10)
  {
  }

  /** Where a cell lives: which of the two physical buffers, and at which position. */
  datatype Loc = Loc(inX: bool, pos: nat)

  /** A `Swap<&mut [C]>` over the two buffers x and y: its a slice is positions lo..hi of x
      when aIsX holds and of y otherwise, and its b slice is the same positions of the other
      buffer. Both slices cover one range by construction. */
  datatype View = View(aIsX: bool, lo: nat, hi: nat)
  {
    predicate Ok(len: nat)
    {
      lo <= hi <= len
    }

    function Len(): nat
      requires lo <= hi
    {
      hi - lo
    }

    /** Position k of the a slice. */
    function CellA(k: nat): Loc
    {
      Loc(aIsX, lo + k)
    }

    /** Position k of the b slice. */
    function CellB(k: nat): Loc
    {
      Loc(!aIsX, lo + k)
    }

    /** `index(r.start..r.end)`. */
    function Index(start: nat, end: nat): (r: View)
      requires lo <= hi && start <= end <= hi - lo
      ensures r.aIsX == aIsX && lo <= r.lo <= r.hi <= hi && r.Len() == end - start
    {
      View(aIsX, lo + start, lo + end)
    }

    /** `index_from(start..)`. */
    function IndexFrom(start: nat): (r: View)
      requires lo <= hi && start <= hi - lo
      ensures r.aIsX == aIsX && lo <= r.lo <= r.hi == hi && r.Len() == Len() - start
    {
      View(aIsX, lo + start, hi)
    }

    /** `index_to(..end)`. */
    function IndexTo(end: nat): (r: View)
      requires lo <= hi && end <= hi - lo
      ensures r.aIsX == aIsX && lo == r.lo <= r.hi <= hi && r.Len() == end
    {
      View(aIsX, lo, lo + end)
    }

    /** `swapped()`: the same range with the roles a and b exchanged. */
    function Swapped(): (r: View)
      ensures r.aIsX != aIsX && r.lo == lo && r.hi == hi
    {
      View(!aIsX, lo, hi)
    }
  }

  /** `index` yields a view of the requested length whose a and b slices sit on the same
      positions of the two different buffers, position k being position start + k of v. */
  lemma IndexCells(v: View, start: nat, end: nat, k: nat)
    requires v.lo <= v.hi && start <= end <= v.hi - v.lo && k < end - start
    ensures v.Index(start, end).Len() == end - start
    ensures v.Index(start, end).CellA(k) == v.CellA(start + k)
    ensures v.Index(start, end).CellB(k) == v.CellB(start + k)
    ensures v.Index(start, end).CellA(k).pos == v.Index(start, end).CellB(k).pos
    ensures v.Index(start, end).CellA(k).inX != v.Index(start, end).CellB(k).inX
  {
  }

  /** `index_from` keeps the end of v; position k is position start + k of v. */
  lemma IndexFromCells(v: View, start: nat, k: nat)
    requires v.lo <= v.hi && start <= v.hi - v.lo && k < v.hi - v.lo - start
    ensures v.IndexFrom(start).Len() == v.Len() - start
    ensures v.IndexFrom(start).CellA(k) == v.CellA(start + k)
    ensures v.IndexFrom(start).CellB(k) == v.CellB(start + k)
  {
  }

  /** `index_to` keeps the start of v; position k is position k of v. */
  lemma IndexToCells(v: View, end: nat, k: nat)
    requires v.lo <= v.hi && end <= v.hi - v.lo && k < end
    ensures v.IndexTo(end).Len() == end
    ensures v.IndexTo(end).CellA(k) == v.CellA(k)
    ensures v.IndexTo(end).CellB(k) == v.CellB(k)
  {
  }

  /** `swapped` reads the b slice as a and the a slice as b; twice is the identity. */
  lemma SwappedCells(v: View, k: nat)
    ensures v.Swapped().CellA(k) == v.CellB(k) && v.Swapped().CellB(k) == v.CellA(k)
    ensures v.Swapped().Swapped() == v
  {
  }

  /** A `Swap<&mut [C]>` over two equal-length buffers x and y; aIsX says which of them
      currently plays the role a. */
  class SwapSlices<C> {
    const x: array<C>
    const y: array<C>
    var aIsX: bool

    ghost predicate Valid()
    {
      x != y && x.Length == y.Length
    }

    /** `Swap::from_ab(a, b)` over two slices. */
    constructor (a: array<C>, b: array<C>)
      requires a != b && a.Length == b.Length
      ensures Valid() && x == a && y == b && aIsX
    {
      x, y, aIsX := a, b, true;
    }

    function Buf(isX: bool): array<C>
    {
      if isX then x else y
    }

    /** The buffer playing the role a. */
    function A(): array<C>
      reads this
    {
      Buf(aIsX)
    }

    /** The buffer playing the role b. */
    function B(): array<C>
      reads this
    {
      Buf(!aIsX)
    }

    /** The pair itself as a view of its whole range. */
    function Whole(): View
      reads this
    {
      View(aIsX, 0, x.Length)
    }

    function Roles(): Swap<array<C>>
      reads this
    {
      FromAb(A(), B())
    }

    /** `swap`: exchanges the roles without moving data. */
    method Swap()
      modifies this
      ensures Roles() == old(Roles()).SwapBinding()
      ensures aIsX == !old(aIsX)
    {
      aIsX := !aIsX;
    }

    /** `fft` on the view v: copies a into b, then runs the recursion from step 1. The
        transform of a's old contents ends up in a; nothing outside v's range changes. */
    method Fft(ar: Arith<C>, v: View)
      requires Valid() && v.Ok(x.Length)
      requires IsPow2(v.hi - v.lo)
      modifies x, y
      ensures Buf(v.aIsX)[v.lo..v.hi] == Transform(ar, old(Buf(v.aIsX)[v.lo..v.hi]))
      ensures forall j :: 0 <= j < x.Length && !(v.lo <= j < v.hi) ==> x[j] == old(x[j]) && y[j] == old(y[j])
    {
      var n := v.hi - v.lo;
      ghost var a0, b0 := Buf(v.aIsX)[..], Buf(!v.aIsX)[..];
      CloneFrom(v);
      OneIsPow2();
      FftInner(ar, v, n, 1, 0);
      TopLevel(ar, a0, b0, v.lo, v.hi, n);
      ghost var r := PingPong(ar, a0, CloneRange(a0, b0, v.lo, v.hi), v.lo, n, 1, 0);
      assert Buf(v.aIsX)[..] == r.0 && Buf(!v.aIsX)[..] == r.1;
      assert Buf(v.aIsX)[v.lo..v.hi] == r.0[v.lo..v.hi];
      assert old(Buf(v.aIsX)[v.lo..v.hi]) == a0[v.lo..v.hi];
      forall j | 0 <= j < x.Length && !(v.lo <= j < v.hi) ensures x[j] == old(x[j]) && y[j] == old(y[j]) {
        assert Buf(v.aIsX)[..][j] == a0[j] && Buf(!v.aIsX)[..][j] == b0[j];
      }
    }

    /** `self.b.clone_from_slice(self.a)` on the view v: b takes a's values on v's range. */
    method CloneFrom(v: View)
      requires Valid() && v.Ok(x.Length)
      modifies Buf(!v.aIsX)
      ensures Buf(!v.aIsX)[..] == CloneRange(Buf(v.aIsX)[..], old(Buf(!v.aIsX)[..]), v.lo, v.hi)
    {
      var a, b := Buf(v.aIsX), Buf(!v.aIsX);
      forall j | v.lo <= j < v.hi {
        b[j] := a[j];
      }
    }

    /** `transpose`: with l the integer square root of the length, b's cell at row i,
        column j (index i*l + j) takes a's cell at row j, column i, for i, j < l; then the
        roles swap. So the new a is the transposed grid followed by b's old cells past l*l,
        and the new b is the old a. */
    method Transpose(l: nat)
      requires Valid() && l * l <= x.Length
      modifies this, Buf(!aIsX)
      ensures Valid() && aIsX == !old(aIsX)
      ensures A()[..] == Transposed(old(A()[..l * l]), l) + old(B()[l * l..])
      ensures B()[..] == old(A()[..])
    {
      var a, b := A(), B();
      ghost var g, b0 := a[..l * l], b[..];
      ghost var tp := Transposed(g, l) + b0[l * l..];
      assert tp[..l * l] == Transposed(g, l);
      var i, p := 0, 0;
      while i < l
        invariant i <= l && p == i * l && p <= l * l && a[..l * l] == g
        invariant forall k :: 0 <= k < b.Length ==> b[k] == if k < p then tp[k] else b0[k]
        modifies b
      {
        RowFits(i, l);
        var j := 0;
        while j < l
          invariant j <= l
          invariant forall k :: 0 <= k < b.Length ==> b[k] == if k < p + j then tp[k] else b0[k]
          modifies b
        {
          // b[ind(j, i)] = a[ind(i, j)] with ind(x, y) = y*l + x, and ind(j, i) = p + j
          var src := j * l + i;
          TransposedCell(g, tp, l, i, j, p + j, src);
          assert a[src] == g[src];
          b[p + j] := a[src];
          j := j + 1;
        }
        assert p + l == (i + 1) * l;
        i, p := i + 1, p + l;
      }
      assert b[..] == tp;
      Swap();
    }

    /** `row_fft`: `fft` on each of the l rows i*l .. (i+1)*l of the grid in turn. Rows of a
        end up transformed; a's cells past l*l and b's cells past l*l do not change. */
    method RowFft(ar: Arith<C>, l: nat)
      requires Valid() && l * l <= x.Length && (l == 0 || IsPow2(l))
      modifies x, y
      ensures A()[..l * l] == RowTransforms(ar, old(A()[..l * l]), l)
      ensures A()[l * l..] == old(A()[l * l..]) && B()[l * l..] == old(B()[l * l..])
    {
      ghost var orig, borig := A()[..], B()[..];
      ghost var rows := RowTransforms(ar, orig[..l * l], l);
      var i, p := 0, 0;
      while i < l
        invariant i <= l && p == i * l && p <= l * l
        invariant A()[..p] == rows[..p] && A()[p..] == orig[p..] && B()[l * l..] == borig[l * l..]
      {
        RowFits(i, l);
        p := RowPass(ar, l, i, p, rows, orig, borig);
        i := i + 1;
      }
    }

    /** Pass i of `row_fft`'s loop, on the row starting at p: the rows before i are already
        done; the pass does row i and returns where row i + 1 starts. */
    method RowPass(ar: Arith<C>, l: nat, i: nat, p: nat, ghost rows: seq<C>, ghost orig: seq<C>, ghost borig: seq<C>)
        returns (q: nat)
      requires Valid() && l * l <= x.Length && IsPow2(l) && i < l && p == i * l && p + l <= l * l
      requires |orig| == |borig| == x.Length && rows == RowTransforms(ar, orig[..l * l], l)
      requires A()[..p] == rows[..p] && A()[p..] == orig[p..] && B()[l * l..] == borig[l * l..]
      modifies x, y
      ensures q == p + l && q == (i + 1) * l
      ensures A()[..q] == rows[..q] && A()[q..] == orig[q..] && B()[l * l..] == borig[l * l..]
    {
      q := p + l;
      ghost var g := orig[..l * l];
      RowSlice(ar, g, l, i, p, q);
      assert g[p..q] == orig[p..q];
      ghost var a0, b0 := A()[..], B()[..];
      FftRow(ar, p, q);
      RowLoopStep(ar, rows, orig, borig, l * l, p, q, a0, A()[..], b0, B()[..]);
    }

    /** `self.index(p..q).fft()`: the transform of a's cells p .. q replaces them, and no
        cell outside p .. q changes in either buffer. */
    method FftRow(ar: Arith<C>, p: nat, q: nat)
      requires Valid() && p <= q <= x.Length && IsPow2(q - p)
      modifies x, y
      ensures A()[p..q] == Transform(ar, old(A()[p..q]))
      ensures A()[..p] == old(A()[..p]) && A()[q..] == old(A()[q..])
      ensures B()[..p] == old(B()[..p]) && B()[q..] == old(B()[q..])
    {
      var v := Whole().Index(p, q);
      assert v == View(aIsX, p, q);
      ghost var a0, b0 := A()[..], B()[..];
      Fft(ar, v);
      forall k | 0 <= k < x.Length && !(p <= k < q) ensures A()[k] == a0[k] && B()[k] == b0[k] {
      }
      assert A()[..p] == a0[..p] && A()[q..] == a0[q..];
      assert B()[..p] == b0[..p] && B()[q..] == b0[q..];
    }

    /** `fft2d`: rows, transpose, rows, transpose. The grid in a ends up as Transform2d of
        its old contents, with both buffers' cells past l*l and the roles as they were. */
    method Fft2d(ar: Arith<C>, l: nat)
      requires Valid() && l * l <= x.Length && (l == 0 || IsPow2(l))
      modifies this, x, y
      ensures Valid() && aIsX == old(aIsX)
      ensures A()[..l * l] == Transform2d(ar, old(A()[..l * l]), l)
      ensures A()[l * l..] == old(A()[l * l..]) && B()[l * l..] == old(B()[l * l..])
    {
      ghost var g := A()[..l * l];
      RowFft(ar, l);
      Transpose(l);
      assert A()[..l * l] == Transposed(RowTransforms(ar, g, l), l);
      RowFft(ar, l);
      Transpose(l);
    }

    /** `fft_inner(n, step)` on the view v, whose range starts o cells after the range the
        transform started on (so it ends n - o cells after v.lo). Both buffers end up as
        PingPong says, computed from their old contents. */
    method FftInner(ar: Arith<C>, v: View, n: nat, step: nat, ghost o: nat)
      requires Valid() && v.Ok(x.Length)
      requires IsPow2(n) && IsPow2(step) && o < step && v.hi + o == v.lo + n
      modifies x, y
      ensures (Buf(v.aIsX)[..], Buf(!v.aIsX)[..]) == PingPong(ar, old(Buf(v.aIsX)[..]), old(Buf(!v.aIsX)[..]), v.lo, n, step, o)
      decreases if step < n then n - step else 0
    {
      if step >= n {
        return;
      }
      var m := n / (2 * step);
      HalvesAt(step, n, m);
      var a, b := Buf(v.aIsX), Buf(!v.aIsX);
      ghost var a0, b0 := a[..], b[..];
      // each level swaps the buffers
      FftInner(ar, v.Swapped(), n, 2 * step, o);
      ghost var a1, b1 := a[..], b[..];
      assert (b1, a1) == PingPong(ar, b0, a0, v.lo, n, 2 * step, o);
      FftInner(ar, v.Swapped().IndexFrom(step), n, 2 * step, o + step);
      ghost var a2, b2 := a[..], b[..];
      assert (b2, a2) == PingPong(ar, b1, a1, v.lo + step, n, 2 * step, o + step);
      Butterflies(ar, v, n, step, m, o);
      assert a[..] == Passes(ar, a2, b2, v.lo, n, step, m) && b[..] == b2;
      assert PingPong(ar, a0, b0, v.lo, n, step, o) == (Passes(ar, a2, b2, v.lo, n, step, m), b2);
    }

    /** One pass of the butterfly loop of `fft_inner` at index i: the twiddled odd value
        t, then the sum into the left half and the difference into the right half. */
    method Butterfly(ar: Arith<C>, v: View, n: nat, half: nat, step: nat, i: nat)
      requires Valid() && v.Ok(x.Length)
      requires v.lo + i + step < v.hi && v.lo + half + i / 2 < v.hi
      modifies Buf(v.aIsX)
      ensures Buf(v.aIsX)[..] == Pass(ar, old(Buf(v.aIsX)[..]), Buf(!v.aIsX)[..], v.lo, n, half, step, i)
    {
      var a, b := Buf(v.aIsX), Buf(!v.aIsX);
      var t := ar.mul(ar.tw(i, n), b[v.lo + i + step]);
      a[v.lo + i / 2] := ar.add(b[v.lo + i], t);
      a[v.lo + half + i / 2] := ar.sub(b[v.lo + i], t);
    }

    /** The butterfly loop of `fft_inner`: for i in (0..n).step_by(2*step), one pass each,
        after `split_at_mut(n/2)`. The result is the m passes of Passes applied to a's old
        contents, reading b; b itself is not written. */
    method Butterflies(ar: Arith<C>, v: View, n: nat, step: nat, ghost m: nat, ghost o: nat)
      requires Valid() && v.Ok(x.Length)
      requires step > 0 && n == 2 * (step * m) && o < step && v.hi - v.lo == n - o
      modifies Buf(v.aIsX)
      ensures Buf(v.aIsX)[..] == Passes(ar, old(Buf(v.aIsX)[..]), Buf(!v.aIsX)[..], v.lo, n, step, m)
    {
      var a, b := Buf(v.aIsX), Buf(!v.aIsX);
      ghost var a0 := a[..];
      // a is split at n/2: the right half starts half cells after the left one
      var half := n / 2;
      var i := 0;
      ghost var k := 0;
      while i < n
        invariant k <= m && i == 2 * step * k
        invariant a[..] == Passes(ar, a0, b[..], v.lo, n, step, k)
        decreases n - i
      {
        IterationBounds(n, step, m, o, k, i);
        Butterfly(ar, v, n, half, step, i);
        i, k := i + step * 2, k + 1;
      }
      assert k == m by {
        LoopCount(step, m, k);
      }
    }
  }

  /** The contents (a, b) of the two buffers after `fft_inner(n, step)` on a view starting
      at lo, o cells after the range the transform started on: the two half-size levels on
      the swapped view and on the swapped view from step, then the butterfly loop into a. */
  function PingPong<C>(ar: Arith<C>, a: seq<C>, b: seq<C>, lo: nat, n: nat, step: nat, o: nat): (r: (seq<C>, seq<C>))
    requires IsPow2(n) && IsPow2(step) && o < step && lo + n - o <= |a| == |b|
    ensures |r.0| == |a| && |r.1| == |b|
    decreases if step < n then n - step else 0
  {
    if step >= n then (a, b)
    else
      var m := n / (2 * step);
      HalvesAt(step, n, m);
      var (b1, a1) := PingPong(ar, b, a, lo, n, 2 * step, o);
      var (b2, a2) := PingPong(ar, b1, a1, lo + step, n, 2 * step, o + step);
      (Passes(ar, a2, b2, lo, n, step, m), b2)
  }

  /** The level (o, step) of the recursion: when both buffers hold the input at the level's
      positions lo + step*t, it leaves Combine's values there in a, and it changes neither
      buffer at any position the level does not own. */
  lemma {:induction false} PingPongLevel<C>(ar: Arith<C>, a: seq<C>, b: seq<C>, input: seq<C>, base: nat, lo: nat, hi: nat,
                                           n: nat, step: nat, o: nat)
    requires IsPow2(n) && IsPow2(step) && |input| == n
    requires base <= lo && o == lo - base && o < step && hi == base + n && hi <= |a| == |b|
    requires Agrees(a, input, base, lo, hi, step) && Agrees(b, input, base, lo, hi, step)
    ensures step <= n ==> Holds(PingPong(ar, a, b, lo, n, step, o).0, lo, step, Combine(ar, input, n, o, step))
    ensures Kept(PingPong(ar, a, b, lo, n, step, o).0, a, lo, hi, step)
    ensures Kept(PingPong(ar, a, b, lo, n, step, o).1, b, lo, hi, step)
    decreases if step < n then n - step else 0
  {
    if step >= n {
      LevelBase(ar, a, b, input, base, lo, hi, n, step);
    } else {
      var m := n / (2 * step);
      HalvesAt(step, n, m);
      AgreesEven(a, input, base, lo, hi, step);
      AgreesEven(b, input, base, lo, hi, step);
      PingPongLevel(ar, b, a, input, base, lo, hi, n, 2 * step, o);
      var r1 := PingPong(ar, b, a, lo, n, 2 * step, o);
      AgreesOdd(a, r1.1, input, base, lo, hi, step);
      AgreesOdd(b, r1.0, input, base, lo, hi, step);
      PingPongLevel(ar, r1.0, r1.1, input, base, lo + step, hi, n, 2 * step, o + step);
      var r2 := PingPong(ar, r1.0, r1.1, lo + step, n, 2 * step, o + step);
      var a3 := Passes(ar, r2.1, r2.0, lo, n, step, m);
      LevelDone(ar, input, n, step, m, o, lo, hi, a, r1.1, r2.1, a3, b, r1.0, r2.0);
      assert PingPong(ar, a, b, lo, n, step, o) == (a3, r2.0);
    }
  }

  /** PingPongLevel when the step has reached n: nothing changes, and a level of step n
      holds its single input value. */
  lemma LevelBase<C>(ar: Arith<C>, a: seq<C>, b: seq<C>, input: seq<C>, base: nat, lo: nat, hi: nat, n: nat, step: nat)
    requires IsPow2(n) && IsPow2(step) && |input| == n && step >= n
    requires base <= lo && lo - base < step && hi == base + n && hi <= |a| == |b|
    requires Agrees(a, input, base, lo, hi, step)
    ensures PingPong(ar, a, b, lo, n, step, lo - base) == (a, b)
    ensures step <= n ==> Holds(a, lo, step, Combine(ar, input, n, lo - base, step))
    ensures Kept(a, a, lo, hi, step) && Kept(b, b, lo, hi, step)
  {
    if step == n {
      LevelSingle(ar, a, input, base, lo, hi, n);
    }
  }

  /** Entry i*l + j of the transposed grid, padded to tp, is entry j*l + i of g. */
  lemma TransposedCell<C>(g: seq<C>, tp: seq<C>, l: nat, i: nat, j: nat, dst: nat, src: nat)
    requires |g| == l * l && i < l && j < l && dst == i * l + j && src == j * l + i
    requires |tp| >= l * l && tp[..l * l] == Transposed(g, l)
    ensures dst < |tp| && src < |g| && tp[dst] == g[src]
  {
    RowColBound(i, j, l);
    RowColBound(j, i, l);
    assert tp[dst] == Transposed(g, l)[dst] == Cell(Transposed(g, l), l, i, j);
  }

  /** b after copying a's values on lo .. hi into it. */
  function CloneRange<C>(a: seq<C>, b: seq<C>, lo: nat, hi: nat): (r: seq<C>)
    requires lo <= hi <= |a| == |b|
    ensures |r| == |b| && r[lo..hi] == a[lo..hi]
    ensures forall j :: 0 <= j < |b| && !(lo <= j < hi) ==> r[j] == b[j]
  {
    b[..lo] + a[lo..hi] + b[hi..]
  }

  /** `fft` after the copy: once a's values on lo .. lo + n are copied into b, the recursion
      from step 1 leaves the transform of those values in a and changes nothing outside. */
  lemma TopLevel<C>(ar: Arith<C>, a: seq<C>, b: seq<C>, lo: nat, hi: nat, n: nat)
    requires IsPow2(n) && hi == lo + n && hi <= |a| == |b|
    ensures IsPow2(1)
    ensures PingPong(ar, a, CloneRange(a, b, lo, hi), lo, n, 1, 0).0[lo..hi] == Transform(ar, a[lo..hi])
    ensures forall j :: 0 <= j < |a| && !(lo <= j < hi) ==>
      PingPong(ar, a, CloneRange(a, b, lo, hi), lo, n, 1, 0).0[j] == a[j] &&
      PingPong(ar, a, CloneRange(a, b, lo, hi), lo, n, 1, 0).1[j] == b[j]
  {
    OneIsPow2();
    var input, c := a[lo..hi], CloneRange(a, b, lo, hi);
    AgreesCopy(a, input, lo, n);
    AgreesCopy(c, input, lo, n);
    PingPongLevel(ar, a, c, input, lo, lo, hi, n, 1, 0);
    var r := PingPong(ar, a, c, lo, n, 1, 0);
    HoldsUnit(r.0, lo, Transform(ar, input));
    KeptUnit(r.0, a, lo, hi);
    KeptUnit(r.1, c, lo, hi);
  }

  /** A copy of the input on lo .. lo + n agrees with it at every position of the top level. */
  lemma AgreesCopy<C>(s: seq<C>, input: seq<C>, lo: nat, n: nat)
    requires |input| == n && lo + n <= |s| && s[lo..lo + n] == input
    ensures Agrees(s, input, lo, lo, lo + n, 1)
  {
    forall j | InClass(j, lo, lo + n, 1) ensures AgreesAt(s, input, lo, j) {
      assert s[lo..lo + n][j - lo] == s[j];
    }
  }

  /** Values held at stride 1 from lo form the slice of s from lo. */
  lemma HoldsUnit<C>(s: seq<C>, lo: nat, vals: seq<C>)
    requires lo <= |s| && Holds(s, lo, 1, vals)
    ensures lo + |vals| <= |s|
    ensures s[lo..lo + |vals|] == vals
  {
    if |vals| > 0 {
      var t := |vals| - 1;
      assert lo + 1 * t < |s| && s[lo + 1 * t] == vals[t];
    }
    forall t | 0 <= t < |vals| ensures s[lo..lo + |vals|][t] == vals[t] {
      assert lo + 1 * t == lo + t;
    }
  }

  /** The top level owns every position of lo .. hi, so outside it nothing changes. */
  lemma KeptUnit<C>(s: seq<C>, s0: seq<C>, lo: nat, hi: nat)
    requires Kept(s, s0, lo, hi, 1)
    ensures |s| == |s0| && forall j :: 0 <= j < |s| && !(lo <= j < hi) ==> s[j] == s0[j]
  {
    forall j | 0 <= j < |s| && !(lo <= j < hi) ensures s[j] == s0[j] {
      assert !InClass(j, lo, hi, 1);
    }
  }

  /** The contents of a after the first k passes of a level's butterfly loop, starting from
      s and reading b's contents bs: pass k' has loop index i = 2*step*k' and writes
      a[lo + i/2] and a[lo + n/2 + i/2]. */
  function Passes<C>(ar: Arith<C>, s: seq<C>, bs: seq<C>, lo: nat, n: nat, step: nat, k: nat): (r: seq<C>)
    ensures |r| == |s|
  {
    if k == 0 then s
    else Pass(ar, Passes(ar, s, bs, lo, n, step, k - 1), bs, lo, n, n / 2, step, 2 * step * (k - 1))
  }

  /** One pass at loop index i, with t = tw(i, n) * b[i + step]: left[i/2] gets b[i] + t and
      right[i/2] gets b[i] - t, where right starts half cells after left. The loop only
      runs passes whose reads and writes are in range (IterationBounds); a pass that would
      not be leaves s as it is. */
  function Pass<C>(ar: Arith<C>, s: seq<C>, bs: seq<C>, lo: nat, n: nat, half: nat, step: nat, i: int): (r: seq<C>)
    ensures |r| == |s|
  {
    if 0 <= i && lo + i + step < |bs| && lo + half + i / 2 < |s| then
      var t := Twiddled(ar, i, n, bs[lo + i + step]);
      s[lo + i / 2 := ar.add(bs[lo + i], t)][lo + half + i / 2 := ar.sub(bs[lo + i], t)]
    else
      s
  }

  /** Every pass of the loop writes only positions the level owns. */
  lemma {:induction false} PassesKept<C>(ar: Arith<C>, s: seq<C>, bs: seq<C>, lo: nat, n: nat, step: nat, m: nat, o: nat, k: nat)
    requires step > 0 && n == 2 * (step * m) && o < step && o <= n && k <= m && lo + n - o <= |s| == |bs|
    ensures Kept(Passes(ar, s, bs, lo, n, step, k), s, lo, lo + n - o, step)
    decreases k
  {
    if k > 0 {
      PassesKept(ar, s, bs, lo, n, step, m, o, k - 1);
      var j := k - 1;
      var i: int := 2 * step * j;
      IterationBounds(n, step, m, o, j, i);
      ButterflyBounds(n, step, m, j, o);
      ClassAt(lo, lo + n - o, step, j);
      ClassAt(lo, lo + n - o, step, m + j);
      assert lo + n / 2 + i / 2 == lo + step * (m + j);
      var prev := Passes(ar, s, bs, lo, n, step, j);
      assert Passes(ar, s, bs, lo, n, step, k) == Pass(ar, prev, bs, lo, n, n / 2, step, i);
      KeptPass(ar, prev, bs, s, lo, lo + n - o, n, n / 2, step, i);
    }
  }

  /** A pass whose two targets are positions of the level keeps every other position. */
  lemma KeptPass<C>(ar: Arith<C>, s0: seq<C>, bs: seq<C>, orig: seq<C>, lo: nat, hi: nat, n: nat, half: nat, step: nat, i: nat)
    requires lo + i + step < |bs| && lo + half + i / 2 < |s0|
    requires Kept(s0, orig, lo, hi, step)
    requires InClass(lo + i / 2, lo, hi, step) && InClass(lo + half + i / 2, lo, hi, step)
    ensures Kept(Pass(ar, s0, bs, lo, n, half, step, i), orig, lo, hi, step)
  {
    forall j | 0 <= j < |s0| && !InClass(j, lo, hi, step) ensures Pass(ar, s0, bs, lo, n, half, step, i)[j] == orig[j] {
      PassKeeps(ar, s0, bs, lo, n, half, step, i, j);
    }
  }

  /** After the first k passes, iteration t < k (loop index i = 2*step*t, writing at offset
      p = step*t = i/2) has left its butterfly in s: b[i] + tw(i, n)*b[i + step] at lo + p and
      b[i] - tw(i, n)*b[i + step] at lo + n/2 + p; no later pass overwrites them. */
  lemma {:induction false} PassesAt<C>(ar: Arith<C>, s: seq<C>, bs: seq<C>, lo: nat, n: nat, step: nat, m: nat, o: nat, k: nat,
                                       t: nat, i: nat, p: nat)
    requires step > 0 && n == 2 * (step * m) && o < step && k <= m && lo + n - o <= |s| == |bs|
    requires t < k && i == 2 * step * t && p == step * t
    ensures lo + i + step < |bs| && lo + n / 2 + p < |s|
    ensures Passes(ar, s, bs, lo, n, step, k)[lo + p] == ar.add(bs[lo + i], Twiddled(ar, i, n, bs[lo + i + step]))
    ensures Passes(ar, s, bs, lo, n, step, k)[lo + n / 2 + p] == ar.sub(bs[lo + i], Twiddled(ar, i, n, bs[lo + i + step]))
    decreases k
  {
    var j := k - 1;
    var i': int := 2 * step * j;
    IterationBounds(n, step, m, o, j, i');
    IterationBounds(n, step, m, o, t, i);
    var prev := Passes(ar, s, bs, lo, n, step, j);
    assert Passes(ar, s, bs, lo, n, step, k) == Pass(ar, prev, bs, lo, n, n / 2, step, i');
    if t < j {
      PassesAt(ar, s, bs, lo, n, step, m, o, j, t, i, p);
      StepGap(step, t, j);
      PassKeeps(ar, prev, bs, lo, n, n / 2, step, i', lo + p);
      PassKeeps(ar, prev, bs, lo, n, n / 2, step, i', lo + n / 2 + p);
    } else {
      assert i == i' && p == i' / 2;
      PassWrites(ar, prev, bs, lo, n, n / 2, step, i');
    }
  }

  /** Iterations t < j of a level write at offsets at least step apart. */
  lemma StepGap(step: nat, t: nat, j: nat)
    requires t < j
    ensures step * t + step <= step * j
  {
    Distrib(step, t, 1);
    MulLe(step, t + 1, j);
  }

  /** A pass writes its two targets with the butterfly's sum and difference. */
  lemma PassWrites<C>(ar: Arith<C>, s: seq<C>, bs: seq<C>, lo: nat, n: nat, half: nat, step: nat, i: nat)
    requires lo + i + step < |bs| && lo + half + i / 2 < |s| && i / 2 < half
    ensures Pass(ar, s, bs, lo, n, half, step, i)[lo + i / 2] == ar.add(bs[lo + i], Twiddled(ar, i, n, bs[lo + i + step]))
    ensures Pass(ar, s, bs, lo, n, half, step, i)[lo + half + i / 2] == ar.sub(bs[lo + i], Twiddled(ar, i, n, bs[lo + i + step]))
  {
  }

  /** A pass leaves every position other than its two targets as it was. */
  lemma PassKeeps<C>(ar: Arith<C>, s: seq<C>, bs: seq<C>, lo: nat, n: nat, half: nat, step: nat, i: nat, q: nat)
    requires lo + i + step < |bs| && lo + half + i / 2 < |s| && q < |s|
    requires q != lo + i / 2 && q != lo + half + i / 2
    ensures Pass(ar, s, bs, lo, n, half, step, i)[q] == s[q]
  {
  }

  /** Iteration i = 2*step*k < n (equivalently k < m) of the loop reads and writes inside the view. */
  lemma IterationBounds(n: nat, step: nat, m: nat, o: nat, k: nat, i: int)
    requires step > 0 && n == 2 * (step * m) && o < step && i == 2 * step * k && (i < n || k < m)
    ensures 0 <= i < n && k < m && i / 2 == step * k
    ensures o + i + step < n && o + n / 2 + i / 2 < n
    ensures i + step * 2 == 2 * step * (k + 1)
  {
    LoopCount(step, m, k);
    ButterflyBounds(n, step, m, k, o);
    Distrib(2 * step, k, 1);
    MulLe(2 * step, 0, k);
  }

  /** s differs from s0 only at positions of the level starting at lo with stride step. */
  ghost predicate Kept<C>(s: seq<C>, s0: seq<C>, lo: nat, hi: nat, step: nat)
  {
    |s| == |s0| && forall j {:trigger InClass(j, lo, hi, step)} :: 0 <= j < |s| && !InClass(j, lo, hi, step) ==> s[j] == s0[j]
  }

  /** The loop index i = 2*step*k is below n = 2*step*m exactly while k < m. */
  lemma LoopCount(step: nat, m: nat, k: nat)
    requires step > 0
    ensures 2 * step * k < 2 * (step * m) <==> k < m
  {
    HalfOfDouble(step, k);
    if k < m {
      Distrib(step, k, 1);
      MulLe(step, k + 1, m);
    } else {
      MulLe(step, m, k);
    }
  }

  /** One level of `fft_inner` on the buffers' contents: a0, b0 on entry; a1, b1 after the
      first half-size level (on the swapped view); a2, b2 after the second (on the swapped
      view from step); a3 after the butterfly loop, which does not write b. The level's
      values end up in a at its positions, and neither buffer changes anywhere else. */
  lemma LevelDone<C>(ar: Arith<C>, input: seq<C>, n: nat, step: nat, m: nat, o: nat, lo: nat, hi: nat,
                     a0: seq<C>, a1: seq<C>, a2: seq<C>, a3: seq<C>, b0: seq<C>, b1: seq<C>, b2: seq<C>)
    requires IsPow2(n) && IsPow2(step) && step < n && o < step && |input| == n && m == n / (2 * step)
    requires IsPow2(2 * step) && 2 * step <= n && n == 2 * (step * m)
    requires hi == lo + n - o && hi <= |a2| == |b2|
    requires Kept(a1, a0, lo, hi, 2 * step) && Kept(b1, b0, lo, hi, 2 * step)
    requires Holds(b1, lo, 2 * step, Combine(ar, input, n, o, 2 * step))
    requires Kept(a2, a1, lo + step, hi, 2 * step) && Kept(b2, b1, lo + step, hi, 2 * step)
    requires Holds(b2, lo + step, 2 * step, Combine(ar, input, n, o + step, 2 * step))
    requires a3 == Passes(ar, a2, b2, lo, n, step, m)
    ensures Holds(a3, lo, step, Combine(ar, input, n, o, step))
    ensures Kept(a3, a0, lo, hi, step) && Kept(b2, b0, lo, hi, step)
  {
    var even, odd := Combine(ar, input, n, o, 2 * step), Combine(ar, input, n, o + step, 2 * step);
    HalvesAt(step, n, m);
    CombineButterflied(ar, input, n, o, step);
    HoldsOutsideOdd(b1, b2, lo, hi, step, even);
    LevelResult(ar, a2, b2, n, o, lo, step, m, even, odd, Combine(ar, input, n, o, step));
    PassesKept(ar, a2, b2, lo, n, step, m, o, m);
    KeptLevel(a0, a1, a2, a3, lo, hi, step);
    KeptLevel(b0, b1, b2, b2, lo, hi, step);
  }

  /** A level whose step has reached n owns the single position lo and leaves the input
      value there. */
  lemma LevelSingle<C>(ar: Arith<C>, s: seq<C>, input: seq<C>, base: nat, lo: nat, hi: nat, n: nat)
    requires IsPow2(n) && |input| == n && base <= lo < base + n && lo < hi
    requires Agrees(s, input, base, lo, hi, n)
    ensures Holds(s, lo, n, Combine(ar, input, n, lo - base, n))
  {
    PowOne(n);
    assert Combine(ar, input, n, lo - base, n) == [input[lo - base]];
    assert InClass(lo, lo, hi, n);
    assert lo + n * 0 == lo;
  }

  /** s holds the transform's input at the positions of the level starting at lo with
      stride step, the input starting at base. */
  ghost predicate Agrees<C>(s: seq<C>, input: seq<C>, base: nat, lo: nat, hi: nat, step: nat)
  {
    forall j {:trigger InClass(j, lo, hi, step)} :: InClass(j, lo, hi, step) ==> AgreesAt(s, input, base, j)
  }

  /** Position j of s holds the input value of position j - base. */
  ghost predicate AgreesAt<C>(s: seq<C>, input: seq<C>, base: nat, j: int)
  {
    base <= j < base + |input| && j < |s| && s[j] == input[j - base]
  }

  /** The first half-size level's positions are among the level's own. */
  lemma AgreesEven<C>(s: seq<C>, input: seq<C>, base: nat, lo: nat, hi: nat, step: nat)
    requires Agrees(s, input, base, lo, hi, step)
    ensures Agrees(s, input, base, lo, hi, 2 * step)
  {
    forall j | InClass(j, lo, hi, 2 * step) ensures InClass(j, lo, hi, step) {
      ClassNarrow(j, lo, hi, step);
    }
  }

  /** The second half-size level's positions are the level's own positions the first
      half-size level leaves alone. */
  lemma AgreesOdd<C>(s0: seq<C>, s1: seq<C>, input: seq<C>, base: nat, lo: nat, hi: nat, step: nat)
    requires Agrees(s0, input, base, lo, hi, step) && Kept(s1, s0, lo, hi, 2 * step)
    ensures Agrees(s1, input, base, lo + step, hi, 2 * step)
  {
    forall j | InClass(j, lo + step, hi, 2 * step) ensures AgreesAt(s1, input, base, j) {
      ClassOdd(j, lo, hi, step);
      assert AgreesAt(s0, input, base, j);
    }
  }

  /** The values vals sit at lo, lo + step, lo + 2*step, ... of s. */
  ghost predicate Holds<C>(s: seq<C>, lo: nat, step: nat, vals: seq<C>)
  {
    forall t :: 0 <= t < |vals| ==> lo + step * t < |s| && s[lo + step * t] == vals[t]
  }

  /** One of the values Holds places. */
  lemma HoldsAt<C>(s: seq<C>, lo: nat, step: nat, vals: seq<C>, t: nat)
    requires Holds(s, lo, step, vals) && t < |vals|
    ensures lo + step * t < |s| && s[lo + step * t] == vals[t]
  {
  }

  /** The second half-size level (start lo + step, stride 2*step) leaves the first half's
      results in place. */
  lemma HoldsOutsideOdd<C>(s1: seq<C>, s2: seq<C>, lo: nat, hi: nat, step: nat, vals: seq<C>)
    requires step > 0 && Holds(s1, lo, 2 * step, vals) && Kept(s2, s1, lo + step, hi, 2 * step)
    ensures Holds(s2, lo, 2 * step, vals)
  {
    forall t | 0 <= t < |vals| ensures s2[lo + 2 * step * t] == vals[t] {
      var j := lo + 2 * step * t;
      if InClass(j, lo + step, hi, 2 * step) {
        ClassOdd(j, lo, hi, step);
        ClassAt(lo, hi, 2 * step, t);
        assert false;
      }
    }
  }

  /** Positions the two half-size levels and the butterfly loop change all belong to the level. */
  lemma KeptLevel<C>(s0: seq<C>, s1: seq<C>, s2: seq<C>, s3: seq<C>, lo: nat, hi: nat, step: nat)
    requires step > 0 && Kept(s1, s0, lo, hi, 2 * step) && Kept(s2, s1, lo + step, hi, 2 * step)
    requires Kept(s3, s2, lo, hi, step)
    ensures Kept(s3, s0, lo, hi, step)
  {
    forall j | 0 <= j < |s3| && !InClass(j, lo, hi, step) ensures s3[j] == s0[j] {
      if InClass(j, lo, hi, 2 * step) {
        ClassNarrow(j, lo, hi, step);
      }
      if InClass(j, lo + step, hi, 2 * step) {
        ClassOdd(j, lo, hi, step);
      }
    }
  }

  /** When b holds even at lo + 2*step*k and odd at lo + step + 2*step*k, the butterfly
      loop leaves their butterfly res at the level's positions lo + step*t in a. */
  lemma LevelResult<C>(ar: Arith<C>, a: seq<C>, b: seq<C>, n: nat, o: nat, lo: nat, step: nat, m: nat,
                       even: seq<C>, odd: seq<C>, res: seq<C>)
    requires step > 0 && n == 2 * (step * m) && n / 2 == step * m && o < step && lo + n - o <= |a| == |b|
    requires |even| == m && Butterflied(ar, n, step, even, odd, res)
    requires Holds(b, lo, 2 * step, even) && Holds(b, lo + step, 2 * step, odd)
    ensures Holds(Passes(ar, a, b, lo, n, step, m), lo, step, res)
  {
    var r := Passes(ar, a, b, lo, n, step, m);
    forall t | 0 <= t < |res| ensures lo + step * t < |r| && r[lo + step * t] == res[t] {
      LevelResultAt(ar, a, b, n, o, lo, step, m, even, odd, res, t);
    }
  }

  /** LevelResult at position t < 2m of the level: iteration t of the loop writes it when
      t < m, iteration t - m otherwise. */
  lemma LevelResultAt<C>(ar: Arith<C>, a: seq<C>, b: seq<C>, n: nat, o: nat, lo: nat, step: nat, m: nat,
                         even: seq<C>, odd: seq<C>, res: seq<C>, t: nat)
    requires step > 0 && n == 2 * (step * m) && n / 2 == step * m && o < step && lo + n - o <= |a| == |b|
    requires |even| == m && Butterflied(ar, n, step, even, odd, res) && t < 2 * m
    requires Holds(b, lo, 2 * step, even) && Holds(b, lo + step, 2 * step, odd)
    ensures lo + step * t < |a| && Passes(ar, a, b, lo, n, step, m)[lo + step * t] == res[t]
  {
    var k := if t < m then t else t - m;
    HoldsAt(b, lo, 2 * step, even, k);
    HoldsAt(b, lo + step, 2 * step, odd, k);
    var i: int := 2 * step * k;
    MulLe(2 * step, 0, k);
    PassesAt(ar, a, b, lo, n, step, m, o, m, k, i, step * k);
    assert res[k] == ar.add(even[k], Twiddled(ar, i, n, odd[k]));
    assert res[m + k] == ar.sub(even[k], Twiddled(ar, i, n, odd[k]));
    if t >= m {
      Offset(step, t, m, k);
    }
  }

  /** The second half's position t = m + k sits step*m = n/2 cells after the first half's k. */
  lemma Offset(step: nat, t: nat, m: nat, k: nat)
    requires t == m + k
    ensures step * t == step * m + step * k
  {
    Distrib(step, m, k);
  }

  /** Index arithmetic of one butterfly iteration i = 2*step*k of a level whose view starts
      o < step after the transform's start: the reads b[i] and b[i + step] and the writes
      left[i/2] and right[i/2] all stay inside the view, left inside its first n/2 cells. */
  lemma ButterflyBounds(n: nat, step: nat, m: nat, k: nat, o: nat)
    requires step > 0 && n == 2 * (step * m) && k < m && o < step
    ensures (2 * step * k) / 2 == step * k
    ensures o + 2 * step * k + step < n
    ensures step * k < n / 2 && o + n / 2 + step * k < n
    ensures step * (m + k) == n / 2 + step * k
  {
    HalfOfDouble(step, k);
    assert step * k + step <= step * m by {
      Distrib(step, k, 1);
      assert step * (k + 1) <= step * m by { MulLe(step, k + 1, m); }
    }
    Distrib(step, m, k);
  }
}
