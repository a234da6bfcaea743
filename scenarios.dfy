/** Concrete runs of the model over Gaussian integers, whose twiddles are exact for the
    quarter turns a transform of length 4 or less uses: the four-point transform of
    [1, 2, 3, 4], the 2 x 2 grid transform, and the transpose test of src/swapspace.rs. */
module Scenarios {
  import opened PowerOfTwo
  import opened Kernel
  import opened Grid
  import opened SwapSpace
  import opened Fft

  /** re + im * I. */
  datatype Gauss = Gauss(re: int, im: int)

  function Re(r: int): Gauss
  {
    Gauss(r, 0)
  }

  /** exp(-pi * I * i / n) when it is a whole number of quarter turns (2i a multiple of
      n); no other angle is a Gaussian integer, and the scenarios never ask for one. */
  function QuarterTurn(i: nat, n: nat): Gauss
  {
    if n == 0 || (2 * i) % n != 0 then Gauss(0, 0)
    else
      var q := (2 * i / n) % 4;
      if q == 0 then Gauss(1, 0)
      else if q == 1 then Gauss(0, -1)
      else if q == 2 then Gauss(-1, 0)
      else Gauss(0, 1)
  }

  function Gaussian(): Arith<Gauss>
  {
    Arith(
      (u: Gauss, v: Gauss) => Gauss(u.re + v.re, u.im + v.im),
      (u: Gauss, v: Gauss) => Gauss(u.re - v.re, u.im - v.im),
      (u: Gauss, v: Gauss) => Gauss(u.re * v.re - u.im * v.im, u.re * v.im + u.im * v.re),
      QuarterTurn)
  }

  lemma FourIsPow2()
    ensures IsPow2(2) && IsPow2(4)
  {
    assert Pow2(1) == 2 && Pow2(2) == 4;
  }

  /** A level whose step is n holds its single input value. */
  lemma CombineLeaf<C>(ar: Arith<C>, x: seq<C>, n: nat, o: nat)
    requires IsPow2(n) && o < n && |x| == n
    ensures Combine(ar, x, n, o, n) == [x[o]]
  {
  }

  /** A level of step n/2 is one butterfly of its two inputs, with twiddle tw(0, n). */
  lemma CombinePair<C>(ar: Arith<C>, x: seq<C>, n: nat, o: nat, s: nat)
    requires IsPow2(n) && IsPow2(s) && n == 2 * s && o < s && |x| == n
    ensures Combine(ar, x, n, o, s)
         == [ar.add(x[o], Twiddled(ar, 0, n, x[o + s])), ar.sub(x[o], Twiddled(ar, 0, n, x[o + s]))]
  {
    CombineStep(ar, x, n, o, s, 0);
    CombineLeaf(ar, x, n, o);
    CombineLeaf(ar, x, n, o + s);
  }

  /** A four-point transform: the butterflies of the even half e and the odd half d, with
      twiddles tw(0, 4) and tw(2, 4). */
  lemma TransformOfFour<C>(ar: Arith<C>, x: seq<C>)
    requires |x| == 4
    ensures IsPow2(2) && IsPow2(4)
    ensures var e, d := Combine(ar, x, 4, 0, 2), Combine(ar, x, 4, 1, 2);
      |e| == |d| == 2 &&
      Transform(ar, x) == [ar.add(e[0], Twiddled(ar, 0, 4, d[0])), ar.add(e[1], Twiddled(ar, 2, 4, d[1])),
                           ar.sub(e[0], Twiddled(ar, 0, 4, d[0])), ar.sub(e[1], Twiddled(ar, 2, 4, d[1]))]
  {
    FourIsPow2();
    OneIsPow2();
    CombineButterflied(ar, x, 4, 0, 1);
    var e, d, r := Combine(ar, x, 4, 0, 2), Combine(ar, x, 4, 1, 2), Combine(ar, x, 4, 0, 1);
    assert r[0] == ar.add(e[0], Twiddled(ar, 0, 4, d[0])) && r[2] == ar.sub(e[0], Twiddled(ar, 0, 4, d[0]));
    assert r[1] == ar.add(e[1], Twiddled(ar, 2, 4, d[1])) && r[3] == ar.sub(e[1], Twiddled(ar, 2, 4, d[1]));
  }

  /** The four-point transform of [1, 2, 3, 4] is [10, -2 + 2I, -2, -2 - 2I]. */
  lemma TransformFour()
    ensures IsPow2(4)
    ensures Transform(Gaussian(), [Re(1), Re(2), Re(3), Re(4)]) == [Re(10), Gauss(-2, 2), Re(-2), Gauss(-2, -2)]
  {
    FourIsPow2();
    var ar, x := Gaussian(), [Re(1), Re(2), Re(3), Re(4)];
    TransformOfFour(ar, x);
    CombinePair(ar, x, 4, 0, 2);
    CombinePair(ar, x, 4, 1, 2);
    assert QuarterTurn(0, 4) == Re(1) && QuarterTurn(2, 4) == Gauss(0, -1);
  }

  /** The two-point transform of [a, b] is [a + b, a - b]. */
  lemma TransformTwo(a: int, b: int)
    ensures IsPow2(2)
    ensures Transform(Gaussian(), [Re(a), Re(b)]) == [Re(a + b), Re(a - b)]
  {
    FourIsPow2();
    OneIsPow2();
    CombinePair(Gaussian(), [Re(a), Re(b)], 2, 0, 1);
    assert QuarterTurn(0, 2) == Re(1);
  }

  /** A 2 x 2 grid transposes by exchanging its off-diagonal cells. */
  lemma TransposedTwo<T>(a: T, b: T, c: T, d: T)
    ensures Transposed([a, b, c, d], 2) == [a, c, b, d]
  {
    var t := Transposed([a, b, c, d], 2);
    assert Cell(t, 2, 0, 1) == c && Cell(t, 2, 1, 0) == b;
    assert Cell(t, 2, 0, 0) == a && Cell(t, 2, 1, 1) == d;
  }

  /** The row transforms of a 2 x 2 grid are the transforms of its two rows, in order. */
  lemma RowsOfFour<C>(ar: Arith<C>, g: seq<C>)
    requires |g| == 4
    ensures IsPow2(2)
    ensures RowTransforms(ar, g, 2) == Transform(ar, g[0..2]) + Transform(ar, g[2..4])
  {
    FourIsPow2();
    var rows := RowTransforms(ar, g, 2);
    RowSlice(ar, g, 2, 0, 0, 2);
    RowSlice(ar, g, 2, 1, 2, 4);
    assert rows == rows[0..2] + rows[2..4];
  }

  /** The row transforms of the Gaussian grid [a, b; c, d]. */
  lemma RowsOfTwo(a: int, b: int, c: int, d: int)
    ensures IsPow2(2)
    ensures RowTransforms(Gaussian(), [Re(a), Re(b), Re(c), Re(d)], 2) == [Re(a + b), Re(a - b), Re(c + d), Re(c - d)]
  {
    var g := [Re(a), Re(b), Re(c), Re(d)];
    RowsOfFour(Gaussian(), g);
    assert g[0..2] == [Re(a), Re(b)] && g[2..4] == [Re(c), Re(d)];
    TransformTwo(a, b);
    TransformTwo(c, d);
  }

  /** The 2 x 2 grid [1, 2; 3, 4] transforms to [10, -2; -4, 0]. */
  lemma Transform2dFour()
    ensures IsPow2(2)
    ensures Transform2d(Gaussian(), [Re(1), Re(2), Re(3), Re(4)], 2) == [Re(10), Re(-2), Re(-4), Re(0)]
  {
    RowsOfTwo(1, 2, 3, 4);
    TransposedTwo(Re(3), Re(-1), Re(7), Re(-1));
    RowsOfTwo(3, 7, -1, -1);
    TransposedTwo(Re(10), Re(-4), Re(-2), Re(0));
  }

  /** `fft_to` on [1, 2, 3, 4] writes [10, -2 + 2I, -2, -2 - 2I] to the outputs. */
  method FftToScenario() returns (out: seq<Gauss>)
    ensures out == [Re(10), Gauss(-2, 2), Re(-2), Gauss(-2, -2)]
  {
    var inputs := new Gauss[4](i => Re(i + 1));
    var outputs := new Gauss[4](i => Re(0));
    assert inputs[..] == [Re(1), Re(2), Re(3), Re(4)];
    TransformFour();
    NextPow2Fixed(4);
    FftTo(Gaussian(), inputs, outputs);
    out := outputs[..];
  }

  /** `fft2d` on the grid [1, 2; 3, 4] leaves [10, -2; -4, 0] in a. */
  method Fft2dScenario() returns (out: seq<Gauss>)
    ensures out == [Re(10), Re(-2), Re(-4), Re(0)]
  {
    var a := new Gauss[4](i => Re(i + 1));
    var b := new Gauss[4](i => Re(0));
    assert a[..] == [Re(1), Re(2), Re(3), Re(4)];
    var s := new SwapSlices(a, b);
    assert s.A()[..2 * 2] == a[..];
    Transform2dFour();
    s.Fft2d(Gaussian(), 2);
    assert s.A()[..] == s.A()[..2 * 2];
    out := s.A()[..];
  }

  /** The transpose test: a = [0, 1, 2, 3] and b a copy; after `transpose`, a holds
      [0, 2, 1, 3]. */
  method TransposeScenario() returns (out: seq<int>)
    ensures out == [0, 2, 1, 3]
  {
    var a := new int[4](i => i);
    var b := new int[4](i => i);
    assert a[..] == [0, 1, 2, 3];
    var s := new SwapSlices(a, b);
    s.Transpose(2);
    TransposedTwo(0, 1, 2, 3);
    out := s.A()[..];
  }
}
