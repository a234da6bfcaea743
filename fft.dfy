/** `fft_to` (src/fft.rs): the same ping-pong kernel as `Swap::fft`, written over two
    plain slices. The nested `fft_inner(buf_a, buf_b, n, step)` is called on the whole
    slices and on their tails from `step`; a tail is modelled by its offset lo into the
    original arrays, which is always the level's offset from the start of the transform.
    The contents the recursion leaves are those of `SwapSpace.PingPong`. */
module Fft {
  import opened PowerOfTwo
  import opened Kernel
  import opened SwapSpace

  /** `fft_to(inputs, outputs)`: both slices equally long and the length its own
      `next_power_of_two` (the two asserts), that is, a power of two. outputs receives the
      transform of the old inputs; inputs is used as the second buffer and its contents are
      destroyed. */
  method FftTo<C>(ar: Arith<C>, inputs: array<C>, outputs: array<C>)
    requires inputs != outputs && inputs.Length == outputs.Length
    requires inputs.Length == NextPow2(inputs.Length)
    modifies inputs, outputs
    ensures IsPow2(inputs.Length)
    ensures outputs[..] == Transform(ar, old(inputs[..]))
  {
    NextPow2Fixed(inputs.Length);
    ghost var s := inputs[..];
    var l := inputs.Length;
    // outputs takes a copy of inputs
    forall j | 0 <= j < l {
      outputs[j] := inputs[j];
    }
    assert outputs[..] == s && inputs[..] == s;
    OneIsPow2();
    FftInner(ar, outputs, inputs, 0, l, 1);
    TopLevelSame(ar, s);
    assert outputs[..] == PingPong(ar, s, s, 0, l, 1, 0).0;
  }

  /** The nested `fft_inner(buf_a, buf_b, n, step)` on the tails of bufA and bufB from lo.
      The tail starts lo < step cells after the start of the transform; both buffers end up
      as PingPong says, computed from their old contents. */
  method FftInner<C>(ar: Arith<C>, bufA: array<C>, bufB: array<C>, lo: nat, n: nat, step: nat)
    requires bufA != bufB && bufA.Length == bufB.Length
    requires IsPow2(n) && IsPow2(step) && lo < step && n <= bufA.Length
    modifies bufA, bufB
    ensures (bufA[..], bufB[..]) == PingPong(ar, old(bufA[..]), old(bufB[..]), lo, n, step, lo)
    decreases if step < n then n - step else 0
  {
    if step >= n {
      return;
    }
    var m := n / (2 * step);
    HalvesAt(step, n, m);
    ghost var a0, b0 := bufA[..], bufB[..];
    // the first half-size level, with the buffers' roles exchanged
    FftInner(ar, bufB, bufA, lo, n, 2 * step);
    ghost var a1, b1 := bufA[..], bufB[..];
    assert (b1, a1) == PingPong(ar, b0, a0, lo, n, 2 * step, lo);
    // the second half-size level, on both tails from step, roles still exchanged
    FftInner(ar, bufB, bufA, lo + step, n, 2 * step);
    ghost var a2, b2 := bufA[..], bufB[..];
    assert (b2, a2) == PingPong(ar, b1, a1, lo + step, n, 2 * step, lo + step);
    Butterflies(ar, bufA, bufB, lo, n, step, m);
    assert PingPong(ar, a0, b0, lo, n, step, lo) == (Passes(ar, a2, b2, lo, n, step, m), b2);
  }

  /** The butterfly loop of `fft_inner`, after `split_at_mut(n/2)` of the tail of bufA:
      for i in (0..n).step_by(2*step), left[i/2] gets b[i] + t and right[i/2] gets b[i] - t,
      with t = exp(-pi * I * i / n) * b[i + step]. The result is the m passes of Passes;
      bufB is only read. */
  method Butterflies<C>(ar: Arith<C>, bufA: array<C>, bufB: array<C>, lo: nat, n: nat, step: nat, ghost m: nat)
    requires bufA != bufB && bufA.Length == bufB.Length
    requires step > 0 && n == 2 * (step * m) && lo < step && n <= bufA.Length
    modifies bufA
    ensures bufA[..] == Passes(ar, old(bufA[..]), bufB[..], lo, n, step, m)
  {
    ghost var a0 := bufA[..];
    var half := n / 2;
    var i := 0;
    ghost var k := 0;
    while i < n
      invariant k <= m && i == 2 * step * k
      invariant bufA[..] == Passes(ar, a0, bufB[..], lo, n, step, k)
      decreases n - i
    {
      IterationBounds(n, step, m, lo, k, i);
      var t := ar.mul(ar.tw(i, n), bufB[lo + i + step]);
      bufA[lo + i / 2] := ar.add(bufB[lo + i], t);
      bufA[lo + half + i / 2] := ar.sub(bufB[lo + i], t);
      i, k := i + step * 2, k + 1;
    }
    assert k == m by {
      LoopCount(step, m, k);
    }
  }

  /** When both buffers hold s, the recursion from step 1 leaves the transform of s in the
      first buffer. */
  lemma TopLevelSame<C>(ar: Arith<C>, s: seq<C>)
    requires IsPow2(|s|)
    ensures IsPow2(1)
    ensures PingPong(ar, s, s, 0, |s|, 1, 0).0 == Transform(ar, s)
  {
    var n := |s|;
    TopLevel(ar, s, s, 0, n, n);
    assert CloneRange(s, s, 0, n) == s;
    assert s[0..n] == s;
    var r := PingPong(ar, s, s, 0, n, 1, 0);
    assert r.0[0..n] == r.0;
  }
}
