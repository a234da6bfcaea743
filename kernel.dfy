/** The value-level specification of the ping-pong radix-2 kernel shared by
    `Swap::fft` (src/swapspace.rs) and `fft_to` (src/fft.rs).

    A recursion level is identified by the overall length n, its step s and the
    offset o of its view from the start of the transform. The level owns the
    positions o, o + s, o + 2s, ... below n of both buffers; `Combine` gives the
    values it leaves there, in that order. */
module Kernel {
  import opened PowerOfTwo

  /** The operations the kernel uses on its element type (Complex<T> in the source),
      left uninterpreted: `tw(i, n)` stands for exp(-pi * I * i / n). */
  datatype Arith<!C> = Arith(add: (C, C) -> C, sub: (C, C) -> C, mul: (C, C) -> C, tw: (nat, nat) -> C)

  /** t = exp(-pi * I * i / n) * b[i + step] for the loop index i. */
  function Twiddled<C>(ar: Arith<C>, i: nat, n: nat, odd: C): C
  {
    ar.mul(ar.tw(i, n), odd)
  }

  /** The values level (o, s) leaves at its positions o + s*t, t < n/s, when both
      buffers held `x` at those positions on entry. */
  function Combine<C>(ar: Arith<C>, x: seq<C>, n: nat, o: nat, s: nat): (r: seq<C>)
    requires IsPow2(n) && IsPow2(s) && s <= n && o < s && |x| == n
    ensures |r| == n / s
    decreases n - s
  {
    if s == n then
      PowOne(n);
      [x[o]]
    else
      var m := n / (2 * s);
      HalvesAt(s, n, m);
      var even := Combine(ar, x, n, o, 2 * s);
      var odd := Combine(ar, x, n, o + s, 2 * s);
      seq(2 * m, t requires 0 <= t < 2 * m =>
        if t < m then ar.add(even[t], Twiddled(ar, 2 * s * t, n, odd[t]))
        else var k: nat := t - m; ar.sub(even[k], Twiddled(ar, 2 * s * k, n, odd[k])))
  }

  /** What the kernel leaves in the primary buffer: the top level, offset 0 and step 1. */
  function Transform<C>(ar: Arith<C>, x: seq<C>): (r: seq<C>)
    requires IsPow2(|x|)
    ensures |r| == |x|
  {
    OneIsPow2();
    Combine(ar, x, |x|, 0, 1)
  }

  /** The butterfly step of level (o, s) in terms of the two half-size levels it reads:
      the first half gets even + t, the second half even - t. */
  lemma CombineStep<C>(ar: Arith<C>, x: seq<C>, n: nat, o: nat, s: nat, k: nat)
    requires IsPow2(n) && IsPow2(s) && s < n && o < s && |x| == n && k < n / (2 * s)
    ensures IsPow2(2 * s) && 2 * s <= n
    ensures Combine(ar, x, n, o, s)[k]
         == ar.add(Combine(ar, x, n, o, 2 * s)[k], Twiddled(ar, 2 * s * k, n, Combine(ar, x, n, o + s, 2 * s)[k]))
    ensures Combine(ar, x, n, o, s)[n / (2 * s) + k]
         == ar.sub(Combine(ar, x, n, o, 2 * s)[k], Twiddled(ar, 2 * s * k, n, Combine(ar, x, n, o + s, 2 * s)[k]))
  {
    HalvesAt(s, n, n / (2 * s));
  }

  /** res is the butterfly of even and odd for stride s of a length-n transform: with
      t = tw(2*s*k, n) * odd[k], res[k] is even[k] + t and res[|even| + k] is even[k] - t. */
  ghost predicate Butterflied<C>(ar: Arith<C>, n: nat, s: nat, even: seq<C>, odd: seq<C>, res: seq<C>)
  {
    |odd| == |even| && |res| == 2 * |even| &&
    forall k :: 0 <= k < |even| ==>
      res[k] == ar.add(even[k], Twiddled(ar, 2 * s * k, n, odd[k])) &&
      res[|even| + k] == ar.sub(even[k], Twiddled(ar, 2 * s * k, n, odd[k]))
  }

  /** Level (o, s) is the butterfly of its two half-size levels (o, 2s) and (o + s, 2s). */
  lemma CombineButterflied<C>(ar: Arith<C>, x: seq<C>, n: nat, o: nat, s: nat)
    requires IsPow2(n) && IsPow2(s) && s < n && o < s && |x| == n
    ensures IsPow2(2 * s) && 2 * s <= n
    ensures Butterflied(ar, n, s, Combine(ar, x, n, o, 2 * s), Combine(ar, x, n, o + s, 2 * s), Combine(ar, x, n, o, s))
  {
    HalvesAt(s, n, n / (2 * s));
    forall k | 0 <= k < n / (2 * s)
      ensures Combine(ar, x, n, o, s)[k]
           == ar.add(Combine(ar, x, n, o, 2 * s)[k], Twiddled(ar, 2 * s * k, n, Combine(ar, x, n, o + s, 2 * s)[k]))
      ensures Combine(ar, x, n, o, s)[n / (2 * s) + k]
           == ar.sub(Combine(ar, x, n, o, 2 * s)[k], Twiddled(ar, 2 * s * k, n, Combine(ar, x, n, o + s, 2 * s)[k]))
    {
      CombineStep(ar, x, n, o, s, k);
    }
  }

  /** A length-1 input is its own transform: step 1 already reaches n. */
  lemma TransformSingle<C>(ar: Arith<C>, x: seq<C>)
    requires |x| == 1
    ensures IsPow2(|x|) && Transform(ar, x) == x
  {
    OneIsPow2();
  }

  /** Level (o, s) reads the input only at its own positions o + s*t. */
  lemma {:induction false} CombineLocal<C>(ar: Arith<C>, x: seq<C>, y: seq<C>, n: nat, o: nat, s: nat)
    requires IsPow2(n) && IsPow2(s) && s <= n && o < s && |x| == n && |y| == n
    requires forall j :: InClass(j, o, n, s) ==> x[j] == y[j]
    ensures Combine(ar, x, n, o, s) == Combine(ar, y, n, o, s)
    decreases n - s
  {
    if s == n {
      assert InClass(o, o, n, s);
    } else {
      HalvesAt(s, n, n / (2 * s));
      forall j | InClass(j, o, n, 2 * s) ensures x[j] == y[j] {
        ClassNarrow(j, o, n, s);
      }
      forall j | InClass(j, o + s, n, 2 * s) ensures x[j] == y[j] {
        ClassOdd(j, o, n, s);
      }
      CombineLocal(ar, x, y, n, o, 2 * s);
      CombineLocal(ar, x, y, n, o + s, 2 * s);
    }
  }

  /** Position j lies in the view [lo, hi) at a multiple of the stride s from lo. */
  predicate InClass(j: int, lo: int, hi: int, s: nat)
  {
    s > 0 && lo <= j < hi && (j - lo) % s == 0
  }

  /** The first child level (same start, stride 2s) stays inside its parent's positions. */
  lemma ClassNarrow(j: int, lo: int, hi: int, s: nat)
    requires InClass(j, lo, hi, 2 * s)
    ensures InClass(j, lo, hi, s)
  {
    ModCoarse(s, j - lo);
  }

  /** The second child level (start lo + s, stride 2s) stays inside its parent's positions
      and shares none with the first child. */
  lemma ClassOdd(j: int, lo: int, hi: int, s: nat)
    requires InClass(j, lo + s, hi, 2 * s)
    ensures InClass(j, lo, hi, s) && !InClass(j, lo, hi, 2 * s)
  {
    ModDisjoint(s, j - lo);
  }

  /** lo + s*t is one of the positions of the level starting at lo with stride s. */
  lemma ClassAt(lo: int, hi: int, s: nat, t: nat)
    requires s > 0 && lo + s * t < hi
    ensures InClass(lo + s * t, lo, hi, s)
  {
    ModMultiple(s, t);
  }

  /** The loop indices of Rust's `(lo..hi).step_by(k)`. */
  function StepBy(lo: nat, hi: nat, k: nat): (r: seq<nat>)
    requires k > 0
    ensures forall t :: 0 <= t < |r| ==> r[t] == lo + k * t && r[t] < hi
    ensures lo + k * |r| >= hi
    decreases if lo < hi then hi - lo else 0
  {
    if lo >= hi then []
    else
      var rest := StepBy(lo + k, hi, k);
      forall t | 0 < t <= |rest| ensures (lo + k) + k * (t - 1) == lo + k * t {
        Distrib(k, t - 1, 1);
      }
      Distrib(k, |rest|, 1);
      [lo] + rest
  }

  /** `step_by` over a range of exactly c strides yields lo, lo + k, ..., lo + k*(c-1). */
  lemma {:induction false} StepByExact(lo: nat, k: nat, c: nat)
    requires k > 0
    ensures StepBy(lo, lo + k * c, k) == seq(c, t => lo + k * t)
    decreases c
  {
    if c > 0 {
      StepByExact(lo + k, k, c - 1);
      assert lo + k * c == (lo + k) + k * (c - 1);
    }
  }

  /** The positions `left[i / 2]` assigns, in loop order, relative to the view. */
  function LeftTargets(n: nat, s: nat): (r: seq<nat>)
    requires s > 0
  {
    var idx := StepBy(0, n, 2 * s);
    seq(|idx|, t requires 0 <= t < |idx| => idx[t] / 2)
  }

  /** The positions `right[i / 2]` assigns, in loop order, relative to the view: right is
      the half of `a` after `split_at_mut(n / 2)`. */
  function RightTargets(n: nat, s: nat): (r: seq<nat>)
    requires s > 0
  {
    var idx := StepBy(0, n, 2 * s);
    seq(|idx|, t requires 0 <= t < |idx| => n / 2 + idx[t] / 2)
  }

  /** One level's butterfly loop runs n/(2s) times; its left writes hit s*t and its right
      writes n/2 + s*t, so the level assigns each of its n/s positions s*t exactly once. */
  lemma {:induction false} LevelTargets(n: nat, s: nat)
    requires IsPow2(n) && IsPow2(s) && s < n
    ensures |LeftTargets(n, s)| == |RightTargets(n, s)| == n / (2 * s)
    ensures forall t :: 0 <= t < |LeftTargets(n, s)| ==> LeftTargets(n, s)[t] == s * t
    ensures forall t :: 0 <= t < |RightTargets(n, s)| ==> RightTargets(n, s)[t] == n / 2 + s * t
  {
    var m := n / (2 * s);
    HalvesAt(s, n, m);
    StepByExact(0, 2 * s, m);
    assert 0 + (2 * s) * m == n;
    var idx := StepBy(0, n, 2 * s);
    assert idx == seq(m, t => 0 + (2 * s) * t);
    forall t | 0 <= t < m
      ensures idx[t] / 2 == s * t
    {
      assert idx[t] == (2 * s) * t;
      HalfOfDouble(s, t);
    }
    assert |LeftTargets(n, s)| == m;
    assert forall t :: 0 <= t < m ==> LeftTargets(n, s)[t] == idx[t] / 2;
    assert forall t :: 0 <= t < m ==> RightTargets(n, s)[t] == n / 2 + idx[t] / 2;
  }

  /** At the top level (step 1) the butterfly loop assigns every index of `a` in 0..n exactly
      once: the left targets i/2 are 0 .. n/2 in order and the right targets n/2 + i/2 are
      n/2 .. n in order; the loop interleaves them (0, n/2, 1, n/2 + 1, ...). */
  lemma {:induction false} TopLevelTargets(n: nat)
    requires IsPow2(n) && n >= 2
    ensures LeftTargets(n, 1) + RightTargets(n, 1) == seq(n, p => p)
  {
    OneIsPow2();
    LevelTargets(n, 1);
    HalvesAt(1, n, n / 2);
    var all := LeftTargets(n, 1) + RightTargets(n, 1);
    forall p | 0 <= p < n ensures all[p] == p {
      if p >= n / 2 {
        assert all[p] == RightTargets(n, 1)[p - n / 2];
      }
    }
  }

  /** Number of recursion levels below step s. */
  function Levels(n: nat, s: nat): nat
    requires s > 0
    decreases if s < n then n - s else 0
  {
    if s >= n then 0 else 1 + Levels(n, 2 * s)
  }

  /** Doubling the step from s reaches n after log2(n/s) levels, so the recursion from
      step 1 is log2(n) deep. */
  lemma {:induction false} LevelsCount(n: nat, s: nat)
    requires IsPow2(n) && IsPow2(s) && s <= n
    ensures s * Pow2(Levels(n, s)) == n
    decreases n - s
  {
    if s < n {
      DoubleLe(s, n);
      LevelsCount(n, 2 * s);
      assert Pow2(Levels(n, s)) == 2 * Pow2(Levels(n, 2 * s));
    }
  }
}
