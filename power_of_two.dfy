/** Powers of two and the integer facts the radix-2 index arithmetic rests on:
    doubling a step, halving a length, and residues of strided positions. */
module PowerOfTwo {

  /** `n` is 1, 2, 4, 8, ... (usize::is_power_of_two; 0 is not a power of two). */
  ghost predicate IsPow2(n: nat)
    ensures IsPow2(n) ==> n >= 1
  {
    exists e: nat :: Pow2(e) == n
  }

  /** 2 to the power e. */
  function Pow2(e: nat): (r: nat)
    ensures r >= 1
  {
    if e == 0 then 1 else 2 * Pow2(e - 1)
  }

  /** 1 is 2 to the power 0. */
  lemma OneIsPow2()
    ensures IsPow2(1)
  {
    assert Pow2(0) == 1;
  }

  /** The exponent of a power of two. */
  lemma Exponent(n: nat) returns (e: nat)
    requires IsPow2(n)
    ensures Pow2(e) == n
  {
    e :| Pow2(e) == n;
  }

  /** Powers of two multiply by adding exponents. */
  lemma {:induction false} Pow2Add(a: nat, b: nat)
    ensures Pow2(a + b) == Pow2(a) * Pow2(b)
    decreases b
  {
    if b > 0 {
      Pow2Add(a, b - 1);
      assert Pow2(a + b) == 2 * Pow2(a + b - 1);
      assert Pow2(a) * Pow2(b) == Pow2(a) * (2 * Pow2(b - 1)) == 2 * (Pow2(a) * Pow2(b - 1));
    }
  }

  /** A smaller exponent gives a power at most half as large. */
  lemma {:induction false} Pow2Less(a: nat, b: nat)
    requires a < b
    ensures 2 * Pow2(a) <= Pow2(b)
    decreases b
  {
    if a + 1 < b {
      Pow2Less(a, b - 1);
    }
  }

  lemma MulAtLeast(a: nat, c: int)
    requires c >= 1
    ensures a * c >= a
  {
  }

  lemma MulDiv(a: nat, b: nat)
    requires a > 0
    ensures (a * b) / a == b && (a * b) % a == 0
  {
    var q := (a * b) / a;
    if q < b {
      MulAtLeast(a, b - q);
      assert false;
    } else if q > b {
      MulAtLeast(a, q - b);
      assert false;
    }
  }

  lemma Pow2Double(k: nat)
    requires IsPow2(k)
    ensures IsPow2(2 * k)
  {
    var e := Exponent(k);
    assert Pow2(e + 1) == 2 * k;
  }

  /** A power of two below another power of two is at most half of it. */
  lemma DoubleLe(s: nat, n: nat)
    requires IsPow2(s) && IsPow2(n) && s < n
    ensures IsPow2(2 * s) && 2 * s <= n
  {
    Pow2Double(s);
    var a := Exponent(s);
    var b := Exponent(n);
    if b <= a {
      if b < a {
        Pow2Less(b, a);
      }
      assert false;
    }
    Pow2Less(a, b);
  }

  /** A power of two divides every power of two at least as large, with a power-of-two quotient. */
  lemma Quotient(s: nat, n: nat) returns (q: nat)
    requires IsPow2(s) && IsPow2(n) && s <= n
    ensures n == s * q && q == n / s && IsPow2(q)
  {
    var a := Exponent(s);
    var b := Exponent(n);
    if b < a {
      Pow2Less(b, a);
      assert false;
    }
    q := Pow2(b - a);
    Pow2Add(a, b - a);
    MulDiv(s, q);
  }

  lemma PowOne(n: nat)
    requires IsPow2(n)
    ensures n >= 1 && n / n == 1
  {
    var e := Exponent(n);
  }

  /** Multiples of s are exactly the positions with residue 0. */
  lemma ModMultiple(s: nat, t: nat)
    requires s > 0
    ensures (s * t) % s == 0
  {
    MulDiv(s, t);
  }

  /** Two residue classes modulo 2s that differ by s share no element. */
  lemma ModDisjoint(s: nat, d: int)
    requires s > 0 && d >= s && (d - s) % (2 * s) == 0
    ensures d % s == 0 && d % (2 * s) != 0
  {
    var p := (d - s) / (2 * s);
    assert d == s * (2 * p + 1);
    ModMultiple(s, 2 * p + 1);
    if d % (2 * s) == 0 {
      var r := d / (2 * s);
      assert s * (2 * r - 2 * p - 1) == 0;
      if 2 * r - 2 * p - 1 >= 1 {
        MulAtLeast(s, 2 * r - 2 * p - 1);
      } else {
        MulAtLeast(s, 2 * p + 1 - 2 * r);
      }
      assert false;
    }
  }

  /** A multiple of 2s is a multiple of s. */
  lemma ModCoarse(s: nat, d: nat)
    requires s > 0 && d % (2 * s) == 0
    ensures d % s == 0
  {
    var r := d / (2 * s);
    assert d == s * (2 * r);
    ModMultiple(s, 2 * r);
  }

  /** One recursion level of the radix-2 kernel: with `step` = s below the length n,
      the next step 2s still fits, the loop `(0..n).step_by(2s)` runs m = n/(2s) >= 1 times,
      the level owns n/s = 2m positions and the half split point n/2 is s*m. */
  lemma HalvesAt(s: nat, n: nat, m: nat)
    requires IsPow2(s) && IsPow2(n) && s < n && m == n / (2 * s)
    ensures IsPow2(2 * s) && 2 * s <= n && m >= 1 && IsPow2(m)
    ensures n == 2 * (s * m) && n / s == 2 * m && n / 2 == s * m
  {
    DoubleLe(s, n);
    var q := Quotient(2 * s, n);
    HalfOfDouble(s, m);
    assert s * (2 * m) == 2 * (s * m) by {
      Distrib(s, m, m);
    }
    MulDiv(s, 2 * m);
  }

  lemma HalfOfDouble(s: nat, t: nat)
    ensures ((2 * s) * t) / 2 == s * t && (2 * s) * t == 2 * (s * t)
  {
    assert (2 * s) * t == 2 * (s * t);
  }

  lemma MulLe(s: nat, a: nat, b: nat)
    requires a <= b
    ensures s * a <= s * b
  {
    assert s * b == s * a + s * (b - a);
  }

  lemma MulNonneg(a: nat, b: nat)
    ensures 0 <= a * b
  {
  }

  lemma Distrib(s: nat, m: nat, t: nat)
    ensures s * (m + t) == s * m + s * t
  {
  }

  /** Rust's `usize::next_power_of_two`: the smallest power of two at least n (1 for 0). */
  function NextPow2(n: nat): (r: nat)
    ensures IsPow2(r) && n <= r
  {
    OneIsPow2();
    NextFrom(n, 1)
  }

  /** The first of p, 2p, 4p, ... that is at least n. */
  function NextFrom(n: nat, p: nat): (r: nat)
    requires IsPow2(p)
    ensures IsPow2(r) && n <= r && p <= r
    decreases if p < n then n - p else 0
  {
    if p >= n then p
    else
      Pow2Double(p);
      NextFrom(n, 2 * p)
  }

  /** Doubling from a power of two p <= n never passes over a power of two n. */
  lemma {:induction false} NextFromExact(n: nat, p: nat)
    requires IsPow2(p) && IsPow2(n) && p <= n
    ensures NextFrom(n, p) == n
    decreases n - p
  {
    if p < n {
      DoubleLe(p, n);
      NextFromExact(n, 2 * p);
    }
  }

  /** `n == n.next_power_of_two()` (the check `fft_to` makes) holds exactly for powers
      of two, like `n.is_power_of_two()`; in particular it fails for 0. */
  lemma NextPow2Fixed(n: nat)
    ensures n == NextPow2(n) <==> IsPow2(n)
  {
    if IsPow2(n) {
      OneIsPow2();
      NextFromExact(n, 1);
    }
  }
}
