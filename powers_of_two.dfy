/** Powers of two on unbounded naturals, and the `usize::next_power_of_two`
    that sizes the Keccak trace. */
module PowersOfTwo {

  /** 2^n. */
  function Pow2(n: nat): (p: nat)
    ensures p >= 1
  {
    if n == 0 then 1 else 2 * Pow2(n - 1)
  }

  lemma {:induction false} Pow2Monotonic(m: nat, n: nat)
    requires m <= n
    ensures Pow2(m) <= Pow2(n)
  {
    if m < n {
      Pow2Monotonic(m, n - 1);
    }
  }

  lemma {:induction false} Pow2Add(a: nat, b: nat)
    ensures Pow2(a + b) == Pow2(a) * Pow2(b)
  {
    if b > 0 {
      Pow2Add(a, b - 1);
      assert Pow2(a + b) == 2 * Pow2(a + b - 1);
      assert Pow2(a) * Pow2(b) == Pow2(a) * (2 * Pow2(b - 1));
    }
  }

  lemma {:induction false} Pow2Of16()
    ensures Pow2(16) == 0x1_0000
  {
    assert Pow2(2) == 4;
    Pow2Add(2, 2);
    assert Pow2(4) == 16;
    Pow2Add(4, 4);
    assert Pow2(8) == 256;
    Pow2Add(8, 8);
  }

  /** The two widths that matter here: a 32-bit limb and a u64. */
  lemma {:induction false} Pow2Of32And64()
    ensures Pow2(32) == 0x1_0000_0000 && Pow2(64) == 0x1_0000_0000_0000_0000
  {
    Pow2Of16();
    Pow2Add(16, 16);
    assert Pow2(32) == 0x1_0000_0000;
    Pow2Add(32, 32);
  }

  /** p is 1, 2, 4, 8, ... */
  predicate IsPowerOfTwo(p: nat)
    decreases p
  {
    p == 1 || (p >= 2 && p % 2 == 0 && IsPowerOfTwo(p / 2))
  }

  /** Of two distinct powers of two, the smaller is at most half the larger. */
  lemma {:induction false} SmallerPowerOfTwoAtMostHalf(q: nat, p: nat)
    requires IsPowerOfTwo(q) && IsPowerOfTwo(p) && q < p
    ensures q <= p / 2
    decreases p
  {
    if q != 1 {
      SmallerPowerOfTwoAtMostHalf(q / 2, p / 2);
    }
  }

  /** The smallest power of two that is at least n; 1 for n == 0, as in Rust. */
  function NextPowerOfTwo(n: nat): (p: nat)
    ensures IsPowerOfTwo(p) && n <= p
    ensures p == 1 || p / 2 < n
  {
    GrowPowerOfTwo(1, n)
  }

  /** Doubles the power of two p until it reaches n. */
  function GrowPowerOfTwo(p: nat, n: nat): (q: nat)
    requires IsPowerOfTwo(p) && (p == 1 || p / 2 < n)
    ensures IsPowerOfTwo(q) && n <= q
    ensures q == 1 || q / 2 < n
    decreases n - p
  {
    if n <= p then p else GrowPowerOfTwo(2 * p, n)
  }

  /** No power of two below NextPowerOfTwo(n) reaches n. */
  lemma {:induction false} NextPowerOfTwoIsLeast(n: nat, q: nat)
    requires IsPowerOfTwo(q) && n <= q
    ensures NextPowerOfTwo(n) <= q
  {
    var p := NextPowerOfTwo(n);
    if q < p {
      SmallerPowerOfTwoAtMostHalf(q, p);
    }
  }

  lemma {:induction false} NextPowerOfTwoOfSmall(n: nat)
    requires n <= 1
    ensures NextPowerOfTwo(n) == 1
  {
  }
}
