/** Bits, Goldilocks field elements and the bit operations the Keccak trace
    generator uses: n-ary `xor` and `andn` on 0/1 field elements, the
    double-and-add fold that packs 32 bits into one limb, and XOR on u64. */
module KeccakLogic {
  import opened PowersOfTwo

  /** p = 2^64 - 2^32 + 1, the order of the Goldilocks field. */
  const GOLDILOCKS_ORDER: nat := 0xFFFF_FFFF_0000_0001

  /** A field element in canonical form. */
  type Felt = v: int | 0 <= v < GOLDILOCKS_ORDER

  /** A field element that is 0 or 1. */
  type Bit = b: int | 0 <= b <= 1

  /** A Rust `u64`. */
  type U64 = w: int | 0 <= w < 0x1_0000_0000_0000_0000

  function FieldAdd(a: Felt, b: Felt): Felt {
    (a + b) % GOLDILOCKS_ORDER
  }

  function FieldDouble(a: Felt): Felt {
    (2 * a) % GOLDILOCKS_ORDER
  }

  /** `F::from_canonical_u64`: the identity on values below the order. */
  function FromCanonical(v: U64): Felt
    requires v < GOLDILOCKS_ORDER
  {
    v
  }

  /** Exclusive or of two bits. */
  function Xor(a: Bit, b: Bit): (r: Bit)
    ensures r == 1 <==> a != b
  {
    if a == b then 0 else 1
  }

  /** The number of 1s in bs. */
  function Ones(bs: seq<Bit>): nat {
    if |bs| == 0 then 0 else Ones(bs[..|bs| - 1]) + bs[|bs| - 1]
  }

  lemma {:induction false} OnesAppend(a: seq<Bit>, b: seq<Bit>)
    ensures Ones(a + b) == Ones(a) + Ones(b)
  {
    if |b| == 0 {
      assert a + b == a;
    } else {
      OnesAppend(a, b[..|b| - 1]);
      assert (a + b)[..|a + b| - 1] == a + b[..|b| - 1];
      assert (a + b)[|a + b| - 1] == b[|b| - 1];
    }
  }

  /** `xor([..])`: a left fold of Xor, which is 1 exactly when an odd number of inputs are 1. */
  function XorAll(bs: seq<Bit>): (r: Bit)
    ensures r == Ones(bs) % 2
  {
    if |bs| == 0 then 0 else Xor(XorAll(bs[..|bs| - 1]), bs[|bs| - 1])
  }

  lemma {:induction false} ParityOfSum(m: nat, n: nat)
    ensures (m + n) % 2 == Xor(m % 2, n % 2)
  {
  }

  /** XOR of a concatenation is the XOR of the two parts' XORs. */
  lemma {:induction false} XorAllAppend(a: seq<Bit>, b: seq<Bit>)
    ensures XorAll(a + b) == Xor(XorAll(a), XorAll(b))
  {
    OnesAppend(a, b);
    ParityOfSum(Ones(a), Ones(b));
  }

  /** `andn(a, b)`: (not a) and b. */
  function Andn(a: Bit, b: Bit): (r: Bit)
    ensures r == 1 <==> a == 0 && b == 1
  {
    if a == 1 then 0 else b
  }

  /** `(lo..hi).rev().fold(ZERO, |acc, z| acc.double() + bit(z))` in field
      arithmetic, where bits[k] is bit(lo + k): the highest bit is folded first. */
  function PackBits(bits: seq<Bit>): Felt {
    if |bits| == 0 then 0
    else FieldAdd(FieldDouble(PackBits(bits[1..])), bits[0])
  }

  /** The integer whose binary digits are bits, least significant first. */
  function LimbValue(bits: seq<Bit>): nat {
    if |bits| == 0 then 0
    else LimbValue(bits[..|bits| - 1]) + bits[|bits| - 1] * Pow2(|bits| - 1)
  }

  lemma {:induction false} LimbValueBound(bits: seq<Bit>)
    ensures LimbValue(bits) < Pow2(|bits|)
  {
    if |bits| > 0 {
      LimbValueBound(bits[..|bits| - 1]);
    }
  }

  /** Peeling off the least significant bit instead of the most significant one. */
  lemma {:induction false} LimbValueFront(bits: seq<Bit>)
    requires |bits| > 0
    ensures LimbValue(bits) == bits[0] + 2 * LimbValue(bits[1..])
  {
    var n := |bits|;
    if n > 1 {
      var front, tail := bits[..n - 1], bits[1..];
      LimbValueFront(front);
      assert front[1..] == tail[..n - 2];
      assert tail[n - 2] == bits[n - 1];
      assert LimbValue(bits) == LimbValue(front) + bits[n - 1] * Pow2(n - 1);
      assert LimbValue(tail) == LimbValue(tail[..n - 2]) + bits[n - 1] * Pow2(n - 2);
      assert bits[n - 1] * Pow2(n - 1) == 2 * (bits[n - 1] * Pow2(n - 2));
    }
  }

  /** Up to 32 bits fit in a u32. */
  lemma {:induction false} LimbValueFitsU32(bits: seq<Bit>)
    requires |bits| <= 32
    ensures LimbValue(bits) < Pow2(|bits|) <= 0x1_0000_0000
  {
    LimbValueBound(bits);
    Pow2Monotonic(|bits|, 32);
    Pow2Of32And64();
  }

  /** The fold never wraps around the field for up to 32 bits: it yields
      exactly the binary value, which is below 2^|bits|. */
  lemma {:induction false} PackBitsIsLimbValue(bits: seq<Bit>)
    requires |bits| <= 32
    ensures PackBits(bits) == LimbValue(bits)
    ensures LimbValue(bits) < Pow2(|bits|) <= 0x1_0000_0000
  {
    LimbValueFitsU32(bits);
    if |bits| > 0 {
      var rest := LimbValue(bits[1..]);
      PackBitsIsLimbValue(bits[1..]);
      LimbValueFront(bits);
      assert rest < 0x8000_0000;
      ModOfSmaller(2 * rest, GOLDILOCKS_ORDER);
      ModOfSmaller(2 * rest + bits[0], GOLDILOCKS_ORDER);
    }
  }

  /** `(w >> z) & 1` on a u64. */
  function LaneBit(w: U64, z: nat): Bit {
    (w / Pow2(z)) % 2
  }

  /** The first n bits of w, least significant first. */
  function LaneBits(w: U64, n: nat): (bits: seq<Bit>)
    ensures |bits| == n
  {
    seq(n, z requires 0 <= z < n => LaneBit(w, z))
  }

  lemma {:induction false} MulAtLeast(k: int, m: int)
    requires k >= 1 && m > 0
    ensures k * m >= m
  {
  }

  /** Dividing out w = q * m + c with 0 <= c < m. */
  lemma {:induction false} DivModUnique(w: int, m: int, q: int, c: int)
    requires m > 0 && 0 <= c < m && w == q * m + c
    ensures w / m == q && w % m == c
  {
    var q', c' := w / m, w % m;
    assert w == q' * m + c';
    assert (q - q') * m == c' - c;
    if q > q' {
      MulAtLeast(q - q', m);
    } else if q < q' {
      MulAtLeast(q' - q, m);
    }
  }

  /** The bit of weight p sits between w % p and w % 2p. */
  lemma {:induction false} ModDoubleSplit(w: nat, p: nat)
    requires p > 0
    ensures w % (2 * p) == ((w / p) % 2) * p + w % p
  {
    var q := w / p;
    var b := q % 2;
    assert w == q * p + w % p;
    assert q == 2 * (q / 2) + b;
    assert q * p == (q / 2) * (2 * p) + b * p;
    assert 0 <= b * p <= p by {
      if b == 1 {
        assert b * p == p;
      }
    }
    DivModUnique(w, 2 * p, q / 2, b * p + w % p);
  }

  lemma {:induction false} LaneBitsRecompose(w: U64, n: nat)
    ensures LimbValue(LaneBits(w, n)) == w % Pow2(n)
  {
    if n > 0 {
      LaneBitsRecompose(w, n - 1);
      assert LaneBits(w, n)[..n - 1] == LaneBits(w, n - 1);
      ModDoubleSplit(w, Pow2(n - 1));
    }
  }

  lemma {:induction false} ModOfSmaller(w: nat, m: nat)
    requires w < m
    ensures w % m == w
  {
  }

  /** The 64 bits of a u64 give it back. */
  lemma {:induction false} LaneBitsOfWord(w: U64)
    ensures LimbValue(LaneBits(w, 64)) == w
  {
    LaneBitsRecompose(w, 64);
    Pow2Of32And64();
    ModOfSmaller(w, Pow2(64));
  }

  /** `a ^ b` on unsigned integers, bit by bit from the least significant. */
  function U64Xor(a: nat, b: nat): (r: nat)
    ensures b == 0 ==> r == a
    ensures r <= a + b
    ensures r % 2 == 1 <==> a % 2 != b % 2
    decreases a + b
  {
    if a == 0 && b == 0 then 0
    else 2 * U64Xor(a / 2, b / 2) + (if a % 2 == b % 2 then 0 else 1)
  }

  /** Dividing by 2m is halving, then dividing by m. */
  lemma {:induction false} DivDouble(n: nat, m: nat)
    requires m > 0
    ensures n / (2 * m) == (n / 2) / m
  {
    var q, c := (n / 2) / m, (n / 2) % m;
    assert n == 2 * (n / 2) + n % 2;
    assert n / 2 == q * m + c;
    assert n == q * (2 * m) + (2 * c + n % 2);
    DivModUnique(n, 2 * m, q, 2 * c + n % 2);
  }

  /** Bit k of `a ^ b` is the xor of bit k of a and bit k of b. */
  lemma {:induction false} U64XorBit(a: nat, b: nat, k: nat)
    ensures (U64Xor(a, b) / Pow2(k)) % 2 == Xor((a / Pow2(k)) % 2, (b / Pow2(k)) % 2)
  {
    if k > 0 && !(a == 0 && b == 0) {
      var r, rest := U64Xor(a, b), U64Xor(a / 2, b / 2);
      var m := Pow2(k - 1);
      assert r / 2 == rest;
      DivDouble(r, m);
      DivDouble(a, m);
      DivDouble(b, m);
      U64XorBit(a / 2, b / 2, k - 1);
    }
  }

  /** Operands below 2^n give a result below 2^n. */
  lemma {:induction false} U64XorBound(a: nat, b: nat, n: nat)
    requires a < Pow2(n) && b < Pow2(n)
    ensures U64Xor(a, b) < Pow2(n)
  {
    if n > 0 && !(a == 0 && b == 0) {
      U64XorBound(a / 2, b / 2, n - 1);
    }
  }

  /** Two u64 operands give a u64. */
  lemma {:induction false} U64XorIsU64(a: U64, b: U64)
    ensures U64Xor(a, b) < 0x1_0000_0000_0000_0000
  {
    Pow2Of32And64();
    U64XorBound(a, b, 64);
  }
}
