/** Layout of one row of the Keccak-f[1600] STARK trace: which column holds
    which register. Six regions follow each other: the round flags, the
    state A, C_partial, C, A' and the A'' limb pairs. B has no columns of
    its own; it is an alias into A' (the rho and pi steps). */
module KeccakRegisters {

  /** Rounds in one Keccak-f[1600] permutation (declared beside the trace generator). */
  const NUM_ROUNDS: nat := 24

  /** The rotation table, indexed R[a][b]. */
  const R: seq<seq<nat>> := [
    [0, 18, 41, 3, 36],
    [1, 2, 45, 10, 44],
    [62, 61, 15, 43, 6],
    [28, 56, 21, 25, 55],
    [27, 14, 8, 39, 20]
  ]

  const START_A: nat := NUM_ROUNDS
  const START_C_PARTIAL: nat := START_A + 5 * 5 * 64
  const START_C: nat := START_C_PARTIAL + 5 * 64
  const START_A_PRIME: nat := START_C + 5 * 64
  const START_A_PRIME_PRIME: nat := START_A_PRIME + 5 * 5 * 64
  const NUM_REGISTERS: nat := START_A_PRIME_PRIME + 5 * 5 * 2

  /** The register that is 1 exactly in round i. */
  function RegStep(i: nat): (r: nat)
    requires i < NUM_ROUNDS
    ensures r == i && r < START_A
  {
    i
  }

  /** Bit z of lane (x, y) of the state A. */
  function RegA(x: nat, y: nat, z: nat): (r: nat)
    requires x < 5 && y < 5 && z < 64
    ensures START_A <= r < START_C_PARTIAL
  {
    START_A + x * 64 * 5 + y * 64 + z
  }

  /** C_partial[x, z]; the source puts no bound on its arguments. */
  function RegCPartial(x: nat, z: nat): (r: nat)
    ensures x < 5 && z < 64 ==> START_C_PARTIAL <= r < START_C
  {
    START_C_PARTIAL + x * 64 + z
  }

  /** C[x, z]; the source puts no bound on its arguments. */
  function RegC(x: nat, z: nat): (r: nat)
    ensures x < 5 && z < 64 ==> START_C <= r < START_A_PRIME
  {
    START_C + x * 64 + z
  }

  /** Bit z of lane (x, y) of A'. */
  function RegAPrime(x: nat, y: nat, z: nat): (r: nat)
    requires x < 5 && y < 5 && z < 64
    ensures START_A_PRIME <= r < START_A_PRIME_PRIME
  {
    START_A_PRIME + x * 64 * 5 + y * 64 + z
  }

  /** The rotation amount R[a][b]. */
  function Rot(a: nat, b: nat): (r: nat)
    requires a < 5 && b < 5
    ensures r < 64
  {
    assert forall i, j :: 0 <= i < 5 && 0 <= j < 5 ==> R[i][j] < 64;
    R[a][b]
  }

  /** Bit z of lane (x, y) of B, read from the A' register it aliases. */
  function RegB(x: nat, y: nat, z: nat): (r: nat)
    requires x < 5 && y < 5 && z < 64
    ensures START_A_PRIME <= r < START_A_PRIME_PRIME
  {
    var a := (x + 3 * y) % 5;
    var b := x;
    var rot := Rot(a, b);
    RegAPrime(a, b, (z + rot) % 64)
  }

  /** The low limb of A''[x, y]; the high limb is the next register. */
  function RegAPrimePrime(x: nat, y: nat): (r: nat)
    requires x < 5 && y < 5
    ensures START_A_PRIME_PRIME <= r && r + 1 < NUM_REGISTERS
    ensures (r - START_A_PRIME_PRIME) % 2 == 0
  {
    START_A_PRIME_PRIME + x * 2 * 5 + y * 2
  }

  // Decoding a register back to its coordinates.

  /** The (x, y, z) of offset d inside a 5×5×64 region laid out like A. */
  function LaneCoords(d: nat): (c: (nat, nat, nat))
    requires d < 5 * 5 * 64
    ensures c.0 < 5 && c.1 < 5 && c.2 < 64
  {
    (d / 320, (d % 320) / 64, d % 64)
  }

  /** The (x, z) of offset d inside a 5×64 region laid out like C. */
  function ColumnCoords(d: nat): (c: (nat, nat))
    requires d < 5 * 64
    ensures c.0 < 5 && c.1 < 64
  {
    (d / 64, d % 64)
  }

  /** The (x, y, limb) of offset d inside the A'' region; limb 0 is lo, 1 is hi. */
  function LimbCoords(d: nat): (c: (nat, nat, nat))
    requires d < 5 * 5 * 2
    ensures c.0 < 5 && c.1 < 5 && c.2 < 2
  {
    (d / 10, (d % 10) / 2, d % 2)
  }

  /** The B coordinates of an A' register: the inverse of RegB. */
  function BCoords(i: nat): (c: (nat, nat, nat))
    requires START_A_PRIME <= i < START_A_PRIME_PRIME
    ensures c.0 < 5 && c.1 < 5 && c.2 < 64
  {
    var (a, b, w) := LaneCoords(i - START_A_PRIME);
    (b, (2 * (a + 5 - b)) % 5, (w + 64 - Rot(a, b)) % 64)
  }

  // Properties of the layout.

  /** The six regions, in order, fill [0, NUM_REGISTERS) without gaps. */
  lemma {:induction false} RegionsAreConsecutive()
    ensures START_A == NUM_ROUNDS == 24
    ensures START_C_PARTIAL == START_A + 1600 == 1624
    ensures START_C == START_C_PARTIAL + 320 == 1944
    ensures START_A_PRIME == START_C + 320 == 2264
    ensures START_A_PRIME_PRIME == START_A_PRIME + 1600 == 3864
    ensures NUM_REGISTERS == START_A_PRIME_PRIME + 50 == 3914
  {
  }

  /** Every rotation is a proper shift modulo 64. */
  lemma {:induction false} RotationTableBound()
    ensures |R| == 5
    ensures forall a :: 0 <= a < 5 ==> |R[a]| == 5 && forall b :: 0 <= b < 5 ==> R[a][b] < 64
  {
  }

  lemma {:induction false} RegACoords(x: nat, y: nat, z: nat)
    requires x < 5 && y < 5 && z < 64
    ensures LaneCoords(RegA(x, y, z) - START_A) == (x, y, z)
  {
  }

  /** Every register of the A region is RegA of its coordinates. */
  lemma {:induction false} RegAOnto(i: nat)
    requires START_A <= i < START_C_PARTIAL
    ensures var (x, y, z) := LaneCoords(i - START_A); RegA(x, y, z) == i
  {
  }

  lemma {:induction false} RegAInjective(x: nat, y: nat, z: nat, x': nat, y': nat, z': nat)
    requires x < 5 && y < 5 && z < 64 && x' < 5 && y' < 5 && z' < 64
    ensures RegA(x, y, z) == RegA(x', y', z') <==> x == x' && y == y' && z == z'
  {
    if RegA(x, y, z) == RegA(x', y', z') {
      RegACoords(x, y, z);
      RegACoords(x', y', z');
    }
  }

  lemma {:induction false} RegCPartialCoords(x: nat, z: nat)
    requires x < 5 && z < 64
    ensures ColumnCoords(RegCPartial(x, z) - START_C_PARTIAL) == (x, z)
  {
  }

  lemma {:induction false} RegCPartialInjective(x: nat, z: nat, x': nat, z': nat)
    requires x < 5 && z < 64 && x' < 5 && z' < 64
    ensures RegCPartial(x, z) == RegCPartial(x', z') <==> x == x' && z == z'
  {
    if RegCPartial(x, z) == RegCPartial(x', z') {
      RegCPartialCoords(x, z);
      RegCPartialCoords(x', z');
    }
  }

  lemma {:induction false} RegCCoords(x: nat, z: nat)
    requires x < 5 && z < 64
    ensures ColumnCoords(RegC(x, z) - START_C) == (x, z)
  {
  }

  lemma {:induction false} RegCInjective(x: nat, z: nat, x': nat, z': nat)
    requires x < 5 && z < 64 && x' < 5 && z' < 64
    ensures RegC(x, z) == RegC(x', z') <==> x == x' && z == z'
  {
    if RegC(x, z) == RegC(x', z') {
      RegCCoords(x, z);
      RegCCoords(x', z');
    }
  }

  lemma {:induction false} RegAPrimeCoords(x: nat, y: nat, z: nat)
    requires x < 5 && y < 5 && z < 64
    ensures LaneCoords(RegAPrime(x, y, z) - START_A_PRIME) == (x, y, z)
  {
  }

  lemma {:induction false} RegAPrimeInjective(x: nat, y: nat, z: nat, x': nat, y': nat, z': nat)
    requires x < 5 && y < 5 && z < 64 && x' < 5 && y' < 5 && z' < 64
    ensures RegAPrime(x, y, z) == RegAPrime(x', y', z') <==> x == x' && y == y' && z == z'
  {
    if RegAPrime(x, y, z) == RegAPrime(x', y', z') {
      RegAPrimeCoords(x, y, z);
      RegAPrimeCoords(x', y', z');
    }
  }

  /** Multiplying by 2 undoes multiplying by 3, modulo 5. */
  lemma {:induction false} PiInverse(x: nat, y: nat)
    requires x < 5 && y < 5
    ensures (2 * ((x + 3 * y) % 5 + 5 - x)) % 5 == y
  {
  }

  lemma {:induction false} PiForward(a: nat, b: nat)
    requires a < 5 && b < 5
    ensures (b + 3 * ((2 * (a + 5 - b)) % 5)) % 5 == a
  {
  }

  lemma {:induction false} RotationInverse(z: nat, r: nat)
    requires z < 64 && r < 64
    ensures ((z + r) % 64 + 64 - r) % 64 == z
  {
  }

  lemma {:induction false} RotationForward(w: nat, r: nat)
    requires w < 64 && r < 64
    ensures ((w + 64 - r) % 64 + r) % 64 == w
  {
  }

  /** RegB in terms of the A' coordinates it lands on. */
  lemma {:induction false} RegBAt(x: nat, y: nat, z: nat, a: nat, w: nat)
    requires x < 5 && y < 5 && z < 64 && a < 5 && w < 64
    requires (x + 3 * y) % 5 == a && (z + Rot(a, x)) % 64 == w
    ensures RegB(x, y, z) == RegAPrime(a, x, w)
  {
  }

  /** BCoords in terms of the A' coordinates of its register. */
  lemma {:induction false} BCoordsAt(i: nat, a: nat, b: nat, w: nat)
    requires START_A_PRIME <= i < START_A_PRIME_PRIME
    requires LaneCoords(i - START_A_PRIME) == (a, b, w)
    ensures a < 5 && b < 5 && w < 64
    ensures BCoords(i) == (b, (2 * (a + 5 - b)) % 5, (w + 64 - Rot(a, b)) % 64)
  {
  }

  /** BCoords undoes RegB: no two B coordinates alias the same A' register. */
  lemma {:induction false} RegBCoords(x: nat, y: nat, z: nat)
    requires x < 5 && y < 5 && z < 64
    ensures BCoords(RegB(x, y, z)) == (x, y, z)
  {
    var a := (x + 3 * y) % 5;
    var r := Rot(a, x);
    var w := (z + r) % 64;
    RegBAt(x, y, z, a, w);
    RegAPrimeCoords(a, x, w);
    BCoordsAt(RegB(x, y, z), a, x, w);
    PiInverse(x, y);
    RotationInverse(z, r);
  }

  /** Every register of the A' region is RegAPrime of its coordinates. */
  lemma {:induction false} RegAPrimeOnto(i: nat)
    requires START_A_PRIME <= i < START_A_PRIME_PRIME
    ensures var (x, y, z) := LaneCoords(i - START_A_PRIME); RegAPrime(x, y, z) == i
  {
  }

  /** RegB undoes BCoords: every A' register is aliased by some B coordinate. */
  lemma {:induction false} RegBOnto(i: nat)
    requires START_A_PRIME <= i < START_A_PRIME_PRIME
    ensures var (x, y, z) := BCoords(i); RegB(x, y, z) == i
  {
    var c := LaneCoords(i - START_A_PRIME);
    var a, b, w := c.0, c.1, c.2;
    RegAPrimeOnto(i);
    var r := Rot(a, b);
    var x, y, z := b, (2 * (a + 5 - b)) % 5, (w + 64 - r) % 64;
    assert BCoords(i) == (x, y, z);
    PiForward(a, b);
    RotationForward(w, r);
    RegBAt(x, y, z, a, w);
  }

  lemma {:induction false} RegBInjective(x: nat, y: nat, z: nat, x': nat, y': nat, z': nat)
    requires x < 5 && y < 5 && z < 64 && x' < 5 && y' < 5 && z' < 64
    ensures RegB(x, y, z) == RegB(x', y', z') <==> x == x' && y == y' && z == z'
  {
    if RegB(x, y, z) == RegB(x', y', z') {
      RegBCoords(x, y, z);
      RegBCoords(x', y', z');
    }
  }

  lemma {:induction false} RegAPrimePrimeCoords(x: nat, y: nat)
    requires x < 5 && y < 5
    ensures LimbCoords(RegAPrimePrime(x, y) - START_A_PRIME_PRIME) == (x, y, 0)
    ensures LimbCoords(RegAPrimePrime(x, y) + 1 - START_A_PRIME_PRIME) == (x, y, 1)
  {
  }

  /** Distinct lanes get distinct limb pairs: no hi limb is another pair's lo limb. */
  lemma {:induction false} RegAPrimePrimePairsDisjoint(x: nat, y: nat, x': nat, y': nat)
    requires x < 5 && y < 5 && x' < 5 && y' < 5
    requires x != x' || y != y'
    ensures RegAPrimePrime(x, y) != RegAPrimePrime(x', y')
    ensures RegAPrimePrime(x, y) + 1 != RegAPrimePrime(x', y')
  {
    RegAPrimePrimeCoords(x, y);
    RegAPrimePrimeCoords(x', y');
  }
}
