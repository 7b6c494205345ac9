/** What one call of the round function does to a trace row, as pure
    functions on sequences: set the round flag, then the theta columns
    C_partial and C, then A', then the chi limbs A'', then the round-constant
    XOR, whose constant is still 0. Each stage writes one region and leaves
    every other register alone. */
module KeccakRound {
  import opened KeccakLogic
  import opened KeccakRegisters

  /** One trace row. */
  type Row = seq<Felt>

  /** Every register in [lo, hi) holds a bit. */
  predicate BitsIn(s: Row, lo: nat, hi: nat)
    requires hi <= |s|
  {
    forall i :: lo <= i < hi ==> s[i] <= 1
  }

  /** A row the round function accepts: the state A holds bits, as xor and andn expect. */
  predicate WellFormed(s: Row) {
    |s| == NUM_REGISTERS && BitsIn(s, START_A, START_C_PARTIAL)
  }

  /** The all-zero row. */
  function ZeroRow(): (s: Row)
    ensures WellFormed(s)
  {
    seq(NUM_REGISTERS, i => 0)
  }

  // Theta: C_partial and C.

  function CPartialBit(s: Row, x: nat, z: nat): Bit
    requires WellFormed(s) && x < 5 && z < 64
  {
    XorAll([s[RegA(x, 0, z)], s[RegA(x, 1, z)], s[RegA(x, 2, z)]])
  }

  function CBit(s: Row, x: nat, z: nat): Bit
    requires WellFormed(s) && x < 5 && z < 64
  {
    XorAll([CPartialBit(s, x, z), s[RegA(x, 3, z)], s[RegA(x, 4, z)]])
  }

  /** The row after the C_partial and C columns are filled. */
  function ThetaC(s: Row): (t: Row)
    requires WellFormed(s)
    ensures |t| == NUM_REGISTERS
    ensures forall i :: 0 <= i < NUM_REGISTERS && !(START_C_PARTIAL <= i < START_A_PRIME) ==> t[i] == s[i]
    ensures BitsIn(t, START_A, START_A_PRIME)
  {
    seq(NUM_REGISTERS, i requires 0 <= i < NUM_REGISTERS => ThetaCAt(s, i))
  }

  function ThetaCAt(s: Row, i: nat): Felt
    requires WellFormed(s) && i < NUM_REGISTERS
  {
    if START_C_PARTIAL <= i < START_C then
      var (x, z) := ColumnCoords(i - START_C_PARTIAL);
      CPartialBit(s, x, z)
    else if START_C <= i < START_A_PRIME then
      var (x, z) := ColumnCoords(i - START_C);
      CBit(s, x, z)
    else s[i]
  }

  /** ThetaC puts C_partial[x, z] and C[x, z] in their registers. */
  lemma {:induction false} ThetaCAtCoords(s: Row, x: nat, z: nat)
    requires WellFormed(s) && x < 5 && z < 64
    ensures ThetaC(s)[RegCPartial(x, z)] == CPartialBit(s, x, z)
    ensures ThetaC(s)[RegC(x, z)] == CBit(s, x, z)
  {
    var cp, c := RegCPartial(x, z), RegC(x, z);
    RegCPartialCoords(x, z);
    RegCCoords(x, z);
    assert ThetaC(s)[cp] == ThetaCAt(s, cp);
    assert ThetaC(s)[c] == ThetaCAt(s, c);
  }

  // Theta: A'.

  function APrimeBit(s: Row, x: nat, y: nat, z: nat): Bit
    requires |s| == NUM_REGISTERS && BitsIn(s, START_A, START_A_PRIME)
    requires x < 5 && y < 5 && z < 64
  {
    XorAll([s[RegA(x, y, z)], s[RegC((x + 4) % 5, z)], s[RegC((x + 1) % 5, (z + 1) % 64)]])
  }

  /** The row after the A' columns are filled. */
  function APrimeStage(s: Row): (t: Row)
    requires |s| == NUM_REGISTERS && BitsIn(s, START_A, START_A_PRIME)
    ensures |t| == NUM_REGISTERS
    ensures forall i :: 0 <= i < NUM_REGISTERS && !(START_A_PRIME <= i < START_A_PRIME_PRIME) ==> t[i] == s[i]
    ensures BitsIn(t, START_A, START_A_PRIME_PRIME)
  {
    seq(NUM_REGISTERS, i requires 0 <= i < NUM_REGISTERS => APrimeAt(s, i))
  }

  function APrimeAt(s: Row, i: nat): Felt
    requires |s| == NUM_REGISTERS && BitsIn(s, START_A, START_A_PRIME) && i < NUM_REGISTERS
  {
    if START_A_PRIME <= i < START_A_PRIME_PRIME then
      var (x, y, z) := LaneCoords(i - START_A_PRIME);
      APrimeBit(s, x, y, z)
    else s[i]
  }

  /** APrimeStage puts A'[x, y, z] in its register. */
  lemma {:induction false} APrimeStageAtCoords(s: Row, x: nat, y: nat, z: nat)
    requires |s| == NUM_REGISTERS && BitsIn(s, START_A, START_A_PRIME)
    requires x < 5 && y < 5 && z < 64
    ensures APrimeStage(s)[RegAPrime(x, y, z)] == APrimeBit(s, x, y, z)
  {
    var i := RegAPrime(x, y, z);
    RegAPrimeCoords(x, y, z);
    assert APrimeStage(s)[i] == APrimeAt(s, i);
  }

  // Chi, packed into two 32-bit limbs per lane.

  /** Bit z of A''[x, y]: B[x, y] xor andn(B[x + 1, y], B[x + 2, y]). */
  function ChiBit(s: Row, x: nat, y: nat, z: nat): Bit
    requires |s| == NUM_REGISTERS && BitsIn(s, START_A_PRIME, START_A_PRIME_PRIME)
    requires x < 5 && y < 5 && z < 64
  {
    XorAll([s[RegB(x, y, z)], Andn(s[RegB((x + 1) % 5, y, z)], s[RegB((x + 2) % 5, y, z)])])
  }

  /** Bits lo..hi of A''[x, y], least significant first. */
  function ChiBits(s: Row, x: nat, y: nat, lo: nat, hi: nat): (bits: seq<Bit>)
    requires |s| == NUM_REGISTERS && BitsIn(s, START_A_PRIME, START_A_PRIME_PRIME)
    requires x < 5 && y < 5 && lo <= hi <= 64
    ensures |bits| == hi - lo
  {
    seq<Bit>(hi - lo, k requires 0 <= k < hi - lo => ChiBit(s, x, y, lo + k))
  }

  /** The low (limb 0) or high (limb 1) half of A''[x, y], as the fold computes it. */
  function ChiLimb(s: Row, x: nat, y: nat, limb: nat): Felt
    requires |s| == NUM_REGISTERS && BitsIn(s, START_A_PRIME, START_A_PRIME_PRIME)
    requires x < 5 && y < 5 && limb < 2
  {
    PackBits(ChiBits(s, x, y, 32 * limb, 32 * limb + 32))
  }

  /** One step of the fold: bit lo goes in below the bits above it. */
  lemma {:induction false} PackChiBitsStep(s: Row, x: nat, y: nat, lo: nat, hi: nat)
    requires |s| == NUM_REGISTERS && BitsIn(s, START_A_PRIME, START_A_PRIME_PRIME)
    requires x < 5 && y < 5 && lo < hi <= 64
    ensures PackBits(ChiBits(s, x, y, lo, hi)) ==
      FieldAdd(FieldDouble(PackBits(ChiBits(s, x, y, lo + 1, hi))), ChiBit(s, x, y, lo))
  {
    var bits := ChiBits(s, x, y, lo, hi);
    var rest := ChiBits(s, x, y, lo + 1, hi);
    assert |bits[1..]| == |rest|;
    forall k | 0 <= k < |rest|
      ensures bits[1..][k] == rest[k]
    {
      assert bits[1..][k] == bits[k + 1];
    }
    assert bits[1..] == rest;
  }

  /** The row after the A'' limbs are filled. */
  function ChiStage(s: Row): (t: Row)
    requires |s| == NUM_REGISTERS && BitsIn(s, START_A_PRIME, START_A_PRIME_PRIME)
    ensures |t| == NUM_REGISTERS
    ensures forall i :: 0 <= i < START_A_PRIME_PRIME ==> t[i] == s[i]
  {
    seq(NUM_REGISTERS, i requires 0 <= i < NUM_REGISTERS => ChiAt(s, i))
  }

  function ChiAt(s: Row, i: nat): Felt
    requires |s| == NUM_REGISTERS && BitsIn(s, START_A_PRIME, START_A_PRIME_PRIME) && i < NUM_REGISTERS
  {
    if START_A_PRIME_PRIME <= i then
      var (x, y, limb) := LimbCoords(i - START_A_PRIME_PRIME);
      ChiLimb(s, x, y, limb)
    else s[i]
  }

  /** ChiStage puts the lo and hi limbs of A''[x, y] in their registers. */
  lemma {:induction false} ChiStageAtCoords(s: Row, x: nat, y: nat)
    requires |s| == NUM_REGISTERS && BitsIn(s, START_A_PRIME, START_A_PRIME_PRIME)
    requires x < 5 && y < 5
    ensures ChiStage(s)[RegAPrimePrime(x, y)] == ChiLimb(s, x, y, 0)
    ensures ChiStage(s)[RegAPrimePrime(x, y) + 1] == ChiLimb(s, x, y, 1)
  {
    var lo := RegAPrimePrime(x, y);
    RegAPrimePrimeCoords(x, y);
    assert ChiStage(s)[lo] == ChiAt(s, lo);
    assert ChiStage(s)[lo + 1] == ChiAt(s, lo + 1);
  }

  // Iota.

  /** The round-constant limbs; the source still has 0 for both. */
  const RC_LO: U64 := 0
  const RC_HI: U64 := 0

  /** A''[0, 0] with the round constant XORed into its limbs. */
  function IotaStub(s: Row): (t: Row)
    requires |s| == NUM_REGISTERS
    ensures |t| == NUM_REGISTERS
  {
    var lo := RegAPrimePrime(0, 0);
    var hi := lo + 1;
    s[lo := FromCanonical(U64Xor(s[lo], RC_LO))][hi := FromCanonical(U64Xor(s[hi], RC_HI))]
  }

  /** The whole round function on a row, for round number `round`. */
  function Round(s: Row, round: nat): (t: Row)
    requires WellFormed(s) && round < NUM_ROUNDS
    ensures |t| == NUM_REGISTERS
  {
    IotaStub(ChiStage(APrimeStage(ThetaC(s[round := 1]))))
  }

  // What the round function promises.

  /** The round constant is 0, so the XOR step changes nothing yet. */
  lemma {:induction false} IotaStubIsIdentity(s: Row)
    requires |s| == NUM_REGISTERS
    ensures IotaStub(s) == s
  {
  }

  /** ChiBits reads only the A' region. */
  lemma {:induction false} ChiBitsFrame(s: Row, t: Row, x: nat, y: nat, lo: nat, hi: nat)
    requires |s| == NUM_REGISTERS && BitsIn(s, START_A_PRIME, START_A_PRIME_PRIME)
    requires |t| == NUM_REGISTERS && BitsIn(t, START_A_PRIME, START_A_PRIME_PRIME)
    requires forall i :: START_A_PRIME <= i < START_A_PRIME_PRIME ==> s[i] == t[i]
    requires x < 5 && y < 5 && lo <= hi <= 64
    ensures ChiBits(s, x, y, lo, hi) == ChiBits(t, x, y, lo, hi)
  {
    forall k | 0 <= k < hi - lo
      ensures ChiBits(s, x, y, lo, hi)[k] == ChiBits(t, x, y, lo, hi)[k]
    {
      var z := lo + k;
      var b0, b1, b2 := RegB(x, y, z), RegB((x + 1) % 5, y, z), RegB((x + 2) % 5, y, z);
      assert s[b0] == t[b0] && s[b1] == t[b1] && s[b2] == t[b2];
      assert ChiBit(s, x, y, z) == ChiBit(t, x, y, z);
    }
  }

  /** The round function, with the XOR of the zero round constant dropped. */
  lemma {:induction false} RoundStages(s: Row, round: nat)
    requires WellFormed(s) && round < NUM_ROUNDS
    ensures Round(s, round) == ChiStage(APrimeStage(ThetaC(s[round := 1])))
  {
    IotaStubIsIdentity(ChiStage(APrimeStage(ThetaC(s[round := 1]))));
  }

  /** The round function writes its flag and the C_partial, C, A' and A''
      regions; it leaves A and every other flag as they were. */
  lemma {:induction false} RoundFrame(s: Row, round: nat)
    requires WellFormed(s) && round < NUM_ROUNDS
    ensures WellFormed(Round(s, round))
    ensures Round(s, round)[RegStep(round)] == 1
    ensures forall i :: 0 <= i < NUM_ROUNDS && i != round ==> Round(s, round)[i] == s[i]
    ensures forall i :: START_A <= i < START_C_PARTIAL ==> Round(s, round)[i] == s[i]
    ensures BitsIn(Round(s, round), START_A, START_A_PRIME_PRIME)
  {
    RoundStages(s, round);
  }

  /** The point form of RoundFrame's promise about A. */
  lemma {:induction false} RoundKeepsA(s: Row, round: nat, i: nat)
    requires WellFormed(s) && round < NUM_ROUNDS && START_A <= i < START_C_PARTIAL
    ensures Round(s, round)[i] == s[i]
  {
    RoundFrame(s, round);
  }

  /** The round function's output agrees with the C stage up to the end of C. */
  lemma {:induction false} RoundKeepsThetaC(s: Row, round: nat, i: nat)
    requires WellFormed(s) && round < NUM_ROUNDS && i < START_A_PRIME
    ensures Round(s, round)[i] == ThetaC(s[round := 1])[i]
  {
    RoundStages(s, round);
  }

  /** The round function's output agrees with the A' stage on A'. */
  lemma {:induction false} RoundKeepsAPrime(s: Row, round: nat, i: nat)
    requires WellFormed(s) && round < NUM_ROUNDS && START_A_PRIME <= i < START_A_PRIME_PRIME
    ensures Round(s, round)[i] == APrimeStage(ThetaC(s[round := 1]))[i]
  {
    RoundStages(s, round);
  }

  /** The C stage alone: C_partial is the XOR of three column bits, C adds the
      other two, so C is the XOR of all five. */
  lemma {:induction false} ThetaCColumn(s: Row, x: nat, z: nat)
    requires WellFormed(s) && x < 5 && z < 64
    ensures var u := ThetaC(s);
      u[RegCPartial(x, z)] == XorAll([s[RegA(x, 0, z)], s[RegA(x, 1, z)], s[RegA(x, 2, z)]])
    ensures var u := ThetaC(s);
      u[RegC(x, z)] == XorAll([u[RegCPartial(x, z)], s[RegA(x, 3, z)], s[RegA(x, 4, z)]])
    ensures ThetaC(s)[RegC(x, z)] ==
      XorAll([s[RegA(x, 0, z)], s[RegA(x, 1, z)], s[RegA(x, 2, z)], s[RegA(x, 3, z)], s[RegA(x, 4, z)]])
  {
    ThetaCAtCoords(s, x, z);
    var a: seq<Bit> := [s[RegA(x, 0, z)], s[RegA(x, 1, z)], s[RegA(x, 2, z)], s[RegA(x, 3, z)], s[RegA(x, 4, z)]];
    assert a[..3] == [s[RegA(x, 0, z)], s[RegA(x, 1, z)], s[RegA(x, 2, z)]];
    assert a[3..] == [s[RegA(x, 3, z)], s[RegA(x, 4, z)]];
    assert a == a[..3] + a[3..];
    XorAllAppend(a[..3], a[3..]);
    assert [XorAll(a[..3]), a[3], a[4]] == [XorAll(a[..3])] + a[3..];
    XorAllAppend([XorAll(a[..3])], a[3..]);
  }

  /** C_partial[x, z] is the XOR of A[x, 0..3, z]; C[x, z] adds A[x, 3, z] and
      A[x, 4, z], so it is the parity of the whole column. */
  lemma {:induction false} RoundTheta(s: Row, round: nat, x: nat, z: nat)
    requires WellFormed(s) && round < NUM_ROUNDS && x < 5 && z < 64
    ensures var t := Round(s, round);
      t[RegCPartial(x, z)] == XorAll([s[RegA(x, 0, z)], s[RegA(x, 1, z)], s[RegA(x, 2, z)]])
    ensures var t := Round(s, round);
      t[RegC(x, z)] == XorAll([t[RegCPartial(x, z)], s[RegA(x, 3, z)], s[RegA(x, 4, z)]])
    ensures Round(s, round)[RegC(x, z)] ==
      XorAll([s[RegA(x, 0, z)], s[RegA(x, 1, z)], s[RegA(x, 2, z)], s[RegA(x, 3, z)], s[RegA(x, 4, z)]])
  {
    var s1 := s[round := 1];
    var t := Round(s, round);
    ThetaCColumn(s1, x, z);
    var cp, c := RegCPartial(x, z), RegC(x, z);
    RoundKeepsThetaC(s, round, cp);
    RoundKeepsThetaC(s, round, c);
    assert s1[RegA(x, 0, z)] == s[RegA(x, 0, z)];
    assert s1[RegA(x, 1, z)] == s[RegA(x, 1, z)];
    assert s1[RegA(x, 2, z)] == s[RegA(x, 2, z)];
    assert s1[RegA(x, 3, z)] == s[RegA(x, 3, z)];
    assert s1[RegA(x, 4, z)] == s[RegA(x, 4, z)];
  }

  /** A'[x, y, z] after the round is the A' bit of the C stage. */
  lemma {:induction false} RoundAPrimeOfStage(s: Row, round: nat, x: nat, y: nat, z: nat)
    requires WellFormed(s) && round < NUM_ROUNDS && x < 5 && y < 5 && z < 64
    ensures Round(s, round)[RegAPrime(x, y, z)] == APrimeBit(ThetaC(s[round := 1]), x, y, z)
  {
    RoundKeepsAPrime(s, round, RegAPrime(x, y, z));
    APrimeStageAtCoords(ThetaC(s[round := 1]), x, y, z);
  }

  /** A'[x, y, z] is A[x, y, z] XOR C[x - 1, z] XOR C[x + 1, z + 1], indices
      taken modulo 5 and 64. */
  lemma {:induction false} RoundAPrime(s: Row, round: nat, x: nat, y: nat, z: nat)
    requires WellFormed(s) && round < NUM_ROUNDS && x < 5 && y < 5 && z < 64
    ensures BitsIn(Round(s, round), START_A, START_A_PRIME_PRIME)
    ensures var t := Round(s, round);
      t[RegAPrime(x, y, z)] == XorAll([s[RegA(x, y, z)], t[RegC((x + 4) % 5, z)], t[RegC((x + 1) % 5, (z + 1) % 64)]])
  {
    RoundFrame(s, round);
    var u1 := ThetaC(s[round := 1]);
    var a, c0, c1 := RegA(x, y, z), RegC((x + 4) % 5, z), RegC((x + 1) % 5, (z + 1) % 64);
    RoundAPrimeOfStage(s, round, x, y, z);
    RoundKeepsThetaC(s, round, c0);
    RoundKeepsThetaC(s, round, c1);
    assert u1[a] == s[a];
    APrimeStageAtCoords(u1, x, y, z);
  }

  /** A''[x, y] holds the chi lane B[x, y] XOR andn(B[x + 1, y], B[x + 2, y]) as
      two 32-bit limbs: lo is bits 0..32, hi is bits 32..64. Both are below
      2^32, so the field fold never reduced them. */
  lemma {:induction false} RoundChi(s: Row, round: nat, x: nat, y: nat)
    requires WellFormed(s) && round < NUM_ROUNDS && x < 5 && y < 5
    ensures BitsIn(Round(s, round), START_A_PRIME, START_A_PRIME_PRIME)
    ensures var t := Round(s, round); var lo := RegAPrimePrime(x, y);
      t[lo] == LimbValue(ChiBits(t, x, y, 0, 32)) && t[lo + 1] == LimbValue(ChiBits(t, x, y, 32, 64))
    ensures var t := Round(s, round); var lo := RegAPrimePrime(x, y);
      t[lo] < 0x1_0000_0000 && t[lo + 1] < 0x1_0000_0000
  {
    RoundFrame(s, round);
    RoundStages(s, round);
    var u2 := APrimeStage(ThetaC(s[round := 1]));
    var t := ChiStage(u2);
    assert forall i :: START_A_PRIME <= i < START_A_PRIME_PRIME ==> u2[i] == t[i];
    ChiStageAtCoords(u2, x, y);
    ChiBitsFrame(u2, t, x, y, 0, 32);
    ChiBitsFrame(u2, t, x, y, 32, 64);
    PackBitsIsLimbValue(ChiBits(t, x, y, 0, 32));
    PackBitsIsLimbValue(ChiBits(t, x, y, 32, 64));
  }

  lemma {:induction false} PackZeroBits(bits: seq<Bit>)
    requires forall k :: 0 <= k < |bits| ==> bits[k] == 0
    ensures PackBits(bits) == 0
  {
    if |bits| > 0 {
      PackZeroBits(bits[1..]);
    }
  }

  /** Every register from lo on holds 0. */
  predicate ZeroFrom(s: Row, lo: nat)
    requires lo <= |s|
  {
    forall i :: lo <= i < |s| ==> s[i] == 0
  }

  lemma {:induction false} ThetaCAtOfZero(s: Row, i: nat)
    requires WellFormed(s) && ZeroFrom(s, START_A) && i < NUM_REGISTERS
    ensures ThetaCAt(s, i) == s[i]
  {
    if START_C_PARTIAL <= i < START_C {
      var (x, z) := ColumnCoords(i - START_C_PARTIAL);
      assert CPartialBit(s, x, z) == XorAll([0, 0, 0]) == 0;
    } else if START_C <= i < START_A_PRIME {
      var (x, z) := ColumnCoords(i - START_C);
      assert CPartialBit(s, x, z) == XorAll([0, 0, 0]) == 0;
      assert CBit(s, x, z) == XorAll([0, 0, 0]) == 0;
    }
  }

  lemma {:induction false} ThetaCOfZero(s: Row)
    requires WellFormed(s) && ZeroFrom(s, START_A)
    ensures ThetaC(s) == s
  {
    forall i | 0 <= i < NUM_REGISTERS
      ensures ThetaC(s)[i] == s[i]
    {
      ThetaCAtOfZero(s, i);
    }
  }

  lemma {:induction false} APrimeAtOfZero(s: Row, i: nat)
    requires WellFormed(s) && ZeroFrom(s, START_A) && i < NUM_REGISTERS
    ensures APrimeAt(s, i) == s[i]
  {
    if START_A_PRIME <= i < START_A_PRIME_PRIME {
      var (x, y, z) := LaneCoords(i - START_A_PRIME);
      assert APrimeBit(s, x, y, z) == XorAll([0, 0, 0]) == 0;
    }
  }

  lemma {:induction false} APrimeOfZero(s: Row)
    requires WellFormed(s) && ZeroFrom(s, START_A)
    ensures APrimeStage(s) == s
  {
    forall i | 0 <= i < NUM_REGISTERS
      ensures APrimeStage(s)[i] == s[i]
    {
      APrimeAtOfZero(s, i);
    }
  }

  lemma {:induction false} ChiBitOfZero(s: Row, x: nat, y: nat, z: nat)
    requires WellFormed(s) && ZeroFrom(s, START_A) && x < 5 && y < 5 && z < 64
    ensures ChiBit(s, x, y, z) == 0
  {
    var b0, b1, b2 := RegB(x, y, z), RegB((x + 1) % 5, y, z), RegB((x + 2) % 5, y, z);
    assert s[b0] == 0 && s[b1] == 0 && s[b2] == 0;
    assert ChiBit(s, x, y, z) == XorAll([s[b0], Andn(s[b1], s[b2])]);
  }

  lemma {:induction false} ChiLimbOfZero(s: Row, x: nat, y: nat, limb: nat)
    requires WellFormed(s) && ZeroFrom(s, START_A) && x < 5 && y < 5 && limb < 2
    ensures ChiLimb(s, x, y, limb) == 0
  {
    var bits := ChiBits(s, x, y, 32 * limb, 32 * limb + 32);
    forall k | 0 <= k < |bits|
      ensures bits[k] == 0
    {
      assert bits[k] == ChiBit(s, x, y, 32 * limb + k);
      ChiBitOfZero(s, x, y, 32 * limb + k);
    }
    PackZeroBits(bits);
  }

  lemma {:induction false} ChiOfZero(s: Row)
    requires WellFormed(s) && ZeroFrom(s, START_A)
    ensures ChiStage(s) == s
  {
    forall i | 0 <= i < NUM_REGISTERS
      ensures ChiStage(s)[i] == s[i]
    {
      if START_A_PRIME_PRIME <= i {
        var (x, y, limb) := LimbCoords(i - START_A_PRIME_PRIME);
        ChiLimbOfZero(s, x, y, limb);
      }
    }
  }

  /** On an all-zero row the round function only raises its flag: every
      C, A' and A'' register comes out 0. */
  lemma {:induction false} ZeroRound(round: nat)
    requires round < NUM_ROUNDS
    ensures Round(ZeroRow(), round) == ZeroRow()[round := 1]
  {
    var s1 := ZeroRow()[round := 1];
    ThetaCOfZero(s1);
    APrimeOfZero(s1);
    ChiOfZero(s1);
    IotaStubIsIdentity(s1);
  }
}
