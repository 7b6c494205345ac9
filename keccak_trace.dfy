/** The Keccak trace generator: the round function that fills one row in
    place, the 24 rows of one permutation, and the whole trace padded to a
    power of two. Each method is proved against a function of its inputs
    (Round, PermRows, TraceRows), and lemmas state what those functions
    promise about the rows. */
module KeccakTrace {
  import opened PowersOfTwo
  import opened KeccakLogic
  import opened KeccakRegisters
  import opened KeccakRound

  /** Number of 64-bit limbs in a preimage of the permutation. */
  const INPUT_LIMBS: nat := 25

  /** A `[u64; INPUT_LIMBS]`; lane (x, y) is limb x * 5 + y. */
  type Input = s: seq<U64> | |s| == INPUT_LIMBS witness seq(INPUT_LIMBS, i => 0)

  // The rows, as functions of the inputs.

  function InitialAt(input: Input, i: nat): Felt
    requires i < NUM_REGISTERS
  {
    if START_A <= i < START_C_PARTIAL then
      var (x, y, z) := LaneCoords(i - START_A);
      LaneBit(input[x * 5 + y], z)
    else 0
  }

  /** Row 0 of a permutation before the round function: bit z of input
      limb x * 5 + y in A[x, y, z], zero elsewhere. */
  function InitialRow(input: Input): (s: Row)
    ensures WellFormed(s) && ZeroFrom(s, START_C_PARTIAL)
    ensures forall i :: 0 <= i < START_A ==> s[i] == 0
  {
    seq(NUM_REGISTERS, i requires 0 <= i < NUM_REGISTERS => InitialAt(input, i))
  }

  /** The 24 rows of one permutation: round r applied to row 0 (the input)
      or, for r > 0, to an all-zero row. */
  function PermRows(input: Input): (rows: seq<Row>)
    ensures |rows| == NUM_ROUNDS
  {
    seq(NUM_ROUNDS, r requires 0 <= r < NUM_ROUNDS =>
      Round(if r == 0 then InitialRow(input) else ZeroRow(), r))
  }

  /** The permutation rows of all inputs, one block of 24 after another. */
  function PermBlocks(inputs: seq<Input>): (rows: seq<Row>)
    ensures |rows| == NUM_ROUNDS * |inputs|
  {
    if |inputs| == 0 then []
    else PermBlocks(inputs[..|inputs| - 1]) + PermRows(inputs[|inputs| - 1])
  }

  /** Padding row i: the zero row with only the flag of round i % 24 set,
      which is what that round makes of an all-zero row (PaddingRowIsRound). */
  function PaddingRow(i: nat): Row {
    ZeroRow()[i % NUM_ROUNDS := 1]
  }

  /** The padding row is the round function applied to an all-zero row. */
  lemma {:induction false} PaddingRowIsRound(i: nat)
    ensures WellFormed(PaddingRow(i))
    ensures PaddingRow(i) == Round(ZeroRow(), i % NUM_ROUNDS)
  {
    ZeroRound(i % NUM_ROUNDS);
  }

  /** Rows from..to of the padding. */
  function Padding(from: nat, to: nat): (rows: seq<Row>)
    requires from <= to
    ensures |rows| == to - from
  {
    seq(to - from, j requires 0 <= j < to - from => PaddingRow(from + j))
  }

  lemma {:induction false} PaddingAppend(from: nat, to: nat)
    requires from <= to
    ensures Padding(from, to + 1) == Padding(from, to) + [PaddingRow(to)]
  {
    var longer, shorter := Padding(from, to + 1), Padding(from, to);
    forall j | 0 <= j < to - from
      ensures longer[j] == shorter[j]
    {
    }
    assert longer == shorter + [longer[to - from]];
  }

  /** The whole trace: the permutation blocks, padded to a power of two. */
  function TraceRows(inputs: seq<Input>): (rows: seq<Row>)
    ensures NUM_ROUNDS * |inputs| <= |rows| == NextPowerOfTwo(NUM_ROUNDS * |inputs|)
  {
    var n := NUM_ROUNDS * |inputs|;
    PermBlocks(inputs) + Padding(n, NextPowerOfTwo(n))
  }

  /** Bits 0..64 of lane (x, y) of the state A, least significant first. */
  function LaneOf(s: Row, x: nat, y: nat): (bits: seq<Bit>)
    requires WellFormed(s) && x < 5 && y < 5
    ensures |bits| == 64
  {
    seq<Bit>(64, z requires 0 <= z < 64 => s[RegA(x, y, z)])
  }

  // What the rows promise.

  /** Row 0 holds the input: lane (x, y) of A read back as a binary number
      is input limb x * 5 + y. */
  lemma {:induction false} InitialRowHoldsInput(input: Input, x: nat, y: nat)
    requires x < 5 && y < 5
    ensures LimbValue(LaneOf(InitialRow(input), x, y)) == input[x * 5 + y]
  {
    var w := input[x * 5 + y];
    forall z | 0 <= z < 64
      ensures LaneOf(InitialRow(input), x, y)[z] == LaneBits(w, 64)[z]
    {
      RegACoords(x, y, z);
    }
    assert LaneOf(InitialRow(input), x, y) == LaneBits(w, 64);
    LaneBitsOfWord(w);
  }

  /** A row whose flags are all 0 comes out of round r with exactly flag r set. */
  lemma {:induction false} RoundFlagsOneHot(s: Row, r: nat, j: nat)
    requires WellFormed(s) && r < NUM_ROUNDS && j < NUM_ROUNDS
    requires forall i :: 0 <= i < START_A ==> s[i] == 0
    ensures WellFormed(Round(s, r))
    ensures Round(s, r)[j] == if j == r then 1 else 0
  {
    RoundFrame(s, r);
  }

  /** The rows of one permutation: row r has exactly the round flag r set,
      and rows 1..23 only raise their flag, since they are not chained from
      the row before. */
  lemma {:induction false} PermRowsShape(input: Input, r: nat, j: nat)
    requires r < NUM_ROUNDS && j < NUM_ROUNDS
    ensures WellFormed(PermRows(input)[r])
    ensures PermRows(input)[r][j] == if j == r then 1 else 0
    ensures r > 0 ==> PermRows(input)[r] == ZeroRow()[r := 1]
  {
    var s := if r == 0 then InitialRow(input) else ZeroRow();
    RoundFlagsOneHot(s, r, j);
    if r > 0 {
      ZeroRound(r);
    }
  }

  /** A round leaves every lane of A as it was. */
  lemma {:induction false} RoundKeepsLane(s: Row, r: nat, x: nat, y: nat)
    requires WellFormed(s) && r < NUM_ROUNDS && x < 5 && y < 5
    ensures WellFormed(Round(s, r))
    ensures LaneOf(Round(s, r), x, y) == LaneOf(s, x, y)
  {
    var t := Round(s, r);
    RoundFrame(s, r);
    forall z | 0 <= z < 64
      ensures LaneOf(t, x, y)[z] == LaneOf(s, x, y)[z]
    {
      RoundKeepsA(s, r, RegA(x, y, z));
    }
  }

  lemma {:induction false} PermRowsHoldInput(input: Input, x: nat, y: nat)
    requires x < 5 && y < 5
    ensures WellFormed(PermRows(input)[0])
    ensures LimbValue(LaneOf(PermRows(input)[0], x, y)) == input[x * 5 + y]
  {
    var s := InitialRow(input);
    assert PermRows(input)[0] == Round(s, 0);
    RoundKeepsLane(s, 0, x, y);
    InitialRowHoldsInput(input, x, y);
  }

  /** Row 24 * p + r of the blocks is row r of input p's permutation. */
  lemma {:induction false} PermBlocksAt(inputs: seq<Input>, p: nat, r: nat)
    requires p < |inputs| && r < NUM_ROUNDS
    ensures PermBlocks(inputs)[NUM_ROUNDS * p + r] == PermRows(inputs[p])[r]
  {
    var n := |inputs|;
    var front := inputs[..n - 1];
    if p < n - 1 {
      PermBlocksAt(front, p, r);
      assert front[p] == inputs[p];
    }
  }

  /** The trace has NextPowerOfTwo(24 * |inputs|) rows: a power of two that
      holds every permutation block, and no larger than any other such power
      q; with no inputs it is a single padding row. */
  lemma {:induction false} TraceRowsLength(inputs: seq<Input>, q: nat)
    requires IsPowerOfTwo(q) && NUM_ROUNDS * |inputs| <= q
    ensures var k := |TraceRows(inputs)|;
      k == NextPowerOfTwo(NUM_ROUNDS * |inputs|) && IsPowerOfTwo(k) && NUM_ROUNDS * |inputs| <= k <= q
    ensures |inputs| == 0 ==> |TraceRows(inputs)| == 1
  {
    NextPowerOfTwoIsLeast(NUM_ROUNDS * |inputs|, q);
    if |inputs| == 0 {
      NextPowerOfTwoOfSmall(0);
    }
  }

  /** Row i of the trace is a block row or a padding row. */
  lemma {:induction false} TraceRowsAt(inputs: seq<Input>, i: nat)
    requires i < |TraceRows(inputs)|
    ensures i < NUM_ROUNDS * |inputs| ==> TraceRows(inputs)[i] == PermBlocks(inputs)[i]
    ensures i >= NUM_ROUNDS * |inputs| ==> TraceRows(inputs)[i] == PaddingRow(i)
  {
    var n := NUM_ROUNDS * |inputs|;
    var blocks, pad := PermBlocks(inputs), Padding(n, NextPowerOfTwo(n));
    assert TraceRows(inputs) == blocks + pad;
    if i >= n {
      assert TraceRows(inputs)[i] == pad[i - n];
    }
  }

  lemma {:induction false} BlockRowFlags(inputs: seq<Input>, i: nat, j: nat)
    requires i < NUM_ROUNDS * |inputs| && j < NUM_ROUNDS
    ensures WellFormed(PermBlocks(inputs)[i])
    ensures PermBlocks(inputs)[i][j] == if j == i % NUM_ROUNDS then 1 else 0
  {
    var r := i % NUM_ROUNDS;
    var p := i / NUM_ROUNDS;
    assert i == NUM_ROUNDS * p + r && p < |inputs|;
    PermBlocksAt(inputs, p, r);
    PermRowsShape(inputs[p], r, j);
  }

  /** Every row i of the trace is well formed and has exactly the round
      flag i % 24 set. */
  lemma {:induction false} TraceRowFlags(inputs: seq<Input>, i: nat, j: nat)
    requires i < |TraceRows(inputs)| && j < NUM_ROUNDS
    ensures WellFormed(TraceRows(inputs)[i])
    ensures TraceRows(inputs)[i][j] == if j == i % NUM_ROUNDS then 1 else 0
  {
    TraceRowsAt(inputs, i);
    if i < NUM_ROUNDS * |inputs| {
      BlockRowFlags(inputs, i, j);
    } else {
      PaddingRowIsRound(i);
    }
  }

  /** Row 24 * p of the trace holds input p in its state A. */
  lemma {:induction false} TraceHoldsInputs(inputs: seq<Input>, p: nat, x: nat, y: nat)
    requires p < |inputs| && x < 5 && y < 5
    ensures NUM_ROUNDS * p < |TraceRows(inputs)|
    ensures WellFormed(TraceRows(inputs)[NUM_ROUNDS * p])
    ensures LimbValue(LaneOf(TraceRows(inputs)[NUM_ROUNDS * p], x, y)) == inputs[p][x * 5 + y]
  {
    TraceRowsAt(inputs, NUM_ROUNDS * p);
    PermBlocksAt(inputs, p, 0);
    PermRowsHoldInput(inputs[p], x, y);
  }

  // The generator, in place on arrays.

  /** A register of C_partial or C whose column comes before offset d. */
  predicate ColumnDone(i: nat, d: nat) {
    START_C_PARTIAL <= i < START_C_PARTIAL + d || START_C <= i < START_C + d
  }

  /** Fills C_partial[x, z] and C[x, z] from the five bits of column (x, z) of A. */
  method FillColumn(row: array<Felt>, ghost s: Row, x: nat, z: nat)
    requires row.Length == NUM_REGISTERS && WellFormed(s) && x < 5 && z < 64
    requires forall i :: START_A <= i < START_C_PARTIAL ==> row[i] == s[i]
    modifies row
    ensures row[RegCPartial(x, z)] == ThetaC(s)[RegCPartial(x, z)]
    ensures row[RegC(x, z)] == ThetaC(s)[RegC(x, z)]
    ensures forall i :: 0 <= i < NUM_REGISTERS && i != RegCPartial(x, z) && i != RegC(x, z) ==> row[i] == old(row[i])
  {
    var a0, a1, a2, a3, a4 := row[RegA(x, 0, z)], row[RegA(x, 1, z)], row[RegA(x, 2, z)], row[RegA(x, 3, z)], row[RegA(x, 4, z)];
    assert a0 == s[RegA(x, 0, z)] && a1 == s[RegA(x, 1, z)] && a2 == s[RegA(x, 2, z)];
    assert a3 == s[RegA(x, 3, z)] && a4 == s[RegA(x, 4, z)];
    var cPartial := XorAll([a0, a1, a2]);
    var c := XorAll([cPartial, a3, a4]);
    ThetaCAtCoords(s, x, z);
    row[RegCPartial(x, z)] := cPartial;
    row[RegC(x, z)] := c;
  }

  /** Fills C_partial and C, column by column. */
  method PopulateC(row: array<Felt>)
    requires row.Length == NUM_REGISTERS && WellFormed(row[..])
    modifies row
    ensures row[..] == ThetaC(old(row[..]))
  {
    ghost var s := row[..];
    ghost var t := ThetaC(s);
    for x := 0 to 5
      invariant forall i :: 0 <= i < NUM_REGISTERS ==> row[i] == if ColumnDone(i, 64 * x) then t[i] else s[i]
    {
      for z := 0 to 64
        invariant forall i :: 0 <= i < NUM_REGISTERS ==> row[i] == if ColumnDone(i, 64 * x + z) then t[i] else s[i]
      {
        FillColumn(row, s, x, z);
      }
    }
    assert row[..] == t;
  }

  /** Fills A'[x, y, z] from A[x, y, z] and two bits of C. */
  method FillAPrimeBit(row: array<Felt>, ghost s: Row, x: nat, y: nat, z: nat)
    requires row.Length == NUM_REGISTERS && |s| == NUM_REGISTERS && BitsIn(s, START_A, START_A_PRIME)
    requires x < 5 && y < 5 && z < 64
    requires forall i :: START_A <= i < START_A_PRIME ==> row[i] == s[i]
    modifies row
    ensures row[RegAPrime(x, y, z)] == APrimeStage(s)[RegAPrime(x, y, z)]
    ensures forall i :: 0 <= i < NUM_REGISTERS && i != RegAPrime(x, y, z) ==> row[i] == old(row[i])
  {
    APrimeStageAtCoords(s, x, y, z);
    row[RegAPrime(x, y, z)] := XorAll([
      row[RegA(x, y, z)],
      row[RegC((x + 4) % 5, z)],
      row[RegC((x + 1) % 5, (z + 1) % 64)]
    ]);
  }

  /** Fills A', lane by lane. */
  method PopulateAPrime(row: array<Felt>)
    requires row.Length == NUM_REGISTERS && BitsIn(row[..], START_A, START_A_PRIME)
    modifies row
    ensures row[..] == APrimeStage(old(row[..]))
  {
    ghost var s := row[..];
    ghost var t := APrimeStage(s);
    for x := 0 to 5
      invariant forall i :: 0 <= i < NUM_REGISTERS ==>
        row[i] == if START_A_PRIME <= i < START_A_PRIME + 320 * x then t[i] else s[i]
    {
      for y := 0 to 5
        invariant forall i :: 0 <= i < NUM_REGISTERS ==>
          row[i] == if START_A_PRIME <= i < START_A_PRIME + 320 * x + 64 * y then t[i] else s[i]
      {
        for z := 0 to 64
          invariant forall i :: 0 <= i < NUM_REGISTERS ==>
            row[i] == if START_A_PRIME <= i < START_A_PRIME + 320 * x + 64 * y + z then t[i] else s[i]
        {
          FillAPrimeBit(row, s, x, y, z);
        }
      }
    }
    assert row[..] == t;
  }

  /** The `(lo..hi).rev().fold(ZERO, |acc, z| acc.double() + get_bit(z))` of
      the chi step: bits lo..hi of A''[x, y] packed into one field element. */
  method FoldLimb(row: array<Felt>, x: nat, y: nat, lo: nat, hi: nat) returns (acc: Felt)
    requires row.Length == NUM_REGISTERS && BitsIn(row[..], START_A_PRIME, START_A_PRIME_PRIME)
    requires x < 5 && y < 5 && lo <= hi <= 64
    ensures acc == PackBits(ChiBits(row[..], x, y, lo, hi))
  {
    ghost var s := row[..];
    acc := 0;
    var z := hi;
    while z > lo
      invariant lo <= z <= hi
      invariant acc == PackBits(ChiBits(s, x, y, z, hi))
    {
      z := z - 1;
      var bit := XorAll([
        row[RegB(x, y, z)],
        Andn(row[RegB((x + 1) % 5, y, z)], row[RegB((x + 2) % 5, y, z)])
      ]);
      PackChiBitsStep(s, x, y, z, hi);
      acc := FieldAdd(FieldDouble(acc), bit);
    }
  }

  /** The lo and hi limbs of A''[x, y], computed from the current row. */
  method ChiLane(row: array<Felt>, x: nat, y: nat) returns (lo: Felt, hi: Felt)
    requires row.Length == NUM_REGISTERS && BitsIn(row[..], START_A_PRIME, START_A_PRIME_PRIME)
    requires x < 5 && y < 5
    ensures lo == ChiStage(row[..])[RegAPrimePrime(x, y)] < 0x1_0000_0000
    ensures hi == ChiStage(row[..])[RegAPrimePrime(x, y) + 1] < 0x1_0000_0000
  {
    lo := FoldLimb(row, x, y, 0, 32);
    hi := FoldLimb(row, x, y, 32, 64);
    ChiStageAtCoords(row[..], x, y);
    PackBitsIsLimbValue(ChiBits(row[..], x, y, 0, 32));
    PackBitsIsLimbValue(ChiBits(row[..], x, y, 32, 64));
  }

  /** The A'' limbs of a lane depend on the A' region alone. */
  lemma {:induction false} ChiLaneFrame(s: Row, t: Row, x: nat, y: nat)
    requires |s| == NUM_REGISTERS && BitsIn(s, START_A_PRIME, START_A_PRIME_PRIME)
    requires |t| == NUM_REGISTERS && BitsIn(t, START_A_PRIME, START_A_PRIME_PRIME)
    requires forall i :: START_A_PRIME <= i < START_A_PRIME_PRIME ==> s[i] == t[i]
    requires x < 5 && y < 5
    ensures ChiStage(s)[RegAPrimePrime(x, y)] == ChiStage(t)[RegAPrimePrime(x, y)]
    ensures ChiStage(s)[RegAPrimePrime(x, y) + 1] == ChiStage(t)[RegAPrimePrime(x, y) + 1]
  {
    ChiStageAtCoords(s, x, y);
    ChiStageAtCoords(t, x, y);
    ChiBitsFrame(s, t, x, y, 0, 32);
    ChiBitsFrame(s, t, x, y, 32, 64);
  }

  /** Fills the A'' limb pairs, lane by lane. */
  method PopulateAPrimePrime(row: array<Felt>)
    requires row.Length == NUM_REGISTERS && BitsIn(row[..], START_A_PRIME, START_A_PRIME_PRIME)
    modifies row
    ensures row[..] == ChiStage(old(row[..]))
  {
    ghost var s := row[..];
    ghost var t := ChiStage(s);
    for x := 0 to 5
      invariant forall i :: 0 <= i < NUM_REGISTERS ==>
        row[i] == if START_A_PRIME_PRIME <= i < START_A_PRIME_PRIME + 10 * x then t[i] else s[i]
    {
      for y := 0 to 5
        invariant forall i :: 0 <= i < NUM_REGISTERS ==>
          row[i] == if START_A_PRIME_PRIME <= i < START_A_PRIME_PRIME + 10 * x + 2 * y then t[i] else s[i]
      {
        assert forall i :: START_A_PRIME <= i < START_A_PRIME_PRIME ==> row[..][i] == s[i];
        var lo, hi := ChiLane(row, x, y);
        ChiLaneFrame(row[..], s, x, y);
        var regLo := RegAPrimePrime(x, y);
        var regHi := regLo + 1;
        assert regLo == START_A_PRIME_PRIME + 10 * x + 2 * y;
        row[regLo] := lo;
        row[regHi] := hi;
      }
    }
    assert row[..] == t;
  }

  /** XORs the round constant into the limbs of A''[0, 0]. */
  method XorRoundConstant(row: array<Felt>)
    requires row.Length == NUM_REGISTERS
    modifies row
    ensures row[..] == IotaStub(old(row[..]))
  {
    var regLo := RegAPrimePrime(0, 0);
    var regHi := regLo + 1;
    var rcLo, rcHi := RC_LO, RC_HI;
    row[regLo] := FromCanonical(U64Xor(row[regLo], rcLo));
    row[regHi] := FromCanonical(U64Xor(row[regHi], rcHi));
  }

  /** `generate_trace_rows_for_round`: sets the round flag, then fills C_partial,
      C, A' and A'' in place and XORs in the round constant. */
  method GenerateTraceRowsForRound(row: array<Felt>, round: nat)
    requires row.Length == NUM_REGISTERS && WellFormed(row[..]) && round < NUM_ROUNDS
    modifies row
    ensures row[..] == Round(old(row[..]), round)
  {
    row[round] := 1;
    assert row[..] == old(row[..])[round := 1];
    PopulateC(row);
    PopulateAPrime(row);
    PopulateAPrimePrime(row);
    XorRoundConstant(row);
  }

  /** The first loop of `generate_trace_rows_for_perm`: a zero row with
      bit z of input limb x * 5 + y written into A[x, y, z]. */
  method WriteInput(input: Input) returns (first: array<Felt>)
    ensures fresh(first) && first[..] == InitialRow(input)
  {
    first := new Felt[NUM_REGISTERS](i => 0);
    ghost var s := InitialRow(input);
    for x := 0 to 5
      invariant forall i :: 0 <= i < NUM_REGISTERS ==>
        first[i] == if START_A <= i < START_A + 320 * x then s[i] else 0
    {
      for y := 0 to 5
        invariant forall i :: 0 <= i < NUM_REGISTERS ==>
          first[i] == if START_A <= i < START_A + 320 * x + 64 * y then s[i] else 0
      {
        var inputXY := input[x * 5 + y];
        for z := 0 to 64
          invariant forall i :: 0 <= i < NUM_REGISTERS ==>
            first[i] == if START_A <= i < START_A + 320 * x + 64 * y + z then s[i] else 0
        {
          RegACoords(x, y, z);
          first[RegA(x, y, z)] := FromCanonical(LaneBit(inputXY, z));
        }
      }
    }
    assert first[..] == s;
  }

  /** `generate_trace_rows_for_perm`: writes the input bits into row 0 and
      runs the round function on each of the 24 rows. */
  method GenerateTraceRowsForPerm(input: Input) returns (rows: seq<Row>)
    ensures rows == PermRows(input)
  {
    ghost var all := PermRows(input);
    var first := WriteInput(input);
    GenerateTraceRowsForRound(first, 0);
    rows := [first[..]];
    assert rows == all[..1];
    for round := 1 to NUM_ROUNDS
      invariant rows == all[..round]
    {
      var row := new Felt[NUM_REGISTERS](i => 0);
      assert row[..] == ZeroRow();
      GenerateTraceRowsForRound(row, round);
      assert row[..] == all[round];
      assert all[..round + 1] == all[..round] + [all[round]];
      rows := rows + [row[..]];
    }
    assert all[..NUM_ROUNDS] == all;
  }

  /** One padding row: round i % 24 run over a fresh all-zero row. */
  method GeneratePaddingRow(i: nat) returns (padding: Row)
    ensures padding == PaddingRow(i)
  {
    var row := new Felt[NUM_REGISTERS](j => 0);
    assert row[..] == ZeroRow();
    GenerateTraceRowsForRound(row, i % NUM_ROUNDS);
    PaddingRowIsRound(i);
    padding := row[..];
  }

  /** `generate_trace_rows`: the permutation rows of every input, then padding
      rows up to the next power of two. */
  method GenerateTraceRows(inputs: seq<Input>) returns (rows: seq<Row>)
    ensures rows == TraceRows(inputs)
  {
    var numRows := NextPowerOfTwo(|inputs| * NUM_ROUNDS);
    rows := [];
    for k := 0 to |inputs|
      invariant rows == PermBlocks(inputs[..k])
    {
      var perm := GenerateTraceRowsForPerm(inputs[k]);
      assert inputs[..k + 1][..k] == inputs[..k];
      rows := rows + perm;
    }
    assert inputs[..|inputs|] == inputs;
    var n := |rows|;
    for i := n to numRows
      invariant rows == PermBlocks(inputs) + Padding(n, i)
    {
      var row := GeneratePaddingRow(i);
      PaddingAppend(n, i);
      rows := rows + [row];
    }
  }
}
