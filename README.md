# Keccak trace generation and register layouts, in Dafny

This project models three pieces of the plonky2 Keccak STARK and the
system_zero register layout, and proves properties about each.

- **The layout of one Keccak trace row** (`keccak/src/registers.rs`). A row
  holds 3914 field elements in six consecutive regions:
  - 24 round flags;
  - the state A (5×5×64 bits);
  - the θ columns C_partial and C (5×64 bits each);
  - A′ (5×5×64 bits);
  - A″ as 25 lo/hi pairs of 32-bit limbs.

  B has no registers of its own. `reg_b` is an alias into A′ through the
  rotation table `R`, and the model proves it is a bijection from 5×5×64
  onto A′. Module `KeccakRegisters`.
- **The trace generator** (`keccak/src/keccak.rs`, the three
  `generate_trace_rows*` functions). It is modelled in two layers.
  - Module `KeccakRound` is pure. It defines the round function on a row,
    stage by stage (`ThetaC`, `APrimeStage`, `ChiStage`, `IotaStub`, and
    `Round` composing them). The lemmas state what each register holds
    afterwards.
  - Module `KeccakTrace` is imperative, like the source. The round function
    works in place on an `array<Felt>` row, one method per commented
    section of `generate_trace_rows_for_round`, and each method is proved
    to compute its stage function.
  - `generate_trace_rows_for_perm` and `generate_trace_rows` build the rows
    in loops. They are proved equal to the functions `PermRows` and
    `TraceRows`, whose shape (length, round flags, where the inputs
    appear) is proved as lemmas.
- **The system_zero memory columns** (`system_zero/src/registers/memory.rs`):
  sixteen consecutive column indices from `START_MEMORY`. Module
  `SystemZeroMemory`.

Supporting modules:
- `PowersOfTwo`: 2^n and `usize::next_power_of_two`.
- `KeccakLogic`: bits, Goldilocks field elements, `xor`/`andn`, the
  double-and-add limb fold, and u64 XOR.

Field elements are integers in [0, p) with p = 2^64 − 2^32 + 1 (type
`Felt`). Bits are the field elements 0 and 1. `(w >> z) & 1` on a u64 is
`(w / 2^z) % 2`.

The model follows the code as written:
- θ reads the rotated neighbour column at `C[(x + 1) % 5, (z + 1) % 64]`
  (keccak/src/keccak.rs:109). The constraint code in the same file uses the
  same index, so the generator and its constraints agree. Section 3.2.1 of
  FIPS 202 writes the neighbour as C[x + 1, z − 1].
- Rows 1..23 of a permutation start from an all-zero row rather than from
  the previous round's output (keccak/src/keccak.rs:78-81). `PermRowsShape`
  proves that each such row is therefore all zero except its round flag.
- The rotation table `R` (keccak/src/registers.rs:9-15) is not the ρ
  offset table r of section 3.2.2 of FIPS 202 in the same layout. Row x of R
  holds r[x][0], r[x][4], r[x][3], r[x][2], r[x][1], so `R[x][j]` is
  r[x][(5 − j) % 5]; for example `R[0][1]` is 18 where r[0][1] is 36. `reg_b`
  also reads A′ at `z + R` (keccak/src/registers.rs:63), where ρ reads at
  z − r. The model uses R and `z + R` as written.
- The round constant is the literal 0 (keccak/src/keccak.rs:143-144), so the
  ι step changes nothing (`IotaStubIsIdentity`).
- The model states the generator's behaviour in the code's own indexing. It
  does not claim equivalence with Keccak-f[1600] as FIPS 202 defines it.

## Model

| member | source | states |
|---|---|---|
| PowersOfTwo.NextPowerOfTwo | keccak/src/keccak.rs:46 | the result is a power of two, at least n, and half of it is below n unless it is 1 |
| PowersOfTwo.NextPowerOfTwoIsLeast | keccak/src/keccak.rs:46 | no power of two that is at least n is smaller than NextPowerOfTwo(n) |
| PowersOfTwo.NextPowerOfTwoOfSmall | keccak/src/keccak.rs:46 | 0 and 1 both round up to 1, as `usize::next_power_of_two` does |
| KeccakLogic.FromCanonical | keccak/src/keccak.rs:72 | `F::from_canonical_u64` takes a u64 below p to the field element of the same value |
| KeccakLogic.Xor | keccak/src/keccak.rs:93-94 | the xor of two bits is 1 exactly when they differ |
| KeccakLogic.XorAll | keccak/src/keccak.rs:93-94 | n-ary `xor` of bits is the parity of the number of 1s among them |
| KeccakLogic.XorAllAppend | keccak/src/keccak.rs:93-94 | xor over a concatenation is the xor of the two parts' xors, so chaining C_partial into C is one 5-way xor |
| KeccakLogic.Andn | keccak/src/keccak.rs:122 | `andn(a, b)` is 1 exactly when a is 0 and b is 1 |
| KeccakLogic.PackBits | keccak/src/keccak.rs:126-131 | the `(lo..hi).rev().fold(F::ZERO, acc.double() + bit)` fold over a sequence of bits; PackBitsIsLimbValue states its value |
| KeccakLogic.PackBitsIsLimbValue | keccak/src/keccak.rs:126-131 | the double-and-add field fold over at most 32 bits equals their binary value, which is below 2^32 and so never wraps modulo p |
| KeccakLogic.LimbValueFitsU32 | keccak/src/keccak.rs:126-131 | the binary value of at most 32 bits is below 2^|bits|, and so below 2^32 |
| KeccakLogic.LaneBit | keccak/src/keccak.rs:72 | `(input_xy >> z) & 1` is bit z of the word; LaneBitsRecompose and LaneBitsOfWord state that these bits give the word back |
| KeccakLogic.LaneBitsOfWord | keccak/src/keccak.rs:70-72 | the 64 bits `(w >> z) & 1` of a u64, read back as a binary number, give w |
| KeccakLogic.LaneBitsRecompose | keccak/src/keccak.rs:71-72 | the first n bits `(w >> z) & 1`, read back as a binary number, give w mod 2^n |
| KeccakLogic.U64Xor | keccak/src/keccak.rs:145-146 | `w ^ 0 == w`, the result is at most the sum of the operands, and its low bit is the xor of theirs |
| KeccakLogic.U64XorBit | keccak/src/keccak.rs:145-146 | bit k of `a ^ b` is the xor of bit k of a and bit k of b, for every k |
| KeccakLogic.U64XorBound | keccak/src/keccak.rs:145-146 | operands below 2^n give a result below 2^n |
| KeccakLogic.U64XorIsU64 | keccak/src/keccak.rs:145-146 | the xor of two u64 values is a u64 |
| KeccakRegisters.RegStep | keccak/src/registers.rs:4-7 | the flag of round i is register i, below the start of A |
| KeccakRegisters.RegA | keccak/src/registers.rs:17-23 | every A register lies in [24, 1624) |
| KeccakRegisters.RegACoords | keccak/src/registers.rs:17-23 | decoding a register of A gives back its (x, y, z) |
| KeccakRegisters.RegAOnto | keccak/src/registers.rs:17-23 | every register in [24, 1624) is `reg_a` of its decoded coordinates |
| KeccakRegisters.RegAInjective | keccak/src/registers.rs:17-23 | `reg_a` gives equal registers exactly for equal coordinates |
| KeccakRegisters.RegCPartial | keccak/src/registers.rs:25-29 | for x < 5 and z < 64 the register lies in [1624, 1944); no bound is demanded of the arguments |
| KeccakRegisters.RegCPartialCoords | keccak/src/registers.rs:25-29 | decoding a C_partial register gives back its (x, z) |
| KeccakRegisters.RegCPartialInjective | keccak/src/registers.rs:25-29 | on x < 5, z < 64, `reg_c_partial` gives equal registers exactly for equal coordinates |
| KeccakRegisters.RegC | keccak/src/registers.rs:31-35 | for x < 5 and z < 64 the register lies in [1944, 2264); no bound is demanded of the arguments |
| KeccakRegisters.RegCCoords | keccak/src/registers.rs:31-35 | decoding a C register gives back its (x, z) |
| KeccakRegisters.RegCInjective | keccak/src/registers.rs:31-35 | on x < 5, z < 64, `reg_c` gives equal registers exactly for equal coordinates |
| KeccakRegisters.RegAPrime | keccak/src/registers.rs:40-48 | every A′ register lies in [2264, 3864) |
| KeccakRegisters.RegAPrimeCoords | keccak/src/registers.rs:40-48 | decoding an A′ register gives back its (x, y, z) |
| KeccakRegisters.RegAPrimeOnto | keccak/src/registers.rs:40-48 | every register in [2264, 3864) is `reg_a_prime` of its decoded coordinates |
| KeccakRegisters.RegAPrimeInjective | keccak/src/registers.rs:40-48 | `reg_a_prime` gives equal registers exactly for equal coordinates |
| KeccakRegisters.Rot | keccak/src/registers.rs:9-15 | every rotation amount `R[a][b]` is below 64 |
| KeccakRegisters.RotationTableBound | keccak/src/registers.rs:9-15 | `R` is 5×5 and every entry is a proper shift modulo 64 |
| KeccakRegisters.RegB | keccak/src/registers.rs:50-64 | a B coordinate names a register inside A′ |
| KeccakRegisters.RegBAt | keccak/src/registers.rs:50-64 | B[x, y, z] is the A′ register at x′ = (x + 3y) % 5, y′ = x, z′ = (z + R[x′][y′]) % 64 |
| KeccakRegisters.BCoordsAt | keccak/src/registers.rs:50-64 | the B coordinate of the A′ register (a, b, w) is (b, 2(a − b) mod 5, (w − R[a][b]) mod 64) |
| KeccakRegisters.RegBCoords | keccak/src/registers.rs:50-64 | `BCoords` inverts `reg_b`: no two B coordinates alias the same A′ register |
| KeccakRegisters.RegBOnto | keccak/src/registers.rs:50-64 | every A′ register is aliased by the B coordinate `BCoords` gives for it |
| KeccakRegisters.RegBInjective | keccak/src/registers.rs:50-64 | `reg_b` gives equal registers exactly for equal coordinates |
| KeccakRegisters.RegAPrimePrime | keccak/src/registers.rs:66-73 | the lo limb and lo + 1 lie in [3864, 3914) and lo is at an even offset from 3864 |
| KeccakRegisters.RegAPrimePrimeCoords | keccak/src/registers.rs:66-73 | decoding the lo register gives (x, y, lo) and lo + 1 gives (x, y, hi) |
| KeccakRegisters.RegAPrimePrimePairsDisjoint | keccak/src/registers.rs:66-73 | distinct lanes get distinct lo registers, and no hi register is another lane's lo |
| KeccakRegisters.RegionsAreConsecutive | keccak/src/registers.rs:17-75 | the six regions start at 0, 24, 1624, 1944, 2264 and 3864, each where the one before ends, and NUM_REGISTERS is 3914 |
| KeccakRound.ZeroRow | keccak/src/keccak.rs:54 | `[F::ZERO; NUM_REGISTERS]` is a row the round function accepts |
| KeccakRound.CPartialBit | keccak/src/keccak.rs:92-93 | `c_partial = xor([a[0], a[1], a[2]])` for column (x, z); ThetaCColumn states where it lands |
| KeccakRound.CBit | keccak/src/keccak.rs:92-94 | `c = xor([c_partial, a[3], a[4]])` for column (x, z); ThetaCColumn proves it is the xor of the whole column |
| KeccakRound.ThetaC | keccak/src/keccak.rs:89-98 | the C stage writes only C_partial and C, and leaves A through C holding bits |
| KeccakRound.ThetaCAtCoords | keccak/src/keccak.rs:89-98 | C_partial[x, z] and C[x, z] land in their own registers |
| KeccakRound.ThetaCColumn | keccak/src/keccak.rs:92-94 | after the C stage, C_partial[x, z] is the xor of A[x, 0..3, z], and C[x, z] is the xor of C_partial[x, z] with A[x, 3, z] and A[x, 4, z], which is the xor of the whole column |
| KeccakRound.APrimeBit | keccak/src/keccak.rs:106-110 | A′[x, y, z] = xor(A[x, y, z], C[(x + 4) % 5, z], C[(x + 1) % 5, (z + 1) % 64]); RoundAPrime states it of the finished row |
| KeccakRound.APrimeStage | keccak/src/keccak.rs:100-113 | the A′ stage writes only A′, and leaves A through A′ holding bits |
| KeccakRound.APrimeStageAtCoords | keccak/src/keccak.rs:100-113 | A′[x, y, z] lands in its own register |
| KeccakRound.ChiBit | keccak/src/keccak.rs:119-124 | the `get_bit(z)` closure: xor(B[x, y, z], andn(B[x + 1, y, z], B[x + 2, y, z])) read through `reg_b`; ChiBitsFrame states that it reads A′ only |
| KeccakRound.ChiLimb | keccak/src/keccak.rs:126-131 | the lo (limb 0) or hi (limb 1) fold of `get_bit` over 32 bits; RoundChi states its binary value |
| KeccakRound.ChiStage | keccak/src/keccak.rs:115-138 | the χ stage writes only the A″ limbs |
| KeccakRound.ChiStageAtCoords | keccak/src/keccak.rs:115-138 | the lo and hi folds of lane (x, y) land in `reg_lo` and `reg_lo + 1` |
| KeccakRound.PackChiBitsStep | keccak/src/keccak.rs:126-131 | one step of the reversed fold doubles the accumulator and adds the next lower bit |
| KeccakRound.ChiBitsFrame | keccak/src/keccak.rs:119-124 | `get_bit` reads only the A′ region |
| KeccakRound.IotaStub | keccak/src/keccak.rs:140-146 | the ι step keeps the row length |
| KeccakRound.IotaStubIsIdentity | keccak/src/keccak.rs:143-146 | with rc_lo = rc_hi = 0 the ι step leaves the row unchanged |
| KeccakRound.Round | keccak/src/keccak.rs:86-147 | the round function keeps the row length |
| KeccakRound.RoundStages | keccak/src/keccak.rs:86-147 | the round function is flag, then C, then A′, then A″ |
| KeccakRound.RoundFrame | keccak/src/keccak.rs:86-147 | afterwards `row[round]` is 1, every other flag and every A register is unchanged, and A through A′ hold bits |
| KeccakRound.RoundKeepsA | keccak/src/keccak.rs:86-147 | the round function leaves each A register as it was |
| KeccakRound.RoundKeepsThetaC | keccak/src/keccak.rs:86-98 | below A′, the round's output is the C stage of the flagged row |
| KeccakRound.RoundKeepsAPrime | keccak/src/keccak.rs:100-138 | on A′, the round's output is the A′ stage of the C stage; the χ stage does not overwrite A′ |
| KeccakRound.RoundAPrimeOfStage | keccak/src/keccak.rs:100-113 | A′[x, y, z] after the round is the A′ bit computed from the C stage |
| KeccakRound.RoundTheta | keccak/src/keccak.rs:89-98 | C_partial[x, z] is A[x,0,z] ⊕ A[x,1,z] ⊕ A[x,2,z]; C[x, z] is C_partial[x, z] ⊕ A[x,3,z] ⊕ A[x,4,z], the xor of the whole column |
| KeccakRound.RoundAPrime | keccak/src/keccak.rs:100-113 | A′[x, y, z] is A[x, y, z] ⊕ C[(x+4)%5, z] ⊕ C[(x+1)%5, (z+1)%64], read from the finished row |
| KeccakRound.RoundChi | keccak/src/keccak.rs:115-138 | lo is Σ_{z<32} bit(z)·2^z and hi is Σ_{z<32} bit(32+z)·2^z, with bit(z) = B[x,y,z] ⊕ andn(B[x+1,y,z], B[x+2,y,z]); both are below 2^32 |
| KeccakRound.PackZeroBits | keccak/src/keccak.rs:126-131 | folding zero bits gives 0 |
| KeccakRound.ThetaCOfZero | keccak/src/keccak.rs:89-98 | on a row that is zero from A on, the C stage writes zeros and changes nothing |
| KeccakRound.ThetaCAtOfZero | keccak/src/keccak.rs:89-98 | on a row that is zero from A on, each register of the C stage is the register as it was |
| KeccakRound.APrimeOfZero | keccak/src/keccak.rs:100-113 | on a row that is zero from A on, the A′ stage writes zeros and changes nothing |
| KeccakRound.APrimeAtOfZero | keccak/src/keccak.rs:100-113 | on a row that is zero from A on, each register of the A′ stage is the register as it was |
| KeccakRound.ChiOfZero | keccak/src/keccak.rs:115-138 | on a row that is zero from A on, the χ stage writes zero limbs and changes nothing |
| KeccakRound.ChiBitOfZero | keccak/src/keccak.rs:119-124 | on a row that is zero from A on, `get_bit(z)` is 0 |
| KeccakRound.ChiLimbOfZero | keccak/src/keccak.rs:126-131 | on a row that is zero from A on, both limb folds of a lane are 0 |
| KeccakRound.ZeroRound | keccak/src/keccak.rs:86-147 | on an all-zero row the round function only raises the round flag |
| KeccakTrace.InitialRow | keccak/src/keccak.rs:66-75 | row 0 before its round holds bits in A, and zero in the flags and past A |
| KeccakTrace.InitialRowHoldsInput | keccak/src/keccak.rs:68-75 | lane (x, y) of A, read as a binary number, is `input[x * 5 + y]` |
| KeccakTrace.PermRows | keccak/src/keccak.rs:62-84 | a permutation has 24 rows |
| KeccakTrace.PermRowsShape | keccak/src/keccak.rs:77-83 | row r has exactly flag r set, and rows 1..23 are zero apart from their flag |
| KeccakTrace.RoundKeepsLane | keccak/src/keccak.rs:86-147 | a round leaves every lane of A unchanged |
| KeccakTrace.PermRowsHoldInput | keccak/src/keccak.rs:66-83 | after round 0, row 0 still holds the input in A |
| KeccakTrace.PermBlocks | keccak/src/keccak.rs:48-51 | the blocks have 24 rows per input |
| KeccakTrace.PermBlocksAt | keccak/src/keccak.rs:48-51 | row 24·p + r of the blocks is row r of input p's permutation, in input order |
| KeccakTrace.BlockRowFlags | keccak/src/keccak.rs:48-51 | each block row i is well formed and has exactly flag i % 24 set |
| KeccakTrace.Padding | keccak/src/keccak.rs:53-57 | the padding has one row per index from `rows.len()` to `num_rows` |
| KeccakTrace.PaddingRowIsRound | keccak/src/keccak.rs:53-57 | padding row i is what round i % 24 makes of an all-zero row, and that is the zero row with only flag i % 24 set |
| KeccakTrace.PaddingAppend | keccak/src/keccak.rs:53-57 | each step of the padding loop pushes padding row i |
| KeccakTrace.PaddingRow | keccak/src/keccak.rs:54-56 | the row pushed for padding index i; PaddingRowIsRound proves it is round i % 24 applied to `[F::ZERO; NUM_REGISTERS]` |
| KeccakTrace.TraceRows | keccak/src/keccak.rs:45-60 | the rows `generate_trace_rows` returns: at least 24·|inputs| of them, and exactly `(24·|inputs|).next_power_of_two()` |
| KeccakTrace.TraceRowsLength | keccak/src/keccak.rs:46 | the trace has `(24·|inputs|).next_power_of_two()` rows: a power of two, at least 24·|inputs|, the least such, and 1 for no inputs |
| KeccakTrace.TraceRowsAt | keccak/src/keccak.rs:45-60 | row i of the trace is block row i below 24·|inputs|, and padding row i from there on |
| KeccakTrace.TraceRowFlags | keccak/src/keccak.rs:45-60 | every trace row i is well formed with exactly flag i % 24 set |
| KeccakTrace.TraceHoldsInputs | keccak/src/keccak.rs:45-60 | row 24·p of the trace holds input p in its A lanes |
| KeccakTrace.RoundFlagsOneHot | keccak/src/keccak.rs:87 | a row with no flag set comes out of round r with exactly flag r set |
| KeccakTrace.FillColumn | keccak/src/keccak.rs:91-97 | one C iteration writes C_partial[x, z] and C[x, z] as the C stage has them, and nothing else |
| KeccakTrace.PopulateC | keccak/src/keccak.rs:89-98 | the C loops leave the row equal to `ThetaC` of the row before |
| KeccakTrace.FillAPrimeBit | keccak/src/keccak.rs:105-110 | one A′ iteration writes A′[x, y, z] as the A′ stage has it, and nothing else |
| KeccakTrace.PopulateAPrime | keccak/src/keccak.rs:100-113 | the A′ loops leave the row equal to `APrimeStage` of the row before |
| KeccakTrace.FoldLimb | keccak/src/keccak.rs:126-131 | `(lo..hi).rev().fold(ZERO, acc.double() + get_bit(z))` packs bits lo..hi of the χ lane |
| KeccakTrace.ChiLane | keccak/src/keccak.rs:117-134 | the lo and hi folds of lane (x, y) are the χ stage's limbs for it, both below 2^32 |
| KeccakTrace.ChiLaneFrame | keccak/src/keccak.rs:119-124 | a lane's limbs depend on the A′ region alone, so writing earlier limbs does not change them |
| KeccakTrace.PopulateAPrimePrime | keccak/src/keccak.rs:115-138 | the A″ loops leave the row equal to `ChiStage` of the row before |
| KeccakTrace.XorRoundConstant | keccak/src/keccak.rs:140-146 | the ι step leaves the row equal to `IotaStub` of the row before |
| KeccakTrace.GenerateTraceRowsForRound | keccak/src/keccak.rs:86-147 | the in-place round function leaves the row equal to `Round` of the row before |
| KeccakTrace.WriteInput | keccak/src/keccak.rs:66-75 | the input loops turn a fresh zero row into `InitialRow(input)` |
| KeccakTrace.GenerateTraceRowsForPerm | keccak/src/keccak.rs:62-84 | the rows built are `PermRows(input)` |
| KeccakTrace.GeneratePaddingRow | keccak/src/keccak.rs:54-55 | a fresh zero row run through round i % 24 is padding row i |
| KeccakTrace.GenerateTraceRows | keccak/src/keccak.rs:45-60 | the rows built are `TraceRows(inputs)` |
| SystemZeroMemory.MemoryAddrContext | system_zero/src/registers/memory.rs:3 | MEMORY_ADDR_CONTEXT is START_MEMORY |
| SystemZeroMemory.MemoryAddrSegment | system_zero/src/registers/memory.rs:4 | offset 1 from START_MEMORY |
| SystemZeroMemory.MemoryAddrVirtual | system_zero/src/registers/memory.rs:5 | offset 2 |
| SystemZeroMemory.MemoryFrom | system_zero/src/registers/memory.rs:6 | offset 3 |
| SystemZeroMemory.MemoryTo | system_zero/src/registers/memory.rs:7 | offset 4 |
| SystemZeroMemory.MemoryTimestamp | system_zero/src/registers/memory.rs:8 | offset 5 |
| SystemZeroMemory.SortedMemoryAddrContext | system_zero/src/registers/memory.rs:10 | offset 6 |
| SystemZeroMemory.SortedMemoryAddrSegment | system_zero/src/registers/memory.rs:11 | offset 7 |
| SystemZeroMemory.SortedMemoryAddrVirtual | system_zero/src/registers/memory.rs:12 | offset 8 |
| SystemZeroMemory.SortedMemoryFrom | system_zero/src/registers/memory.rs:13 | offset 9 |
| SystemZeroMemory.SortedMemoryTo | system_zero/src/registers/memory.rs:14 | offset 10 |
| SystemZeroMemory.SortedMemoryTimestamp | system_zero/src/registers/memory.rs:15 | offset 11 |
| SystemZeroMemory.MemoryTraceContext | system_zero/src/registers/memory.rs:17 | offset 12 |
| SystemZeroMemory.MemoryTraceSegment | system_zero/src/registers/memory.rs:18 | offset 13 |
| SystemZeroMemory.MemoryTraceVirtual | system_zero/src/registers/memory.rs:19 | offset 14 |
| SystemZeroMemory.MemoryCurrent | system_zero/src/registers/memory.rs:20 | offset 15 |
| SystemZeroMemory.End | system_zero/src/registers/memory.rs:22 | END is START_MEMORY + 16 |
| SystemZeroMemory.Columns | system_zero/src/registers/memory.rs:3-20 | the unit has sixteen columns |
| SystemZeroMemory.ColumnsConsecutive | system_zero/src/registers/memory.rs:3-22 | column i is START_MEMORY + i, and END is START_MEMORY plus the number of columns |
| SystemZeroMemory.ColumnsDistinctInRange | system_zero/src/registers/memory.rs:3-22 | the sixteen columns are pairwise distinct and all lie in [START_MEMORY, END) |
| SystemZeroMemory.SortedFollowsUnsorted | system_zero/src/registers/memory.rs:3-15 | each SORTED_MEMORY_* column is its unsorted counterpart plus 6 |

## Left out

- The constraint side of the Keccak STARK is not modelled: `eval_packed_generic`, `eval_ext_recursively`, `constraint_degree` and `generate_trace`. It is built on constraint consumers, packed fields, a circuit builder and `trace_rows_to_poly_values`, none of which is part of this model.
- The `info!` log line and the timing tree are output only and are left out.
- `crate::logic` (`xor`, `andn`) and `GoldilocksField` are not part of this model. `xor` and `andn` are modelled on field elements that are 0 or 1: `xor` is the parity of its inputs, and `andn(a, b)` is (not a) and b. `from_canonical_u64` is the identity below p, and the field's `double` and `+` are integer arithmetic modulo p.
- KeccakRound.WellFormed: the round function is required to start from a row whose A registers hold bits. `xor` and `andn` are only specified on bits, and both callers supply such rows (a zero row, or the bits of an input).
- PowersOfTwo.NextPowerOfTwo: does not model the overflow of `usize::next_power_of_two` when 24·|inputs| exceeds 2^63. Integers here are unbounded.
- SystemZeroMemory.MemoryAddrContext: START_MEMORY is defined in a register module that is not part of this model, so every memory column is a function of it as a parameter. usize overflow past START_MEMORY + 16 is not modelled.
- The other memory constants used by `system_zero/src/memory.rs` (`MEMORY_VALUE`, `MEMORY_TRACE`) are not defined in the register file and are left out, together with that file's stubs.
- KeccakTrace.GenerateTraceRowsForPerm: the source's fixed `[[F; NUM_REGISTERS]; 24]` block is modelled as 24 separately allocated rows collected into a sequence. The rows never alias, so nothing about the values is lost.
- The `rows` vector of `generate_trace_rows` is modelled as a sequence of row values: it is only extended and pushed onto, never updated in place.
- KeccakTrace.WriteInput: the first loop of `generate_trace_rows_for_perm` is its own method here. The sections of `generate_trace_rows_for_round` are split the same way (PopulateC with FillColumn, PopulateAPrime with FillAPrimeBit, PopulateAPrimePrime with ChiLane and FoldLimb, XorRoundConstant), and so is one iteration of the padding loop (GeneratePaddingRow). The statements and their order are unchanged.
- The model does not prove that the round function computes Keccak-f[1600] as FIPS 202 defines it. The round constant is still 0, the rows are not chained, and the θ neighbour, the rotation table and the direction of the rotation are used as the code writes them.
- `fri_soundness.py` (a floating-point soundness estimate using square roots and fractional powers), `plonky2/src/fri/prover.rs`, `evm/src/get_challenges.rs`, `keccak/examples/bench_keccak.rs` and `src/gates/mod.rs` are outside the modelled core.
