# Dafny model of a zk-provable EVM operating system

This project models the arithmetic, execution and accounting core of the system and proves what it is for. Word
sizes, moduli, group, hashes and input/output costs are parameters wherever the code does not depend on their value.

* **Modular exponentiation** (`Digits`, `Words`, `Rows`, `Monpro`, `Monsq`, `ModInv`, `RModN`, `WrappingMul`, `InPlace`,
  `Division`, `Mpnat`, `ModpowOdd`, `ModpowEven`, `Modpow`, `Modexp`): digit arrays updated in place refine plain integer
  arithmetic, up to `base^exp mod modulus` on byte strings for every input.
* **Coprocessor arithmetic** (`Delegation`, `U256`, `U512`): words are mutable objects and operations are sequences over
  reused scratch words, so that register reuse and aliasing are part of the proofs. The word radix, `2^256` in the
  system, is the parameter `w`.
* **Scalars and curves** (`Wnaf`, `Group`, `EcMult`, `Glv`, `K1Scalars`, `K1`, `Ecdsa`): recoding, lattice splitting and
  interleaved multiplication over an arbitrary abelian group, and what verification and recovery compute with them.
* **Interpreter** (`BitMap`, `JumpTable`, `Resources`, `Memory`, `Interpreter`): jump destinations, control
  flow on every run, and memory gas.
* **Call machine** (`CallSpec`, `CallJournal`, `CallProps`, `CallSupply`, `CallFaults`, `CallMachine`): a value semantics
  of call trees with hooks, deployments, self-destructs and two kinds of fatal errors; a second semantics that never
  undoes anything but collects committed events, and the proof that they agree; further properties; and the runner with
  snapshots and handles that refines the first. `burned` in a world records what left circulation, and nothing reads it.
* **Bootloader** (`L1Transaction`, `L2Fees`, `BlockLoop`, `BlockSupply`): deposits, fees and refunds, the block loop, and
  the supply of tokens over a block. A ghost parameter `sem` names what a root call does as a function of world and
  resources; it is required to be the call-tree semantics and nothing else.
* **Oracle and hashing** (`Oracle`, `Rlp`, `BlockHeader`): the 32/64-bit word protocol and streaming RLP.

Points where code and documentation differ, or where a claim needs a condition, are stated as the code has them:

* two-word negation skips values with one zero word (`TwoLimb.NegModExact`);
* a shift of digits by zero is right only for zero (`InPlace.ShiftByZero`);
* the last 32-bit step of window 31 in the recoding relies on wrapping (`Wnaf.WrapExact`);
* call trees do burn tokens, by withdrawals and by self-destructs to oneself (`CallSupply.WithdrawalBurns`,
  `CallSupply.DestructBurns`), so conservation counts what is burned;
* an internal error in a hook or in code ends a transaction without settling it (`L1Transactions.FaultyDeposit`), so
  completion is stated for sound trees;
* the unchecked pubdata charge before a refund is modelled with wrapping subtraction (`L1Transactions.RefundWraps`); what
  was used and what is left are what was bought exactly while the charge is covered.

## Model

| member | source | states |
|---|---|---|
| `Words.ShiftedCarryingMul` | supporting_crates/modexp/src/arith.rs:382-385 | `a + x*y + c` of four words is exactly low word plus base times carry, and fits two words |
| `Words.CarryingMul` | supporting_crates/modexp/src/arith.rs:391-394 | `x*y + c` split exactly into low word and carry |
| `Words.CarryingAdd` | supporting_crates/modexp/src/arith.rs:397-401 | two words and a carry bit, split exactly into sum and carry out |
| `Words.BorrowingSub` | supporting_crates/modexp/src/arith.rs:404-408 | difference of two words and a borrow bit, with the borrow out |
| `Words.SubtractInPlace` | supporting_crates/modexp/src/arith.rs:75-80 | digit-wise subtraction in place: value minus subtrahend, with the final borrow |
| `Montgomery.Monpro` | supporting_crates/modexp/src/arith.rs:16-85 | for odd `n` (negated inverse `n'` of its low word), zeroed output of s+2 words and `x*y < b^s * n`: the result is below `n` and `result * b^s` is congruent to `x*y`; every carry fits and one subtraction suffices |
| `Montgomery.MulAddRow` | supporting_crates/modexp/src/arith.rs:36-49 | first half of an outer iteration: the buffer grows by one digit of `y` times `x` |
| `Montgomery.ReduceRow` | supporting_crates/modexp/src/arith.rs:50-61 | second half: the buffer plus `m*n` loses its zero low word, exactly a division by the base |
| `Montgomery.FinalSubtraction` | supporting_crates/modexp/src/arith.rs:66-84 | a value below `2n` becomes its residue with at most one subtraction |
| `MontgomerySquare.BigSq` | supporting_crates/modexp/src/arith.rs:274-306 | zeroed words become exactly `x*x`, no carry lost in any row |
| `MontgomerySquare.DoubledStep` | supporting_crates/modexp/src/arith.rs:285-300 | twice a product plus two words, through three overflow flags, split exactly into digit and double-width carry |
| `MontgomerySquare.PropagateCarry` | supporting_crates/modexp/src/arith.rs:113-119 | the `while c > 0` loop adds its carry exactly and never reaches the word that bounds the sum |
| `MontgomerySquare.ReductionRow` | supporting_crates/modexp/src/arith.rs:104-120 | one reduction row adds `m*n*b^i`, clears word i and leaves the words below it alone |
| `MontgomerySquare.Monsq` | supporting_crates/modexp/src/arith.rs:88-146 | for `x*x < b^s * n` the result is below `n` and `result * b^s` is congruent to `x*x` |
| `MontgomerySquare.SquareAgreesWithProduct` | supporting_crates/modexp/src/arith.rs:88-146 | `monsq(x)` and `monpro(x, x)` leave the same digits for every `x < n` |
| `WordInverse.ModInv` | supporting_crates/modexp/src/arith.rs:150-168 | for every odd word and word size, the bit-doubling loop returns the inverse modulo the base |
| `WordInverse.NegInverse` | supporting_crates/modexp/src/mpnat.rs:347-347 | `n'` satisfies `n[0] * n' + 1` divisible by the base |
| `RadixResidue.ComputeRModN` | supporting_crates/modexp/src/arith.rs:177-224 | exactly `b^k mod n` for every odd `n` with nonzero top digit, in at most two attempts |
| `RadixResidue.EstimateBounds` | supporting_crates/modexp/src/arith.rs:193-199 | the two-digit quotient estimate is never too small and at most one too large |
| `RadixResidue.OddNeverDivides` | supporting_crates/modexp/src/arith.rs:187-187 | an odd divisor of a power of two is one, so for larger odd moduli the quotient leaves a remainder |
| `WrappingArith.BigWrappingMul` | supporting_crates/modexp/src/arith.rs:256-271 | the product modulo `b^k` for an output of k words, whatever the operand lengths |
| `WrappingArith.BigWrappingPow` | supporting_crates/modexp/src/arith.rs:227-253 | `base^exp` modulo `b^k`, for every big-endian exponent |
| `InPlace.InPlaceShl` | supporting_crates/modexp/src/arith.rs:309-318 | value times `2^shift`, with the bits shifted out; a shift by zero mixes every digit into the next |
| `InPlace.InPlaceShr` | supporting_crates/modexp/src/arith.rs:321-330 | value divided by `2^shift`, with the remainder in the returned word; a shift by zero mixes every digit into the one below |
| `InPlace.ShiftByZero` | supporting_crates/modexp/src/arith.rs:309-330 | a shift by zero leaves the number alone, with nothing shifted out, if and only if the number is zero |
| `InPlace.OrDisjoint` | supporting_crates/modexp/src/arith.rs:314-314 | in every other shift the `|` of digit and carry is an addition |
| `InPlace.InPlaceAdd` | supporting_crates/modexp/src/arith.rs:333-344 | window plus addend, exactly, with the final carry |
| `InPlace.InPlaceMulSub` | supporting_crates/modexp/src/arith.rs:347-376 | window minus `y*x`, exactly, with the final borrow word |
| `LongDivision.TrialQuotient` | supporting_crates/modexp/src/mpnat.rs:553-572 | the corrected estimate is the largest digit whose product with the two leading divisor digits does not exceed the three leading digits |
| `LongDivision.QuotientBounds` | supporting_crates/modexp/src/mpnat.rs:553-583 | the trial digit is the true quotient digit or one more |
| `LongDivision.DivideNormalized` | supporting_crates/modexp/src/mpnat.rs:550-597 | the whole loop leaves the remainder of the dividend by the divisor |
| `MultiPrecision.MPNat.ForceSameSize` | supporting_crates/modexp/src/mpnat.rs:446-462 | reduction modulo `b^k` |
| `MultiPrecision.MPNat.SubToSameSize` | supporting_crates/modexp/src/mpnat.rs:469-599 | the result is congruent to the input modulo `other`, has at most as many digits, and is the reduced remainder whenever the input was too large for that many digits |
| `ModularPowerOdd.ModpowMontgomery` | supporting_crates/modexp/src/mpnat.rs:341-408 | for every odd modulus the result is `base^exp mod n` |
| `ModularPowerTwo.ModpowWithPowerOfTwo` | supporting_crates/modexp/src/mpnat.rs:410-440 | for every power of two the result is `base^exp` modulo it, also after the exponent is cut |
| `ModularPowerTwo.ReduceExponent` | supporting_crates/modexp/src/mpnat.rs:422-430 | for odd bases the dropped leading exponent bytes do not change the power |
| `ModularPowerTwo.KocInverse` | supporting_crates/modexp/src/mpnat.rs:50-110 | the inverse of an odd number modulo `2^k` |
| `ModularPower.Factor` | supporting_crates/modexp/src/mpnat.rs:234-265 | an even modulus is a power of two times the odd number returned |
| `ModularPower.Recombine` | supporting_crates/modexp/src/mpnat.rs:292-336 | from residues modulo an odd number and a power of two, `x1 + odd*((x2-x1)*odd^-1 mod 2^k)` is the residue modulo the product |
| `ModularPower.ModpowMixed` | supporting_crates/modexp/src/mpnat.rs:234-336 | `base^exp mod n` for every even modulus that is not a power of two |
| `ModularPower.IsPowerOfTwo` | supporting_crates/modexp/src/mpnat.rs:158-171 | true exactly when one digit is a power of two and all others are zero |
| `ModularPower.SmallPower` | supporting_crates/modexp/src/mpnat.rs:204-221 | when the power cannot reach the modulus, no reduction is needed |
| `ModularPower.Modpow` | supporting_crates/modexp/src/mpnat.rs:179-337 | `base^exp mod n` for every nonzero modulus, every base and every exponent, through all five branches |
| `ModularPower.StripZeroBytes` | supporting_crates/modexp/src/mpnat.rs:37-46 | the bytes after the leading zeros, the same number, and whether all were zero |
| `ByteInterface.FromBigEndian` | supporting_crates/modexp/src/mpnat.rs:112-156 | the digits stand for the big-endian number and have no superfluous leading zero |
| `ByteInterface.ToBigEndian` | supporting_crates/modexp/src/mpnat.rs:601-626 | the bytes stand for the number |
| `ByteInterface.Modexp` | supporting_crates/modexp/src/lib.rs:42-55 | big-endian bytes of `base^exp mod modulus`; empty for modulus zero |
| `Delegation.Add` | crypto/src/bigint_delegation/delegation.rs:121-127 | sum with carry in and out |
| `Delegation.Sub` | crypto/src/bigint_delegation/delegation.rs:128-134 | difference with borrow in and out |
| `Delegation.SubAndNegate` | crypto/src/bigint_delegation/delegation.rs:135-141 | reversed difference with borrow in and out |
| `Delegation.MulLow` | crypto/src/bigint_delegation/delegation.rs:142-147 | low word of the product |
| `Delegation.MulHigh` | crypto/src/bigint_delegation/delegation.rs:148-153 | high word of the product |
| `Delegation.MulWide` | crypto/src/bigint_delegation/u256.rs:74-85 | two copies of a word become the exact double-word product |
| `OneLimb.SubModWithCarry` | crypto/src/bigint_delegation/u256.rs:111-116 | a value below `2m`, bit 256 included, becomes its residue |
| `OneLimb.AddMod` | crypto/src/bigint_delegation/u256.rs:123-126 | the residue of the sum, also when it overflows a word |
| `OneLimb.SubMod` | crypto/src/bigint_delegation/u256.rs:133-138 | the residue of the difference |
| `OneLimb.Statics.DoubleMod` | crypto/src/bigint_delegation/u256.rs:145-149 | the residue of twice the value |
| `OneLimb.Statics.NegMod` | crypto/src/bigint_delegation/u256.rs:156-161 | the residue of the negated value, zero included |
| `OneLimb.Statics.LessThan` | crypto/src/bigint_delegation/u256.rs:187-193 | the borrow of a scratch subtraction decides `<` |
| `OneLimb.Statics.LessOrEqual` | crypto/src/bigint_delegation/u256.rs:195-201 | equality or borrow decides `<=` |
| `OneLimb.Statics.MulMontgomery` | crypto/src/bigint_delegation/u256.rs:263-292 | the fully reduced `a*b*w^-1 mod m` whenever `a*b < m*w`, overflow included; the cleared word is zero |
| `OneLimb.Statics.SquareMontgomery` | crypto/src/bigint_delegation/u256.rs:251-256 | the same for `a*a`, through a scratch copy |
| `OneLimb.Statics.MulBarrett` | crypto/src/bigint_delegation/u256.rs:208-233 | exactly `a*b mod m` for all words when `c = w - m` satisfies `c*(c+1) <= m` |
| `OneLimb.Statics.SquareBarrett` | crypto/src/bigint_delegation/u256.rs:240-245 | the same for `a*a` |
| `TwoLimb.Scratch.MulMontgomery` | crypto/src/bigint_delegation/u512.rs:139-303 | over six reused scratch words: `r < 2p` and `r*w^2` congruent to `a*b`, for every `p` with `4p <= w^2`, constant `-1/p mod w` and `a, b < 2p`; no operand is overwritten early; where `3p < w*h` the high word is below `h`, so with `h = 2^128` its upper half is zero |
| `TwoLimb.Scratch.FirstRow` | crypto/src/bigint_delegation/u512.rs:140-220 | word-level equation of the first row in places 1 and 5, with the carry the source drops |
| `TwoLimb.Scratch.SecondRow` | crypto/src/bigint_delegation/u512.rs:222-300 | word-level equation of the second row in `a`, with the carry the source drops |
| `TwoLimb.Scratch.AddCarries` | crypto/src/bigint_delegation/u512.rs:204-208 | the limb-wise scratch write adds exactly the two carry flags |
| `TwoLimb.FirstRowRoom` | crypto/src/bigint_delegation/u512.rs:213-216 | the first row is below `3p`, so its dropped carry is zero |
| `TwoLimb.Scratch.FirstHalf` | crypto/src/bigint_delegation/u512.rs:140-220 | the first row is exact and, where `3p < w*h`, its high word is below `h`, as the source asserts |
| `TwoLimb.UpperHalves` | crypto/src/bigint_delegation/u512.rs:216-216 | a row of at most `3p` leaves nothing above such an `h` in its high word |
| `TwoLimb.BothRows` | crypto/src/bigint_delegation/u512.rs:139-303 | both rows together stay below `2p`, so the last dropped carry is zero, and keep the residue |
| `TwoLimb.Scratch.SquareMontgomery` | crypto/src/bigint_delegation/u512.rs:311-315 | the same for `a*a`, through a copy |
| `TwoLimb.SubModWithCarry` | crypto/src/bigint_delegation/u512.rs:66-76 | a two-word value below `2m`, carry included, becomes its residue |
| `TwoLimb.AddMod` | crypto/src/bigint_delegation/u512.rs:82-89 | the residue of the sum |
| `TwoLimb.SubMod` | crypto/src/bigint_delegation/u512.rs:95-105 | the residue of the difference |
| `TwoLimb.NegMod` | crypto/src/bigint_delegation/u512.rs:121-131 | the value the guarded negation leaves |
| `TwoLimb.NegModExact` | crypto/src/bigint_delegation/u512.rs:117-131 | the documented negation holds if and only if the value is zero or both its words are nonzero |
| `TwoLimb.NegModSkipsOne` | crypto/src/bigint_delegation/u512.rs:127-127 | one is left unchanged modulo three |
| `Wnaf.Recode` | crypto/src/secp256k1/recover.rs:276-326 | for every window 2..31: digits sum to `s`, or to `-(order - s)` when bit 255 is set, up to a carry times `2^len` that is zero when the recoded scalar is below `2^(len-1)`; nonzero digits are odd, below half the window, a window apart; the returned length ends at the last digit |
| `Wnaf.WriteDigit` | crypto/src/secp256r1/wnaf.rs:45-58 | one window in 32-bit arithmetic: digit and carry keep the value read so far |
| `Wnaf.WrapExact` | crypto/src/secp256r1/wnaf.rs:52-53 | the wrapping 32-bit subtraction is exact, also for window 31 |
| `Wnaf.BitsExtend` | crypto/src/secp256r1/wnaf.rs:50-50 | `bits_var` extends the residue read so far |
| `EcMultiply.OddMultiples` | crypto/src/secp256r1/verify.rs:76-97 | entry i is the `(2i+1)`-fold of the point |
| `EcMultiply.Lookup` | crypto/src/secp256r1/verify.rs:99-105 | every recoded digit is within the table and selects its signed multiple |
| `EcMultiply.RoundAdd` | crypto/src/secp256r1/verify.rs:57-67 | adding one digit of one stream bumps that coefficient |
| `EcMultiply.SuffixSum` | crypto/src/secp256r1/verify.rs:57-67 | the suffix the loop accumulates is the recoded scalar at the end |
| `EcMultiply.EcMultR1` | crypto/src/secp256r1/verify.rs:41-70 | `na*A + ng*G` in every abelian group whose points the order annihilates |
| `EcMultiply.AddDigit` | crypto/src/secp256r1/wnaf.rs:79-86 | adds the digit times the point; a stream has none past its returned length |
| `K1Multiply.LambdaTable` | crypto/src/secp256k1/recover.rs:124-127 | the endomorphism applied to the table gives the odd multiples of `lambda*A` |
| `K1Multiply.FourStreams` | crypto/src/secp256k1/recover.rs:150-181 | four interleaved streams add up to the combination of their scalars |
| `K1Multiply.EcMultK1` | crypto/src/secp256k1/recover.rs:77-181 | `na*A + ng*G` through the endomorphism split and the 128-bit split |
| `K1Multiply.Secp256k1Splits` | crypto/src/secp256k1/scalars/scalar64.rs:30-58 | the constants in use split every scalar into two halves that 129 digits hold |
| `K1Multiply.StreamsOfA` | crypto/src/secp256k1/recover.rs:84-127 | the two streams of the point add up to the scalar times the point |
| `K1Multiply.StreamsOfG` | crypto/src/secp256k1/scalars/scalar64.rs:109-116 | the two streams of the generator add up to the scalar times the generator |
| `K1Scalars.SplitCorrect` | crypto/src/secp256k1/scalars/scalar64.rs:118-134 | for a basis with determinant `order` and rounded scaled quotients: halves recombine to `k` and are within the bound, up to sign |
| `K1Scalars.MulShiftError` | crypto/src/secp256k1/scalars/scalar64.rs:145-156 | the rounded product is within half a unit (and `k/2t`) of the quotient |
| `K1Scalars.ConstantsGood` | crypto/src/secp256k1/scalars/scalar64.rs:30-58 | the constants belong to such a basis, with halves below `2^128` |
| `K1Scalars.NearIsShort` | crypto/src/secp256k1/scalars/scalar64.rs:118-134 | a half within the bound of zero or of the order recodes from below the bound |
| `GlvDecomposition.CheckedMul` | crypto/src/glv_decomposition.rs:170-176 | fails exactly on overflow, else the signed product |
| `GlvDecomposition.CheckedAdd` | crypto/src/glv_decomposition.rs:179-200 | fails exactly on overflow of like signs, else the signed sum |
| `GlvDecomposition.Quotient` | crypto/src/glv_decomposition.rs:154-167 | rounding is off by less than one (and `k/t`), and never exceeds the basis entry |
| `GlvDecomposition.DecomposeCorrect` | crypto/src/glv_decomposition.rs:21-59 | every `k < r` splits without a failing checked step, `k1 + lambda*k2` is congruent to `k`, and each part is bounded by its column sum times `1 + k/t` |
| `GlvDecomposition.SplitCorrect` | crypto/src/glv_decomposition.rs:45-58 | the reduced, signed parts recombine to the scalar, and the reduction changes neither when the columns are short |
| `GlvDecomposition.Bn254Good` | crypto/src/bn254/curves/g1.rs:87-143 | the constants of BN254 span the lattice, leave room, and have short columns |
| `GlvDecomposition.Bls12Good` | crypto/src/bls12_381/curves/g1.rs:182-238 | the constants of BLS12-381 span the lattice, leave room, and have short columns |
| `Ecdsa.Verify` | crypto/src/secp256r1/verify.rs:12-39 | rejects malformed signatures, then coordinates out of range or off the curve, then the identity; otherwise accepts exactly when the abscissa of `u1*G + u2*Q` is `r`; every honest signature, `s*k = z + r*d` with `r` the abscissa of `k*G` and the key `d*G`, is accepted |
| `Ecdsa.DecodeKey` | crypto/src/secp256r1/points/affine.rs:25-52 | which coordinates are a key, and which point it is: in range and on the curve, or the origin for the identity; which error the others give |
| `Ecdsa.Recover` | crypto/src/secp256k1/recover.rs:30-73 | each error case, else the key `(s/r)*R - (z/r)*G` |
| `Ecdsa.HonestVerifies` | crypto/src/secp256r1/verify.rs:23-37 | for `s*k = z + r*d` the verifier computes `k*G` (section 4.1.4 of SEC 1) |
| `Ecdsa.HonestRecovers` | crypto/src/secp256k1/recover.rs:59-65 | for such a signature recovery returns `d*G` (section 4.1.6 of SEC 1) |
| `Ecdsa.RecoveredVerifies` | crypto/src/secp256k1/recover.rs:59-65 | whatever the nonce point, the recovered key makes the verifier compute it |
| `BitMaps.BitMapOwned.constructor` | evm_interpreter/src/lib.rs:319-326 | whole 64-bit groups of zero words with room for the capacity |
| `BitMaps.BitMapOwned.SetBitOn` | evm_interpreter/src/lib.rs:335-339 | sets its bit and no other |
| `BitMaps.BitMapOwned.GetBit` | evm_interpreter/src/lib.rs:343-346 | reads the bit |
| `BitMaps.DigitBit` | evm_interpreter/src/lib.rs:405-408 | a bit of the whole bitmap is a bit of one word |
| `BitMaps.AsSliceValue` | evm_interpreter/src/lib.rs:301-306 | the byte image stands for the same number as the words |
| `BitMaps.FromRawValue` | evm_interpreter/src/lib.rs:394-400 | reading bytes as words keeps that number |
| `JumpTable.Analyze` | evm_interpreter/src/lib.rs:350-371 | bit i is set if and only if a JUMPDEST starts at i as an instruction |
| `JumpTable.ParseBytecode` | evm_interpreter/src/lib.rs:231-251 | fails exactly when the blob is shorter than code and artifacts, and panics exactly when the artifacts are not in whole groups |
| `JumpTable.ArtifactsSurvive` | evm_interpreter/src/lib.rs:231-251 | the bitmap survives code, padding and artifacts, written with 32- or 64-bit words and read with either |
| `Interpreter.ImmediateExtends` | evm_interpreter/src/instructions/stack.rs:22-45 | a truncated immediate reads as if the code went on with zeros |
| `Interpreter.Machine.Jump` | evm_interpreter/src/instructions/control_flow.rs:5-16 | the rule of `JUMP`: which of out of gas, out of native, underflow, invalid jump and success happens, each exactly, with pointer, stack and resources; success only on jump destinations |
| `Interpreter.Machine.JumpIf` | evm_interpreter/src/instructions/control_flow.rs:18-31 | the rule of `JUMPI`: the same with the condition below the destination, falling through on zero |
| `Interpreter.Machine.Push` | evm_interpreter/src/instructions/stack.rs:19-49 | the rule of `PUSH1` to `PUSH32`: succeeds exactly when affordable and the stack has room, advances past the immediate and pushes it |
| `Interpreter.Machine.Run` | evm_interpreter/src/interpreter.rs:112-323 | on every run, states in a row (pointer, stack, resources) are related by the rule of the instruction between them, written per opcode, and so are the last state and the exit; each fetched instruction is at a boundary or past the end, follows the previous one or is a jump destination; completed steps cost at least 20 native each |
| `Interpreter.Machine.Step` | evm_interpreter/src/interpreter.rs:112-323 | one turn obeys the rule of the opcode it fetches, `STOP` past the end, after paying 20 native; it ends at an instruction again, the following one or a jump destination |
| `Interpreter.Machine.Dispatch` | evm_interpreter/src/interpreter.rs:146-300 | every opcode is run by its own rule |
| `MemoryGas.Frame.PayForGrowth` | evm_interpreter/src/gas.rs:93-115 | succeeds exactly when affordable and pays the difference of `C_mem`; no underflow, no saturation |
| `MemoryGas.Frame.ResizeHeap` | evm_interpreter/src/utils.rs:72-93 | succeeds exactly when the offset, the room of the frame and the counters allow it; grows to whole words, keeps contents, fills with zeros, pays exactly |
| `MemoryGas.Frame.AccessAll` | evm_interpreter/src/utils.rs:72-93 | over any run of successful accesses the gas paid is that of the furthest word |
| `MemoryGas.PathIndependent` | evm_interpreter/src/gas.rs:93-115 | accesses to the same places cost the same in any order and number |
| `MemoryGas.FurthestCovers` | evm_interpreter/src/utils.rs:72-93 | the furthest word is that of some access and covers all of them |
| `ResourceCounters.Charged` | zk_ee/src/reference_implementations/mod.rs:100-110 | succeeds exactly when both counters suffice; a short native counter decides the error; nothing is ever added |
| `CallSemantics.AllButOne64th` | evm_interpreter/src/gas.rs:152-156 | what stays behind is whole gas, and the most that is no more than a 64th |
| `CallProperties.PassingErgs` | evm_interpreter/src/ee_trait_impl.rs:285-341 | what stays and what is passed never exceed what was there, stipend included; the unwrapped charge succeeds |
| `CallProperties.PassedShare` | evm_interpreter/src/ee_trait_impl.rs:285-341 | fails exactly where the surcharges for value and a new account cannot be paid; otherwise the whole request is passed, or exactly the whole-gas 64th of what is left stays; the stipend comes on top; nothing is lost |
| `CallProperties.PreparedExact` | basic_bootloader/src/bootloader/runner.rs:600-707 | the three results of preparing a call, each exactly: native or ergs short, or what stays with the caller and what the callee gets; the entry frame gets everything |
| `CallProperties.FailureRollsBack` | basic_bootloader/src/bootloader/runner.rs:200-291 | for every call tree, a failed call leaves exactly the world after its checks: at most the creator's nonce moved |
| `CallProperties.HandleBounded` | basic_bootloader/src/bootloader/runner.rs:600-707 | for every call tree: ergs handed back never exceed ergs handed in, paid steps, the last instruction of every frame included, are at most native/20, no frame runs deeper than 1024 |
| `CallProperties.HandleAtTop` | basic_bootloader/src/bootloader/runner.rs:108-291 | a plain top-level call reaches its hook exactly when it can pay for it, has the value and the hook can hold it; otherwise it fails and changes nothing, or ends the transaction |
| `CallJournal.CallAgrees` | basic_bootloader/src/bootloader/runner.rs:108-584 | for every call tree: the semantics with snapshots ends as a separate recursion says that only collects the events of frames that commit, with the same resources, result, kind of error, number of paid instructions and greatest depth; the world is the initial one with those events applied in order, each of which fits |
| `CallJournal.CallCommits` | basic_bootloader/src/bootloader/runner.rs:200-482 | for every call tree and account: storage is the last committed write or what was there, the balance changed by committed receipts, payments and burns, nonce, code, deployments and marks likewise; a failed call commits nothing but a creator's nonce |
| `CallJournal.PreCheckAgrees` | evm_interpreter/src/ee_trait_impl.rs:343-449 | depth, balance, creator's nonce and collision: which check refuses, what it leaves and what it commits |
| `CallJournal.PaymentAgrees` | basic_bootloader/src/bootloader/runner.rs:294-375 | the value goes to the callee, to the caller itself under call-code, to nobody under delegation; which failures are fatal |
| `CallJournal.HookAgrees` | basic_bootloader/src/bootloader/runner.rs:486-584 | a hook commits the payment and its effect together, or nothing |
| `CallJournal.FrameAgrees` | basic_bootloader/src/bootloader/runner.rs:420-482 | a frame writes to the account it runs as, commits what its successful callees committed, and nothing if it fails |
| `CallJournal.EnterAgrees` | basic_bootloader/src/bootloader/runner.rs:378-584 | past the transfer: payment, first nonce and what the code or hook did are committed together on success, and none of them on failure |
| `CallJournal.DestructAgrees` | basic_system/src/system_implementation/flat_storage_model/account_cache.rs:1106-1200 | the events of a self-destruct, and its surcharge for founding an account |
| `CallSupply.HandleConserves` | basic_bootloader/src/bootloader/runner.rs:200-584 | for every call tree, balances and burned tokens together stay the same; nothing is burned where no withdrawal sends value and no frame self-destructs to itself |
| `CallSupply.WithdrawalBurns` | system_hooks/src/l2_base_token.rs:198-276 | a withdrawal burns exactly its value if and only if balances, the bound of a balance, ergs and native allow it |
| `CallSupply.DeconstructConserves` | basic_system/src/system_implementation/flat_storage_model/account_cache.rs:1106-1200 | a self-destruct moves the balance or burns it, and burns only what an account leaves to itself |
| `CallSupply.DestructBurns` | basic_system/src/system_implementation/flat_storage_model/account_cache.rs:1135-1171 | a self-destruct burns if and only if an account in its constructor, or deployed by this transaction, leaves something to itself |
| `CallSupply.FinishConserves` | basic_system/src/system_implementation/flat_storage_model/account_cache.rs:1202-1226 | clearing marked accounts conserves the supply, and burns nothing if and only if they are empty |
| `CallSupply.FinishClears` | basic_system/src/system_implementation/flat_storage_model/account_cache.rs:1202-1226 | a marked account loses balance, nonce, code and storage, any other keeps all it has, and no mark is left |
| `CallFaults.HandleSound` | basic_bootloader/src/bootloader/process_transaction.rs:258-275 | a call tree whose code and hooks have no internal error, and whose requests send value only where allowed, never ends in one while the supply fits a balance |
| `CallFaults.TransferSound` | basic_bootloader/src/bootloader/runner.rs:294-375 | after the checks the transfer neither lacks balance nor overflows one, at top level or below |
| `CallFaults.WithdrawalCovered` | system_hooks/src/l2_base_token.rs:476-502 | a withdrawal never lacks the balance it burns |
| `CallFaults.FaultyHook` | basic_bootloader/src/bootloader/runner.rs:514-525 | a hook with an internal error ends the transaction with it, if and only if the callee read can be paid |
| `CallMachine.System.StartFrame` | basic_bootloader/src/bootloader/runner.rs:245-246 | the snapshot is the current world and its handle is new |
| `CallMachine.System.FinishFrame` | basic_bootloader/src/bootloader/runner.rs:459-461 | with a handle, back to its snapshot whatever frames are open |
| `CallMachine.System.FinishValidTx` | zk_ee/src/system/mod.rs:226-228 | marked accounts are cleared and the supply is conserved |
| `CallMachine.Context.HandleRequestedExternalCall` | basic_bootloader/src/bootloader/runner.rs:108-197 | reply, world, resources and step count are those of the call-tree semantics, which `CallJournal.CallAgrees` states as committed events; the call-stack height is restored |
| `CallMachine.Context.ExecuteCall` | basic_bootloader/src/bootloader/runner.rs:200-243 | the checks before the snapshot and what follows them |
| `CallMachine.Context.AttemptCall` | basic_bootloader/src/bootloader/runner.rs:245-291 | snapshot, transfer, then hook or code; undone by handle on failure |
| `CallMachine.Context.CallToSpecialAddress` | basic_bootloader/src/bootloader/runner.rs:486-584 | hooks: storage writes, withdrawals and forced deployments; rolled back when they fail or run out of ergs, refused withdrawals under any modifier, empty account when not intercepted, no deployment |
| `CallMachine.Context.CallExecuteCalleeFrame` | basic_bootloader/src/bootloader/runner.rs:378-483 | empty accounts succeed with their frame left open; code is run, kept on success and rolled back on failure, as `CallJournal.EnterAgrees` states it in events |
| `CallMachine.Context.RunFrame` | basic_bootloader/src/bootloader/runner.rs:420-482 | the preemption loop computes the frame's semantics |
| `CallMachine.RunTransaction` | basic_bootloader/src/bootloader/process_transaction.rs:225-277 | the reply is that of the call-tree semantics and of its journal, error kind included; a success leaves the world that the committed events make, any other end without an internal error its own snapshot; tokens are accounted for; a sound tree has no internal error; ergs do not grow, steps are at most native/20 |
| `CallMachine.RunRootCall` | basic_bootloader/src/bootloader/process_transaction.rs:681-728 | success leaves the world of the committed events; failure and exhaustion anywhere in the tree restore the snapshot, an internal error is passed on |
| `CallMachine.Context.Advance` | basic_bootloader/src/bootloader/runner.rs:420-482 | one preemption point: the frame ends as its semantics say, or goes on with the rest |
| `CallMachine.Context.CallDeeper` | basic_bootloader/src/bootloader/runner.rs:424-455 | a nested call hands its result and resources to the caller and goes on |
| `L1Transactions.CostForCalldata` | basic_bootloader/src/bootloader/gas_helpers.rs:130-146 | 16 gas a byte less 12 for every zero byte, and one native a byte |
| `L1Transactions.LimitsGranted` | basic_bootloader/src/bootloader/gas_helpers.rs:22-126 | a transaction gets resources exactly when every sum fits 64 bits and, unless it comes from L1, the limits cover the intrinsic costs |
| `L1Transactions.LimitsDivided` | basic_bootloader/src/bootloader/gas_helpers.rs:22-126 | gas and native limits are divided without loss, for L1 transactions too wherever the limits cover the intrinsic costs; one that is short gets none |
| `L1Transactions.RefundExact` | basic_bootloader/src/bootloader/process_transaction.rs:1150-1216 | used plus refunded gas is the limit; the refund counter is paid in full or up to the last whole fifth of the gas spent; native used and left after pubdata are what was bought, while nothing saturates; the gas charged is the greater of gas spent and native used, without signed overflow |
| `L1Transactions.RefundWraps` | basic_bootloader/src/bootloader/process_transaction.rs:1150-1176 | pubdata beyond the native left wraps around, and what then counts as used |
| `L1Transactions.NativeBought` | basic_bootloader/src/bootloader/process_transaction.rs:1172-1178 | the native bought is limit times price as far as 64 bits go, and unlimited at price zero |
| `L1Transactions.Mint` | basic_bootloader/src/bootloader/run_single_interaction.rs:20-59 | the balance and the total grow by the amount, or nothing changes; a bound on the total supply rules out failure |
| `L1Transactions.ExecuteL1` | basic_bootloader/src/bootloader/process_transaction.rs:415-539 | succeeds if and only if mint and reads are paid, the value can be minted, the root call from the minted world is done and successful, and the pubdata of its world is covered by native left plus withheld; then the world is that one; resources and pubdata charge exactly, in every case; an internal error in the tree is passed on; there is none if code and hooks have none and neither supply nor pubdata price overflows |
| `L1Transactions.SuccessExact` | basic_bootloader/src/bootloader/process_transaction.rs:415-539 | the condition of success as an equivalence, and what a success has left and pays for pubdata |
| `L1Transactions.FaultyDeposit` | basic_bootloader/src/bootloader/process_transaction.rs:262-274 | a deposit to a hook with an internal error meets it if and only if it can pay to get there |
| `L1Transactions.Settle` | basic_bootloader/src/bootloader/process_transaction.rs:190-292 | the same equivalence; what is left and what pubdata costs exactly, where a failure pays for the pubdata there was before; after a success the supply has grown by the value |
| `L1Transactions.ProcessL1Transaction` | basic_bootloader/src/bootloader/process_transaction.rs:116-412 | completes if and only if it is admissible, does not break and can be settled; reports success if and only if its execution succeeds, and then settles the world of its root call, otherwise the initial one; gas, pay and refund exactly; the supply grows by exactly the deposit, burning nothing if it fails or cannot burn; an admissible priority transaction completes if what it runs has no internal error and neither supply nor pubdata price overflows |
| `L1Transactions.Admit` | basic_bootloader/src/bootloader/process_transaction.rs:140-186 | succeeds exactly when amounts fit, the deposit covers value and fee, and the limits can be divided |
| `L1Transactions.RunUnderSnapshot` | basic_bootloader/src/bootloader/process_transaction.rs:190-284 | succeeds if and only if hashing is paid and the execution succeeds; then the world is that of the root call; exhaustion and reverts leave the snapshot, an internal error stops the transaction |
| `L1Transactions.PayOut` | basic_bootloader/src/bootloader/process_transaction.rs:286-412 | succeeds if and only if pay and refund fit their balances and only a priority transaction failed; charges the gas of `RefundExact`; operator and refund recipient are credited exactly; value, fee and refund are the deposit |
| `L1Transactions.RunAdmitted` | basic_bootloader/src/bootloader/process_transaction.rs:190-412 | execution and settlement together: when a deposit completes, whether it succeeds, its gas, and the world it leaves, each exactly |
| `L2Fees.PriceWithinOffer` | basic_bootloader/src/bootloader/process_transaction.rs:994-1021 | the price lies between base fee and offer and gives the operator the priority fee the offer has room for |
| `L2Fees.DivisionExact` | basic_bootloader/src/bootloader/process_transaction.rs:1069-1092 | refund, operator payment and burned fees are the prepaid fee |
| `L2Fees.Charge` | basic_bootloader/src/bootloader/transaction_flow/zk/mod.rs:61-80 | succeeds exactly when the sender can pay the whole offer and the value and has a nonce left; then nonce and fee move |
| `L2Fees.FromWithheld` | basic_bootloader/src/bootloader/process_transaction.rs:898-925 | succeeds exactly when both parts together suffice; nothing is lost, and the main part is touched only when the withheld one is empty |
| `L2Fees.NetPubdata` | basic_bootloader/src/bootloader/gas_helpers.rs:155-169 | the price of the pubdata beyond what was there before, nothing if there is none; overflow exactly where that price overflows |
| `L2Fees.RunBody` | basic_bootloader/src/bootloader/process_transaction.rs:928-992 | succeeds if and only if the root call from the initial world is done and successful and the pubdata it added is covered by native left plus withheld; then world and resources are those of the root call plus what was withheld; exhaustion, a revert or uncovered pubdata undoes the body and leaves no pubdata to pay; tokens are accounted for |
| `L2Fees.ProcessL2Transaction` | basic_bootloader/src/bootloader/process_transaction.rs:541-797 | processed if and only if the sender can pay, validation pubdata is paid, the body does not break and the payments fit; rejected exactly for the first two; reports success if and only if the body succeeds, and then settles the world of its root call, otherwise the charged one; only the burned base fee of the gas used and what the body burns leave circulation; whoever can pay is served if what it runs has no internal error |
| `L2Fees.PayBack` | basic_bootloader/src/bootloader/process_transaction.rs:1025-1148 | succeeds if and only if both payments fit; the gas charged is that of `RefundExact`; the sender gets back the unused gas, the operator the price of the gas used; the rest of the fee is the burned base fee |
| `BlockLoop.Block.Next` | basic_bootloader/src/bootloader/mod.rs:147-301 | kept if and only if it can be processed, an upgrade comes first, and gas, native, pubdata and logs stay within their limits; otherwise state, totals, rolling hash and first flag are unchanged; fails exactly on an internal error |
| `BlockLoop.Block.Run` | basic_bootloader/src/bootloader/mod.rs:137-301 | for every sequence: state and totals are those of replaying the kept ones alone; the rolling hash is the left fold of the hash over their hashes from 0, the L1 hashes are those from L1 in order, the upgrade hash is that of a leading upgrade or 0, the count is their number; every prefix is within all limits; kept transactions alone are all kept again |
| `BlockLoop.FoldExact` | basic_bootloader/src/bootloader/mod.rs:137-301 | a list is kept whole if and only if all of it can be processed in turn and every prefix stays within the limits; counters and hashes are functions of the columns of what was reported |
| `BlockLoop.FoldPrefix` | basic_bootloader/src/bootloader/mod.rs:137-301 | every prefix of a keepable list is keepable |
| `BlockLoop.TotalsExact` | basic_bootloader/src/bootloader/mod.rs:221-248 | over every block whose transactions report modest use, the 64-bit counters do not wrap: they are the true sums, within the limits |
| `BlockSupply.RunBlock` | basic_bootloader/src/bootloader/mod.rs:137-301 | over every block of deposits and L2 transactions: each is kept if and only if it is processed from the state before it and its gas fits, and changes nothing otherwise; the supply changes by the deposits and burned base fees of the kept ones alone, whatever they execute; the 64-bit gas counter is the gas they used; no account is left to clear |
| `BlockSupply.Process` | basic_bootloader/src/bootloader/process_transaction.rs:72-86 | valid if and only if the transaction can be processed, with its gas and the world it leaves exactly; it adds its deposit to the supply, or takes its burned base fee from it |
| `BlockSupply.Take` | basic_bootloader/src/bootloader/mod.rs:147-301 | one turn of the loop under its snapshot, with its 64-bit gas counter |
| `BlockSupply.ServesOnce` | basic_bootloader/src/bootloader/process_transaction.rs:72-86 | gas and world of a processed transaction are determined |
| `OracleProtocol.QueryBuffer.Write` | oracle_provider/src/lib.rs:251-276 | guest words are paired low half first; complete exactly at the announced length |
| `OracleProtocol.Host.Read` | oracle_provider/src/lib.rs:115-146 | the next pending word; zero once disconnected |
| `OracleProtocol.Host.Begin` | oracle_provider/src/lib.rs:148-188 | drops any leftover response; ignored once disconnected unless for the console |
| `OracleProtocol.Host.Continue` | oracle_provider/src/lib.rs:148-188 | the completing word makes exactly the processor's answer pending |
| `OracleProtocol.Host.ProcessBufferedQuery` | oracle_provider/src/lib.rs:88-111 | twice the length, then the halves of every word; no assertion fails |
| `OracleProtocol.Guest.RawQuery` | proof_running_system/src/io_oracle/mod.rs:60-90 | from any leftover state, the guest learns the answer's length and the answer is waiting |
| `OracleProtocol.Guest.Next` | proof_running_system/src/io_oracle/mod.rs:24-31 | the next waiting word, exactly as many as announced |
| `OracleProtocol.SplitPaired` | oracle_provider/src/lib.rs:251-276 | splitting undoes pairing, up to the missing high half of an odd word count |
| `OracleProtocol.Session` | oracle_provider/src/lib.rs:313-324 | over any run of queries, answers abandoned or not, with a disconnection anywhere, the witness is the transcript determined by the answers of the processors |
| `OracleProtocol.Guest.CsrRead` | oracle_provider/src/lib.rs:313-324 | every word read is appended to the witness |
| `OracleProtocol.ServeOne` | proof_running_system/src/io_oracle/mod.rs:60-90 | one exchange appends the length and the words taken |
| `OracleProtocol.Guest.RawDisconnect` | oracle_provider/src/lib.rs:88-111 | the host is disconnected and the guest reads a zero length |
| `OracleProtocol.Guest.RawIgnored` | oracle_provider/src/lib.rs:175-187 | after a disconnection a query leaves the host alone and reads as empty |
| `OracleProtocol.Serve` | proof_running_system/src/io_oracle/mod.rs:60-90 | one more exchange, of any kind, extends the transcript |
| `Rlp.StripFixed` | basic_bootloader/src/bootloader/rlp.rs:23-29 | fixed-width bytes without leading zeros are the minimal big-endian ones |
| `Rlp.Hasher.ApplyLength` | basic_bootloader/src/bootloader/rlp.rs:97-106 | emits the length prefix, of the estimated length, without byte overflow |
| `Rlp.Hasher.ApplyBytes` | basic_bootloader/src/bootloader/rlp.rs:74-82 | emits the encoding of the bytes, of the estimated length |
| `Rlp.Hasher.ApplyNumber` | basic_bootloader/src/bootloader/rlp.rs:62-69 | emits the encoding of the number, of the estimated length |
| `Rlp.DecodeEncoded` | basic_bootloader/src/bootloader/rlp.rs:74-82 | an encoded byte string is read back whatever follows |
| `Rlp.ListRoundTrip` | basic_bootloader/src/bootloader/rlp.rs:87-89 | an encoded list decodes to its items |
| `BlockHeaders.EstimateExact` | basic_bootloader/src/bootloader/rlp.rs:34-40 | an estimate is the length of what is emitted |
| `BlockHeaders.PayloadLength` | basic_bootloader/src/bootloader/block_header.rs:123-140 | the summed estimates are the payload length |
| `BlockHeaders.Stream` | basic_bootloader/src/bootloader/block_header.rs:122-162 | the hasher is fed exactly the list encoding of the sixteen fields |
| `BlockHeaders.HeaderRoundTrip` | basic_bootloader/src/bootloader/block_header.rs:122-162 | the stream decodes to the fields |
| `BlockHeaders.StreamInjective` | basic_bootloader/src/bootloader/block_header.rs:122-162 | headers with the same stream are equal |
| `BlockHeaders.QuasiRlpIsRlp` | evm_interpreter/src/utils.rs:107-161 | the hand-written encoding is the general one for every nonce, zero included |

## Left out

- Curve coordinates and field formulas, pairings, KZG, and hash functions: group operations, the endomorphism, point decompression, the abscissa and the rolling hash are parameters.
- Sharing one denominator in the table of odd multiples: tables hold group elements.
- Inversion of scalars by exponentiation: a parameter that inverts nonzero scalars.
- Limb extraction in `bits_var`: bits are read from the scalar as a number.
- Doubling modulo a two-word modulus, which is addition once more.
- ModularPowerOdd.ModpowMontgomery: every Montgomery product fills a buffer of its own instead of a slice of one scratch vector.
- InPlace.InPlaceShl: does not model shifts by a whole word or more, for which the source's subtraction underflows or masks.
- InPlace.InPlaceShr: does not model shifts by a whole word or more, for which the source's subtraction underflows or masks.
- Hashing to primes, trap handlers, allocators and control registers.
- Interpreter.Machine.Run: opcodes other than jumps, pushes and stop are a function of opcode, stack and resources that never adds native resource.
- Write protection of static frames other than against self-destructs, delegated accounts of EIP-7702, and warm and cold accounts: the call trees allow every other write, and costs of access are parameters.
- Exhaustion of return memory is a fault that a frame or a hook may have, not a computation of sizes.
- Steps of the call machine are abstract: each costs at least 20 native, and one that is not a call or an end writes one storage word.
- L1Transactions.ProcessL1Transaction: hashing, logs and the amount of pubdata are parameters, and internal errors carry no description.
- L2Fees.ProcessL2Transaction: signatures, access lists, code of the sender and the derivation of the limits are not modelled; what they leave is a parameter.
- BlockLoop.Block.Run: does not model simulation mode or the configurations without limits.
- BlockSupply.RunBlock: the limits on native, pubdata and logs are in the block loop above; here only gas is limited.
- Storage trees, history maps, transaction parsing, tracing and logging.
- OracleProtocol.Session: console queries after a disconnection are not modelled; what the processors answer is a function of the queries so far.
