# Verification of the Classic McEliece 348864 core, its accelerator versions, the hash code and the AXI read path

This project models parts of the repository in Dafny and proves properties of the models. Sizes that the C code fixes
by macros (SYS_T, SYS_N, PK_NROWS, the width and length of a permutation, message lengths, rates, port counts) are
parameters wherever the code itself does not depend on their value.

How the code is represented:

* Machine words are natural numbers below 2^k; `Bits.dfy` defines &, |, ^, << and >> on them bit by bit, and
  wrap-around is written as an explicit remainder. Signed 32-bit values are integers with `Sort.ToU32` and
  `Sort.ToS32` between the two readings.
* Loops that update buffers are methods on arrays. A matrix with separately allocated rows is an array whose elements
  are the rows. Each method is proved against a function or a relation on values, and the theorems are about those.
* The accelerators and the interconnect are classes whose fields are the configuration and data registers.

The parts:

* **Sorting and permutation networks** (`MergeExchange`, `Sort`, `Permutation`, `PackedSort`, `Network`, `ControlBits`,
  `Words`, `OutBits`, `CbRecursion`, `PairLoop`, `ControlBitsCheck`, `ControlBitsLoop`, `Transpose`, `LittleEndian`, `BitSlicedBenes`,
  `BenesOnBytes`, `Support`). From the merge-exchange sort through the Nassimi-Sahni control bits, on the shared scratch
  array and in both branches, to the bit-sliced Benes network and the support that decryption rebuilds.
* **Linear algebra** (`KeyPermutation`, `BitMatrix`, `Elimination`, `VersatElimination`, `Syndrome`, `ErrorVector`).
  Permutation extraction, masked Gaussian elimination in its direct form and pipelined through the accelerator, the public key,
  the ciphertext and the word that decryption forms from it.
* **Field arithmetic and decoding** (`GaloisField`, `FieldPowers`, `FieldCode`, `ExtensionField`, `MinimalPolynomial`,
  `BerlekampMassey`, `ShortestRecurrence`).
* **Sponge and hash streaming** (`Sponge`, `ShaPadding`, `VersatSha`, `Chunks`). Keccak-f and the SHA-256 compression function are
  arbitrary given functions.
* **AXI read path** (`AxiRead`). The read states of the state machine and the two-entry buffer of the R channel.

Where the code falls short of what its documentation or its callers could expect, the exact condition is proved:

* The comment above controlbitsfrompermutation allows w from 1 to 14. For w = 2 and w = 3 the self-check advances by
  n >> 4 = 0 bytes from layer to layer and loops forever on some permutations (`ControlBitsCheck.CheckFails`); it ends
  for all permutations exactly when w is neither (`ControlBitsLoop.EndsForAllIff`), and for one permutation exactly when
  the first layer's bits, used in every layer, realise it (`ControlBitsCheck.PassesIff`).
* Comments in the w > 10 branch of cbrecursion speak of p^(-2). The code computes p^2, which is what is needed
  (`CbRecursion.DoubleLarge`).
* uint64_MINMAX is exact only for words less than 2^63 apart (`Sort.UInt64MinMaxExact`).
* keccak_absorb sets the top bit of the last byte, keccak_inc_finalize flips it: they differ exactly for p >= 128 on
  messages that end one byte short of a block (`Sponge.PaddingsAgree`). All domain bytes of fips202.c are below 128.
* linux/versatCrypto.c counts processed bytes in an int: the length field is right exactly when their number, modulo 2^61,
  is below 2^31 or at least 2^61 - 2^31 (`VersatSha.LengthRight`, `VersatSha.PadRightIff`).
* In its decode state the interconnect drives the ready bit of the port selected before, not of the port selected now
  (`AxiRead.StrayReady`). An unselected port is told to send exactly in the clock after a read is decoded to a port other
  than the one selected before (`AxiRead.StrayIff`), and exactly the beats handed over there are lost
  (`AxiRead.HandshakeTakenIff`, `AxiRead.LossIsStray`). The other theorems assume nothing about what master ports offer.

## Model

| member | source | states |
|---|---|---|
| Sort.Int32MinMaxExact | software/src/crypto/McEliece/int32_sort.h:10-19 | the branch-free exchange equals (min, max) on every pair of 32-bit values, although the difference wraps |
| Sort.UInt64MinMaxExact | software/src/crypto/McEliece/uint64_sort.h:10-18 | on 64-bit words the exchange is right if and only if the words are less than 2^63 apart (or 2^63 apart in descending order) |
| MergeExchange.MergePassMultiset | software/src/crypto/McEliece/int32_sort.h:32-50 | a pass only permutes |
| MergeExchange.MergeUnit | software/src/crypto/McEliece/int32_sort.h:32-50 | 0-1 form of a pass: if the even and the odd positions of a 0-1 sequence are sorted, one pass sorts the whole |
| MergeExchange.MergeSorts | software/src/crypto/McEliece/int32_sort.h:32-50 | for every length and every distance p: a pass turns a sequence whose strided classes at distance 2p are sorted into one whose classes at distance p are sorted |
| Sort.MergeExchangeSort | software/src/crypto/McEliece/int32_sort.h:21-51 | in place, for every n: sorted, same multiset, nothing else in the array changes; the inner index is not reset between the q rounds |
| Sort.Int32Sort | software/src/crypto/McEliece/int32_sort.h:21-51 | int32_sort sorts every array of 32-bit values |
| Sort.UInt64Sort | software/src/crypto/McEliece/uint64_sort.h:20-50 | uint64_sort sorts every array of words below 2^63 |
| PackedSort.SortPermutes | software/src/crypto/McEliece/controlbits.c:43-64 | sorting words (key << k) + value whose keys are a permutation stores at y the value whose key is y: the way all compositions and inverses are computed |
| Permutation.NoMeet | software/src/crypto/McEliece/controlbits.c:66-133 | no power of pibar maps x to x^1 |
| Permutation.CycleReturns | software/src/crypto/McEliece/controlbits.c:66-133 | every cycle of pibar on n positions closes after at most n/2 steps, so w-2 doublings see all of it |
| Permutation.CycleMinStep | software/src/crypto/McEliece/controlbits.c:66-133 | the cycle minimum does not change along the cycle |
| Permutation.CycleMinMirror | software/src/crypto/McEliece/controlbits.c:140-151 | the cycle minima of x and x^1 form a pair {2j, 2j+1} |
| Network.LayerTwice | software/src/crypto/McEliece/controlbits.c:190-207 | a layer applied twice is the identity |
| PairLoop.LayerBlockAt | software/src/crypto/McEliece/controlbits.c:190-207 | one layer in numbers: positions 2*2^s*b+j and 2^s behind are exchanged exactly when control bit 2^s*b+j is set |
| Network.LayerOrder | software/src/crypto/McEliece/controlbits.c:240-249 | layers 0 to w-1 have distances 1 to 2^(w-1), the others the same downwards |
| Network.NetSplit | software/src/crypto/McEliece/controlbits.c:156-182 | layers 1 to 2w-3 act on even and odd positions independently, as two networks of half the size |
| Network.BenesMoves | software/src/crypto/McEliece/controlbits.c:190-207 | the network moves positions in the same way whatever data they hold |
| ControlBits.CycleMinsSplit | software/src/crypto/McEliece/controlbits.c:140-151 | the cycle minima found by doubling split each pair between its two positions |
| ControlBits.MKeepsParity | software/src/crypto/McEliece/controlbits.c:158-179 | the middle map M = F pi L keeps the parity of every position |
| ControlBits.MHalfPerm | software/src/crypto/McEliece/controlbits.c:174-179 | both halves stored in q are permutations of {0, ..., n/2-1} |
| ControlBits.MHalfValue | software/src/crypto/McEliece/controlbits.c:174-179 | M(2x) = 2 M0(x) and M(2x+1) = 2 M1(x) + 1 |
| ControlBits.NetworkRealizes | software/src/crypto/McEliece/controlbits.c:25-183 | for every w and every permutation pi, the control bits make the 2w-1 layers turn the identity into pi |
| OutBits.ProgInterleave | software/src/crypto/McEliece/controlbits.c:181-182 | the two recursive calls (pos, 2 step) and (pos+step, 2 step) write interleaved progressions without common position |
| OutBits.ToggleParts | software/src/crypto/McEliece/controlbits.c:140-182 | toggling first, middle and last part of a progression one after the other toggles the whole progression |
| OutBits.XorOut | software/src/crypto/McEliece/controlbits.c:146 | out[pos >> 3] ^= bit << (pos & 7) toggles exactly the bit at pos |
| OutBits.OutBitAt | software/src/crypto/McEliece/controlbits.c:146 | position 8b+i is bit i of byte b |
| OutBits.ProgIff | software/src/crypto/McEliece/controlbits.c:146 | a progression holds its bit k at position pos + step*k and nothing elsewhere |
| CbRecursion.PackPartners | software/src/crypto/McEliece/controlbits.c:43-46 | packing (pi[x]^1, pi[x^1]) and sorting yields pibar |
| CbRecursion.MinTwo | software/src/crypto/McEliece/controlbits.c:48-54 | the first minimum is over two steps of the cycle |
| CbRecursion.SquarePibar | software/src/crypto/McEliece/controlbits.c:56-64 | two sorts yield pibar squared without an inverse table |
| CbRecursion.DoubleSmall | software/src/crypto/McEliece/controlbits.c:74-88 | w <= 10: one round doubles the number of steps over which minima are taken and squares the permutation, on fields packed in one word |
| CbRecursion.DoubleLarge | software/src/crypto/McEliece/controlbits.c:101-127 | w > 10: the same round on two arrays; what the comments call p^(-2) is p^2 |
| CbRecursion.MinimaSmall | software/src/crypto/McEliece/controlbits.c:66-92 | the w <= 10 branch ends with the cycle minima of pibar |
| CbRecursion.MinimaLarge | software/src/crypto/McEliece/controlbits.c:93-133 | the w > 10 branch ends with the cycle minima of pibar |
| CbRecursion.Minima | software/src/crypto/McEliece/controlbits.c:66-133 | both branches leave the cycle minima in B |
| CbRecursion.InvertPi | software/src/crypto/McEliece/controlbits.c:135-138 | sorting pi packed over positions inverts pi |
| CbRecursion.WriteFirstLayer | software/src/crypto/McEliece/controlbits.c:140-152 | writes the first layer bits at pos, pos+step, ... and leaves (pi^-1, F) packed |
| CbRecursion.WriteLastLayer | software/src/crypto/McEliece/controlbits.c:156-170 | writes the last layer bits and leaves (L, F pi) packed |
| CbRecursion.StoreHalves | software/src/crypto/McEliece/controlbits.c:176-179 | the int16 halves of M are stored in the second half of the scratch array |
| CbRecursion.Int16Pair | software/src/crypto/McEliece/controlbits.c:135-182 | the int16 view of a word, low half first |
| CbRecursion.CallTwice | software/src/crypto/McEliece/controlbits.c:181-182 | the first recursive call, which reuses the scratch array from its start, leaves the still needed second half of q intact |
| CbRecursion.CbRecursion | software/src/crypto/McEliece/controlbits.c:25-183 | xors exactly the (2w-1)n/2 control bits of pi into the positions pos + step t, each once, and no other bit; words of temp behind 2n stay |
| ControlBitsCheck.LayerInPlace | software/src/crypto/McEliece/controlbits.c:190-207 | layer, in place on int16 values, performs the conditional exchanges at distance 2^s |
| ControlBitsCheck.CheckLayersAt | software/src/crypto/McEliece/controlbits.c:240-249 | layer t of the self-check reads from byte t*(n >> 4) on |
| ControlBitsCheck.OutSizeIs | software/src/crypto/McEliece/controlbits.c:229 | the bytes cleared are the fewest that hold (2w-1)*n/2 bits |
| ControlBitsCheck.CheckReadsControl | software/src/crypto/McEliece/controlbits.c:237-250 | for w = 1 and w >= 4 the self-check reads back exactly the layers that cbrecursion wrote |
| ControlBitsCheck.CheckAlwaysPasses | software/src/crypto/McEliece/controlbits.c:231-262 | for every permutation the loop ends after its first round, when w is not 2 or 3 |
| ControlBitsCheck.CheckFails | software/src/crypto/McEliece/controlbits.c:241-250 | for w = 2 and w = 3 (n >> 4 is 0) the loop never ends on the permutation that exchanges the first two pairs |
| ControlBitsCheck.CheckRound | software/src/crypto/McEliece/controlbits.c:231-261 | one round of the loop: the bits are stored, and the accumulated difference is zero if and only if the network realises pi |
| ControlBitsLoop.EndsForAllIff | software/src/crypto/McEliece/controlbits.c:231-262 | the loop ends after one round for every permutation of width w if and only if w is not 2 or 3 |
| ControlBitsCheck.PassesIff | software/src/crypto/McEliece/controlbits.c:228-262 | permutation by permutation: the check passes if and only if w is neither 2 nor 3 or the network whose layers all use the bits of the first one realises pi |
| ControlBitsCheck.ControlBitsFromPermutation | software/src/crypto/McEliece/controlbits.c:215-265 | the returned bit string holds the control bits of pi, layer after layer |
| Transpose.PatternBit | software/src/crypto/McEliece/transpose.c:15-22 | the mask with runs of s ones selects exactly the bits whose digit of weight s is 0 |
| Transpose.SourceStep | software/src/crypto/McEliece/transpose.c:28-40 | each level exchanges one binary digit between row and column number |
| Transpose.LevelInPlace | software/src/crypto/McEliece/transpose.c:28-40 | one level, in place, computes the new rows from the old ones |
| Transpose.Transpose64 | software/src/crypto/McEliece/transpose.c:11-41 | bit j of out[i] is bit i of in[j], also when out is in |
| Transpose.TransposeBit | software/src/crypto/McEliece/transpose.c:11-41 | the statement for one bit |
| LittleEndian.LoadBit | software/src/crypto/McEliece/util.c:24-34 | bit i of byte m of the input is bit 8m+i of the loaded word |
| LittleEndian.Load | software/src/crypto/McEliece/util.c:24-57 | load4 and load8 compute the little-endian value |
| LittleEndian.Store8 | software/src/crypto/McEliece/util.c:36-45 | store8 writes eight bytes and no other |
| LittleEndian.StoreThenLoad | software/src/crypto/McEliece/util.c:36-57 | load8 reads back what store8 wrote |
| BitSlicedBenes.WordLayerInPlace | software/src/crypto/McEliece/benes.c:14-29 | layer of benes.c, in place on 64 words |
| BitSlicedBenes.HighLayer | software/src/crypto/McEliece/benes.c:74-87 | a word layer of distance 2^s, on words read row by row, is the scalar layer of distance 2^(6+s) on 4096 bits |
| BitSlicedBenes.LowLayer | software/src/crypto/McEliece/benes.c:63-70 | a word layer of distance 2^s on the transposed words is the scalar layer of distance 2^s on 4096 bits |
| BenesOnBytes.LowRound | software/src/crypto/McEliece/benes.c:63-70 | load4, transposing the control words and a word layer apply one scalar layer of distance below 64 |
| BenesOnBytes.HighRound | software/src/crypto/McEliece/benes.c:74-87 | load8 and a word layer apply one scalar layer of distance 64 or more |
| BenesOnBytes.ApplyBenes | software/src/crypto/McEliece/benes.c:36-107 | for every 4096 bits and every control string, apply_benes equals the scalar network, forwards or backwards, and touches no other byte |
| BenesOnBytes.RunIs | software/src/crypto/McEliece/benes.c:72-140 | forwards this is the network of the self-check, with w = 12 |
| BenesOnBytes.ReverseUndoes | software/src/crypto/McEliece/benes.c:51-57 | applying the layers in the opposite order undoes the network, for all sizes, data and control bits |
| BenesOnBytes.RunUndone | software/src/crypto/McEliece/benes.c:36-107 | rev = 1 undoes rev = 0 and the other way round |
| Support.BitRevBit | software/src/crypto/McEliece/util.c:59-66 | bitrev reverses the twelve bits of a field element |
| Support.BitRevTwice | software/src/crypto/McEliece/util.c:59-66 | bitrev undoes itself, so distinct positions give distinct support elements |
| Support.FillRows | software/src/crypto/McEliece/benes.c:116-128 | row j of L holds bit j of bitrev(i) for all i |
| Support.PermuteRows | software/src/crypto/McEliece/benes.c:130-132 | each of the twelve rows is permuted by the network |
| Support.SupportGen | software/src/crypto/McEliece/benes.c:111-141 | s[i] is the reversed source position of i under the network of the control bits |
| Support.SupportOfKey | software/src/crypto/McEliece/benes.c:111-141 | on control bits made for pi the source position of i is pi[i]: decryption uses the support of key generation |
| KeyPermutation.DuplicateTest | software/src/crypto/McEliece/pk_gen.c:73-80 | comparing neighbours of the sorted buffer finds a duplicate among the random words if and only if there is one |
| KeyPermutation.PositionsOrder | software/src/crypto/McEliece/pk_gen.c:67-84 | otherwise the low fields are a permutation with perm[pi[0]] < perm[pi[1]] < ... |
| KeyPermutation.OrdersAt | software/src/crypto/McEliece/pk_gen.c:67-84 | the order in words: pi[i] and pi[j] differ and perm[pi[i]] < perm[pi[j]] for i < j |
| KeyPermutation.ExtractPermutation | software/src/crypto/McEliece/pk_gen.c:67-84 | rejects exactly on duplicates, else returns that permutation; keys stay below 2^63, where the sort is exact |
| BitMatrix.StepKernel | software/src/crypto/McEliece/pk_gen.c:140-166 | one pivot step keeps the kernel of the matrix |
| BitMatrix.ElimKernel | software/src/crypto/McEliece/pk_gen.c:131-168 | the matrix after elimination has the same kernel as before |
| BitMatrix.GatherPivot | software/src/crypto/McEliece/pk_gen.c:140-149 | the pivot bit collected from the rows below is set exactly when one of them, or the pivot row, has it |
| BitMatrix.ElimReduced | software/src/crypto/McEliece/pk_gen.c:131-168 | on success the left block is the identity |
| BitMatrix.SingularWitness | software/src/crypto/McEliece/pk_gen.c:151-154 | when -1 is returned, a nonzero vector on the columns seen so far is in the kernel of the original matrix |
| BitMatrix.SingularIff | software/src/crypto/McEliece/pk_gen.c:131-168 | -1 is returned if and only if the first n columns of the original matrix are linearly dependent |
| BitMatrix.SameSyndrome | software/src/crypto/McEliece/encrypt.c:111-146 | for every e, the original matrix maps e and (c, 0...0) to the same vector, c being the product of the reduced matrix with e |
| Elimination.XorMaskedBits | software/src/crypto/McEliece/pk_gen.c:146-148 | row addition under a byte mask 0 or 255 is conditional addition of rows over GF(2) |
| Elimination.AddMasked | software/src/crypto/McEliece/pk_gen.c:146-148 | the loop over c, in place on one row |
| Elimination.CollectPivot | software/src/crypto/McEliece/pk_gen.c:140-149 | the masked additions to the pivot row |
| Elimination.ClearColumn | software/src/crypto/McEliece/pk_gen.c:156-166 | the masked additions that clear the pivot column |
| Elimination.Eliminate | software/src/crypto/McEliece/pk_gen.c:131-168 | the in-place byte elimination computes the elimination over GF(2), and fails exactly when that does |
| VersatElimination.CombineReplicated | software/src/versat_mceliece.c:113 | the 32-bit mask constant acts on each byte like the byte mask |
| VersatElimination.OthersOnce | software/src/versat_mceliece.c:125-162 | the write order lists every row except the pivot row once, in increasing order |
| VersatElimination.McElieceUnit.constructor | software/src/versat_mceliece.c:186-204 | a unit with nothing pending |
| VersatElimination.McElieceUnit.StartAccelerator | software/versat/versatSpec.txt:2901-2915 | the hardware assumption: one run combines the row read before with the constant, writes back the row combined before, and reads a row |
| VersatElimination.McElieceUnit.Loop1 | software/src/versat_mceliece.c:105-122 | one call combines the row of the previous call with its saved mask |
| VersatElimination.McElieceUnit.Loop2 | software/src/versat_mceliece.c:125-165 | after the call for row k: row k is read, the row before it is combined with its own mask, the one before that is written |
| VersatElimination.McElieceUnit.CollectPivot | software/src/versat_mceliece.c:299-320 | the pipelined collection ends with the same pivot row as the direct loop, and its pivot byte is kept right in memory |
| VersatElimination.McElieceUnit.ClearColumn | software/src/versat_mceliece.c:329-343 | the pipelined clearing ends with the same matrix as the direct loop; every row but the pivot row is written exactly once, in order |
| VersatElimination.McElieceUnit.Eliminate | software/src/versat_mceliece.c:291-347 | same status and same matrix as the direct elimination; nothing is left pending, whether it succeeds or fails |
| Syndrome.SameKey | software/src/versat_mceliece.c:291-351 | pk_gen and Versat_pk_gen return the same public key for every matrix |
| Syndrome.StoreKey | software/src/crypto/McEliece/pk_gen.c:170-172 | the key holds the bytes of each row behind the identity block |
| Syndrome.KeyHoldsAt | software/src/crypto/McEliece/pk_gen.c:170-172 | byte j of key row i is byte n/8 + j of matrix row i |
| Syndrome.KeyMatrixIs | software/src/crypto/McEliece/encrypt.c:121-130 | from the key of a systematic matrix, encryption rebuilds exactly that matrix |
| Syndrome.FoldParity | software/src/crypto/McEliece/encrypt.c:137-140 | folding a byte by shifts of 4, 2 and 1 yields its parity |
| Syndrome.Syndrome | software/src/crypto/McEliece/encrypt.c:111-146 | the ciphertext is the product of the rebuilt matrix with e, bit by bit |
| Syndrome.ZeroExtend | software/src/crypto/McEliece/decrypt.c:38-43 | decryption extends the ciphertext by zero bits |
| Syndrome.SameCode | software/src/crypto/McEliece/decrypt.c:38-43 | key generation, encryption and decryption agree: H e = H (c, 0...0) for the matrix H before elimination |
| ErrorVector.CountIndices | software/src/crypto/McEliece/encrypt.c:66-71 | the indices are the values below SYS_N in the order of their positions, each position once, and stop after t of them |
| ErrorVector.HasRepetition | software/src/crypto/McEliece/encrypt.c:79-87 | eq is set if and only if two chosen positions are equal |
| ErrorVector.WriteError | software/src/crypto/McEliece/encrypt.c:94-106 | exactly the chosen positions of e are set |
| ErrorVector.ChosenWeight | software/src/crypto/McEliece/encrypt.c:45-107 | t distinct positions give a vector of weight t |
| ErrorVector.RecoverError | software/src/crypto/McEliece/decrypt.c:61-71 | bit i of e is set if and only if the locator vanishes at support element i, and w is the number of these i |
| ErrorVector.FinalCheck | software/src/crypto/McEliece/decrypt.c:77-87 | the result is 0 if and only if the weight is t and both syndromes are equal |
| GaloisField.MulComm | software/src/crypto/McEliece/gf.c:24-50 | multiplication is commutative |
| GaloisField.MulAssoc | software/src/crypto/McEliece/gf.c:24-50 | multiplication is associative |
| GaloisField.MulAddLeft | software/src/crypto/McEliece/gf.c:20-50 | multiplication distributes over addition |
| GaloisField.MulHorner | software/src/crypto/McEliece/gf.c:24-50 | a b = x (a (b div x)) + b0 a: multiplication is that of polynomials, reduced by x^12 = x^3 + 1 |
| FieldPowers.SmallX | software/src/crypto/McEliece/gf.c:24-50 | x^n is the word 2^n for n < 12 |
| FieldPowers.XTwelve | software/src/crypto/McEliece/gf.c:24-50 | x^12 = x^3 + 1 |
| FieldCode.IsZero | software/src/crypto/McEliece/gf.c:11-18 | 0x1FFF for zero, 0 for every other 16-bit value |
| FieldCode.ReduceDouble | software/src/crypto/McEliece/gf.c:41-49 | the two folding steps reduce modulo x^12 + x^3 + 1 |
| FieldCode.GfMul | software/src/crypto/McEliece/gf.c:24-50 | gf_mul is multiplication in the field, for all elements |
| FieldCode.SpreadBit | software/src/crypto/McEliece/gf.c:60-63 | the four spreading steps move coefficient i to position 2i |
| FieldCode.GfSqExact | software/src/crypto/McEliece/gf.c:54-74 | gf_sq(a) = a a |
| FieldPowers.SqAdd | software/src/crypto/McEliece/gf.c:54-74 | squaring is additive |
| FieldPowers.Frobenius | software/src/crypto/McEliece/gf.c:54-74 | twelve squarings give back every element |
| FieldPowers.NormIdempotent | software/src/crypto/McEliece/gf.c:76-103 | a^4095 is its own square |
| FieldCode.Idempotent | software/src/crypto/McEliece/gf.c:54-74 | only 0 and 1 are their own squares |
| FieldCode.GfInv | software/src/crypto/McEliece/gf.c:76-103 | gf_inv(a) = a^4094 |
| FieldCode.InvExact | software/src/crypto/McEliece/gf.c:76-103 | a gf_inv(a) = 1 for every nonzero a, and 0 for 0 |
| FieldCode.NoZeroDivisors | software/src/crypto/McEliece/gf.c:24-50 | a product is zero only when a factor is |
| FieldCode.GfFrac | software/src/crypto/McEliece/gf.c:107-109 | the quotient times den is num; for den = 0 the result is 0 |
| ExtensionField.YReduce | software/src/crypto/McEliece/gf.c:133-137 | y^t = y^3 + y + z, at every power |
| ExtensionField.FoldTop | software/src/crypto/McEliece/gf.c:133-137 | one reduction round keeps the residue |
| ExtensionField.ResidueSmall | software/src/crypto/McEliece/gf.c:139-141 | a polynomial of degree below t is its own residue |
| ExtensionField.GFMul | software/src/crypto/McEliece/gf.c:113-141 | GF_mul is multiplication modulo y^t + y^3 + y + z, for every t >= 4 |
| ExtensionField.EMulComm | software/src/crypto/McEliece/gf.c:113-141 | that multiplication is commutative |
| ExtensionField.EMulAssoc | software/src/crypto/McEliece/gf.c:113-141 | it is associative |
| ExtensionField.EMulAdd | software/src/crypto/McEliece/gf.c:113-141 | it distributes over addition on both sides |
| ExtensionField.EMulOne | software/src/crypto/McEliece/gf.c:113-141 | 1 is its unit |
| ExtensionField.EMulY | software/src/crypto/McEliece/gf.c:113-141 | y^m y^n = y^(m+n) |
| ExtensionField.EMulScale | software/src/crypto/McEliece/gf.c:113-141 | it is linear over GF(2^12) |
| ExtensionField.MulZ | software/src/crypto/McEliece/gf.c:136 | multiplication by z, the constant 2, is multiplication by x in GF(2^12) |
| MinimalPolynomial.ColAddRelation | software/src/crypto/McEliece/sk_gen.c:62-90 | adding a multiple of one column to another keeps all linear relations between rows |
| MinimalPolynomial.ElimRelation | software/src/crypto/McEliece/sk_gen.c:61-91 | the whole column elimination keeps all linear relations between rows |
| MinimalPolynomial.AddFromAll | software/src/crypto/McEliece/sk_gen.c:65-67 | starting the column operation at row j makes no difference, because the rows above are unit vectors |
| MinimalPolynomial.ElimUnits | software/src/crypto/McEliece/sk_gen.c:61-91 | after n pivots the first n rows are unit vectors |
| MinimalPolynomial.PivotFound | software/src/crypto/McEliece/sk_gen.c:62-74 | the pivot stays zero only when the rest of its row is zero |
| MinimalPolynomial.SolvedMinimal | software/src/crypto/McEliece/sk_gen.c:93-95 | on success f^t is the sum of out[i] f^i |
| MinimalPolynomial.DependentIff | software/src/crypto/McEliece/sk_gen.c:71-74 | failure happens if and only if 1, f, ..., f^(t-1) are linearly dependent |
| MinimalPolynomial.FillPowers | software/src/crypto/McEliece/sk_gen.c:44-58 | the rows of the matrix are 1, f, ..., f^t |
| MinimalPolynomial.EPowFirst | software/src/crypto/McEliece/sk_gen.c:44-54 | rows 0 and 1 are 1 and f |
| MinimalPolynomial.EPowSum | software/src/crypto/McEliece/sk_gen.c:55-58 | f^(m+n) = f^m f^n, so the rows are the powers of f |
| MinimalPolynomial.PowerSumAdd | software/src/crypto/McEliece/sk_gen.c:93-95 | the sum of l_i f^i is additive in l |
| MinimalPolynomial.PowerSumUnit | software/src/crypto/McEliece/sk_gen.c:93-95 | a single coefficient contributes l_k f^k |
| MinimalPolynomial.GenPoly | software/src/crypto/McEliece/sk_gen.c:34-100 | on success f^t is the sum of out[i] f^i; it succeeds if and only if no other combination of 1, f, ..., f^(t-1) than the trivial one is zero |
| BerlekampMassey.StepGood | software/src/crypto/McEliece/bm.c:38-77 | one round keeps the invariant: C annihilates the sequence from L on, the shifted B from N+1-L on and gives b at N, as long as these lengths fit into t |
| BerlekampMassey.CorrectedConnects | software/src/crypto/McEliece/bm.c:59-65 | the corrected C annihilates one term more, for the new length |
| BerlekampMassey.ShiftedBCorrects | software/src/crypto/McEliece/bm.c:73-76 | the coefficient that the shift drops is zero whenever it could matter |
| BerlekampMassey.FinalConnects | software/src/crypto/McEliece/bm.c:38-81 | for every sequence of length 2t: if the final L is at most t, sum C[i] s[N-i] = 0 for all L <= N < 2t |
| BerlekampMassey.TruncationHarmless | software/src/crypto/McEliece/bm.c:22-24 | arrays of any larger size give the same C, B, L and b as long as L stays at most t |
| ShortestRecurrence.NestSwap | software/src/crypto/McEliece/bm.c:38-77 | the double sum of C[i] D[k] s[N-i-k] may be taken in either order |
| ShortestRecurrence.Massey | software/src/crypto/McEliece/bm.c:49-67 | a recurrence of length L that first fails at N rules out every recurrence shorter than N+1-L that holds at N: why L becomes N+1-L |
| ShortestRecurrence.LengthIsMinimal | software/src/crypto/McEliece/bm.c:14-81 | for every sequence and every k <= t: the final L is at most k if and only if some polynomial of degree at most k with constant term 1 annihilates the sequence (minimal polynomial) |
| ShortestRecurrence.Difference | software/src/crypto/McEliece/bm.c:14-81 | two recurrences of equal length differ by a shifted shorter recurrence |
| ShortestRecurrence.ShortestIsUnique | software/src/crypto/McEliece/bm.c:14-81 | if the final L is at most t and the sequence has at least 2L terms, the C that bm returns is the only recurrence of length L |
| BerlekampMassey.NonzeroMaskIs | software/src/crypto/McEliece/bm.c:45-48 | the mask mne is all ones exactly for a nonzero discrepancy |
| BerlekampMassey.LengthMaskIs | software/src/crypto/McEliece/bm.c:49-53 | the mask mle is all ones exactly when N >= 2L, in spite of the wrap-around |
| BerlekampMassey.Round | software/src/crypto/McEliece/bm.c:38-77 | the masked updates on C, B, T, L and b perform one step |
| BerlekampMassey.DiscrepancyAdd | software/src/crypto/McEliece/bm.c:41-43 | the discrepancy is additive in C |
| BerlekampMassey.DiscrepancyUnit | software/src/crypto/McEliece/bm.c:41-43 | a single coefficient C[k] contributes C[k] s[N-k]; with additivity this fixes the discrepancy as the sum of C[i] s[N-i] |
| BerlekampMassey.Bm | software/src/crypto/McEliece/bm.c:14-81 | out[i] is coefficient t-i of the connection polynomial, which annihilates s from L on if L is at most t |
| Sponge.XorByteAt | software/src/crypto/McEliece/common/fips202.c:446-460 | xoring a shifted byte into a word changes that byte of the state and no other |
| Sponge.XorLoad | software/src/crypto/McEliece/common/fips202.c:27-34 | xoring a word loaded by load64 is xoring its eight bytes |
| Sponge.PartialBlock | software/src/crypto/McEliece/common/fips202.c:445-456 | bytes that complete a block, followed by the permutation, absorb that block |
| Sponge.PartialMore | software/src/crypto/McEliece/common/fips202.c:458-461 | bytes that leave the block open are xored behind those already there |
| Sponge.IncAbsorb | software/src/crypto/McEliece/common/fips202.c:440-462 | after absorbing m on top of M the state is that of M m, whatever the split |
| Sponge.IncFinalize | software/src/crypto/McEliece/common/fips202.c:477-483 | p and the top bit of the block are xored in |
| Sponge.AbsorbOnce | software/src/crypto/McEliece/common/fips202.c:349-380 | keccak_absorb computes the one-shot state of the whole message |
| Sponge.PaddingsAgree | software/src/crypto/McEliece/common/fips202.c:375-376 | both interfaces pad alike if and only if p < 128 or the message does not end one byte short of a block (t[r-1] |= 128 against ^= 128) |
| Sponge.ZeroByte | software/src/crypto/McEliece/common/fips202.c:354-357 | the sponge starts from zeros |
| Sponge.FreshByte | software/src/crypto/McEliece/common/fips202.c:417-465 | before the first permutation the state is the message followed by zeros |
| Sponge.StateBit | software/src/crypto/McEliece/common/fips202.c:349-380 | byte k is bits 8(k mod 8) and up of lane k/8 |
| Sponge.AbsorbedNext | software/src/crypto/McEliece/common/fips202.c:359-366 | each full block is xored in, then the state is permuted once |
| Sponge.PaddedByte | software/src/crypto/McEliece/common/fips202.c:368-380 | the last block byte by byte: the rest of the message, p, zeros, and the top bit of the last byte (section 5.1 of FIPS 202) |
| Sponge.StreamFirst | software/src/crypto/McEliece/common/fips202.c:395-405 | the first r output bytes are those of the state permuted once |
| Sponge.StreamNext | software/src/crypto/McEliece/common/fips202.c:395-405 | the output goes on as that of the permuted state |
| Sponge.IncSqueeze | software/src/crypto/McEliece/common/fips202.c:498-523 | the next bytes of the stream, whatever was squeezed before |
| Sponge.SqueezeBlocks | software/src/crypto/McEliece/common/fips202.c:395-405 | whole blocks of the same stream |
| Sponge.Incremental | software/src/crypto/McEliece/common/fips202.c:417-523 | for every split of the message and of the output, every rate that is a multiple of 8 up to 200 and every p < 128: the bytes of keccak_absorb and keccak_squeezeblocks |
| ShaPadding.CodeLength | software/src/crypto/McEliece/common/sha2.c:659-666 | the eight shifted bytes are the length in bits, big-endian, modulo 2^64 |
| ShaPadding.LengthBit | software/src/crypto/McEliece/common/sha2.c:659-666 | the field is the number of bits modulo 2^64, big-endian |
| ShaPadding.PadIs | software/src/crypto/McEliece/common/sha2.c:650-681 | message, 0x80, the fewest zeros that fill the block, length (section 5.1.1 of FIPS 180-4) |
| ShaPadding.HashBit | software/src/crypto/McEliece/common/sha2.c:683-685 | the digest is the last chaining value, word by word, most significant byte first |
| ShaPadding.PadIsTail | software/src/crypto/McEliece/common/sha2.c:650-681 | the one or two blocks completed by the code are the padding of section 5.1.1 of FIPS 180-4 |
| ShaPadding.PadInPlace | software/src/crypto/McEliece/common/sha2.c:650-681 | both branches of the padding code, in place |
| ShaPadding.Sha256Ctx.IncBlocks | software/src/crypto/McEliece/common/sha2.c:613-620 | the context represents everything hashed so far |
| ShaPadding.Sha256Ctx.IncFinalize | software/src/crypto/McEliece/common/sha2.c:641-687 | for every sequence of block calls, the result is the hash of the concatenation |
| VersatSha.ShaUnit.RunAccelerator | software/src/linux/versatCrypto.c:416-443 | the hardware assumption: a run compresses the block loaded before and loads a block |
| VersatSha.ShaUnit.HashBlock | software/src/linux/versatCrypto.c:416-443 | the block is pending afterwards; what the first run compresses is replaced by the initial value |
| VersatSha.ShaUnit.Flush | software/src/linux/versatCrypto.c:530-533 | one more run compresses the pending block |
| VersatSha.OneShot | software/src/versat_crypto.c:707-761 | VersatSHA is the hash of its input and leaves the unit ready for the next message |
| VersatSha.ShaStream.Hide | software/src/linux/versatCrypto.c:336-341 | the data is hidden in front of the buffer that the user sees |
| VersatSha.ShaStream.Normalize | software/src/linux/versatCrypto.c:344-368 | hidden data becomes visible again |
| VersatSha.ShaStream.ProcessSHA | software/src/linux/versatCrypto.c:445-470 | what has been hashed followed by the hidden bytes (fewer than 64) is always the message so far |
| VersatSha.ShaStream.EndSHA | software/src/linux/versatCrypto.c:482-546 | the digest is the fold over message, padding and the length that the 32-bit counter yields |
| VersatSha.PadRightIff | software/src/linux/versatCrypto.c:493 | the padding is that of the standard if and only if the counter is right: the bytes in full blocks, modulo 2^61, are below 2^31 or at least 2^61 - 2^31 |
| VersatSha.CountedHashRight | software/src/linux/versatCrypto.c:493 | in that case the counted hash is SHA-256 |
| VersatSha.LengthRight | software/src/linux/versatCrypto.c:465 | for every count: the length field is right if and only if the processed bytes, modulo 2^61, are below 2^31 or at least 2^61 - 2^31 (bytesProcessed is a C int) |
| VersatSha.HashStream | software/src/linux/versatCrypto.c:380-546 | for every sequence of fills, each at most the room that the hidden bytes leave: the digest is the fold over the concatenation with counted padding, and it is SHA-256 of the concatenation while the counter is right (for one, below 2^31 bytes in full blocks) |
| AxiRead.QueueStep | hardware/src/axi_interconnect.v:823-892 | the output and temporary registers are a queue: one clock appends what is taken and removes what is given, nothing else |
| AxiRead.SkidStep | hardware/src/axi_interconnect.v:820-869 | the input is ready only when the temporary register is empty |
| AxiRead.NextGood | hardware/src/axi_interconnect.v:492-892 | each clock keeps the invariant |
| AxiRead.InOrder | hardware/src/axi_interconnect.v:672-728 | over every run from reset the beats given are those taken, in order, at most two behind, none missing when idle |
| AxiRead.GivenIds | hardware/src/axi_interconnect.v:548-788 | over every run from reset every beat handed over carries the ARID of the read it answers |
| AxiRead.TakenIs | hardware/src/axi_interconnect.v:672-718 | a beat taken is that of the decoded port with the id of the read, or an error beat with that id |
| AxiRead.ReadPhases | hardware/src/axi_interconnect.v:530-788 | accepted with a grant, decoded to the matching port or to error beats, finished by the last beat, acknowledged when that beat is handed over |
| AxiRead.BurstComplete | hardware/src/axi_interconnect.v:672-697 | a decoded read gets the beats of its port up to and including the first last one, all with its id |
| AxiRead.ReadyExact | hardware/src/axi_interconnect.v:820-869 | after every clock the input is ready if and only if the temporary register is empty |
| AxiRead.ReadContinues | hardware/src/axi_interconnect.v:672-697 | in the read state, unless the last beat is taken, the selected port is told to send exactly when the buffer has room, and no other port is |
| AxiRead.Stable | hardware/src/axi_interconnect.v:823-892 | a valid beat stays unchanged until it is accepted |
| AxiRead.OnlyGranted | hardware/src/axi_interconnect.v:831-846 | beats appear only at the slave port whose read was granted |
| AxiRead.HandshakeTakenIff | hardware/src/axi_interconnect.v:672-697 | a handshake at a master port is taken in if and only if it is at the selected port; elsewhere the beat is lost |
| AxiRead.LossIsStray | hardware/src/axi_interconnect.v:672-728 | over every run: the beats taken are the beats sent less those handed over at ports that are not selected |
| AxiRead.EarlyInDecode | hardware/src/axi_interconnect.v:820-821 | in the decode state the early ready signal is always up |
| AxiRead.StrayPort | hardware/src/axi_interconnect.v:581-601 | for each unselected port: its ready bit is up after a clock if and only if that clock decoded a read and the port was selected before |
| AxiRead.StrayIff | hardware/src/axi_interconnect.v:581-601 | some unselected port is told to send if and only if the clock decoded a read to a port other than the one selected before |
| AxiRead.StrayReady | hardware/src/axi_interconnect.v:581-601 | an instance two clocks after reset |
| AxiRead.DropComplete | hardware/src/axi_interconnect.v:699-718 | a read without matching port gets exactly arlen + 1 decode-error beats with its ARID, the final one marked last |
| AxiRead.ReadPath.ControlEdge | hardware/src/axi_interconnect.v:492-788 | the state machine part of one clock |
| AxiRead.ReadPath.DataEdge | hardware/src/axi_interconnect.v:820-892 | the R-channel part of one clock: output and temporary registers become those of the model |
| AxiRead.ReadPath.Tick | hardware/src/axi_interconnect.v:492-892 | one clock of the module is one step of the model |

## Left out

- VersatElimination.McElieceUnit.StartAccelerator: one run is one atomic step, and its memory effects are complete when it returns; delays, address generation and caches of the accelerator are not modelled. The source copies the rows to pk without an EndAccelerator after the last run.
- VersatElimination.McElieceUnit.Eliminate: assumes that writer.enableWrite is 0 when the first row is loaded, as after reset, and that a row is a whole number of 32-bit words; the second copy of this code in linux/versatCrypto.c:1196-1450 differs only in physical addresses.
- VersatSha.ShaUnit.RunAccelerator: the run is synchronous and reads its block from memory before it returns.
- VersatSha.ShaStream.EndSHA: signed overflow of bytesProcessed is taken to wrap; the buffer states FREE and RESERVED and the choice between the two buffers are not modelled.
- CbRecursion.CbRecursion: the int16 view q is two half words in each scratch word, in the little-endian layout.
- MinimalPolynomial.GenPoly: the flat matrix with index macro MI is an array of rows; GF_mul takes and returns whole rows, so that writing a row of the matrix in place by pointer is not modelled.
- Elimination.Eliminate: a matrix row is a value in an array cell, so rows cannot alias; in the source each row is allocated separately.
- BerlekampMassey.Bm: the counters N, L and the masks are 16 bits wide, which needs t <= 8192.
- Sponge.Incremental: Keccak-f is an arbitrary map on 25 words of 64 bits.
- AxiRead.Allowed is what the environment has to promise: the arbiter (not part of this model) holds a grant until its acknowledge.
- The write channel and the address channels of the interconnect: only their effect on the state machine's progress is an input of the read model.
- Filling the parity-check matrix, polynomial evaluation (root.c) and syndromes over GF(2^12) (synd.c): the elimination and code theorems hold for every matrix, so nothing depends on them.
- The decoding capability of Goppa codes, key encapsulation hashing and randomness.
- Keccak-f, the SHA-256 round function, AES and their tables; the AES paths of the accelerator.
- Arena exhaustion (PushBytes only prints): memory is assumed to suffice.
- Devices, the operating system, memory mapping, cache flushes, printing, build scripts and test drivers.
