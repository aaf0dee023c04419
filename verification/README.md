# Verified model of aeslib

aeslib is a C++ library for AES-128/256 in counter mode and GCM, with four interchangeable
AES backends, passphrase-wrapped key files and a move-only key type. This project models its
cryptographic core in Dafny and proves, for all inputs, that the fast forms compute what the
standards define and that the pieces fit together:

- **Field and hash.** `Gf128` defines the polynomials of GCM's field and proves that there is
  exactly one product, that it is commutative and associative, and that it is the one of
  NIST SP 800-38D although the library scans the other operand. `Gf128Lanes` refines the masked
  two-lane loop to it. `Ghash` turns the padding fold into the closed polynomial sum and proves
  its linearity.
- **AES.** `Gf256` proves that the 254th power is the inverse in GF(2^8), hence that the table-free
  S-box is a bijection. `Aes` is the cipher and key expansion of FIPS-197 together with the inverse
  cipher; both compositions are the identity. `AesSoft`, `AesNi`, `AesArm` and `AesRiscv` are the
  four backends, each with its own schedule and round loop, each proved to compute that cipher.
- **Modes.** `Modes` treats CTR and GCM over an arbitrary block function; `Drivers` runs them with
  AES, a running 32-bit counter and a backend chosen again for every block.
- **Order of operations.** `Traces` is a ghost record to which HMAC and the block cipher append
  every call themselves. CTR, GCM, key derivation and the wrapped key files state the exact trace
  they leave, so that "the tag is checked before anything is decrypted" is about the calls made.
- **Hashing and key derivation.** `Sha256`, `Sha256Constants`, `Pbkdf2`.
- **Keys.** `SecretKeys` is the key object, `GcmBudget` the per-key invocation budget under every
  interleaving of concurrent calls and `BudgetedKeys` its steps carried out on key objects,
  `KeyFiles` and `KeyStorage` the two key file formats, `KeyJourneys` what any sequence of moves,
  saves and loads does to a key and its ciphertexts.
- **Containers.** The two ciphertext file formats.
- **What the definitions mean.** Each definition the code is refined to is also described from
  outside, without naming it, in the standard's own terms: the S-box by the bits of the
  multiplicative inverse, rounds and key schedule byte by byte (`AesBytes`), GHASH by the recurrence
  over padded blocks and lengths, counter blocks and tag byte by byte (`Modes`), SHA-256 bit by bit
  and as two recurrences over numbers (`Sha256Standard`, `WordSums`), HMAC, PBKDF2 and every file
  format with their constants written out.

`Bytes` holds bytes and integer encodings, `MachineWords` words assembled with shifts and `|`. Unsigned integers are modelled on `nat` with the wrap
written out, or on bit vectors where the code works on bits; `size_t` is 64 bits wide. Random
bytes (keys, nonces, salts) and the answers of the backend lookup are parameters. Instruction
semantics (AES-NI, AESE/AESMC, Zkne) are taken from the public Intel, Arm and RISC-V manuals.

Where the code and its comments differ, the code is followed. A comment in `src/sha256.cpp:82`
speaks of a 128-bit length; the code writes 64 bits. `src/internal.hpp:66-68` can be read as saying
that reloading a key keeps its GCM count; a loaded key starts at zero. `src/key_storage.cpp:104-105`
draws a nonce that is never used: the file holds the one that CTR encryption draws itself.

Exact boundaries: the GCM budget holds until 2^64 tickets have been drawn on
one key and not beyond (`GcmBudget.LimitHoldsIff`); `pbkdf2_hmac_sha256` does not terminate for
2^32 - 1 iterations, a count that `save_to_file_encrypted` lets through (`Pbkdf2.LoopEndsIff`);
saving with more than 50,000,000 and fewer than 2^32 - 1 iterations succeeds and produces a file
that can never be loaded (`KeyFiles.WrappedRoundTrip`); the GHASH length field is unambiguous up to 2^61 bytes, and the AAD
length is not checked (`Ghash.LengthBlockExact`).

`dafny verify dfyconfig.toml` checks the whole project.

## Model

| member | source | states |
|---|---|---|
| Gf128.ProductIsUnique | src/ghash.cpp:32-68 | Any operation that distributes over addition, commutes with multiplication by x and has 1 as left identity is the field product; the field operation is fixed by these three laws |
| Gf128.MulCommutative | src/ghash.cpp:39-68 | The product of any two blocks does not depend on their order |
| Gf128.MulAssociative | src/ghash.cpp:39-68 | The product is associative |
| Gf128.MulDistributes | src/ghash.cpp:39-68 | The product distributes over XOR on both sides |
| Gf128.MulOne | src/ghash.cpp:39-68 | 0x80 followed by zeros (the polynomial 1) is the two-sided identity |
| Gf128.MulIsStandard | src/ghash.cpp:32-68 | Scanning y and shifting x gives the product of Algorithm 1 of SP 800-38D, which scans x and shifts y |
| Gf128Lanes.LoadBe64 | src/ghash.cpp:17-21 | The lane holds the eight bytes' 64 bits in order |
| Gf128Lanes.StoreBe64 | src/ghash.cpp:23-28 | The eight bytes written are the ones whose big-endian load is the lane; nothing else changes |
| Gf128Lanes.HoldsUnique | src/ghash.cpp:17-28 | A lane holds one byte string only, so store inverts load |
| Gf128Lanes.ShiftStep | src/ghash.cpp:56-61 | The cross-lane shift with masked reduction is multiplication by x in the field |
| Gf128Lanes.AccumulateStep | src/ghash.cpp:51-54 | The masked XOR adds the shifted operand exactly when the scanned bit is set |
| Gf128Lanes.ScannedBitIs | src/ghash.cpp:51 | The bit read from the high or low lane at step i is coefficient i of the scanned operand |
| Gf128Lanes.LoadLanes | src/ghash.cpp:40-43 | The two lanes loaded from a block stand for the block's polynomial |
| Gf128Lanes.StoreLanes | src/ghash.cpp:64-67 | The block stored from two lanes stands for their polynomial |
| Gf128Lanes.MultiplyLanes | src/ghash.cpp:45-62 | The 128 masked shift-and-add steps leave the field product in the accumulator lanes |
| Gf128Lanes.Gf128Mul | src/ghash.cpp:39-68 | For all blocks the two-lane loop returns the block of the field product, which is the standard's product |
| Gf128Lanes.PolyOfInjective | src/ghash.cpp:39-68 | A block is determined by its polynomial, so the field equations determine the output bytes |
| Gf128Lanes.CoefficientsOf | src/ghash.cpp:32-38 | Coefficient 8j + i of a block is bit i of byte j, most significant first: masks 0x80 to 0x01 |
| Gf128Lanes.IdentityBlock | src/ghash.cpp:32-38 | The block 0x80 followed by zeros is the polynomial 1 |
| Gf128Lanes.XorOfBlocks | src/ghash.cpp:80 | XOR of blocks is addition of their polynomials |
| Ghash.XorInto | src/ghash.cpp:80 | The accumulator becomes its byte-wise XOR with the block, in place |
| Ghash.FoldBlock | src/ghash.cpp:80-81 | One fold maps the accumulator Y to (Y + X) * H |
| Ghash.PaddedBlock | src/ghash.cpp:77-79 | The chunk followed by zeros to 16 bytes |
| Ghash.FoldInto | src/ghash.cpp:74-84 | In place, the accumulator becomes the Horner recursion over the zero-padded blocks of data of any length |
| Ghash.StoreLengths | src/ghash.cpp:95-97 | The first eight bytes read big-endian are 8 times the AAD length modulo 2^64, the last eight 8 times the ciphertext length |
| Ghash.LengthBlockValues | src/ghash.cpp:95-97 | The same of the length block in the specification: AAD first, ciphertext second |
| Ghash.BlocksAt | src/ghash.cpp:74-82 | Byte i of padded block j is byte 16j + i of the data, zero past its end |
| Ghash.GhashIsStandard | src/ghash.cpp:88-102 | For blocks and values given only by bytes, big-endian lengths and Y_j+1 = (Y_j + X_j) * H from zero, the last value is the hash: section 6.4 of SP 800-38D without any definition of this model |
| Ghash.HashOfOneBlock | src/ghash.cpp:88-102 | Under H = 1 one ciphertext block without AAD hashes to itself plus 15 zero bytes and 0x80 |
| Ghash.HashOfNothing | src/ghash.cpp:88-102 | Without AAD and ciphertext the hash is zero |
| Ghash.HornerIsPolynomial | src/ghash.cpp:74-84 | The recursion from Y over n blocks is Y * H^n plus the sum of X_i * H^(n+1-i) |
| Ghash.ComputeGhash | src/ghash.cpp:88-102 | For every H, AAD and ciphertext of any length the result is the closed sum over AAD blocks, ciphertext blocks and the length block |
| Ghash.HashesAgree | src/ghash.cpp:88-102 | Two inputs of equal lengths hash alike exactly when the recursion over their block differences is zero |
| Ghash.LengthBlockExact | src/ghash.cpp:95-97 | Two pairs of lengths give the same length block exactly when they agree modulo 2^61 |
| Gf256.XTimeConditional | src/aes_core_soft.cpp:23-25 | Multiplication by x is a shift and a conditional reduction by 0x1b |
| Gf256.Gmul | src/aes_core_soft.cpp:31-40 | The masked eight-step loop computes the product in GF(2^8) |
| Gf256.MulCommutative | src/aes_core_soft.cpp:31-40 | The product is commutative |
| Gf256.MulAssociative | src/aes_core_soft.cpp:31-40 | The product is associative |
| Gf256.PowerOf255 | src/aes_core_soft.cpp:42-56 | Every nonzero element to the power 255 is 1 |
| Gf256.InverseIs | src/aes_core_soft.cpp:42-56 | The 254th power times x is 1 for every nonzero x, and 0 maps to 0 |
| Gf256.InverseInvolutive | src/aes_core_soft.cpp:42-56 | Inverting twice is the identity |
| Gf256.InverseIsUnique | src/aes_core_soft.cpp:42-56 | Whatever multiplies x to 1 is the computed inverse |
| Gf256.Gf256Inv | src/aes_core_soft.cpp:49-56 | Left-to-right square-and-multiply over 254 computes the 254th power |
| Gf256.AffineBits | src/aes_core_soft.cpp:66-73 | The rotations compute the bit formula of section 5.1.1 of FIPS-197 |
| Gf256.SboxInverts | src/aes_core_soft.cpp:70-73 | The S-box has a two-sided inverse |
| Gf256.SboxBits | src/aes_core_soft.cpp:66-73 | For every y with x * y = 1 (zero for zero), bit i of the S-box value is y_i + y_(i+4) + y_(i+5) + y_(i+6) + y_(i+7) plus bit i of 0x63 |
| Gf256.CtSbox | src/aes_core_soft.cpp:70-73 | The computed byte is the S-box value, and its bits are section 5.1.1 of FIPS-197 applied to whatever byte multiplies x to 1 |
| Aes.RconTable | src/aes_key_schedule.hpp:26-30 | Every table entry is the power of x that section 5.2 of FIPS-197 prescribes |
| Aes.NextRoundKey | src/aes_key_schedule.hpp:49-74 | For both key sizes a whole round key follows from the previous ones by one chained recurrence |
| Aes.MixWordInverts | src/aes_core_soft.cpp:117-126 | The MixColumns matrix and the one of section 5.3.3 are inverse to each other |
| Aes.SubShiftCommute | src/aes_core_arm.cpp:64-73 | SubBytes and ShiftRows can be exchanged |
| Aes.CipherIsPermutation | src/aes_core_soft.cpp:128-150 | For every round-key sequence and any number of rounds the cipher and the inverse cipher undo each other, both ways |
| Aes.AesIsPermutation | src/aes_core_soft.cpp:128-158 | For every AES-128 and AES-256 key, encryption is a permutation of blocks |
| Aes.EncryptInjective | src/aes_core_soft.cpp:128-158 | Equal ciphertext blocks under one key come from equal plaintext blocks |
| Aes.EncryptDependsOnPrefix | src/aes_key_schedule.hpp:49-74 | The block function depends only on the first 16 or 32 storage bytes |
| AesBytes.LoadedAt | src/aes_core_soft.cpp:132-133 | Byte 4c + i of a block is row i of column c |
| AesBytes.StoredAt | src/aes_core_soft.cpp:147-149 | The same on the way out |
| AesBytes.SubBytesAt | src/aes_core_soft.cpp:103-105 | Every byte of the state is replaced by its S-box value |
| AesBytes.ShiftRowsAt | src/aes_core_soft.cpp:107-115 | Row i of column c comes from column c + i modulo 4 |
| AesBytes.MixColumnsAt | src/aes_core_soft.cpp:117-126 | Each byte becomes 2 times itself plus 3 times the next plus the other two of its column |
| AesBytes.AddRoundKeyAt | src/aes_core_soft.cpp:90-98 | Each byte is added to the round key's |
| AesBytes.EncryptAt | src/aes_core_soft.cpp:128-150 | The whole cipher byte by byte: plaintext plus the first round key, 9 or 13 rounds in which byte (c, i) is 2, 3, 1, 1 times the substituted bytes of rows i to i + 3 from the shifted columns plus the round key, and a last round without MixColumns |
| AesBytes.RoundKeyColumns | src/aes_key_schedule.hpp:49-74 | Column c of round key r is word 4r + c of the expanded key |
| AesBytes.Schedule128At | src/aes_key_schedule.hpp:49-74 | Byte i of word n for 128-bit keys: key bytes, then the word four back plus the word before, every fourth time rotated, substituted and with a power of x added to byte 0 |
| AesBytes.Schedule256At | src/aes_key_schedule.hpp:49-74 | The same for 256-bit keys, eight words back, with the substitution alone at n = 4 modulo 8 |
| AesSoft.ScheduleSubWord | src/aes_key_schedule.hpp:32-35 | The S-box on each of the four bytes |
| AesSoft.NextTemp | src/aes_key_schedule.hpp:62-72 | The branch on i modulo Nk transforms word i-1 as section 5.2 of FIPS-197 prescribes, with the table constant |
| AesSoft.ExpandKey | src/aes_key_schedule.hpp:49-74 | The array holds the expanded key of FIPS-197 word for word, for both sizes |
| AesSoft.WipeSchedule | src/aes_key_schedule.hpp:82-86 | Every schedule word is zero afterwards |
| AesSoft.AddRoundKeyInPlace | src/aes_core_soft.cpp:90-98 | The state becomes its sum with the round key |
| AesSoft.SubBytesInPlace | src/aes_core_soft.cpp:103-105 | Every state byte is replaced by its S-box value |
| AesSoft.ShiftRowsInPlace | src/aes_core_soft.cpp:107-115 | Row r of the column-major state rotates by r columns |
| AesSoft.MixedColumn | src/aes_core_soft.cpp:119-124 | The eight products and XORs are the matrix product of one column |
| AesSoft.MixColumnAt | src/aes_core_soft.cpp:118-125 | One column becomes its matrix product, the other twelve bytes stay |
| AesSoft.MixColumnsInPlace | src/aes_core_soft.cpp:117-126 | Every column is multiplied by the MixColumns matrix |
| AesSoft.MiddleRoundInPlace | src/aes_core_soft.cpp:136-141 | One middle round in place is SubBytes, ShiftRows, MixColumns and AddRoundKey |
| AesSoft.EncryptBlockSoft | src/aes_core_soft.cpp:128-150 | For every key, size and block the in-place rounds compute AES |
| AesNi.PrefixSums | src/aes_core_ni.cpp:41-50 | Three lane shifts and XORs leave the chained sums that the FIPS recurrence builds word by word |
| AesNi.KeyExpansionStepEven | src/aes_core_ni.cpp:41-50 | The next even round key from the broadcast top dword |
| AesNi.KeyExpansionStepOdd | src/aes_core_ni.cpp:54-64 | The next odd round key uses SubWord without rotation or constant |
| AesNi.EvenStep | src/aes_core_ni.cpp:80-82 | From round keys r-2 and r-1 the macro yields round key r, for even r |
| AesNi.OddStep | src/aes_core_ni.cpp:83 | From round keys r-2 and r-1 the macro yields round key r, for odd r |
| AesNi.ExpandKeyNi | src/aes_core_ni.cpp:66-103 | The fifteen registers are the FIPS-197 round keys |
| AesNi.Key128Step | src/aes_core_ni.cpp:142-168 | From round key r-1 the macro yields round key r |
| AesNi.ExpandKey128Ni | src/aes_core_ni.cpp:142-184 | The eleven registers are the FIPS-197 round keys |
| AesNi.EncryptBlockNi | src/aes_core_ni.cpp:118-208 | Both AES-NI block functions compute AES on every block |
| AesArm.PackRoundKeys | src/aes_core_arm.cpp:39-51 | Each vector holds the sixteen bytes of its round key |
| AesArm.FusedRounds | src/aes_core_arm.cpp:80-86 | For any number of rounds, AddRoundKey fused ahead of the substitution gives the textbook cipher |
| AesArm.EncryptBlockArm | src/aes_core_arm.cpp:74-98 | The AArch64 block functions compute AES on every block |
| AesRiscv.RoundsAreFips | src/aes_core_riscv.cpp:109-121 | The instruction pair with swapped operands is ShiftRows after SubBytes, with or without MixColumns, on the whole state |
| AesRiscv.HalfStepsChain | src/aes_core_riscv.cpp:149-161 | Two aes64ks2 in sequence advance one round key |
| AesRiscv.KsStep | src/aes_core_riscv.cpp:187-193 | aes64ks1i with a round constant and two aes64ks2 yield the next round key, for both sizes |
| AesRiscv.KsOddStep | src/aes_core_riscv.cpp:155-160 | With rnum 0xA the step is SubWord without rotation or constant and yields the odd round key |
| AesRiscv.Ks256Step | src/aes_core_riscv.cpp:149-161 | One macro step yields the next two round keys, or one when rnum is 6 |
| AesRiscv.ExpandKey256Riscv | src/aes_core_riscv.cpp:137-174 | The fifteen register pairs are the FIPS-197 round keys |
| AesRiscv.ExpandKey128Riscv | src/aes_core_riscv.cpp:178-209 | The eleven register pairs are the FIPS-197 round keys |
| AesRiscv.EncryptWithSchedule | src/aes_core_riscv.cpp:211-221 | The loop computes the cipher for any schedule and number of rounds |
| AesRiscv.EncryptBlockRiscv | src/aes_core_riscv.cpp:225-233 | The RV64 block functions compute AES on every block |
| SecretKeys.SecretKey.constructor | include/aeslib/key.hpp:111-119 | Zero bytes, AES-256, count zero |
| SecretKeys.SecretKey.Generate | src/key.cpp:36-43 | All 32 storage bytes are random whatever the size; the counter starts at zero |
| SecretKeys.SecretKey.FromBytes | src/internal.hpp:34-39 | Only the logical bytes are copied, the rest is zero |
| SecretKeys.SecretKey.MoveFrom | src/key.cpp:53-58 | Bytes, size and count move together; the source's bytes are zero, its size and count stay |
| SecretKeys.SecretKey.MoveAssign | src/key.cpp:60-70 | The same for assignment; assigning a key to itself changes nothing |
| SecretKeys.SecretKey.Wipe | src/key.cpp:74-79 | All 32 bytes are zero, nothing else changes |
| SecretKeys.SecretKey.ConsumeGcmInvocation | src/internal.hpp:41-45 | The count before the increment is returned and the 64-bit counter advances, wrapping |
| GcmBudget.StepKeepsInv | src/aes_gcm.cpp:115-121 | Creation, moves, destruction, ticket draws and ticket checks all keep: one holder per key, counter equal to tickets drawn modulo 2^64, successes plus passing calls equal to passing tickets |
| GcmBudget.BudgetHolds | src/aes_gcm.cpp:82-121 | In every run of interleaved calls and moves, at most 2^32 encryptions succeed per key while at most 2^64 tickets were drawn on it; once no call is in flight the successes are exactly the passing tickets |
| GcmBudget.LimitHoldsIff | src/internal.hpp:150-159 | Among the first n tickets at most 2^32 pass if and only if n is at most 2^64 |
| GcmBudget.TicketsThatPass | src/internal.hpp:150-159 | Of n tickets all pass up to 2^32, exactly 2^32 from there to 2^64, and more beyond |
| GcmBudget.BudgetIsReached | src/aes_gcm.cpp:82-121 | For every n some run draws n tickets on a key and grants all that pass, so the bound is met and, after 2^64 + 1 tickets, broken |
| BudgetedKeys.DrawTicketOn | src/internal.hpp:41-45 | One fetch-and-add on a key object is the ticket step of the transition system |
| BudgetedKeys.CheckTicketOf | src/aes_gcm.cpp:82-88 | The check answers yes exactly when the transition system counts a success |
| BudgetedKeys.MoveConstructKey | src/key.cpp:53-58 | Move construction of objects is the move step: key bytes, size and count in the new object, the old one wiped |
| BudgetedKeys.MoveAssignKey | src/key.cpp:60-70 | The same for move assignment, self-assignment included |
| BudgetedKeys.DestroyKey | src/key.cpp:72-79 | Destruction wipes the object and is the destroy step |
| BudgetedKeys.PerformStep | src/key.cpp:36-79 | Every step carried out on key objects keeps objects, counters, key bytes and open tickets what the transition system says |
| BudgetedKeys.PerformRun | src/aes_gcm.cpp:82-121 | Over every run on key objects, the checks that answered yes number at most 2^32 per key while at most 2^64 tickets were drawn on it |
| Modes.CounterBlockBytes | src/aes256_ctr.cpp:43-51 | Bytes 0 to 11 are the nonce; bytes 12 to 15 read big-endian are the counter modulo 2^32 |
| Modes.FirstCounterBlock | src/aes_gcm.cpp:104 | Counter block 1 is the nonce followed by 0, 0, 0, 1 |
| Modes.CtrBytes | src/aes256_ctr.cpp:55-90 | CTR ciphertext byte i is plaintext byte i XOR byte i mod 16 of the block whose first 12 bytes are the nonce and whose last four count i / 16 |
| Modes.GcmBytes | src/aes_gcm.cpp:50-65 | The same for GCM with the count i / 16 + 2 |
| Modes.TagIs | src/aes_gcm.cpp:100-111 | The tag is E(nonce, 0, 0, 0, 1) plus GHASH under E(0) |
| Modes.EmptyTag | src/aes_gcm.cpp:100-111 | The tag of empty AAD and ciphertext is the block E(nonce, 0, 0, 0, 1) |
| Modes.TagsOfTwoNonces | src/aes_gcm.cpp:100-111 | For the same AAD and ciphertext the tags under two nonces differ by exactly the two masks |
| Modes.KeystreamTwice | src/aes_gcm.cpp:50-65 | The keystream XOR, partial last block included, is its own inverse |
| Modes.CtrRoundTrip | src/aes256_ctr.cpp:83-95 | Decryption returns the plaintext; encryption fails exactly above 2^36 bytes |
| Modes.GcmRoundTrip | src/aes_gcm.cpp:115-141 | A container that encryption produced opens to its plaintext |
| Modes.AlteredAcceptedIff | src/aes_gcm.cpp:131-141 | With nonce, tag and lengths kept, an altered container is accepted exactly when the hash of the block differences is zero |
| Modes.OneTagOnly | src/aes_gcm.cpp:135-138 | A container whose tag alone was changed is rejected |
| Modes.CounterBlockInjective | src/aes_gcm.cpp:40-48 | Equal counter blocks come from counters equal modulo 2^32 |
| Modes.CtrLimitIsExact | src/aes256_ctr.cpp:17-21 | A length is within CTR's limit if and only if no counter block repeats |
| Modes.GcmLimitIsExact | src/aes_gcm.cpp:20-25 | A length is within GCM's limit if and only if, for every nonce, the inputs for the hash subkey, the tag mask and all keystream blocks are pairwise distinct |
| Modes.GcmOutputsDistinct | src/aes_gcm.cpp:53-111 | For an injective block function hash subkey, tag mask and keystream blocks are pairwise distinct |
| Modes.CtrOutputsDistinct | src/aes256_ctr.cpp:55-81 | For an injective block function the keystream blocks are pairwise distinct |
| Drivers.BlockFnIsAes | src/aes_gcm.cpp:30-36 | The block function of a key is AES under its bytes and size |
| Drivers.BlockFnInjective | src/aes256_ctr.cpp:23-38 | The block function of every key is injective |
| Drivers.AesNeverRepeats | src/aes_gcm.cpp:24-78 | With AES itself: no two block cipher calls on the trace of an accepted GCM encryption, GCM decryption or CTR call return the same block |
| Drivers.EncryptBlock | src/aes_gcm.cpp:30-36 | Whatever backend is looked up, the block function is the same; the call goes on the trace |
| Drivers.MakeCounterBlock | src/aes256_ctr.cpp:43-51 | The first twelve bytes are the nonce, the last four read big-endian are the counter |
| Drivers.XorChunk | src/aes256_ctr.cpp:61-64 | Up to 16 output bytes from the offset are input XOR keystream, the others are untouched |
| Drivers.ApplyKeystream | src/aes256_ctr.cpp:55-67 | Output byte i is input byte i XOR byte i mod 16 of the encrypted counter start + i/16, for any sequence of per-block backends; the block cipher is called on exactly those counters, in order |
| Drivers.ConstantTimeEqual | src/sha256.cpp:252-259 | The accumulated difference is zero if and only if the byte strings are equal |
| Drivers.ComputeTag | src/aes_gcm.cpp:100-111 | The tag is E(nonce, 1) plus GHASH under E(0), from exactly these two block cipher calls |
| Drivers.EncryptCtr | src/aes256_ctr.cpp:83-90 | CTR encryption under AES, refused above 2^36 bytes before any block cipher call |
| Drivers.DecryptCtr | src/aes256_ctr.cpp:92-95 | CTR decryption under AES, refused above 2^36 bytes before any block cipher call |
| Drivers.EncryptGcm | src/aes_gcm.cpp:115-129 | Succeeds exactly up to 2^36 - 32 bytes and while fewer than 2^32 invocations were counted; an over-long plaintext draws no ticket; a refused call makes no block cipher call; the container is a sealed one |
| Drivers.DecryptGcm | src/aes_gcm.cpp:131-141 | Opens or rejects as GCM prescribes; the block cipher calls are none for an over-long container, the two tag inputs for a wrong tag, and the keystream inputs after them exactly when the tag is right |
| Drivers.KeystreamOnlyIfAuthentic | src/aes_gcm.cpp:131-141 | A keystream counter is ever encrypted if and only if the container opens and is long enough to need it |
| Containers.EncodeIs | src/container.cpp:27-42 | 41 45 53 43 01, nonce at 5, little-endian length at 17, ciphertext from 25 |
| Containers.EncodeGcmIs | src/aes_gcm.cpp:148-164 | 41 45 53 47 01, nonce at 5, tag at 17, little-endian length at 33, ciphertext from 41 |
| Containers.DecodeEncode | src/container.cpp:27-74 | Every container decodes back from its encoding |
| Containers.EncodeDecode | src/container.cpp:27-74 | Every accepted byte string is the encoding of its container |
| Containers.DecodeEncodeGcm | src/aes_gcm.cpp:148-201 | Every GCM container decodes back from its encoding |
| Containers.EncodeDecodeGcm | src/aes_gcm.cpp:148-201 | Every accepted byte string is the encoding of its GCM container |
| Containers.FormatsAreDisjoint | src/aes_gcm.cpp:166-175 | No byte string is accepted by both parsers |
| Containers.PushLength | src/container.cpp:35-38 | Appends the eight little-endian bytes of the length |
| Containers.MagicMatches | src/container.cpp:49-53 | True exactly when the first four bytes are the magic |
| MachineWords.AccumulatedBytes | src/container.cpp:63-66 | The bytes shifted and ORed into a 64-bit word do not overlap: the word holds exactly them, in order |
| MachineWords.JoinedBytes | src/key_storage.cpp:276-280 | The same for four bytes in a 32-bit word |
| Containers.ReadLength | src/container.cpp:63-66 | The loop of shifts and ORs on a 64-bit word reads the little-endian value of the eight bytes |
| Containers.Serialize | src/container.cpp:27-42 | Produces the wire format |
| Containers.Deserialize | src/container.cpp:44-74 | Accepts exactly the wire format and rejects everything else as malformed |
| Containers.SerializeGcm | src/aes_gcm.cpp:148-164 | Produces the wire format |
| Containers.DeserializeGcm | src/aes_gcm.cpp:166-201 | Accepts exactly the wire format and rejects everything else as malformed |
| Sha256Constants.ConstantsAreCubeRoots | src/sha256.cpp:12-21 | Every round constant the rounds use is, as a number, the first 32 fractional bits of the cube root of its prime |
| Sha256.ExpandMessage | src/sha256.cpp:89-95 | The 64 words are the message schedule of section 6.2.2 of FIPS 180-4 |
| Sha256.RunRounds | src/sha256.cpp:98-110 | The eight rotating variables after 64 rounds are those of section 6.2.2 of FIPS 180-4 |
| Sha256.ProcessBlock | src/sha256.cpp:87-120 | One call is the compression of section 6.2.2 |
| Sha256.CloseBlock | src/sha256.cpp:139-140 | The buffer keeps its prefix, then zeros to byte 56, then the 64-bit big-endian bit length |
| Sha256.Finish | src/sha256.cpp:131-141 | The tail blocks, one or two, complete the padded message |
| Sha256.ComputeHash | src/sha256.cpp:66-155 | The blocks handed to the compression concatenate to the padded message and the digest is their fold, for every message |
| Sha256.ZeroCountIsLeast | src/sha256.cpp:131-141 | The number of zero bytes is the smallest that leaves eight bytes for the length |
| Sha256.PadInjective | src/sha256.cpp:79-83 | Below 2^61 bytes the padded form determines the message |
| WordSums.PlusIsSum | src/sha256.cpp:94-119 | The sum of two words stands for the sum of their numbers modulo 2^32 |
| Sha256Standard.ChBit | src/sha256.cpp:25 | Bit i is that of y where x has it set and that of z where not |
| Sha256Standard.MajBit | src/sha256.cpp:27 | Bit i is the majority of the three |
| Sha256Standard.Sigma0Bit | src/sha256.cpp:29 | Bit i is the XOR of bits i + 2, i + 13 and i + 22 modulo 32 |
| Sha256Standard.Sigma1Bit | src/sha256.cpp:31 | Bit i is the XOR of bits i + 6, i + 11 and i + 25 modulo 32 |
| Sha256Standard.Gamma0Bit | src/sha256.cpp:33 | Bit i is the XOR of bits i + 7 and i + 18 modulo 32 and of bit i + 3, zero past the end |
| Sha256Standard.Gamma1Bit | src/sha256.cpp:35 | Bit i is the XOR of bits i + 17 and i + 19 modulo 32 and of bit i + 10, zero past the end |
| Sha256Standard.WordAtIs | src/sha256.cpp:59-62 | A message word is the big-endian value of its four bytes |
| Sha256Standard.DigestIs | src/sha256.cpp:143-154 | The digest is the eight hash words in order, big-endian |
| Sha256Standard.InitialAreSquareRoots | src/sha256.cpp:68-75 | The initial words are the first 32 fractional bits of the square roots of 2, 3, 5, 7, 11, 13, 17 and 19 |
| Sha256Standard.ScheduleIsStandard | src/sha256.cpp:89-95 | Words given by the block's big-endian values and the recurrence of section 6.2.2 are the message schedule |
| Sha256Standard.RoundsAreRecurrences | src/sha256.cpp:98-110 | After t rounds the variables a to d are the last four values of one recurrence and e to h of another |
| Sha256Standard.CompressIsStandard | src/sha256.cpp:87-120 | From the block's bytes alone: the last four values of the two recurrences, added to the old hash words, are the compression |
| Sha256Standard.PadIsStandard | src/sha256.cpp:131-141 | Message, 0x80, zeros, and in the last eight bytes the bit length modulo 2^64, in the least multiple of 64 bytes with room for it |
| Sha256Standard.HashIsFold | src/sha256.cpp:66-155 | The hash is the digest of the last of the values that start at the initial one and follow by the compression, block by block |
| Pbkdf2.PadKey | src/sha256.cpp:172-180 | The pad block is the zero-filled key XOR the repeated pad byte |
| Pbkdf2.InnerInput | src/sha256.cpp:189-202 | The inner message is the same from the fixed buffer and from the exactly sized one |
| Pbkdf2.HmacSha256 | src/sha256.cpp:157-210 | For every key and data length the tag is the one of section 2 of RFC 2104; the call goes on the trace |
| Pbkdf2.HmacIsStandard | src/sha256.cpp:157-210 | For keys of up to 64 bytes: the outer block is the zero-filled key XOR 0x5c, the inner one XOR 0x36, byte by byte |
| Pbkdf2.HmacOfLongKey | src/sha256.cpp:164-170 | A longer key acts like its hash |
| Pbkdf2.DerivedIsStandard | src/sha256.cpp:212-250 | Bytes 0 to 31 are the byte-wise XOR of the chain of HMACs that starts from salt, 0, 0, 0, 1, bytes 32 to 63 of the one from salt, 0, 0, 0, 2 |
| Pbkdf2.DeriveBlock | src/sha256.cpp:225-246 | The accumulator is the XOR of U_1 to U_c of section 5.2 of RFC 8018, from exactly c HMAC calls; the counter runs through `Counter` |
| Pbkdf2.Pbkdf2HmacSha256 | src/sha256.cpp:212-250 | The 64 bytes are the two blocks of section 5.2 of RFC 8018, from exactly 2c HMAC calls; a count of zero acts like one |
| Pbkdf2.LoopEndsIff | src/sha256.cpp:237 | The 32-bit counter that the loop of DeriveBlock runs through ever exceeds the iteration count if and only if the count is below 2^32 - 1 |
| KeyFiles.SaveKeyIs | src/key.cpp:108-175 | The plain file is 2, then 16 or 32, then as many key bytes |
| KeyFiles.LoadKeyIs | src/key.cpp:217-243 | Exactly which files load, and that the key bytes are followed by zeros |
| KeyFiles.LoadSavedKey | src/key.cpp:108-245 | A saved key loads with the same size and key bytes, whatever follows it in the file |
| KeyFiles.LoadKeyAccepts | src/key.cpp:217-243 | An accepted file starts with a saved key |
| KeyFiles.WellFormedIs | src/key_storage.cpp:239-312 | The structural checks: 41 45 53 57 02, marker 16 in 86 bytes or 32 in 102, count from 1000 to 50,000,000 |
| KeyFiles.WrappedFileIs | src/key_storage.cpp:79-169 | The saved file byte by byte: header, salt at 6, little-endian count at 22, nonce at 26, key bytes XOR the AES-256 counter blocks under the first derived half from 38, and the HMAC of all that under the second half |
| KeyFiles.ParseLaidOut | src/key_storage.cpp:268-312 | A laid-out file passes the structural checks exactly when its iteration count is in range, and parses back to its fields |
| KeyFiles.LaidOutParsed | src/key_storage.cpp:239-312 | A file that passes the structural checks is exactly the layout of its fields |
| KeyFiles.WrappedRoundTrip | src/key_storage.cpp:79-358 | For every key of either size, passphrase, salt and nonce, and every iteration count on which saving returns: saving then loading returns the same size and key bytes exactly when the count is at most 50,000,000, and a format error above |
| KeyFiles.AcceptedFileIsSaved | src/key_storage.cpp:233-358 | Every file that load accepts is the one that saving the loaded key with the file's salt, nonce and count would write |
| KeyStorage.Save | src/key.cpp:108-175 | The file is version, size marker and the logical key bytes |
| KeyStorage.Load | src/key.cpp:183-245 | Loads exactly the valid files, into zeroed storage with a fresh counter |
| KeyStorage.WriteAt | src/key_storage.cpp:127-153 | The written prefix grows by the field and the offset moves past it |
| KeyStorage.WriteHeader | src/key_storage.cpp:123-139 | Magic, version, size marker and salt fill the first 22 bytes |
| KeyStorage.LayOut | src/key_storage.cpp:123-157 | The buffer written at a moving offset holds the format's fields in order |
| KeyStorage.SaveEncrypted | src/key_storage.cpp:79-169 | The whole pipeline produces the wrapped file of the format; a count below 1000 is refused before any HMAC call |
| KeyStorage.CheckLayout | src/key_storage.cpp:239-266 | True exactly when magic, version, size marker and total size are right |
| KeyStorage.ReadAt | src/key_storage.cpp:268-295 | The field at the offset is copied out and the offset moves past it |
| KeyStorage.ReadIterations | src/key_storage.cpp:276-280 | Four bytes read at a moving offset, shifted and ORed into 32 bits, are the little-endian iteration count |
| KeyStorage.ReadFields | src/key_storage.cpp:268-299 | The moving-offset parse reads every field in bounds and gives the format's fields |
| KeyStorage.DecryptWrapped | src/key_storage.cpp:331-357 | For a file whose tag matched: the decrypted key in zeroed storage, with a fresh counter |
| KeyStorage.LoadEncrypted | src/key_storage.cpp:233-358 | On every byte string the outcome is the format's, and the calls made are exactly those of `LoadOps`: none for a malformed file, derivation and tag otherwise, decryption only once the tag matched |
| KeyStorage.LoadOrder | src/key_storage.cpp:301-342 | Loading a well-formed file with c iterations makes 2c HMAC calls, then the one over all bytes before the tag, and block cipher calls only after it and exactly if the tag matches; a malformed file causes no call |
| KeyStorage.LoadWorkBounded | src/key_storage.cpp:301-342 | Whatever the file, loading makes at most 100,000,003 keyed calls, and it makes a block cipher call if and only if it returns a key |
| KeyJourneys.MoveOut | src/key.cpp:53-70 | Move construction and move assignment both deliver bytes, size and count and wipe the source |
| KeyJourneys.MakeHop | src/key.cpp:53-70 | A hop made with the library's own operations on key objects ends as `After` says; a move takes the count along and wipes its source, a file leaves its source alone and starts a new count |
| KeyJourneys.Travel | src/key.cpp:53-245 | A whole journey on key objects ends as `Travelled` says |
| KeyJourneys.HopKeepsKey | src/key.cpp:53-70 | A move or a save and load keeps size and key bytes, and fails exactly when a wrapped file's iteration count is out of range |
| KeyJourneys.JourneyKeepsKey | src/key.cpp:226-243 | The same for every sequence of moves, plain and wrapped saves and loads |
| KeyJourneys.SameKeySameBlocks | src/aes_key_schedule.hpp:49-74 | Keys that agree in size and logical bytes have the same block function, whatever the rest of their storage holds |
| KeyJourneys.JourneyKeepsCiphertexts | src/key_storage.cpp:348-357 | After any such sequence the key produces the same ciphertexts and tags and opens the same containers, although unused storage has become zero |

## Left out

- File system access, permissions, symlink and reparse-point checks, memory locking: saving and loading are functions to and from byte strings, and short reads and writes are not modelled.
- Random generation and CPU feature probing: nonces, salts, key bytes and per-block backend answers are arbitrary inputs.
- Timing behaviour: only the values computed by the constant-time code are modelled.
- Wiping of stack buffers (round keys in the hardware backends, derived keys, tags): it has no effect on any result; wiping of the key object and of the word schedule is modelled.
- Internal consistency checks that cannot fail (`src/key_storage.cpp:117-119`, `155-157`, `297-299`, `344-346`): no input reaches them.
- Known-answer vectors and the hardware self-test: finite checks of what is proved here for all inputs.
- C ABI, Python binding, command-line tool, fuzz harnesses, `byte_view.hpp`: thin wrappers.
- Irreducibility of the GCM polynomial and probabilities of forgery or nonce collision: not decided by the code.
- Pbkdf2.DeriveBlock: asks for fewer than 2^32 - 1 iterations, because the loop does not end for that count; `Pbkdf2.LoopEndsIff` shows the bound is exact.
- KeyStorage.SaveEncrypted: asks for fewer than 2^32 - 1 iterations for the same reason.
- KeyFiles.WrappedRoundTrip: says nothing of 2^32 - 1 iterations, because saving then never returns.
- KeyJourneys.MakeHop: leaves out wrapped files with 2^32 - 1 iterations for the same reason.
- GcmBudget.BudgetHolds: follows a key through moves, not through files or to a moved-from object, whose zeroed key carries a counter of its own.
