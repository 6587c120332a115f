# Verification of the Qubic Dogecoin mining dispatcher

A Dafny model of the mining dispatcher, of the pool code it talks to and of the packet reader in the
tools, with proofs about it. `dafny verify dfyconfig.toml` checks the whole project.

Three kinds of code are modelled.

*Number and hash code in C.* FourQ field arithmetic modulo 2^127-1 (`Field1271`, `FieldLinear`,
`FieldInverse`), 256-bit Montgomery arithmetic (`Montgomery`), the fixed-base comb (`Comb`), the
wNAF recoding and interleaved double multiplication (`Wnaf`, `DoubleScalar`), SchnorrQ (`Schnorr`),
KangarooTwelve (`Sponge`, `KangarooTwelve`), SHA-256, HMAC, PBKDF2 and scrypt (`Sha256`, `Pbkdf2`,
`Scrypt`). Words are integers with every wrap-around and carry written out, arrays are updated in
place as in the source, and each routine is proved against the mathematical function or the
published algorithm it speeds up.

*The dispatcher as a concurrent system.* `Dispatcher` is a state machine whose steps are the atomic
actions of the distributor thread, the validator thread and their environment; its theorems range
over all interleavings, and over connections that are lost and opened again with a new extra nonce.
Its log records what goes into a step apart from what the step makes of it, and `DispatcherTasks`
tells from it which tasks are held. `DispatcherLoops` ties the loop bodies to those steps. `PoolShare` and `PoolRuns` follow a submitted
share to the pool, and `DedupeKey` and `PoolDuplicates` compare what both sides take for a duplicate.
`Framing`, `Lines` and `Reconnect` treat the receive loops for all ways of cutting a stream and all
runs.

*Formats that must agree.* Hex and header bytes between pool and dispatcher (`Hex`, `Header`), task
and solution packets between dispatcher and C# tools (`TaskPacket`, `SolutionPacket`, with its
signature in `SignedPacket` and its way through a stream in `WirePackets`), targets (`Difficulty`), merkle roots (`Merkle`), identities
(`Identity`) and the coinbase transaction (`Transaction`, `Script`, `Coinbase`).

The Keccak permutation, the SHA-256 compression function, the salsa20/8 core, the hashes inside
`Dispatcher`, `Merkle` and `Identity`, the signer and the verifier of packets are function-typed
parameters: every theorem holds for any function in their place. Curve points are elements of any
abelian group satisfying `Schnorr.Sound`, which `CurveModel` shows to be satisfiable; Fermat's
theorem for 2^127-1 is a hypothesis (`FieldInverse.Fermat`) of the lemmas that use it. Clocks,
socket outcomes and queue arrivals are inputs chosen freely by the environment.

Where code and comments differ, the code is followed. `fpexp1251` is described as a^(125-1) and
computes a^(2^125-1). The task's `targetPool` is described as derived from the compact form and is
the exact quotient. Decoded identity fragments wrap modulo 2^64, so decoding is not injective:
`Identity.Canonical` says exactly when it is. `processRecvBuffer` empties its buffer on a broken
header, so what it hands on then depends on how the stream was cut: `Framing.ChunkIndependence` says
exactly for which streams it does not. The validator hashes the merkle root a solution states and
does not compare it with the root of the solution's extra nonce, which is the one the pool uses, and
a share of a task built before a reconnect is rebuilt by the pool with the nonce of the new
connection: `PoolShare.ShareAtPool` says exactly when the two headers agree. `serializeNumber` keeps 32 bits of
its argument: `Script.SerializedExactly` says exactly which numbers survive.

## Model

| member | source | states |
|---|---|---|
| `Field1271.Mod1271` | dispatcher/src/crypto/k12_and_key_utils.h:1056-1061 | the result is the representative modulo 2^127-1 of any operand up to 2^127-1, in place |
| `Field1271.FpAdd` | dispatcher/src/crypto/k12_and_key_utils.h:1063-1067 | a result at most 2^127-1, congruent to the sum, also when the output is an operand |
| `Field1271.FpSub` | dispatcher/src/crypto/k12_and_key_utils.h:1069-1073 | a result at most 2^127-1, congruent to the difference, also under aliasing |
| `Field1271.FpNeg` | dispatcher/src/crypto/k12_and_key_utils.h:1075-1079 | a result at most 2^127-1, congruent to the negation |
| `Field1271.FpMul` | dispatcher/src/crypto/k12_and_key_utils.h:1125-1139 | a result at most 2^127-1, congruent to the product; no carry of the column sums is lost; aliasing allowed |
| `Field1271.FpSqr` | dispatcher/src/crypto/k12_and_key_utils.h:1141-1154 | the same for the square, computed with one cross product added twice |
| `FieldInverse.FpExp1251` | dispatcher/src/crypto/k12_and_key_utils.h:1156-1189 | the chain of squarings and products gives a^(2^125-1), output aliasing the input or not |
| `FieldInverse.Fp2Sqr` | dispatcher/src/crypto/k12_and_key_utils.h:1212-1221 | (a0+a1)(a0-a1) and 2 a0 a1 are the square in GF(p^2), also in place |
| `FieldInverse.Fp2Mul` | dispatcher/src/crypto/k12_and_key_utils.h:1223-1235 | the three-multiplication product is the product in GF(p^2), also when the output is an operand |
| `FieldInverse.NormZero` | dispatcher/src/crypto/k12_and_key_utils.h:1361-1368 | given Fermat's theorem, a0^2+a1^2 vanishes modulo p only when both parts do, so a nonzero z has a nonzero norm |
| `FieldInverse.Invert` | dispatcher/src/crypto/k12_and_key_utils.h:1361-1370 | given Fermat's theorem, a nonzero z is replaced by its true inverse in GF(p^2) |
| `FieldInverse.EccNorm` | dispatcher/src/crypto/k12_and_key_utils.h:1357-1379 | given Fermat's theorem and a nonzero Z, the output times Z is X and Y, fully reduced |
| `FieldLinear.Fp2Neg` | dispatcher/src/crypto/k12_and_key_utils.h:1206-1210 | component-wise negation, in range |
| `FieldLinear.Fp2Add` | dispatcher/src/crypto/k12_and_key_utils.h:1237-1241 | component-wise addition, in range, with in-place use |
| `FieldLinear.Fp2Sub` | dispatcher/src/crypto/k12_and_key_utils.h:1243-1247 | component-wise subtraction, in range, with in-place use |
| `FieldLinear.Fp2AddSub` | dispatcher/src/crypto/k12_and_key_utils.h:1249-1254 | the output is 2a - b, and a is left doubled when the output is not a |
| `FieldLinear.Fp2Div` | dispatcher/src/crypto/k12_and_key_utils.h:1191-1204 | twice the result is congruent to the operand, and the result stays in range |
| `Montgomery.Multiply` | dispatcher/src/crypto/k12_and_key_utils.h:1287-1310 | the eight limbs are the exact 512-bit product for all 256-bit operands |
| `Montgomery.TruncatedProduct` | dispatcher/src/crypto/k12_and_key_utils.h:1330-1342 | the low-half product with the inverse of the order is right modulo 2^256, whatever is dropped above |
| `Montgomery.Reduce` | dispatcher/src/crypto/k12_and_key_utils.h:1344-1350 | adding the right multiple of the order and subtracting the order once leaves a number below the order |
| `Montgomery.MontgomeryMultiply` | dispatcher/src/crypto/k12_and_key_utils.h:1312-1351 | for ma*mb below 2^256 times the order (or mb = 1) the result is below the order and congruent to ma*mb*2^-256, also in place |
| `Montgomery.ReduceModOrder` | dispatcher/src/crypto/k12_and_key_utils.h:1500-1501 | the two calls with Montgomery_Rprime and ONE give k mod the order for every 256-bit k |
| `Montgomery.InverseOfTwo256` | dispatcher/src/crypto/k12_and_key_utils.h:667-668 | 2^256 is invertible modulo the order, so Montgomery form loses nothing |
| `Comb.MakeOdd` | dispatcher/src/crypto/k12_and_key_utils.h:1500-1512 | k mod the order, plus the order when that is even |
| `Comb.Recode` | dispatcher/src/crypto/k12_and_key_utils.h:1514-1550 | the loop writes exactly the 250 digits of the recoding and leaves the residual scalar of the recurrence |
| `Comb.RestVanishes` | dispatcher/src/crypto/k12_and_key_utils.h:1531-1550 | the residual scalar is 0 after the last digit, for every odd scalar below twice the order |
| `Comb.DigitsSum` | dispatcher/src/crypto/k12_and_key_utils.h:1514-1550 | after every digit, the digits so far plus the shifted residual still sum to the scalar |
| `Comb.CombRecoding` | dispatcher/src/crypto/k12_and_key_utils.h:1514-1550 | the scalar is the sum over 50 columns of sign * 2^m * (1 + sum of the four row bits times 2^(50t)) |
| `Comb.LookupIsMultiple` | dispatcher/src/crypto/k12_and_key_utils.h:1261-1278 | a table slot, negated by the sign row, is the column's multiple of the base point |
| `Comb.Schedule` | dispatcher/src/crypto/k12_and_key_utils.h:1552-1680 | the ten rows of doublings and 49 additions sum every column with its weight |
| `Comb.EccMulFixed` | dispatcher/src/crypto/k12_and_key_utils.h:1495-1683 | for every 256-bit k the result is k*G, in any abelian group in which G has the curve order and the table holds its comb multiples |
| `Wnaf.NafValue` | dispatcher/src/crypto/k12_and_key_utils.h:1867-1910 | the recoded digits sum, weighted by powers of two, to the scalar |
| `Wnaf.NafForm` | dispatcher/src/crypto/k12_and_key_utils.h:1867-1910 | every digit is 0 or odd and below 2^(w-1) in size, and any w in a row hold at most one nonzero |
| `Wnaf.NafLength` | dispatcher/src/crypto/k12_and_key_utils.h:1867-1910 | a scalar of n bits needs at most n+1 digits |
| `Wnaf.Recode` | dispatcher/src/crypto/k12_and_key_utils.h:1867-1910 | the loop terminates, stays inside 65 digits, and writes the recoding padded with zeros |
| `DoubleScalar.PrecompDouble` | dispatcher/src/crypto/k12_and_key_utils.h:1912-1929 | slot m of the four-entry table holds (2m+1)*P |
| `DoubleScalar.AddDigit` | dispatcher/src/crypto/k12_and_key_utils.h:1988-2071 | an odd digit selects its slot and is added or subtracted as digit*base; 0 adds nothing |
| `DoubleScalar.Interleave` | dispatcher/src/crypto/k12_and_key_utils.h:1988-2071 | 65 positions of one doubling and one addition per row sum every row's value times its base |
| `DoubleScalar.EccMulDouble` | dispatcher/src/crypto/k12_and_key_utils.h:1931-2076 | recoding, tables and interleaving together give the sum of the eight scalar multiples |
| `DoubleScalar.DecomposedSum` | dispatcher/src/crypto/k12_and_key_utils.h:1931-1987 | when the sub-scalars represent k and l on the eigenvalues, that sum is k*G + l*Q |
| `Sponge.AbsorbSplit` | dispatcher/src/crypto/k12_and_key_utils.h:329-454 | absorbing a string in two pieces is absorbing it whole |
| `Sponge.XorIntoCancel` | dispatcher/src/crypto/k12_and_key_utils.h:329-454 | xoring the same bytes in twice leaves the state as it was |
| `Sponge.FinishIsTurboShake` | dispatcher/src/crypto/k12_and_key_utils.h:564-591 | suffix, final bit and permutation after absorbing m give the sponge hash of the padded m |
| `Sponge.PadTellsApart` | dispatcher/src/crypto/k12_and_key_utils.h:586-591 | different messages or different domain bytes are padded differently |
| `KangarooTwelve.Node.Absorb` | dispatcher/src/crypto/k12_and_key_utils.h:329-454 | every call, whole blocks or lanes in groups, from any index, absorbs exactly its bytes |
| `KangarooTwelve.Node.MarkTree` | dispatcher/src/crypto/k12_and_key_utils.h:471-480 | for every index: 0x03 is absorbed when it fills the block, 0x03 and zeros up to the next lane when that lies in the block, and from inside the last lane the index is left at the end of the block; after 8192 bytes it is 0x03 and seven zeros |
| `KangarooTwelve.LeafLoop` | dispatcher/src/crypto/k12_and_key_utils.h:482-502 | every whole chunk becomes a chaining value in order; a partial one stays queued |
| `KangarooTwelve.LastLeaf` | dispatcher/src/crypto/k12_and_key_utils.h:504-573 | the zero byte of the empty customization ends the last leaf, opening a new one at a chunk boundary, and the leaves are counted |
| `KangarooTwelve.EncodeLength` | dispatcher/src/crypto/k12_and_key_utils.h:574-585 | the buffer is the right-encoded leaf count followed by two 0xFF bytes |
| `KangarooTwelve.TreeMessage` | dispatcher/src/crypto/k12_and_key_utils.h:467-588 | what the final node absorbs is the first chunk, the mark, the chaining values and the encoded count |
| `KangarooTwelve.Hash` | dispatcher/src/crypto/k12_and_key_utils.h:456-592 | for every input below 2^32 bytes, 8191, 8192 and multiples of 8192 included, the output is KT128 with empty customization (section 3.2 of RFC 9861) |
| `KangarooTwelve.KT128IsTop` | dispatcher/src/crypto/k12_and_key_utils.h:456-592 | the output is what the sponge gives for the padded top node |
| `KangarooTwelve.DomainsApart` | dispatcher/src/crypto/k12_and_key_utils.h:564-591 | no single node and no final node are padded to the same string |
| `KangarooTwelve.TopNodeBinds` | dispatcher/src/crypto/k12_and_key_utils.h:456-592 | two inputs whose padded top node is the same string are equal, or two of their leaves collide; a single node and a final node are never the same string |
| `Schnorr.EncodedGuard` | dispatcher/src/crypto/k12_and_key_utils.h:2195-2209 | an encoded point never has bit 127 set, so it passes the first guard of verify |
| `Schnorr.EncodingReadBack` | dispatcher/src/crypto/k12_and_key_utils.h:2195-2209 | an encoding gives back the y-coordinate and, as its top bit, bit 126 of x, of its second half when the first is 0 |
| `Schnorr.SignTellsNegatives` | dispatcher/src/crypto/k12_and_key_utils.h:2195-2209 | a point and its negative have the same encoding if and only if x is 0 |
| `Schnorr.EncodingDecides` | dispatcher/src/crypto/k12_and_key_utils.h:2195-2209 | two points whose x agree up to sign have one encoding exactly when they are one point |
| `Schnorr.ResponseGuard` | dispatcher/src/crypto/k12_and_key_utils.h:2349-2352 | a scalar below the order passes the guards on the last two bytes |
| `Schnorr.Respond` | dispatcher/src/crypto/k12_and_key_utils.h:2315-2329 | the limb arithmetic gives (r - h*k) mod the order, below the order |
| `Schnorr.SchnorrEquation` | dispatcher/src/crypto/k12_and_key_utils.h:2298-2372 | s = r - h*k modulo the order makes h*A + s*G equal R |
| `Schnorr.ChallengeTellsApart` | dispatcher/src/crypto/k12_and_key_utils.h:2298-2365 | commitment, key and digest all enter the challenge, each in its own place, and secret and digest the nonce |
| `Schnorr.SignatureAccepted` | dispatcher/src/crypto/k12_and_key_utils.h:2298-2372 | every signature made with a derived key satisfies h*A + s*G = R and passes every test of verify; uses that the 32-byte key hash is the prefix of the 64-byte one |
| `Schnorr.DerivePublicKey` | dispatcher/src/crypto/key_utils.cpp:22-32 | the encoding of KT128(subseed)*G |
| `Schnorr.Sign` | dispatcher/src/crypto/k12_and_key_utils.h:2298-2341 | commitment to r*G and the response, from the two halves of one hash |
| `Schnorr.Verify` | dispatcher/src/crypto/k12_and_key_utils.h:2343-2372 | for every key, digest and signature: true exactly when the guards pass, the key decodes to a point A and the sub-scalars of h and s, summed over the images of A and the fixed bases, encode to the commitment |
| `Schnorr.AcceptsIsEquation` | dispatcher/src/crypto/k12_and_key_utils.h:2343-2372 | for a key that decodes into the subgroup of the curve order, verify accepts exactly when h*A + s*G encodes to the commitment |
| `CurveModel.ResidueCurveIsSound` | dispatcher/src/crypto/k12_and_key_utils.h:2298-2372 | the hypotheses about the curve, its tables and its decomposition can be met together, so the signature theorems are not vacuous |
| `Schnorr.SignThenVerify` | dispatcher/src/crypto/k12_and_key_utils.h:2298-2372 | derive, sign and verify run together always end in acceptance |
| `Sha256.Context.AddBits` | dispatcher/src/hash_util/scrypt.c:259-271 | the two-word counter with its compared carry is the bit length modulo 2^64 |
| `Sha256.Context.Update` | dispatcher/src/hash_util/scrypt.c:255-294 | a context of m becomes the context of m followed by the data, for any data length |
| `Sha256.Final` | dispatcher/src/hash_util/scrypt.c:298-334 | the digest is the one-shot fold over the message padded as in section 5.1.1 of FIPS 180-4 |
| `Sha256.StateWord` | dispatcher/src/hash_util/scrypt.c:320-334 | word i of the state is bytes 4i to 4i+3 of the digest, most significant first |
| `Sha256.HashPieces` | dispatcher/src/hash_util/scrypt.c:236-334 | the digest is the same for every split of the message into updates |
| `Sha256.CompressedSplit` | dispatcher/src/hash_util/scrypt.c:272-293 | compressing whole blocks in two runs is compressing them in one |
| `Sha256.PaddingTellsApart` | dispatcher/src/hash_util/scrypt.c:298-318 | different messages below 2^61 bytes have different paddings |
| `Sha256.InitialIsRoots` | dispatcher/src/hash_util/scrypt.c:236-252 | the initial state is the fractional parts of the square roots of the first eight primes (section 5.3.3 of FIPS 180-4) |
| `Pbkdf2.HmacContext.constructor` | dispatcher/src/hash_util/scrypt.c:338-370 | keys longer than a block are hashed, shorter ones zero-filled, and both pads absorbed |
| `Pbkdf2.HmacContext.Update` | dispatcher/src/hash_util/scrypt.c:374-379 | message bytes go to the inner context only |
| `Pbkdf2.HmacContext.Finish` | dispatcher/src/hash_util/scrypt.c:383-398 | the digest is HMAC of key and message |
| `Pbkdf2.LongKeyIsHashed` | dispatcher/src/hash_util/scrypt.c:346-352 | a key longer than a block gives the HMAC of its digest as key, the case of every header |
| `Pbkdf2.ShortKeyBlock` | dispatcher/src/hash_util/scrypt.c:353-366 | a key up to a block long is followed by zeros |
| `Pbkdf2.Iterate` | dispatcher/src/hash_util/scrypt.c:432-444 | the accumulated block is the exclusive or of U_1 to U_c |
| `Pbkdf2.OutputBlock` | dispatcher/src/hash_util/scrypt.c:424-444 | a copy of the saved HMAC state gives T_i without hashing password and salt again |
| `Pbkdf2.IterationEnds` | dispatcher/src/hash_util/scrypt.c:424-444 | T_i is the end of every sequence of HMACs and exclusive ors as section 5.2 of RFC 8018 writes it down |
| `Pbkdf2.XorSeqCancel` | dispatcher/src/hash_util/scrypt.c:441-443 | collecting by exclusive or can be undone |
| `Pbkdf2.DeriveKey` | dispatcher/src/hash_util/scrypt.c:406-455 | the buffer is the derived key of section 5.2 of RFC 8018 for every c and dkLen, and nothing past it is written |
| `Pbkdf2.DerivedBlock` | dispatcher/src/hash_util/scrypt.c:417-455 | block i of the derived key is T_i |
| `Scrypt.BlockMix` | dispatcher/src/hash_util/scrypt.c:540-565 | for every r the interleaved writes give scryptBlockMix: even blocks first, then odd (section 4 of RFC 7914) |
| `Scrypt.BlockMixTrace` | dispatcher/src/hash_util/scrypt.c:540-565 | of the steps of scryptBlockMix, written down in order (section 4 of RFC 7914), the output holds those after the even blocks, then those after the odd ones |
| `Scrypt.BlockTraceExists` | dispatcher/src/hash_util/scrypt.c:540-565 | every input has such a sequence of steps |
| `Bytes.MaskIsRemainder` | dispatcher/src/hash_util/scrypt.c:619-619 | masking with a power of two less one is the remainder |
| `Scrypt.MaskedIndex` | dispatcher/src/hash_util/scrypt.c:572-577 | the two words read, masked with N-1, are the 512-bit little-endian Integerify modulo N |
| `Scrypt.FillTable` | dispatcher/src/hash_util/scrypt.c:601-614 | the unrolled first loop fills row i with i block mixes, for every even N |
| `Scrypt.MixLoop` | dispatcher/src/hash_util/scrypt.c:616-631 | the unrolled second loop, with X and Y changing roles, is N rounds of the reference |
| `Scrypt.SMix` | dispatcher/src/hash_util/scrypt.c:588-636 | for every r and every power of two N from 2 on, in place, the result is scryptROMix (section 5 of RFC 7914), inside arrays of exactly the stated sizes |
| `Scrypt.RoMixIsTraceEnd` | dispatcher/src/hash_util/scrypt.c:593-636 | the result is the end of every trace of 2N block mixes, the last N of the state xored with the state its index names (section 5 of RFC 7914); there is one |
| `Scrypt.TraceExists` | dispatcher/src/hash_util/scrypt.c:593-636 | every input has such a trace |
| `Scrypt.RoundKeepsApart` | dispatcher/src/hash_util/scrypt.c:616-631 | a round keeps two states with the same index apart when the block mix is injective |
| `Scrypt.WordsRoundTrip` | dispatcher/src/hash_util/scrypt.c:55-73 | decoding the little-endian words of encoded words gives them back |
| `Scrypt.Scrypt1024` | dispatcher/src/hash_util/scrypt.c:641-673 | the 32-byte output is scrypt with N = 1024, r = p = 1 and the input as password and salt (section 6 of RFC 7914) |
| `Difficulty.FullRep` | dispatcher/src/hash_util/difficulty.cpp:12-33 | the full form is mantissa * 256^(exponent-3) modulo 2^256 for every exponent byte, a right shift below 3 |
| `Difficulty.CompactRep` | dispatcher/src/hash_util/difficulty.cpp:35-82 | the compact form has a mantissa below 2^23 and stands for the number rounded down to 23 bits by whole bytes |
| `Difficulty.RoundedClears` | dispatcher/src/hash_util/difficulty.cpp:35-82 | rounding clears exactly the low bytes that leave a mantissa of 15 to 23 bits |
| `Difficulty.RoundedClose` | dispatcher/src/hash_util/difficulty.cpp:35-82 | the rounded number y of x has y <= x and 32768 (x-y) <= y |
| `Difficulty.RoundedMonotone` | dispatcher/src/hash_util/difficulty.cpp:35-82 | rounding keeps the order of targets |
| `Difficulty.RoundedTwice` | dispatcher/src/hash_util/difficulty.cpp:35-82 | rounding twice is rounding once |
| `Difficulty.DivideWords` | dispatcher/src/hash_util/difficulty.cpp:101-119 | long division from the top word: every quotient word fits and the remainder stays below the divisor |
| `Difficulty.DivideTarget` | dispatcher/src/hash_util/difficulty.cpp:84-127 | floor(target / d) for every 256-bit target and 64-bit d from 1 on; the target itself for 0 |
| `Difficulty.VerifyHash` | dispatcher/src/hash_util/hash_util.cpp:106-115 | true exactly when the hash, as a number, is at most the target |
| `Difficulty.DifficultyTarget.Div` | dispatcher/src/hash_util/difficulty.h:65-69 | the full form is divided and the compact form follows it |
| `Difficulty.PoolTargets` | dispatcher/src/threads/task_dist_thread.cpp:84-86 | the exact target and the one miners expand from the compact form: every hash a miner may send is accepted, and at most one part in 32768 is missed |
| `Difficulty.HarderIsSmaller` | dispatcher/src/threads/task_dist_thread.cpp:255-257 | a higher difficulty never gives a larger exact or compact target |
| `Hex.HexToBytes` | dispatcher/src/hash_util/hash_util.cpp:15-27 | every pair through strtol, odd last character dropped, reversed for little-endian |
| `Hex.StrtolIsNumber` | dispatcher/src/hash_util/hash_util.cpp:15-27 | on every pair of characters this is strtol in base 16 as it works on any string, modulo 256 |
| `Hex.SpacesAre` | dispatcher/src/hash_util/hash_util.cpp:15-27 | the white space it skips is blank, tab, line feed, vertical tab, form feed and carriage return |
| `Hex.BytesToHex` | dispatcher/src/hash_util/hash_util.cpp:29-50 | two lower-case digits per byte, in the order asked for |
| `Hex.HexRoundTrip` | dispatcher/src/hash_util/hash_util.cpp:15-50 | what bytesToHex writes hexToBytes reads back, in either order |
| `Hex.DecodersAgree` | dispatcher/src/hash_util/hash_util.cpp:15-27 | the dispatcher and the pool read a string alike exactly when each of its pairs is hexadecimal |
| `Header.ReverseByteOrder` | foundation-v2-dogecoin/stratum/main/utils.js:446-451 | each word byte-swapped in place, then everything reversed |
| `Header.Word32Value` | foundation-v2-dogecoin/stratum/main/utils.js:372-376 | the four bytes of a packed number are its big-endian digits |
| `Header.HandleHeader` | foundation-v2-dogecoin/stratum/main/template.js:24-39 | the fields written at a moving position and reversed, for any strings; fails when the version is no unsigned 32-bit number |
| `Header.Distribute` | dispatcher/src/threads/task_dist_thread.cpp:55-82 | the version and hash part of the header and the bits, or an error for any wrong size |
| `Header.Assemble` | dispatcher/src/threads/share_valid_thread.cpp:150-160 | the 80 bytes the validator hashes, at a moving offset |
| `Header.HeadersAgree` | foundation-v2-dogecoin/stratum/main/template.js:19-74 | both sides can serialize a template exactly when 0 <= version < 2^31, and then the header rebuilt from mining.submit with the pool's merkle root is the header the dispatcher hashed with the solution's, byte for byte, if and only if the two roots are equal |
| `TaskPacket.ComputeTotal` | dispatcher/src/threads/task_dist_thread.cpp:100-109 | the size added up in advance is the size of the whole packet |
| `TaskPacket.WritePacket` | dispatcher/src/threads/task_dist_thread.cpp:100-177 | an error exactly when the packet exceeds 4096 bytes; otherwise the buffer holds header, payload with the job id filled in late, and the signature of that payload, ending at the computed size |
| `TaskPacket.Parse` | tools/shared/DogeProtocol.cs:221-288 | the reader's result for every payload, wrap-around of the branch count and out-of-range reads included |
| `TaskPacket.BranchesReadBack` | tools/shared/DogeProtocol.cs:272-279 | 32-byte branches laid out up to the signature are all recovered in order |
| `TaskPacket.ReadBack` | tools/shared/DogeProtocol.cs:221-288 | every field, payload part and the signature come back; the branches come back as written exactly when each has 32 bytes |
| `WirePackets.TaskIsPacket` | dispatcher/src/threads/task_dist_thread.cpp:100-118 | a written task packet carries its size so that the receiving code cuts it out whole |
| `WirePackets.HeaderReadBack` | dispatcher/src/structs.h:181-192 | a written packet header gives back the size and the type, and its last four bytes are 0 |
| `WirePackets.SizesAgree` | dispatcher/src/threads/task_dist_thread.cpp:100-109 | the size computed for a job is the size of the packet written for it, and a job with a well-formed header becomes a task exactly when that packet fits the buffer |
| `WirePackets.TasksArrive` | dispatcher/src/structs.h:181-192 | the task packets a peer reads are those written, however its stream is cut |
| `SolutionPacket.SentIsQueued` | dispatcher/src/threads/qubic_recv_thread.cpp:39-81 | a packet is queued exactly when it has the DOGE kind and a verifying signature, with the fields sent; ParseSolution returns them too |
| `SolutionPacket.QueuedExactly` | dispatcher/src/threads/qubic_recv_thread.cpp:39-81 | a packet is queued as a solution exactly when it has the size, the type and that solution's body with the DOGE kind, and its last 64 bytes verify as the signature of the body |
| `SolutionPacket.OverlayBody` | dispatcher/src/structs.h:107-132 | the packed structs give back each field written into them |
| `SolutionPacket.ComputorIndexIs` | dispatcher/src/threads/share_valid_thread.cpp:175-177 | the index is the big-endian number in the first four bytes modulo 676 |
| `WirePackets.SolutionsArrive` | dispatcher/src/threads/qubic_recv_thread.cpp:85-115 | from stream to queue: however the solution packets are cut, each comes out whole and in order, and is queued exactly when it has the DOGE kind and a verifying signature |
| `SignedPacket.ProcessSolution` | dispatcher/src/threads/qubic_recv_thread.cpp:39-81 | hashing the body and running verify decides the packet as processing with the Schnorr test does |
| `SignedPacket.SignedIsQueued` | dispatcher/src/threads/qubic_recv_thread.cpp:55-81 | a packet whose body digest is signed with the derived key it names is queued with its fields |
| `SignedPacket.SendSolution` | dispatcher/src/threads/qubic_recv_thread.cpp:39-81 | derive the key, sign the body, process the packet: the solution is queued |
| `Framing.LeftOverBound` | dispatcher/src/threads/qubic_recv_thread.cpp:85-115 | after any call on any stream the left-over is shorter than 10 MiB |
| `Framing.SizeIsLittleEndian` | dispatcher/src/structs.h:181-192 | the size of a packet is the little-endian number in its first three bytes, and INT32_MAX when that is 0 |
| `Framing.AnyChunks` | dispatcher/src/threads/qubic_recv_thread.cpp:85-115 | however a stream without a broken header is cut into reads, the packets handed on and the left-over are those of the whole |
| `Framing.ChunkIndependence` | dispatcher/src/threads/qubic_recv_thread.cpp:94-98 | every two-way cut agrees with the whole if and only if the stream has no broken header with bytes after it |
| `Framing.NinthByteKept` | dispatcher/src/threads/qubic_recv_thread.cpp:94-98 | eight zero bytes and one more: read together all nine are dropped, read as eight and one the last is kept |
| `Framing.SentIsReceived` | dispatcher/src/threads/qubic_recv_thread.cpp:85-115 | packets of 8 to 10485760 bytes followed by the start of another are received as sent, for every cut |
| `Framing.RecvBuffer.Process` | dispatcher/src/threads/qubic_recv_thread.cpp:85-115 | one call hands on the packets of the buffer in order and keeps the rest |
| `Framing.ReceiveAll` | dispatcher/src/threads/qubic_recv_thread.cpp:264-271 | a run over all reads of a connection |
| `Lines.CutOfJoined` | dispatcher/src/threads/stratum_recv_thread.cpp:144-159 | lines and rest without newlines are the only way to write a stream |
| `Lines.CutInTwo` | dispatcher/src/threads/stratum_recv_thread.cpp:141-159 | every cut of every stream gives the same lines |
| `Lines.ReceiveAll` | dispatcher/src/threads/stratum_recv_thread.cpp:141-159 | the messages queued are those of the non-empty newline-split lines that parse, for every sequence of reads |
| `Reconnect.DelayDoubles` | dispatcher/src/threads/qubic_recv_thread.cpp:149-152 | m failures in a row give a delay of 2^m seconds, capped at 60 |
| `Reconnect.DelaysInEveryRun` | dispatcher/src/threads/qubic_recv_thread.cpp:138-205 | in every run from the start of the loop every delay is 0 or between 2 and 60 seconds |
| `Reconnect.DueTimes` | dispatcher/src/threads/qubic_recv_thread.cpp:138-175 | a lost connection is due after its delay, a failed attempt after twice the delay, between 2 and 60 seconds, and after a success the next loss waits 2 seconds |
| `Reconnect.WaitsUntilDue` | dispatcher/src/threads/qubic_recv_thread.cpp:176-205 | in every run, a connection is not tried while all clocks read before its due time |
| `Reconnect.TriedOnceDue` | dispatcher/src/threads/qubic_recv_thread.cpp:176-205 | once a connection is due by every clock reading, a call tries some connection |
| `Reconnect.TriedOrCloser` | dispatcher/src/threads/qubic_recv_thread.cpp:176-205 | a call tries a ready connection or strictly lowers its distance from the scan index |
| `Reconnect.TriedInTime` | dispatcher/src/threads/qubic_recv_thread.cpp:176-205 | in every run a connection that stays ready is tried within its distance of further calls, whatever the others do |
| `Reconnect.TriedWithinN` | dispatcher/src/threads/qubic_recv_thread.cpp:176-205 | n calls are enough for n connections |
| `Reconnect.Connections.constructor` | dispatcher/src/threads/qubic_recv_thread.cpp:222-232 | one distinct state a connection, those not connected due at once, the scan at the first |
| `Reconnect.Connections.TryOneReconnect` | dispatcher/src/threads/qubic_recv_thread.cpp:176-205 | the scan tries the first ready connection from the index on, and resets or reschedules only that one |
| `Merkle.DigestFromSiblings` | dispatcher/src/crypto/key_utils.cpp:115-156 | the loop over the pair buffer is the fold along the sibling path |
| `Merkle.PathGivesRoot` | dispatcher/src/crypto/key_utils.cpp:115-156 | for every depth and leaf index the fold over the leaf's sibling path is the root of the complete tree |
| `Merkle.RootFromLeaf` | dispatcher/src/crypto/key_utils.cpp:115-156 | any input of a complete tree, with its path, gives the tree's root |
| `Merkle.FoldBinds` | dispatcher/src/crypto/key_utils.cpp:115-156 | another leaf or path of the same length that gives the same root at the same index yields two different 64-byte inputs with one hash |
| `Merkle.DoubleSha256` | dispatcher/src/hash_util/hash_util.cpp:52-69 | SHA-256 of the SHA-256 |
| `Merkle.MerkleRoot` | dispatcher/src/hash_util/hash_util.cpp:71-104 | the coinbase in four parts hashed and folded with every branch on the right, whatever the branch lengths |
| `Merkle.LeftFoldIsIndexZero` | dispatcher/src/hash_util/hash_util.cpp:71-104 | with 32-byte branches this is the index-0 case of the sibling fold |
| `Merkle.StepsGiveRoot` | foundation-v2-dogecoin/stratum/main/utils.js:260-265 | folding the coinbase hash with the steps sent to the miners is the root over the coinbase and all transactions, for every number of them |
| `Merkle.CompleteTreeRoot` | foundation-v2-dogecoin/stratum/main/manager.js:132-137 | over a power of two of leaves this root is that of the complete tree |
| `Merkle.OddCountsTwice` | foundation-v2-dogecoin/stratum/main/manager.js:132-137 | with an odd number of nodes on a level, more than one, the last counts twice |
| `Identity.Encode` | dispatcher/src/crypto/key_utils.cpp:34-58 | four fragments of fourteen letters and the four-letter checksum of eighteen hash bits |
| `Identity.HashKey` | dispatcher/src/crypto/key_utils.cpp:50-52 | that hash is the first three bytes of the key's KT128 |
| `Identity.ChecksumIsMasked` | dispatcher/src/crypto/key_utils.cpp:50-57 | the checksum is the hash masked with 0x3FFFF |
| `Identity.Decode` | dispatcher/src/crypto/key_utils.cpp:66-83 | nothing for a letter that is not upper case; otherwise the fragments modulo 2^64 |
| `Identity.CheckIdentity` | dispatcher/src/crypto/key_utils.cpp:85-113 | true exactly when the letters are upper case and the checksum letters match the decoded key |
| `Identity.RoundTrip` | dispatcher/src/crypto/key_utils.cpp:34-113 | every key comes back from its upper-case identity, whose checksum is right |
| `Identity.LowerCaseRejected` | dispatcher/src/crypto/key_utils.cpp:60-83 | a lower-case identity is never decoded |
| `Identity.Canonical` | dispatcher/src/crypto/key_utils.cpp:34-113 | an identity is its decoded key's identity exactly when the checksum matches and every fragment is below 2^64 |
| `Identity.TwoFragmentsOneWord` | dispatcher/src/crypto/key_utils.cpp:66-83 | different fragments can decode to the same word, by wrap-around |
| `Transaction.VarIntReadBack` | foundation-v2-dogecoin/stratum/main/utils.js:540-559 | a variable-length integer is read back, whatever follows |
| `Transaction.OutputsReadBack` | foundation-v2-dogecoin/stratum/main/transactions.js:97-126 | serialized outputs decode to themselves |
| `Script.EncodeChunks` | foundation-v2-dogecoin/stratum/main/utils.js:165-201 | the write pass always ends at the length of the size pass, so the error is never thrown |
| `Script.ScriptReadBack` | foundation-v2-dogecoin/stratum/main/utils.js:147-201 | the script written for some chunks says exactly those chunks |
| `Script.ItemsAppend` | foundation-v2-dogecoin/stratum/main/utils.js:147-201 | a script readable to its end is read first, item by item, when another follows it |
| `Script.SerializeNumber` | foundation-v2-dogecoin/stratum/main/utils.js:471-484 | for every integer the bytes written after 32-bit truncation by the shifts, at most six, or nothing where the byte write throws |
| `Script.SerializedExactly` | foundation-v2-dogecoin/stratum/main/utils.js:471-484 | a number is pushed as itself, whatever follows, if and only if it is from 0 to 2^31-1 |
| `Script.NumberReadBack` | foundation-v2-dogecoin/stratum/main/utils.js:471-484 | the first push of a script starting with a serialized number has that value |
| `Coinbase.SensibleIsPayable` | foundation-v2-dogecoin/stratum/main/transactions.js:97-126 | non-negative shares that sum below one can be paid: with products rounded to 53 bits for every reward up to 2^53, and with exact products for every reward, the pool then keeping something |
| `Coinbase.LoaderSumClose` | foundation-v2-dogecoin/server/main/loader.js:49-53 | the loader's rounded sum is short of the exact sum by at most 2^-54 for each recipient |
| `Coinbase.AcceptedIsPayable` | foundation-v2-dogecoin/server/main/loader.js:49-63 | non-negative shares that the loader lets pass, its sum rounded at every addition, can be paid with rounded products when the reward times the number of recipients and two more is at most 2^53 |
| `Coinbase.RewardConserved` | foundation-v2-dogecoin/stratum/main/transactions.js:97-126 | the outputs sum exactly to the block reward |
| `Coinbase.SharePaid` | foundation-v2-dogecoin/stratum/main/transactions.js:97-104 | a recipient's amount is its percentage of the reward rounded down: more than the product less one and at most the product, with one part in 2^53 on both sides for rounded products |
| `Coinbase.HandleGeneration` | foundation-v2-dogecoin/stratum/main/transactions.js:41-137 | two halves exactly when no amount is negative, with the pool's output first and the commitment last |
| `Coinbase.SplicedDecodes` | foundation-v2-dogecoin/stratum/main/template.js:42-49 | for all 4-byte and 8-byte nonces the spliced bytes decode to one input, whose script has the declared length and ends in the nonces, and to the outputs |
| `Coinbase.SensibleCoinbase` | foundation-v2-dogecoin/stratum/main/transactions.js:41-137 | shares that truly sum below one, with exact or rounded products, or that the loader lets pass, within the bounds above, always give a transaction that decodes and pays exactly the reward |
| `Coinbase.ScriptSays` | foundation-v2-dogecoin/stratum/main/transactions.js:69-85 | without merged mining, and with coinbase flags that read as whole items, the complete script reads as the height, the items of the flags, the time and one push of the two nonces |
| `Coinbase.CoinbaseSays` | foundation-v2-dogecoin/stratum/main/template.js:42-49 | the spliced transaction decodes, and the script of its one input reads as the height, the items of the flags, the time and one push of the two nonces |
| `Coinbase.RecipientsPaid` | foundation-v2-dogecoin/stratum/main/transactions.js:97-126 | on the decoded transaction, the first output pays the pool's script what the others leave of the reward, output i+1 pays recipient i's script its percentage rounded down, and a commitment comes last and pays nothing |
| `Coinbase.HeightFirst` | foundation-v2-dogecoin/stratum/main/transactions.js:69-85 | the script starts by pushing the height, whatever the flags and the merged-mining data |
| `Coinbase.FlagsCanSwallow` | foundation-v2-dogecoin/stratum/main/transactions.js:69-85 | flags 0x4b do not read as items, and the script then has no reading after the height |
| `DedupeKey.KeyInjective` | dispatcher/src/threads/share_valid_thread.cpp:109-111 | two shares have the same key exactly when job, nonce and extraNonce2 agree |
| `PoolDuplicates.Submissions.Handle` | foundation-v2-dogecoin/stratum/main/template.js:77-84 | a submission is new exactly when its joined lower-case strings were not submitted for the job, and is then remembered |
| `PoolDuplicates.CaseIgnored` | foundation-v2-dogecoin/stratum/main/template.js:77-84 | a submission in capital letters counts as the same |
| `PoolDuplicates.PoolKeyInjective` | foundation-v2-dogecoin/stratum/main/template.js:77-84 | within one session two shares have one key at the pool exactly when extraNonce2, time and nonce agree |
| `PoolDuplicates.KeysCompared` | dispatcher/src/threads/share_valid_thread.cpp:107-113 | the dispatcher takes two shares for one that the pool tells apart exactly when only the time differs; the pool takes two for one that the dispatcher tells apart exactly when only the dispatcher's job id differs |
| `PoolDuplicates.DroppedThoughNew` | dispatcher/src/threads/share_valid_thread.cpp:107-113 | in every run, a solution new to the pool is dropped exactly when a share of its job, nonce and extraNonce2 passed with no other job counted since, and no passed share has its nonce, extraNonce2 and time |
| `PoolDuplicates.RepeatedAtPool` | dispatcher/src/threads/share_valid_thread.cpp:107-122 | in every run, two passed shares that are one to the pool have different job ids or another job counted between them |
| `Dispatcher.CountersStep` | dispatcher/src/threads/share_valid_thread.cpp:115-201 | every step keeps received = accepted + rejected + stale + in flight, accepted = passed = the sum of the computor shares = submitted + discarded + winning, and each counter, per computor too, counts its own kind of event, the pool's responses and the tasks distributed included |
| `Dispatcher.TasksKnownStep` | dispatcher/src/threads/task_dist_thread.cpp:47-197 | every step keeps: the map holds the insertions since the queue last ran empty with a clean job taken, the target is that of the last difficulty taken, a solution is stale exactly when its job is not in the map, a pass meets the target of the task found, and a pass is submitted exactly when the connection is up |
| `Dispatcher.SubmittedWasInserted` | dispatcher/src/threads/share_valid_thread.cpp:124-223 | a submitted share goes back to a pass, a lookup and an insertion of the same task, all earlier in the log |
| `Dispatcher.RememberedStep` | dispatcher/src/threads/share_valid_thread.cpp:109-202 | every step keeps: a key that passed is remembered until another job is counted |
| `Dispatcher.DroppedExactly` | dispatcher/src/threads/share_valid_thread.cpp:107-122 | in every run, each solution taken is skipped exactly when a share with its key passed and no other job was counted since |
| `Dispatcher.EveryRunIsSafe` | dispatcher/src/threads/share_valid_thread.cpp:103-224 | in every interleaving of distributor and validator steps the three safety properties hold |
| `DispatcherTasks.LookupExactly` | dispatcher/src/threads/task_dist_thread.cpp:47-49 | in every run, a lookup finds a task exactly when it was inserted under the id, was not replaced, and no drain that held a clean job ended since |
| `DispatcherTasks.CleanMakesStale` | dispatcher/src/threads/task_dist_thread.cpp:47-49 | in every run, once a drain with a clean job ended, solutions of jobs inserted only before are stale |
| `DispatcherTasks.KeptWithoutClean` | dispatcher/src/threads/task_dist_thread.cpp:47-49 | in every run, a task is found by every lookup until it is replaced or a drain with a clean job ends |
| `DispatcherTasks.SubmittedWasLive` | dispatcher/src/threads/share_valid_thread.cpp:124-223 | in every run, a submitted share was looked up while its task was live |
| `DispatcherTasks.JobsBecomeTasks` | dispatcher/src/threads/task_dist_thread.cpp:259-296 | in every run, what is inserted is the task of the last job taken before the queue ran empty, with the nonce of the build and the target of the last difficulty; no such job goes without a task unless none can be built |
| `DispatcherTasks.NothingLostInRuns` | dispatcher/src/threads/task_dist_thread.cpp:246-264 | in every run, messages and solutions taken, followed by those waiting, are those that came in, in order |
| `Dispatcher.SubmittedForJob` | dispatcher/src/threads/task_dist_thread.cpp:244-296 | in every run, a submitted share is for a task built from a job the pool announced, with the nonce and target of the task |
| `Dispatcher.SubmittedInSession` | dispatcher/src/threads/stratum_recv_thread.cpp:105-138 | in every run, a task's nonce was given out in some subscription, and a share submitted before any new connection is for a task with the nonce the pool holds |
| `DispatcherLoops.Drain` | dispatcher/src/threads/task_dist_thread.cpp:264-296 | the job distributed is the last one announced, clean if any was, under the last difficulty, and the drain is a run of one step per message |
| `DispatcherLoops.TaskDistributor.Distribute` | dispatcher/src/threads/task_dist_thread.cpp:259-296 | draining, clearing, building and inserting is a run of the state machine that ends waiting with the queue empty |
| `DispatcherLoops.TargetIsQuotient` | dispatcher/src/threads/task_dist_thread.cpp:255-257 | the current target is what divideTarget returns |
| `DispatcherLoops.SetTarget` | dispatcher/src/threads/task_dist_thread.cpp:252-257 | a difficulty message runs divideTarget and sets the target of the state machine |
| `DispatcherLoops.HashMeets` | dispatcher/src/threads/share_valid_thread.cpp:150-188 | the header assembled, hashed and compared decides whether the share meets the target |
| `DispatcherLoops.ShareValidator.Validate` | dispatcher/src/threads/share_valid_thread.cpp:103-224 | the loop body does what the validator's steps do, branch by branch |
| `DispatcherLoops.IterationIsRun` | dispatcher/src/threads/share_valid_thread.cpp:103-224 | an iteration is a run of the state machine |
| `PoolShare.RootsAgree` | foundation-v2-dogecoin/stratum/main/manager.js:132-137 | a miner who folds the branches of its task gets the root the pool computes at the task's nonce |
| `PoolShare.NonceBinds` | foundation-v2-dogecoin/stratum/main/manager.js:129-137 | two first nonces of one length give different roots, or two different strings of one length with one double hash |
| `PoolShare.RebuiltIsHashed` | foundation-v2-dogecoin/stratum/main/manager.js:129-140 | for any nonce the pool holds, the header it rebuilds from the submitted strings is the one the dispatcher hashed if and only if the solution states the pool's root at that nonce |
| `PoolShare.ShareAtPool` | dispatcher/src/threads/share_valid_thread.cpp:204-223 | in every run whose jobs all come from the pool, every submitted share names a job of the pool; at any nonce of the connection the hashed header is rebuilt if and only if the stated root is the pool's there, and then meets the target; for an honest miner this is so if and only if the roots at the connection's and the task's nonce agree; before a new connection the two nonces are equal |
| `PoolRuns.AnyRootSubmitted` | dispatcher/src/threads/share_valid_thread.cpp:150-223 | any solution whose stated header meets the target of an announced job is submitted in some run over the first connection, whatever root it states |
| `PoolRuns.AnyNonceSubmitted` | dispatcher/src/threads/stratum_recv_thread.cpp:105-138 | it is also submitted in some run over a later connection, with any nonce |
| `PoolRuns.WrongRootSubmitted` | dispatcher/src/threads/share_valid_thread.cpp:150-160 | a run whose submitted share states another root, so that the pool rebuilds another header, which hashes above the target |
| `PoolRuns.ReconnectSpoilsShare` | foundation-v2-dogecoin/stratum/main/pool.js:1358-1380 | a run whose submitted share states the root of its task, and the pool, holding a new nonce after a reconnect, rebuilds another header, which hashes above the target |

## Left out

- The rounds of the Keccak permutation, of SHA256_Transform and of salsa20_8, and the layout of lanes inside them.
- The point formulas, the coordinate conversions, the contents of the precomputed tables, point decoding, the endomorphisms and the scalar decomposition: they enter through the hypotheses of `Schnorr.Sound`.
- Fermat's theorem for 2^127-1, used as a hypothesis.
- The aarch64 carry fallbacks, which lose a carry; the x86 intrinsics are modelled.
- KangarooTwelve.Hash: outputs of at most 168 bytes, since the routine copies from one block, and inputs below 2^32 bytes, the range of its length parameter.
- Comb.Schedule: the 49 unrolled additions are a loop over rows and table blocks.
- Schnorr.Verify: the images of a point under the endomorphisms are a parameter, known to be multiples of it only inside the subgroup of the curve order; the second curve check, at the start of the double multiplication, is not modelled.
- Scrypt.CopyWords, Scrypt.XorInto: move 32-bit words, where the source moves machine words of twice that size.
- Scrypt.SMix: X, Y and Z are three arrays, where the source cuts them out of one scratch buffer; alignment is not modelled.
- Pbkdf2.DeriveKey: dkLen at most 32*(2^32-1), the limit of the standard.
- Difficulty.LoadWord: or-ing bytes into disjoint positions is written as addition.
- TaskPacket.WritePacket: the signature is any 64-byte function of the payload; sending to the peers is not modelled.
- Hex.HexToBytes: characters are unsigned; on platforms with other character sets isspace may accept more.
- PoolShare.PoolRoot: the pool's merkle library is taken to hash pairs level by level with an odd last node doubled, and its proof to be the siblings of the first leaf; the transaction hashes are given as bytes.
- Coinbase.AcceptedIsPayable: says nothing of larger rewards, where the loader can let pass shares whose exact sum is slightly more than one; rounding is any function with the stated properties of rounding to nearest.
- Coinbase.ScriptSays: heights and times from 0 to 2^31-1, the numbers that are pushed as themselves; with merged mining the declared push covers the merged-mining data, so the nonces are not a push of their own.
- Dispatcher.EveryRunIsSafe: counters are unbounded, submissions are logged when the connection is up without modelling whether the send succeeds, and reading or replacing the extra nonce is one atomic step, where the source does both without a lock.
- PoolShare.ShareAtPool: the pool holds every job it announced under its id; discarded jobs, which it rejects as not found, the reuse of ids after 65534 jobs, and its checks of sizes, times and the worker are not modelled.
- Lines.ReceiveAll: the buffer cleared on a lost connection and the reconnect delays of the stratum loop are not modelled.
- Reconnect.TriedInTime: speaks of the scheduler only; a failed send in another thread can drop a connection without scheduling a retry.
- hashDifficulty, which only feeds log lines and returns 0 for every hash.
- VarDiff, whose crossed bounds do not hold over a run.
- Payout and share-difficulty arithmetic of the pool, which rests on floating point and daemon replies.
- Address decoding.
- Sockets, polling, thread start and stop, JSON parsing, logging, configuration, statistics files, the relay, the worker and the web pages.
- The litecoin copies and the second copies of scrypt and SHA-256.
- The packet deduplicator and client registry rings are not modelled.
