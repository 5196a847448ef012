# Smart lock firmware: a Dafny model with proofs

The firmware of an NFC smart lock runs a mutual-authentication handshake over a PN532
reader, keeps authorised phone keys in flash and uses the Monocypher routines for
X25519, Ed25519, SHA-512 and Poly1305. This project models the parts of it that are hard
to see to be right and proves what they are for.

**Arithmetic.** `Words`, `Arith` and `Bits` give machine words as bounded integers: a
computation over `u32`, `u64`, `i32` or `i64` is accepted only if no intermediate leaves
the width the C code gives it, so every limb routine below also proves the absence of
overflow. `Limbs` and `ScalarL` are the 32-bit-limb arithmetic modulo the group order L
(schoolbook products, Barrett, Montgomery); `FieldElement`, `FieldMul`, `FieldBytes` and
`FieldInvert` the ten-limb signed arithmetic modulo 2^255-19; `Ladder` and
`ScalarInverse` X25519 and its blinded inverse, `LadderGroup` what both compute on the
curve; `Slide`, `Comb` and `CheckEquation` the scalar recodings over an abstract abelian
group (`Group`, `Curve`); `Ed25519` signing and checking on top of them, `Ed25519Laws`
their formulas written out. `Sha512Spec`/`Sha512Stream` and `Poly1305`/`Poly1305Stream`
set a one-shot definition against the streaming contexts; `Sha512Laws`, `Primes` and
`Poly1305Laws` say what those definitions are, bit by bit, prime by prime and byte by
byte.

**Protocol.** `Session` is the lock's half of the handshake and secure channel,
`Transport` the APDU states over a scripted link, `Handshake` the phone's half and the
agreement of both, `EndToEnd` an honest session through the whole stack, `Provision` the
one-shot provisioning window, `Mailbox` the two-task exchange with the application,
`KeyStore` the key store over slotted storage that can lose power at any point, `Pn532`
the reader's frame codec. `ProtocolFormat` spells out the bytes and statuses of all of
them. Whole runs are stated over histories: the facade's `trace` of events, the storage's
`log` of every state a power loss could leave, the mailbox's list of posted and returned
commands; `HistoryLaws` says what the conditions on a trace imply about the order of its
events.

Hypotheses are explicit. `FieldInvert.PrimeField` and `ScalarInverse.PrimeOrder` say
what primality of 2^255-19 and of L gives; `Curve.Lawful` says that the curve is an
abelian group in which [L]B is neutral, that the precomputed tables hold the multiples
they should, and that decoding inverts encoding; `LadderGroup.Lawful` that doubling and
differential addition on v^2 = u^3 + 486662 u^2 + u have the well-known formulas in
projective coordinates and that every u is the coordinate of a point;
`Handshake.Lawful` says that key agreement commutes (which `LadderGroup.Agree` proves of
X25519), that signatures verify and that sealed text opens.

Where code and comment differ the code is followed. The comment at `FE_CARRY` allows
|t0| up to 2^63, but the macro first adds 2^25 to t0, so the model's input range
(`FieldElement.Carriable`) leaves room for that addition (`FieldElement.RoundingFits`);
all callers stay far inside it. The header of the session says that the termination
callback fires once; the code calls it twice, and `Session.Session.OnErase` states the
common effect.

Results that a reader may not expect, each with its exact condition. A power loss inside
a revoke leaves a duplicate when it falls between the first rewrite and the last erase
(`KeyStore.CrashDuplicates`); after a restart a complete revoke removes every key but
that one (`KeyStore.RevokeAfterCrash`, and as a run `KeyStore.DuplicateSurvives`). Right
after the first erase it leaves old slots behind the gap, which come back with the next
addition, and nowhere else (`KeyStore.AddAfterCrash`). A lifecycle event reaches the
application unless it is written between the application's read and its clearing of the
event field (`Mailbox.EventArrivesExactly`); `Mailbox.EventCanBeLost` is a run in which
the end of a session is lost that way. The frame parser as such accepts an empty frame
with one changed byte when at least 54572 bytes follow that complete it
(`Pn532.EmptyFrameDamage`); no read of the driver is that long, since its buffer ends at
276 bytes, so within one read there is no exception (`Pn532.DamageInOneRead`).

## Model

| member | source | states |
|---|---|---|
| `Limbs.MultiplyAcc` | components/monocypher/src/monocypher.c:1605-1616 | the schoolbook loops add the full product of the two limb numbers, no 64-bit accumulator overflows |
| `Limbs.MultiplyLow` | components/monocypher/src/monocypher.c:2784-2803 | the truncated product is the product modulo 2^(32n), with the dropped multiple as witness |
| `ScalarL.IsAboveL` | components/monocypher/src/monocypher.c:1618-1628 | the carry of adding the complement decides x >= L |
| `ScalarL.RemoveL` | components/monocypher/src/monocypher.c:1634-1643 | L is subtracted exactly when x >= L, in place or not |
| `ScalarL.BarrettQuotient` | components/monocypher/src/monocypher.c:1646-1684 | for every 512-bit x the estimated quotient is x/L or one less, so the remainder is below 2L |
| `ScalarL.SubtractionExact` | components/monocypher/src/monocypher.c:1663-1684 | the 256-bit subtraction of truncated numbers loses nothing |
| `ScalarL.ModL` | components/monocypher/src/monocypher.c:1646-1688 | every 16-limb x is stored as x mod L |
| `ScalarL.EddsaReduce` | components/monocypher/src/monocypher.c:1690-1696 | 64 bytes are reduced to their residue mod L |
| `ScalarL.EddsaMulAdd` | components/monocypher/src/monocypher.c:1699-1710 | stores (a*b+c) mod L for all 32-byte a, b, c |
| `ScalarL.Redc` | components/monocypher/src/monocypher.c:2784-2820 | for x < L*2^256 the result u is below L and u*2^256 is congruent to x |
| `FieldElement.Carried` | components/monocypher/src/monocypher.c:1077-1152 | the carry chain fits i64, keeps the value mod 2^255-19 and restores the 1.1*2^25 / 1.1*2^24 bounds |
| `FieldElement.RoundingFits` | components/monocypher/src/monocypher.c:1077-1152 | within the commented range of t0 the first addition fits i64 exactly up to 2^63 - 2^25 - 1; 2^63 - 1 leaves it |
| `FieldMul.MulColumnsValue` | components/monocypher/src/monocypher.c:1257-1305 | under the 1.65 bounds the ten column sums fit their widths and stand for the product mod p |
| `FieldMul.FeMul` | components/monocypher/src/monocypher.c:1257-1305 | product of residues, with tight limbs |
| `FieldMul.SquareIsMultiply` | components/monocypher/src/monocypher.c:1313-1357 | squaring equals multiplying by itself limb for limb |
| `FieldMul.FeMulSmall` | components/monocypher/src/monocypher.c:1237-1248 | product with a 32-bit constant |
| `FieldMul.FeAdd` | components/monocypher/src/monocypher.c:976 | sum of residues; tight inputs give an input a multiplication accepts |
| `FieldMul.FeSub` | components/monocypher/src/monocypher.c:977 | difference of residues, same bounds |
| `FieldBytes.FeFromBytes` | components/monocypher/src/monocypher.c:1160-1179 | the overlapping loads decode s mod 2^255 |
| `FieldBytes.FeToBytes` | components/monocypher/src/monocypher.c:1181-1228 | the bytes are the unique representative in [0,p), negative limbs included |
| `FieldBytes.Canonicalize` | components/monocypher/src/monocypher.c:1160-1228 | encoding a decoded string gives (s mod 2^255) mod p |
| `FieldBytes.Verify32` | components/monocypher/src/monocypher.c:144-161 | the branch-free comparison is 0 exactly for equal strings |
| `FieldBytes.FeIsEqual` | components/monocypher/src/monocypher.c:1370-1380 | decides equality mod p |
| `FieldInvert.Chain` | components/monocypher/src/monocypher.c:1446-1457 | the addition chain computes the power (p-5)/8 |
| `FieldInvert.Invsqrt` | components/monocypher/src/monocypher.c:1439-1480 | result and flag: an inverse root of x or of x over sqrt(-1), and whether x is a square |
| `FieldInvert.FeInvert` | components/monocypher/src/monocypher.c:1484-1498 | the inverse, zero for zero |
| `FieldInvert.InverseInverts` | components/monocypher/src/monocypher.c:1484-1498 | p being prime, that value times x is one for every x that p does not divide |
| `Ladder.RewrittenConstant` | components/monocypher/src/monocypher.c:1553-1561 | the 121666/BB form equals section 5's 121665/AA form |
| `Ladder.Step` | components/monocypher/src/monocypher.c:1544-1561 | one limb-level step is one RFC 7748 step and keeps every limb precondition |
| `Ladder.DeferredSwap` | components/monocypher/src/monocypher.c:1535-1566 | swapping by the xor of neighbouring bits equals swapping in and out at each bit |
| `Ladder.Scalarmult` | components/monocypher/src/monocypher.c:1519-1576 | for every scalar, point and bit count the output is the ladder's u-coordinate, fully reduced |
| `Ladder.X25519` | components/monocypher/src/monocypher.c:1578-1587 | X25519 of RFC 7748 with the trimmed scalar |
| `Ladder.TrimmedScalar` | components/monocypher/src/monocypher.c:1501-1507 | for every 32 bytes a trimmed scalar is a multiple of 8 from 2^254 up to below 2^255 |
| `Ladder.TrimKeepsBits` | components/monocypher/src/monocypher.c:1501-1507 | bits 3 to 253 are those of the input |
| `LadderGroup.StepDoubles` | components/monocypher/src/monocypher.c:1544-1561 | for all integers the first half of a step is the doubling (X^2-Z^2)^2 : 4XZ(X^2+486662XZ+Z^2) |
| `LadderGroup.StepAdds` | components/monocypher/src/monocypher.c:1544-1561 | the second half is the differential addition 4(X2X3-Z2Z3)^2 : 4x1(X2Z3-Z2X3)^2 |
| `LadderGroup.RungsMultiply` | components/monocypher/src/monocypher.c:1535-1566 | after the bits down to any place the two pairs stand for [m]Q and [m+1]Q, m the number those bits make |
| `LadderGroup.LadderMultiplies` | components/monocypher/src/monocypher.c:1519-1576 | the ladder over n bits of k gives the u-coordinate of [k mod 2^n]Q |
| `LadderGroup.ZeroStaysZero` | components/monocypher/src/monocypher.c:1519-1576 | started at coordinate zero it gives zero, whatever the scalar |
| `LadderGroup.LadderTwice` | components/monocypher/src/monocypher.c:1519-1587 | two ladders in a row multiply by the product of their scalars, for every coordinate |
| `LadderGroup.LadderCommutes` | components/monocypher/src/monocypher.c:1519-1587 | the order of two scalars does not matter |
| `LadderGroup.SmallOrderIsZero` | components/monocypher/src/monocypher.c:1501-1587 | a point of order dividing eight gives zero under every trimmed scalar |
| `LadderGroup.Agree` | components/monocypher/src/monocypher.c:1578-1594 | two key pairs made by the calls compute equal secrets, the coordinate of the product of their scalars times the base point |
| `ScalarInverse.PowerLoop` | components/monocypher/src/monocypher.c:2850-2864 | the 253-step Montgomery loop computes the power L-2 |
| `ScalarInverse.AddXL` | components/monocypher/src/monocypher.c:2453-2462 | adds (x mod 8)*L to 256 bits |
| `ScalarInverse.BlindingScalar` | components/monocypher/src/monocypher.c:2822-2877 | the power L-2 mod L, lifted to a multiple of 8 below 8L |
| `ScalarInverse.BlindingInverts` | components/monocypher/src/monocypher.c:2822-2877 | L being prime, such a scalar inverts every s that L does not divide |
| `ScalarInverse.X25519Inverse` | components/monocypher/src/monocypher.c:2822-2885 | the salt is the ladder at that scalar over 256 bits |
| `LadderGroup.UndoInverse` | components/monocypher/src/monocypher.c:2822-2885 | the key applied to the salt gives back the coordinate of every point of order L |
| `LadderGroup.TrimmedIsInvertible` | components/monocypher/src/monocypher.c:1501-1507 | L divides no trimmed scalar |
| `Slide.ShiftIsTrailing` | components/monocypher/src/monocypher.c:1983-1990 | the mask arithmetic finds the number of trailing zeros of a window value |
| `Slide.WindowDigit` | components/monocypher/src/monocypher.c:1970-1994 | a window value is its odd digit shifted into place, and the digit fits the table |
| `Slide.CoveredWindow` | components/monocypher/src/monocypher.c:1970-1994 | consuming a window accounts for exactly its bits |
| `Slide.SlideCtx.Step` | components/monocypher/src/monocypher.c:1970-1994 | digits handed out, the pending one and the unrecoded rest always make up the scalar |
| `Slide.Recode` | components/monocypher/src/monocypher.c:1949-1994 | for every scalar below 2^253 the digits sum to the scalar with weights 2^i; nonzero ones are odd and inside the table |
| `Slide.DigitWeights` | components/monocypher/src/monocypher.c:2036-2050 | doubling and adding gives the first of n digits weight 2^(n-1) |
| `CheckEquation.MergedLoop` | components/monocypher/src/monocypher.c:2032-2050 | the fused loop computes [s]B + [h](-A) |
| `CheckEquation.CryptoEddsaCheckEquation` | components/monocypher/src/monocypher.c:2000-2065 | 0 exactly when both points decode, S < L and eight times [S]B - [h]A - R is neutral |
| `Ed25519Laws.WindowEntries` | components/monocypher/src/monocypher.c:1890-1939 | what is supposed of the window table: B, 3B, ..., 15B |
| `Comb.TableCoversTeeth` | components/monocypher/src/monocypher.c:2170-2189 | eight entries and a sign cover all sixteen tooth patterns |
| `Comb.LookupAdd` | components/monocypher/src/monocypher.c:2170-2189 | adds the signed column of four teeth |
| `Comb.RowsTotal` | components/monocypher/src/monocypher.c:2192-2233 | both combs use each of the 256 bits once at its own weight: 2s - (2^256-1) |
| `Comb.RecodedScalar` | components/monocypher/src/monocypher.c:2192-2212 | for the halved scalar that total is the scalar mod L |
| `Comb.ScalarmultBase` | components/monocypher/src/monocypher.c:2192-2233 | the result is [scalar]B |
| `Ed25519Laws.CombWeights` | components/monocypher/src/monocypher.c:2068-2189 | which multiples the comb tables are supposed to hold: 2^96 and the lower teeth signed by the bits of the index |
| `Ed25519.HashReduce` | components/monocypher/src/monocypher-ed25519.c:430-445 | hash of the four parts joined, mod L |
| `Ed25519.KeyPair` | components/monocypher/src/monocypher-ed25519.c:417-428 | the public half is the encoding of [a]B for the trimmed hash of the seed |
| `Ed25519.DomSign` | components/monocypher/src/monocypher-ed25519.c:447-467 | the signature of section 5.1.6 of RFC 8032 |
| `Ed25519.Check` | components/monocypher/src/monocypher-ed25519.c:475-481 | accepts exactly what section 5.1.7 of RFC 8032 (with cofactor) accepts |
| `Ed25519.SignedAccepted` | components/monocypher/src/monocypher-ed25519.c:417-481 | every signature of the definition satisfies the check of the definition |
| `Ed25519.SignThenCheck` | components/monocypher/src/monocypher-ed25519.c:417-481 | for every seed and message, key generation, signing and checking compose to acceptance |
| `Ed25519.PhSignThenCheck` | components/monocypher/src/monocypher-ed25519.c:485-498 | the same for the pre-hashed variant |
| `Ed25519Laws.SignatureFormula` | components/monocypher/src/monocypher-ed25519.c:447-467 | section 5.1.6 of RFC 8032 written out: which halves, which hashes, S = r + k a mod L |
| `Ed25519Laws.SecretScalarBits` | components/monocypher/src/monocypher-ed25519.c:417-428 | the secret scalar is a multiple of 8 with top bit 254 and otherwise the bits of the hashed seed |
| `Ed25519Laws.AcceptsFormula` | components/monocypher/src/monocypher.c:2000-2065 | accepted exactly when A and R decode, S < L and eight times [S]B - (R + [k]A) is neutral |
| `Ed25519Laws.PrimesAre` | components/monocypher/src/monocypher.c:1599-1602 | L is 2^252 + 27742317777372353535851937790883648493, p is 2^255 - 19 |
| `Ed25519Laws.DomainSpelled` | components/monocypher/src/monocypher-ed25519.c:483 | the text of the pre-hash domain, its octet 1 and its terminating zero |
| `Sha512Stream.ScheduleSlides` | components/monocypher/src/monocypher-ed25519.c:144-177 | sixteen words updated in place always hold the current window of the 80-word schedule |
| `Sha512Stream.ExtendSchedule` | components/monocypher/src/monocypher-ed25519.c:144-177 | one new word in place turns the window of the schedule into the next |
| `Sha512Stream.CompressInPlace` | components/monocypher/src/monocypher-ed25519.c:144-177 | the in-place compression is that of section 6.4.2 of FIPS 180-4 |
| `Sha512Laws.ChChooses` | components/monocypher/src/monocypher-ed25519.c:114 | bit i of ch is bit i of y where x has a one, of z where it has a zero |
| `Sha512Laws.MajDecides` | components/monocypher/src/monocypher-ed25519.c:115 | bit i of maj is the majority |
| `Sha512Laws.BitOfRotation` | components/monocypher/src/monocypher-ed25519.c:113 | bit i of a rotation by c is bit i + c around the end of the word |
| `Sha512Laws.BigSigmasMix` | components/monocypher/src/monocypher-ed25519.c:116-117 | bit i is the sum modulo 2 of the bits at distances 28, 34, 39 and 14, 18, 41 |
| `Sha512Laws.LitSigmasMix` | components/monocypher/src/monocypher-ed25519.c:118-119 | the same at 1, 8 and shift 7, and at 19, 61 and shift 6 |
| `Sha512Laws.RoundConstants` | components/monocypher/src/monocypher-ed25519.c:121-142 | K[t] is the first 64 fractional bits of the cube root of the prime with t primes below it |
| `Sha512Laws.InitialValue` | components/monocypher/src/monocypher-ed25519.c:196-210 | the initial value is the first 64 fractional bits of the square roots of the first eight primes |
| `Primes.TableCounts` | components/monocypher/src/monocypher-ed25519.c:121-142 | entry t of the table behind that is prime and has exactly t primes below it |
| `Sha512Laws.RoundFormula` | components/monocypher/src/monocypher-ed25519.c:144-177 | one round: six variables move on, a and e are the two sums modulo 2^64 |
| `Sha512Laws.ScheduleFormula` | components/monocypher/src/monocypher-ed25519.c:144-177 | a schedule word is the sum of its four predecessors modulo 2^64 |
| `Sha512Laws.CompressFormula` | components/monocypher/src/monocypher-ed25519.c:144-177 | eighty rounds in the order of the constants, added to what went in |
| `Sha512Stream.Sha512Ctx.Incr` | components/monocypher/src/monocypher-ed25519.c:188-194 | 128-bit counter arithmetic |
| `Sha512Stream.SetInputBuffered` | components/monocypher/src/monocypher-ed25519.c:180-185 | or-ing a byte into its word gives the buffer of the longer tail |
| `Sha512Stream.LoadIsWord` | components/monocypher/src/monocypher-ed25519.c:82-92 | the eight-way or of shifted bytes is the big-endian number |
| `Sha512Stream.StoreIsWord` | components/monocypher/src/monocypher-ed25519.c:94-104 | the truncated shifts store the big-endian bytes |
| `Sha512Stream.LoadWordsBuffered` | components/monocypher/src/monocypher-ed25519.c:106-108 | loading words at a word boundary gives the buffer of the longer tail |
| `Bits.GapIsAlign` | components/monocypher/src/monocypher.c:82-90 | negating and masking a word gives the distance to the next multiple of any power of two |
| `Sha512Stream.Sha512Ctx.SetInput` | components/monocypher/src/monocypher-ed25519.c:180-185 | or-ing a shifted byte extends the zero-padded big-endian buffer |
| `Sha512Stream.Sha512Ctx.Update` | components/monocypher/src/monocypher-ed25519.c:212-273 | byte, word and block paths absorb the message behind what was absorbed |
| `Sha512Stream.PadSpills` | components/monocypher/src/monocypher-ed25519.c:275-302 | the padding of section 5.1.2 when the length needs another block |
| `Sha512Stream.PadFits` | components/monocypher/src/monocypher-ed25519.c:275-302 | the padding of section 5.1.2 when the length still fits |
| `Sha512Stream.LastBlock` | components/monocypher/src/monocypher-ed25519.c:291-294 | the size words in place complete the last padded block |
| `Sha512Laws.PaddingLayout` | components/monocypher/src/monocypher-ed25519.c:275-302 | what the padding is: message, 80, zeros, the bit length modulo 2^128 in the last sixteen bytes, no block too many |
| `Sha512Laws.DigestWords` | components/monocypher/src/monocypher-ed25519.c:275-302 | the digest is the eight variables in order, most significant byte first |
| `Sha512Stream.Sha512Ctx.Final` | components/monocypher/src/monocypher-ed25519.c:275-302 | the digest is the one-shot definition of everything absorbed, and the context ends up zero |
| `Sha512Stream.HashParts` | components/monocypher/src/monocypher-ed25519.c:212-302 | any cutting into updates hashes the concatenation |
| `Poly1305.ColumnsProduct` | components/monocypher/src/monocypher.c:311-345 | the folded column sums are the product mod 2^130-5 |
| `Poly1305.ReduceValue` | components/monocypher/src/monocypher.c:345-353 | the partial carries keep the residue |
| `Poly1305.Block` | components/monocypher/src/monocypher.c:311-365 | no overflow, and h stays at or below 4_ffffffff_ffffffff_ffffffff_ffffffff |
| `Poly1305.BlockIsStep` | components/monocypher/src/monocypher.c:311-365 | a block is (h + c) * r mod 2^130-5 |
| `Poly1305.SubtractOnce` | components/monocypher/src/monocypher.c:425-434 | the carry of h + 5 subtracts 2^130-5 exactly when h reaches it |
| `Poly1305Laws.KeyHalves` | components/monocypher/src/monocypher.c:367-376 | r is the first half of the key with the top four bits of bytes 3, 7, 11, 15 and the low two of bytes 4, 8, 12 cleared |
| `Poly1305Laws.AccumulateBlock` | components/monocypher/src/monocypher.c:311-365 | a block adds its number and 2^(8 length) and multiplies by r modulo 2^130-5 |
| `Poly1305Stream.Poly1305Ctx.PolyBlocks` | components/monocypher/src/monocypher.c:311-365 | the block loop on the context |
| `Poly1305Stream.BlocksHold` | components/monocypher/src/monocypher.c:311-365 | blocks in a row stay on section 2.5 of RFC 8439 |
| `Poly1305Stream.Poly1305Ctx.Update` | components/monocypher/src/monocypher.c:378-412 | absorbs the message behind what was absorbed |
| `Poly1305Stream.Poly1305Ctx.Final` | components/monocypher/src/monocypher.c:414-441 | the mac is the canonical residue plus pad mod 2^128 of everything absorbed, and the context ends up zero |
| `Poly1305Stream.CryptoPoly1305` | components/monocypher/src/monocypher.c:443-450 | the one-shot call is the definition |
| `Poly1305Stream.MacParts` | components/monocypher/src/monocypher.c:367-441 | any chunking gives the same mac |
| `Session.Session.BuildTranscript` | components/session/src/session.c:99-115 | 140 bytes: domain, version, both keys, both challenges |
| `ProtocolFormat.TranscriptLayout` | components/session/src/session.c:99-115 | by position: "SLOCK-HS-v1", 1, the phone's key, the lock's key, the phone's challenge, the lock's challenge |
| `ProtocolFormat.TranscriptBinds` | components/session/src/session.c:99-115 | equal transcripts have all four parts equal, so a signature binds both keys and both challenges |
| `Session.IsZero` | components/session/src/session_crypto.c:41-48 | the accumulating loop decides all-zero |
| `Session.Session.HandleM1` | components/session/src/session.c:121-172 | which M1 is accepted, the material it caches, the signed M2, and that a refused one changes no stage |
| `ProtocolFormat.SignDifferently` | components/session/src/session.c:121-172 | two locks with different challenges sign different messages, whatever else is equal |
| `Session.Session.ResolveIdentity` | components/session/src/session.c:210-222 | true exactly when one of the first 64 provider keys verifies |
| `Session.Session.UseWindow` | components/session/src/session.c:196-208 | any M3 uses the window up; inside the deadline its signature and transcript are kept |
| `Session.Session.DeriveKeys` | components/session/src/session.c:236-282 | directional keys from a nonzero secret, handshake cache kept; erasure when derivation fails |
| `Session.Session.HandleM3` | components/session/src/session.c:174-285 | accepted exactly when authenticated and keys can be derived, handshake cache kept; all refusals and what they leave |
| `ProtocolFormat.StaleThirdMessage` | components/session/src/session.c:174-285 | an M3 made for an earlier challenge is checked against a transcript other than its own |
| `ProtocolFormat.KeysFrom` | components/session/src/session.c:236-263 | the keys exist exactly for a nonzero secret: derived from it with salt phone challenge then lock challenge and the two spelled directions |
| `ProtocolFormat.ResolvesExactly` | components/session/src/session.c:211-222 | whose M3 counts: a key among the first 64, before the first gap, that verifies it |
| `Session.Session.HandlePayload` | components/session/src/session.c:287-359 | the handler gets exactly the opened plaintext; the answer is its sealed reply, not truncated by the byte-wide length |
| `ProtocolFormat.PayloadLayout` | components/session/src/session.c:287-359 | a payload is nonce, ciphertext and tag |
| `Session.ReplyBytes` | components/session/src/session.c:325-339 | which of the handler's bytes are sealed |
| `Session.Session.OnErase` | components/session/src/session.c:420-446 | all seven buffers zero, stage empty, provisioning kept, callback effect idempotent |
| `Session.Session.ArmWindow` | components/session/src/session.c:448-459 | armed, deadline set, cache cleared |
| `Session.Session.VerifyIdentity` | components/session/src/session.c:461-468 | true exactly when a cached M3 verifies under the claimed key |
| `Transport.ParsesExactly` | components/transport/src/transport.c:75-108 | a received string parses to a command exactly when it is that command's wire form |
| `ProtocolFormat.DamagedCommand` | components/transport/src/transport.c:75-108 | 6A81 for another class byte, 6A80 for a wrong length byte, missing or extra bytes |
| `ProtocolFormat.RefusedExactly` | components/transport/src/transport.c:75-108 | every string is a command or gets exactly one of these two |
| `Transport.ForwardsExactly` | components/transport/src/transport.c:236-460 | which command reaches the session in which state |
| `ProtocolFormat.CommandActs` | components/transport/src/transport.c:236-460 | which instruction does what in each state: 10, 11, 20 within 227 bytes, 30; 6985 for the rest, 6A80 for a longer payload |
| `ProtocolFormat.LinkActs` | components/transport/src/transport.c:236-460 | what the link decides before any command |
| `Transport.Transport.RunActivated` | components/transport/src/transport.c:236-295 | one command: state, events and exactly the bytes sent for every kind of input, M2 included |
| `Transport.Transport.StartHandshake` | components/transport/src/transport.c:276-294 | M2 goes out exactly for a good M1, and the handshake state is entered exactly when it went out |
| `Transport.Transport.RunHandshake` | components/transport/src/transport.c:297-385 | the loop ends at the first input that is not answered in place, with exactly the statuses sent until then and the outcome of M3 |
| `Transport.Transport.FinishHandshake` | components/transport/src/transport.c:365-383 | the secure state is entered if and only if M3 is accepted and its answer went out; the status sent and the keys held |
| `Transport.Transport.RunSecureSession` | components/transport/src/transport.c:387-460 | every response sent and every run of the handler, from the inputs and the two keys; which input ends the loop |
| `Transport.Transport.ForwardPayload` | components/transport/src/transport.c:441-458 | the sealed answer is sent and the session goes on exactly when the payload opens, the reply seals and the link takes it; else 6982 |
| `Transport.Transport.RunSession` | components/transport/src/transport.c:466-518 | keeps the layers in lockstep from any earlier exit; a normal end leaves everything erased |
| `Transport.LockstepMeans` | components/transport/src/transport.c:236-460 | what each transport state says about stage, keys and facade flag |
| `Transport.SafeSnoc` | components/transport/src/transport.c:236-460 | extending a history in which M3 follows one M1, and the handler one M1 and one M3, of the same activation |
| `HistoryLaws.HandlerAfterHandshake` | components/transport/src/transport.c:236-460 | in every safe history the handler runs only behind one M1 and then one M3 of the same activation, and no other |
| `HistoryLaws.ThirdAfterFirst` | components/transport/src/transport.c:236-460 | an accepted M3 has exactly one accepted M1 before it in its activation |
| `Transport.CommTask` | components/comm_module/src/comm_module.c:116-157 | every run of sessions is safe, fatal bus errors included; the task stops when asked to, or exactly at the third fatal error in a row |
| `Handshake.Phone.GetM1` | components/test_utils/src/mock_phone.c:17-22 | the phone's first message |
| `Handshake.Phone.BuildTranscript` | components/test_utils/src/mock_phone.c:29-37 | the phone's own copy of the transcript |
| `Handshake.Phone.ProcessM2` | components/test_utils/src/mock_phone.c:24-60 | M3 exactly when the lock's signature verifies and the secret is nonzero; the keys it derives |
| `Handshake.SameKeys` | components/session/src/session.c:236-263 | both sides derive the same keys or neither derives any |
| `Handshake.OpensSealed` | components/test_utils/src/mock_phone.c:62-83 | a payload opens to what was sealed and has its length plus 28 |
| `Handshake.Establish` | components/session/src/session.c:99-285 | any honest enrolled phone with a nonzero secret is accepted; identical 140-byte transcripts, identical directional keys |
| `Handshake.Exchange` | components/session/src/session.c:287-359 | the session hands the sealed plaintext to the handler verbatim and the phone recovers the reply verbatim |
| `Handshake.Converse` | components/session/src/session.c:287-359 | the same for any sequence of commands |
| `EndToEnd.PayloadBudget` | components/transport/src/transport.c:433-439 | a sealed plaintext is forwarded exactly when it has at most 199 bytes, else answered 6A80 |
| `EndToEnd.OnePayload` | components/transport/src/transport.c:433-458 | an honest payload runs the handler on its plaintext, sends the sealed reply and keeps the session |
| `EndToEnd.PhoneM3` | components/test_utils/src/mock_phone.c:24-60 | fed with M2 as sent, the phone makes the M3 over the shared transcript and derives its keys |
| `EndToEnd.HonestHandshake` | components/transport/src/transport.c:205-385 | an honest phone's first two messages lead to the secure state from any earlier state; M2 and 9000 are what is sent; both sides hold the same keys |
| `EndToEnd.RecoverReplies` | components/test_utils/src/mock_phone.c:71-83 | the phone recovers every reply that was sent |
| `EndToEnd.HonestSession` | components/transport/src/transport.c:205-460 | a whole honest session: exactly M2, 9000 and the sealed replies are sent, the handler runs on exactly the plaintexts |
| `EndToEnd.ThroughBothTasks` | components/comm_module/src/comm_module.c:66-87 | with the mailbox behind the handler, the recovered replies are what the dispatches returned, over every interleaving |
| `Provision.OncePerArming` | components/session/src/session.c:196-208 | between two unresolved M3s, or two attempts, there is an arming |
| `Provision.SecretsEqual` | components/app_module/src/provision_mgr.c:41-50 | the accumulating comparison decides equality |
| `Provision.Manager.ArmSession` | components/app_module/src/provision_mgr.c:58-65 | fresh secret, then the session's window |
| `Provision.Manager.OpenWindow` | components/app_module/src/provision_mgr.c:67-75 | the manager's own deadline |
| `Provision.Manager.IsActive` | components/app_module/src/provision_mgr.c:77-84 | active until the deadline has passed |
| `Provision.Manager.HandleCmd` | components/app_module/src/provision_mgr.c:93-155 | every outcome: when it is an attempt, that any attempt closes the window, when the key is added |
| `Provision.Run` | components/app_module/src/provision_mgr.c:58-155 | any run of both tasks: each event is allowed where it happens, and every new key came from an allowed attempt |
| `HistoryLaws.KeyNeedsArming` | components/app_module/src/provision_mgr.c:58-155 | in such a history a key is added only after an arming, its window, an unresolved M3 and an attempt in time with the armed secret; the M3 verifies under that key |
| `ProtocolFormat.AcceptableMeans` | components/app_module/src/provision_mgr.c:93-155 | what a command has to meet: 65 bytes, the secret, the key whose cached M3 verifies |
| `Provision.ProvisionPhone` | components/app_module/src/provision_mgr.c:58-155 | the honest flow inside the window adds the phone's key |
| `Mailbox.InvComm` | components/comm_module/src/comm_module.c:66-103 | every step of the communication task keeps the protocol's invariant |
| `Mailbox.InvAppComplete` | components/comm_module/src/comm_module.c:349-371 | so does every step of a completion |
| `Mailbox.InvAppLoop` | components/app_module/src/app_module.c:343-402 | so does the application's loop |
| `Mailbox.EveryReplyMatches` | components/comm_module/src/comm_module.c:66-87 | over all interleavings each dispatch returns what was stored for that same command |
| `Mailbox.StoresAnswer` | components/comm_module/src/comm_module.c:349-371 | what is stored is the application's answer to the posted command, cut to 227 bytes |
| `Mailbox.BuffersStable` | components/comm_module/src/comm_module.c:331-371 | command and response are not rewritten while the other task uses them |
| `Mailbox.WaitEnds` | components/app_module/src/app_module.c:343-402 | while a dispatch waits, each step of the application brings its answer nearer: no lost wake-up |
| `Mailbox.AnsweredWithin` | components/app_module/src/app_module.c:343-402 | at most twelve such steps |
| `Mailbox.EventArrivesExactly` | components/comm_module/src/comm_module.c:89-103 | over every fair schedule until the next event, an event reaches the application if and only if it was not written between read and clear |
| `Mailbox.EventCanBeLost` | components/comm_module/src/comm_module.c:319-324 | a run in which the end of a session is never seen |
| `Mailbox.DispatchIsFunction` | components/comm_module/src/comm_module.c:66-87 | with an application that answers by a function, every dispatch returns that answer to its own command |
| `Mailbox.CommMailbox.GetCommand` | components/comm_module/src/comm_module.c:331-347 | the posted bytes, if any and if they fit |
| `Mailbox.CommMailbox.PollEvent` | components/comm_module/src/comm_module.c:319-324 | the event is handed out once, nothing else changes |
| `Mailbox.PollingSteps` | components/comm_module/src/comm_module.c:319-324 | its two atomic steps add up to the call |
| `Mailbox.CommMailbox.Post` | components/comm_module/src/comm_module.c:72-74 | the fields a dispatch fills |
| `Mailbox.PostingSteps` | components/comm_module/src/comm_module.c:72-74 | its atomic steps add up to that |
| `Mailbox.CommMailbox.Take` | components/comm_module/src/comm_module.c:84-86 | the bytes a dispatch returns are those its two last steps return |
| `Mailbox.CommMailbox.CompleteResponse` | components/comm_module/src/comm_module.c:349-371 | ignored unless a command is pending; clamped, except that a missing response keeps the claimed length |
| `Mailbox.CompletionSteps` | components/comm_module/src/comm_module.c:349-371 | the atomic steps add up to that call |
| `KeyStore.NameInjective` | components/storage/src/key_store.c:63-69 | slot names do not collide |
| `ProtocolFormat.SlotNames` | components/storage/src/key_store.c:63-69 | a slot's name reads as its number in two decimal digits |
| `KeyStore.Store.Init` | components/storage/src/key_store.c:71-107 | the list becomes what storage holds up to the first gap, or a prefix of it when a read fails; when a start must succeed |
| `KeyStore.Store.Contains` | components/storage/src/key_store.c:205-216 | membership in the list |
| `KeyStore.Store.Get` | components/storage/src/key_store.c:196-203 | the key at an index below the count |
| `KeyStore.Store.Add` | components/storage/src/key_store.c:109-137 | every outcome, storage failures before and after their effect included |
| `KeyStore.Store.Revoke` | components/storage/src/key_store.c:139-194 | list and storage after every outcome, and every storage state on the way |
| `KeyStore.ReloadAfterCrash` | components/storage/src/key_store.c:155-187 | the exact list a start reads after power loss between any two storage operations |
| `KeyStore.CrashSafe` | components/storage/src/key_store.c:155-187 | only keys stored before, never the revoked one after the first erase, no other key lost except behind the gap |
| `KeyStore.RevokeTrailSafe` | components/storage/src/key_store.c:139-194 | the same for every state of a revoke during which storage also fails |
| `KeyStore.CrashDuplicates` | components/storage/src/key_store.c:169-187 | a duplicate is read back exactly between the first rewrite and the last erase |
| `KeyStore.RevokeComplete` | components/storage/src/key_store.c:145-193 | a complete revoke removes the key if and only if it was stored once |
| `KeyStore.CrashMirrors` | components/storage/src/key_store.c:155-187 | slots and list agree in full at every crash point but the one behind the first erase |
| `KeyStore.RevokeAfterCrash` | components/storage/src/key_store.c:139-194 | crash, restart, complete revoke of any key read: it is gone, except exactly the one the interrupted compaction left twice |
| `KeyStore.DuplicateSurvives` | components/storage/src/key_store.c:139-194 | that failure for every crash point that causes it |
| `KeyStore.AddAfterCrash` | components/storage/src/key_store.c:109-137 | crash, restart, addition: the next start reads the list with the key appended if and only if no old slots were left behind the gap |
| `KeyStore.EnumerationBesideRevoke` | components/storage/src/key_store.c:169-203 | what an enumeration beside a revoke hands out, and exactly when it misses a key |
| `KeyStore.Run` | components/storage/src/key_store.c:71-194 | in crash-free runs a restart reads exactly the RAM list, free of duplicates and at most 64 long |
| `Pn532.BuildFrame` | components/pn532/src/pn532.c:101-151 | the buffer holds exactly the frame of the command, nothing past it changes |
| `ProtocolFormat.NormalFrame` | components/pn532/src/pn532.c:101-151 | a command frame byte by byte, its two checksums included |
| `ProtocolFormat.ExtendedFrame` | components/pn532/src/pn532.c:101-151 | the same for more than 254 bytes |
| `Pn532.BuffersFit` | components/pn532/src/pn532.c:40-57 | 275 and 276 bytes are filled at most exactly |
| `Pn532.FindStartCode` | components/pn532/src/pn532.c:168-177 | the first start code, or none |
| `Pn532.ParseFrame` | components/pn532/src/pn532.c:224-318 | every outcome with its error, and the bytes copied out |
| `Pn532.AcceptsExactly` | components/pn532/src/pn532.c:201-318 | a read is accepted exactly when its first start code is followed by a well-formed header and body that fit |
| `Pn532.RoundTrip` | components/pn532/src/pn532.c:101-318 | status byte, chip frame and any trailing bytes parse back to the payload |
| `Pn532.SingleByteDamage` | components/pn532/src/pn532.c:224-318 | no single changed byte from LEN through DCS is accepted, unless the frame is empty and at least 54572 bytes follow; each is reported as its own error |
| `Pn532.EmptyFrameDamage` | components/pn532/src/pn532.c:248-276 | in that case one is, whatever follows |
| `Pn532.DamageInOneRead` | components/pn532/src/pn532.c:40-57 | within the 276 bytes of one read there is no exception |
| `Pn532.DamagePlaces` | components/pn532/src/pn532.c:224-318 | which error: InvalidCrc for data, DCS, LEN and LCS, InvalidResponse for TFI, and the exceptions of empty and extended frames |
| `Pn532.ErrorFrameFails` | components/pn532/src/pn532.c:201-235 | the chip's error frame, spelled, gives Fail |
| `Pn532.TooLarge` | components/pn532/src/pn532.c:308-314 | an intact frame larger than the buffer gives InvalidSize |
| `Pn532.CutFrame` | components/pn532/src/pn532.c:168-292 | a frame cut anywhere up to its checksum gives InvalidResponse |
| `Pn532.EndsIgnored` | components/pn532/src/pn532.c:168-318 | preamble and postamble do not matter |

## Left out

- Constant-time behaviour and the wiping of local variables: the model states values, and that the session's buffers and the streaming contexts hold zeros after their erase.
- Field elements are values, not arrays updated in place: aliasing of operands (as in `fe_mul(x, x, y)`) and the xor-mask form of the conditional swap are not modelled.
- Read-only input buffers are sequences; pointers and null arguments are not modelled.
- Curve group law and its x-only formulas, point decoding and encoding, the contents of the precomputed tables and primality of p and L are hypotheses.
- HMAC, HKDF and AES-GCM are functions with laws; random numbers, clocks and the link are inputs.
- BLAKE2b, Argon2, ChaCha20, Elligator, the EdDSA forms over BLAKE2b, and SHA-512 based HMAC and HKDF: not used by the firmware, same patterns.
- Message and counter lengths are unbounded integers, except for the 128-bit size of SHA-512 which wraps as in the code.
- Transport.CommTask: a run is a finite script of link answers, cut where the script ends; the delay between retries is not modelled.
- `session_on_apdu`'s switch is folded into the transport, which passes each command to its one handler.
- Session.Session.HandlePayload: an application handler is a function of the plaintext; a handler that writes past its buffer is not modelled.
- Provision.Run: a provisioning command is one step with respect to the communication task; an arming is two.
- Mailbox.EveryReplyMatches: runs in which the wait for the application expires are excluded, since a late completion can then answer the next command.
- Mailbox: memory operations are sequentially consistent and copies of a buffer are one step.
- KeyStore.Store.Init: the bytes a failed read may leave in the array behind the list are not modelled.
- The lock's own identity blob.
- KeyStore.Run: no statement after a revoke that reports failure, or whose unchecked last erase fails.
- Display, integrity checks, actuation, button handling, I2C recovery, ACK handshake and frame resynchronisation of the PN532 driver.
