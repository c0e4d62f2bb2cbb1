# Verified model of the DeroGold core

DeroGold is a CryptoNote currency. This project models the parts of it whose correctness is hardest to see by
reading, and proves what they are for:

- the scalar field modulo L and the field modulo 2^255 - 19 below the Ed25519 curve code (`crypto-ops.c`);
- the point formulas, point encoding and point decoding on top of that field;
- signed-digit recodings and the scalar multiplications that use them, in any abelian group;
- one-time keys, Schnorr signatures and ring signatures (`crypto.cpp`);
- BLAKE-256 around its compression function (`blake256.c`);
- Base58, addresses, varints and transaction extra fields;
- the 128-bit arithmetic and 256-bit difficulty test;
- the bounded blocking queue under every interleaving, the file-mapped vector under every crash, and the sparse
  Fisher-Yates generator.

`dafny verify dfyconfig.toml` checks everything.

## How the model is built

Bytes are integers below 256 and a little-endian number is `Positional.Eval`. C shifts to the right are floor
divisions. Fixed-width integers are unbounded integers with the range of every operation proved (`Int32`, `Int64`)
or with wrap-around written out where the source relies on it (Base58's `order`, `mul128`, the BLAKE counter, the
vector's file-size product, GroupClose's count). A bitwise or of parts that share no bit is an addition, with the
disjointness as a precondition of the operator.

Scalar multiplication and the protocols are proved over an abstract curve: a record of functions (`Curve.Curve`), and
one predicate, `Curve.Lawful`, that holds everything assumed about it. That is an abelian group in which the base
point has order L and every point order dividing 8L, an encoding that decodes to the same point, a decoder that
accepts only encodings, and the stated meaning of the two precomputed base-point tables. Below that line,
`EdwardsPoints` proves that the coordinate formulas of the source compute the addition law of the curve, and
`PointDecoding` that its decoder accepts only canonical encodings of points on the curve. Numbers are compared up to
congruence, and a denominator is a `Unit`, a number with an inverse, so no representative with a zero denominator
stands for a point.

One fact is a hypothesis by name: `Fermat.Prime` of 2^255 - 19, the absence of zero divisors. From it the project
proves Fermat's little theorem, that inversion inverts, that the root test of the decoder finds every root, that d is
not a square, that any two points of the curve have a sum on the curve, and that encoding and decoding are inverse to
each other. What stays assumed beside it is associativity and the group order, and `Fermat.Prime` of L where secrets
are computed from signatures. Random bytes are arguments, so every theorem holds for every choice.

Hashes are arbitrary functions. That a signature depends on its message, or an output key on its index, is therefore
stated by exhibiting a hash that tells the two apart (`Curve.Answers`), and that it proves knowledge of the secret by
computing the secret from answers to two challenges on the same commitments.

Where the source loops or updates in place, the model is a method with the loop or a class with the fields, proved
against a function or predicate that does not mention how it is computed. The queue and the file swap are step
machines, since their properties are about interleavings and crashes.

Where the code and its comments disagree the code is followed:

- `fe_tobytes` argues from |h| <= p, which its own limb bounds do not give (limbs may add up to 1.1 * 2^255). The
  quotient is exact all the same, and that is what is proved.
- `ge_check_subgroup_precomp_vartime` ends by testing Y - T of a completed point with `fe_isnonzero`. That difference
  can be more than twice as large as the inputs `fe_tobytes` is stated for. `FieldBytes` proves the conversion exact
  on the larger range (`Freezable`), and `NeutralTest` what the test decides.
- `fe_add` and `fe_sub` state input bounds of 1.1 * 2^25 and 1.1 * 2^24, but `ge_add`, `ge_sub`, `ge_madd`, `ge_msub`
  and `ge_p2_dbl` pass them sums of twice that size. `FieldOps.Size` counts in `fe_mul` outputs instead: completed
  coordinates are at most three of them added up, which is still within the input bounds of `fe_mul`.
- `decode_block` says that `order` never overflows. After the eleventh digit it does wrap, and is not used again.
- `read_varint` takes input that ends inside a varint for a complete one, so `decode_addr` lets such payloads
  through. `Address.DecodeAddr` states exactly which texts those are.
- `blake256_update` keeps the bytes in order only for some pairs of lengths. `Blake256.AppendsExactly` says which;
  `blake256_hash` and the finalization only use those.
- `GroupClose::close` tests for zero and decrements in two steps, so surplus callers can wrap the count.
  `BlockingQueue.GroupClosesOnce` shows that the queue is closed exactly once even then.

## Model

| member | source | states |
|---|---|---|
| ScalarBytes.LoadLimbs32Value | src/crypto/crypto-ops.c:3082-3093 | the twelve overlapping 3- and 4-byte loads spell exactly the number in the 32 bytes |
| ScalarBytes.LoadLimbs64Value | src/crypto/crypto-ops.c:1828-1851 | the 24 loads spell exactly the number in the 64 bytes |
| ScalarLimbs.FoldValue | src/crypto/crypto-ops.c:1870-1875 | folding a limb into the six limbs twelve places down subtracts a multiple of L |
| ScalarReduce.Balance | src/crypto/crypto-ops.c:3108-3152 | the two balanced passes and the fold keep the residue and leave a value between -2^252 and 2^252, without 64-bit overflow |
| ScalarReduce.Settle | src/crypto/crypto-ops.c:3154-3230 | the two floor chains and the fold of the sign limb leave exactly the residue modulo L in nonnegative limbs |
| ScalarReduce.FoldTop | src/crypto/crypto-ops.c:1870-1945 | limbs 18 to 23 are folded away and limbs 6 to 16 balanced, same residue, no 64-bit overflow |
| ScalarReduce.FinishWide | src/crypto/crypto-ops.c:1870-2112 | 24 limbs reduce to the residue of their value modulo L |
| ScalarPack.PackValue | src/crypto/crypto-ops.c:3232-3263 | the 32 packed bytes spell the same number as the twelve limbs |
| Scalars.ScReduce | src/crypto/crypto-ops.c:1826-2146 | in place, the first 32 of 64 bytes become the number modulo L, fully reduced, and the others stay |
| Scalars.ScReduce32 | src/crypto/crypto-ops.c:3080-3264 | in place, 32 bytes become the number modulo L, fully reduced |
| Scalars.ScAdd | src/crypto/crypto-ops.c:3266-3474 | for all 32-byte inputs the one reduced encoding of a + b modulo L |
| Scalars.ScSub | src/crypto/crypto-ops.c:3476-3684 | for all 32-byte inputs the one reduced encoding of a - b modulo L |
| ScalarProduct.ColumnsValue | src/crypto/crypto-ops.c:3783-3812 | the 23 schoolbook columns spell c - ab |
| Scalars.ProductLimbs | src/crypto/crypto-ops.c:3783-3883 | columns and the two balanced passes after them keep c - ab and fit the reduction, without 64-bit overflow |
| Scalars.ScMulSub | src/crypto/crypto-ops.c:3697-4161 | for all 32-byte inputs the one reduced encoding of c - ab modulo L |
| Scalars.ScalarUnique | src/crypto/crypto-ops.c:3232-3263 | a reduced encoding is determined by the residue |
| ScalarTests.Signum | src/crypto/crypto-ops.c:4164-4167 | two arithmetic shifts give the sign |
| ScalarTests.ScCheckExact | src/crypto/crypto-ops.c:4169-4181 | the weighted word signs are zero exactly when the number is below L, and -1 otherwise |
| ScalarTests.ScIsNonzero | src/crypto/crypto-ops.c:4183-4190 | 0 exactly for the number zero, otherwise 1 |
| FieldLimbs.CarryValue | src/crypto/crypto-ops.c:540-605 | a carry keeps the value in radix 2^25.5, or subtracts a multiple of 2^255 - 19 at the top limb |
| FieldLimbs.CarryBounds | src/crypto/crypto-ops.c:540-605 | no operation of a carry leaves 64 bits; the limb becomes half its radix and the next grows by the carry |
| FieldMul.ProductFits | src/crypto/crypto-ops.c:398-511 | within the stated input bounds the doubled and 19-fold limbs fit 32 bits |
| FieldMul.ColumnBound | src/crypto/crypto-ops.c:512-521 | every partial sum of a column fits 64 bits |
| FieldMul.WeightProduct | src/crypto/crypto-ops.c:512-521 | why a product of two limbs lands in the column it does, with factor 1, 2, 19 or 38 |
| FieldMul.ProductValue | src/crypto/crypto-ops.c:512-521 | the ten columns stand for f * g minus a multiple of 2^255 - 19 |
| FieldMul.CarryAll | src/crypto/crypto-ops.c:540-605 | the twelve carries keep the value up to the modulus and reach the stated output bounds |
| FieldMul.FeMul | src/crypto/crypto-ops.c:376-617 | f * g modulo 2^255 - 19, output within 1.01 * 2^25 and 1.01 * 2^24, also when the result overwrites a factor |
| FieldSquare.SquareFits | src/crypto/crypto-ops.c:694-761 | the multiples 2, 19 and 38 of limbs fit 32 bits |
| FieldSquare.SquareColumnBound | src/crypto/crypto-ops.c:762-771 | no partial sum of a column leaves the 64-bit range, doubled or not |
| FieldSquare.SquareIsProduct | src/crypto/crypto-ops.c:762-771 | multiplying each pair of limbs once gives the columns of the full product of f with itself |
| FieldSquare.FeSq | src/crypto/crypto-ops.c:682-836 | f * f modulo 2^255 - 19 within the same bounds, in place or not; every partial column sum fits 64 bits |
| FieldSquare.FeSq2 | src/crypto/crypto-ops.c:855-1020 | 2 * f * f modulo 2^255 - 19 within the same bounds, in place or not; every doubled partial column sum fits 64 bits |
| FieldBytes.QuotientExact | src/crypto/crypto-ops.c:1131-1141 | the eleven-step carry estimate is exactly the floor of h / (2^255 - 19) |
| FieldBytes.ResidueExact | src/crypto/crypto-ops.c:1144-1175 | the second chain leaves exactly the residue below 2^255 - 19 |
| FieldBytes.BytesValue | src/crypto/crypto-ops.c:1185-1216 | the 32 shifted and shared bytes spell the ten limbs |
| FieldBytes.FeToBytes | src/crypto/crypto-ops.c:1107-1217 | the bytes spell h modulo 2^255 - 19 |
| FieldBytes.CanonicalExactly | src/crypto/crypto-ops.c:1107-1217 | two representations give the same bytes exactly when they are congruent |
| FieldBytes.FeIsNegative | src/crypto/crypto-ops.c:322-327 | the low bit of the canonical residue |
| FieldBytes.FeIsNonzero | src/crypto/crypto-ops.c:331-341 | 1 exactly for elements not divisible by 2^255 - 19 |
| FieldFromBytes.LoadValue | src/crypto/crypto-ops.c:1387-1396 | the ten overlapping loads spell the low 255 bits |
| FieldFromBytes.TooLargeExactly | src/crypto/crypto-ops.c:1408-1413 | the limb comparison holds exactly for values of 2^255 - 19 and above |
| FieldFromBytes.FeFromBytes | src/crypto/crypto-ops.c:1387-1456 | refuses exactly those values; otherwise a congruent element within the output bounds of `fe_mul` |
| FieldOps.Add | src/crypto/crypto-ops.c:104-146 | the sum, within 32 bits for all sizes the point formulas use |
| FieldOps.Sub | src/crypto/crypto-ops.c:1036-1078 | the difference, within 32 bits for all sizes the point formulas use |
| FieldPowers.RunOfOnes | src/crypto/crypto-ops.c:260-301 | the shared middle of both chains raises to 2^250 - 1 |
| FieldPowers.FeInvert | src/crypto/crypto-ops.c:245-310 | the chain raises to exactly 2^255 - 21 |
| FieldPowers.FePow22523 | src/crypto/crypto-ops.c:2165-2214 | the chain raises to exactly 2^252 - 3 |
| EdwardsLaw.CompletedSum | src/crypto/crypto-ops.c:1221-1235 | coordinates combined as in the formula represent the sum of the two points in the sense of section 5.1.4 of RFC 8032, with denominators 2 z1 z2 (1 + e) and 2 z1 z2 (1 - e), which are units |
| EdwardsLaw.CompletedDouble | src/crypto/crypto-ops.c:1579-1591 | the doubling formula, which does not use d, gives the same sum on the curve, with units for denominators |
| EdwardsLaw.MirrorIsInverse | src/crypto/crypto-ops.c:1777-1797 | a point of the curve and its mirror image add up to the neutral element |
| EdwardsPoints.Constants | src/crypto/crypto-ops-data.c:12-17 | the limbs of `fe_d` and `fe_d2` are -121665/121666 and its double |
| EdwardsPoints.GeAdd | src/crypto/crypto-ops.c:1221-1235 | every field operation is within its range and the result represents p + q, with units for denominators |
| EdwardsPoints.GeSub | src/crypto/crypto-ops.c:1783-1797 | every field operation is within its range and the result represents p - q, with units for denominators |
| EdwardsPoints.GeMadd | src/crypto/crypto-ops.c:1501-1514 | the same for adding a table entry |
| EdwardsPoints.GeMsub | src/crypto/crypto-ops.c:1522-1535 | the same for subtracting a table entry |
| EdwardsPoints.GeP2Dbl | src/crypto/crypto-ops.c:1579-1591 | every field operation is within its range and the result represents 2p for p on the curve |
| EdwardsPoints.GeP3Dbl | src/crypto/crypto-ops.c:1609-1614 | the same from extended coordinates |
| EdwardsPoints.ToP2 | src/crypto/crypto-ops.c:1543-1548 | same point with a unit for Z, coordinates back to `fe_mul` output size |
| EdwardsPoints.ToP3 | src/crypto/crypto-ops.c:1556-1562 | same point with a unit for Z and its product coordinate, coordinates back to `fe_mul` output size |
| EdwardsPoints.ToCached | src/crypto/crypto-ops.c:1622-1628 | same point with a unit for Z |
| EdwardsPoints.DropT | src/crypto/crypto-ops.c:1636-1641 | same point |
| EdwardsPoints.Neutral | src/crypto/crypto-ops.c:1595-1601 | represents (0, 1), which adds nothing |
| PointEncoding.GeToBytes | src/crypto/crypto-ops.c:1801-1812 | the canonical y and the parity of x of the represented affine point, wherever `fe_invert` inverts Z |
| Fermat.FermatLittle | src/crypto/crypto-ops.c:245-310 | modulo a prime p, a number that is not a multiple of p gives 1 to the power p - 1, the fact behind `fe_invert` |
| PrimeField.UnitInvertible | src/crypto/crypto-ops.c:245-310 | for prime 2^255 - 19 `fe_invert` inverts every unit, so `GeToBytes` applies to every represented point |
| PrimeField.SolvesExactly | src/crypto/crypto-ops.c:1463-1479 | for prime 2^255 - 19 the test of the root candidate succeeds exactly when u / v has a square root |
| SquareRoots.RootOfMinusOne | src/crypto/crypto-ops-data.c:14-15 | the limbs of `fe_sqrtm1` square to -1 |
| SquareRoots.FeDivPowM1 | src/crypto/crypto-ops.c:2150-2220 | the root candidate of section 5.1.3 of RFC 8032 |
| SquareRoots.SquareRoot | src/crypto/crypto-ops.c:1466-1479 | succeeds exactly when the candidate squared times v is u or -u, and then returns a root of u / v |
| PointDecoding.ChooseSign | src/crypto/crypto-ops.c:1481-1489 | gives the root of the encoded parity, or refuses exactly zero with the sign bit set |
| PointDecoding.GeFromBytes | src/crypto/crypto-ops.c:1378-1493 | accepts exactly canonical y for which the root candidate solves the curve equation and the sign is possible; the result is on the curve and has the encoded y and parity |
| PointDecoding.DecodeThenEncode | src/crypto/crypto-ops.c:1378-1656 | every accepted byte string is what the decoded point encodes to |
| PointRoundTrip.AcceptsExactly | src/crypto/crypto-ops.c:1378-1493 | for prime 2^255 - 19 the accepted byte strings are exactly those that name a point of the curve by a canonical y and the parity of x |
| PointRoundTrip.EncodeThenDecode | src/crypto/crypto-ops.c:1378-1812 | for prime 2^255 - 19 decoding the encoding of a point of the curve succeeds and gives the same point |
| NonSquare.OnlyZero | src/crypto/crypto-ops-data.c:12-13 | for prime 2^255 - 19 the constant d is not a square: d t^2 = s^2 forces t = 0 |
| EdwardsComplete.SumOnCurve | src/crypto/crypto-ops.c:1221-1235 | the sum of two points of the curve is on the curve |
| EdwardsComplete.SumExists | src/crypto/crypto-ops.c:1221-1235 | for prime 2^255 - 19 any two points of the curve have a sum: the law has no exceptions |
| PointAddition.AddCached | src/crypto/crypto-ops.c:1221-1235 | for points of the curve, adding and converting back gives a point of the curve that is their sum, without conditions |
| PointAddition.Double | src/crypto/crypto-ops.c:1579-1614 | the same for doubling |
| PointAddition.DsmPrecomp | src/crypto/crypto-ops.c:1286-1314 | the table of eight cached points is s and then each entry plus 2s, all on the curve and within range |
| Slide.LoadBits | src/crypto/crypto-ops.c:1245-1248 | the 256 bits spell the scalar |
| Slide.Carry | src/crypto/crypto-ops.c:1266-1274 | adding one at a set bit keeps the value, or loses 2^256 exactly when it runs past position 255 |
| Slide.SlideScalar | src/crypto/crypto-ops.c:1239-1284 | digits are zero or odd within 15, nonzero ones at least five places apart, and spell the scalar plus a count of lost carries times 2^256; none is lost when a[31] <= 127 |
| Slide.CarryIsLost | src/crypto/crypto-ops.c:1239-1284 | no digits of that form spell 2^256 - 1, so there a carry is lost |
| Radix16.RecodeInPlace | src/crypto/crypto-ops.c:1733-1750 | 64 digits spell the scalar, all within 8 when a[31] <= 127 |
| Radix16.RecodeStream | src/crypto/crypto-ops.c:2247-2259 | the other recoding has the same two properties |
| ScalarMult.Precompute | src/crypto/crypto-ops.c:1286-1314 | the table holds P, 3P, 5P, ..., 15P |
| ScalarMult.RunWindows | src/crypto/crypto-ops.c:1336-1373 | double-and-add over two digit strings gives the sum of the two multiples they spell |
| ScalarMult.DoubleScalarMul | src/crypto/crypto-ops.c:2303-2359 | aP + bQ in any abelian group, less the lost carries of `slide`, which are none for a[31] <= 127 and b[31] <= 127; every table index is in range |
| ScalarMult.Select | src/crypto/crypto-ops.c:1694-1713 | the look-up gives bP for every b within 8 |
| ScalarMult.ScalarMul | src/crypto/crypto-ops.c:2239-2301 | aP in any abelian group |
| ScalarMult.AddHalf | src/crypto/crypto-ops.c:1752-1774 | half of the comb adds the multiple spelled by every second digit in base 256 |
| ScalarMult.ScalarMulBase | src/crypto/crypto-ops.c:1724-1775 | aB from the comb table |
| Subgroup.ChainIsOrder | src/crypto/crypto-ops.c:2361-2912 | the hard-coded chain of doublings and additions multiplies by exactly L |
| Subgroup.CheckSubgroup | src/crypto/crypto-ops.c:2361-2912 | returns 0 exactly for points of the subgroup of order L |
| NeutralTest.IsNotNeutral | src/crypto/crypto-ops.c:2909-2911 | the comparison of Y and T that closes the test is 0 exactly when the point has y = 1 |
| NeutralTest.OneIsNeutral | src/crypto/crypto-ops.c:2909-2911 | for prime 2^255 - 19 only the neutral element of the curve has y = 1 |
| Curve.RandomScalar | src/crypto/crypto.cpp:30-36 | a scalar below L, congruent to the random number |
| Curve.HashToScalar | src/crypto/crypto.cpp:38-42 | a scalar below L, congruent to the hash |
| Curve.HashScalarFree | src/crypto/crypto.cpp:38-42 | for different inputs the hash can give any two scalars: the scalar depends on all the bytes hashed |
| Curve.HashToEc | src/crypto/crypto.cpp:385-394 | eight times the point mapped from the hash |
| Curve.HashPointOrder | src/crypto/crypto.cpp:385-394 | that point lies in the subgroup of order L |
| Curve.HashPointFree | src/crypto/crypto.cpp:385-394 | for different keys the hash can give any two mapped points |
| Curve.TimesEight | src/crypto/crypto-ops.c:2914-2922 | three doublings multiply by eight |
| OneTimeKeys.GenerateKeyDerivation | src/crypto/crypto.cpp:99-114 | the encoding of 8 * sec * P, or failure exactly when the key is not a point |
| OneTimeKeys.DerivationToScalar | src/crypto/crypto.cpp:116-150 | the scalar hashed from derivation, varint index and suffix, in a buffer that holds them |
| OneTimeKeys.DerivationReadsBack | src/crypto/crypto.cpp:116-150 | the first 32 hashed bytes are the derivation, and reading a varint behind them gives the index and leaves the suffix |
| OneTimeKeys.DerivationBytesDiffer | src/crypto/crypto.cpp:116-150 | different derivations, indices below 2^64 or suffixes hash different bytes |
| OneTimeKeys.OutputScalarsFree | src/crypto/crypto.cpp:116-150 | so two outputs of one transaction can get any two scalars |
| OneTimeKeys.DerivePublicKey | src/crypto/crypto.cpp:152-202 | P plus the output scalar times B, or failure exactly when P is not a point |
| OneTimeKeys.UnderivePublicKey | src/crypto/crypto.cpp:261-312 | P minus the output scalar times B, or failure exactly when P is not a point |
| OneTimeKeys.DeriveSecretKey | src/crypto/crypto.cpp:229-259 | the reduced sum of the secret and the output scalar |
| OneTimeKeys.SharedDerivation | src/crypto/crypto.cpp:99-114 | sender and receiver get the same derivation from opposite halves of the keys |
| OneTimeKeys.DerivationOf | src/crypto/crypto.cpp:99-114 | from x * B and a secret the derivation is the point 8 * x * sec * B |
| OneTimeKeys.DerivationIgnoresTorsion | src/crypto/crypto.cpp:99-114 | adding a point of order dividing 8 to the key does not change the derivation |
| OneTimeKeys.ShiftBack | src/crypto/crypto.cpp:152-312 | underiving undoes deriving on every key that is a point |
| OneTimeKeys.SecretMatchesPublic | src/crypto/crypto.cpp:229-259 | the derived secret belongs to the derived public key, reduction modulo L included |
| OneTimeKeys.PaymentReachesReceiver | src/crypto/crypto.cpp:99-312 | for all keys, index and suffix the receiver recognises and can open what the sender derives |
| Signatures.CommitmentCloses | src/crypto/crypto.cpp:321-383 | the checker's commitment is the signer's |
| Signatures.GenerateSignature | src/crypto/crypto.cpp:321-351 | every signature made with a matching key pair satisfies the check, whatever the random bytes |
| Signatures.CheckSignature | src/crypto/crypto.cpp:353-383 | accepts exactly the pairs that decode, are in range and reproduce the challenge |
| Extraction.SignatureIsBound | src/crypto/crypto.cpp:314-383 | if message, key or commitment differ, there is a hash under which the one signature is accepted and the other is not |
| Extraction.SecretFromTwoAnswers | src/crypto/crypto.cpp:353-383 | for prime L, two signatures accepted on one commitment under different answers of the hash give the secret of the key |
| RingSignatures.GenerateKeyImage | src/crypto/crypto.cpp:420-428 | the encoding of sec * Hp(P), which decodes |
| RingSignatures.ImageInSubgroup | src/crypto/crypto.cpp:420-428 | an honest key image passes the subgroup test |
| RingSignatures.CheckRingSignature | src/crypto/crypto.cpp:541-620 | accepts exactly when image and keys decode, the image is in the subgroup, all scalars are in range and the challenges sum to the hash of all commitments; signatures beyond the ring are ignored |
| RingSignatures.RingCloses | src/crypto/crypto.cpp:525-538 | completing the real member makes the challenges sum to the hash |
| RingSignatures.GenerateRingSignatures | src/crypto/crypto.cpp:448-539 | succeeds exactly when image and decoy keys decode; then, for an honest key and image, the checker accepts, for every ring size, position and randomness |
| RingSoundness.EntryBinds | src/crypto/crypto.cpp:434-442 | the two 32-byte halves of a ring entry determine c*P + r*B and r*Hp(P) + c*I, and nothing less does |
| RingSoundness.EqualEntries | src/crypto/crypto.cpp:576-606 | equal entries under two signatures give (c1 - c2)*P = (r2 - r1)*B and (c1 - c2)*I = (r2 - r1)*Hp(P) |
| RingSoundness.RingExtraction | src/crypto/crypto.cpp:541-620 | for prime L, two ring signatures accepted on the same commitments under different answers of the hash give a secret x of a ring member, and the image is x*Hp(P) |
| RingSoundness.OneImagePerKey | src/crypto/crypto.cpp:420-428 | for prime L, all secrets that open a key agree modulo L and give the same image |
| RingSoundness.ShiftedImageRefused | src/crypto/crypto.cpp:562-567 | if an image is accepted, the image plus a nonzero point of order dividing 8 is refused with every message, ring and signature |
| RingSoundness.TranscriptInjective | src/crypto/crypto.cpp:434-446 | the hashed buffer determines the message and every entry in ring order |
| RingSoundness.BoundToMessageAndRing | src/crypto/crypto.cpp:541-620 | if the message or any commitment differs, there is a hash under which the one ring signature is accepted and the other is not |
| Varint.Write | src/common/Varint.h:18-28 | the loop writes the seven-bit groups, least significant first |
| Varint.EncodeSpells | src/common/Varint.h:18-28 | the low seven bits of the written bytes spell the number, and all bytes but the last are marked |
| Varint.ReadExactly | src/common/StreamTools.cpp:90-196 | at widths 8, 16, 32 and 64 a value is read if and only if its own encoding is in front, and only that is consumed |
| Varint.ReadStream | src/common/StreamTools.cpp:90-196 | the reading loop, with its three errors, is that reader |
| Varint.NotCanonicalExactly | src/common/StreamTools.cpp:90-196 | refused as not canonical are exactly the inputs in which a zero byte stands behind marked ones within the width; what is left of the refusals is overflow |
| Varint.ReadTag | src/common/Varint.h:37-68 | the tag reader agrees with it, with codes -1 and -2; when input ends early it returns the whole length and the number spelled so far; its count is positive exactly on inputs that start with an encoding or consist of one to nine unfinished bytes |
| Varint.TagAccepted | src/common/Varint.h:37-68 | reading completes exactly when a 64-bit encoding is in front, and runs out of input exactly on at most nine unfinished bytes |
| Varint.CutOffTagAccepted | src/common/Varint.h:37-68 | the byte 0x80 alone is such an input and no value is encoded that way |
| Varint.TenBytes | src/common/Varint.h:30-35 | 64-bit values take at most ten bytes |
| Base58Alphabet.ReverseTable | src/common/Base58.cpp:35-60 | the table inverts the 58 letters and gives -1 for every other character |
| Base58Blocks.SizeTable | src/common/Base58.cpp:62-85 | the table inverts the block sizes and gives -1 for every other length |
| Base58Blocks.Fits | src/common/Base58.cpp:27-31 | every number of k bytes fits the letters of its block |
| Base58Blocks.BlockInverse | src/common/Base58.cpp:133-187 | a text decodes to a block if and only if it is that block's text |
| Base58Blocks.SameNumber | src/common/Base58.cpp:133-150 | a block's bytes in base 256 and its letters' digits in base 58 are the same number, most significant first |
| Base58Blocks.OneByte | src/common/Base58.cpp:133-150 | every single byte is written as the letters of its quotient and remainder by 58 |
| Base58BlockCodec.ReadBig | src/common/Base58.cpp:87-123 | the big-endian number of one to eight bytes |
| Base58BlockCodec.EncodeBlock | src/common/Base58.cpp:133-146 | writes the block's text in its place and nothing outside |
| Base58BlockCodec.ReadDigits | src/common/Base58.cpp:158-177 | gives the exact number, or refuses exactly foreign characters and values of 2^64 or more |
| Base58BlockCodec.DecodeBlock | src/common/Base58.cpp:148-187 | refuses exactly unknown lengths, foreign characters and numbers too large for the bytes; otherwise writes the bytes and nothing outside |
| Base58.DecodesExactly | src/common/Base58.cpp:190-257 | a text decodes to a byte string if and only if it is its encoding, for all texts and byte strings |
| Base58.Encode | src/common/Base58.cpp:190-216 | the loop over blocks gives the text of the byte string |
| Base58.Decode | src/common/Base58.cpp:218-257 | the length test and the loop over blocks decode exactly |
| Address.EncodeAddr | src/common/Base58.cpp:259-267 | tag, data and four hash bytes, in Base58 |
| Address.AddressUnique | src/common/Base58.cpp:259-267 | an address determines its tag and its data |
| Address.PayloadExactly | src/common/Base58.cpp:269-291 | the checksum test passes exactly for texts of a nonempty payload with its own checksum |
| Address.ChecksumGuards | src/common/Base58.cpp:269-291 | under a hash that differs on another payload, that payload is refused with this one's checksum |
| Address.DecodeAddr | src/common/Base58.cpp:269-301 | returns tag and data if and only if the text is their address, except on payloads cut off inside the tag, which are accepted with no data and the number spelled so far though no tag and data make them |
| Address.CutOffExists | src/common/Base58.cpp:293-299 | a text of that exceptional kind |
| TxExtra.ParsedWellFormed | src/common/TransactionExtra.cpp:21-135 | every parse, failed or not, yields each kind of field at most once, padding last and all sizes in range |
| TxExtra.RoundTrip | src/common/TransactionExtra.cpp:21-183 | writing and parsing give a list of fields back if and only if it is well formed |
| TxExtra.WrittenReadsBack | src/common/TransactionExtra.cpp:21-183 | written fields are read back from in front of any bytes |
| TxExtra.ReadFieldExactly | src/common/TransactionExtra.cpp:21-135 | behind its tag a field is read if and only if its bytes stand there: 32 key bytes, length and nonce, zeros up to the end, or length, depth, root and any surplus |
| TxExtra.JunkIgnored | src/common/TransactionExtra.cpp:21-135 | bytes that are no tag are passed over wherever they stand between fields |
| TxExtra.SecondOfAKind | src/common/TransactionExtra.cpp:21-135 | a second key or nonce ends the parse without an error, a second merge-mining tag is passed over |
| TxExtra.TagReadBack | src/serialization/CryptoNoteSerialization.cpp:513-540 | the length-prefixed merge-mining tag is read back from in front of any bytes |
| TxExtra.KeySurvives | src/common/TransactionExtra.cpp:185-205 | a written public key is found again whatever bytes follow |
| TxExtra.KeyExactly | src/common/TransactionExtra.cpp:185-198 | the answer is the key among the parsed fields, or zeros when there is none |
| TxExtra.PaymentIdFound | src/common/TransactionExtra.cpp:251-320 | a payment id added behind other fields is found again |
| TxExtra.PaymentIdExactly | src/common/TransactionExtra.cpp:259-320 | an id is found if and only if the parse succeeds and its nonce is a zero byte and that id |
| TxExtraCodec.Writer.AddPublicKey | src/common/TransactionExtra.cpp:199-205 | appends tag and key |
| TxExtraCodec.Writer.AddNonce | src/common/TransactionExtra.cpp:207-225 | appends tag, length and bytes, or refuses more than 255 bytes and changes nothing |
| TxExtraCodec.Writer.AddMergeMining | src/common/TransactionExtra.cpp:227-241 | appends tag and serialized depth and root |
| TxExtraCodec.Writer.Add | src/common/TransactionExtra.cpp:137-167 | appends the field's bytes or refuses it |
| TxExtraCodec.Writer.WriteAll | src/common/TransactionExtra.cpp:169-183 | writes all fields, or exactly those in front of the first that is refused |
| TxExtraCodec.ReadPadding | src/common/TransactionExtra.cpp:58-72 | accepts exactly zeros up to the end, at most 255 with the tag |
| TxExtraCodec.ReadMergeMining | src/serialization/BinaryInputStreamSerializer.cpp:98-133 | reads the tag's string and its contents, or fails |
| TxExtraCodec.ParseExtra | src/common/TransactionExtra.cpp:21-135 | the parsing loop, with its quiet and its failing exits, yields the described fields and verdict |
| Blake256.TickExact | src/crypto/blake256.c:146-150 | on multiples of 512 testing the low word for zero is the 64-bit carry |
| Blake256.TickBack | src/crypto/blake256.c:191-219 | subtracting the padding and adding 512 counts the message bits, although borrow and carry are both dropped |
| Blake256.AppendsExactly | src/crypto/blake256.c:138-178 | an update appends its bytes, whatever they are, if and only if the two lengths satisfy the stated condition |
| Blake256State.State.Update | src/crypto/blake256.c:138-178 | for all lengths, what is compressed with which counters and what stays in the buffer |
| Blake256Hash.PadInjective | src/crypto/blake256.c:180-219 | different messages are padded differently |
| Blake256Hash.PadShape | src/crypto/blake256.c:180-219 | the padded message is the message, the bits 1, 0, ..., 0, 1 and its length in 64 bits, up to the first block boundary |
| Blake256Hash.FinalH | src/crypto/blake256.c:180-229 | in all three cases the compressions are those of the remaining bytes, their filler and the length, with the counter at the message length or zero |
| Blake256Hash.Hash | src/crypto/blake256.c:237-243 | for every message below 2^61 bytes the result is the chaining over exactly the padded blocks of section 2.1 of the BLAKE proposal with their bit counters |
| WideArithmetic.Mul128 | src/common/int-util.h:57-82 | high and low word of the exact product |
| WideArithmetic.DivStep | src/common/int-util.h:84-89 | quotient below 2^32 and remainder of one long-division step |
| WideArithmetic.Div128 | src/common/int-util.h:92-113 | exact quotient and remainder of a 128-bit number by a 32-bit one |
| WideArithmetic.CarriesExactly | src/common/CheckDifficulty.cpp:35-43 | both carry tests hold exactly when the sum leaves 64 bits |
| WideArithmetic.CheckHash | src/common/CheckDifficulty.cpp:45-69 | true if and only if hash times difficulty is below 2^256 |
| WideArithmetic.LowerDifficulty | src/common/CheckDifficulty.cpp:45-69 | a hash that meets a difficulty meets every lower one |
| Shuffle.ShuffleGenerator.Next | src/common/ShuffleGenerator.h:27-52 | the sparse map takes exactly the step of the dense swap array; an exhausted generator gives nothing and stays as it is |
| Shuffle.ShuffleGenerator.Reset | src/common/ShuffleGenerator.h:59-63 | back to the full range |
| Shuffle.EachExactlyOnce | src/common/ShuffleGenerator.h:25-63 | n calls give every number below n exactly once, whatever the random choices |
| Shuffle.DrawAll | src/common/ShuffleGenerator.h:25-63 | a generator that is called until exhausted returns what the dense array returns |
| BlockingQueue.StepKeeps | src/common/BlockingQueue.h:22-85 | every step of push, pop and close keeps the no-lost-wake-up conditions, the bound and the order |
| BlockingQueue.RunKeeps | src/common/BlockingQueue.h:22-85 | they hold in every state of every run, spurious wake-ups included |
| BlockingQueue.RunIsFifo | src/common/BlockingQueue.h:22-85 | values come out in order and once, never more than the capacity is inside, and after closing nothing goes in |
| BlockingQueue.QuietMeansJustified | src/common/BlockingQueue.h:22-85 | when no woken thread is left, pushers sleep only on a full queue, poppers only on an empty one, a closer only on a nonempty one |
| QueueHistory.Linearizable | src/common/BlockingQueue.h:22-85 | in every run the results of the calls are those of a plain bounded queue doing them one at a time, which then holds what the real queue holds: push is true only on an open queue with space and false only on a closed one, pop gives the head, or false only on a closed empty queue, and a waiting close returns only on an empty one |
| QueueHistory.CallsReturnOnce | src/common/BlockingQueue.h:22-85 | each thread's calls, with their values, are those that have returned to it in order and the one it may still be inside of |
| QueueHistory.HistoriesAreResults | src/common/BlockingQueue.h:22-85 | what went in is exactly the values of the pushes that returned true, and what came out those of the pops, in order |
| QueueHistory.NothingLost | src/common/BlockingQueue.h:22-85 | in such a history the accepted values are those handed out followed by those left, at most the capacity |
| QueueHistory.SleepsForAReason | src/common/BlockingQueue.h:22-85 | in every step a pusher sleeps exactly on a full open queue, a popper on an empty open one, a closer on one that is not drained; otherwise the call returns at once |
| BlockingQueue.GroupClosesOnce | src/common/BlockingQueue.h:112-133 | in every interleaving the queue is closed once, by the call that completes the group |
| BlockingQueue.GroupOverrun | src/common/BlockingQueue.h:112-133 | a run in which a surplus caller wraps the count |
| VectorLayout.OpenLayout | src/common/FileMappedVector.h:997-1036 | opening the laid-out file gives every part back |
| VectorLayout.LayoutOpen | src/common/FileMappedVector.h:997-1096 | whatever opens is the layout of what it opens to |
| VectorLayout.OpensExactly | src/common/FileMappedVector.h:997-1096 | a file opens if and only if it is the layout of an image |
| VectorLayout.Offsets | src/common/FileMappedVector.h:1022-1096 | where the prefix, capacity, size, each element and the suffix are in the file |
| VectorLayout.HeaderWraps | src/common/FileMappedVector.h:997-1020 | sixteen bytes that pass every test although their header claims 2^64 bytes of elements |
| VectorOps.FileMappedVector.Insert | src/common/FileMappedVector.h:735-765 | the whole new image: the elements are spliced in, prefix and suffix stay, the capacity grows by the source's rule and the rest is zero |
| VectorOps.FileMappedVector.Erase | src/common/FileMappedVector.h:712-725 | the whole new image: the range is cut out, the rest stays |
| VectorOps.FileMappedVector.Recopy | src/common/FileMappedVector.h:907-935 | the whole new image: elements stay; the bytes of prefix and suffix stay as far as both lengths go and are zero beyond the old end |
| VectorOps.FileMappedVector.Reserve | src/common/FileMappedVector.h:551-561 | contents stay, capacity is the larger of the two |
| VectorOps.FileMappedVector.ShrinkToFit | src/common/FileMappedVector.h:563-573 | contents stay, capacity becomes the size |
| VectorOps.FileMappedVector.ResizePrefix | src/common/FileMappedVector.h:837-847 | only the prefix changes: the same bytes as far as both lengths go, and zeros beyond the old end |
| VectorOps.FileMappedVector.ResizeSuffix | src/common/FileMappedVector.h:870-880 | only the suffix changes: the same bytes as far as both lengths go, and zeros beyond the old end |
| VectorOps.ResizedBack | src/common/FileMappedVector.h:837-880 | growing and shrinking back restores the bytes, shrinking and growing back loses what was cut off |
| VectorOps.CapacityRule | src/common/FileMappedVector.h:551-765 | the capacity always suffices, stays when an insertion fits, grows by at least half when it does not, and is the size after shrink_to_fit |
| VectorOps.FileMappedVector.PushBack | src/common/FileMappedVector.h:775-789 | the element is appended; until the size is written the old contents show, whatever part of the element has been written |
| VectorOps.FileMappedVector.PopBack | src/common/FileMappedVector.h:767-773 | the last element goes |
| VectorOps.FileMappedVector.Clear | src/common/FileMappedVector.h:697-703 | no elements, the rest stays |
| VectorOps.ResultMeans | src/common/FileMappedVector.h:551-935 | for each copying operation the image it leaves is well formed and shows what the operation means on the list |
| VectorOps.WrittenBeyond | src/common/FileMappedVector.h:775-789 | a slot beyond the size is not seen, whatever its bytes; raising the size then shows it |
| VectorOps.InsertThenErase | src/common/FileMappedVector.h:712-765 | erasing what was inserted restores the contents |
| FileSwap.StepKeeps | src/common/FileMappedVector.h:937-995 | every system call, failure and kill keeps the disk invariant |
| FileSwap.AlwaysRecoverable | src/common/FileMappedVector.h:447-502 | at every moment of every run the file that opening recovers is complete and is the committed one |
| FileSwap.CommitPoint | src/common/FileMappedVector.h:937-995 | the committed file changes only at the second rename |
| FileSwap.UpdateAllOrNothing | src/common/FileMappedVector.h:937-995 | whatever fails and however often the process is killed, an update took effect exactly if its second rename succeeded |
| FileSwap.UpdateCompletes | src/common/FileMappedVector.h:937-995 | when every call succeeds the update replaces the file and leaves no other behind |
| FileSwap.RecoveryCompletes | src/common/FileMappedVector.h:447-502 | after a kill at any step opening succeeds, maps the file that counts and removes the other |
| VectorCrash.ReopenAfterUpdate | src/common/FileMappedVector.h:447-502 | reopening after a crash at any step gives exactly the new or exactly the old image, by whether the second rename succeeded |
| VectorCrash.CrashDuring | src/common/FileMappedVector.h:551-995 | an insert, erase, reserve, shrink_to_fit, resizePrefix or resizeSuffix interrupted anywhere shows the contents from before it or what it makes of them |
| VectorCrash.AlwaysReopens | src/common/FileMappedVector.h:447-995 | over whole runs of operations, in-place writes, failures, kills and reopenings, the file found opens to exactly the image made by the writes and the operations whose second rename succeeded, in order |

## Left out

- Associativity of the curve law and the group order: hypotheses in `Curve.Lawful`, with the mathematics of section 5.1 of RFC 8032 behind them.
- The primality of 2^255 - 19 and of L: the hypotheses `Fermat.Prime(P)` and `Fermat.Prime(L)` of the theorems that need them.
- Unforgeability against an adversary who may query the hash: needs probabilities; what is proved is the extraction it rests on.
- PointEncoding.GeToBytes: where `fe_invert` inverts Z (`Invertible`), which `PrimeField.UnitInvertible` gives for every represented point when 2^255 - 19 is prime.
- Subgroup.CheckSubgroup: over an abstract group, where the closing test is equality with the neutral element; what the source's comparison of coordinates decides is `NeutralTest`.
- Hashing to points (`ge_fromfe_frombytes_vartime`).
- The base-point tables in `crypto-ops-data.c`: only their stated meaning is used.
- Keccak, the BLAKE compression function, CryptoNight and the other hash and cipher internals: arbitrary functions.
- `fe_cmov`, `fe_copy`, `fe_0` and `sc_0`: limb-wise copies.
- The branch-free bit tricks `equal`, `negative` and `fe_cmov` inside `select`: modelled as the conditional moves they implement.
- ScalarMult.ScalarMul: for a[31] <= 127 only, which the source assumes of its callers.
- ScalarMult.ScalarMulBase: for a[31] <= 127 only, which the source states as a precondition.
- Blake256State.State.Update: whole bytes only; the source also takes bit counts that are not multiples of eight.
- Blake224, HMAC and the salt of BLAKE: not part of this model.
- The queue's mutex and condition variables are steps of a machine on values, not a class; fairness and progress of the scheduler are not modelled.
- Memory mapping, flushing order across power loss, and failures of `remove` inside `open`: a rename, a removal, and the write of the size field are one step each, and what was written before a kill is on disk after it.
- FileSwap.AlwaysRecoverable: an in-place write counts as committed whatever its bytes; `VectorCrash.AlwaysReopens` says what they are for the vector's own writes.
- VectorLayout.LayoutOpen: a corrupt header whose 64-bit file-size product wraps is recognised as such (`WrappedHeader`, an example is `VectorLayout.HeaderWraps`), and what the source then maps is not described.
- VectorCrash.CrashDuring: `open` is given the prefix size by its caller, and the statement uses the size of the image that counts; after an interrupted `resizePrefix` the caller has to know which.
- Exceptions thrown by allocation, and `FileMappedVector::swap`, iterators and element access: easy members.
- Signed varints, the string and container readers of `StreamTools.cpp`, JSON, hex and console code: easy members or platform I/O.
- `parsePaymentId` and the other hex conversions.
