# Verified model of the Spacechain OS cryptography library

The library signs transactions: big numbers, elliptic curves and ECDSA, Shamir's secret
sharing, the fields of Ed25519 and Poly1305, HMAC with its generators and derivations,
hierarchical keys and the codecs of addresses and amounts.  Its code
is fast C over limbs, words and bit slices.  This project models that code in the same form,
as methods that update arrays and objects in place, and proves that each fast form computes
the simple thing it stands for.

- `Bignum`, `BignumSpec`, `Combo`, `ComboSpec`, `BnDivide`, `BnInverse`, `BnSqrt`: nine 30-bit limbs, reduction
  modulo a prime in (2^256 - 2^224, 2^256), and the modular inverse whose four numbers share two arrays.
  Every variable has a word type, so that an assignment is also a proof that nothing wraps.
- `CurveSpec`, `CurveClosure`, `Curve`, `Jacobian`, `JacobianPoints`, `Groups`, `CurveGroup`, `ScalarDigits`,
  `ScalarLimbs`, `ScalarMultiply`, `ScalarTable`: the affine chord-and-tangent addition, the projective
  formulas, and the scalar multiplications by signed odd digits.
- `Keys`, `EcdsaSpec`, `Ecdsa`: reading public keys; signing, verifying and recovering.
- `Gf256`, `Gf256Inverse`, `Lagrange`, `ShamirSpec`, `Bitslice`, `Shamir`: interpolation over GF(256), 32
  bytes at a time in bit slices.
- `ModmSpec`, `Modm`, `ModmColumns`, `ModmExpand`, `ModmRecode`, `SignedDigits`: arithmetic modulo the order of
  Ed25519 with Barrett's reduction, and the signed-digit recodings of a scalar.
- `Field25519Spec`, `Field25519`, `Field25519Square`, `Field25519Bytes`, `Field25519Inverse`: arithmetic modulo
  2^255 - 19 on ten limbs of 26 and 25 bits.
- `Poly1305Spec`, `Poly1305Limbs`, `Poly1305Blocks`, `Poly1305Key`, `Poly1305Tag`, `Poly1305Polynomial`, `Poly1305`: the authenticator of
  section 2.5 of RFC 7539, on five limbs of 26 bits, with its buffer of leftover bytes.
- `Sha256Spec`, `Sha256`, `HmacSpec`, `HmacForms`, `DrbgSpec`, `HmacDrbg`, `DrbgReseed`, `Pbkdf2Spec`, `Pbkdf2`: the
  buffering and padding of SHA-256 around an unspecified compression function, HMAC in its simple form and with
  precomputed digests, and on the latter HMAC_DRBG and PBKDF2.
- `Bip32Spec`, `Bip32`, `Bip32Cache`: private and public key derivation, and the cache of derived nodes.
- `BigEndian`, `Base58Spec`, `Base58`: radix conversion in both directions.
- `Polymod`, `Checksum`, `Bech32Spec`, `Bech32`, `ConvertBits`, `Addresses`: the Bech32 and CashAddr strings, their
  checksums, and the addresses made with them.
- `DecimalSpec`, `DecimalValue`, `DecimalBound`, `BnFormat`: amounts as decimal text.
- `Arith`, `Words`, `Limbs`, `LittleEndian`, `Powers`, `Modular`, `Primes`, `Fermat`, `Wrappers`: shared arithmetic.

Conventions.  A byte string of fixed length is the number it stands for.  Randomness (z in
`curve_to_jacobian`, the nonces, the blinding factor) is a parameter or an arbitrary value in
its range.  The compression function of SHA-256 is a parameter, and so is HMAC-SHA-512 in key derivation.  The curve is a parameter: a prime in
range, a coefficient a with -a at most the low limb of the prime, b not 0, and a base point.
That the points form a commutative group of the stated prime order is the hypothesis
`CurveGroup.IsGroup` (spelled out by `CurveGroup.GroupMeans`); that sums stay on the curve and that negatives are inverses is proved.

A method is proved against a specification function, and that function is tied to the standard by
lemmas in the standard's own terms, most of them named `..Means`, `..Mean` or `..Exactly`: with its
constants written out, or by properties that leave no other function.

## Model

| member | source | states |
|---|---|---|
| `Bignum.Multiply` | Spacechain_os_part/bignum.c:461-469 | in place on the limbs and without a wrapped 64-bit step, for factors below 180 p (k may be x itself), x becomes the partly reduced product |
| `Bignum.MultiplyReduceStep` | Spacechain_os_part/bignum.c:400-439 | one reduction step takes 18 limbs from below 2^(30(i-7)) 2p to below 2^(30(i-8)) 2p by subtracting exactly the estimated multiple of p, and clears limb i + 1 |
| `BignumSpec.MulRange` | Spacechain_os_part/bignum.c:442-469 | about the number Bignum.Multiply leaves: it is below 2p and congruent to the product modulo p |
| `Bignum.FastModInPlace` | Spacechain_os_part/bignum.c:473-488 | any nine 32-bit limbs, normalized or not, become normalized limbs of x less floor(x[8] / 2^16) p, with no step wrapping |
| `BignumSpec.FullReduction` | Spacechain_os_part/bignum.c:357-365 | bn_fast_mod followed by bn_mod is reduction modulo p, for every normalized number |
| `BignumSpec.FastModMultiple` | Spacechain_os_part/ecdsa.c:289-296 | a number between 0 and 4p is taken to p itself exactly when it is a multiple of p, so the doubling test is exact |
| `Bignum.IsLess` | Spacechain_os_part/bignum.c:243-254 | the two bit strings of limb comparisons, compared as numbers, order the numbers |
| `Bignum.SubtractMod` | Spacechain_os_part/bignum.c:880-889 | the normalized limbs of a + 2p - b, the result in either argument's place too |
| `Bignum.MultHalfInPlace` | Spacechain_os_part/bignum.c:330-345 | x / 2 or (x + p) / 2, whichever is whole, from limbs that are halved as they are added |
| `Bignum.ConditionalNegate` | Spacechain_os_part/ecdsa.c:167-179 | 2p - a or a, by the condition |
| `BnInverse.Inverse` | Spacechain_os_part/bignum.c:569-834 | for every residue other than 0 modulo a prime in range the loop ends, the four shared numbers never overlap, and x becomes the reduced y with x y = 1 modulo p |
| `BnInverse.CoprimeFirsts` | Spacechain_os_part/bignum.c:620-636 | the loop invariant keeps u and v without a common divisor |
| `BnDivide.DivideStep` | Spacechain_os_part/bignum.c:765-818 | one pass over the words divides by 2^k modulo p: the words before plus a multiple of p are 2^k times the words after, which stay below p |
| `BnSqrt.Sqrt` | Spacechain_os_part/bignum.c:494-526 | reading the exponent (p+1)/4 bit by bit from its limbs gives that power, and for p = 3 modulo 4 a square root of every number that has one |
| `Fermat.SquareRoot` | Spacechain_os_part/bignum.c:490-493 | for a prime p = 3 modulo 4, x^((p+1)/4) squared is x for every square x, from Fermat's little theorem |
| `CurveClosure.AddOnCurve` | Spacechain_os_part/ecdsa.c:44-130 | the chord-and-tangent sum of two points of the curve is a point of the curve |
| `CurvePoints.PointAdd` | Spacechain_os_part/ecdsa.c:44-87 | cp2 becomes the affine sum, in all cases: infinity on either side, equal points, opposite points |
| `CurvePoints.PointDouble` | Spacechain_os_part/ecdsa.c:90-130 | cp becomes its double, infinity when y is 0 |
| `JacobianPoints.PointJacobianAdd` | Spacechain_os_part/ecdsa.c:231-348 | the projective result stands for the affine sum, doubling included; its denominator is 0 exactly for opposite points; coordinates stay below 2p |
| `JacobianPoints.PointJacobianDouble` | Spacechain_os_part/ecdsa.c:350-416 | the projective result stands for the affine double; its denominator is 0 exactly when y is 0 |
| `JacobianPoints.JacobianToCurve` | Spacechain_os_part/ecdsa.c:213-229 | a triple that stands for a point is converted to that point |
| `ScalarDigits.Recoding` | Spacechain_os_part/ecdsa.c:461-473 | the 64 odd signed digits of an odd number below 2^257, weighted by powers of 16, sum up to the number less 2^256 |
| `ScalarMultiply.PointMultiply` | Spacechain_os_part/ecdsa.c:419-538 | from the limbs of k, for 0 <= k < order and any point but infinity, the result is k p; the exceptional cases of the projective formulas are never reached |
| `ScalarTable.ScalarMultiplyBase` | Spacechain_os_part/ecdsa.c:544-626 | the form that adds entries of the precomputed table from the lowest digit up computes the same multiple of the base point |
| `CurveSpec.SumEquations` | Spacechain_os_part/ecdsa.c:44-130 | the sum of two points satisfies the chord and the tangent equations that determine it |
| `CurveGroup.GroupMeans` | Spacechain_os_part/ecdsa.c:44-130 | the hypothesis about the curve, in full |
| `ScalarTable.TableMeans` | Spacechain_os_part/ecdsa.c:544-626 | the hypothesis about the table: entry j of row i is (2j + 1) 16^i G |
| `Keys.ReadsMeans` | Spacechain_os_part/ecdsa.c:895-956 | which point a key stands for, as equations in its coordinates (section 2.3.4 of SEC 1) |
| `Keys.ReadPubkey` | Spacechain_os_part/ecdsa.c:895-956 | the point a key encodes, for exactly the keys that encode one (compressed keys: for p = 3 modulo 4) |
| `Ecdsa.SignDigest` | Spacechain_os_part/ecdsa.c:676-767 | the signature of the first nonce of at most 10000 that is in range, gives nonzero r and s, and is accepted by the caller's test; none exactly when there is no such nonce |
| `Ecdsa.VerifyDigest` | Spacechain_os_part/ecdsa.c:1034-1087 | each return code under its exact condition: 0 if and only if the key is read, the digest is not 0 modulo the order and the signature verifies |
| `Ecdsa.RecoverPub` | Spacechain_os_part/ecdsa.c:984-1031 | for every input: rejected exactly when a check fails, undefined exactly when s R = z G, and otherwise the recovered key |
| `EcdsaSpec.SignVerifyRecover` | Spacechain_os_part/ecdsa.c:676-1087 | every signature made has s at most half the order, verifies under d G, and every nonce point its recovery byte allows gives d G back |
| `EcdsaSpec.SignExactly` | Spacechain_os_part/ecdsa.c:676-767 | a nonce gives no signature exactly when r or s becomes 0; otherwise r and the recovery byte are those of the nonce point and s k is r d + z or its negative, with the parity flipped then |
| `EcdsaSpec.VerifiesExactly` | Spacechain_os_part/ecdsa.c:1058-1087 | under d G exactly the signatures in range verify that have a nonce k with s k = r d + z and r the abscissa of k G |
| `EcdsaSpec.RecoveredExactly` | Spacechain_os_part/ecdsa.c:984-1031 | the recovered key is the one point that r takes to s R - z G |
| `EcdsaSpec.RecoverSumZero` | Spacechain_os_part/ecdsa.c:1019-1026 | the point that recovery multiplies by the inverse of r is infinity if and only if s R = z G |
| `EcdsaSpec.RecoverSumOfBase` | Spacechain_os_part/ecdsa.c:1019-1026 | a signature that passes every check and still has that sum infinity: R = G, s = z modulo the order |
| `Shamir.Interpolate` | Spacechain_os_part/shamir.c:263-335 | false exactly for more than 32 bytes or a repeated index; otherwise each byte is the value at the result index of every polynomial of low degree through the shares, also when that index is a share's |
| `Shamir.RecoversMeans` | Spacechain_os_part/shamir.c:263-335 | what the result means for any polynomial, byte by byte |
| `Shamir.TwoShares` | Spacechain_os_part/shamir.c:263-335 | an example: the shares (1, 0) and (2, 1) have the secret 0xf6 |
| `Shamir.ElementXor` | Spacechain_os_part/shamir.c:43-71 | the exclusive or of bytes is the sum of the elements they stand for |
| `Shamir.ElementTimesX` | Spacechain_os_part/shamir.c:85-89 | doubling a byte, reduced by 0x11b, is multiplying its element by x |
| `Lagrange.Interpolation` | Spacechain_os_part/shamir.c:300-330 | only the algebraic identity behind the loop: the Lagrange sum is the value of any polynomial of low degree through points with distinct arguments |
| `ShamirSpec.SharesHavePolynomial` | Spacechain_os_part/shamir.c:243-262 | there is such a polynomial for any shares with distinct indices |
| `Gf256.MulIsPolynomialProduct` | Spacechain_os_part/shamir.c:85-89 | the field product is the product of polynomials modulo x^8 + x^4 + x^3 + x + 1 |
| `Bitslice.Multiply` | Spacechain_os_part/shamir.c:90-197 | every one of the 32 lanes of the result holds the field product of the lanes, also when the result is the first factor |
| `Bitslice.Invert` | Spacechain_os_part/shamir.c:244-261 | every lane of the result holds x^254 of the lane, by the addition chain of the source |
| `Gf256Inverse.InverseLaw` | Spacechain_os_part/shamir.c:232-261 | x^254 is the inverse of every nonzero x, and 0 for 0 |
| `ModmSpec.Barrett` | Spacechain_os_part/ed25519-donna/modm-donna-32bit.c:68-133 | with partial products below b / 16 dropped from the quotient estimate, the remainder is still below 3m |
| `ModmSpec.BarrettRemainder` | Spacechain_os_part/ed25519-donna/modm-donna-32bit.c:68-133 | for the group order and every 512-bit number that remainder is what the difference modulo 2^264 gives |
| `ModmSpec.OrderMeans` | Spacechain_os_part/ed25519-donna/modm-donna-32bit.c:8-12 | the modulus is 2^252 + 27742317777372353535851937790883648493 |
| `Modm.BarrettReduce` | Spacechain_os_part/ed25519-donna/modm-donna-32bit.c:68-133 | the limbs of x mod m, for every x below 2^512 |
| `Modm.Mul256` | Spacechain_os_part/ed25519-donna/modm-donna-32bit.c:193-235 | the limbs of x y mod m, for factors below 2^255 |
| `Modm.Sub256` | Spacechain_os_part/ed25519-donna/modm-donna-32bit.c:178-190 | the limbs of (x - y) mod m, for reduced numbers |
| `ModmExpand.Expand256` | Spacechain_os_part/ed25519-donna/modm-donna-32bit.c:238-287 | the limbs of the little-endian number of up to 64 bytes modulo m |
| `ModmRecode.SlidingWindow` | Spacechain_os_part/ed25519-donna/modm-donna-32bit.c:371-410 | 256 digits, each 0 or odd and at most 2^(w-1) - 1 in size, whose binary sum is the scalar |
| `ModmRecode.Window4` | Spacechain_os_part/ed25519-donna/modm-donna-32bit.c:336-368 | 64 digits between -8 and 8 whose sum in base 16 is the scalar |
| `Field25519Spec.PrimeMeans` | Spacechain_os_part/ed25519-donna/curve25519-donna-32bit.c:437-516 | the modulus is 2^255 - 19 |
| `Field25519.Multiply` | Spacechain_os_part/ed25519-donna/curve25519-donna-32bit.c:160-254 | no 32- or 64-bit step wraps and the limbs stand for the product modulo 2^255 - 19, for factors at most one addition or subtraction away from a product, also in place |
| `Field25519Spec.ColumnsValue` | Spacechain_os_part/ed25519-donna/curve25519-donna-32bit.c:188-230 | the ten columns with their factors 2, 19 and 38 are the product modulo 2^255 - 19, whatever the limbs |
| `Field25519.TopFits` | Spacechain_os_part/ed25519-donna/curve25519-donna-32bit.c:160-254 | for such factors the last column leaves a carry of 32 bits |
| `Field25519.LooseIsTooMuch` | Spacechain_os_part/ed25519-donna/curve25519-donna-32bit.c:80-93 | it would not if a subtraction left its lowest limbs uncarried |
| `Field25519.Subtract` | Spacechain_os_part/ed25519-donna/curve25519-donna-32bit.c:80-93 | no limb goes below 0, the difference modulo 2^255 - 19, in limbs that Multiply takes |
| `Field25519Square.SquareTimes` | Spacechain_os_part/ed25519-donna/curve25519-donna-32bit.c:330-403 | the argument to the power 2^count, the columns of a square being those of the product |
| `Field25519Bytes.Expand` | Spacechain_os_part/ed25519-donna/curve25519-donna-32bit.c:405-435 | the limbs of the little-endian number of 32 bytes, its top bit cleared |
| `Field25519Bytes.Contract` | Spacechain_os_part/ed25519-donna/curve25519-donna-32bit.c:437-516 | from any limbs not close to 2^32, whether what a product, sum, difference or Expand leaves: the bytes of the representative below 2^255 - 19 |
| `Field25519Inverse.Recip` | Spacechain_os_part/ed25519-donna/curve25519-donna-helpers.c:14-49 | the addition chain computes z^(2^255 - 21) |
| `Field25519Inverse.RecipIsInverse` | Spacechain_os_part/ed25519-donna/curve25519-donna-helpers.c:36-49 | if 2^255 - 19 is prime, that power is the inverse of every residue other than 0 |
| `Poly1305.State.Update` | Spacechain_os_part/chacha20poly1305/poly1305-donna.c:4-39 | appends the bytes to what was absorbed, however the message is split |
| `Poly1305.State.Finish` | Spacechain_os_part/chacha20poly1305/poly1305-donna-32.h:134-218 | the tag of section 2.5 of RFC 7539 of all that was absorbed, the clamped multiplier, the short last block and the sum modulo 2^128 included |
| `Poly1305.Auth` | Spacechain_os_part/chacha20poly1305/poly1305-donna.c:41-47 | the tag of a message |
| `Poly1305Polynomial.MultiplierMeans` | Spacechain_os_part/chacha20poly1305/poly1305-donna-32.h:48-53 | the multiplier is the first half of the key masked with 0x0ffffffc0ffffffc0ffffffc0fffffff |
| `Poly1305Polynomial.TagMeans` | Spacechain_os_part/chacha20poly1305/poly1305-donna-32.h:72-218 | the tag is the polynomial with the blocks as coefficients, at the multiplier, modulo 2^130 - 5, plus the second half of the key modulo 2^128 |
| `Poly1305Key.LoadMultiplier` | Spacechain_os_part/chacha20poly1305/poly1305-donna-32.h:48-53 | five overlapping words, shifted and masked, are the limbs of the clamped first half of the key |
| `Poly1305Limbs.Multiply` | Spacechain_os_part/chacha20poly1305/poly1305-donna-32.h:107-124 | without a wrapped step the product modulo 2^130 - 5, carried far enough for the next block |
| `Poly1305Tag.FullCarry` | Spacechain_os_part/chacha20poly1305/poly1305-donna-32.h:155-160 | the single pass of carries leaves every limb below 2^26 |
| `Poly1305Tag.FullReduce` | Spacechain_os_part/chacha20poly1305/poly1305-donna-32.h:162-183 | h + 5 - 2^130 decides, by its wrapped top limb, whether the modulus is subtracted |
| `Sha256.Context.Update` | Spacechain_os_part/sha2.c:829-885 | appends the bytes to what was absorbed, however the message is split |
| `Sha256.Context.Final` | Spacechain_os_part/sha2.c:887-939 | the hash of all that was absorbed with the padding of section 5.1.1 of FIPS 180-4, in one block or in two |
| `Sha256Spec.PaddingMeans` | Spacechain_os_part/sha2.c:887-939 | the padding of section 5.1.1 of FIPS 180-4: a one bit, the least number of zeros, the length in 64 bits |
| `Sha256Spec.WordsMean` | Spacechain_os_part/sha2.c:846-851 | the most significant byte of a word comes first |
| `Sha256Spec.HashMeans` | Spacechain_os_part/sha2.c:829-939 | the hash is the last of the intermediate hash values of section 6.2.2, over the padded blocks in their order |
| `HmacSpec.HmacOfKey` | Spacechain_os_part/hmac.c:30-68 | RFC 2104 with its two masks, for a key of at most a block |
| `HmacSpec.HmacOfLongKey` | Spacechain_os_part/hmac.c:30-68 | the same for a longer key, which is hashed first |
| `HmacForms.HmacSha256` | Spacechain_os_part/hmac.c:30-68 | HMAC of RFC 2104, for keys shorter and longer than a block |
| `HmacForms.Prepare` | Spacechain_os_part/hmac.c:70-102 | the states after the two padded keys, computed on words from one buffer that is masked twice |
| `HmacForms.DigestsMean` | Spacechain_os_part/hmac.c:70-102 | the prepared digests are the states after the key masked with 0x36 and with 0x5c |
| `HmacSpec.HmacOfInner` | Spacechain_os_part/hmac_drbg.c:60-63 | one compression of a block with its padding placed by hand turns the first hash into HMAC |
| `HmacSpec.HmacOfTail` | Spacechain_os_part/hmac_drbg.c:34-39 | two such compressions are HMAC of eight words and fewer than four bytes |
| `HmacDrbg.Drbg.UpdateK` | Spacechain_os_part/hmac_drbg.c:28-79 | the fields stand for K = HMAC(K, V, domain, data) afterwards, with data or without |
| `HmacDrbg.Drbg.UpdateV` | Spacechain_os_part/hmac_drbg.c:81-84 | the fields stand for V = HMAC(K, V) afterwards |
| `HmacDrbg.Drbg.constructor` | Spacechain_os_part/hmac_drbg.c:86-106 | with entropy, or without any input, the state of section 10.1.2.3 of NIST SP 800-90A; without entropy but with a nonce, that of half an update |
| `HmacDrbg.Drbg.Reseed` | Spacechain_os_part/hmac_drbg.c:108-115 | the update of section 10.1.2.2 of NIST SP 800-90A, or its first half if there is no entropy |
| `DrbgSpec.UpdateMeans` | Spacechain_os_part/hmac_drbg.c:108-115 | section 10.1.2.2 of NIST SP 800-90A step by step, with the bytes 0x00 and 0x01 |
| `DrbgSpec.ReseededMeans` | Spacechain_os_part/hmac_drbg.c:108-115 | what the source does instead, step by step |
| `DrbgSpec.GenerateMeans` | Spacechain_os_part/hmac_drbg.c:117-130 | every byte of the output is that of V_1, V_2, ..., each the HMAC of the one before |
| `DrbgReseed.ReseedExact` | Spacechain_os_part/hmac_drbg.c:108-115 | that is the update of the standard, for every hash and state, if and only if there is entropy or no additional input either |
| `HmacDrbg.Drbg.Generate` | Spacechain_os_part/hmac_drbg.c:117-130 | any number of bytes: the output and the next state of section 10.1.2.5 of NIST SP 800-90A |
| `Pbkdf2.Block.Update` | Spacechain_os_part/pbkdf2.c:58-68 | f and g stand for F and U of section 5.2 of RFC 8018 after as many iterations as were asked for in all |
| `Pbkdf2Spec.UMeans` | Spacechain_os_part/pbkdf2.c:46-68 | U_1 from the salt and the big-endian number of the block, and each further U from the one before |
| `Pbkdf2Spec.FMeans` | Spacechain_os_part/pbkdf2.c:58-68 | a bit of F is set when it is set in an odd number of U_1 ... U_c |
| `Pbkdf2Spec.KeyMeans` | Spacechain_os_part/pbkdf2.c:80-103 | byte i of the key is byte i mod 32 of block i / 32 + 1 |
| `Pbkdf2Spec.SplitIterations` | Spacechain_os_part/pbkdf2.c:58-68 | however iterations are split over calls, exactly their sum is done if and only if the first call asks for one or more |
| `Pbkdf2.Derive` | Spacechain_os_part/pbkdf2.c:80-103 | the derived key of section 5.2 of RFC 8018, of any length, the last block cut; no iterations count as one |
| `Bip32.PrivateCkd` | Spacechain_os_part/bip32.c:206-270 | the node becomes the private child of the first usable output of the retry loop, and is unchanged on failure |
| `Bip32Spec.ChildDataMeans` | Spacechain_os_part/bip32.c:211-220 | what is hashed: 0 and the private key for a hardened child, else the public key, and always the index |
| `Bip32Spec.ChildDataApart` | Spacechain_os_part/bip32.c:211-220 | equal data come from equal indices, and of hardened children only from equal private keys |
| `Bip32Spec.HardenedTag` | Spacechain_os_part/bip32.c:211-220 | for a genuine node the first byte is 0 exactly when the child is hardened |
| `Bip32Spec.PrivateChildMeans` | Spacechain_os_part/bip32.c:206-270 | the child in the terms of BIP-32: key, chain code, depth and index from the first usable output, each failed output being hashed again behind a 1 |
| `Bip32.PublicCkd` | Spacechain_os_part/bip32.c:422-482 | succeeds exactly for a non-hardened index and a key that is a point, and then the node becomes the public child |
| `Bip32Spec.PublicChildMeans` | Spacechain_os_part/bip32.c:422-482 | the same for the public child |
| `Bip32Spec.PublicOfMeans` | Spacechain_os_part/bip32.c:461-482 | the 33 bytes of a public key: 2 or 3 by the parity of y, and x |
| `Bip32Spec.EncodesUnique` | Spacechain_os_part/bip32.c:461-482 | a 33-byte key stands for at most one point, so the public child is determined |
| `Bip32Spec.DerivationsCommute` | Spacechain_os_part/bip32.c:206-482 | for a non-hardened index both retry loops end together, and the public half of the private child is the public child of the public half |
| `Bip32Spec.PathsCommute` | Spacechain_os_part/bip32.c:206-482 | the same along every non-hardened path |
| `Bip32Cache.Cache.PrivateCkdCached` | Spacechain_os_part/bip32.c:521-585 | whatever was derived before: status, node and fingerprint are those of the derivation without a cache, and the cache stays truthful |
| `Bip32Cache.PlainIsSteps` | Spacechain_os_part/bip32.c:521-585 | the derivation without a cache is deriving step by step along the path, with the fingerprint of the last but one node |
| `Bip32Spec.StepsMean` | Spacechain_os_part/bip32.c:521-585 | no step leaves the node, and one step is a derivation |
| `Base58.Encode` | Spacechain_os_part/base58.c:147-185 | writes the one encoding of the bytes if it fits, reports the size needed, and otherwise writes nothing |
| `Base58Spec.AlphabetMeans` | Spacechain_os_part/base58.c:31-32 | the digits are the characters of the alphabet in its order |
| `Base58Spec.EncodingExample` | Spacechain_os_part/base58.c:147-185 | an example with any number of leading zeros |
| `Base58.Decode` | Spacechain_os_part/base58.c:49-127 | accepts exactly the texts of digits whose number fits n bytes and whose leading ones fit its padding, and writes that number right-aligned |
| `Base58Spec.RoundTrip` | Spacechain_os_part/base58.c:49-185 | decoding an encoding into any large enough buffer gives back the length and the bytes, leading zeros included |
| `Base58Spec.DecodedEncodes` | Spacechain_os_part/base58.c:49-185 | what decoding returns is encoded by the text that was decoded, when its leading ones fit the buffer |
| `Base58Spec.SizeFits` | Spacechain_os_part/base58.c:112-126 | the reported size is within the buffer if and only if the leading ones are |
| `Base58Spec.OnesAccepted` | Spacechain_os_part/base58.c:112-126 | a text of ones alone is accepted whatever the buffer |
| `Base58Spec.RoomSuffices` | Spacechain_os_part/base58.c:155-155 | 256^n < 58^(floor(138 n / 100) + 1) for every n: the digit buffer is never too small |
| `BnFormat.DivMod1000` | Spacechain_os_part/bignum.c:926-946 | exact division by 1000 in place, no 32-bit step wrapping |
| `BnFormat.DigitCount` | Spacechain_os_part/bignum.c:185-205 | the number of decimal digits, for all numbers of at most 78 |
| `DecimalBound.AmountFits` | Spacechain_os_part/bignum.c:183-185 | every number below 2^256 has at most 78 digits |
| `BnFormat.Format` | Spacechain_os_part/bignum.c:948-1047 | prefix, the text of the number and suffix, if they fit the buffer, and their length; otherwise 0 |
| `DecimalValue.TextMeans` | Spacechain_os_part/bignum.c:975-1037 | that text read as a decimal is amount 10^(exponent - decimals), digits below the last decimal dropped, one point exactly if there are decimals, no redundant 0 at either end, all decimals if trailing is set; and the exact condition under which it is empty |
| `DecimalValue.NumberSnoc` | Spacechain_os_part/bignum.c:975-1037 | how such a text is read: a digit more is ten times the number and the digit |
| `DecimalValue.FiveTenthsMissing` | Spacechain_os_part/bignum.c:1035-1037 | an amount of which only the suffix is written |
| `Polymod.RowsDouble` | Spacechain_os_part/segwit_addr.c:27-35 | the five constants are the generator polynomial times 1, x, ..., x^4 over the field of 32 elements |
| `Polymod.GeneratorMeans` | Spacechain_os_part/segwit_addr.c:27-35 | the constants as numbers |
| `Polymod.StepOfTopBit` | Spacechain_os_part/cash_addr.c:34-41 | a bit that is shifted out brings in its constant |
| `Checksum.BurstDetected` | Spacechain_os_part/segwit_addr.c:27-35 | because a register step is linear and injective, symbol strings that differ only within as many positions as the checksum has symbols are not both accepted |
| `Bech32.Encode` | Spacechain_os_part/segwit_addr.c:50-84 | bech32_encode, and cash_encode with its own constants: the prefix, the separator, the symbols and their checksum, for exactly the inputs that are encodable |
| `Bech32.Decode` | Spacechain_os_part/segwit_addr.c:86-141 | bech32_decode, and cash_decode with its own limits: the lower-case prefix and the symbols, for exactly the strings that are accepted |
| `Bech32Spec.RoundTrip` | Spacechain_os_part/segwit_addr.c:50-141 | decoding an encoding gives the prefix and the symbols back if and only if the prefix is not empty and not in upper case (CashAddr: and within the decoder's lengths) |
| `Bech32Spec.EncodingMeans` | Spacechain_os_part/segwit_addr.c:50-84 | the string is the prefix, the separator, the characters of the symbols and of a checksum that makes the register 1 |
| `Bech32Spec.AcceptedMeans` | Spacechain_os_part/segwit_addr.c:86-141 | what a decoder accepts, with its limits |
| `Bech32Spec.ResultMeans` | Spacechain_os_part/segwit_addr.c:86-141 | what an accepted string stands for |
| `Bech32Spec.CharsMean` | Spacechain_os_part/segwit_addr.c:37-37 | symbols are written with the characters of the set, in its order |
| `Bech32Spec.SymbolsAreCharset` | Spacechain_os_part/segwit_addr.c:39-48 | a character has a symbol exactly when it is in the set, in either case |
| `Bech32Spec.ExpandMeans` | Spacechain_os_part/segwit_addr.c:54-69 | what the checksum covers of the prefix |
| `Bech32Spec.ExpandInjective` | Spacechain_os_part/segwit_addr.c:54-69 | it determines the prefix |
| `Bech32Spec.PrefixErrors` | Spacechain_os_part/segwit_addr.c:86-141 | two accepted strings with equal symbols whose prefixes differ only in letters within a window of 6 (CashAddr: 8) have the same prefix |
| `Bech32Spec.EmptyPrefixLost` | Spacechain_os_part/segwit_addr.c:99-104 | an empty prefix is encoded, but the result is not decoded |
| `Bech32Spec.UpperPrefixLost` | Spacechain_os_part/cash_addr.c:54-71 | cash_encode takes a prefix in upper case, which decoding does not give back |
| `Bech32Spec.BurstErrors` | Spacechain_os_part/cash_addr.c:88-141 | two accepted strings with the same prefix whose symbols differ only in a window of 6 (CashAddr: 8) positions have the same symbols |
| `ConvertBits.ToSymbols` | Spacechain_os_part/segwit_addr.c:143-163 | with padding, the one packing of the bytes into symbols of five bits |
| `ConvertBits.PackedMeans` | Spacechain_os_part/segwit_addr.c:143-163 | what packed means: one number, most significant bit first, and fewer than five zero bits behind it |
| `ConvertBits.ToBytes` | Spacechain_os_part/segwit_addr.c:143-163 | without padding, the packed bytes for exactly the symbols that are packed from bytes: fewer than five bits left, all 0 |
| `Addresses.SegwitEncode` | Spacechain_os_part/segwit_addr.c:165-175 | the address of a witness version and program, for exactly those that have one |
| `Addresses.SegwitDecode` | Spacechain_os_part/segwit_addr.c:177-191 | the version and program of exactly the addresses with the prefix |
| `Addresses.SegwitMeans` | Spacechain_os_part/segwit_addr.c:165-175 | an address is the string of the version and the packed program, for the allowed versions and lengths |
| `Addresses.SegwitAddressMeans` | Spacechain_os_part/segwit_addr.c:177-191 | and decodes to them |
| `Addresses.SegwitRoundTrip` | Spacechain_os_part/segwit_addr.c:165-191 | decoding an encoded address gives back version and program if and only if the prefix is not empty |
| `Addresses.SegwitUnique` | Spacechain_os_part/segwit_addr.c:177-191 | an address stands for one version and program |
| `Addresses.CashEncode` | Spacechain_os_part/cash_addr.c:168-175 | the address of a payload, for exactly those that have one |
| `Addresses.CashDecode` | Spacechain_os_part/cash_addr.c:177-189 | the payload of exactly the addresses with the prefix |
| `Addresses.CashMeans` | Spacechain_os_part/cash_addr.c:168-189 | the same for a payload of 2 to 65 bytes |
| `Addresses.CashRoundTrip` | Spacechain_os_part/cash_addr.c:168-189 | decoding an encoded address gives the payload back if and only if the prefix is not empty, has at most 20 characters and none in upper case |

## Findings

- `ecdsa_recover_pub_from_sig` (Spacechain_os_part/ecdsa.c:1019-1026) does not test whether s R - z G is
  infinity before multiplying by the inverse of r; point_multiply then inverts 0.
  `EcdsaSpec.RecoverSumZero` gives the exact condition, s R = z G, and
  `EcdsaSpec.RecoverSumOfBase` an input: R = G with s = z modulo the order.
- `b58tobin` (Spacechain_os_part/base58.c:112-126) compares the number of leading ones with the padding only at
  a nonzero byte, so a text of ones alone is accepted by any buffer and the size reported exceeds it
  when the text is longer: `Base58Spec.OnesAccepted`, `Base58Spec.SizeFits`.
- `bech32_encode` writes strings with an empty prefix, and `cash_encode` also with an upper-case or a
  long prefix, that decoding does not restore: `Bech32Spec.RoundTrip`, `Bech32Spec.EmptyPrefixLost`,
  `Bech32Spec.UpperPrefixLost`, `Addresses.SegwitRoundTrip`, `Addresses.CashRoundTrip`.
- `ecdsa_verify_digest` returns 3 for a digest that is 0 modulo the order, whatever the signature
  (Spacechain_os_part/ecdsa.c:1058-1065): `Ecdsa.VerifyDigest`.
- `hmac_drbg_reseed` stops after the first half of the update when there is no entropy
  (Spacechain_os_part/hmac_drbg.c:112), also if there is additional input; the standard then goes on.
  `DrbgReseed.ReseedExact` gives the exact condition.
- The first call of `pbkdf2_hmac_sha256_Update` with 0 iterations does one
  (Spacechain_os_part/pbkdf2.c:58-68): `Pbkdf2Spec.SplitIterations`.
- `bn_format` takes the suffix for the number when a negative exponent drops all digits, no
  decimals are asked for and the suffix begins with neither a point nor a NUL
  (Spacechain_os_part/bignum.c:1035): `DecimalValue.TextMeans`, `DecimalValue.FiveTenthsMissing`.
- `curve25519_mul` needs the carries in `curve25519_sub`: `Field25519.TopFits`, `Field25519.LooseIsTooMuch`.
- The comment at Spacechain_os_part/bignum.c:632 bounds max(u, v) by 2^k; the argument at
  Spacechain_os_part/bignum.c:753-764 needs, and the invariant in `BnInverse` keeps, a bound on r and s.
- A path of more than nine indices overflows an entry of the derivation cache
  (Spacechain_os_part/bip32.c:514-519, Spacechain_os_part/options.h:46-51).

## Left out

- Lagrange.Interpolation: states the algebraic identity only; the bit-sliced loop, the case of a share's index and the false result are in Shamir.Interpolate.
- BignumSpec.MulRange: is about numbers; the limbs, their normalization and the absence of wrap-around are in Bignum.Multiply.
- BnInverse.Inverse: requires a residue other than 0; the source does not terminate normally on 0. The two conversions and the word-wise and bit-wise division passes of the source are each one method called twice.
- BnSqrt.Sqrt: for p = 1 modulo 4 the power is not a root; nothing is promised then.
- Keys.ReadPubkey: for a compressed key and p = 1 modulo 4 a point may be missed, as in the source.
- Bip32.PrivateCkd: requires that the retry loop ends; HMAC is a parameter, about which this is not provable. private_key_extension and structure padding are not modelled.
- Bip32.PublicCkd: requires that the retry loop ends, a compressed key, and p = 3 modulo 4.
- Bip32Cache.Cache.PrivateCkdCached: requires paths of at most nine indices, since longer ones overflow an entry.
- ModmRecode.SlidingWindow: requires a scalar of at most 2^255; beyond that the last carry has no digit.
- ModmRecode.Window4: requires a scalar below 2^255.
- ScalarMultiply.PointMultiply: requires a point other than infinity, for which the source inverts 0.
- The curve layer computes on the numbers of the limb arrays (`FieldOps`): copies of limb structures are copies of numbers, and the aliasing of limbs inside a point is not modelled.
- The carry chains that gf256_mul, expand256_modm and contract256_window4_modm write out are loops; the table of Base58 digits is given by ranges, that of Bech32 by cases; the output buffers of the string codecs are strings.
- Constant time, memory wiping and assertions that are switched off.
- The group law (associativity, commutativity, prime order) and the primality of the named primes.
- Field25519Inverse.RecipIsInverse: the primality of 2^255 - 19 is a hypothesis.
- Field25519.Multiply: the addition and subtraction variants that carry every limb, negation, conditional swap and the exponent 2^252 - 3 are not modelled.
- Poly1305.State.Finish: `unsigned long` has 32 bits in the model; the flag `final` is an argument of the block loop.
- Sha256.Context.Update: requires messages whose bit count fits 64 bits; lengths are not cut to the width of size_t.
- HmacDrbg.Drbg.Generate: fills a buffer of any length; the standard's limit on the length of a request and the reseed counter are not in the source either.
- BnFormat.Format: requires that prefix, suffix and the NUL fit the buffer, which the source does not check, and an amount of at most 78 digits; the digits of a limb are pushed in a loop.
- The twins for SHA-512 of the hash, HMAC and PBKDF2, which repeat the same code on blocks of 128 bytes, bn_divmod58 and the DER form.
- The slow bn_inverse, the Cardano, NEM and Monero paths, mnemonics and the files that only do I/O.
