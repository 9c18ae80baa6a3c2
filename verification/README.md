# A verified model of kroopt's linked cryptography

kroopt links the portable C of HACL* for its cryptography and keeps long-lived secrets in a C-owned table. This
project models that code in Dafny 4.11, in the form the C has: in-place arrays with offsets, nested loops, carries,
masks and aliased operands; and it proves each function against the mathematics or the RFC it stands for.

Run `dafny verify dfyconfig.toml` in this directory.

## What is modelled

**Multi-precision arithmetic** (`Words`, `Limbs`, `Addition`, `Multiplication`, `Squaring`, `Karatsuba`, `ModArith`,
`Montgomery`, `Exponentiation`, `Fermat`, `Bignum256`, `Convert`). A word of width `w` is a natural number below
`Base(w)`; wrap-around is a written-out remainder and the bit operations are defined bit by bit, so one proof serves
the 32-bit and the 64-bit code. A C pointer is an array with an offset, and `Slice(a, i, n)` are the n limbs from
there. Contracts say what a buffer holds, that the limbs are words, and that everything apart from the written region
is unchanged; operands may alias wherever the C calls alias them. The main results: Karatsuba multiplication and
squaring on one shared scratch buffer, exact and almost Montgomery reduction, four exponentiation algorithms that
compute the same power, full reduction of a double-length number, and the inverse modulo a prime with Fermat's little
theorem proved beneath it.

**Curve25519 and the scalars of Ed25519** (`Machine`, `Bytes`, `Field51`, `Curve25519`, `MontgomeryLadder`,
`ChordTangent`, `CurveGroup`, `KeyAgreement`, `Scalar25519`). Every 64-bit
and 128-bit operation is written with its wrap-around, and the limb bounds show that none occurs: multiplication
accepts `Loose` limbs and leaves `Tight` ones, addition and subtraction of tight elements are loose. X25519 is proved
equal to section 5 of RFC 7748 for every key and point, although the code never clamps the key. What that section
computes is then proved against the curve itself: the step is doubling and differential addition by the chord and
tangent law, on the curve and on its twist, in every case from infinity to points of small order; a whole run
multiplies the point by the clamped key; and both sides of a key exchange arrive at the same secret. Barrett reduction
modulo the group order is exact for every number below 2^512.

**Symmetric constructions** (`Poly1305`, `ChaCha20`, `MachineWords`, `ChaChaVectors`, `Aead`, `Sha2`, `Hmac`, `Hkdf`),
against RFC 8439, FIPS 180-4, RFC 2104 and RFC 5869. Each construction that follows an RFC step by step is also
characterised without those steps: the ChaCha20 block meets the test vectors, computed on bit-vectors that are proved
to agree with the word operations of the model; the Poly1305 fold is a polynomial; the AEAD tag is taken over one
string, which determines its parts, and opening succeeds exactly on what was sealed; SHA-2 padding is read back;
the HMAC pads are shown by a compression function that records its input; and every byte of HKDF is located in its
round, for two differently written loops.

**The secret arena** (`SecretArena`). A class over the slot table in memory; each method is one step of a table of
values, and every run of steps is compared with a finite map from ids to byte strings.

Three places where the code differs from its comments or from the RFC, decided for the code:

* The comment above `kroopt_ffi_hkdf_expand384` says it computes RFC 5869. The offset into a round's text is a
  `uint32_t`, so this holds exactly while the longest text has fewer than 2^32 bytes. `Hkdf.RoundsExact` states the
  condition in both directions and `Hkdf.InfoForgotten` gives an input beyond it.
* HACL's HKDF-Expand computes the length of its text buffer in a `uint32_t` and stores the counter in one byte.
  `Hkdf.BufferExact` and `Hkdf.CounterExact` give the exact conditions on the info and on the output length under which
  the buffer is long enough and the texts are those of RFC 5869. Beyond the first one the C code is undefined, so it is
  the guard of `Hkdf.HaclExpand`. The size check in front of the buffer compares the sum that has already wrapped.
* The comment above the secret table says that ids are never reused. That holds for the first 2^64 - 1 allocations.
  The next one stores its buffer under id 0, which reads as a failure and can never be released
  (`SecretArena.StepRefines`, `SecretArena.RunRefines`, `SecretArena.WrapReached`).

Widths and constants: `w` is the limb width and `len` the number of limbs; `Hacl_Bignum256.c` is the case w = 64,
len = 4 of the general members. Masks of the form 2^k - 1 and right shifts in the straight-line field and scalar code
are written `%` and `/`; `Words.AndOnes` proves that this is the same. Code that the C repeats inline at several places
(the selection by mask, the carry of a single word, the two nearly equal exponentiation functions) is one method here, with a
`consttime` flag where the copies differ.

## Model

| member | source | states |
|---|---|---|
| Words.AddCarry | Kroopt/Native/hacl/Hacl_IntTypes_Intrinsics.h:61-68 | the comparison and equality masks yield exactly the carry: sum word + carry * base = x + y + cin, carry at most 1 |
| Words.SubBorrow | Kroopt/Native/hacl/Hacl_IntTypes_Intrinsics.h:71-81 | the masks yield exactly the borrow: difference word - borrow * base = x - y - cin, borrow at most 1 |
| Words.MulWideAdd2 | Kroopt/Native/hacl/Hacl_Bignum_Base.h:61-71 | low + base * high = a * b + c + d: the double word never overflows |
| Words.SwapWords | Kroopt/Native/hacl/Hacl_Bignum.c:2416-2425 | the masked exclusive or swaps two words when the bit is set and leaves both alone when it is not |
| Words.XorPlusAnd | Kroopt/Native/hacl/Hacl_Bignum.c:1130-1136 | x + y = (x xor y) + 2 * (x and y), the identity behind the halving that cannot lose a carry |
| Addition.BnAddEqLen | Kroopt/Native/hacl/Hacl_Bignum.c:183-213 | the unrolled loop and its tail: res + carry * B^n = a + b for every length, also when res is an operand; nothing else changes |
| Addition.BnSubEqLen | Kroopt/Native/hacl/Hacl_Bignum.c:117-147 | res - borrow * B^n = a - b for every length, also when res is an operand; nothing else changes |
| Addition.BnAdd1 | Kroopt/Native/hacl/Hacl_Bignum.c:569-604 | adding one word: the carry that leaves the top limb is exactly what does not fit |
| Addition.BnSub1 | Kroopt/Native/hacl/Hacl_Bignum256.c:1194-1229 | subtracting one word with a borrow through all limbs |
| Multiplication.BnMulAddRow | Kroopt/Native/hacl/Hacl_Bignum.c:255-281 | one row adds a * y to n limbs of res in place; the returned word is what does not fit |
| Multiplication.BnMul | Kroopt/Native/hacl/Hacl_Bignum.c:250-283 | res = a * b for all lengths of a and b, in aLen + bLen limbs; memory apart from res is unchanged |
| Squaring.BnSqr | Kroopt/Native/hacl/Hacl_Bignum.c:333-379 | triangle of products, in-place doubling and diagonal give res = a * a for every length; both discarded carries are zero (the equality leaves no room for them) |
| Squaring.NoCarry | Kroopt/Native/hacl/Hacl_Bignum.c:365-378 | twice the triangle, and that plus the diagonal, stay below B^(2 len) |
| Karatsuba.BnSelect | Kroopt/Native/hacl/Hacl_Bignum.c:518-523 | the masked selection copies exactly one of two stretches, in place as well |
| Karatsuba.BnSignAbs | Kroopt/Native/hacl/Hacl_Bignum.c:516-532 | t = the absolute difference of two halves and the returned borrow is its sign |
| Karatsuba.KaratsubaIdentity | Kroopt/Native/hacl/Hacl_Bignum.c:551-566 | a0*b0 + a1*b1 plus or minus the product of the differences, the sign being the xor of the borrows, is a0*b1 + a1*b0; it fits 2h limbs and one bit; put at limb h it completes the product |
| Karatsuba.CarryOfMiddle | Kroopt/Native/hacl/Hacl_Bignum.c:553-566 | the wrapped carries c2 - c3 and c2 + c4, selected by the same mask as the limbs, are the carry of the middle term |
| Karatsuba.KaratsubaMiddle | Kroopt/Native/hacl/Hacl_Bignum.c:546-566 | t45 and c5 hold r01 + r23 plus or minus t23; the results r01 and r23 stay |
| Karatsuba.ThreeProducts | Kroopt/Native/hacl/Hacl_Bignum.c:534-541 | the three recursive calls share one scratch area and disturb neither t23 nor each other |
| Karatsuba.KaratsubaCombine | Kroopt/Native/hacl/Hacl_Bignum.c:567-608 | the middle term is added at limb h and the carry c9, which the code discards, is zero |
| Karatsuba.BnKaratsubaMul | Kroopt/Native/hacl/Hacl_Bignum.c:496-609 | res = a * b for every length with a scratch of 4 * len limbs; all other memory is unchanged |
| Karatsuba.BnKaratsubaSqr | Kroopt/Native/hacl/Hacl_Bignum.c:701-789 | res = a * a for every length: the same value as BnKaratsubaMul of a with itself |
| ModArith.ReduceChoice | Kroopt/Native/hacl/Hacl_Bignum.c:935-942 | for t < 2n the mask c00 - c1 is 0 or all ones and selects t mod n |
| ModArith.BnAddModN | Kroopt/Native/hacl/Hacl_Bignum.c:868-943 | res = (a + b) mod n for a, b < n, also when all operands are the same buffer |
| ModArith.BnSubModN | Kroopt/Native/hacl/Hacl_Bignum.c:1022-1097 | res = (a - b) mod n for a, b < n, also in place |
| ModArith.InvertingStep | Kroopt/Native/hacl/Hacl_Bignum.c:1128-1137 | each round keeps ub * 2^w - vb * n0 = 2^(w - i) with both words in range |
| ModArith.ModInvLimb | Kroopt/Native/hacl/Hacl_Bignum.c:1120-1139 | 1 + n0 * result is a multiple of the word base for every odd n0 |
| ModArith.BnLtMask | Kroopt/Native/hacl/Hacl_Bignum.c:2218-2225 | all ones exactly when a < b |
| ModArith.BnCheckModulus | Kroopt/Native/hacl/Hacl_Bignum.c:1338-1356 | all ones exactly when n is odd and n > 1 |
| ModArith.BnGetTopIndex | Kroopt/Native/hacl/Hacl_Bignum.c:72-81 | the index of the highest nonzero limb: B^k <= b < B^(k + 1); 0 for b = 0 |
| ModArith.BnPrecompR2 | Kroopt/Native/hacl/Hacl_Bignum.c:1358-1374 | 2^(2 w len) mod n from any power of two below n, by fully aliased modular doubling |
| Montgomery.LowLimbCancels | Kroopt/Native/hacl/Hacl_Bignum.c:1386-1411 | the factor nInv * c[i] makes limb i zero |
| Montgomery.MontLoop | Kroopt/Native/hacl/Hacl_Bignum.c:1386-1417 | after the loop the upper half and c0 hold t with t * B^len = c + q * n for some q < B^len |
| Montgomery.BnMontReduction | Kroopt/Native/hacl/Hacl_Bignum.c:1376-1458 | for c < n * B^len: res < n and res * B^len is congruent to c |
| Montgomery.BnAlmostMontReduction | Kroopt/Native/hacl/Hacl_Bignum.c:1631-1686 | for every c of 2 len limbs: res fits len limbs and res * B^len is congruent to c |
| Montgomery.BnMontMul | Kroopt/Native/hacl/Hacl_Bignum.c:1496-1514 | res < n and res * B^len congruent to a * b, also in place; c < n * B^len is established by the product |
| Montgomery.BnMontSqr | Kroopt/Native/hacl/Hacl_Bignum.c:1516-1533 | the same for a * a |
| Montgomery.BnAlmostMontMul | Kroopt/Native/hacl/Hacl_Bignum.c:1688-1706 | res * B^len congruent to a * b for any limbs, in place as well |
| Montgomery.BnAlmostMontSqr | Kroopt/Native/hacl/Hacl_Bignum.c:1708-1725 | the same for a * a |
| Montgomery.BnFromMont | Kroopt/Native/hacl/Hacl_Bignum.c:1480-1494 | the exact reduction of a number padded to 2 len limbs: below n, and its Montgomery product with 1 |
| Montgomery.ModulusOdd | Kroopt/Native/hacl/Hacl_Bignum.c:1120-1139 | a modulus that has a limb inverse is odd |
| Montgomery.CancelRadix | Kroopt/Native/hacl/Hacl_Bignum.c:1376-1458 | B^len can be cancelled from a congruence modulo an odd number, so the reduction determines its result |
| Montgomery.MulInMont | Kroopt/Native/hacl/Hacl_Bignum.c:1688-1706 | an almost product of the forms of x and y is a form of x * y: chains of almost operations stay forms |
| Montgomery.FromInMont | Kroopt/Native/hacl/Hacl_Bignum.c:1480-1494 | the exact reduction of a form of v, below n, is v mod n itself: chains end canonically |
| Exponentiation.WindowBits | Kroopt/Native/hacl/Hacl_Bignum.c:2348-2362 | a window read from one limb, or from two adjacent ones by shift and or, is the l bits of the exponent from that position |
| Exponentiation.GetFourBits | Kroopt/Native/hacl/Hacl_Bignum.c:2348-2364 | bits e to e + 3 of the exponent, also across limbs and beyond its top |
| Exponentiation.LeadingWindow | Kroopt/Native/hacl/Hacl_Bignum.c:2322-2340 | above the last full window of four lie exactly the bBits % 4 leading bits |
| Exponentiation.BinaryVartime | Kroopt/Native/hacl/Hacl_Bignum.c:2242-2281 | right to left: a^b mod n for every b < 2^bBits |
| Exponentiation.SwapLadder | Kroopt/Native/hacl/Hacl_Bignum.c:2417-2425 | the masked swap turns the ladder (a^e, a^(e+1)) around exactly when asked |
| Exponentiation.LadderStep | Kroopt/Native/hacl/Hacl_Bignum.c:2412-2429 | one bit turns e into 2 e + bit and leaves the orientation equal to the bit |
| Exponentiation.LadderConsttime | Kroopt/Native/hacl/Hacl_Bignum.c:2390-2441 | the swap ladder from the top: a^b mod n |
| Exponentiation.BuildTable | Kroopt/Native/hacl/Hacl_Bignum.c:2309-2321 | entry k of the table is a form of a^k for k < 16 |
| Exponentiation.Lookup | Kroopt/Native/hacl/Hacl_Bignum.c:2498-2511 | the scan with equality masks and the indexed read give the same table entry |
| Exponentiation.Window | Kroopt/Native/hacl/Hacl_Bignum.c:2442-2555 | the 4-bit window, leading odd-sized window included: a^b mod n by either lookup |
| Exponentiation.BnModExpPrecomp | Kroopt/Native/hacl/Hacl_Bignum.c:2230-2376 | all four routes leave exactly a^b mod n: they agree with each other for every exponent below 2^bBits |
| Fermat.FermatPower | Kroopt/Native/hacl/Hacl_Bignum256.c:1154-1237 | x^p is congruent to x for every prime p and every x (from the binomial theorem modulo p) |
| Fermat.InverseByPower | Kroopt/Native/hacl/Hacl_Bignum256.c:1154-1237 | a * a^(p - 2) mod p = 1 for 0 < a < p |
| Bignum256.MontSetup | Kroopt/Native/hacl/Hacl_Bignum256.c:664-694 | r2 = 2^(2 w len) mod n and the limb inverse, for every odd n > 1 |
| Bignum256.BnSlowPrecomp | Kroopt/Native/hacl/Hacl_Bignum256.c:598-651 | almost reduction, product with r2 and exact reduction: res = a mod n for every a of 2 len limbs |
| Bignum256.BnMod | Kroopt/Native/hacl/Hacl_Bignum256.c:652-694 | true exactly when n is odd and n > 1, and then res = a mod n; otherwise res is zero |
| Bignum256.BnFitsMask | Kroopt/Native/hacl/Hacl_Bignum.c:2186-2217 | all ones exactly when b < 2^bBits, also when bBits fills the limbs |
| Bignum256.BnCheckModExp | Kroopt/Native/hacl/Hacl_Bignum256.c:696-754 | all ones exactly when n is odd, n > 1, b < 2^bBits and a < n |
| Bignum256.BnModExp | Kroopt/Native/hacl/Hacl_Bignum256.c:1073-1137 | accepts exactly those operands; then res = a^b mod n, else zero; both the variable-time and the constant-time entry |
| Bignum256.BnIsZeroMask | Kroopt/Native/hacl/Hacl_Bignum256.c:1170-1177 | all ones exactly for the number zero |
| Bignum256.BnMinusTwo | Kroopt/Native/hacl/Hacl_Bignum256.c:1193-1229 | the borrow chain gives n - 2, an exponent of w * len bits |
| Bignum256.BnModInvPrime | Kroopt/Native/hacl/Hacl_Bignum256.c:1154-1237 | accepts exactly odd n > 1 with 0 < a < n; res = a^(n-2) mod n, and for prime n: res < n and a * res mod n = 1 |
| Bignum256.MontCtx.constructor | Kroopt/Native/hacl/Hacl_Bignum256.c:1258-1276 | the context copies the modulus and precomputes r2 and the limb inverse |
| Bignum256.MontCtx.Mod | Kroopt/Native/hacl/Hacl_Bignum256.c:1300-1309 | a mod n through the context; the context is unchanged |
| Bignum256.MontCtx.ModExp | Kroopt/Native/hacl/Hacl_Bignum256.c:1330-1373 | a^b mod n through the context |
| Bignum256.MontCtx.ModInvPrime | Kroopt/Native/hacl/Hacl_Bignum256.c:1387-1433 | the inverse modulo the prime of the context |
| Convert.BnFromBytesBe | Kroopt/Native/hacl/Hacl_Bignum.c:29-44 | the limbs stand for the number that the len bytes spell highest byte first, for every len > 0 |
| Convert.BnToBytesBe | Kroopt/Native/hacl/Hacl_Bignum.c:46-59 | the len bytes spell the number modulo 256^len |
| Convert.BytesThereAndBack | Kroopt/Native/hacl/Hacl_Bignum.c:29-59 | reading any byte string into a bignum and writing it back gives the same bytes |
| Convert.LimbsThereAndBack | Kroopt/Native/hacl/Hacl_Bignum.c:29-59 | writing a bignum below 256^len and reading it back gives the same limbs |
| Field51.AddLimbs | Kroopt/Native/hacl/Hacl_Bignum25519_51.h:42-59 | the sum of two tight elements is a legal multiplication input; no 64-bit sum wraps |
| Field51.SubLimbs | Kroopt/Native/hacl/Hacl_Bignum25519_51.h:61-78 | f - g + 8p, limb by limb without underflow, is a legal multiplication input |
| Field51.CarryPass | Kroopt/Native/hacl/Hacl_Bignum25519_51.h:132-160 | one pass over five wide limbs ends tight and keeps the value modulo p |
| Field51.FoldedProduct | Kroopt/Native/hacl/Hacl_Bignum25519_51.h:89-131 | the columns with the factor 19 are congruent to the product modulo p |
| Field51.FMulLimbs | Kroopt/Native/hacl/Hacl_Bignum25519_51.h:80-161 | loose inputs give a tight output congruent to the product; no 64- or 128-bit sum wraps |
| Field51.FSqrWide | Kroopt/Native/hacl/Hacl_Bignum25519_51.h:378-412 | squaring with halved products has the very columns of the product of f with itself |
| Field51.StorePassTight | Kroopt/Native/hacl/Hacl_Bignum25519_51.h:609-631 | over a tight element one 64-bit pass leaves 51 bits in every limb |
| Field51.SubtractP | Kroopt/Native/hacl/Hacl_Bignum25519_51.h:632-642 | the masked subtraction leaves the one representative below p |
| Field51.StoreWords | Kroopt/Native/hacl/Hacl_Bignum25519_51.h:602-660 | four words holding exactly the value modulo p: two representations of one field element store the same words |
| Field51.FAdd | Kroopt/Native/hacl/Hacl_Bignum25519_51.h:42-59 | out stands for the sum, loose; other elements of the buffers are unchanged |
| Field51.FSub | Kroopt/Native/hacl/Hacl_Bignum25519_51.h:61-78 | out stands for the difference, loose |
| Field51.FMul | Kroopt/Native/hacl/Hacl_Bignum25519_51.h:80-161 | out stands for the product, tight; out may be an operand |
| Field51.FMul2 | Kroopt/Native/hacl/Hacl_Bignum25519_51.h:163-327 | two products at once |
| Field51.FMul1 | Kroopt/Native/hacl/Hacl_Bignum25519_51.h:329-370 | the product with a constant below 2^17 |
| Field51.FSqr | Kroopt/Native/hacl/Hacl_Bignum25519_51.h:372-445 | the square, tight |
| Field51.FSqr2 | Kroopt/Native/hacl/Hacl_Bignum25519_51.h:447-600 | two squares at once |
| Field51.CSwap2 | Kroopt/Native/hacl/Hacl_Bignum25519_51.h:662-672 | swaps the two points exactly when the bit is set |
| Field51.FReduce513 | Kroopt/Native/hacl/Hacl_Ed25519.c:41-71 | a carry pass in place: tight, the same field element |
| Field51.FReduce | Kroopt/Native/hacl/Hacl_Ed25519.c:154-205 | the least representative in place |
| Curve25519.PointAddAndDouble | Kroopt/Native/hacl/Hacl_Curve25519_51.c:31-73 | equals one step of the ladder of section 5 of RFC 7748, which MontgomeryLadder.StepFormulas gives as polynomials, on tight points and ends tight, so every run of the ladder is free of overflow |
| Curve25519.PointDouble | Kroopt/Native/hacl/Hacl_Curve25519_51.c:75-97 | equals the doubling half of that step |
| Curve25519.ClampedBits | Kroopt/Native/hacl/Hacl_Curve25519_51.c:127-146 | clamping changes only bits 0 to 2, 254 and 255 of the key |
| Curve25519.TrailingZeros | Kroopt/Native/hacl/Hacl_Curve25519_51.c:147-153 | three steps of the RFC ladder on zero bits are a swap and three doublings |
| Curve25519.LadderBit | Kroopt/Native/hacl/Hacl_Curve25519_51.c:130-146 | bit t of the unclamped key advances the state of the RFC ladder on the clamped key by one step |
| Curve25519.MontgomeryLadder | Kroopt/Native/hacl/Hacl_Curve25519_51.c:99-155 | fixed first step, 251 key bits and three doublings leave the point of the full 255-step ladder on the clamped key |
| Curve25519.FSquareTimes | Kroopt/Native/hacl/Hacl_Curve25519_51.c:157-170 | n squarings raise to 2^n |
| Curve25519.FInv | Kroopt/Native/hacl/Hacl_Curve25519_51.c:172-211 | the addition chain computes i^(p - 2), with 2^255 - 21 = (2^250 - 1) * 2^5 + 11 |
| Curve25519.EncodePoint | Kroopt/Native/hacl/Hacl_Curve25519_51.c:213-229 | the 32 bytes of x * z^(p-2) mod p in its least form, for any representation of x and z |
| Curve25519.DecodePoint | Kroopt/Native/hacl/Hacl_Curve25519_51.c:239-266 | the u-coordinate of the RFC: top bit ignored, values above p accepted |
| Curve25519.ScalarMult | Kroopt/Native/hacl/Hacl_Curve25519_51.c:231-268 | out = X25519(priv, pub) for every 32-byte key and every 32-byte point, the function that KeyAgreement.X25519Multiple ties to the group of the curve |
| Curve25519.Ecdh | Kroopt/Native/hacl/Hacl_Curve25519_51.c:282-295 | the shared secret, and true exactly when it is not all zeros |
| MontgomeryLadder.StepFormulas | Kroopt/Native/hacl/Hacl_Curve25519_51.c:31-73 | for every state, modulo any n: x2' = (x2^2 - z2^2)^2, z2' = 4 x2 z2 (x2^2 + 486662 x2 z2 + z2^2), x3' = 4 (x2 x3 - z2 z3)^2, z3' = 4 x1 (x2 z3 - z2 x3)^2 |
| MontgomeryLadder.LadderOfLoop | Kroopt/Native/hacl/Hacl_Curve25519_51.c:99-155 | the merged conditional swaps only turn the pair around: the loop is the ladder that doubles one of the pair and adds the two, for every scalar and every bit |
| ChordTangent.TangentLaw | Kroopt/Native/hacl/Hacl_Curve25519_51.c:75-97 | on b y^2 = x^3 + 486662 x^2 + x, modulo any n, the x-coordinate of a doubled point is (x^2 - 1)^2 over 4 (x^3 + 486662 x^2 + x) |
| ChordTangent.ChordLaw | Kroopt/Native/hacl/Hacl_Curve25519_51.c:31-73 | the x-coordinates of sum and difference of two points multiply to (x2 x3 - 1)^2 over (x3 - x2)^2 |
| CurveGroup.DoubleOnCurve | Kroopt/Native/hacl/Hacl_Curve25519_51.c:75-97 | the doubling of the step is doubling on the curve or its twist for every point: infinity, order two and all others |
| CurveGroup.SumOnCurve | Kroopt/Native/hacl/Hacl_Curve25519_51.c:31-73 | the differential addition of the step is addition on the curve for every two points whose difference has the unit x-coordinate x1: infinity on either side, opposite points and all others |
| KeyAgreement.LadderMultiples | Kroopt/Native/hacl/Hacl_Curve25519_51.c:99-155 | after every bit the pair stands for the multiples n P and (n + 1) P, n being the bits read so far |
| KeyAgreement.AffineQuotient | Kroopt/Native/hacl/Hacl_Curve25519_51.c:213-229 | modulo a prime x * z^(p - 2) is the coordinate that (x : z) stands for, and zero for infinity |
| KeyAgreement.PrimeValue | Kroopt/Native/hacl/Hacl_Bignum25519_51.h:632-642 | the modulus of the field is 2^255 - 19 |
| KeyAgreement.DecodeU | Kroopt/Native/hacl/Hacl_Curve25519_51.c:239-255 | the top bit of u is ignored and a value above p stands for its residue |
| KeyAgreement.X25519Multiple | Kroopt/Native/hacl/Hacl_Curve25519_51.c:231-268 | X25519 is multiplication on the curve: for every key and every u, u = 0 and points of small order included, the answer is the x-coordinate of k P, zero for infinity |
| KeyAgreement.SameSecret | Kroopt/Native/hacl/Hacl_Curve25519_51.c:282-295 | both sides of an exchange compute the same secret, for all keys and every base point |
| Scalar25519.BarrettConstant | Kroopt/Native/hacl/Hacl_Ed25519.c:674-683 | the constant is floor(2^512 / L) |
| Scalar25519.OrderValue | Kroopt/Native/hacl/Hacl_Ed25519.c:664-668 | L = 2^252 + 27742317777372353535851937790883648493 |
| Scalar25519.MulScalars | Kroopt/Native/hacl/Hacl_Ed25519.c:704-813 | the full ten-limb product; no 128-bit column wraps |
| Scalar25519.MulLow | Kroopt/Native/hacl/Hacl_Ed25519.c:845-916 | the product modulo 2^264 from the low columns alone |
| Scalar25519.SubChain | Kroopt/Native/hacl/Hacl_Ed25519.c:922-940 | the borrow read off bit 63 and added back: x - y modulo 2^264 or 2^280 |
| Scalar25519.QuotientEstimate | Kroopt/Native/hacl/Hacl_Ed25519.c:681-839 | the estimated quotient leaves a remainder in [0, 2L) |
| Scalar25519.Quotient | Kroopt/Native/hacl/Hacl_Ed25519.c:652-839 | the estimate on limbs, shifts across limb boundaries included |
| Scalar25519.SubtractOrder | Kroopt/Native/hacl/Hacl_Ed25519.c:946-985 | exactly one conditional subtraction of L |
| Scalar25519.BarrettReduction | Kroopt/Native/hacl/Hacl_Ed25519.c:652-1002 | z = t mod L for every t < 2^512 |
| Scalar25519.MulModQ | Kroopt/Native/hacl/Hacl_Ed25519.c:1004-1153 | out = x * y mod L whenever x * y < 2^512 |
| Scalar25519.AddModQ | Kroopt/Native/hacl/Hacl_Ed25519.c:1155-1240 | out = (x + y) mod L for x, y < L |
| Scalar25519.GteQ | Kroopt/Native/hacl/Hacl_Ed25519.c:1675-1715 | true exactly when s >= L |
| Scalar25519.Load64Bytes | Kroopt/Native/hacl/Hacl_Ed25519.c:1242-1292 | ten limbs standing for the 64 bytes, below 2^512 |
| Scalar25519.Load32Bytes | Kroopt/Native/hacl/Hacl_Ed25519.c:1294-1320 | five limbs standing for the 32 bytes |
| Scalar25519.Store56 | Kroopt/Native/hacl/Hacl_Ed25519.c:1322-1339 | the 32 bytes of a scalar below 2^256: the overlapping stores end right |
| Scalar25519.BytesModQ | Kroopt/Native/hacl/Hacl_Ed25519.c:1378-1385 | a 64-byte hash as a scalar: its number mod L |
| Poly1305.EncodeBlock | Kroopt/Native/hacl/Hacl_Chacha20Poly1305_32.c:43-67 | two words as five 26-bit limbs with the bit 2^128 set |
| Poly1305.ColumnsProduct | Kroopt/Native/hacl/Hacl_Chacha20Poly1305_32.c:69-123 | the columns with r5 = 5 r are congruent to the product modulo 2^130 - 5, and no 64-bit sum wraps |
| Poly1305.CarryLimbs | Kroopt/Native/hacl/Hacl_Chacha20Poly1305_32.c:124-152 | the interleaved carries end below 2^27 and keep the value modulo 2^130 - 5 |
| Poly1305.PolyBlock | Kroopt/Native/hacl/Hacl_Chacha20Poly1305_32.c:39-158 | acc := (acc + block + 2^128) * r; limbs stay below 2^27, r and r5 unchanged |
| Poly1305.PolyPadded | Kroopt/Native/hacl/Hacl_Chacha20Poly1305_32.c:29-405 | for every length the accumulator is the fold of that step, whose value Poly1305.FoldValue gives as a polynomial; a partial block is completed with zeros |
| Poly1305.FoldPadded | Kroopt/Native/hacl/Hacl_Chacha20Poly1305_32.c:281-404 | a partial last block counts as the block completed with zeros |
| Poly1305.FoldConcat | Kroopt/Native/hacl/Hacl_Chacha20Poly1305_32.c:29-158 | folding whole blocks and then the rest is folding at once |
| Poly1305.FoldBlocks | Kroopt/Native/hacl/Hacl_Chacha20Poly1305_32.c:29-158 | over n whole blocks: acc * r^n plus the sum of (block_i + 2^128) * r^(n - i), modulo 2^130 - 5 |
| Poly1305.FoldValue | Kroopt/Native/hacl/Hacl_Chacha20Poly1305_32.c:29-405 | for every text: that polynomial of the zero-padded text |
| Poly1305.ModulusValue | Kroopt/Native/hacl/Hacl_Chacha20Poly1305_32.c:69-152 | the modulus is 2^130 - 5 |
| ChaCha20.Core | Kroopt/Native/hacl/Hacl_Chacha20.c:96-109 | k = the RFC 8439 block of ctx, the one that meets the test vector, with its counter advanced by ctr modulo 2^32, although counter and offset are added separately |
| ChaCha20.DoubleRoundSlants | Kroopt/Native/hacl/Hacl_Chacha20.c:70-80 | a double round is two column rounds with row i of the state turned by i places between them |
| MachineWords.ValueAdd | Kroopt/Native/hacl/Hacl_Chacha20.c:34-68 | the sum modulo 2^32 on numbers is the sum of 32-bit bit-vectors |
| MachineWords.ValueXor | Kroopt/Native/hacl/Hacl_Chacha20.c:34-68 | the exclusive or defined bit by bit on numbers is that of bit-vectors |
| MachineWords.Value16 | Kroopt/Native/hacl/Hacl_Chacha20.c:34-68 | the rotation by 16 on numbers is that of bit-vectors |
| MachineWords.Value12 | Kroopt/Native/hacl/Hacl_Chacha20.c:34-68 | the rotation by 12 |
| MachineWords.Value8 | Kroopt/Native/hacl/Hacl_Chacha20.c:34-68 | the rotation by 8 |
| MachineWords.Value7 | Kroopt/Native/hacl/Hacl_Chacha20.c:34-68 | the rotation by 7 |
| ChaChaVectors.QuarterValues | Kroopt/Native/hacl/Hacl_Chacha20.c:34-68 | the quarter round at any four positions is the one on 32-bit bit-vectors |
| ChaChaVectors.QuarterVector | Kroopt/Native/hacl/Hacl_Chacha20.c:34-68 | the test vector of section 2.1.1 of RFC 8439 |
| ChaChaVectors.BlockVector | Kroopt/Native/hacl/Hacl_Chacha20.c:82-147 | the test vector of section 2.3.2: all sixteen words of the block, from the bytes of key and nonce through all ten double rounds |
| ChaChaVectors.StreamVector | Kroopt/Native/hacl/Hacl_Chacha20.c:96-109 | the same block as bytes of the key stream at the advanced counter |
| ChaCha20.XorBytes | Kroopt/Native/hacl/Hacl_Chacha20.c:149-179 | the exclusive or of words is the exclusive or of their bytes |
| ChaCha20.EncryptBlock | Kroopt/Native/hacl/Hacl_Chacha20.c:149-179 | out = text xor the block, in place as well |
| ChaCha20.EncryptLast | Kroopt/Native/hacl/Hacl_Chacha20.c:181-188 | the partial block through a zero-padded copy |
| ChaCha20.Update | Kroopt/Native/hacl/Hacl_Chacha20.c:190-207 | for every length: text xor the key stream |
| ChaCha20.Init | Kroopt/Native/hacl/Hacl_Chacha20.c:117-147 | constants, key, counter and nonce in the order of section 2.3 |
| ChaCha20.ChaChaInvolution | Kroopt/Native/hacl/Hacl_Chacha20.c:209-237 | encrypting twice gives the text back: decryption is encryption |
| ChaCha20.Encrypt | Kroopt/Native/hacl/Hacl_Chacha20.c:209-222 | out = text xor the key stream of section 2.4 for every length; out may be text |
| Aead.PolyDo | Kroopt/Native/hacl/Hacl_Chacha20Poly1305_32.c:407-549 | the tag of that string, for every combination of empty and non-empty inputs |
| Aead.TagMask | Kroopt/Native/hacl/Hacl_Chacha20Poly1305_32.c:585-593 | all ones exactly when all sixteen bytes agree |
| Aead.SealThenOpen | Kroopt/Native/hacl/Hacl_Chacha20Poly1305_32.c:551-600 | opening what was sealed gives the message, for every key, nonce, aad and message |
| Aead.OpensIfSealed | Kroopt/Native/hacl/Hacl_Chacha20Poly1305_32.c:570-600 | a ciphertext and a tag open to a message if and only if sealing that message gives them |
| Aead.TagOfMacData | Kroopt/Native/hacl/Hacl_Chacha20Poly1305_32.c:407-549 | the tag is one polynomial over one byte string: aad, zeros to 16, ciphertext, zeros to 16, eight little-endian bytes of each length |
| Aead.MacDataInjective | Kroopt/Native/hacl/Hacl_Chacha20Poly1305_32.c:407-549 | different pairs of aad and ciphertext give different strings |
| Aead.OneKeyStream | Kroopt/Native/hacl/Hacl_Chacha20Poly1305_32.c:551-568 | the one-time key is the beginning of the block with counter 0 and the ciphertext goes on with the blocks behind it in one key stream |
| Aead.AeadEncrypt | Kroopt/Native/hacl/Hacl_Chacha20Poly1305_32.c:551-568 | cipher and mac are the sealed message of section 2.8 of RFC 8439; its tag is the one of Aead.TagOfMacData |
| Aead.AeadDecrypt | Kroopt/Native/hacl/Hacl_Chacha20Poly1305_32.c:570-600 | 0 and the message exactly for the right tag; otherwise 1 and an untouched output buffer |
| Sha2.PadZerosIsPadding | Kroopt/Native/hacl/Hacl_Hash_SHA2.c:465-488 | the number of zeros the code computes completes the last block |
| Sha2.PaddingUnique | Kroopt/Native/hacl/Hacl_Hash_SHA2.c:465-488 | and it is the only number below a block that does |
| Sha2.PaddedMessage | Kroopt/Native/hacl/Hacl_Hash_SHA2.c:455-488 | section 5.1 of FIPS 180-4 read back from the padded message: whole blocks, 0x80 behind the message, zeros, and in the last bytes the number of message bits modulo 256^field |
| Sha2.PaddingInjective | Kroopt/Native/hacl/Hacl_Hash_SHA2.c:455-488 | different messages whose bit length fits the field are padded to different strings |
| Sha2.Pad | Kroopt/Native/hacl/Hacl_Hash_SHA2.c:465-488 | writes the padding that Sha2.PaddedMessage reads back, the length in bits |
| Sha2.FoldConcat | Kroopt/Native/hacl/Hacl_Hash_SHA2.c:604-612 | compressing in two parts, the first of whole blocks, is compressing at once |
| Sha2.UpdateMulti | Kroopt/Native/hacl/Hacl_Hash_SHA2.c:604-612 | n whole blocks are folded into the state |
| Sha2.RestFits | Kroopt/Native/hacl/Hacl_Hash_SHA2.c:667-696 | rest and padding make one or two whole blocks |
| Sha2.DigestWord | Kroopt/Native/hacl/Hacl_Hash_SHA2.c:567-574 | word i of the digest, read highest byte first, is word i of the state |
| Sha2.UpdateLast | Kroopt/Native/hacl/Hacl_Hash_SHA2.c:667-696 | the state after the last bytes and the padding of the whole message |
| Sha2.Finish | Kroopt/Native/hacl/Hacl_Hash_SHA2.c:567-574 | the digest bytes of the state |
| Sha2.HashBytes | Kroopt/Native/hacl/Hacl_Hash_SHA2.c:807-838 | the digest of the padded message folded block by block, for every length, exact multiples of a block included |
| Hmac.MakeKeyBlock | Kroopt/Native/hacl/Hacl_HMAC.c:122-144 | short keys padded, long keys hashed |
| Hmac.KeyPadded | Kroopt/Native/hacl/Hacl_HMAC.c:122-144 | zeros behind a key that fits the block change nothing, and a key of a whole block is the key block |
| Hmac.KeyHashed | Kroopt/Native/hacl/Hacl_HMAC.c:122-144 | a longer key is as good as its hash |
| Hmac.PadsRecorded | Kroopt/Native/hacl/Hacl_HMAC.c:145-193 | with a compression function that shows its input: the outer hash starts with the key xor 0x5c, the inner one with the key xor 0x36, and the inner digest follows in the outer one |
| Hmac.PadThenData | Kroopt/Native/hacl/Hacl_HMAC.c:163-180 | the state after pad and data, in the empty and the non-empty branch alike |
| Hmac.HashPadded | Kroopt/Native/hacl/Hacl_HMAC.c:170-180 | the hash of pad and data, in the empty and the non-empty branch alike |
| Hmac.Compute | Kroopt/Native/hacl/Hacl_HMAC.c:114-193 | HMAC of section 2 of RFC 2104 for every key and data length; the tag may overwrite the data |
| Hkdf.ExpandPrefix | Kroopt/Native/hacl/Hacl_HKDF.c:29-76 | a shorter output is a prefix of a longer one |
| Hkdf.RfcRound | Kroopt/Native/hacl/Hacl_HKDF.c:51-66 | round i + 1 of the RFC is keyed with PRK and hashes the one string that holds T(i), the info and i + 1 in this order |
| Hkdf.ExpandByte | Kroopt/Native/hacl/Hacl_HKDF.c:49-68 | every byte of the output: byte k of block i is byte k of T(i + 1), wherever the output ends |
| Hkdf.NextTag | Kroopt/Native/hacl/Hacl_HKDF.c:53-65 | one round with the tag updated in place gives T(i + 1); the first round leaves the tag out |
| Hkdf.HaclExpand | Kroopt/Native/hacl/Hacl_HKDF.c:29-76 | for every len, and every info whose text length fits 32 bits: the first len bytes of T(1), T(2), ... joined with the counter stored as one byte |
| Hkdf.BufferExact | Kroopt/Native/hacl/Hacl_HKDF.c:41-65 | every write of the loop stays inside the text buffer and every round passes its whole text to HMAC if and only if digest length + info length + 1 < 2^32 |
| Hkdf.BufferTooShort | Kroopt/Native/hacl/Hacl_HKDF.c:42-48 | the first info lengths beyond it, for SHA-256 and SHA-512: the buffer has length 0 |
| Hkdf.CounterExact | Kroopt/Native/hacl/Hacl_HKDF.c:51-68 | the counter bytes make every text the one of section 2.3 of RFC 5869 if and only if len is at most 255 digests |
| Hkdf.HaclExact | Kroopt/Native/hacl/Hacl_HKDF.c:29-76 | up to that length the output is the one of the RFC |
| Hkdf.FillText | Kroopt/Native/kroopt_ffi.c:188-195 | the text of a round as the 32-bit offset leaves it |
| Hkdf.KrooptExpand | Kroopt/Native/kroopt_ffi.c:173-200 | empty for rejected inputs and failed allocations, otherwise the same stream over those texts; the byte counter never wraps |
| Hkdf.TextExact | Kroopt/Native/kroopt_ffi.c:191-194 | a text is the one of the RFC if and only if its length fits 32 bits |
| Hkdf.RoundsExact | Kroopt/Native/kroopt_ffi.c:189-198 | all rounds hash the texts of the RFC if and only if the longest text fits 32 bits |
| Hkdf.ExpandExact | Kroopt/Native/kroopt_ffi.c:173-200 | then the output is the one of the RFC, as for the other loop |
| Hkdf.InfoForgotten | Kroopt/Native/kroopt_ffi.c:191-194 | a concrete failure: with 2^32 - 1 bytes of info the first block does not depend on the info |
| SecretArena.StepRefines | Kroopt/Native/kroopt_ffi.c:398-452 | one operation answers as the map does if and only if it does not hand out the wrapped id 0 |
| SecretArena.RunRefines | Kroopt/Native/kroopt_ffi.c:380-452 | a whole run answers as the map does if and only if the 64-bit counter does not wrap in it |
| SecretArena.RunFromEmpty | Kroopt/Native/kroopt_ffi.c:380-452 | fewer than 2^64 allocations suffice for that |
| SecretArena.LiveSize | Kroopt/Native/kroopt_ffi.c:446-451 | live_count is the size of the map |
| SecretArena.NeverReused | Kroopt/Native/kroopt_ffi.c:372-373 | two allocations of a run never return the same id |
| SecretArena.ReleasedForever | Kroopt/Native/kroopt_ffi.c:373-374 | a released id reads empty after any further operations |
| SecretArena.ReleaseTwice | Kroopt/Native/kroopt_ffi.c:436-443 | a second release changes nothing |
| SecretArena.FailedAlloc | Kroopt/Native/kroopt_ffi.c:398-416 | a failed allocation changes nothing, except under the wrapped id 0, where a slot is taken |
| SecretArena.LeakedForever | Kroopt/Native/kroopt_ffi.c:409-412 | that slot stays in use whatever follows |
| SecretArena.WrapReached | Kroopt/Native/kroopt_ffi.c:398-416 | a run from the empty table that wraps the counter: after 2^64 - 1 allocations, all released, the next one answers 0 and takes a slot for good |
| SecretArena.Arena.Lookup | Kroopt/Native/kroopt_ffi.c:390-396 | the first slot in use under the id; id 0 names none |
| SecretArena.Arena.SecretAlloc | Kroopt/Native/kroopt_ffi.c:398-416 | one allocation step on the table in memory; buffers are never shared |
| SecretArena.Arena.SecretRead | Kroopt/Native/kroopt_ffi.c:418-426 | a fresh copy of the bytes, or an empty one |
| SecretArena.Arena.SecretZeroize | Kroopt/Native/kroopt_ffi.c:428-434 | zeros in place, slot kept, other buffers untouched |
| SecretArena.Arena.SecretRelease | Kroopt/Native/kroopt_ffi.c:436-443 | the buffer holds zeros and the slot is free |
| SecretArena.Arena.SecretLiveCount | Kroopt/Native/kroopt_ffi.c:445-452 | the number of slots in use |

## Left out

- KeyAgreement.X25519Multiple: takes two facts as hypotheses that are not proved here, that 2^255 - 19 is prime and, in `Homomorphism`, that the chord and tangent law adds the multiples of a point consistently (its associativity).
- KeyAgreement.SameSecret: rests on the same two hypotheses.
- The 32-bit twins in Hacl_Bignum.c: the width `w` covers both.
- The compression functions and constants of SHA-2: `Sha2.Alg` takes the compression function and the initial value as parameters, so nothing is said about their insides.
- Poly1305 init and finish: their bodies are not in the repository, so `Aead.PolyFunctions` takes them as functions; the tag is whatever they make of the accumulator.
- The branch `rem1 > 0` of poly1305_padded_32 (lines 159-280): n * 16 % 16 is always 0, so it is never taken.
- Stack arrays and malloc: fresh arrays; an allocation that may fail is a Boolean parameter.
- Array lengths and indices: unbounded naturals, so products such as 4 * len or 128 * len, which the C computes in a `uint32_t` (bn_precomp_r2_mod_n needs len < 2^25 limbs), are exact; the text lengths of HKDF, where callers can reach the wrap, are modelled with it.
- Sha2.HashBytes: the length field is the bit length modulo the width of the field; the 61- and 125-bit limits of the callers are not stated.
- Ed25519 point arithmetic, signing, verification and decompression: only the field and scalar routines beneath them are modelled.
- SecretArena.Arena.SecretRelease: the freed buffer is unreachable in the model instead of returned to an allocator.
- The thin wrappers of kroopt_ffi.c and kroopt_aesgcm.c: one length check and one call each.
- Sockets, randomness, AES-GCM, P-256, RSA-PSS, the TLS state machine and the Lean sources.
- Constant-time behaviour and what the compiler does with wiped memory.
- Hacl_Bignum256.c eq_mask and the little-endian byte conversions: simpler than the members above.
