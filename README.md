# Shamir secret sharing in threshold_signature, modelled in Dafny

The repository splits a private key into `n` shares. Each share is a point
`(k, f(k))` on a random polynomial `f` of degree `t - 1` whose constant term is
the key. Any `t` of the shares give the key back by Lagrange interpolation at
zero. All arithmetic is modulo the group order. The C++ code does this three
times, once per integer width:

- `int`, with a caller-chosen modulus;
- `unsigned long long`;
- OpenSSL `BIGNUM`, modulo the P-256 group order.

`threshold_crypto.cpp` repeats the BIGNUM version and attaches a public key to
each share. `secretshare.cpp` is a separate version that does no modular
reduction.

The model follows the program's files, one module each:

- `Common` (common.cpp, common.h): the share record and the two hex encoders.
- `GenCoef` (gen_coef.cpp): the coefficient vectors.
- `GenShares` (gen_shares.cpp): polynomial evaluation and share generation.
- `ReconKey` (recon_key.cpp): the extended-Euclid inverses and the three reconstructions.
- `ThresholdCrypto` (threshold_crypto.cpp).
- `SecretShare` (secretshare.cpp).

They rest on these supporting modules:

- `ModArith`: congruences and 64-bit wrap-around.
- `Field`: the BN_mod_* primitives, the Euclid loop and primality.
- `Polynomial`: evaluation, algebra, and root counting modulo a prime.
- `Lagrange`: the reference reconstruction and its correctness theorem.
- `P256`: the curve constants.
- `Scenarios`: end-to-end runs and the worked example.

Every C++ loop is a Dafny method whose loop invariants tie it to a
specification function:

- `Eval` / `SumTerms` for evaluation;
- `WeightUpTo` / `SumUpTo` / `LagrangeAtZero` for the BIGNUM reconstruction;
- `IntSumUpTo` and `LongReconstruct` for the fixed-width reconstructions, which keep their exact arithmetic;
- `Hex` for the encoders.

The central theorem is `Lagrange.LagrangeRecoversSecret`. Take a prime
modulus `p` and at least two shares whose x are distinct modulo `p`, drawn
from a polynomial with no more coefficients than there are shares.
Reconstruction from those shares returns the polynomial's constant term
modulo `p`. The proof counts roots: a polynomial with at most `k` coefficients
that vanishes at `k` distinct points modulo a prime vanishes everywhere. That
theorem is then transferred to each variant:

- to `reconstructKey_int` when the modulus is prime;
- to `reconstructKey_long` with its inverse corrected (see Findings);
- to generation followed by reconstruction on any `t` shares.

Randomness becomes an input: a sequence of draws. Its range, for example
`[1, mod - 1]`, or "below the field prime or a failure", is stated as a
precondition. The elliptic-curve public key is a function parameter.

The code checks its arguments in few places:

- Only `generateShares_int` checks `t > n`. No function checks for `t < 1`,
  `n < 1` or a secret outside `[0, order)`.
- Only the BIGNUM reconstructions refuse duplicate x (Findings, rows 2 and 3).

## Model

| member | source | states |
|---|---|---|
| ModArith.Wrap64 | recon_key.cpp:69-91 | the value an `unsigned long long` holds after an assignment: equal to the exact value on [0, 2^64) |
| ModArith.Wrap64Congruent | recon_key.cpp:69-91 | the held value is congruent to the exact one modulo 2^64 |
| Field.EuclidSolves | recon_key.cpp:9-22 | the `while (a > 1)` loop from (a, mod, 0, 1), mod >= 2, ends with a coefficient exactly when a == 0 or gcd(a, mod) == 1 and otherwise divides by zero; a == 0 leaves 1; for a >= 1 the coefficient lies in (-mod, mod), is non-zero and inverts a |
| Field.EuclidInverse | recon_key.cpp:3-30 | what modInverse_int returns: 0 for modulus 1; for mod >= 2 a value exactly when a == 0 or gcd(a, mod) == 1; 1 for a == 0; for a >= 1 a value in (0, mod) with a * r == 1 modulo mod |
| Field.ModAdd | recon_key.cpp:199 | BN_mod_add: a result in [0, m) congruent to a + b |
| Field.ModSub | recon_key.cpp:180 | BN_mod_sub: a result in [0, m) congruent to a - b, zero exactly when a and b are congruent |
| Field.ModMul | recon_key.cpp:191-192 | BN_mod_mul: a result in [0, m) congruent to a * b |
| Field.ModInverse | recon_key.cpp:186-188 | BN_mod_inverse: succeeds exactly when a is non-zero modulo m and coprime to it, with a result r in (0, m) and a * r == 1 modulo m |
| Field.PrimeInverse | recon_key.cpp:186-188 | modulo a prime the inverse exists exactly for non-zero residues, so the "Failed to compute modular inverse" branch is only reached through a duplicate x |
| Field.InverseUnique | recon_key.cpp:186 | two inverses of the same residue in [0, m) are equal, so every correct inverse routine returns the same weight |
| Polynomial.SumTermsIsEval | gen_shares.cpp:89-93 | the ascending-power sum c0 + c1*z + ... + c(k-1)*z^(k-1) that the evaluation loops accumulate is the polynomial formed by the first k coefficients |
| Polynomial.EvalAtZero | gen_coef.cpp:29 | the polynomial's value at zero is the coefficient at index 0, where the secret is stored |
| Polynomial.VanishesEverywhere | recon_key.cpp:168-200 | a polynomial with at most k coefficients that vanishes modulo a prime at k points distinct modulo it vanishes everywhere (uniqueness of the interpolant) |
| Common.HexDigit | common.cpp:6 | the digit of a nibble: '0'..'9', then 'a'..'f' or 'A'..'F' |
| Common.Hex | common.cpp:3-9 | the encoding of n bytes has exactly 2n characters, so empty input gives the empty string |
| Common.BytesToHex | common.cpp:3-9 | bytesToHex returns the lower-case two-digit encoding of the bytes |
| Common.BufferToHex | common.cpp:24-31 | bufferToHex returns the upper-case two-digit encoding of the first len bytes of the buffer |
| Common.HexDigits | common.cpp:6 | byte i appears at positions 2i (high nibble) and 2i+1 (low nibble), zero-padded |
| Common.HexConcat | common.cpp:5-7 | encoding distributes over concatenation: hex(a + b) == hex(a) + hex(b) |
| Common.HexCaseAgree | common.cpp:28 | the upper-case encoding is the lower-case one with its letters capitalised: the two encoders agree up to case |
| Common.HexRoundTrip | common.cpp:3-9 | the encoding is lossless: decoding the digit pairs gives the bytes back, in either case |
| GenCoef.GenerateCoefficientsInt | gen_coef.cpp:3-12 | a negative degree throws (length error); otherwise exactly `degree` values, the draws, each in [1, mod - 1], with no secret among them |
| GenCoef.LongCoefficients | gen_coef.cpp:14-25 | the long coefficient vector has max(t, 1) entries, the private key at index 0 and rand() % order, below the order, after it |
| GenCoef.GenerateCoefficientsLong | gen_coef.cpp:14-25 | generateCoefficients_long's push_back loop builds exactly that vector |
| GenCoef.CoefficientsUpTo | gen_coef.cpp:29-37 | after k draws: success exactly when all k draws succeeded, else RandomFailure; on success k + 1 entries, the secret first and the drawn values after it in order |
| GenCoef.DrawCoefficients | gen_coef.cpp:27-40 | the BIGNUM push_back loop computes CoefficientsUpTo for max(t - 1, 0) draws, every drawn entry below the range it drew from |
| GenCoef.GenerateCoefficientsBignum | gen_coef.cpp:27-40 | generateCoefficients_BIGNUM: max(t, 1) coefficients with the secret first, the others below the P-256 field prime; a failed draw throws |
| GenCoef.GenerateCoefficientsBelowOrder | gen_coef.cpp:33 | the same vector with every random coefficient below the group order |
| GenCoef.FieldPrimeRangeOverlaps | gen_coef.cpp:33 | the group order is below the field prime, and the admissible draws 1 and order + 1 give the same coefficient modulo the order |
| GenCoef.OrderRangeInjective | gen_coef.cpp:33 | below the order, two draws that agree modulo the order are equal |
| GenShares.IntStepFits | gen_shares.cpp:11-12 | under the bounds of EvaluatePolynomialInt neither `powerOfX * x` nor `y + coeff * powerOfX` leaves the 32-bit range |
| GenShares.EvaluatePolynomialInt | gen_shares.cpp:7-15 | with no coefficients y is the unreduced secret; otherwise y is in [0, mod) and equals (secret + c1*x + c2*x^2 + ...) mod mod, the coefficient vector holding no secret |
| GenShares.GenerateSharesInt | gen_shares.cpp:17-44 | t > n throws invalid_argument before anything else; t < 1 throws from the coefficient vector; otherwise exactly n shares, share k being (k, f(k) mod mod) with f = secret + the drawn coefficients, or (k, secret) when t == 1 |
| GenShares.LongStepFits | gen_shares.cpp:51-52 | with an order of at most 2^32, x below it and the non-constant coefficients reduced, no product or sum of one step wraps |
| GenShares.EvaluatePolynomialLong | gen_shares.cpp:46-56 | the result is always below the order; when nothing wraps it is the polynomial's value modulo the order, index 0 being the constant term |
| GenShares.GenerateSharesLong | gen_shares.cpp:58-80 | no check of t against n; max(n, 0) shares, share k has x = k and y below the order, and y == f(k) mod order when the order is at most 2^32, x is below it and the coefficients are reduced |
| GenShares.BignumEvalStep | gen_shares.cpp:89-93 | one BN_mod_mul / BN_mod_add step keeps the running value at the reduced partial sum and the running power congruent to the power of x |
| GenShares.EvaluatePolynomialBignum | gen_shares.cpp:82-98 | the result is in [0, order) and is the polynomial's value modulo the order |
| GenShares.GenerateSharesBignum | gen_shares.cpp:100-148 | no check of t against n; fails (RandomFailure) exactly when coefficient generation does; otherwise max(n, 0) shares, share k being (k, f(k) mod order) |
| Lagrange.WeightUpTo | recon_key.cpp:172-193 | the lambda of the inner loop, when computed, lies in [0, order) |
| Lagrange.SumUpTo | recon_key.cpp:168-200 | the running secret of the outer loop, when computed, lies in [0, order) |
| Lagrange.LagrangeAtZero | recon_key.cpp:132-200 | fewer than two shares give TooFewShares; a result lies in [0, order) |
| Lagrange.WeightOkIff | recon_key.cpp:174-193 | modulo a prime, lambda_i is computed exactly when no other visited x_j is congruent to x_i, and its only failure is the duplicate-x error (the inverse never fails) |
| Lagrange.SumOkIff | recon_key.cpp:168-200 | the outer loop completes exactly when every visited share's lambda is computed |
| Lagrange.SumError | recon_key.cpp:168-200 | a failed outer loop names a share whose lambda failed, with the same error |
| Lagrange.LagrangeErrors | recon_key.cpp:134-188 | modulo a prime, reconstruction fails exactly when there are fewer than two shares or two x are congruent, and two congruent x give the duplicate-x error |
| Lagrange.NumPolyRoots | recon_key.cpp:174-193 | the numerator polynomial of share i vanishes at every other visited x_j |
| Lagrange.WeightTracksNumPoly | recon_key.cpp:174-193 | lambda_i is congruent to (prod x_j) * D_i, where D_i times prod (x_j - x_i) is congruent to 1 |
| Lagrange.InterpUpTo | recon_key.cpp:168-200 | the interpolating polynomial has no more coefficients than there are shares |
| Lagrange.InterpAtPoints | recon_key.cpp:168-200 | the interpolating polynomial takes the value y_m at every share's x_m, modulo the order |
| Lagrange.InterpAtZero | recon_key.cpp:168-200 | the running secret is congruent to the interpolating polynomial at zero |
| Lagrange.LagrangeRecoversSecret | recon_key.cpp:168-200 | at least two shares with x distinct modulo a prime, from a polynomial with at most as many coefficients, reconstruct its constant term modulo the prime |
| ReconKey.ModInverseInt | recon_key.cpp:3-30 | modInverse_int's loop returns exactly EuclidInverse, and divides by zero exactly when that has no coefficient |
| ReconKey.BignumLambda | recon_key.cpp:172-193 | reconstructKey_BIGNUM's inner loop computes WeightUpTo: the first zero denominator gives the duplicate-x error, a missing inverse the inverse error |
| ReconKey.ReconstructKeyBignum | recon_key.cpp:132-200 | reconstructKey_BIGNUM's nested loops compute LagrangeAtZero: fewer than two shares throw, a result lies in [0, order) |
| ReconKey.IntDenominator | recon_key.cpp:50 | `(xj - xi + mod) % mod` is the difference modulo mod for reduced x, whichever is larger |
| ReconKey.IntWeightUpTo | recon_key.cpp:42-60 | li, when computed, lies in [0, mod] |
| ReconKey.IntLambdaFits | recon_key.cpp:59 | for reduced operands and mod <= 46340, neither `li * numerator` nor the product with denomInv leaves the 32-bit range |
| ReconKey.IntLambda | recon_key.cpp:42-60 | reconstructKey_int's inner loop computes IntWeightUpTo, stopping at the first missing inverse |
| ReconKey.ReconstructKeyInt | recon_key.cpp:33-67 | reconstructKey_int's outer loop computes IntSumUpTo, with no intermediate product leaving the 32-bit range |
| ReconKey.IntWeightAgrees | recon_key.cpp:43-60 | modulo a prime, for reduced shares with distinct x, li equals the BIGNUM lambda |
| ReconKey.IntSumAgrees | recon_key.cpp:37-64 | modulo a prime, for reduced shares with distinct x, the int running secret equals the BIGNUM one |
| ReconKey.ReconstructIntRecoversSecret | recon_key.cpp:33-67 | modulo a prime, at least two reduced shares with distinct x from a polynomial with at most as many coefficients give back its constant term |
| ReconKey.IntNoInverseUnreachable | recon_key.cpp:53-56 | for any modulus above 1 the "No modular inverse exists" error is never raised |
| ReconKey.IntAcceptsFewShares | recon_key.cpp:33-37 | reconstructKey_int accepts no share (returns 0) and a single share (returns its y), where the BIGNUM reconstruction refuses |
| ReconKey.IntMissesDuplicate | recon_key.cpp:50-59 | two copies of the share (1, 5) modulo 7 reconstruct to 3 instead of being refused as duplicates |
| ReconKey.LongInverseNonZero | recon_key.cpp:69-91 | as written, modInverse_long never returns 0 for a modulus above 1, whatever its argument, 0 included |
| ReconKey.LongNoInverseUnreachable | recon_key.cpp:116-119 | for any order above 1 the `denomInv == 0` error of reconstructKey_long is never raised |
| ReconKey.LongMissesDuplicate | recon_key.cpp:93-130 | two copies of the share (1, 5) modulo 7 reconstruct to 3 in reconstructKey_long instead of being refused as duplicates |
| ReconKey.EuclidLoopLong | recon_key.cpp:75-85 | the unsigned loop ends with the exact Bezout coefficient wrapped modulo 2^64, and divides by zero exactly when the exact loop does |
| ReconKey.LongInverse | recon_key.cpp:69-91 | what modInverse_long returns always fits 64 bits |
| ReconKey.LongInverseAsWritten | recon_key.cpp:83-90 | as written, for 2 <= mod < 2^63 and a coprime a >= 1, modInverse_long succeeds; it returns modInverse_int's inverse when the Bezout coefficient is non-negative, and otherwise a value of at least 2^63, which is that inverse plus 2^64 - mod and so not an inverse below mod |
| ReconKey.ModInverseLong | recon_key.cpp:69-91 | modInverse_long as written returns LongInverse without the signed fix: the `x1 < 0` branch never runs |
| ReconKey.ModInverseLongFixed | recon_key.cpp:87-88 | with the test reading x1 as signed, modInverse_long returns LongInverse with the fix |
| ReconKey.LongInverseFixedCorrect | recon_key.cpp:87-88 | with the signed reading and 2 <= mod < 2^63, modInverse_long returns exactly what modInverse_int returns, so an inverse in (0, mod) |
| ReconKey.LongInverseWraps | recon_key.cpp:83-90 | as written, modInverse_long(2, 5) returns 2^64 - 2, which does not invert 2 modulo 5; with the signed reading it returns 3 |
| ReconKey.LongDenominator | recon_key.cpp:112 | the unsigned denominator is (x_j - x_i) mod order for x below the order, including when x_j < x_i |
| ReconKey.LongReconstruct | recon_key.cpp:93-96 | fewer than two shares throw |
| ReconKey.LongLambda | recon_key.cpp:104-123 | the inner loop computes LongWeightUpTo with every operation wrapping modulo 2^64 |
| ReconKey.ReconstructKeyLong | recon_key.cpp:93-130 | reconstructKey_long computes LongReconstruct with the inverse as written |
| ReconKey.ReducedProductFits | recon_key.cpp:122 | with an order of at most 2^32 the product of two reduced values does not wrap |
| ReconKey.LongInverseIsModInverse | recon_key.cpp:116 | modulo a prime of at most 2^32, the signed reading inverts every non-zero residue as BN_mod_inverse does |
| ReconKey.LongFixedWeightAgrees | recon_key.cpp:106-123 | with the signed reading, a prime order of at most 2^32 and reduced distinct x, lambda equals the BIGNUM lambda |
| ReconKey.LongFixedSumAgrees | recon_key.cpp:100-127 | under the same conditions the running secret equals the BIGNUM one |
| ReconKey.LongFixedRecoversSecret | recon_key.cpp:93-130 | with the signed reading, reconstructKey_long recovers the constant term of the sharing polynomial for a prime order of at most 2^32 |
| ReconKey.InverseOfSixModSeven | recon_key.cpp:69-91 | 6 modulo 7: as written 2^64 - 1, with the signed reading 6, which is BN_mod_inverse's answer |
| ReconKey.LongReconstructWrong | recon_key.cpp:87-88 | the shares (1, 4), (2, 5) of 3 + x modulo 7 reconstruct to 6 as written, and to 3 with the signed reading and in the BIGNUM reconstruction |
| ThresholdCrypto.GeneratePolynomial | threshold_crypto.cpp:175-188 | a copy of the secret at index 0, max(t, 1) coefficients, the random ones below the field prime; a failed draw throws |
| ThresholdCrypto.EvaluatePolynomial | threshold_crypto.cpp:191-207 | the result is in [0, order) and is the polynomial's value modulo the order |
| ThresholdCrypto.KeyPairs | threshold_crypto.cpp:235-248 | n entries, the k-th being (f(k) mod order, publicKey(f(k) mod order)), in order |
| ThresholdCrypto.GenerateShares | threshold_crypto.cpp:210-258 | fails exactly when a draw fails; otherwise returns KeyPairs of the generated polynomial: x is not stored |
| ThresholdCrypto.AsShares | threshold_crypto.cpp:298-299 | reconstructKeyPair reads `.first` as x and `.second` as y |
| ThresholdCrypto.ReconstructKeyPair | threshold_crypto.cpp:261-329 | fewer than two pairs throw; otherwise the BIGNUM Lagrange loop on the pairs read as (x, y), a result in [0, order) |
| ThresholdCrypto.KeyPairsLoseX | threshold_crypto.cpp:246 | for f = 42 + 5X + 7X^2 modulo 101 and n = 3, generateShares hands out (54, .), (80, .), (19, .), and with a constant public key reconstructKeyPair returns 0, not 42 |
| ThresholdCrypto.PointPairs | threshold_crypto.cpp:235-248 | the layout reconstructKeyPair expects: the k-th entry is (k, f(k) mod order) |
| ThresholdCrypto.GenerateSharesWithX | threshold_crypto.cpp:235-248 | generateShares storing (x, y), with coefficients drawn below the order: it fails exactly when a draw fails and otherwise returns PointPairs |
| ThresholdCrypto.PointPairsRecoverSecret | threshold_crypto.cpp:297-329 | n >= 2 pairs (k, f(k) mod order), for a prime order above n and f with at most n coefficients, reconstruct f's constant term |
| SecretShare.NoOverflowStep | secretshare.cpp:13-14 | when every value the loop computes fits an int, so do `coeff * power`, the new result and `power * x` |
| SecretShare.EvaluatePolynomial | secretshare.cpp:8-18 | the exact integer value sum coeff[i] * x^i, with no modulus; an empty vector gives 0 |
| SecretShare.ShareCoefficients | secretshare.cpp:22-32 | exactly t coefficients, the private key at index 0 and the draws after it |
| SecretShare.GenerateShares | secretshare.cpp:20-44 | a negative t fails with length_error and nothing else does; no check of t against n; max(n, 0) shares in order, the k-th being (k, f(k)) over the integers |
| Scenarios.SubsetRecoversSecret | recon_key.cpp:168-200 | any at least two of the shares (k, f(k)) (with k from 1 and the modulus a prime above their number), and at least as many as f has coefficients, reconstruct f's constant term |
| Scenarios.ShareAndReconstructInt | gen_shares.cpp:17-44 | generateShares_int then reconstructKey_int on any t or more shares returns the secret modulo a prime modulus |
| Scenarios.ShareAndReconstructBignum | gen_shares.cpp:100-148 | generateShares_BIGNUM then reconstructKey_BIGNUM on any t or more (and at least two) shares returns the key modulo a prime order, and fails only when a draw failed |
| Scenarios.HundredAndOne | recon_key.cpp:132-200 | 101 is prime; the shares 1, 3, 5 of 42 + 17X + 33X^2 reconstruct to 42 in the BIGNUM, int and corrected long reconstructions; a single share is refused |
| Scenarios.HundredAndOneShares | gen_shares.cpp:7-15 | the five shares of 42 + 17X + 33X^2 modulo 101 are (1, 92), (2, 6), (3, 87), (4, 32), (5, 43) |
| Scenarios.HundredAndOneRun | gen_shares.cpp:17-44 | generateShares_int(42, 5, 3, 101) with the draws 17 and 33 yields those shares, and reconstructKey_int on shares 1, 3, 5 returns 42 |

## Left out

- Elliptic-curve operations (creating the P-256 group and point multiplication): these are OpenSSL calls. A public key is any function of the scalar, passed as `publicKey`.
- The public key that reconstructKeyPair derives for the result (threshold_crypto.cpp:331-355): also an OpenSSL call.
- Failures to allocate a group, context or number (the `runtime_error` paths for `EC_GROUP`, `BN_CTX` and `BN_new`): these depend on memory, not on the inputs.
- BIGNUM allocation and freeing.
- The group order itself: the BIGNUM operations take the order as a parameter where the code calls `EC_GROUP_get0_order`. The P-256 order appears as `P256.Order`, but its primality is a hypothesis of the round-trip lemmas and is not proved.
- Random sources (`std::mt19937`, `rand()`, `BN_rand_range`): they become a sequence of draws whose range, or failure, is the generator's contract.
- Timing and console output (`std::chrono`, `std::cout`).
- bignumToHex, sha256, signature.cpp, main.cpp, key generation and the CUDA headers: none of them is part of the sharing scheme.
- The copies of bytesToHex and bufferToHex in threshold_crypto.cpp:11-40: they are identical to common.cpp's and are modelled once, in `Common`.
- ReconKey.ModInverseInt: only non-negative arguments are modelled, which is what reconstructKey_int passes.
- ReconKey.ReconstructKeyInt: the modulus is at most 46340 and the shares are reduced, so no product overflows; a larger modulus can overflow `li * numerator` (recon_key.cpp:59), which is undefined behaviour and is not modelled.
- GenShares.EvaluatePolynomialInt: when there is at least one coefficient, it requires a non-negative secret, a modulus of at most 46340 and sums within 32 bits. It does not model signed overflow, or C++'s truncating `%` on negative operands.
- GenShares.GenerateSharesInt: when 1 <= t <= n, it requires a modulus of at least 2 and draws in [1, mod - 1], as the coefficient generator does. Only when 2 <= t <= n does it also carry EvaluatePolynomialInt's bounds, plus n <= 46340. It requires nothing when t > n or t < 1, because both paths throw before any arithmetic.
- SecretShare.EvaluatePolynomial: requires every intermediate value to fit an `int`, because signed overflow is undefined behaviour in C++.
- SecretShare.GenerateShares: carries the same requirement, and excludes t == 0, because index 0 of an empty vector is then written, which is undefined behaviour. A negative t is modelled as the length_error the vector constructor throws.
- GenShares.EvaluatePolynomialLong: the result's value is stated only when no operation wraps (order at most 2^32, x below it, coefficients reduced). Otherwise only its range is stated.
- GenShares.GenerateSharesLong: the same restriction applies per share.
- ReconKey.ReconstructKeyLong: exact for every input, but the theorem that it recovers the secret is proved only for the signed-reading correction with a prime order of at most 2^32.
- GenShares.GenerateSharesBignum: the order is a parameter rather than the P-256 order.
- ThresholdCrypto.GenerateShares: the order is a parameter rather than the P-256 order.
- Common.BufferToHex: the buffer is a Dafny array of bytes, so pointer validity is not modelled.

## Findings

| source | as written | input that shows it | evidently intended | confidence | as-written member | corrected member |
|---|---|---|---|---|---|---|
| recon_key.cpp:87-88 | `if (x1 < 0) x1 += m0;` on an unsigned x1 never fires, so a negative Bezout coefficient comes back as 2^64 minus its size | modInverse_long(2, 5) = 2^64 - 2; reconstructKey_long on (1, 4), (2, 5) modulo 7 returns 6 instead of 3 | test x1 as a signed value, giving 3 and a correct reconstruction | high, not executed | ReconKey.LongReconstructWrong | ReconKey.LongFixedRecoversSecret |
| recon_key.cpp:53-56 | the `denomInv == 0` test is meant to catch a non-invertible denominator, but modInverse_int(0, mod) returns 1, so duplicate x pass | reconstructKey_int on (1, 5), (1, 5) modulo 7 returns 3 | refuse duplicate x as reconstructKey_BIGNUM does (recon_key.cpp:181-183) | high, not executed | ReconKey.IntMissesDuplicate | Lagrange.LagrangeErrors |
| recon_key.cpp:116-119 | the same test in reconstructKey_long: modInverse_long(0, order) also skips its loop and returns 1, so duplicate x pass (LongNoInverseUnreachable: the error is never raised) | reconstructKey_long on (1, 5), (1, 5) modulo 7 returns 3 | refuse duplicate x as reconstructKey_BIGNUM does (recon_key.cpp:181-183) | high, not executed | ReconKey.LongMissesDuplicate | Lagrange.LagrangeErrors |
| threshold_crypto.cpp:246 | generateShares stores (y, publicKey) and drops x, while reconstructKeyPair reads `.first` as x | f = 42 + 5X + 7X^2 modulo 101, n = 3, with a constant public key: reconstruction returns 0, not 42 | store (x, y), which reconstructKeyPair inverts | high, not executed | ThresholdCrypto.KeyPairsLoseX | ThresholdCrypto.PointPairsRecoverSecret |
| gen_coef.cpp:33 | random coefficients are drawn below the P-256 field prime, not below the group order that every later step reduces by | the draws 1 and order + 1 are both admissible and give the same coefficient, so small residues are twice as likely | draw below the group order, as the comment at threshold_crypto.cpp:181 says | medium, not executed | GenCoef.FieldPrimeRangeOverlaps | GenCoef.GenerateCoefficientsBelowOrder |
