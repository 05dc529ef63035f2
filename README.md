# Paillier encryption, modelled in Dafny

This project models the `PallierEncryption` class of `src/pallier.ts`, an
implementation of Paillier's additively homomorphic public-key cryptosystem
over BigInt. The model covers:

- the key records `PublicKey` (n, n2, g), `PrivateKey` (lambda, mu) and `KeyPair`;
- the cipher operators `encrypt`, `decrypt`, `add` and `multiply`;
- the key derivation `getKeys` and its helpers `calculateLambda`,
  `calculateDecryptionCoefficient` and `computeDecryptionShift` (the function L);
- the generator construction `generateGenerator`;
- the retry rule of key generation, `generateKeysSync`;
- the object itself: its mutable fields `pub`, `priv`, `p`, `q` and
  `isInitialized`, and the guard that makes the operators refuse to run before
  the constructor has generated keys.

Files:

- `wrappers.dfy` defines `Option` and `Result`.
- `arith.dfy` defines BigInt's truncating `/` and `%` (`JsDiv`, `JsRem`), `Pow`,
  the library's `modPow` (`ModPow`), and the modular identities used by the rest
  of the model.
- `numbers.dfy` defines the library's number theory: `Gcd`, extended Euclid,
  `ModInv` (an `Option`), `Lcm` and `BitLength`. Each comes with lemmas that it
  means what its name says.
- `paillier.dfy` holds one function per arrow-function body of the class. Every
  random draw is a parameter: the nonce `r`, the generator draws alpha and beta,
  and the prime candidates, which are grouped in a `Draw`. It also holds the
  pure specification of key generation over a finite sequence of draws.
- `homomorphism.dfy` holds what the operators promise:
  - the ciphertext-level homomorphisms of `add` and `multiply`;
  - decryption correctness under two explicit number-theoretic hypotheses,
    stated as predicates;
  - the behaviour of the special cases of `multiply`;
  - the nonces at the edge of `randBetween`'s range.
- `vectors.dfy` evaluates the fixed values that `src/pallier.test.ts` checks:
  L(136) = 9 for n = 15, and the key pair for p = 17, q = 19, g = 848.
- `engine.dfy` holds the class `PallierEncryption`:
  - the constructor;
  - the guarded operators;
  - `GetKeys`, which stores the keys it derives;
  - `GenerateKeysSync`, the retry recursion written as a loop over the draws
    and proved equal to the pure specification.

Integer semantics:

- BigInt `/` and `%` truncate toward zero. The model writes them out as `JsDiv`
  and `JsRem` and does not use Dafny's Euclidean operators for them. Because of
  this, L(0) = (0 - 1) / n = 0 for n > 1, and the remainder of a negative
  product is modelled faithfully.
- `modPow`, `lcm`, `modInv` and `primeSync` live in the arithmetic library,
  which is not part of this model. They are given mathematical definitions:
  - `modPow` is repeated squaring, equal to b^e mod m;
  - `lcm` is |a| / gcd * |b|;
  - `modInv` reports absence when gcd(a mod n, n) is not 1.

Two hypotheses:

- Decryption is correct for all plaintexts only under facts that rest on the
  primality of p and q (Carmichael's theorem). These are not derived here.
  They are stated as two predicates:
  - `DecryptableKeys`: g^lambda is 1 modulo n, and mu inverts L(g^lambda)
    modulo n;
  - `BlindingVanishes`: r^(n*lambda) is 1 modulo n2.
- Every lemma that needs them takes them as preconditions.
  `GeneratedKeysAreDecryptable` shows that `generateGenerator`'s output
  satisfies the first predicate whenever beta satisfies the second.

## Model

| member | source | states |
|---|---|---|
| Arith.JsDiv | src/pallier.ts:116 | BigInt quotient rounds toward zero: \|q\|·\|b\| ≤ \|a\| < (\|q\|+1)·\|b\|, q is negative exactly when the operand signs differ, and q is the Euclidean quotient for non-negative operands |
| Arith.JsRem | src/pallier.ts:54 | BigInt remainder: \|r\| < \|b\|, a non-zero r has the sign of the dividend, and r is the Euclidean remainder for non-negative operands |
| Arith.JsDivRem | src/pallier.ts:116 | truncating quotient and remainder recompose the dividend: a = q·b + r |
| Arith.JsRemMod | src/pallier.ts:54 | the truncating remainder is congruent to its dividend modulo \|m\| |
| Arith.ModPow | src/pallier.ts:39 | library modPow lies in [0, m) |
| Arith.ModPowIsPowMod | src/pallier.ts:39 | repeated squaring computes b^e mod m |
| Arith.ModPowMul | src/pallier.ts:68 | modPow of a product is the reduced product of the modPows |
| Arith.ModPowPow | src/pallier.ts:68 | (b^x mod m)^y mod m = b^(x·y) mod m |
| Numbers.EGcd | src/pallier.ts:125 | extended Euclid returns gcd(a, b) and Bezout coefficients x, y with a·x + b·y = gcd |
| Numbers.GcdDivides | src/pallier.ts:129 | gcd(a, b) divides a and b |
| Numbers.GcdGreatest | src/pallier.ts:129 | every common divisor of a and b divides gcd(a, b) |
| Numbers.ModInv | src/pallier.ts:125 | the inverse exists exactly when gcd(a mod n, n) = 1, and then lies in [0, n) with a·x ≡ 1 (mod n) |
| Numbers.ModInvUnique | src/pallier.ts:125 | any inverse of a in [0, n) is the one ModInv returns |
| Numbers.NoInverseUnlessCoprime | src/pallier.ts:125 | no x inverts a modulo n when gcd(a mod n, n) ≠ 1 |
| Numbers.Lcm | src/pallier.ts:129 | the library's lcm, \|a\| / gcd(\|a\|, \|b\|) · \|b\|, is at most \|a\|·\|b\|; LcmIsCommonMultiple and LcmIsLeast show it is the least common multiple |
| Numbers.LcmIsCommonMultiple | src/pallier.ts:129 | lcm(a, b) is a multiple of \|a\| and \|b\|, and is 0 exactly when a or b is 0 |
| Numbers.LcmIsLeast | src/pallier.ts:129 | lcm(a, b) divides every common multiple of a and b |
| Numbers.BitLength | src/pallier.ts:98 | getBitLength as the number of binary digits: 0 exactly for x = 0, and never more than x; BitLengthBounds and BitLengthFromBounds show it is the k with 2^(k-1) ≤ x < 2^k |
| Numbers.BitLengthBounds | src/pallier.ts:98 | a positive x with k bits lies in [2^(k-1), 2^k) |
| Numbers.BitLengthFromBounds | src/pallier.ts:98 | an x in [2^(k-1), 2^k) has exactly k bits |
| Numbers.ProductBitLength | src/pallier.ts:96-98 | a product of an i-bit and a j-bit number has i + j - 1 or i + j bits |
| Paillier.Encrypt | src/pallier.ts:33-40 | the ciphertext for nonce r lies in [0, n2) and is g^m · r^n reduced modulo n2 |
| Paillier.ComputeDecryptionShift | src/pallier.ts:113-116 | for x ≥ 1, L(x) is the l with l·n + 1 ≤ x < (l+1)·n + 1, and l·n + 1 = x exactly when x ≡ 1 (mod n); L(x) ≥ 0 for x ≥ 0 and n > 1 |
| Paillier.ShiftOfPositive | src/pallier.ts:113-116 | for x ≥ 1 BigInt's L agrees with Euclidean (x - 1) / n, bracketing x, and is exact on x ≡ 1 (mod n) |
| Paillier.Decrypt | src/pallier.ts:42-49 | with n > 0 and mu ≥ 0 the decrypted value lies in [0, n) |
| Paillier.Add | src/pallier.ts:51-54 | the sum of ciphertexts is congruent to a·b modulo n2, and lies in [0, n2) when a·b ≥ 0 |
| Paillier.Multiply | src/pallier.ts:56-69 | scalar k ≥ 2 gives c^k mod n2; k = 0 and k = 1 give c^k · r^n modulo n2 (a fresh encryption of 0 folded in); non-negative results lie in [0, n2) |
| Paillier.CalculateLambda | src/pallier.ts:128-129 | lambda is 0 exactly when p or q is 1, and is otherwise a common multiple of \|p-1\| and \|q-1\| |
| Paillier.LambdaIsLeast | src/pallier.ts:128-129 | lambda divides every common multiple of \|p-1\| and \|q-1\| |
| Paillier.CalculateDecryptionCoefficient | src/pallier.ts:118-126 | mu exists exactly when L(g^lambda mod n2) is invertible modulo n, and then inverts it in [0, n) |
| Paillier.CoefficientMissingOrZero | src/pallier.ts:74-78 | the `!mu` test fires exactly when n = 1 or L(g^lambda mod n2) is not invertible modulo n; a passing mu lies in (0, n) and inverts L |
| Paillier.GetKeys | src/pallier.ts:71-83 | a modulus n ≤ 0 is refused; MuDoesNotExist exactly when the coefficient is missing or 0; on success pub = (n, n·n, g), lambda = lcm(p-1, q-1), 0 < mu < n and L(g^lambda mod n2)·mu ≡ 1 (mod n) |
| Paillier.GenerateGenerator | src/pallier.ts:86-90 | g is congruent to (alpha·n + 1)·beta^n modulo n2 and lies in [0, n2) for alpha ≥ 0 |
| Paillier.PrimeBitLengths | src/pallier.ts:93-95 | p is asked for one bit more than q, and the two sizes add up to bitLength or bitLength + 1 |
| Paillier.RequestedSizesNearlyFit | src/pallier.ts:93-98 | primes of the requested sizes give n of bitLength bits or one bit off, on the side bitLength's parity decides, so the size check can reject them |
| Paillier.Attempt | src/pallier.ts:94-110 | an attempt retries exactly when p = q, n has the wrong bit length, or mu does not exist; otherwise it returns keys for the drawn p, q and generator, which are sound |
| Paillier.GenerateKeys | src/pallier.ts:92-111 | the only failure is running out of draws; returned keys have p ≠ q, a bitLength-bit n = p·q, n2 = n·n, lambda = lcm(p-1, q-1), 0 < mu < n inverting L, and p, q come from one draw |
| Paillier.FirstAcceptedDrawDecides | src/pallier.ts:98-107 | generation fails exactly when every draw asks for a retry; otherwise its result is the keys of the first draw that does not, so their p, q and g (from that draw's alpha and beta) all come from that draw |
| Homomorphism.AddOfEncryptions | src/pallier.ts:39-54 | add(enc(m1, r1), enc(m2, r2)) = enc(m1 + m2, r1·r2) |
| Homomorphism.MultiplyOfEncryption | src/pallier.ts:56-69 | multiply(enc(m, r), k) = enc(m·k, r') with r' = r0 for k = 0, r·r0 for k = 1 and r^k for k ≥ 2 |
| Homomorphism.PowerOfEncryption | src/pallier.ts:68 | enc(m, r)^k mod n2 = enc(m·k, r^k) |
| Homomorphism.OnePlusMultiplePow | src/pallier.ts:89 | (1 + k·n)^e ≡ 1 + e·k·n (mod n^2) |
| Homomorphism.LiftedCiphertext | src/pallier.ts:48 | when the blinding vanishes, enc(m, r)^lambda mod n2 = (g^lambda mod n2)^m mod n2 |
| Homomorphism.ShiftOfLiftedPower | src/pallier.ts:113-116 | for u ≡ 1 (mod n), L(u^m mod n^2) ≡ m·L(u) (mod n) |
| Homomorphism.DecryptOfEncrypt | src/pallier.test.ts:145-149 | under decryptable keys and a vanishing blinding, decrypt(enc(m, r)) = m mod n, and = m when m < n |
| Homomorphism.BlindingOfProduct | src/pallier.ts:54 | the product of two vanishing blindings vanishes |
| Homomorphism.BlindingOfPower | src/pallier.ts:68 | a power of a vanishing blinding vanishes |
| Homomorphism.DecryptOfAdd | src/pallier.test.ts:8-19 | for keys meeting `DecryptableKeys` and nonces meeting `BlindingVanishes`, decrypt(add(enc(a), enc(b))) = (a + b) mod n |
| Homomorphism.DecryptOfMultiply | src/pallier.test.ts:28-39 | for keys meeting `DecryptableKeys` and nonces meeting `BlindingVanishes`, decrypt(multiply(enc(a), k)) = a·k mod n for every scalar k |
| Homomorphism.AddScenario | src/pallier.test.ts:8-19 | for keys meeting `DecryptableKeys` with n > 579 and nonces meeting `BlindingVanishes`, 123 and 456, encrypted and added, decrypt to 579 |
| Homomorphism.MultiplyScenario | src/pallier.test.ts:28-39 | for keys meeting `DecryptableKeys` with n > 56088 and nonces meeting `BlindingVanishes`, 123 encrypted and scaled by 456 decrypts to 56088 |
| Homomorphism.DistinctPlainTextsEncryptDifferently | src/pallier.test.ts:139-143 | for keys meeting `DecryptableKeys` and nonces meeting `BlindingVanishes`, plaintexts that differ modulo n never share a ciphertext |
| Homomorphism.GeneratorIsEncryptionOfAlpha | src/pallier.ts:86-90 | the generator is enc(alpha, beta) under the standard generator n + 1 |
| Homomorphism.GeneratorLiftsToOne | src/pallier.ts:86-90 | g^lambda mod n2 ≡ 1 (mod n) for the generated g when beta's blinding vanishes |
| Homomorphism.GeneratedKeysAreDecryptable | src/pallier.ts:102-104 | keys that getKeys derives from a generated g satisfy the decryption hypothesis |
| Homomorphism.MultiplyByZero | src/pallier.test.ts:41-51 | multiply by 0 answers r0^n mod n2, which is the naive answer 1 exactly when that blinding is 1 |
| Homomorphism.MultiplyByOne | src/pallier.test.ts:53-63 | for a ciphertext c coprime to n2, multiply by 1 answers c itself exactly when r0^n ≡ 1 (mod n2) |
| Homomorphism.UnitNonceGivesNaiveAnswers | src/pallier.test.ts:41-63 | with nonce 1, multiply by 0 answers 1 and multiply by 1 answers c |
| Homomorphism.ModulusNonceGivesZero | src/pallier.ts:38-39 | the nonce r = n, which randBetween(n) can draw, makes every ciphertext 0 |
| Homomorphism.ZeroDecryptsToZero | src/pallier.ts:42-49 | the ciphertext 0 decrypts to 0 under every key with lambda ≥ 1 |
| Homomorphism.ModulusNonceLosesPlainText | src/pallier.ts:38-48 | with nonce r = n, every plaintext decrypts to 0 |
| Homomorphism.ModulusNonceDoesNotVanish | src/pallier.ts:38 | the nonce n never meets the blinding hypothesis of the round trip, for any key with n ≥ 2 and lambda ≥ 1 |
| Vectors.ShiftExample | src/pallier.test.ts:101-106 | L(136) = 9 for n = 15 |
| Vectors.LambdaExample | src/pallier.test.ts:66-88 | lambda(17, 19) = 144 |
| Vectors.LiftExample | src/pallier.test.ts:109-119 | 848^144 mod 323^2 = 324 |
| Vectors.CoefficientExample | src/pallier.test.ts:109-119 | mu for g = 848, lambda = 144, n = 323 is 1 |
| Vectors.GetKeysExample | src/pallier.test.ts:66-88 | getKeys(17, 19, 323, 848) yields n = 323, n2 = 104329, g = 848, lambda = 144, mu = 1 |
| Engine.PallierEncryption.constructor | src/pallier.ts:28-31 | the object is initialized exactly when key generation at 3072 bits succeeds, and then holds that key pair and its primes |
| Engine.PallierEncryption.Encrypt | src/pallier.ts:33-40 | refuses exactly when the object is not initialized; otherwise the ciphertext, in [0, n2) |
| Engine.PallierEncryption.Decrypt | src/pallier.ts:42-49 | refuses exactly when the object is not initialized; otherwise the plaintext residue |
| Engine.PallierEncryption.Multiply | src/pallier.ts:56-69 | refuses exactly when the object is not initialized; otherwise the scaled ciphertext |
| Engine.PallierEncryption.GetKeys | src/pallier.ts:71-83 | returns getKeys's result; stores pub and priv exactly on success and changes nothing else |
| Engine.PallierEncryption.TryDraw | src/pallier.ts:94-110 | one attempt records the candidates in p and q, decides as Attempt does, and stores the keys when it stops |
| Engine.PallierEncryption.GenerateKeysSync | src/pallier.ts:92-111 | the retry loop returns the keys GenerateKeys specifies and leaves them and their primes in the fields; when the draws run out it fails with pub and priv untouched |

## Left out

- Randomness becomes parameters. `randBetween` is the nonce `r` and the
  generator draws alpha and beta. `primeSync` is the `p`, `q` of each `Draw`.
  Nothing is said about their distribution, nor that `primeSync` returns primes.
- A `Draw`'s `p` and `q` are not tied to the sizes `PrimeBitLengths` asks for:
  any candidates are allowed. `PrimeBitLengths` and `RequestedSizesNearlyFit`
  say what the requested sizes give, but `GenerateKeys` does not use them. The
  bit-length check in `Attempt` alone decides which candidates are accepted.
- The retry recursion of `generateKeysSync` may never end. It is modelled over a
  finite sequence of draws; running out of draws is the error `RetriesExhausted`,
  which the source has no counterpart for.
- The constructor throws, or never returns, when key generation does not
  finish. In the model it returns an object whose `isInitialized` is false.
- Engine.PallierEncryption.GenerateKeysSync: requires bitLength ≥ 2, because
  the size check is only meaningful for moduli of at least two bits. The
  constructor always asks for 3072 bits.
- The arithmetic library's `modInv` is modelled as returning nothing when no
  inverse exists. `getKeys`'s `!mu` test then treats that like a zero
  coefficient, and key generation retries. A library version that throws there
  instead would end key generation with that error. The model does not cover
  that version.
- Negative plaintexts, scalars and exponents are not modelled. In the library
  they go through `modInv`. Plaintexts and scalars are `nat`.
- Non-positive moduli are excluded by preconditions: `n2 > 0` for
  encrypt/multiply, `n ≠ 0` for decrypt, and `n > 0` for the coefficient and for
  `GenerateGenerator`. For such moduli the library throws a RangeError, or
  BigInt division by zero throws. `getKeys`
  models a modulus n ≤ 0 as the error `ModulusOutOfRange`.
- Paillier.Encrypt: the nonce is a parameter, so the RangeError that
  `randBetween(n)` throws for n ≤ 1 is not captured (the library demands a
  maximum above its minimum 1). With n = 0 (and n2 > 0) or n = 1 the model
  returns a ciphertext where the source throws. The same holds for
  `Paillier.Multiply` with k = 0 or k = 1, for `Paillier.GenerateGenerator`
  (its beta) with n = 1, and for the object's `Encrypt` and `Multiply`.
  Generated keys are not affected: their n has bitLength ≥ 2 bits, so n ≥ 2.
- Plaintext range checks (m < n) are not done by the source and are not added.
  Decryption returns m mod n.
- Decryption correctness rests on `DecryptableKeys` and `BlindingVanishes`,
  which are not derived from the primality of p and q. Carmichael's theorem and
  prime generation are not part of this model.
- The statistical test claims are not modelled: "encrypts differently each time",
  and a ciphertext differing from its plaintext. For two different plaintexts,
  only the deterministic part (different residues give different ciphertexts) is
  proved, and only for keys meeting `DecryptableKeys` and nonces meeting
  `BlindingVanishes`. It fails for other nonces: with the nonce n, which
  `randBetween(n)` can draw, every plaintext encrypts to 0
  (`ModulusNonceGivesZero`), so any two plaintexts collide.
- The test file calls `encrypt`, `decrypt`, `add` and `multiply` without first
  supplying a key, and calls the private `getKeys` directly. Only its numeric
  expectations are modelled.
- `./utils` (`getBitLength`) is not part of this model. It is modelled as the
  number of binary digits, `BitLength`.
- `src/index.ts` (a demo that prints) and `src/types.ts` (a copy of the key
  types) are not part of this model.

## Findings

| source | as written | input that shows it | evidently intended | confidence | as-written member | corrected member |
|---|---|---|---|---|---|---|
| src/pallier.ts:38-39 | the nonce is `randBetween(n)`, which draws from [1, n] and so can return n itself | nonce r = n, any plaintext m, n ≥ 2, n2 = n·n | a nonce the round trip works for, e.g. one coprime to n; n never is | medium: the range of `randBetween` comes from the arithmetic library, which is not part of this model; not executed | Homomorphism.ModulusNonceLosesPlainText | Homomorphism.DecryptOfEncrypt (round trip under `BlindingVanishes`), with Homomorphism.ModulusNonceDoesNotVanish showing that n is excluded by it |
