/**
 * What the Paillier operators promise each other: the ciphertext-level
 * homomorphisms of add and multiply, decryption of an encryption under the
 * two facts Carmichael's theorem supplies for a well-formed key, and what the
 * special cases of multiply and the nonce range do to ciphertexts.
 */
module Homomorphism {
  import opened Arith
  import opened Numbers
  import opened Paillier

  // ---------------------------------------------------------------------
  // Ciphertext-level homomorphisms (no hypotheses on the key)

  /** add of two encryptions is the encryption of the sum, blinded by the product of the nonces. */
  lemma AddOfEncryptions(pk: PublicKey, m1: nat, m2: nat, r1: int, r2: int)
    requires pk.n2 > 0 && pk.n >= 0
    ensures Add(pk, Encrypt(pk, m1, r1), Encrypt(pk, m2, r2)) == Encrypt(pk, m1 + m2, r1 * r2)
  {
    var N := pk.n2;
    var x, y := Pow(pk.g, m1) * Pow(r1, pk.n), Pow(pk.g, m2) * Pow(r2, pk.n);
    var c1, c2 := Encrypt(pk, m1, r1), Encrypt(pk, m2, r2);
    ReducedProduct(c1, c2, Add(pk, c1, c2), x, y, N);
    assert x * y == Pow(pk.g, m1 + m2) * Pow(r1 * r2, pk.n) by {
      PowAdd(pk.g, m1, m2);
      PowMulBase(r1, r2, pk.n);
      MulRearrange(Pow(pk.g, m1), Pow(r1, pk.n), Pow(pk.g, m2), Pow(r2, pk.n));
    }
  }

  /** A residue s of the product of two residues is the residue of the product. */
  lemma ReducedProduct(c1: int, c2: int, s: int, x: int, y: int, N: int)
    requires N > 0 && c1 == x % N && c2 == y % N
    requires s % N == (c1 * c2) % N && (c1 * c2 >= 0 ==> 0 <= s < N)
    ensures s == (x * y) % N
  {
    MulLe(0, c1, 0, c2);
    MulMod(x, y, N);
    ModUnique(s, N, 0, s);
  }

  /**
   * multiply of an encryption of m by k is an encryption of m * k: for k >= 2
   * blinded by r^k, for k = 1 by r * r0, for k = 0 by the fresh nonce r0 alone.
   */
  lemma MultiplyOfEncryption(pk: PublicKey, m: nat, r: int, k: nat, r0: int)
    requires pk.n2 > 0 && pk.n >= 0
    ensures Multiply(pk, Encrypt(pk, m, r), k, r0)
         == Encrypt(pk, m * k, if k == 0 then r0 else if k == 1 then r * r0 else Pow(r, k))
  {
    var c := Encrypt(pk, m, r);
    if k == 0 {
      assert Multiply(pk, c, 0, r0) == Encrypt(pk, 0, r0);
      assert m * 0 == 0;
    } else if k == 1 {
      assert Multiply(pk, c, 1, r0) == Add(pk, c, Encrypt(pk, 0, r0));
      AddOfEncryptions(pk, m, 0, r, r0);
      assert m + 0 == m * 1;
    } else {
      assert Multiply(pk, c, k, r0) == Pow(c, k) % pk.n2;
      PowerOfEncryption(pk, m, r, k);
    }
  }

  /** Raising enc(m, r) to the k-th power modulo n2 gives enc(m * k, r^k). */
  lemma PowerOfEncryption(pk: PublicKey, m: nat, r: int, k: nat)
    requires pk.n2 > 0 && pk.n >= 0
    ensures Pow(Encrypt(pk, m, r), k) % pk.n2 == Encrypt(pk, m * k, Pow(r, k))
  {
    var N := pk.n2;
    var x := Pow(pk.g, m) * Pow(r, pk.n);
    assert Encrypt(pk, m, r) == x % N;
    PowMod(x, k, N);
    assert Pow(x, k) == Pow(pk.g, m * k) * Pow(Pow(r, k), pk.n) by {
      PowMulBase(Pow(pk.g, m), Pow(r, pk.n), k);
      PowPow(pk.g, m, k);
      PowPow(r, pk.n, k);
      PowPow(r, k, pk.n);
      assert pk.n * k == k * pk.n;
    }
  }

  // ---------------------------------------------------------------------
  // Decryption under the key facts

  /**
   * The key facts decryption relies on. For n = p * q with p, q distinct
   * primes and gcd(g, n) = 1, Carmichael's theorem gives g^lambda = 1 modulo
   * n; getKeys then makes mu the inverse of L(g^lambda mod n2).
   */
  predicate DecryptableKeys(keys: KeyPair)
  {
    var n, n2, lambda := keys.pub.n, keys.pub.n2, keys.priv.lambda;
    && n >= 2 && n2 == n * n && lambda >= 0 && keys.priv.mu >= 0
    && ModPow(keys.pub.g, lambda, n2) % n == 1
    && (ComputeDecryptionShift(n, ModPow(keys.pub.g, lambda, n2)) * keys.priv.mu) % n == 1
  }

  /**
   * The nonce fact decryption relies on: r^(n * lambda) = 1 modulo n2, which
   * Carmichael's theorem gives for every nonce coprime to n.
   */
  predicate BlindingVanishes(keys: KeyPair, r: int)
    requires keys.pub.n2 > 0 && keys.pub.n >= 0 && keys.priv.lambda >= 0
  {
    ModPow(r, keys.pub.n * keys.priv.lambda, keys.pub.n2) == 1
  }

  /** (1 + k n)^e = 1 + e k n modulo n^2. */
  lemma {:induction false} OnePlusMultiplePow(k: int, n: int, e: nat)
    requires n >= 1
    ensures Pow(1 + k * n, e) % (n * n) == (1 + e * k * n) % (n * n)
    decreases e
  {
    if e > 0 {
      var N := n * n;
      OnePlusMultiplePow(k, n, e - 1);
      CongruentFactor(1 + k * n, Pow(1 + k * n, e - 1), 1 + (e - 1) * k * n, N);
      OnePlusMultipleStep(k, n, e - 1);
      ModAddMultiple(1 + e * k * n, (e - 1) * k * k, N);
    }
  }

  lemma CongruentFactor(a: int, x: int, y: int, N: int)
    requires N > 0 && x % N == y % N
    ensures (a * x) % N == (a * y) % N
  {
    MulMod(a, x, N);
    MulMod(a, y, N);
  }

  lemma OnePlusMultipleStep(k: int, n: int, j: int)
    ensures (1 + k * n) * (1 + j * k * n) == 1 + (j + 1) * k * n + (j * k * k) * (n * n)
  {
    assert (1 + k * n) * (1 + j * k * n) == 1 + j * k * n + k * n + (k * n) * (j * k * n);
    assert (k * n) * (j * k * n) == (j * k * k) * (n * n);
  }

  /** Encryption written with the library's modPow, as the source computes it. */
  lemma EncryptByModPow(pk: PublicKey, m: nat, r: int)
    requires pk.n2 > 0 && pk.n >= 0
    ensures Encrypt(pk, m, r) == (ModPow(pk.g, m, pk.n2) * ModPow(r, pk.n, pk.n2)) % pk.n2
  {
    ModPowIsPowMod(pk.g, m, pk.n2);
    ModPowIsPowMod(r, pk.n, pk.n2);
    MulMod(Pow(pk.g, m), Pow(r, pk.n), pk.n2);
  }

  /** c^lambda mod n2 for c = enc(m, r) is (g^lambda mod n2)^m mod n2 once the blinding vanishes. */
  lemma LiftedCiphertext(keys: KeyPair, m: nat, r: int)
    requires keys.pub.n2 > 0 && keys.pub.n >= 0 && keys.priv.lambda >= 0
    requires BlindingVanishes(keys, r)
    ensures ModPow(Encrypt(keys.pub, m, r), keys.priv.lambda, keys.pub.n2)
         == ModPow(ModPow(keys.pub.g, keys.priv.lambda, keys.pub.n2), m, keys.pub.n2)
  {
    var n, N, g, lambda := keys.pub.n, keys.pub.n2, keys.pub.g, keys.priv.lambda;
    var a, b := ModPow(g, m, N), ModPow(r, n, N);
    var u := ModPow(ModPow(g, lambda, N), m, N);
    assert ModPow(a, lambda, N) == u by {
      ModPowPow(g, m, lambda, N);
      ModPowPow(g, lambda, m, N);
      assert m * lambda == lambda * m;
    }
    assert ModPow(b, lambda, N) == 1 by {
      ModPowPow(r, n, lambda, N);
    }
    calc {
      ModPow(Encrypt(keys.pub, m, r), lambda, N);
      { EncryptByModPow(keys.pub, m, r); }
      ModPow((a * b) % N, lambda, N);
      { ModPowReduceBase(a * b, lambda, N); }
      ModPow(a * b, lambda, N);
      { ModPowMul(a, b, lambda, N); }
      (u * 1) % N;
      { ModUnique(u, N, 0, u); }
      u;
    }
  }

  /** L((1 + k n)^m mod n^2) = m k mod n. */
  lemma ShiftOfLiftedPower(n: int, u: int, m: nat)
    requires n >= 2 && 0 <= u < n * n && u % n == 1
    ensures ComputeDecryptionShift(n, ModPow(u, m, n * n))
         == (m * ComputeDecryptionShift(n, u)) % n
  {
    var N := n * n;
    var k := ComputeDecryptionShift(n, u);
    OneMod(n);
    assert k * n + 1 == u;
    var t := (m * k) % n;
    var x := 1 + t * n;
    calc {
      ModPow(u, m, N);
      { ModPowIsPowMod(u, m, N); }
      Pow(1 + k * n, m) % N;
      { OnePlusMultiplePow(k, n, m); }
      (1 + m * k * n) % N;
      { ReducedLift(m * k, n); }
      x;
    }
    ModAddMultiple(1, t, n);
    var l := ComputeDecryptionShift(n, x);
    assert l * n + 1 == x;
    CancelPositive(l, t, n);
  }

  /** 1 + j n reduced modulo n^2 is 1 + (j mod n) n. */
  lemma ReducedLift(j: int, n: int)
    requires n >= 2
    ensures (1 + j * n) % (n * n) == 1 + (j % n) * n
  {
    var N := n * n;
    var t, q := j % n, j / n;
    assert j == q * n + t;
    assert 1 + j * n == (1 + t * n) + q * N;
    ModAddMultiple(1 + t * n, q, N);
    MulLe(t, n - 1, n, n);
    assert (n - 1) * n == N - n;
    ModUnique(1 + t * n, N, 0, 1 + t * n);
  }

  /**
   * Decryption inverts encryption: decrypt(enc(m, r)) = m mod n, for keys
   * and nonces satisfying the facts above.
   */
  lemma DecryptOfEncrypt(keys: KeyPair, m: nat, r: int)
    requires DecryptableKeys(keys) && BlindingVanishes(keys, r)
    ensures Decrypt(keys, Encrypt(keys.pub, m, r)) == m % keys.pub.n
    ensures m < keys.pub.n ==> Decrypt(keys, Encrypt(keys.pub, m, r)) == m
  {
    var n, N, g, lambda, mu := keys.pub.n, keys.pub.n2, keys.pub.g, keys.priv.lambda, keys.priv.mu;
    var u := ModPow(g, lambda, N);
    var k := ComputeDecryptionShift(n, u);
    calc {
      Decrypt(keys, Encrypt(keys.pub, m, r));
      { LiftedCiphertext(keys, m, r); }
      JsRem(ComputeDecryptionShift(n, ModPow(u, m, N)) * mu, n);
      { ShiftOfLiftedPower(n, u, m); }
      JsRem(((m * k) % n) * mu, n);
      { CoefficientCancelsShift(m, k, mu, n); }
      m % n;
    }
    if m < n {
      ModUnique(m, n, 0, m);
    }
  }

  /** Multiplying by the inverse coefficient undoes the shift of g's lift. */
  lemma CoefficientCancelsShift(m: int, k: int, mu: int, n: int)
    requires n >= 2 && mu >= 0 && m >= 0 && (k * mu) % n == 1
    ensures JsRem(((m * k) % n) * mu, n) == m % n
  {
    var t := (m * k) % n;
    OneMod(n);
    calc {
      JsRem(t * mu, n);
      { MulLe(0, t, 0, mu); }
      (t * mu) % n;
      { ModMod(m * k, n); CongruentFactor(mu, t, m * k, n); }
      (mu * (m * k)) % n;
      { assert mu * (m * k) == m * (k * mu); }
      (m * (k * mu)) % n;
      { CongruentFactor(m, k * mu, 1, n); }
      m % n;
    }
  }

  /** Vanishing blindings multiply to a vanishing blinding. */
  lemma BlindingOfProduct(keys: KeyPair, r1: int, r2: int)
    requires keys.pub.n2 > 0 && keys.pub.n >= 0 && keys.priv.lambda >= 0
    requires BlindingVanishes(keys, r1) && BlindingVanishes(keys, r2)
    ensures BlindingVanishes(keys, r1 * r2)
  {
    var e, N := keys.pub.n * keys.priv.lambda, keys.pub.n2;
    ModPowMul(r1, r2, e, N);
    assert ModPow(r1, e, N) * ModPow(r2, e, N) == 1;
    OneMod(N);
  }

  /** A power of a nonce whose blinding vanishes has a vanishing blinding. */
  lemma BlindingOfPower(keys: KeyPair, r: int, k: nat)
    requires keys.pub.n2 > 0 && keys.pub.n >= 0 && keys.priv.lambda >= 0
    requires BlindingVanishes(keys, r)
    ensures BlindingVanishes(keys, Pow(r, k))
  {
    var e, N := keys.pub.n * keys.priv.lambda, keys.pub.n2;
    calc {
      ModPow(Pow(r, k), e, N);
      { ModPowIsPowMod(Pow(r, k), e, N); PowPow(r, k, e); }
      Pow(r, k * e) % N;
      { assert k * e == e * k; ModPowIsPowMod(r, e * k, N); }
      ModPow(r, e * k, N);
      { ModPowPow(r, e, k, N); }
      ModPow(1, k, N);
      { ModPowIsPowMod(1, k, N); PowOfOne(k); OneMod(N); }
      1;
    }
  }

  /** Decrypting the sum of two encryptions gives the sum of the plaintexts modulo n. */
  lemma DecryptOfAdd(keys: KeyPair, a: nat, b: nat, r1: int, r2: int)
    requires DecryptableKeys(keys) && BlindingVanishes(keys, r1) && BlindingVanishes(keys, r2)
    ensures Decrypt(keys, Add(keys.pub, Encrypt(keys.pub, a, r1), Encrypt(keys.pub, b, r2)))
         == (a + b) % keys.pub.n
  {
    AddOfEncryptions(keys.pub, a, b, r1, r2);
    BlindingOfProduct(keys, r1, r2);
    DecryptOfEncrypt(keys, a + b, r1 * r2);
  }

  /** Decrypting multiply(enc(a), k) gives a * k modulo n, for every scalar k. */
  lemma DecryptOfMultiply(keys: KeyPair, a: nat, k: nat, r: int, r0: int)
    requires DecryptableKeys(keys) && BlindingVanishes(keys, r) && BlindingVanishes(keys, r0)
    ensures Decrypt(keys, Multiply(keys.pub, Encrypt(keys.pub, a, r), k, r0)) == (a * k) % keys.pub.n
  {
    MultiplyOfEncryption(keys.pub, a, r, k, r0);
    var nonce := if k == 0 then r0 else if k == 1 then r * r0 else Pow(r, k);
    ScaledNonceVanishes(keys, r, k, r0);
    MulLe(0, a, 0, k);
    DecryptOfEncrypt(keys, a * k, nonce);
  }

  /** The nonce of a scaled ciphertext vanishes when the nonces it is built from do. */
  lemma ScaledNonceVanishes(keys: KeyPair, r: int, k: nat, r0: int)
    requires DecryptableKeys(keys) && BlindingVanishes(keys, r) && BlindingVanishes(keys, r0)
    ensures BlindingVanishes(keys, if k == 0 then r0 else if k == 1 then r * r0 else Pow(r, k))
  {
    if k == 1 {
      BlindingOfProduct(keys, r, r0);
    } else if k >= 2 {
      BlindingOfPower(keys, r, k);
    }
  }

  /** Encryptions of plaintexts that differ modulo n differ, whatever the nonces. */
  lemma DistinctPlainTextsEncryptDifferently(keys: KeyPair, m1: nat, m2: nat, r1: int, r2: int)
    requires DecryptableKeys(keys) && BlindingVanishes(keys, r1) && BlindingVanishes(keys, r2)
    requires m1 % keys.pub.n != m2 % keys.pub.n
    ensures Encrypt(keys.pub, m1, r1) != Encrypt(keys.pub, m2, r2)
  {
    DecryptOfEncrypt(keys, m1, r1);
    DecryptOfEncrypt(keys, m2, r2);
  }

  /** The add scenario: 123 and 456, encrypted and added, decrypt to 579 whenever n exceeds 579. */
  lemma AddScenario(keys: KeyPair, r1: int, r2: int)
    requires DecryptableKeys(keys) && BlindingVanishes(keys, r1) && BlindingVanishes(keys, r2)
    requires keys.pub.n > 579
    ensures Decrypt(keys, Add(keys.pub, Encrypt(keys.pub, 123, r1), Encrypt(keys.pub, 456, r2))) == 579
  {
    DecryptOfAdd(keys, 123, 456, r1, r2);
    ModUnique(579, keys.pub.n, 0, 579);
  }

  /** The multiply scenario: 123 encrypted and scaled by 456 decrypts to 56088 whenever n exceeds 56088. */
  lemma MultiplyScenario(keys: KeyPair, r: int, r0: int)
    requires DecryptableKeys(keys) && BlindingVanishes(keys, r) && BlindingVanishes(keys, r0)
    requires keys.pub.n > 56088
    ensures Decrypt(keys, Multiply(keys.pub, Encrypt(keys.pub, 123, r), 456, r0)) == 56088
  {
    DecryptOfMultiply(keys, 123, 456, r, r0);
    ModUnique(56088, keys.pub.n, 0, 56088);
  }

  // ---------------------------------------------------------------------
  // Where the key facts come from

  /** The generator is an encryption of alpha under the standard generator n + 1, with nonce beta. */
  lemma GeneratorIsEncryptionOfAlpha(n: int, alpha: nat, beta: int)
    requires n >= 1
    ensures GenerateGenerator(n, alpha, beta) == Encrypt(PublicKey(n, n * n, n + 1), alpha, beta)
  {
    var N := n * n;
    var b := Pow(beta, n);
    var g := GenerateGenerator(n, alpha, beta);
    ModUnique(g, N, 0, g);
    OnePlusMultiplePow(1, n, alpha);
    assert 1 + 1 * n == n + 1 && alpha * 1 * n + 1 == 1 + alpha * 1 * n;
    CongruentFactor(b, Pow(n + 1, alpha), alpha * n + 1, N);
    assert b * Pow(n + 1, alpha) == Pow(n + 1, alpha) * b;
    assert b * (alpha * n + 1) == (alpha * n + 1) * b;
  }

  /** x mod n^2, reduced further modulo n, is x mod n. */
  lemma ResidueOfResidue(x: int, n: int)
    requires n >= 1
    ensures (x % (n * n)) % n == x % n
  {
    var N := n * n;
    assert x == (x / N) * N + x % N;
    assert (x / N) * N == ((x / N) * n) * n;
    ModAddMultiple(x % N, (x / N) * n, n);
  }

  /** For the generated g, g^lambda = 1 modulo n once beta's blinding vanishes. */
  lemma GeneratorLiftsToOne(n: int, lambda: nat, alpha: nat, beta: int)
    requires n >= 2 && ModPow(beta, n * lambda, n * n) == 1
    ensures ModPow(GenerateGenerator(n, alpha, beta), lambda, n * n) % n == 1
  {
    var N := n * n;
    var keys := KeyPair(PublicKey(n, N, n + 1), PrivateKey(lambda, 0));
    GeneratorIsEncryptionOfAlpha(n, alpha, beta);
    LiftedCiphertext(keys, alpha, beta);
    var u := ModPow(n + 1, lambda, N);
    StandardGeneratorLift(n, lambda);
    LiftStaysOne(n, u, alpha);
  }

  /** (n + 1)^lambda mod n^2 is 1 modulo n. */
  lemma StandardGeneratorLift(n: int, lambda: nat)
    requires n >= 2
    ensures ModPow(n + 1, lambda, n * n) % n == 1
  {
    OneMod(n);
    ModPowIsPowMod(n + 1, lambda, n * n);
    OnePlusMultiplePow(1, n, lambda);
    assert 1 + 1 * n == n + 1;
    ResidueOfResidue(Pow(n + 1, lambda), n);
    ResidueOfResidue(1 + lambda * 1 * n, n);
    assert 1 + lambda * 1 * n == 1 + lambda * n;
    ModAddMultiple(1, lambda, n);
  }

  /** A power of a u that is 1 modulo n, reduced modulo n^2, is still 1 modulo n. */
  lemma LiftStaysOne(n: int, u: int, e: nat)
    requires n >= 2 && u % n == 1
    ensures ModPow(u, e, n * n) % n == 1
  {
    OneMod(n);
    ModPowIsPowMod(u, e, n * n);
    ResidueOfResidue(Pow(u, e), n);
    PowMod(u, e, n);
    PowOfOne(e);
  }

  /**
   * Keys getKeys derives from a generated g satisfy the key facts, given
   * only that beta's blinding vanishes.
   */
  lemma GeneratedKeysAreDecryptable(p: int, q: int, n: int, alpha: nat, beta: int)
    requires n >= 2
    requires GetKeys(p, q, n, GenerateGenerator(n, alpha, beta)).Success?
    requires ModPow(beta, n * Lcm(p - 1, q - 1), n * n) == 1
    ensures DecryptableKeys(GetKeys(p, q, n, GenerateGenerator(n, alpha, beta)).value)
  {
    GeneratorLiftsToOne(n, Lcm(p - 1, q - 1), alpha, beta);
  }

  // ---------------------------------------------------------------------
  // Special cases of multiply and of the nonce range

  /** multiply by 0 answers the blinding r0^n mod n2; it is the naive answer 1 exactly when that blinding is 1. */
  lemma MultiplyByZero(pk: PublicKey, c: int, r0: int)
    requires pk.n2 > 1 && pk.n >= 0
    ensures Multiply(pk, c, 0, r0) == Pow(r0, pk.n) % pk.n2
    ensures Multiply(pk, c, 0, r0) == 1 <==> Pow(r0, pk.n) % pk.n2 == 1
  {
    var d := Multiply(pk, c, 0, r0);
    ModUnique(d, pk.n2, 0, d);
  }

  /**
   * multiply by 1 answers the naive c exactly when the blinding r0^n is 1
   * modulo n2, for a ciphertext c invertible modulo n2.
   */
  lemma MultiplyByOne(pk: PublicKey, c: int, r0: int)
    requires pk.n2 > 1 && pk.n >= 0 && 0 <= c < pk.n2 && Gcd(c, pk.n2) == 1
    ensures Multiply(pk, c, 1, r0) == c <==> Pow(r0, pk.n) % pk.n2 == 1
  {
    MultiplyByOneBlinds(pk, c, r0);
    UnitFactor(c, Pow(r0, pk.n) % pk.n2, pk.n2);
  }

  lemma MultiplyByOneBlinds(pk: PublicKey, c: int, r0: int)
    requires pk.n2 > 1 && pk.n >= 0 && 0 <= c < pk.n2
    ensures Multiply(pk, c, 1, r0) == (c * (Pow(r0, pk.n) % pk.n2)) % pk.n2
  {
    var N, b := pk.n2, Pow(r0, pk.n);
    var d := Multiply(pk, c, 1, r0);
    assert Pow(c, 1) == c * Pow(c, 0);
    ModUnique(d, N, 0, d);
    ModMod(b, N);
    CongruentFactor(c, b, b % N, N);
  }

  /** For c invertible modulo N and z in [0, N): c * z = c modulo N exactly when z = 1. */
  lemma UnitFactor(c: int, z: int, N: int)
    requires N > 1 && 0 <= c < N && 0 <= z < N && Gcd(c, N) == 1
    ensures (c * z) % N == c <==> z == 1
  {
    OneMod(N);
    ModUnique(c, N, 0, c);
    if z == 1 {
      assert c * z == c;
    } else if (c * z) % N == c {
      CancelUnit(c, z, N);
    }
  }

  lemma CancelUnit(c: int, z: int, N: int)
    requires N > 1 && 0 <= c < N && 0 <= z < N && Gcd(c, N) == 1 && (c * z) % N == c
    ensures z == 1
  {
    OneMod(N);
    ModUnique(c, N, 0, c);
    CancelByInverse(c, z, ModInv(c, N).value, N);
  }

  lemma CancelByInverse(c: int, z: int, v: int, N: int)
    requires N > 1 && 0 <= z < N && c % N == c && (c * z) % N == c && (c * v) % N == 1
    ensures z == 1
  {
    ScaleByOne(z, c * v, N);
    CongruentFactor(v, c * z, c, N);
    MulSwap(z, c, v);
    assert v * c == c * v;
  }

  /** Multiplying a residue z by a w that is 1 modulo N leaves z. */
  lemma ScaleByOne(z: int, w: int, N: int)
    requires N > 1 && 0 <= z < N && w % N == 1
    ensures (z * w) % N == z
  {
    CongruentFactor(z, w, 1, N);
    ModUnique(z, N, 0, z);
  }

  lemma MulSwap(z: int, c: int, v: int)
    ensures z * (c * v) == v * (c * z)
  {
  }

  /** randBetween(n) can draw 1; with that nonce multiply by 0 answers 1 and multiply by 1 answers c. */
  lemma UnitNonceGivesNaiveAnswers(pk: PublicKey, c: int)
    requires pk.n2 > 1 && pk.n >= 0 && 0 <= c < pk.n2
    ensures Multiply(pk, c, 0, 1) == 1
    ensures Multiply(pk, c, 1, 1) == c
  {
    PowOfOne(pk.n);
    OneMod(pk.n2);
    MultiplyByZero(pk, c, 1);
    var d := Multiply(pk, c, 1, 1);
    ModUnique(d, pk.n2, 0, d);
    ModUnique(c, pk.n2, 0, c);
  }

  /** randBetween(n) can draw n itself; that nonce turns every encryption into 0. */
  lemma ModulusNonceGivesZero(pk: PublicKey, m: nat)
    requires pk.n >= 2 && pk.n2 == pk.n * pk.n
    ensures Encrypt(pk, m, pk.n) == 0
  {
    var n, N := pk.n, pk.n2;
    PowAdd(n, 2, n - 2);
    assert Pow(n, 2) == N by {
      assert Pow(n, 1) == n * Pow(n, 0);
    }
    assert Pow(pk.g, m) * Pow(n, n) == (Pow(pk.g, m) * Pow(n, n - 2)) * N;
    ModOfMultiple(Pow(pk.g, m) * Pow(n, n - 2), N);
  }

  /** 0 decrypts to 0 under every key with a positive lambda. */
  lemma ZeroDecryptsToZero(keys: KeyPair)
    requires keys.pub.n >= 2 && keys.pub.n2 == keys.pub.n * keys.pub.n
    requires keys.priv.lambda >= 1
    ensures Decrypt(keys, 0) == 0
  {
    var n, N, lambda := keys.pub.n, keys.pub.n2, keys.priv.lambda;
    ModPowIsPowMod(0, lambda, N);
    assert Pow(0, lambda) == 0 * Pow(0, lambda - 1);
    var l := ComputeDecryptionShift(n, 0);
    SmallProduct(Abs(l), n);
  }

  /** So the nonce n loses the plaintext: decrypt(enc(m, n)) is 0 for every m. */
  lemma ModulusNonceLosesPlainText(keys: KeyPair, m: nat)
    requires DecryptableKeys(keys) && keys.priv.lambda >= 1
    ensures Decrypt(keys, Encrypt(keys.pub, m, keys.pub.n)) == 0
  {
    ModulusNonceGivesZero(keys.pub, m);
    ZeroDecryptsToZero(keys);
  }

  /**
   * The nonce n is exactly the kind the round trip excludes: its blinding
   * never vanishes, so DecryptOfEncrypt does not apply to it.
   */
  lemma ModulusNonceDoesNotVanish(keys: KeyPair)
    requires keys.pub.n >= 2 && keys.pub.n2 == keys.pub.n * keys.pub.n
    requires keys.priv.lambda >= 1
    ensures !BlindingVanishes(keys, keys.pub.n)
  {
    var n, N, lambda := keys.pub.n, keys.pub.n2, keys.priv.lambda;
    MulAtLeast(lambda, n);
    ModPowIsPowMod(n, n * lambda, N);
    PowerOfModulus(n, n * lambda);
  }

  /** n^e is a multiple of n^2 once e >= 2. */
  lemma PowerOfModulus(n: int, e: nat)
    requires n >= 2 && e >= 2
    ensures Pow(n, e) % (n * n) == 0
  {
    var t, N := Pow(n, e - 2), n * n;
    PowAdd(n, 2, e - 2);
    assert 2 + (e - 2) == e;
    assert Pow(n, 2) == N by {
      assert Pow(n, 1) == n;
    }
    assert Pow(n, e) == N * t;
    assert N * t == t * N;
    ModOfMultiple(t, N);
  }
}
