/**
 * The Paillier cryptosystem as src/pallier.ts computes it: the key records,
 * the closed-form bodies of encrypt, decrypt, add and multiply, the key
 * derivation of getKeys, the generator construction, and the retry rule of
 * key generation.
 *
 * Every random draw of the source (the encryption nonce, the two generator
 * draws, the prime candidates) is a parameter here, so each function is the
 * value the source computes for that draw. BigInt `/` and `%` are the
 * truncating JsDiv and JsRem.
 */
module Paillier {
  import opened Arith
  import opened Numbers
  import opened Wrappers

  datatype PublicKey = PublicKey(n: int, n2: int, g: int)

  datatype PrivateKey = PrivateKey(lambda: int, mu: int)

  datatype KeyPair = KeyPair(pub: PublicKey, priv: PrivateKey)

  /** What key derivation and key generation can fail with. */
  datatype KeyError =
    | MuDoesNotExist        // getKeys: the decryption coefficient is absent or 0
    | ModulusOutOfRange     // the library refuses a modulus n <= 0 (RangeError)
    | RetriesExhausted      // every supplied candidate draw was rejected

  /** The bit length the constructor asks for. */
  const DefaultBitLength := 3072

  // ---------------------------------------------------------------------
  // Cipher and homomorphic operators

  /**
   * encrypt: g^m * r^n mod n2, for the nonce r that randBetween(n) drew.
   * The result is the plain power product reduced modulo n2.
   */
  function Encrypt(pk: PublicKey, plainText: nat, r: int): (c: int)
    requires pk.n2 > 0 && pk.n >= 0
    ensures 0 <= c < pk.n2
    ensures c == (Pow(pk.g, plainText) * Pow(r, pk.n)) % pk.n2
  {
    var a, b := ModPow(pk.g, plainText, pk.n2), ModPow(r, pk.n, pk.n2);
    ModPowIsPowMod(pk.g, plainText, pk.n2);
    ModPowIsPowMod(r, pk.n, pk.n2);
    MulMod(Pow(pk.g, plainText), Pow(r, pk.n), pk.n2);
    MulLe(0, a, 0, b);
    JsRem(a * b, pk.n2)
  }

  /** The decryption shift L(x) = (x - 1) / n, with BigInt's truncating division. */
  function ComputeDecryptionShift(n: int, x: int): (l: int)
    requires n != 0
    ensures n > 0 && x >= 1 ==> l >= 0 && l * n + 1 <= x < (l + 1) * n + 1
    ensures n > 0 && x >= 1 && x % n == 1 % n ==> l * n + 1 == x
    ensures n > 1 && x >= 0 ==> l >= 0
  {
    if n > 0 && x >= 1 then
      ShiftOfPositive(n, x);
      JsDiv(x - 1, n)
    else
      if n > 1 && x == 0 then
        SmallProduct(Abs(JsDiv(x - 1, n)), n);
        JsDiv(x - 1, n)
      else
        JsDiv(x - 1, n)
  }

  lemma SmallProduct(a: nat, n: int)
    requires n >= 2 && a * n <= 1
    ensures a == 0
  {
    assert a * n == a * (n - 2) + 2 * a;
  }

  lemma ShiftOfPositive(n: int, x: int)
    requires n > 0 && x >= 1
    ensures JsDiv(x - 1, n) == (x - 1) / n
    ensures (x - 1) / n * n + 1 <= x < ((x - 1) / n + 1) * n + 1
    ensures x % n == 1 % n ==> (x - 1) / n * n + 1 == x
  {
    DivBounds(x - 1, n);
    if x % n == 1 % n {
      ExactShift(n, x);
    }
  }

  lemma ExactShift(n: int, x: int)
    requires n > 0 && x >= 1 && x % n == 1 % n
    ensures (x - 1) % n == 0
  {
    OneMod(n);
    AddMod(x - 1, 1, n);
    if n > 1 {
      ModUnique((x - 1) % n + 1, n, 0, (x - 1) % n + 1);
    }
  }

  /**
   * decrypt: L(c^lambda mod n2) * mu mod n. The result is a residue
   * modulo n whenever n and mu are the positive and non-negative values
   * key derivation produces.
   */
  function Decrypt(keys: KeyPair, cipherText: int): (m: int)
    requires keys.pub.n != 0 && keys.pub.n2 > 0 && keys.priv.lambda >= 0
    ensures keys.pub.n > 0 && keys.priv.mu >= 0 ==> 0 <= m < keys.pub.n
  {
    var n := keys.pub.n;
    var x := ModPow(cipherText, keys.priv.lambda, keys.pub.n2);
    var l := ComputeDecryptionShift(n, x);
    JsRem(l * keys.priv.mu, n)
  }

  /** add: the product of two ciphertexts modulo n2. */
  function Add(pk: PublicKey, a: int, b: int): (s: int)
    requires pk.n2 != 0
    ensures s % Abs(pk.n2) == (a * b) % Abs(pk.n2)
    ensures a * b >= 0 ==> 0 <= s < Abs(pk.n2)
  {
    JsRemMod(a * b, pk.n2);
    JsRem(a * b, pk.n2)
  }

  /**
   * multiply: the ciphertext raised to the scalar modulo n2, except that the
   * scalars 0 and 1 are answered with a fresh encryption of 0 (nonce r), added
   * in for 1, so that neither answer is the bare power 1 or c.
   */
  function Multiply(pk: PublicKey, cipherText: int, plainText: nat, r: int): (d: int)
    requires pk.n2 > 0 && pk.n >= 0
    ensures plainText >= 2 ==> d == Pow(cipherText, plainText) % pk.n2
    ensures plainText <= 1 ==> d % pk.n2 == (Pow(cipherText, plainText) * Pow(r, pk.n)) % pk.n2
    ensures plainText != 1 || cipherText >= 0 ==> 0 <= d < pk.n2
  {
    if plainText == 0 then
      var z := Encrypt(pk, 0, r);
      ModMod(Pow(r, pk.n), pk.n2);
      z
    else if plainText == 1 then
      var z := Encrypt(pk, 0, r);
      var d := Add(pk, cipherText, z);
      MulMod(cipherText, Pow(r, pk.n), pk.n2);
      ModMod(Pow(r, pk.n), pk.n2);
      MulMod(cipherText, z, pk.n2);
      d
    else
      ModPowIsPowMod(cipherText, plainText, pk.n2);
      ModPow(cipherText, plainText, pk.n2)
  }

  // ---------------------------------------------------------------------
  // Key derivation

  /** calculateLambda: lcm(p - 1, q - 1). */
  function CalculateLambda(p: int, q: int): (lambda: nat)
    ensures lambda == 0 <==> p == 1 || q == 1
    ensures p != 1 && q != 1 ==> Divides(Abs(p - 1), lambda) && Divides(Abs(q - 1), lambda)
  {
    LcmIsCommonMultiple(p - 1, q - 1);
    Lcm(p - 1, q - 1)
  }

  /** lambda divides every common multiple of p - 1 and q - 1, so it is the least one. */
  lemma LambdaIsLeast(p: int, q: int, c: int)
    requires p != 1 && q != 1
    requires Divides(Abs(p - 1), c) && Divides(Abs(q - 1), c)
    ensures Divides(CalculateLambda(p, q), c)
  {
    LcmIsLeast(p - 1, q - 1, c);
  }

  /**
   * calculateDecryptionCoefficient: the inverse of L(g^lambda mod n2)
   * modulo n, or None when it has none.
   */
  function CalculateDecryptionCoefficient(g: int, lambda: nat, n: int): (mu: Option<int>)
    requires n > 0
    ensures var l := ComputeDecryptionShift(n, ModPow(g, lambda, n * n));
      && (mu.Some? <==> Gcd(l % n, n) == 1)
      && (mu.Some? ==> 0 <= mu.value < n && (l * mu.value) % n == 1 % n)
  {
    ModInv(ComputeDecryptionShift(n, ModPow(g, lambda, n * n)), n)
  }

  /** The coefficient is absent or 0 exactly when n is 1 or the shift is not invertible. */
  lemma CoefficientMissingOrZero(g: int, lambda: nat, n: int)
    requires n > 0
    ensures var mu := CalculateDecryptionCoefficient(g, lambda, n);
      var l := ComputeDecryptionShift(n, ModPow(g, lambda, n * n));
      && ((mu.None? || mu.value == 0) <==> (n == 1 || Gcd(l % n, n) != 1))
      && (mu.Some? && mu.value != 0 ==> 0 < mu.value < n && (l * mu.value) % n == 1)
  {
    var mu := CalculateDecryptionCoefficient(g, lambda, n);
    var l := ComputeDecryptionShift(n, ModPow(g, lambda, n * n));
    OneMod(n);
    if n == 1 {
      assert l % n == 0;
      assert Gcd(0, 1) == 1;
    } else if mu.Some? {
      InverseIsNonZero(l, mu.value, n);
    }
  }

  lemma InverseIsNonZero(l: int, v: int, n: int)
    requires n > 1 && (l * v) % n == 1 % n
    ensures v != 0
  {
    OneMod(n);
    assert l * 0 == 0;
  }

  /**
   * getKeys: the key pair for primes p, q, modulus n and generator g.
   * It fails with MuDoesNotExist exactly when L(g^lambda mod n2) has no
   * non-zero inverse modulo n.
   */
  function GetKeys(p: int, q: int, n: int, g: int): (r: Result<KeyPair, KeyError>)
    ensures r.Failure? ==> r.error == ModulusOutOfRange || r.error == MuDoesNotExist
    ensures r == Failure(ModulusOutOfRange) <==> n <= 0
    ensures r == Failure(MuDoesNotExist) <==>
      n > 0 && (n == 1 || Gcd(ComputeDecryptionShift(n, ModPow(g, Lcm(p - 1, q - 1), n * n)) % n, n) != 1)
    ensures r.Success? ==>
      && r.value.pub == PublicKey(n, n * n, g)
      && r.value.priv.lambda == Lcm(p - 1, q - 1)
      && 0 < r.value.priv.mu < n
      && (ComputeDecryptionShift(n, ModPow(g, r.value.priv.lambda, n * n)) * r.value.priv.mu) % n == 1
  {
    if n <= 0 then Failure(ModulusOutOfRange)
    else
      var n2 := n * n;
      var lambda := CalculateLambda(p, q);
      var mu := CalculateDecryptionCoefficient(g, lambda, n);
      CoefficientMissingOrZero(g, lambda, n);
      if mu.None? || mu.value == 0 then Failure(MuDoesNotExist)
      else Success(KeyPair(PublicKey(n, n2, g), PrivateKey(lambda, mu.value)))
  }

  /**
   * generateGenerator: ((alpha * n + 1) * beta^n mod n2) mod n2 for the two
   * values randBetween(n) drew.
   */
  function GenerateGenerator(n: int, alpha: int, beta: int): (g: int)
    requires n > 0
    ensures alpha >= 0 ==> 0 <= g < n * n
    ensures g % (n * n) == ((alpha * n + 1) * Pow(beta, n)) % (n * n)
  {
    var n2 := n * n;
    var b := ModPow(beta, n, n2);
    GeneratorCongruence(n, alpha, beta);
    if alpha >= 0 then
      assert alpha * n + 1 >= 1;
      MulLe(0, alpha * n + 1, 0, b);
      JsRem((alpha * n + 1) * b, n2)
    else
      JsRem((alpha * n + 1) * b, n2)
  }

  lemma GeneratorCongruence(n: int, alpha: int, beta: int)
    requires n > 0
    ensures JsRem((alpha * n + 1) * ModPow(beta, n, n * n), n * n) % (n * n)
         == ((alpha * n + 1) * Pow(beta, n)) % (n * n)
  {
    var n2 := n * n;
    var b := ModPow(beta, n, n2);
    var a := alpha * n + 1;
    JsRemMod(a * b, n2);
    ModPowIsPowMod(beta, n, n2);
    MulMod(a, Pow(beta, n), n2);
    MulMod(a, b, n2);
    ModMod(Pow(beta, n), n2);
  }

  // ---------------------------------------------------------------------
  // Key generation

  /**
   * One attempt's worth of randomness: the candidates primeSync returned for
   * p (asked for bitLength / 2 + 1 bits) and q (bitLength / 2 bits), and the
   * two draws of generateGenerator.
   */
  datatype Draw = Draw(p: nat, q: nat, alpha: int, beta: int)

  /** A generated key pair together with the primes it was derived from. */
  datatype Generated = Generated(keys: KeyPair, p: nat, q: nat)

  /** What one attempt of generateKeysSync decides: try again, or return. */
  datatype Step = Retry | Stop(outcome: Result<Generated, KeyError>)

  /** The bit lengths generateKeysSync asks primeSync for, for p and for q. */
  function PrimeBitLengths(bitLength: nat): (sizes: (nat, nat))
    ensures sizes.0 == sizes.1 + 1
    ensures sizes.0 + sizes.1 == bitLength || sizes.0 + sizes.1 == bitLength + 1
  {
    (bitLength / 2 + 1, bitLength / 2)
  }

  /**
   * Primes of the requested sizes give a modulus of bitLength bits or one bit
   * off it, on the side the parity of bitLength decides; the size check of
   * generateKeysSync rejects the latter.
   */
  lemma RequestedSizesNearlyFit(bitLength: nat, p: nat, q: nat)
    requires p > 0 && q > 0
    requires BitLength(p) == PrimeBitLengths(bitLength).0 && BitLength(q) == PrimeBitLengths(bitLength).1
    ensures BitLength(p * q) == bitLength
         || BitLength(p * q) == if bitLength % 2 == 0 then bitLength + 1 else bitLength - 1
  {
    ProductBitLength(p, q);
  }

  /** One attempt of generateKeysSync on the draw d. */
  function Attempt(bitLength: int, d: Draw): (s: Step)
    requires bitLength >= 1
    ensures s == Retry <==>
      || d.p == d.q
      || BitLength(d.p * d.q) != bitLength
      || GetKeys(d.p, d.q, d.p * d.q, GenerateGenerator(d.p * d.q, d.alpha, d.beta)) == Failure(MuDoesNotExist)
    ensures s.Stop? ==> s.outcome.Success?
    ensures s.Stop? && s.outcome.Success? ==>
      && s.outcome.value.p == d.p && s.outcome.value.q == d.q
      && s.outcome.value.keys.pub.g == GenerateGenerator(d.p * d.q, d.alpha, d.beta)
      && SoundKeys(bitLength, s.outcome.value)
  {
    var n := d.p * d.q;
    if d.p == d.q || BitLength(n) != bitLength then Retry
    else
      var g := GenerateGenerator(n, d.alpha, d.beta);
      match GetKeys(d.p, d.q, n, g)
      case Failure(MuDoesNotExist) => Retry
      case Failure(e) => Stop(Failure(e))
      case Success(keys) => Stop(Success(Generated(keys, d.p, d.q)))
  }

  /** The key pair has the form generateKeysSync promises for bitLength. */
  ghost predicate SoundKeys(bitLength: int, r: Generated)
  {
    var n := r.p * r.q;
    && r.p != r.q
    && BitLength(n) == bitLength
    && r.keys.pub.n == n
    && r.keys.pub.n2 == n * n
    && r.keys.priv.lambda == Lcm(r.p - 1, r.q - 1)
    && 0 < r.keys.priv.mu < n
    && (ComputeDecryptionShift(n, ModPow(r.keys.pub.g, r.keys.priv.lambda, n * n)) * r.keys.priv.mu) % n == 1
  }

  /**
   * generateKeysSync over a finite supply of draws: the first attempt that
   * does not ask for a retry decides. Only running out of draws fails, and
   * whatever is returned is sound.
   */
  function GenerateKeys(bitLength: int, draws: seq<Draw>): (r: Result<Generated, KeyError>)
    requires bitLength >= 1
    ensures r.Failure? ==> r.error == RetriesExhausted
    ensures r.Success? ==> SoundKeys(bitLength, r.value)
    ensures r.Success? ==> exists d :: d in draws && d.p == r.value.p && d.q == r.value.q
    decreases |draws|
  {
    if |draws| == 0 then Failure(RetriesExhausted)
    else
      match Attempt(bitLength, draws[0])
      case Retry => GenerateKeys(bitLength, draws[1..])
      case Stop(o) => o
  }

  /**
   * The retry rule of generateKeysSync: generation fails exactly when every
   * draw asks for a retry, and otherwise returns what the first draw that does
   * not ask for one produced.
   */
  lemma {:induction false} FirstAcceptedDrawDecides(bitLength: int, draws: seq<Draw>)
    requires bitLength >= 1
    ensures GenerateKeys(bitLength, draws).Failure? <==>
      forall i | 0 <= i < |draws| :: Attempt(bitLength, draws[i]).Retry?
    ensures GenerateKeys(bitLength, draws).Success? ==>
      exists i | 0 <= i < |draws| ::
        && Attempt(bitLength, draws[i]) == Stop(GenerateKeys(bitLength, draws))
        && forall j | 0 <= j < i :: Attempt(bitLength, draws[j]).Retry?
  {
    FailsOnlyWhenAllRetry(bitLength, draws);
    if GenerateKeys(bitLength, draws).Success? {
      var i := FirstAcceptedDraw(bitLength, draws);
    }
  }

  lemma {:induction false} FailsOnlyWhenAllRetry(bitLength: int, draws: seq<Draw>)
    requires bitLength >= 1
    ensures GenerateKeys(bitLength, draws).Failure? <==>
      forall i | 0 <= i < |draws| :: Attempt(bitLength, draws[i]).Retry?
    decreases |draws|
  {
    if |draws| > 0 {
      var rest := draws[1..];
      FailsOnlyWhenAllRetry(bitLength, rest);
      if Attempt(bitLength, draws[0]).Retry? {
        assert GenerateKeys(bitLength, draws) == GenerateKeys(bitLength, rest);
        assert forall i | 1 <= i < |draws| :: draws[i] == rest[i - 1];
      }
    }
  }

  /** The position of the draw that decided a successful generation. */
  lemma {:induction false} FirstAcceptedDraw(bitLength: int, draws: seq<Draw>) returns (i: nat)
    requires bitLength >= 1 && GenerateKeys(bitLength, draws).Success?
    ensures i < |draws| && Attempt(bitLength, draws[i]) == Stop(GenerateKeys(bitLength, draws))
    ensures forall j | 0 <= j < i :: Attempt(bitLength, draws[j]).Retry?
    decreases |draws|
  {
    var rest := draws[1..];
    if Attempt(bitLength, draws[0]).Retry? {
      assert GenerateKeys(bitLength, draws) == GenerateKeys(bitLength, rest);
      var k := FirstAcceptedDraw(bitLength, rest);
      assert forall j | 1 <= j < |draws| :: draws[j] == rest[j - 1];
      i := k + 1;
    } else {
      i := 0;
    }
  }

  /** Unfolding GenerateKeys at position i of the draws. */
  lemma GenerateKeysAt(bitLength: int, draws: seq<Draw>, i: nat)
    requires bitLength >= 1 && i < |draws|
    ensures GenerateKeys(bitLength, draws[i..]) ==
      match Attempt(bitLength, draws[i])
      case Retry => GenerateKeys(bitLength, draws[i + 1..])
      case Stop(o) => o
  {
    assert draws[i..][0] == draws[i];
    assert draws[i..][1..] == draws[i + 1..];
  }
}
