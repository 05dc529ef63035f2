/**
 * The PallierEncryption object of src/pallier.ts: the key fields that getKeys
 * and generateKeysSync fill in, the isInitialized flag the constructor sets,
 * and the operators that refuse to run before that flag is set.
 */
module Engine {
  import opened Wrappers
  import opened Numbers
  import P = Paillier

  /** What encrypt, decrypt and multiply throw before key generation has finished. */
  datatype UsageError = KeysNotGenerated

  class PallierEncryption {
    var pub: Option<P.PublicKey>
    var priv: Option<P.PrivateKey>
    var p: Option<nat>
    var q: Option<nat>
    var isInitialized: bool

    /**
     * new PallierEncryption(): generateKeysSync at the default bit length on
     * the supplied draws; the object is initialized exactly when that
     * produced a key pair, and then holds it.
     */
    constructor (draws: seq<P.Draw>)
      ensures isInitialized <==> P.GenerateKeys(P.DefaultBitLength, draws).Success?
      ensures isInitialized ==>
        var gen := P.GenerateKeys(P.DefaultBitLength, draws).value;
        && pub == Some(gen.keys.pub) && priv == Some(gen.keys.priv)
        && p == Some(gen.p) && q == Some(gen.q)
      ensures !isInitialized ==> pub.None? && priv.None?
    {
      pub, priv, p, q := None, None, None, None;
      isInitialized := false;
      new;
      var res := GenerateKeysSync(P.DefaultBitLength, draws);
      isInitialized := res.Success?;
    }

    /** encrypt: refuses before initialization, otherwise the ciphertext for nonce r. */
    function Encrypt(pk: P.PublicKey, plainText: nat, r: int): (c: Result<int, UsageError>)
      reads this
      requires pk.n2 > 0 && pk.n >= 0
      ensures c.Failure? <==> !isInitialized
      ensures c.Success? ==> c.value == P.Encrypt(pk, plainText, r) && 0 <= c.value < pk.n2
    {
      if !isInitialized then Failure(KeysNotGenerated)
      else Success(P.Encrypt(pk, plainText, r))
    }

    /** decrypt: refuses before initialization, otherwise the plaintext residue. */
    function Decrypt(keys: P.KeyPair, cipherText: int): (m: Result<int, UsageError>)
      reads this
      requires keys.pub.n != 0 && keys.pub.n2 > 0 && keys.priv.lambda >= 0
      ensures m.Failure? <==> !isInitialized
      ensures m.Success? ==> m.value == P.Decrypt(keys, cipherText)
      ensures m.Success? && keys.pub.n > 0 && keys.priv.mu >= 0 ==> 0 <= m.value < keys.pub.n
    {
      if !isInitialized then Failure(KeysNotGenerated)
      else Success(P.Decrypt(keys, cipherText))
    }

    /**
     * multiply: refuses before initialization (also for the scalars 0 and 1,
     * whose fresh encryption of 0 would refuse too), otherwise the scaled
     * ciphertext for nonce r.
     */
    function Multiply(pk: P.PublicKey, cipherText: int, plainText: nat, r: int): (d: Result<int, UsageError>)
      reads this
      requires pk.n2 > 0 && pk.n >= 0
      ensures d.Failure? <==> !isInitialized
      ensures d.Success? ==> d.value == P.Multiply(pk, cipherText, plainText, r)
      ensures d.Success? && (plainText != 1 || cipherText >= 0) ==> 0 <= d.value < pk.n2
    {
      if !isInitialized then Failure(KeysNotGenerated)
      else Success(P.Multiply(pk, cipherText, plainText, r))
    }

    /**
     * getKeys: derives the key pair and stores it in pub and priv; when the
     * decryption coefficient is missing (or the modulus is refused) it fails
     * and leaves the object as it was.
     */
    method GetKeys(p: int, q: int, n: int, g: int) returns (res: Result<P.KeyPair, P.KeyError>)
      modifies this
      ensures res == P.GetKeys(p, q, n, g)
      ensures res.Success? ==> pub == Some(res.value.pub) && priv == Some(res.value.priv)
      ensures res.Failure? ==> pub == old(pub) && priv == old(priv)
      ensures this.p == old(this.p) && this.q == old(this.q) && isInitialized == old(isInitialized)
    {
      if n <= 0 {
        return Failure(P.ModulusOutOfRange);
      }
      var lambda := P.CalculateLambda(p, q);
      var mu := P.CalculateDecryptionCoefficient(g, lambda, n);
      if mu.None? || mu.value == 0 {
        return Failure(P.MuDoesNotExist);
      }
      pub := Some(P.PublicKey(n, n * n, g));
      priv := Some(P.PrivateKey(lambda, mu.value));
      res := Success(P.KeyPair(pub.value, priv.value));
    }

    /**
     * One attempt of generateKeysSync: record the candidates in p and q, check
     * them, and derive keys from them; the decision is the one Attempt
     * specifies, and getKeys has stored the keys when it is to stop.
     */
    method TryDraw(bitLength: int, d: P.Draw) returns (step: P.Step)
      requires bitLength >= 2
      modifies this
      ensures step == P.Attempt(bitLength, d)
      ensures p == Some(d.p) && q == Some(d.q) && isInitialized == old(isInitialized)
      ensures step.Stop? ==> pub == Some(step.outcome.value.keys.pub) && priv == Some(step.outcome.value.keys.priv)
      ensures step.Retry? ==> pub == old(pub) && priv == old(priv)
    {
      p, q := Some(d.p), Some(d.q);
      var n := d.p * d.q;
      if d.p == d.q || BitLength(n) != bitLength {
        return P.Retry;
      }
      var g := P.GenerateGenerator(n, d.alpha, d.beta);
      var keys := GetKeys(d.p, d.q, n, g);
      if keys.Success? {
        return P.Stop(Success(P.Generated(keys.value, d.p, d.q)));
      }
      // The size check leaves n >= 1, so getKeys cannot refuse the modulus:
      // the rethrow of any other error is unreachable, and a missing mu retries.
      assert keys.error == P.MuDoesNotExist;
      step := P.Retry;
    }

    /**
     * generateKeysSync over a finite supply of draws: attempts are made in
     * order until one does not ask for a retry; the result is the one
     * GenerateKeys specifies, and the object holds its keys and primes.
     */
    method GenerateKeysSync(bitLength: int, draws: seq<P.Draw>) returns (res: Result<P.KeyPair, P.KeyError>)
      requires bitLength >= 2
      modifies this
      ensures res.Success? <==> P.GenerateKeys(bitLength, draws).Success?
      ensures res.Success? ==>
        var gen := P.GenerateKeys(bitLength, draws).value;
        && res.value == gen.keys
        && pub == Some(gen.keys.pub) && priv == Some(gen.keys.priv)
        && p == Some(gen.p) && q == Some(gen.q)
      ensures res.Failure? ==> res.error == P.RetriesExhausted && pub == old(pub) && priv == old(priv)
      ensures res.Failure? && |draws| > 0 ==> p == Some(draws[|draws| - 1].p) && q == Some(draws[|draws| - 1].q)
      ensures |draws| == 0 ==> p == old(p) && q == old(q)
      ensures isInitialized == old(isInitialized)
    {
      var i := 0;
      while i < |draws|
        invariant 0 <= i <= |draws|
        invariant P.GenerateKeys(bitLength, draws) == P.GenerateKeys(bitLength, draws[i..])
        invariant pub == old(pub) && priv == old(priv) && isInitialized == old(isInitialized)
        invariant i == 0 ==> p == old(p) && q == old(q)
        invariant i > 0 ==> p == Some(draws[i - 1].p) && q == Some(draws[i - 1].q)
      {
        P.GenerateKeysAt(bitLength, draws, i);
        var step := TryDraw(bitLength, draws[i]);
        if step.Stop? {
          return Success(step.outcome.value.keys);
        }
        i := i + 1;
      }
      res := Failure(P.RetriesExhausted);
    }
  }
}
