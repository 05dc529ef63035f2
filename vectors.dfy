/**
 * The fixed values the source's tests check, evaluated on the model: the
 * decryption shift for n = 15, the decryption coefficient and the key pair for
 * p = 17, q = 19, n = 323, g = 848.
 */
module Vectors {
  import opened Arith
  import opened Numbers
  import opened Wrappers
  import opened Paillier

  /** L(136) for n = 15 is 9. */
  lemma ShiftExample()
    ensures ComputeDecryptionShift(15, 136) == 9
  {
    ModUnique(135, 15, 9, 0);
  }

  /** lambda for p = 17, q = 19 is lcm(16, 18) = 144. */
  lemma LambdaExample()
    ensures CalculateLambda(17, 19) == 144
  {
    assert Gcd(16, 18) == 2;
  }

  /** One squaring step of ModPow at an even exponent, given the quotient of h * h by m. */
  lemma SquareStep(b: int, e: nat, m: int, h: int, q: int, r: int)
    requires m > 0 && e > 0 && e % 2 == 0 && ModPow(b, e / 2, m) == h
    requires h * h == q * m + r && 0 <= r < m
    ensures ModPow(b, e, m) == r
  {
    ModUnique(h * h, m, q, r);
  }

  /** One squaring step of ModPow at an odd exponent, given the quotient of h * h * b by m. */
  lemma SquareTimesStep(b: int, e: nat, m: int, h: int, q: int, r: int)
    requires m > 0 && e % 2 == 1 && ModPow(b, e / 2, m) == h && 0 <= b < m
    requires h * h * b == q * m + r && 0 <= r < m
    ensures ModPow(b, e, m) == r
  {
    var hh := h * h;
    ModUnique(b, m, 0, b);
    MulMod(hh, b, m);
    assert ModPow(b, e, m) == (hh * b) % m;
    ModUnique(hh * b, m, q, r);
  }

  /** The squaring chain of 848^144 mod 323^2, with base and modulus passed as values. */
  lemma LiftChain(b: int, m: int)
    requires m == 104329 && b == 848
    ensures ModPow(b, 144, m) == 324
  {
    SquareTimesStep(b, 1, m, 1, 0, 848);
    SquareStep(b, 2, m, 848, 6, 93130);
    SquareStep(b, 4, m, 93130, 83133, 14143);
    SquareTimesStep(b, 9, m, 14143, 1625825, 36327);
    SquareStep(b, 18, m, 36327, 12648, 97737);
    SquareStep(b, 36, m, 97737, 91561, 53600);
    SquareStep(b, 72, m, 53600, 27537, 52327);
    SquareStep(b, 144, m, 52327, 26245, 324);
  }

  /** 848^144 mod 323^2 is 324. */
  lemma LiftExample()
    ensures ModPow(848, 144, 104329) == 324
  {
    LiftChain(848, 104329);
  }

  /** mu for g = 848, lambda = 144, n = 323 is 1. */
  lemma CoefficientExample()
    ensures CalculateDecryptionCoefficient(848, 144, 323) == Some(1)
  {
    LiftExample();
    assert ComputeDecryptionShift(323, 324) == 1 by {
      ModUnique(323, 323, 1, 0);
    }
    ModInvUnique(1, 323, 1);
  }

  /** getKeys(17, 19, 323, 848) is the key pair (n 323, n2 104329, g 848; lambda 144, mu 1). */
  lemma GetKeysExample()
    ensures GetKeys(17, 19, 323, 848) == Success(KeyPair(PublicKey(323, 104329, 848), PrivateKey(144, 1)))
  {
    LambdaExample();
    CoefficientExample();
  }
}
