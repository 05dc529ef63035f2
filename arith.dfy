/**
 * Integer arithmetic as the Paillier code sees it: the truncating `/` and `%`
 * of JavaScript BigInt, plain exponentiation, and the modular exponentiation
 * of the arithmetic library, together with the modular identities the rest of
 * the model is proved from.
 */
module Arith {

  function Abs(x: int): nat
  {
    if x < 0 then -x else x
  }

  /** BigInt `/`: the quotient is rounded toward zero. */
  function JsDiv(a: int, b: int): (q: int)
    requires b != 0
    ensures Abs(q) * Abs(b) <= Abs(a) < (Abs(q) + 1) * Abs(b)
    ensures q != 0 ==> ((q < 0) <==> ((a < 0) != (b < 0)))
    ensures 0 <= a && 0 < b ==> q == a / b
  {
    var q0 := Abs(a) / Abs(b);
    DivBounds(Abs(a), Abs(b));
    if (a < 0) == (b < 0) then q0 else -q0
  }

  /** BigInt `%`: the remainder carries the sign of the dividend. */
  function JsRem(a: int, b: int): (r: int)
    requires b != 0
    ensures Abs(r) < Abs(b)
    ensures r != 0 ==> ((r < 0) <==> (a < 0))
    ensures 0 <= a && 0 < b ==> r == a % b
  {
    var r0 := Abs(a) % Abs(b);
    if a < 0 then -r0 else r0
  }

  /** Truncating quotient and remainder recompose the dividend. */
  lemma JsDivRem(a: int, b: int)
    requires b != 0
    ensures a == JsDiv(a, b) * b + JsRem(a, b)
  {
    var A: int, B: int := Abs(a), Abs(b);
    var q0: int, r0: int := A / B, A % B;
    assert A == q0 * B + r0;
    var q, r := JsDiv(a, b), JsRem(a, b);
    if a < 0 {
      assert r == -r0 && A == -a;
      if b < 0 {
        assert q == q0 && B == -b;
        NegateFactor(q0, b);
      } else {
        assert q == -q0 && B == b;
        NegateFactor(b, q0);
      }
    } else {
      assert r == r0 && A == a;
      if b < 0 {
        assert q == -q0 && B == -b;
        NegateFactor(q0, b);
      } else {
        assert q == q0 && B == b;
      }
    }
  }

  lemma NegateFactor(x: int, y: int)
    ensures x * -y == -(x * y) && -x * y == -(x * y)
  {
  }

  /** Modulo |m|, the truncating remainder is congruent to its dividend. */
  lemma JsRemMod(a: int, m: int)
    requires m != 0
    ensures JsRem(a, m) % Abs(m) == a % Abs(m)
  {
    var r, q := JsRem(a, m), JsDiv(a, m);
    JsDivRem(a, m);
    var k := if m < 0 then -q else q;
    assert a == r + k * Abs(m);
    ModAddMultiple(r, k, Abs(m));
  }

  /** b to the power e. */
  function Pow(b: int, e: nat): int
    decreases e
  {
    if e == 0 then 1 else b * Pow(b, e - 1)
  }

  /**
   * The library's modular exponentiation, by repeated squaring. Only
   * non-negative exponents and positive moduli are modelled.
   */
  function ModPow(b: int, e: nat, m: int): (r: int)
    requires m > 0
    ensures 0 <= r < m
    decreases e
  {
    if e == 0 then 1 % m
    else
      var h := ModPow(b, e / 2, m);
      if e % 2 == 0 then (h * h) % m else ((h * h) % m * (b % m)) % m
  }

  // ---------------------------------------------------------------------
  // Euclidean remainder

  lemma ModUnique(x: int, m: int, q: int, r: int)
    requires m > 0 && 0 <= r < m && x == q * m + r
    ensures x % m == r && x / m == q
  {
    var q', r' := x / m, x % m;
    assert (q - q') * m == r' - r;
    if q - q' >= 1 {
      MulAtLeast(q - q', m);
    } else if q' - q >= 1 {
      MulAtLeast(q' - q, m);
    }
  }

  lemma DivBounds(A: nat, B: nat)
    requires B > 0
    ensures A / B >= 0
    ensures (A / B) * B <= A < (A / B + 1) * B
  {
    assert A == (A / B) * B + A % B;
    assert (A / B + 1) * B == (A / B) * B + B;
  }

  lemma OneMod(n: int)
    requires n > 0
    ensures 1 % n == if n == 1 then 0 else 1
  {
    if n > 1 {
      ModUnique(1, n, 0, 1);
    }
  }

  lemma MulAtLeast(d: int, m: int)
    requires d >= 1 && m > 0
    ensures d * m >= m
  {
    assert d * m == (d - 1) * m + m;
  }

  lemma ModOfMultiple(k: int, m: int)
    requires m > 0
    ensures (k * m) % m == 0
  {
    ModUnique(k * m, m, k, 0);
  }

  lemma ModAddMultiple(x: int, k: int, m: int)
    requires m > 0
    ensures (x + k * m) % m == x % m
  {
    ModUnique(x + k * m, m, x / m + k, x % m);
  }

  lemma MulMod(a: int, b: int, m: int)
    requires m > 0
    ensures (a * b) % m == ((a % m) * (b % m)) % m
  {
    var qa, ra, qb, rb := a / m, a % m, b / m, b % m;
    calc {
      a * b;
      (qa * m + ra) * (qb * m + rb);
      ra * rb + (qa * qb * m + qa * rb + ra * qb) * m;
    }
    ModAddMultiple(ra * rb, qa * qb * m + qa * rb + ra * qb, m);
  }

  lemma AddMod(a: int, b: int, m: int)
    requires m > 0
    ensures (a + b) % m == ((a % m) + (b % m)) % m
  {
    var qa, ra, qb, rb := a / m, a % m, b / m, b % m;
    assert a == qa * m + ra && b == qb * m + rb;
    assert (qa + qb) * m == qa * m + qb * m;
    ModAddMultiple(ra + rb, qa + qb, m);
  }

  lemma ModMod(a: int, m: int)
    requires m > 0
    ensures (a % m) % m == a % m
  {
    ModUnique(a % m, m, 0, a % m);
  }

  // ---------------------------------------------------------------------
  // Exponentiation

  lemma PowOfOne(e: nat)
    ensures Pow(1, e) == 1
  {
  }

  lemma {:induction false} PowAdd(b: int, x: nat, y: nat)
    ensures Pow(b, x + y) == Pow(b, x) * Pow(b, y)
    decreases x
  {
    if x > 0 {
      PowAdd(b, x - 1, y);
      assert Pow(b, x + y) == b * Pow(b, x - 1 + y);
    }
  }

  lemma {:induction false} PowMulBase(a: int, b: int, e: nat)
    ensures Pow(a * b, e) == Pow(a, e) * Pow(b, e)
    decreases e
  {
    if e > 0 {
      PowMulBase(a, b, e - 1);
      MulRearrange(a, b, Pow(a, e - 1), Pow(b, e - 1));
    }
  }

  lemma MulRearrange(a: int, b: int, c: int, d: int)
    ensures (a * b) * (c * d) == (a * c) * (b * d)
  {
  }

  lemma {:induction false} PowPow(b: int, x: nat, y: nat)
    ensures Pow(Pow(b, x), y) == Pow(b, x * y)
    decreases y
  {
    if y > 0 {
      PowPow(b, x, y - 1);
      assert x * y == x + x * (y - 1);
      PowAdd(b, x, x * (y - 1));
    }
  }

  lemma {:induction false} PowMod(b: int, e: nat, m: int)
    requires m > 0
    ensures Pow(b % m, e) % m == Pow(b, e) % m
    decreases e
  {
    if e > 0 {
      PowMod(b, e - 1, m);
      calc {
        Pow(b % m, e) % m;
        ((b % m) * Pow(b % m, e - 1)) % m;
        { MulMod(b % m, Pow(b % m, e - 1), m); ModMod(b, m); }
        ((b % m) * (Pow(b % m, e - 1) % m)) % m;
        ((b % m) * (Pow(b, e - 1) % m)) % m;
        { MulMod(b, Pow(b, e - 1), m); }
        (b * Pow(b, e - 1)) % m;
      }
    }
  }

  /** Repeated squaring computes the power, reduced modulo m. */
  lemma {:induction false} ModPowIsPowMod(b: int, e: nat, m: int)
    requires m > 0
    ensures ModPow(b, e, m) == Pow(b, e) % m
    decreases e
  {
    if e > 0 {
      var h := ModPow(b, e / 2, m);
      ModPowIsPowMod(b, e / 2, m);
      var ph := Pow(b, e / 2);
      PowAdd(b, e / 2, e / 2);
      MulMod(ph, ph, m);
      assert (h * h) % m == Pow(b, e / 2 + e / 2) % m;
      if e % 2 == 1 {
        PowAdd(b, e / 2 + e / 2, 1);
        assert Pow(b, 1) == b;
        MulMod(ph * ph, b, m);
        ModMod(ph * ph, m);
        MulMod((h * h) % m, b, m);
        assert e == e / 2 + e / 2 + 1;
      } else {
        assert e == e / 2 + e / 2;
      }
    }
  }

  /** Raising a product to a power, then reducing, only depends on the reduced factors. */
  lemma ModPowMul(a: int, b: int, e: nat, m: int)
    requires m > 0
    ensures ModPow(a * b, e, m) == (ModPow(a, e, m) * ModPow(b, e, m)) % m
  {
    ModPowIsPowMod(a * b, e, m);
    ModPowIsPowMod(a, e, m);
    ModPowIsPowMod(b, e, m);
    PowMulBase(a, b, e);
    MulMod(Pow(a, e), Pow(b, e), m);
  }

  lemma ModPowPow(b: int, x: nat, y: nat, m: int)
    requires m > 0
    ensures ModPow(ModPow(b, x, m), y, m) == ModPow(b, x * y, m)
  {
    ModPowIsPowMod(b, x, m);
    ModPowIsPowMod(ModPow(b, x, m), y, m);
    ModPowIsPowMod(b, x * y, m);
    PowMod(Pow(b, x), y, m);
    PowPow(b, x, y);
  }

  lemma ModPowReduceBase(b: int, e: nat, m: int)
    requires m > 0
    ensures ModPow(b % m, e, m) == ModPow(b, e, m)
  {
    ModPowIsPowMod(b % m, e, m);
    ModPowIsPowMod(b, e, m);
    PowMod(b, e, m);
  }
}
