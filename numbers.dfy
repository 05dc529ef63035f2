/**
 * The number-theoretic primitives the Paillier code takes from its arithmetic
 * library (greatest common divisor, least common multiple, modular inverse)
 * and the bit length of a number, each defined mathematically and proved to
 * mean what its name says.
 */
module Numbers {
  import opened Arith
  import opened Wrappers

  /** d is a positive divisor of x. */
  predicate Divides(d: int, x: int)
  {
    d > 0 && x % d == 0
  }

  /** Euclid's algorithm. */
  function Gcd(a: nat, b: nat): nat
    decreases b
  {
    if b == 0 then a else Gcd(b, a % b)
  }

  /**
   * Extended Euclid: the gcd together with Bezout coefficients x, y such
   * that a * x + b * y is the gcd.
   */
  function EGcd(a: nat, b: nat): (r: (nat, int, int))
    ensures r.0 == Gcd(a, b)
    ensures a * r.1 + b * r.2 == r.0
    decreases b
  {
    if b == 0 then (a, 1, 0)
    else
      var t := EGcd(b, a % b);
      var (g, x, y) := t;
      assert a == (a / b) * b + a % b;
      assert a * y + b * (x - (a / b) * y) == b * x + (a % b) * y;
      (g, y, x - (a / b) * y)
  }

  /**
   * Modular inverse of a modulo n, as the library computes it: reduce a,
   * run extended Euclid, and report absence when the gcd is not 1.
   */
  function ModInv(a: int, n: int): (r: Option<int>)
    requires n > 0
    ensures r.Some? <==> Gcd(a % n, n) == 1
    ensures r.Some? ==> 0 <= r.value < n && (a * r.value) % n == 1 % n
  {
    var t := EGcd(a % n, n);
    if t.0 != 1 then None
    else
      var v := t.1 % n;
      calc {
        (a * v) % n;
        { MulMod(a, v, n); }
        ((a % n) * (v % n)) % n;
        { ModMod(t.1, n); }
        ((a % n) * (t.1 % n)) % n;
        { MulMod(a % n, t.1, n); ModMod(a, n); }
        ((a % n) * t.1) % n;
        { ModAddMultiple((a % n) * t.1, t.2, n); }
        1 % n;
      }
      Some(v)
  }

  /** Library lcm: |a| / gcd(|a|, |b|) * |b|, and 0 when both are 0. */
  function Lcm(a: int, b: int): (r: nat)
    ensures r <= Abs(a) * Abs(b)
  {
    if a == 0 && b == 0 then 0
    else
      var A, B := Abs(a), Abs(b);
      GcdPositive(A, B);
      var g := Gcd(A, B);
      var l := A / g;
      DivBounds(A, g);
      MulLe(l, l, 1, g);
      MulLe(0, l, 0, B);
      MulLe(l, A, B, B);
      l * B
  }

  /** Number of binary digits of x (0 has none). */
  function BitLength(x: nat): (r: nat)
    ensures r <= x
    ensures r == 0 <==> x == 0
    decreases x
  {
    if x == 0 then 0 else 1 + BitLength(x / 2)
  }

  // ---------------------------------------------------------------------
  // Divisibility

  lemma DividesLinear(d: int, x: int, y: int, k: int)
    requires Divides(d, x) && Divides(d, y)
    ensures Divides(d, k * x + y)
  {
    assert x == (x / d) * d;
    assert y == (y / d) * d;
    assert k * x + y == (k * (x / d) + y / d) * d;
    ModOfMultiple(k * (x / d) + y / d, d);
  }

  lemma GcdPositive(a: nat, b: nat)
    requires a > 0 || b > 0
    ensures Gcd(a, b) > 0
    decreases b
  {
    if b > 0 {
      GcdPositive(b, a % b);
    }
  }

  /** The gcd divides both arguments. */
  lemma {:induction false} GcdDivides(a: nat, b: nat)
    requires a > 0 || b > 0
    ensures Divides(Gcd(a, b), a) && Divides(Gcd(a, b), b)
    decreases b
  {
    GcdPositive(a, b);
    var g := Gcd(a, b);
    if b == 0 {
      ModOfMultiple(1, a);
    } else {
      GcdDivides(b, a % b);
      assert a == (a / b) * b + a % b;
      DividesLinear(g, b, a % b, a / b);
    }
  }

  /** Every common divisor divides the gcd, so the gcd is the greatest. */
  lemma GcdGreatest(a: nat, b: nat, d: int)
    requires Divides(d, a) && Divides(d, b)
    ensures Divides(d, Gcd(a, b))
  {
    var t := EGcd(a, b);
    DividesLinear(d, a, 0, t.1);
    DividesLinear(d, b, a * t.1, t.2);
    assert t.2 * b + a * t.1 == Gcd(a, b);
  }

  // ---------------------------------------------------------------------
  // Modular inverse

  /** When gcd(a mod n, n) is not 1, no x inverts a modulo n. */
  lemma NoInverseUnlessCoprime(a: int, n: int, x: int)
    requires n > 0 && Gcd(a % n, n) != 1
    ensures (a * x) % n != 1 % n
  {
    assert Gcd(0, 1) == 1;
    if (a * x) % n == 1 % n {
      GcdDivides(a % n, n);
      var g := Gcd(a % n, n);
      assert a == (a / n) * n + a % n;
      DividesLinear(g, n, a % n, a / n);
      DividesLinear(g, a, 0, x);
      assert x * a + 0 == a * x;
      DividesResidue(g, a * x, n);
      OneMod(n);
      ModUnique(1, g, 0, 1);
    }
  }

  /** A common divisor of y and n divides y mod n. */
  lemma DividesResidue(g: int, y: int, n: int)
    requires n > 0 && Divides(g, y) && Divides(g, n)
    ensures Divides(g, y % n)
  {
    assert y % n == -(y / n) * n + y;
    DividesLinear(g, n, y, -(y / n));
  }

  /** The inverse is unique in [0, n): any inverse there is the one ModInv finds. */
  lemma ModInvUnique(a: int, n: int, x: int)
    requires n > 0 && 0 <= x < n && (a * x) % n == 1 % n
    ensures ModInv(a, n) == Some(x)
  {
    if Gcd(a % n, n) != 1 {
      NoInverseUnlessCoprime(a, n, x);
    }
    var v := ModInv(a, n).value;
    calc {
      x;
      { ModUnique(x, n, 0, x); }
      x % n;
      { MulMod(x, 1, n); MulMod(x, a * v, n); }
      (x * (a * v)) % n;
      { assert x * (a * v) == v * (a * x); }
      (v * (a * x)) % n;
      { MulMod(v, a * x, n); MulMod(v, 1, n); }
      v % n;
      { ModUnique(v, n, 0, v); }
      v;
    }
  }

  // ---------------------------------------------------------------------
  // Least common multiple

  /** Lcm is a common multiple, and it is 0 exactly when a factor is 0. */
  lemma LcmIsCommonMultiple(a: int, b: int)
    ensures Lcm(a, b) == 0 <==> a == 0 || b == 0
    ensures a != 0 && b != 0 ==> Divides(Abs(a), Lcm(a, b)) && Divides(Abs(b), Lcm(a, b))
  {
    if a != 0 && b != 0 {
      var A, B := Abs(a), Abs(b);
      GcdDivides(A, B);
      var g := Gcd(A, B);
      assert A == (A / g) * g;
      assert B == (B / g) * g;
      assert A / g > 0;
      var l := (A / g) * B;
      assert l == (B / g) * A;
      ModOfMultiple(A / g, B);
      ModOfMultiple(B / g, A);
      MulAtLeast(A / g, B);
    } else if a == 0 && b != 0 {
      GcdPositive(0, Abs(b));
    }
  }

  /** Lcm divides every common multiple of a and b. */
  lemma LcmIsLeast(a: int, b: int, c: int)
    requires a != 0 && b != 0
    requires Divides(Abs(a), c) && Divides(Abs(b), c)
    ensures Divides(Lcm(a, b), c)
  {
    LcmIsCommonMultiple(a, b);
    var A, B := Abs(a), Abs(b);
    GcdDivides(A, B);
    var t := EGcd(A, B);
    var g, x, y := t.0, t.1, t.2;
    var h := A / g;
    DividesExactly(g, A);
    var l := h * B;
    assert l == Lcm(a, b);
    var s, u := c / A, c / B;
    DividesExactly(A, c);
    DividesExactly(B, c);
    var k := u * x + s * y;
    BezoutScale(A, B, g, x, y, s, u, c);
    LcmCancel(c, A, B, g, h, l, k);
    ModOfMultiple(k, l);
  }

  lemma DividesExactly(d: int, x: int)
    requires Divides(d, x)
    ensures x == (x / d) * d
  {
  }

  lemma LcmCancel(c: int, A: int, B: int, g: int, h: int, l: int, k: int)
    requires g > 0 && A == h * g && l == h * B && c * g == (A * B) * k
    ensures c == k * l
  {
    assert A * B == l * g;
    assert (A * B) * k == (k * l) * g;
    CancelPositive(c, k * l, g);
  }

  lemma BezoutScale(A: int, B: int, g: int, x: int, y: int, s: int, u: int, c: int)
    requires A * x + B * y == g && c == s * A && c == u * B
    ensures c * g == (A * B) * (u * x + s * y)
  {
    assert c * g == c * (A * x) + c * (B * y);
    assert c * (A * x) == (A * B) * (u * x);
    assert c * (B * y) == (A * B) * (s * y);
  }

  lemma CancelPositive(x: int, y: int, g: int)
    requires g > 0 && x * g == y * g
    ensures x == y
  {
    assert (x - y) * g == 0;
    if x - y >= 1 {
      MulAtLeast(x - y, g);
    } else if y - x >= 1 {
      MulAtLeast(y - x, g);
    }
  }

  // ---------------------------------------------------------------------
  // Bit length

  /** A positive x with k binary digits lies in [2^(k-1), 2^k). */
  lemma {:induction false} BitLengthBounds(x: nat)
    requires x > 0
    ensures BitLength(x) >= 1
    ensures Pow(2, BitLength(x) - 1) <= x < Pow(2, BitLength(x))
    decreases x
  {
    if x > 1 {
      var h := x / 2;
      BitLengthBounds(h);
      var k := BitLength(h);
      assert x == 2 * h + x % 2 && 0 <= x % 2 <= 1;
      assert BitLength(x) == k + 1;
      assert Pow(2, k) == 2 * Pow(2, k - 1);
      assert Pow(2, k + 1) == 2 * Pow(2, k);
    } else {
      assert Pow(2, 1) == 2 * Pow(2, 0);
    }
  }

  lemma PowTwoPositive(k: nat)
    ensures Pow(2, k) > 0
  {
  }

  lemma {:induction false} PowTwoMonotone(i: nat, j: nat)
    requires i <= j
    ensures Pow(2, i) <= Pow(2, j)
    decreases j
  {
    if i < j {
      PowTwoPositive(j - 1);
      PowTwoMonotone(i, j - 1);
    }
  }

  /** Bit length is determined by the power-of-two interval a number lies in. */
  lemma BitLengthFromBounds(x: nat, k: nat)
    requires k >= 1 && Pow(2, k - 1) <= x < Pow(2, k)
    ensures BitLength(x) == k
  {
    BitLengthBounds(x);
    var b := BitLength(x);
    if b < k {
      PowTwoMonotone(b, k - 1);
      assert false;
    } else if b > k {
      PowTwoMonotone(k, b - 1);
      assert false;
    }
  }

  /** A product of an i-digit and a j-digit number has i + j - 1 or i + j digits. */
  lemma ProductBitLength(p: nat, q: nat)
    requires p > 0 && q > 0
    ensures BitLength(p * q) == BitLength(p) + BitLength(q) - 1
         || BitLength(p * q) == BitLength(p) + BitLength(q)
  {
    ProductLength(p, q, p * q);
  }

  lemma ProductLength(p: nat, q: nat, n: nat)
    requires p > 0 && q > 0 && n == p * q
    ensures BitLength(n) == BitLength(p) + BitLength(q) - 1
         || BitLength(n) == BitLength(p) + BitLength(q)
  {
    BitLengthBounds(p);
    BitLengthBounds(q);
    var i, j := BitLength(p), BitLength(q);
    ProductBounds(p, q, i, j);
    LengthBetween(n, i, j);
  }

  lemma LengthBetween(n: nat, i: nat, j: nat)
    requires i >= 1 && j >= 1 && Pow(2, i + j - 2) <= n < Pow(2, i + j)
    ensures BitLength(n) == i + j - 1 || BitLength(n) == i + j
  {
    BitLengthBetween(n, i + j - 2);
  }

  lemma BitLengthBetween(x: nat, k: nat)
    requires Pow(2, k) <= x < Pow(2, k + 2)
    ensures BitLength(x) == k + 1 || BitLength(x) == k + 2
  {
    if x < Pow(2, k + 1) {
      BitLengthFromBounds(x, k + 1);
    } else {
      BitLengthFromBounds(x, k + 2);
    }
  }

  lemma ProductBounds(p: nat, q: nat, i: nat, j: nat)
    requires i >= 1 && j >= 1
    requires Pow(2, i - 1) <= p < Pow(2, i) && Pow(2, j - 1) <= q < Pow(2, j)
    ensures Pow(2, i + j - 2) <= p * q < Pow(2, i + j)
  {
    PowAdd(2, i - 1, j - 1);
    PowAdd(2, i, j);
    MulLe(Pow(2, i - 1), p, Pow(2, j - 1), q);
    MulLt(p, Pow(2, i), q, Pow(2, j));
    assert (i - 1) + (j - 1) == i + j - 2;
  }

  lemma MulLe(a: int, b: int, c: int, d: int)
    requires 0 <= a <= b && 0 <= c <= d
    ensures a * c <= b * d
  {
    assert b * d - a * c == (b - a) * d + a * (d - c);
  }

  lemma MulLt(a: int, b: int, c: int, d: int)
    requires 0 < a < b && 0 < c < d
    ensures a * c < b * d
  {
    assert b * d - a * c == (b - a) * d + a * (d - c);
    MulAtLeast(b - a, d);
  }
}
