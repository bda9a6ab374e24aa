/** The semantics of the JavaScript BigInt operators that the NTRU toolkit
    relies on, stated over Dafny's unbounded integers, together with the
    arithmetic facts the toolkit's proofs need.

    Dafny's `/` and `%` are Euclidean; BigInt's truncate toward zero.  The two
    agree when both operands are non-negative, and `Rem`/`Quot` below spell
    out the BigInt behaviour for the other cases. */
module JsBigInt {

  function Abs(a: int): nat { if a < 0 then -a else a }

  /** BigInt `a % b`: the remainder takes the sign of the dividend. */
  function Rem(a: int, b: int): (r: int)
    requires b != 0
    ensures Abs(r) < Abs(b)
    ensures a >= 0 ==> r >= 0
    ensures a <= 0 ==> r <= 0
  {
    if a >= 0 then a % Abs(b) else -((-a) % Abs(b))
  }

  /** BigInt `a / b`: the quotient is truncated toward zero. */
  function Quot(a: int, b: int): int
    requires b != 0
  {
    if (a >= 0) == (b > 0) then Abs(a) / Abs(b) else -(Abs(a) / Abs(b))
  }

  function Pow(b: int, e: nat): int
  {
    if e == 0 then 1 else b * Pow(b, e - 1)
  }

  /** `1n << k` for a non-negative `k`. */
  function Pow2(k: nat): (r: nat)
    ensures r >= 1
  {
    if k == 0 then 1 else 2 * Pow2(k - 1)
  }

  /** Euclid's algorithm; `Gcd(a, b) == 1` is what "coprime" means below. */
  function Gcd(a: nat, b: nat): nat
    decreases b
  {
    if b == 0 then a else Gcd(b, a % b)
  }

  /** BigInt `x & y` for non-negative operands, bit by bit from the lowest. */
  function And(x: nat, y: nat): (r: nat)
    ensures r <= x && r <= y
  {
    if x == 0 || y == 0 then 0
    else 2 * And(x / 2, y / 2) + (if x % 2 == 1 && y % 2 == 1 then 1 else 0)
  }

  /** `x ^ y` on non-negative operands, bit by bit from the lowest. */
  function Xor(x: nat, y: nat): nat
    decreases x + y
  {
    if x == 0 && y == 0 then 0
    else 2 * Xor(x / 2, y / 2) + (if x % 2 == y % 2 then 0 else 1)
  }

  // ---------------------------------------------------------------------
  // Euclidean division facts

  lemma DivModUnique(a: int, m: int, q: int, r: int)
    requires m > 0 && a == q * m + r && 0 <= r < m
    ensures a / m == q && a % m == r
  {
    var q', r' := a / m, a % m;
    var d := q - q';
    assert d * m == q * m - q' * m;
    assert d * m == r' - r;
    if d > 0 {
      MulAtLeast(d, m);
    } else if d < 0 {
      MulAtLeast(-d, m);
    }
  }

  lemma MulAtLeast(d: int, m: int)
    requires d >= 1 && m > 0
    ensures d * m >= m
  {
    assert d * m == m + (d - 1) * m;
  }

  /** Reducing the factors first does not change a product's remainder. */
  lemma ModMul(x: nat, y: nat, m: int)
    requires m > 0
    ensures (x * y) % m == ((x % m) * (y % m)) % m
  {
    var a, r := x / m, x % m;
    var b, s := y / m, y % m;
    var c, t := (r * s) / m, (r * s) % m;
    var k := a * b * m + a * s + r * b;
    Expand(a, r, b, s, m, k);
    assert x * y == k * m + r * s;
    assert x * y == (k + c) * m + t;
    DivModUnique(x * y, m, k + c, t);
  }

  lemma Expand(a: int, r: int, b: int, s: int, m: int, k: int)
    requires k == a * b * m + a * s + r * b
    ensures (a * m + r) * (b * m + s) == k * m + r * s
  {
  }

  lemma DivDiv(n: int, p: int, q: int)
    requires p > 0 && q > 0
    ensures n / (p * q) == (n / p) / q
  {
    var a, r := n / p, n % p;
    var s, t := a / q, a % q;
    Distribute(s, q, t, p);
    RemainderWeight(t, q, r, p);
    assert n == s * (p * q) + (t * p + r);
    DivModUnique(n, p * q, s, t * p + r);
  }

  lemma Distribute(s: int, q: int, t: int, p: int)
    ensures (s * q + t) * p == s * (p * q) + t * p
  {
  }

  /** A digit `t < q` of weight `p` plus a remainder `r < p` stays below `p * q`. */
  lemma RemainderWeight(t: int, q: int, r: int, p: int)
    requires 0 <= t < q && 0 <= r < p
    ensures 0 <= t * p + r < p * q
  {
    MulAtLeast(q - t, p);
    assert (q - t) * p == p * q - t * p;
  }

  /** Splitting off the lowest bit of `x % 2^k`. */
  lemma ModDouble(x: nat, p: nat)
    requires p > 0
    ensures x % (2 * p) == 2 * ((x / 2) % p) + x % 2
  {
    var h, b := x / 2, x % 2;
    var c, d := h / p, h % p;
    assert x == c * (2 * p) + (2 * d + b);
    DivModUnique(x, 2 * p, c, 2 * d + b);
  }

  // ---------------------------------------------------------------------
  // BigInt remainder facts

  function Sign(a: int): int { if a >= 0 then 1 else -1 }

  lemma RemAsSign(a: int, m: int)
    requires m != 0
    ensures Rem(a, m) == Sign(a) * (Abs(a) % Abs(m))
  {
  }

  /** The remainder of `s * X` for a sign `s` and a non-negative `X`. */
  lemma RemSigned(s: int, x: nat, m: int)
    requires m != 0 && (s == 1 || s == -1)
    ensures Rem(s * x, m) == s * (x % Abs(m))
  {
    if s == -1 && x == 0 {
      assert s * x == 0;
    }
  }

  lemma RemOfReduced(r: int, m: int)
    requires m != 0 && Abs(r) < Abs(m)
    ensures Rem(r, m) == r
  {
    DivModUnique(Abs(r), Abs(m), 0, Abs(r));
  }

  lemma RemRem(a: int, m: int)
    requires m != 0
    ensures Rem(Rem(a, m), m) == Rem(a, m)
  {
    RemOfReduced(Rem(a, m), m);
  }

  /** Reducing both factors first does not change a product's BigInt remainder. */
  lemma RemProduct(a: int, c: int, m: int)
    requires m != 0
    ensures Rem(Rem(a, m) * Rem(c, m), m) == Rem(a * c, m)
  {
    var M := Abs(m);
    var sa, sc := Sign(a), Sign(c);
    var A, C := Abs(a), Abs(c);
    RemAsSign(a, m);
    RemAsSign(c, m);
    assert Rem(a, m) * Rem(c, m) == (sa * sc) * ((A % M) * (C % M));
    RemSigned(sa * sc, (A % M) * (C % M), m);
    ModMul(A, C, M);
    assert a * c == (sa * sc) * (A * C) by {
      assert a == sa * A && c == sc * C;
    }
    RemSigned(sa * sc, A * C, m);
  }

  lemma RemMulLeft(x: int, y: int, m: int)
    requires m != 0
    ensures Rem(Rem(x, m) * y, m) == Rem(x * y, m)
  {
    RemProduct(Rem(x, m), y, m);
    RemRem(x, m);
    RemProduct(x, y, m);
  }

  lemma RemMulRight(x: int, y: int, m: int)
    requires m != 0
    ensures Rem(x * Rem(y, m), m) == Rem(x * y, m)
  {
    RemMulLeft(y, x, m);
    assert Rem(y, m) * x == x * Rem(y, m);
    assert y * x == x * y;
  }

  /** Powers may be reduced before they are taken. */
  lemma {:induction false} RemPow(z: int, k: nat, m: int)
    requires m != 0
    ensures Rem(Pow(Rem(z, m), k), m) == Rem(Pow(z, k), m)
  {
    if k > 0 {
      var zr := Rem(z, m);
      calc {
        Rem(Pow(zr, k), m);
        Rem(zr * Pow(zr, k - 1), m);
        { RemMulRight(zr, Pow(zr, k - 1), m); }
        Rem(zr * Rem(Pow(zr, k - 1), m), m);
        { RemPow(z, k - 1, m); }
        Rem(zr * Rem(Pow(z, k - 1), m), m);
        { RemMulRight(zr, Pow(z, k - 1), m); }
        Rem(zr * Pow(z, k - 1), m);
        { RemMulLeft(z, Pow(z, k - 1), m); }
        Rem(z * Pow(z, k - 1), m);
      }
    }
  }

  // ---------------------------------------------------------------------
  // Powers

  lemma {:induction false} PowSquare(b: int, k: nat)
    ensures Pow(b * b, k) == Pow(b, 2 * k)
  {
    if k > 0 {
      PowSquare(b, k - 1);
      assert Pow(b, 2 * k) == b * (b * Pow(b, 2 * k - 2));
    }
  }

  lemma {:induction false} PowNonNegative(b: nat, e: nat)
    ensures Pow(b, e) >= 0
  {
    if e > 0 {
      PowNonNegative(b, e - 1);
    }
  }

  lemma Pow2Of8()
    ensures Pow2(8) == 256
  {
    assert Pow2(4) == 16;
  }

  lemma {:induction false} Pow2Add(a: nat, b: nat)
    ensures Pow2(a + b) == Pow2(a) * Pow2(b)
  {
    if a > 0 {
      Pow2Add(a - 1, b);
    }
  }

  // ---------------------------------------------------------------------
  // Masks

  /** `x & (2^k - 1)` keeps the low `k` bits of `x`: it is `x % 2^k`. */
  lemma {:induction false} AndLowBits(x: nat, k: nat)
    ensures And(x, Pow2(k) - 1) == x % Pow2(k)
  {
    if k == 0 {
      DivModUnique(x, 1, x, 0);
    } else if x == 0 {
      DivModUnique(0, Pow2(k), 0, 0);
    } else {
      var p := Pow2(k - 1);
      assert Pow2(k) == 2 * p;
      AndLowBits(x / 2, k - 1);
      AndLowBitsStep(x, p);
    }
  }

  lemma AndLowBitsStep(x: nat, p: nat)
    requires x > 0 && p >= 1 && And(x / 2, p - 1) == (x / 2) % p
    ensures And(x, 2 * p - 1) == x % (2 * p)
  {
    var m := 2 * p - 1;
    DivModUnique(m, 2, p - 1, 1);
    AndOddStep(x, m);
    var h := And(x / 2, p - 1);
    assert A: And(x, m) == 2 * h + x % 2;
    ModDouble(x, p);
    assert B: x % (2 * p) == 2 * h + x % 2;
  }

  /** The lowest bit of `x & m` for an odd `m` is the lowest bit of `x`. */
  lemma AndOddStep(x: nat, m: nat)
    requires x > 0 && m % 2 == 1
    ensures And(x, m) == 2 * And(x / 2, m / 2) + x % 2
  {
  }

  /** XOR with the same operand twice is the identity. */
  lemma {:induction false} XorCancel(x: nat, y: nat)
    ensures Xor(Xor(x, y), y) == x
    decreases x + y
  {
    if x != 0 || y != 0 {
      var z := Xor(x, y);
      var b := if x % 2 == y % 2 then 0 else 1;
      DivModUnique(z, 2, Xor(x / 2, y / 2), b);
      XorCancel(x / 2, y / 2);
    }
  }

  /** XOR of two numbers below `2^k` is below `2^k`. */
  lemma {:induction false} XorBelow(x: nat, y: nat, k: nat)
    requires x < Pow2(k) && y < Pow2(k)
    ensures Xor(x, y) < Pow2(k)
    decreases x + y
  {
    if (x != 0 || y != 0) && k > 0 {
      XorBelow(x / 2, y / 2, k - 1);
    }
  }
}
