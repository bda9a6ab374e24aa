/** The numeric toolkit of the `NTRU` class: modular exponentiation, the
    extended-Euclid inverse, bit length and masks, little-endian byte
    conversions, hash-to-field (`hashn`) and the XOR keystream used by
    `NTRUEncode`/`NTRUDecode`.

    SHA-256 over the canonical serialisation is not modelled: every operation
    that hashes takes the digest as a parameter `hash`, an arbitrary function
    from the hashed value to a non-negative integer. */
module Ntru {
  import opened JsBigInt

  /** An element of a `Uint8Array`. */
  newtype byte = x: int | 0 <= x < 256

  /** The shapes of value the core hands to `hashn`.  A caller's own message,
      such as the mint input string of `vdf`/`verifyVdf` or a `vrf` message,
      may be any constructor that is not hashed elsewhere in the same
      computation: `hash` is arbitrary, so nothing depends on which. */
  datatype Datum =
    | Num(n: int)                      // a BigInt message, such as the VDF's intermediate `x1`
    | Joined(x: int, xk: int, t: int)  // the template string `${x}:${x_k}:${T}`
    | Hex(n: int)                      // the string `n.toString(16)`

  /** `sha256n`: the digest of the serialised value, read as a non-negative BigInt. */
  type Hash = Datum -> nat

  // ---------------------------------------------------------------------
  // powMod

  /** What `powMod(base, exp, mod)` returns: `base^exp` reduced with BigInt `%`
      when `exp > 0`, and the initial `1n` when the loop never runs. */
  function PowModValue(base: int, exp: int, mod: int): int
    requires mod != 0
  {
    if exp <= 0 then 1 else Rem(Pow(base, exp), mod)
  }

  /** Squaring the base and halving an even exponent keeps `r * b^e` unchanged modulo `m`. */
  lemma SquareEvenStep(r: int, b: int, h: nat, m: int)
    requires m != 0
    ensures Rem(r * Pow(Rem(b * b, m), h), m) == Rem(r * Pow(b, 2 * h), m)
  {
    PowSquare(b, h);
    RemMulRight(r, Pow(Rem(b * b, m), h), m);
    RemPow(b * b, h, m);
    RemMulRight(r, Pow(b * b, h), m);
  }

  /** Multiplying the result by the base and then squaring it, for an odd
      exponent, keeps `r * b^e` unchanged modulo `m`. */
  lemma SquareOddStep(r: int, b: int, h: nat, m: int)
    requires m != 0
    ensures Rem(Rem(r * b, m) * Pow(Rem(b * b, m), h), m) == Rem(r * Pow(b, 2 * h + 1), m)
  {
    var r' := Rem(r * b, m);
    SquareEvenStep(r', b, h, m);
    RemMulLeft(r * b, Pow(b, 2 * h), m);
    PowSucc(r, b, 2 * h);
  }

  lemma PowSucc(r: int, b: int, e: nat)
    ensures r * b * Pow(b, e) == r * Pow(b, e + 1)
  {
    var c := Pow(b, e);
    assert Pow(b, e + 1) == b * c;
    assert r * b * c == r * (b * c);
  }

  /** `powMod` (crypto.js:200-210): square-and-multiply. */
  method PowMod(base: int, exp: int, mod: int) returns (res: int)
    requires mod != 0
    ensures res == PowModValue(base, exp, mod)
  {
    res := 1;
    var b := Rem(base, mod);
    var e := exp;
    if exp > 0 {
      RemPow(base, exp, mod);
    }
    while e > 0
      invariant exp <= 0 ==> e == exp && res == 1
      invariant exp > 0 ==> 0 <= e && Rem(res * Pow(b, e), mod) == Rem(Pow(base, exp), mod)
      invariant exp > 0 && e == 0 ==> Abs(res) < Abs(mod)
    {
      if e % 2 == 1 {
        SquareOddStep(res, b, e / 2, mod);
      } else {
        SquareEvenStep(res, b, e / 2, mod);
      }
      if e % 2 == 1 {
        res := Rem(res * b, mod);
      }
      b := Rem(b * b, mod);
      e := e / 2;
    }
    if exp > 0 {
      RemOfReduced(res, mod);
    }
  }

  /** For `mod > 1`, `powMod(base, exp, mod)` is `base^exp % mod`, in `[0, mod)`. */
  lemma PowModIsReducedPower(base: nat, exp: nat, mod: int)
    requires 1 < mod
    ensures PowModValue(base, exp, mod) == Pow(base, exp) % mod
    ensures 0 <= PowModValue(base, exp, mod) < mod
  {
    PowNonNegative(base, exp);
    if exp == 0 {
      DivModUnique(1, mod, 0, 1);
    }
  }

  // ---------------------------------------------------------------------
  // modInv

  /** The coefficient bookkeeping of one Euclid round, `x0, x1 := x1 - q * x0, x0`,
      when the two coefficients have opposite signs. */
  lemma CoefficientStep(x0: int, x1: int, q: int)
    requires x0 * x1 <= 0 && q >= 0
    ensures Abs(x1 - q * x0) == Abs(x1) + q * Abs(x0)
    ensures (x1 - q * x0) * x0 <= 0
  {
    if x0 >= 0 {
      assert q * x0 >= 0;
      assert x1 <= 0 || x0 == 0;
      assert (x1 - q * x0) * x0 == x1 * x0 - q * (x0 * x0);
    } else {
      assert q * x0 <= 0;
      assert x1 >= 0;
      assert Abs(x0) == -x0;
      assert (x1 - q * x0) * x0 == x1 * x0 - q * (x0 * x0);
    }
  }

  /** Neither `0` nor `b` satisfies `a * x == 1 + k * b` when `b > 1`. */
  lemma NotCongruentToOne(y: int, k: int, b: int)
    requires b > 1 && y == 1 + k * b
    ensures y % b == 1
    ensures y != 0 && y % b != 0
  {
    DivModUnique(y, b, k, 1);
  }

  /** What the extended Euclidean loop keeps true for `0 <= a` and `1 < b0`:
      `u` and `v` are the current remainders with the gcd of the inputs,
      `x1 * a ≡ u` and `x0 * a ≡ v` modulo `b0` (with the ghost multiples
      `k1`, `k0`), and the coefficients stay small enough that the result
      ends up in `[0, b0)` once `b0` has been added to a negative one. */
  ghost predicate EuclidState(a: int, b0: int, u: int, v: int, x0: int, x1: int,
                              k0: int, k1: int, iterated: bool)
  {
    && 0 <= a && 1 < b0 && 0 <= u && 0 <= v
    && Gcd(u, v) == Gcd(a, b0)
    && x0 * a - v == k0 * b0 && x1 * a - u == k1 * b0
    && Abs(x0) * u + Abs(x1) * v == b0 && x0 * x1 <= 0
    && (!iterated ==> u == a && v == b0 && x0 == 0 && x1 == 1)
    && (iterated ==> 1 <= u && v < u && Abs(x1) * u <= b0)
  }

  lemma EuclidStep(a: int, b0: int, u: int, v: int, x0: int, x1: int,
                   k0: int, k1: int, iterated: bool, q: int, r: int)
    requires EuclidState(a, b0, u, v, x0, x1, k0, k1, iterated)
    requires u > 1 && v != 0 && q == u / v && r == u % v
    ensures EuclidState(a, b0, v, r, x1 - q * x0, x0, k1 - q * k0, k0, true)
  {
    DivisionStep(u, v, q, r);
    StepCongruence(a, b0, u, v, x0, x1, k0, k1, q, r);
    StepWeights(b0, u, v, x0, x1, q, r);
    if iterated {
      WeightBound(x0, x1, u, v, b0);
    }
    assert Abs(x0) * v <= b0;
  }

  /** One Euclidean division `u = q * v + r` and the gcd it preserves. */
  lemma DivisionStep(u: int, v: int, q: int, r: int)
    requires 0 <= u && 0 < v && q == u / v && r == u % v
    ensures r == u - q * v && 0 <= r < v && 0 <= q
    ensures Gcd(v, r) == Gcd(u, v)
  {
  }

  /** The weight of `x0` alone stays within `b0` once `v <= u`. */
  lemma WeightBound(x0: int, x1: int, u: int, v: int, b0: int)
    requires Abs(x0) * u + Abs(x1) * v == b0 && 0 <= v <= u
    ensures Abs(x0) * v <= b0
  {
    MulMonotone(Abs(x0), v, u);
    MulMonotone(Abs(x1), 0, v);
  }

  lemma StepCongruence(a: int, b0: int, u: int, v: int, x0: int, x1: int,
                       k0: int, k1: int, q: int, r: int)
    requires x0 * a - v == k0 * b0 && x1 * a - u == k1 * b0 && r == u - q * v
    ensures (x1 - q * x0) * a - r == (k1 - q * k0) * b0
  {
    assert (x1 - q * x0) * a == x1 * a - q * (x0 * a);
    assert (k1 - q * k0) * b0 == k1 * b0 - q * (k0 * b0);
    assert q * (x0 * a) - q * v == q * (k0 * b0);
  }

  lemma StepWeights(b0: int, u: int, v: int, x0: int, x1: int, q: int, r: int)
    requires Abs(x0) * u + Abs(x1) * v == b0 && x0 * x1 <= 0 && q >= 0 && r == u - q * v
    ensures Abs(x1 - q * x0) * v + Abs(x0) * r == b0
    ensures (x1 - q * x0) * x0 <= 0
  {
    CoefficientStep(x0, x1, q);
    assert Abs(x1 - q * x0) * v == Abs(x1) * v + q * Abs(x0) * v;
    assert Abs(x0) * r == Abs(x0) * u - q * Abs(x0) * v;
  }

  lemma MulMonotone(c: nat, v: int, u: int)
    requires v <= u
    ensures c * v <= c * u
  {
    assert c * u - c * v == c * (u - v);
  }

  /** Where the loop ends for `0 <= a` and `1 < b0`: with coprime inputs the
      corrected coefficient is the inverse, and otherwise it is still `1`. */
  lemma EuclidResult(a: int, b0: int, u: int, v: int, x0: int, x1: int,
                     k0: int, k1: int, iterated: bool)
    requires EuclidState(a, b0, u, v, x0, x1, k0, k1, iterated) && u <= 1
    ensures Gcd(a, b0) == 1 ==>
      var x := if x1 < 0 then x1 + b0 else x1;
      0 <= x < b0 && (a * x) % b0 == 1
    ensures Gcd(a, b0) != 1 ==> x1 == 1
  {
    if iterated {
      assert u == 1 && v == 0;
      GcdOneZero();
      assert Abs(x1) <= b0 by {
        assert Abs(x1) * u <= b0;
      }
      InverseFromCongruence(a, b0, x1, k1);
    } else if a == 0 {
      GcdZero(b0);
    } else {
      assert a == 1 && x1 == 1 && k1 == 0;
      GcdOne(b0);
      InverseFromCongruence(a, b0, x1, k1);
    }
  }

  lemma GcdOneZero()
    ensures Gcd(1, 0) == 1
  {
  }

  lemma GcdZero(b: nat)
    requires b > 1
    ensures Gcd(0, b) == b
  {
    assert 0 % b == 0;
    assert Gcd(b, 0) == b;
  }

  lemma GcdOne(b: nat)
    requires b > 1
    ensures Gcd(1, b) == 1
  {
    DivModUnique(1, b, 0, 1);
    assert Gcd(1, b) == Gcd(b, 1);
    assert b % 1 == 0;
    assert Gcd(b, 1) == Gcd(1, 0);
  }

  /** A coefficient with `x1 * a == 1 + k1 * b0` and `|x1| <= b0`, moved into
      `[0, b0)` as the code does, is the inverse of `a` modulo `b0`. */
  lemma InverseFromCongruence(a: int, b0: int, x1: int, k1: int)
    requires 1 < b0 && x1 * a - 1 == k1 * b0 && Abs(x1) <= b0
    ensures var x := if x1 < 0 then x1 + b0 else x1;
      0 <= x < b0 && (a * x) % b0 == 1
  {
    assert a * x1 == 1 + k1 * b0;
    NotCongruentToOne(a * x1, k1, b0);
    if x1 >= 0 {
      assert x1 != b0 by {
        if x1 == b0 {
          DivModUnique(a * x1, b0, a, 0);
        }
      }
    } else {
      assert a * (x1 + b0) == 1 + (k1 + a) * b0;
      NotCongruentToOne(a * (x1 + b0), k1 + a, b0);
    }
  }

  /** `modInv(a, b)` (crypto.js:186-198): the extended Euclidean algorithm with
      BigInt division, and `1n` on its two early exits. */
  method ModInv(a: int, b: int) returns (x: int)
    ensures b == 1 ==> x == 1
    ensures a <= 1 ==> x == 1
    ensures 1 < a && b == 0 ==> x == 1
    ensures 1 < a && b < 0 ==> x == 0
    ensures 0 <= a && 1 < b && Gcd(a, b) == 1 ==> 0 <= x < b && (a * x) % b == 1
    ensures 0 <= a && 1 < b && Gcd(a, b) != 1 ==> x == 1
  {
    var b0 := b;
    var x0, x1 := 0, 1;
    if b == 1 {
      return 1;
    }
    var u, v := a, b;  // the code's `a` and `b`, which the loop reassigns
    ghost var iterated := false;
    ghost var k0, k1 := -1, 0;
    ghost var good := 0 <= a && 1 < b;
    while u > 1
      invariant !iterated ==> u == a && v == b && x0 == 0 && x1 == 1
      invariant iterated ==> 1 < a && b != 0
      invariant iterated && b < 0 ==> u == b && x1 == 0
      invariant good ==> EuclidState(a, b0, u, v, x0, x1, k0, k1, iterated)
      decreases Abs(v)
    {
      if v == 0 {
        return 1;
      }
      var q := Quot(u, v);
      if good {
        assert q == u / v && Rem(u, v) == u % v;
        EuclidStep(a, b0, u, v, x0, x1, k0, k1, iterated, q, Rem(u, v));
      }
      u, v := v, Rem(u, v);
      x0, x1 := x1 - q * x0, x0;
      k0, k1 := k1 - q * k0, k0;
      iterated := true;
    }
    if good {
      EuclidResult(a, b0, u, v, x0, x1, k0, k1, iterated);
    }
    if x1 < 0 {
      x1 := x1 + b0;
    }
    return x1;
  }

  // ---------------------------------------------------------------------
  // msb and mask

  /** `msb(n)` (crypto.js:338-345): the number of bits of a positive `n`, and `0n`
      otherwise. */
  method Msb(n: int) returns (bits: nat)
    ensures n <= 0 ==> bits == 0
    ensures n > 0 ==> 1 <= bits && Pow2(bits - 1) <= n < Pow2(bits)
  {
    var m := n;
    bits := 0;
    while m > 0
      invariant n <= 0 ==> m == n && bits == 0
      invariant n > 0 ==> 0 <= m && m * Pow2(bits) <= n < (m + 1) * Pow2(bits)
      invariant n > 0 && bits == 0 ==> m == n
      invariant n > 0 && bits > 0 ==> Pow2(bits - 1) <= n
    {
      HalveBounds(m, Pow2(bits), n);
      m := m / 2;  // n >>= 1n
      bits := bits + 1;
    }
  }

  /** Dropping the lowest bit of `m` doubles the weight of what is left. */
  lemma HalveBounds(m: nat, p: nat, n: int)
    requires 1 <= m && 1 <= p && m * p <= n < (m + 1) * p
    ensures p <= n
    ensures (m / 2) * (2 * p) <= n < (m / 2 + 1) * (2 * p)
  {
    var h := m / 2;
    MulAtLeast(m, p);
    assert (m / 2) * (2 * p) == (2 * h) * p;
    assert (m - 2 * h) * p >= 0;
    assert (m / 2 + 1) * (2 * p) == (2 * h + 2) * p;
    assert (2 * h + 2 - (m + 1)) * p >= 0;
  }

  /** `mask(k)` (crypto.js:334-336): `(1n << k) - 1n`, the number whose low `k`
      bits are all ones. */
  function Mask(k: nat): (r: nat)
    ensures r < Pow2(k)
  {
    Pow2(k) - 1
  }

  /** The mask of `k` bits is the mask of `k - 1` bits with one more set bit
      below it: all of its `k` low bits are ones. */
  lemma MaskIsAllOnes(k: nat)
    ensures k == 0 ==> Mask(k) == 0
    ensures k > 0 ==> Mask(k) == 2 * Mask(k - 1) + 1
  {
  }

  /** `x & mask(k)` keeps the low `k` bits of `x`, so it lies below `2^k`. */
  lemma MaskKeepsLowBits(x: nat, k: nat)
    ensures And(x, Mask(k)) == x % Pow2(k)
    ensures And(x, Mask(k)) < Pow2(k)
  {
    AndLowBits(x, k);
  }

  /** `x & mask(msb(p))` is below `2^msb(p)`, hence below `2 * p`
      (the masking of crypto.js:224-225). */
  lemma MaskToBitLength(x: nat, p: int, bits: nat)
    requires p > 0 && 1 <= bits && Pow2(bits - 1) <= p < Pow2(bits)
    ensures And(x, Mask(bits)) < Pow2(bits) <= 2 * p
  {
    MaskKeepsLowBits(x, bits);
  }

  // ---------------------------------------------------------------------
  // uint8array2n and n2uint8array

  /** The number whose little-endian bytes are `s`. */
  function LeValue(s: seq<byte>): nat
  {
    if s == [] then 0 else s[0] as nat + 256 * LeValue(s[1..])
  }

  /** The minimal little-endian bytes of `n`; none for `n <= 0`. */
  function LeBytes(n: int): seq<byte>
    decreases if n > 0 then n else 0
  {
    if n <= 0 then [] else [(n % 256) as byte] + LeBytes(n / 256)
  }

  /** `uint8array2n` (crypto.js:305-310). */
  method Uint8ArrayToN(a: array<byte>) returns (n: nat)
    ensures n == LeValue(a[..])
  {
    ghost var s := a[..];
    n := 0;
    for i := a.Length downto 0
      invariant n == LeValue(s[i..])
    {
      LeValueAt(s, i);
      // `(n << 8n) | byte`: the shift leaves the low eight bits zero, so `|` adds
      n := n * 256 + a[i] as nat;
    }
    assert s[0..] == s;
  }

  /** The value of the suffix from position `i`, split off at its first byte. */
  lemma LeValueAt(s: seq<byte>, i: int)
    requires 0 <= i < |s|
    ensures LeValue(s[i..]) == LeValue(s[i + 1..]) * 256 + s[i] as nat
  {
    assert s[i..][1..] == s[i + 1..];
  }

  /** `n >> (8n * (i + 1n))` is `(n >> (8n * i)) >> 8n`. */
  lemma ShiftByte(n: int, i: nat)
    ensures n / Pow2(8 * (i + 1)) == (n / Pow2(8 * i)) / 256
  {
    Pow2Add(8 * i, 8);
    Pow2Of8();
    DivDiv(n, Pow2(8 * i), 256);
  }

  /** The byte `m & 255n` that `n2uint8array` takes off a positive `m`: the
      first of `m`'s little-endian bytes. */
  lemma LowByte(m: int)
    requires m > 0
    ensures And(m, 255) < 256
    ensures LeBytes(m) == [And(m, 255) as byte] + LeBytes(m / 256)
  {
    MaskKeepsLowBits(m, 8);
    Pow2Of8();
  }

  /** One round of `n2uint8array`: pushing the low byte of `n >> 8i` keeps the
      bytes pushed so far a prefix of `n`'s bytes, and the shifted value drops. */
  lemma PushStep(n: int, i: nat, decoded: seq<byte>)
    requires n / Pow2(8 * i) > 0
    requires decoded + LeBytes(n / Pow2(8 * i)) == LeBytes(n)
    ensures And(n / Pow2(8 * i), 255) < 256
    ensures (decoded + [And(n / Pow2(8 * i), 255) as byte]) + LeBytes(n / Pow2(8 * (i + 1))) == LeBytes(n)
    ensures n / Pow2(8 * (i + 1)) < n / Pow2(8 * i)
  {
    var shifted := n / Pow2(8 * i);
    LowByte(shifted);
    ShiftByte(n, i);
    var b := And(shifted, 255) as byte;
    assert LeBytes(shifted) == [b] + LeBytes(n / Pow2(8 * (i + 1)));
    assert (decoded + [b]) + LeBytes(n / Pow2(8 * (i + 1))) == decoded + LeBytes(shifted);
  }

  /** `n2uint8array` (crypto.js:312-320). */
  method NToUint8Array(n: int) returns (a: array<byte>)
    ensures fresh(a)
    ensures a[..] == LeBytes(n)
  {
    var decoded: seq<byte> := [];
    var i: nat := 0;
    while n / Pow2(8 * i) > 0
      invariant decoded + LeBytes(n / Pow2(8 * i)) == LeBytes(n)
      decreases n / Pow2(8 * i)
    {
      var shifted := n / Pow2(8 * i);
      PushStep(n, i, decoded);
      decoded := decoded + [And(shifted, 255) as byte];
      i := i + 1;
    }
    a := ToArray(decoded);
  }

  /** `new Uint8Array(bytes)`: a fresh array holding `bytes`. */
  method ToArray(bytes: seq<byte>) returns (a: array<byte>)
    ensures fresh(a) && a[..] == bytes
  {
    a := new byte[|bytes|](j requires 0 <= j < |bytes| => bytes[j]);
  }

  /** `uint8array2n(n2uint8array(n)) == n` for every `n >= 0`. */
  lemma {:induction false} LeRoundTrip(n: nat)
    ensures LeValue(LeBytes(n)) == n
  {
    if n > 0 {
      LeRoundTrip(n / 256);
      assert LeBytes(n)[1..] == LeBytes(n / 256);
    }
  }

  /** `n2uint8array` yields the empty array exactly for `n <= 0`, and otherwise
      no trailing zero byte. */
  lemma {:induction false} LeBytesMinimal(n: int)
    ensures LeBytes(n) == [] <==> n <= 0
    ensures n > 0 ==> LeBytes(n)[|LeBytes(n)| - 1] != 0
  {
    if n > 0 && n / 256 > 0 {
      LeBytesMinimal(n / 256);
    }
  }

  lemma {:induction false} LeValuePositive(s: seq<byte>)
    requires s != [] && s[|s| - 1] != 0
    ensures LeValue(s) > 0
  {
    if |s| > 1 {
      LeValuePositive(s[1..]);
    }
  }

  /** Conversely, `n2uint8array(uint8array2n(s)) == s` for every byte string
      without a trailing zero. */
  lemma {:induction false} LeBytesOfValue(s: seq<byte>)
    requires s == [] || s[|s| - 1] != 0
    ensures LeBytes(LeValue(s)) == s
  {
    if s != [] {
      var t := s[1..];
      var n := LeValue(s);
      if t == [] {
        assert LeValue(t) == 0;
      } else {
        LeValuePositive(t);
        LeBytesOfValue(t);
      }
      DivModUnique(n, 256, LeValue(t), s[0] as nat);
      assert s == [s[0]] + t;
    }
  }

  /** `base642n(n2base64(n))` (crypto.js:178-184) with the base64 step removed. */
  method NToBytesAndBack(n: nat) returns (m: nat)
    ensures m == n
  {
    var bytes := NToUint8Array(n);
    m := Uint8ArrayToN(bytes);
    LeRoundTrip(n);
  }

  // ---------------------------------------------------------------------
  // hashn

  /** `hashn(data, mod)` (crypto.js:212-215): the digest reduced modulo `mod`,
      with a zero remainder replaced by `1n`. */
  function Hashn(hash: Hash, data: Datum, mod: int): (r: int)
    requires mod != 0
    ensures 1 <= r
    ensures Abs(mod) > 1 ==> r < Abs(mod)
    ensures hash(data) % Abs(mod) != 0 ==> r == hash(data) % Abs(mod)
    ensures hash(data) % Abs(mod) == 0 ==> r == 1
  {
    var h := Rem(hash(data), mod);
    if h == 0 then 1 else h
  }

  // ---------------------------------------------------------------------
  // The keystream of NTRUEncode / NTRUDecode

  /** `Number(hashn((seed + i).toString(16), p) & 255n)`, the byte XORed into
      position `i`. */
  function KeystreamByte(hash: Hash, p: int, seed: int, i: nat): (b: byte)
    requires p != 0
    ensures b as int == Hashn(hash, Hex(seed + i), p) % 256
  {
    var h := Hashn(hash, Hex(seed + i), p);
    MaskKeepsLowBits(h, 8);
    Pow2Of8();
    And(h, 255) as byte
  }

  /** `uint8[i] ^= k`: the XOR of two bytes is a byte. */
  function XorByte(a: byte, k: byte): byte
  {
    Pow2Of8();
    XorBelow(a as nat, k as nat, 8);
    Xor(a as nat, k as nat) as byte
  }

  lemma XorByteTwice(a: byte, k: byte)
    ensures XorByte(XorByte(a, k), k) == a
  {
    XorCancel(a as nat, k as nat);
  }

  /** The buffer after every byte has been XORed with its keystream byte. */
  function Masked(s: seq<byte>, hash: Hash, p: int, seed: int): seq<byte>
    requires p != 0
  {
    seq(|s|, i requires 0 <= i < |s| => XorByte(s[i], KeystreamByte(hash, p, seed, i)))
  }

  /** Masking twice with the same seed gives back the original bytes, so
      `NTRUDecode` undoes `NTRUEncode`. */
  lemma MaskedTwice(s: seq<byte>, hash: Hash, p: int, seed: int)
    requires p != 0
    ensures Masked(Masked(s, hash, p, seed), hash, p, seed) == s
  {
    var once := Masked(s, hash, p, seed);
    forall i | 0 <= i < |s|
      ensures Masked(once, hash, p, seed)[i] == s[i]
    {
      var k := KeystreamByte(hash, p, seed, i);
      XorByteTwice(s[i], k);
    }
  }

  /** The XOR loop shared by `NTRUEncode` and `NTRUDecode` (crypto.js:262-263
      and 269-270), applied in place. */
  method ApplyKeystream(buf: array<byte>, hash: Hash, p: int, seed: int)
    requires p != 0
    modifies buf
    ensures buf[..] == Masked(old(buf[..]), hash, p, seed)
  {
    var i := 0;
    while i < buf.Length
      invariant 0 <= i <= buf.Length
      invariant forall j :: 0 <= j < i ==> buf[j] == XorByte(old(buf[j]), KeystreamByte(hash, p, seed, j))
      invariant forall j :: i <= j < buf.Length ==> buf[j] == old(buf[j])
    {
      buf[i] := XorByte(buf[i], KeystreamByte(hash, p, seed, i));
      i := i + 1;
    }
  }

  /** Encoding and then decoding a buffer with the same seed restores it. */
  method EncodeThenDecode(buf: array<byte>, hash: Hash, p: int, seed: int)
    requires p != 0
    modifies buf
    ensures buf[..] == old(buf[..])
  {
    ApplyKeystream(buf, hash, p, seed);
    ApplyKeystream(buf, hash, p, seed);
    MaskedTwice(old(buf[..]), hash, p, seed);
  }
}
