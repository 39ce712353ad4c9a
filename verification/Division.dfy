/** 64-bit division and remainder built from a 64-by-32 divide (lib/arithmetic.c).

    Words are integers with explicit bounds; every operation the compiler does
    modulo 2^32 or 2^64 is written out with `%`, so "does not wrap" is proved
    rather than presumed. The x86 `divl` instruction traps when the quotient
    does not fit in 32 bits, so here it carries a precondition that each caller
    must discharge. */
module Division {

  const B32: int := 0x1_0000_0000
  const B63: int := 0x8000_0000_0000_0000
  const B64: int := 0x1_0000_0000_0000_0000

  type U32 = x: int | 0 <= x < 0x1_0000_0000
  type U64 = x: int | 0 <= x < 0x1_0000_0000_0000_0000
  type I32 = x: int | -0x8000_0000 <= x < 0x8000_0000
  type I64 = x: int | -0x8000_0000_0000_0000 <= x < 0x8000_0000_0000_0000

  /** 2 to the k. */
  function Pow2(k: nat): (p: nat)
    ensures p >= 1
  {
    if k == 0 then 1 else 2 * Pow2(k - 1)
  }

  /** Conversion of an integer to int64_t, which keeps the value modulo 2^64. */
  function ToI64(x: int): (r: I64)
    ensures (x - r) % B64 == 0
  {
    var m := x % B64;
    if m < B63 then m else m - B64
  }

  /** Conversion of an integer to int32_t. */
  function ToI32(x: int): (r: I32)
    ensures (x - r) % B32 == 0
  {
    var m := x % B32;
    if m < 0x8000_0000 then m else m - B32
  }

  /** C division of signed integers: the quotient is truncated toward zero. */
  function TruncDiv(n: int, d: int): int
    requires d != 0
  {
    var q := Abs(n) / Abs(d);
    if (n < 0) == (d < 0) then q else -q
  }

  function Abs(x: int): nat {
    if x < 0 then -x else x
  }

  // ----- nonlinear arithmetic used below -----

  lemma {:induction false} Pow2Add(a: nat, b: nat)
    ensures Pow2(a + b) == Pow2(a) * Pow2(b)
  {
    if a != 0 {
      Pow2Add(a - 1, b);
      assert 2 * (Pow2(a - 1) * Pow2(b)) == (2 * Pow2(a - 1)) * Pow2(b);
    }
  }

  lemma Pow2Values()
    ensures Pow2(1) == 2 && Pow2(2) == 4 && Pow2(4) == 16 && Pow2(8) == 256
    ensures Pow2(16) == 0x1_0000 && Pow2(31) == 0x8000_0000 && Pow2(32) == B32
  {
    assert Pow2(4) == 16;
    Pow2Add(4, 4);
    Pow2Add(8, 8);
    Pow2Add(16, 8);
    Pow2Add(24, 4);
    assert Pow2(31) == 8 * Pow2(28) by { Pow2Add(3, 28); }
  }

  lemma MulMonotone(a: int, b: int, c: int)
    requires a <= b && 0 <= c
    ensures a * c <= b * c
  {}

  /** `q` is the integer quotient of n by d, stated without a division. */
  ghost predicate Brackets(n: int, d: int, q: int) {
    q * d <= n < q * d + d
  }

  lemma QuotientUnique(n: int, d: int, q: int)
    requires d > 0 && Brackets(n, d, q)
    ensures q == n / d && n % d == n - q * d
  {
    var t := n / d;
    assert n == t * d + n % d;
    if q < t { MulMonotone(q + 1, t, d); }
    if t < q { MulMonotone(t + 1, q, d); }
  }

  lemma Quotient(n: int, d: int) returns (q: int)
    requires d > 0
    ensures q == n / d && Brackets(n, d, q)
    ensures n >= 0 ==> 0 <= q <= n
  {
    q := n / d;
    assert n == q * d + n % d;
    if n >= 0 && q < 0 { MulMonotone(q, -1, d); }
    if n >= 0 && q > n { MulMonotone(1, d, q); }
  }

  // ----- divl and nlz -----

  /** Reduction to uint64_t. */
  method Low64(x: int) returns (r: U64)
    ensures r == x % B64
    ensures 0 <= x < B64 ==> r == x
  {
    r := x % B64;
  }

  /** The DIVL instruction: the precondition says that the quotient fits in 32
      bits, so that it does not trap. */
  method Divl(n: U64, d: U32) returns (q: U32)
    requires n < d * B32
    ensures Brackets(n, d, q)
  {
    ghost var t := Quotient(n, d);
    if t >= B32 { MulMonotone(B32, t, d); }
    q := n / d;
  }

  /** The number of leading zero bits of a nonzero word. */
  method Nlz(x0: U32) returns (n: nat)
    requires x0 != 0
    ensures n <= 31
    ensures 0x8000_0000 <= x0 * Pow2(n) < B32
  {
    Pow2Values();
    var x := x0;
    n := 0;
    x, n := NlzStep(x0, x, n, 16, 0x0000_FFFF);
    x, n := NlzStep(x0, x, n, 8, 0x00FF_FFFF);
    x, n := NlzStep(x0, x, n, 4, 0x0FFF_FFFF);
    x, n := NlzStep(x0, x, n, 2, 0x3FFF_FFFF);
    if x <= 0x7FFF_FFFF {
      ShiftUp(x0, x, n, 1);
      n := n + 1;
    }
  }

  /** One test of `nlz`: if the top k bits of x are zero, shift them out. */
  method NlzStep(ghost x0: U32, x: U32, n: nat, k: nat, limit: U32) returns (x': U32, n': nat)
    requires x == x0 * Pow2(n) && k in {2, 4, 8, 16}
    requires (limit + 1) * Pow2(k) == B32 && limit + 1 <= x * Pow2(k)
    ensures x' == x0 * Pow2(n') && limit < x' && n <= n' <= n + k
  {
    hide Pow2;
    if x <= limit {
      NlzShift(x0, x, n, k, limit);
      x', n' := x * Pow2(k) % B32, n + k;
    } else {
      x', n' := x, n;
    }
  }

  /** Shifting out k zero bits loses nothing. */
  lemma NlzShift(x0: int, x: int, n: nat, k: nat, limit: int)
    requires x == x0 * Pow2(n) && 0 <= x <= limit && (limit + 1) * Pow2(k) == B32
    ensures x * Pow2(k) == x0 * Pow2(n + k) && 0 <= x * Pow2(k) < B32 && x * Pow2(k) % B32 == x * Pow2(k)
  {
    hide Pow2;
    ShiftUp(x0, x, n, k);
    MulMonotone(x + 1, limit + 1, Pow2(k));
    MulMonotone(0, x, Pow2(k));
    assert (x + 1) * Pow2(k) == x * Pow2(k) + Pow2(k);
  }

  lemma ShiftUp(x0: int, x: int, n: nat, k: nat)
    requires x == x0 * Pow2(n)
    ensures x * Pow2(k) == x0 * Pow2(n + k)
  {
    Pow2Add(n, k);
    assert x0 * Pow2(n) * Pow2(k) == x0 * (Pow2(n) * Pow2(k));
  }

  // ----- unsigned division -----

  /** The quotient of all 64-bit n and d, d nonzero; no `divl` on the way traps. */
  method Udiv64(n: U64, d: U64) returns (q: U64)
    requires d != 0
    ensures q == n / d
  {
    if d / B32 == 0 {
      q := UdivLow(n, d);
    } else if n < d {
      q := 0;
    } else {
      q := UdivHigh(n, d);
    }
    QuotientUnique(n, d, q);
  }

  /** The branch of `udiv64` for a 32-bit divisor. */
  method UdivLow(n: U64, d: U32) returns (q: U64)
    requires d != 0
    ensures Brackets(n, d, q)
  {
    var n1: U32, n0: U32 := n / B32, n % B32;
    ghost var t := Quotient(n1, d);
    LowFits(n1, n0, d, t);
    var k := Divl(B32 * (n1 % d) + n0, d);
    LowDivisor(n1, n0, d, t, k);
    q := Low64(k + B32 * (n1 / d));
  }

  /** The schoolbook step for a 32-bit divisor does not trap. */
  lemma LowFits(n1: U32, n0: U32, d: U32, t: int)
    requires d > 0 && t == n1 / d && Brackets(n1, d, t)
    ensures n1 % d == n1 - t * d
    ensures 0 <= B32 * (n1 - t * d) + n0 < d * B32
  {
    QuotientUnique(n1, d, t);
    MulMonotone(n1 - t * d + 1, d, B32);
  }

  lemma LowDivisor(n1: U32, n0: U32, d: U32, t: int, k: U32)
    requires 0 <= t <= n1 && d > 0 && Brackets(n1, d, t) && Brackets(B32 * (n1 - t * d) + n0, d, k)
    ensures Brackets(B32 * n1 + n0, d, k + B32 * t) && 0 <= k + B32 * t < B64
  {
    assert (k + B32 * t) * d == k * d + B32 * (t * d);
  }

  /** The branch of `udiv64` for a divisor of more than 32 bits. */
  method UdivHigh(n: U64, d: U64) returns (q: U64)
    requires B32 <= d <= n
    ensures Brackets(n, d, q)
  {
    var d1: U32 := d / B32;
    var s := Nlz(d1);
    var dn := Normalized(d, d1, s);
    var k := Divl(n / 2, dn);
    var e := ShiftRight(k, 31 - s);
    ghost var t := Quotient(n, d);
    assert t >= 1 by { if t < 1 { MulMonotone(t, 0, d); } }
    HighDivisor(n, d, s, dn, k, e, t);
    Correction(n, d, t, e);
    var r := Low64(n - (e - 1) * d);
    q := if r < d then e - 1 else e;
  }

  /** The final step: comparing the remainder of e - 1 with d picks the quotient. */
  lemma Correction(n: U64, d: U64, t: int, e: int)
    requires d > 0 && t >= 1 && Brackets(n, d, t) && (e == t || e == t + 1)
    ensures 0 <= n - (e - 1) * d < B64
    ensures n - (e - 1) * d < d <==> e == t + 1
  {
    MulMonotone(0, e - 1, d);
    assert (t - 1) * d == t * d - d;
  }

  method ShiftRight(x: U32, k: nat) returns (r: U32)
    ensures Brackets(x, Pow2(k), r)
  {
    ghost var t := Quotient(x, Pow2(k));
    r := x / Pow2(k);
  }

  /** (d << s) >> 32, the top word of d shifted left until its top bit is set. */
  method Normalized(d: U64, d1: U32, s: nat) returns (dn: U32)
    requires s <= 31 && d1 == d / B32 && 0x8000_0000 <= d1 * Pow2(s) < B32
    ensures 0x8000_0000 <= dn
    ensures Brackets(d, Pow2(32 - s), dn)
  {
    NormalizedBounds(d, d1, s);
    var shifted := Low64(d * Pow2(s));
    dn := shifted / B32;
  }

  lemma NormalizedBounds(d: U64, d1: U32, s: nat)
    requires s <= 31 && d1 == d / B32 && 0x8000_0000 <= d1 * Pow2(s) < B32
    ensures 0 <= d * Pow2(s) < B64
    ensures var dn := d * Pow2(s) / B32; 0x8000_0000 <= dn < B32 && Brackets(d, Pow2(32 - s), dn)
  {
    var p, c := Pow2(s), Pow2(32 - s);
    assert p * c == B32 by { Pow2Values(); Pow2Add(s, 32 - s); }
    ShiftedBounds(d, d1, p, c);
    var dn := Quotient(d * p, B32);
    ShiftedBack(d, dn, p, c);
  }

  /** The top bit of the high word h, once shifted by p, is set; nothing is lost. */
  lemma ShiftedBounds(d: nat, h: nat, p: nat, c: nat)
    requires p >= 1 && p * c == B32 && Brackets(d, B32, h)
    requires 0x8000_0000 <= h * p < B32
    ensures B63 <= d * p < B64
  {
    assert h + 1 <= c by { if h >= c { MulMonotone(c, h, p); } }
    MulMonotone(h + 1, c, p);
    MulMonotone(h * B32, d, p);
    MulMonotone(d + 1, (h + 1) * B32, p);
    assert h * B32 * p == h * p * B32 && (h + 1) * B32 * p == (h + 1) * p * B32;
  }

  lemma ShiftedBack(d: nat, dn: nat, p: nat, c: nat)
    requires p >= 1 && p * c == B32 && Brackets(d * p, B32, dn)
    ensures Brackets(d, c, dn)
  {
    assert dn * c * p == dn * B32 && (dn * c + c) * p == dn * B32 + B32;
    if dn * c > d { MulMonotone(d + 1, dn * c, p); }
    if d >= dn * c + c { MulMonotone(dn * c + c, d, p); }
  }

  /** Dividing n / 2 by dn and then by h is dividing n by 2 * dn * h. */
  lemma NestedQuotient(n: int, n2: int, dn: int, h: int, k: int, e: int)
    requires 2 * n2 <= n <= 2 * n2 + 1 && dn > 0 && h > 0
    requires Brackets(n2, dn, k) && Brackets(k, h, e)
    ensures Brackets(n, dn * (2 * h), e)
  {
    MulMonotone(e * h, k, dn);
    MulMonotone(k + 1, e * h + h, dn);
    assert e * (dn * (2 * h)) == 2 * (e * h * dn);
    assert dn * (2 * h) == 2 * (h * dn);
  }

  /** Rounding the divisor down from d to m raises the quotient by at most one,
      provided the rounding error is small against m. */
  lemma EstimateStep(n: int, d: int, q: int, m: int, e: int)
    requires 0 < m <= d && q >= 0
    requires Brackets(n, d, q) && Brackets(n, m, e)
    requires (q + 1) * (d - m) <= m
    ensures e == q || e == q + 1
  {
    MulMonotone(m, d, q);
    assert (q + 1) * d == (q + 1) * m + (q + 1) * (d - m);
    if e > q + 1 { MulMonotone(q + 2, e, m); }
    if e < q { MulMonotone(e + 1, q, m); }
  }

  /** The rounding error of a normalized divisor is small. */
  lemma SmallError(n: int, d: int, dn: int, c: int, p: int, q: int)
    requires n < B64 && q >= 0
    requires 0x8000_0000 <= dn && Brackets(d, c, dn)
    requires p * c == 2 * B32 && (c == 2 || c >= 4) && p > 0
    requires q * d <= n
    ensures (q + 1) * (d - dn * c) <= dn * c
  {
    var m := dn * c;
    MulMonotone(0x8000_0000, dn, c);
    assert B64 <= p * m by {
      MulMonotone(0x8000_0000 * c, m, p);
      assert 0x8000_0000 * c * p == 0x8000_0000 * (p * c);
    }
    MulMonotone(m, d, q);
    assert q < p by { if q >= p { MulMonotone(p, q, m); } }
    var g := d - m;
    MulMonotone(q + 1, p, g);
    MulMonotone(g, c - 1, p);
    assert p * (c - 1) == 2 * B32 - p;
  }

  /** The estimate from the normalized divisor is the true quotient or one more. */
  lemma HighDivisor(n: U64, d: U64, s: nat, dn: U32, k: int, e: int, q: int)
    requires s <= 31 && B32 <= d <= n && q >= 0
    requires 0x8000_0000 <= dn
    requires Brackets(d, Pow2(32 - s), dn)
    requires Brackets(n / 2, dn, k) && Brackets(k, Pow2(31 - s), e) && Brackets(n, d, q)
    ensures e == q || e == q + 1
  {
    var c, h, p := Pow2(32 - s), Pow2(31 - s), Pow2(s + 1);
    assert p * c == 2 * B32 by { Pow2Values(); Pow2Add(s + 1, 32 - s); assert Pow2(33) == 2 * Pow2(32); }
    assert c == 2 || c >= 4 by { if s < 31 { assert h == 2 * Pow2(30 - s); } }
    NestedQuotient(n, n / 2, dn, h, k, e);
    assert c == 2 * h;
    SmallError(n, d, dn, c, p, q);
    assert 0 < dn * c;
    EstimateStep(n, d, q, dn * c, e);
  }

  // ----- remainders and signed division -----

  /** `umod64` returns a 32-bit word: the remainder modulo 2^32. */
  method Umod64(n: U64, d: U64) returns (r: U32)
    requires d != 0
    ensures r == n % d % B32
  {
    var q := Udiv64(n, d);
    assert d * q == n - n % d;
    var m := Low64(n - d * q);
    r := m % B32;
  }

  /** The remainder is exact for every n exactly when d is at most 2^32. */
  lemma Umod64Exact(d: U64)
    requires d != 0
    ensures (forall n: U64 :: n % d % B32 == n % d) <==> d <= B32
  {
    if d > B32 {
      var n: U64 := B32;
      QuotientUnique(n, d, 0);
      assert n % d % B32 != n % d;
    } else {
      forall n: U64 ensures n % d % B32 == n % d { var q := Quotient(n, d); }
    }
  }

  /** `sdiv64`: exact except for INT64_MIN / -1, whose quotient is not an int64_t. */
  method Sdiv64(n: I64, d: I64) returns (q: I64)
    requires d != 0
    ensures q == ToI64(TruncDiv(n, d))
  {
    var qAbs := Udiv64(Magnitude(n), Magnitude(d));
    q := if (n < 0) == (d < 0) then ToI64(qAbs) else ToI64(0 - ToI64(qAbs));
    NegateWraps(qAbs);
  }

  /** The quotient is the truncated one exactly when it is not INT64_MIN / -1. */
  lemma Sdiv64Exact(n: I64, d: I64)
    requires d != 0
    ensures ToI64(TruncDiv(n, d)) == TruncDiv(n, d) <==> !(n == -B63 && d == -1)
  {
    var q := Quotient(Abs(n), Abs(d));
    if Abs(d) == 1 {
      assert q == Abs(n);
    } else {
      MulMonotone(2, Abs(d), q);
      assert q < B63;
    }
    if TruncDiv(n, d) < B63 { FitsI64(TruncDiv(n, d)); }
  }

  lemma FitsI64(x: int)
    requires -B63 <= x < B63
    ensures ToI64(x) == x
  {}

  /** (uint64_t) n, negated modulo 2^64 when n is negative: the magnitude of n, also for INT64_MIN. */
  function Magnitude(n: I64): (m: U64)
    ensures m == Abs(n)
  {
    if n >= 0 then n else (0 - n) % B64
  }

  lemma NegateWraps(x: int)
    ensures ToI64(0 - ToI64(x)) == ToI64(-x)
  {}

  /** `smod64` returns an int32_t: the truncated remainder modulo 2^32. */
  method Smod64(n: I64, d: I64) returns (r: I32)
    requires d != 0
    ensures r == ToI32(n - d * TruncDiv(n, d))
  {
    var q := Sdiv64(n, d);
    r := ToI32(ToI64(n - ToI64(d * q)));
    RemainderWraps(n, d, TruncDiv(n, d));
  }

  lemma Wraps64(x: int) returns (k: int)
    ensures ToI64(x) == x - k * B64
  {
    k := if x % B64 < B63 then x / B64 else x / B64 + 1;
  }

  lemma ShiftBy64(x: int, k: int)
    ensures ToI32(x + k * B64) == ToI32(x)
  {
    assert (x + k * B64) % B32 == x % B32;
  }

  lemma RemainderWraps(n: int, d: int, t: int)
    ensures ToI32(ToI64(n - ToI64(d * ToI64(t)))) == ToI32(n - d * t)
  {
    var i := Wraps64(t);
    var p := d * ToI64(t);
    assert p == d * t - d * i * B64;
    var j := Wraps64(p);
    var l := Wraps64(n - ToI64(p));
    ShiftBy64(n - d * t, d * i + j - l);
  }

  /** The signed remainder is exact for every n exactly when |d| is at most 2^31. */
  lemma Smod64Exact(d: I64)
    requires d != 0
    ensures (forall n: I64 :: ToI32(n - d * TruncDiv(n, d)) == n - d * TruncDiv(n, d))
      <==> Abs(d) <= 0x8000_0000
  {
    if Abs(d) > 0x8000_0000 {
      var n: I64 := 0x8000_0000;
      QuotientUnique(Abs(n), Abs(d), 0);
      assert ToI32(n - d * TruncDiv(n, d)) != n - d * TruncDiv(n, d);
    } else {
      forall n: I64 ensures ToI32(n - d * TruncDiv(n, d)) == n - d * TruncDiv(n, d) {
        SmallRemainder(n, d);
      }
    }
  }

  lemma SmallRemainder(n: int, d: int)
    requires 0 < Abs(d) <= 0x8000_0000
    ensures -0x8000_0000 < n - d * TruncDiv(n, d) < 0x8000_0000
  {
    var q := Quotient(Abs(n), Abs(d));
    assert d * TruncDiv(n, d) == if n < 0 then -(q * Abs(d)) else q * Abs(d);
  }
}
