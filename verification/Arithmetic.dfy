/** The 64-bit division of lib/arithmetic.c, built on a 64-by-32-bit divide instruction. */
module Arithmetic {
  import opened Bits

  const B32: nat := 0x1_0000_0000
  const B64: nat := 0x1_0000_0000_0000_0000

  /** The DIVL instruction: it traps unless the quotient fits in 32 bits. */
  method Divl(n: nat, d: nat) returns (q: nat)
    requires n < B64 && 0 < d < B32 && n / d < B32
    ensures q == n / d
  {
    q := n / d;
  }

  /** The number of leading zero bits of a nonzero 32-bit x: shifting x by it sets the top bit and loses nothing. */
  method Nlz(x: nat) returns (n: nat)
    requires 0 < x < B32
    ensures n <= 31 && B32 / 2 <= x * Pow2(n) < B32
  {
    n := 0;
    var y := x;
    SmallPowers();
    assert Shifted(x, n, y);
    hide Pow2, Shifted, Normal;
    if y <= 0x0000_FFFF {
      ShiftBy(x, n, y, 16, 0x1_0000);
      n, y := n + 16, Wrap32(y * 0x1_0000);
    }
    assert 0x1_0000 <= y < B32 && n <= 16;
    if y <= 0x00FF_FFFF {
      ShiftBy(x, n, y, 8, 0x100);
      n, y := n + 8, Wrap32(y * 0x100);
    }
    assert 0x100_0000 <= y < B32 && n <= 24;
    if y <= 0x0FFF_FFFF {
      ShiftBy(x, n, y, 4, 0x10);
      n, y := n + 4, Wrap32(y * 0x10);
    }
    assert 0x1000_0000 <= y < B32 && n <= 28;
    if y <= 0x3FFF_FFFF {
      ShiftBy(x, n, y, 2, 4);
      n, y := n + 2, Wrap32(y * 4);
    }
    assert 0x4000_0000 <= y < B32 && n <= 30;
    if y <= 0x7FFF_FFFF {
      ShiftBy(x, n, y, 1, 2);
      n, y := n + 1, Wrap32(y * 2);
    }
    TopSet(x, n, y);
  }

  /** Arithmetic on uint32_t. */
  function Wrap32(x: nat): (r: nat)
    ensures x < B32 ==> r == x
  {
    x % B32
  }

  /** Shifting x left by n brings its highest one to bit 31. */
  predicate Normal(x: nat, n: nat) { B32 / 2 <= x * Pow2(n) < B32 }

  lemma NormalIs(x: nat, n: nat)
    ensures Normal(x, n) <==> B32 / 2 <= x * Pow2(n) < B32
  { }

  lemma TopSet(x: nat, n: nat, y: nat)
    requires Shifted(x, n, y) && B32 / 2 <= y < B32
    ensures Normal(x, n)
  { }

  predicate Shifted(x: nat, n: nat, y: nat) { y == x * Pow2(n) }

  lemma {:induction false} Pow2Add(a: nat, b: nat)
    ensures Pow2(a + b) == Pow2(a) * Pow2(b)
  {
    if b > 0 {
      Pow2Add(a, b - 1);
      assert Pow2(a) * (2 * Pow2(b - 1)) == 2 * (Pow2(a) * Pow2(b - 1));
    }
  }

  lemma ShiftBy(x: nat, n: nat, y: nat, k: nat, c: nat)
    requires Shifted(x, n, y) && c == Pow2(k)
    ensures Shifted(x, n + k, y * c)
  {
    Pow2Add(n, k);
    var p := Pow2(n);
    assert x * (p * c) == x * p * c;
  }

  lemma SmallPowers()
    ensures Pow2(0) == 1 && Pow2(1) == 2 && Pow2(2) == 4 && Pow2(4) == 0x10 && Pow2(8) == 0x100 && Pow2(16) == 0x1_0000
    ensures Pow2(31) == 0x8000_0000 && Pow2(32) == 0x1_0000_0000
  {
    assert Pow2(8) == 0x100;
    Pow2Add(8, 8);
    Pow2Add(16, 15);
    Pow2Add(8, 7);
    assert Pow2(7) == 128;
  }

  lemma QuotientBounds(n: nat, d: nat)
    requires d > 0
    ensures n / d * d <= n < (n / d + 1) * d
  { }

  lemma DivDiv(n: nat, a: nat, b: nat)
    requires a > 0 && b > 0
    ensures a * b > 0 && n / a / b == n / (a * b)
  {
    var p, r := n / a, n % a;
    var q, t := p / b, p % b;
    assert n == p * a + r && p == q * b + t;
    assert (q * b + t) * a == q * (a * b) + t * a;
    MulMono(t, b - 1, a);
    assert (b - 1) * a == a * b - a;
    assert 0 <= t * a by { MulMono(0, t, a); }
    assert 0 < a * b by { MulMono(1, b, a); }
    DivModUnique(n, a * b, q, t * a + r);
  }

  /** Scaling numerator and denominator alike. */
  lemma DivScale(n: nat, d: nat, c: nat)
    requires d > 0 && c > 0
    ensures d * c > 0 && (n * c) / (d * c) == n / d
  {
    var q, r := n / d, n % d;
    assert n == q * d + r;
    assert n * c == q * (d * c) + r * c;
    MulMono(r, d - 1, c);
    assert (d - 1) * c == d * c - c;
    assert 0 <= r * c by { MulMono(0, r, c); }
    DivModUnique(n * c, d * c, q, r * c);
  }

  /** Long division by a 32-bit digit: the second step's quotient is a digit, and the digits make the quotient. */
  lemma TwoDigits(n: nat, d: nat)
    requires 0 < d < B32 && n < B64
    ensures var n1, n0 := n / B32, n % B32;
            (B32 * (n1 % d) + n0) / d < B32 && n / d == (B32 * (n1 % d) + n0) / d + B32 * (n1 / d)
  {
    var n1, n0 := n / B32, n % B32;
    var q1, r1 := n1 / d, n1 % d;
    var m := B32 * r1 + n0;
    var q0, r0 := m / d, m % d;
    assert n1 == q1 * d + r1 && m == q0 * d + r0;
    assert n == (q0 + B32 * q1) * d + r0 by {
      assert n == B32 * (q1 * d + r1) + n0;
      assert B32 * (q1 * d) == (B32 * q1) * d;
    }
    DivModUnique(n, d, q0 + B32 * q1, r0);
    MulMono(r1, d - 1, B32);
    if q0 >= B32 {
      MulMono(B32, q0, d);
    }
  }

  lemma QuotientRange(n: nat, t: nat, q: nat)
    requires t > 0 && q * t <= n < (q + 2) * t
    ensures q <= n / t <= q + 1
  {
    var p := n / t;
    QuotientBounds(n, t);
    if p < q {
      MulMono(p + 1, q, t);
    } else if p > q + 1 {
      MulMono(q + 2, p, t);
    }
  }

  /** Dividing by the normalised top half v of d: the estimate is the quotient q or one more. */
  lemma Estimate(n: nat, d: nat, k: nat, m: nat, v: nat, q: nat)
    requires n < B64 && k >= 2 && k * m == 2 * B32 && B32 / 2 <= v
    requires v * k <= d < (v + 1) * k && q * d <= n < (q + 1) * d
    ensures v * k > 0 && q <= n / (v * k) <= q + 1
  {
    var t := v * k;
    assert (v + 1) * k == t + k;
    MulMono(B32 / 2, v, k);
    QuotientSmall(n, d, k, m, q);
    TruncationSmall(q, m, d - t, k, t);
    EstimateWithin(n, d, t, d - t, q);
  }

  lemma EstimateWithin(n: nat, d: nat, t: nat, r: nat, q: nat)
    requires 0 < t && d == t + r && q * d <= n < (q + 1) * d && (q + 1) * r <= t
    ensures q <= n / t <= q + 1
  {
    Distribute(q, t, r, d);
    MulMono(t, d, q);
    QuotientRange(n, t, q);
  }

  lemma Distribute(q: nat, t: nat, r: nat, d: nat)
    requires d == t + r
    ensures (q + 1) * d == (q + 1) * t + (q + 1) * r && (q + 2) * t == (q + 1) * t + t
    ensures q * t == t * q && q * d == d * q
  { }

  lemma QuotientSmall(n: nat, d: nat, k: nat, m: nat, q: nat)
    requires q * d <= n < B64 && B32 / 2 * k <= d && k * m == 2 * B32
    ensures q < m
  {
    MulMono(B32 / 2 * k, d, m);
    assert B32 / 2 * k * m == B32 / 2 * (k * m);
    assert d * m == m * d;
    if q >= m {
      MulMono(m, q, d);
    }
  }

  lemma TruncationSmall(q: nat, m: nat, r: nat, k: nat, t: nat)
    requires q < m && r < k && 2 <= k && k * m == 2 * B32 && B32 / 2 * k <= t
    ensures (q + 1) * r <= t
  {
    MulMono(q + 1, m, r);
    MulMono(r, k - 1, m);
    assert r * m == m * r && (k - 1) * m == 2 * B32 - m;
    assert k == 3 ==> 3 * m == 2 * B32;
    assert k == 2 ==> 2 * m == 2 * B32;
  }

  /** Shifting d left until its upper half is normalised loses nothing. */
  lemma Normalise(d: nat, p: nat)
    requires B32 <= d < B64 && p > 0 && B32 / 2 <= d / B32 * p < B32 && p * (B32 / p) == B32
    ensures d * p < B64 && B32 / 2 <= d * p / B32 < B32
  {
    var d1, d0, k := d / B32, d % B32, B32 / p;
    assert d == d1 * B32 + d0;
    assert d * p == d1 * p * B32 + d0 * p by { Distribute(p - 1, d1 * B32, d0, d); assert p * (d1 * B32) == d1 * p * B32; }
    MulMono(d0, B32 - 1, p);
    MulMono(0, d0, p);
    if d1 >= k {
      MulMono(k, d1, p);
    }
    MulMono(d1, k - 1, p);
    assert (k - 1) * p == B32 - p;
    MulMono(d1 * p, B32 - p, B32);
    QuotientBounds(d * p, B32);
  }

  /** The estimate as the code computes it, for a shift s that normalises d's upper half. */
  lemma EstimateParts(n: nat, d: nat, s: nat)
    requires B32 <= d <= n < B64 && s <= 31 && B32 / 2 <= d / B32 * Pow2(s) < B32
    ensures d * Pow2(s) < B64
    ensures var v := d * Pow2(s) / B32;
            && B32 / 2 <= v < B32 && n / 2 / v < B32
            && n / d <= n / 2 / v / Pow2(31 - s) <= n / d + 1
  {
    SmallPowers();
    Pow2Add(s, 31 - s);
    EstimateShifted(n, d, Pow2(s), Pow2(31 - s));
  }

  lemma EstimateShifted(n: nat, d: nat, p: nat, e: nat)
    requires B32 <= d <= n < B64 && p > 0 && e > 0 && p * e == B32 / 2 && B32 / 2 <= d / B32 * p < B32
    ensures d * p < B64
    ensures var v := d * p / B32;
            && B32 / 2 <= v < B32 && n / 2 / v < B32
            && n / d <= n / 2 / v / e <= n / d + 1
  {
    var k := 2 * e;
    assert p * k == B32 by { assert p * k == 2 * (p * e); }
    DivModUnique(B32, k, p, 0);
    Normalised(d, p, k);
    var v := d / k;
    EstimateTop(n, d, p, e, v);
  }

  lemma Normalised(d: nat, p: nat, k: nat)
    requires B32 <= d < B64 && p > 0 && k > 0 && p * k == B32 && B32 / 2 <= d / B32 * p < B32
    ensures d * p < B64 && d * p / B32 == d / k && B32 / 2 <= d / k < B32
  {
    DivModUnique(B32, p, k, 0);
    Normalise(d, p);
    DivScale(d, k, p);
    assert k * p == p * k;
  }

  lemma EstimateTop(n: nat, d: nat, p: nat, e: nat, v: nat)
    requires 0 < d <= n < B64 && e > 0 && p * (2 * e) == B32 && v == d / (2 * e) && B32 / 2 <= v
    ensures n / 2 / v < B32 && n / d <= n / 2 / v / e <= n / d + 1
  {
    var k := 2 * e;
    assert k * (2 * p) == 2 * (p * k);
    QuotientBounds(n, d);
    QuotientBounds(d, k);
    Estimate(n, d, k, 2 * p, v, n / d);
    EstimateSteps(n, v, e);
    TopFits(n, v);
  }

  /** Halving, dividing and shifting right make one division. */
  lemma EstimateSteps(n: nat, v: nat, e: nat)
    requires v > 0 && e > 0
    ensures v * (2 * e) > 0 && n / 2 / v / e == n / (v * (2 * e))
  {
    DivDiv(n, 2, v);
    DivDiv(n, 2 * v, e);
    assert 2 * v * e == v * (2 * e);
  }

  lemma TopFits(n: nat, v: nat)
    requires n < B64 && B32 / 2 <= v
    ensures n / 2 / v < B32
  { }

  /** Unsigned 64-bit division: exact for every dividend and nonzero divisor, and no divide instruction traps. */
  method Udiv64(n: nat, d: nat) returns (q: nat)
    requires n < B64 && 0 < d < B64
    ensures q == n / d
  {
    hide Pow2, Wrap64, Normal;
    if d / B32 == 0 {
      var n1, n0 := n / B32, n % B32;
      TwoDigits(n, d);
      var low := Divl(B32 * (n1 % d) + n0, d);
      q := low + B32 * (n1 / d);
    } else if n < d {
      SmallMod(n, d);
      q := 0;
    } else {
      var s := Nlz(d / B32);
      NormalIs(d / B32, s);
      EstimateParts(n, d, s);
      WrapSmall(d * Pow2(s));
      var top := Divl(n / 2, Wrap64(d * Pow2(s)) / B32);
      var e := top / Pow2(31 - s);
      Correction(n, d, e);
      q := if Wrap64(n - Wrap64((e - 1) * d)) < d then Wrap64(e - 1) else e;
    }
  }

  /** Arithmetic on uint64_t. */
  function Wrap64(x: int): nat { x % B64 }

  lemma Correction(n: nat, d: nat, e: nat)
    requires 0 < d <= n < B64 && n / d <= e <= n / d + 1
    ensures e >= 1 && Wrap64(e - 1) == e - 1 && Wrap64((e - 1) * d) == (e - 1) * d <= n
    ensures Wrap64(n - (e - 1) * d) == n - (e - 1) * d
    ensures n - (e - 1) * d < d <==> n / d == e - 1
  {
    QuotientBounds(n, d);
    CorrectionFrom(n, d, n / d, e);
    WrapSmall(e - 1);
    WrapSmall((e - 1) * d);
    WrapSmall(n - (e - 1) * d);
  }

  lemma WrapSmall(x: int)
    ensures 0 <= x < B64 ==> Wrap64(x) == x
  { }

  lemma CorrectionFrom(n: nat, d: nat, q: nat, e: nat)
    requires 0 < d <= n && q * d <= n < (q + 1) * d && q <= e <= q + 1
    ensures e >= 1 && 0 <= (e - 1) * d <= n && e - 1 <= n
    ensures n - (e - 1) * d < d <==> q == e - 1
  { }

  /** The remainder as umod64 returns it, in 32 bits: exact exactly when the remainder fits. */
  method Umod64(n: nat, d: nat) returns (r: nat)
    requires n < B64 && 0 < d < B64
    ensures r < B32 && r % B32 == n % d % B32
    ensures r == n % d <==> n % d < B32
  {
    var q := Udiv64(n, d);
    assert n - d * q == n % d by { assert n == n / d * d + n % d; }
    WrapSmall(d * q);
    WrapSmall(n - d * q);
    MulMono(0, q, d);
    r := Wrap64(n - Wrap64(d * q)) % B32;
  }

  const B63: nat := 0x8000_0000_0000_0000

  predicate IsInt64(x: int) { 0 - B63 <= x < B63 }

  /** Conversion to int64_t, in two's complement. */
  function Signed64(x: int): (y: int)
    ensures IsInt64(y)
  {
    if Wrap64(x) < B63 then Wrap64(x) else Wrap64(x) - B64
  }

  function Abs(x: int): nat { if x < 0 then -x else x }

  function Quot(a: nat, b: nat): nat
    requires b > 0
  {
    a / b
  }

  function WithSign(n: int, d: int, q: int): int { if (n < 0) == (d < 0) then q else 0 - q }

  /** The quotient rounded toward zero. */
  function Truncated(n: int, d: int): int
    requires d != 0
  {
    WithSign(n, d, Quot(Abs(n), Abs(d)))
  }

  /** It leaves a remainder smaller than the divisor and of the dividend's sign. */
  lemma TruncatedRemainder(n: int, d: int)
    requires d != 0
    ensures var r := n - Truncated(n, d) * d;
            Abs(r) < Abs(d) && (n >= 0 ==> r >= 0) && (n <= 0 ==> r <= 0)
  { }

  /** Signed 64-bit division truncates toward zero, except for the one quotient that does not fit. */
  method Sdiv64(n: int, d: int) returns (q: int)
    requires IsInt64(n) && IsInt64(d) && d != 0
    ensures q == Truncated(n, d) <==> !(n == 0 - B63 && d == -1)
  {
    var nAbs := if n >= 0 then n else Wrap64(0 - Wrap64(n));
    var dAbs := if d >= 0 then d else Wrap64(0 - Wrap64(d));
    NegateAbs(n);
    NegateAbs(d);
    assert nAbs == Abs(n) && dAbs == Abs(d);
    var qAbs := Udiv64(nAbs, dAbs);
    assert qAbs == Quot(Abs(n), Abs(d));
    QuotientFits(n, d);
    hide Quot;
    q := if (n < 0) == (d < 0) then Signed64(qAbs) else Signed64(0 - Signed64(qAbs));
    SignedQuotient(n, d, qAbs);
  }

  lemma NegateAbs(x: int)
    requires IsInt64(x)
    ensures x < 0 ==> Wrap64(0 - Wrap64(x)) == -x
  { }

  lemma SignedQuotient(n: int, d: int, q: nat)
    requires IsInt64(n) && IsInt64(d) && d != 0
    requires q <= B63 && (q == B63 <==> n == 0 - B63 && (d == 1 || d == -1))
    ensures (n < 0) == (d < 0) ==> (Signed64(q) == q <==> !(n == 0 - B63 && d == -1))
    ensures (n < 0) != (d < 0) ==> Signed64(0 - Signed64(q)) == 0 - q
  { }

  lemma QuotientFits(n: int, d: int)
    requires IsInt64(n) && IsInt64(d) && d != 0
    ensures var q := Quot(Abs(n), Abs(d));
            q <= B63 && (q == B63 <==> n == 0 - B63 && (d == 1 || d == -1))
  { }
}
