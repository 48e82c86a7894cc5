/** Bitwise operations of the machine's unsigned integers, on natural numbers. */
module Bits {

  function Pow2(k: nat): (p: nat)
    ensures p > 0
  {
    if k == 0 then 1 else 2 * Pow2(k - 1)
  }

  /** C's `x & y` on unsigned operands. */
  function And(x: nat, y: nat): nat {
    if x == 0 || y == 0 then 0
    else 2 * And(x / 2, y / 2) + (if x % 2 == 1 && y % 2 == 1 then 1 else 0)
  }

  /** C's `x | y` on unsigned operands. */
  function Or(x: nat, y: nat): nat {
    if x == 0 then y else if y == 0 then x
    else 2 * Or(x / 2, y / 2) + (if x % 2 == 1 || y % 2 == 1 then 1 else 0)
  }

  /** Masking with k low ones is the remainder modulo 2^k. */
  lemma {:induction false} AndLowMask(x: nat, k: nat)
    ensures And(x, Pow2(k) - 1) == x % Pow2(k)
  {
    if k == 0 {
      AndNothing(x);
      hide And;
    } else {
      var p := Pow2(k - 1);
      assert Pow2(k) == 2 * p;
      hide And, Pow2;
      AndLowMask(x / 2, k - 1);
      MaskDouble(x, p, Pow2(k));
    }
  }

  lemma MaskDouble(x: nat, p: nat, d: nat)
    requires p > 0 && d == 2 * p
    ensures And(x, d - 1) == 2 * And(x / 2, p - 1) + x % 2 && x % d == 2 * (x / 2 % p) + x % 2
  {
    hide And;
    AndDouble(x, p - 1, 1);
    DivModDouble(x, p);
  }

  lemma AndNothing(x: nat)
    ensures And(x, 0) == 0 && Pow2(0) == 1
  { }

  /** Masking a w-bit number with the ones from bit k up clears its k low bits. */
  lemma {:induction false} AndHighMask(x: nat, k: nat, w: nat)
    requires k <= w && x < Pow2(w)
    ensures Pow2(k) <= Pow2(w)
    ensures And(x, Pow2(w) - Pow2(k)) == x - x % Pow2(k)
  {
    if k == 0 {
      AndLowMask(x, w);
      SmallMod(x, Pow2(w));
    } else {
      var p := Pow2(k - 1);
      AndHighMask(x / 2, k - 1, w - 1);
      AndDouble(x, Pow2(w - 1) - p, 0);
      DivModDouble(x, p);
    }
  }

  lemma SmallMod(x: nat, d: nat)
    requires x < d
    ensures x / d == 0 && x % d == x
  {
    DivModUnique(x, d, 0, x);
  }

  lemma DivModDouble(x: nat, p: nat)
    requires p > 0
    ensures x % (2 * p) == 2 * (x / 2 % p) + x % 2
    ensures x / (2 * p) == x / 2 / p
  {
    var h := x / 2;
    var q, r := h / p, h % p;
    assert h == q * p + r;
    assert x == q * (2 * p) + (2 * r + x % 2) by {
      assert q * (2 * p) == 2 * (q * p);
    }
    DivModUnique(x, 2 * p, q, 2 * r + x % 2);
  }

  /** Quotient and remainder are determined by their defining equation. */
  lemma DivModUnique(x: int, d: int, q: int, r: int)
    requires 0 <= r < d && x == q * d + r
    ensures x / d == q && x % d == r
  {
    var q', r' := x / d, x % d;
    assert x == q' * d + r';
    assert (q - q') * d == r' - r;
    assert (q' - q) * d == r - r';
    if q > q' {
      MulMono(1, q - q', d);
    } else if q < q' {
      MulMono(1, q' - q, d);
    }
  }

  lemma MulMono(a: int, b: int, d: int)
    requires a <= b && 0 <= d
    ensures a * d <= b * d
  {
    assert (b - a) * d >= 0;
  }

  /** Or-ing numbers below 2^k leaves the bits from k up alone. */
  lemma {:induction false} OrLow(x: nat, a: nat, b: nat, k: nat)
    requires x % Pow2(k) == 0 && a < Pow2(k) && b < Pow2(k)
    ensures Or(x + a, b) == x + Or(a, b)
  {
    if k != 0 {
      var p := Pow2(k - 1);
      DivModDouble(x, p);
      OrLow(x / 2, a / 2, b / 2, k - 1);
      OrStep(x + a, b);
      OrStep(a, b);
      assert (x + a) / 2 == x / 2 + a / 2 && (x + a) % 2 == a % 2;
    }
  }

  lemma OrStep(x: nat, y: nat)
    ensures Or(x, y) == 2 * Or(x / 2, y / 2) + (if x % 2 == 1 || y % 2 == 1 then 1 else 0)
  {
  }

  predicate Bit(x: nat, k: nat) { x / Pow2(k) % 2 == 1 }

  lemma BitStep(x: nat, k: nat)
    requires k > 0
    ensures Bit(x, k) == Bit(x / 2, k - 1)
  {
    DivModDouble(x, Pow2(k - 1));
  }

  /** Testing, setting and clearing a single bit of a word. */
  lemma {:induction false} AndBit(x: nat, k: nat)
    ensures And(x, Pow2(k)) == if Bit(x, k) then Pow2(k) else 0
  {
    if k == 0 {
      AndLowMask(x, 1);
    } else {
      AndBit(x / 2, k - 1);
      BitStep(x, k);
      AndDouble(x, Pow2(k - 1), 0);
    }
  }

  lemma {:induction false} OrBit(x: nat, k: nat)
    ensures Or(x, Pow2(k)) == if Bit(x, k) then x else x + Pow2(k)
  {
    OrStep(x, Pow2(k));
    if k == 0 {
      OrStep(x / 2, 0);
    } else {
      OrBit(x / 2, k - 1);
      BitStep(x, k);
    }
  }

  lemma AndAllBut(x: nat, k: nat, w: nat)
    requires k < w
    ensures Pow2(k) < Pow2(w)
    ensures And(x, Pow2(w) - 1 - Pow2(k)) == x % Pow2(w) - (if Bit(x, k) then Pow2(k) else 0)
  {
    AndAllButLow(x, k, w);
    LowBitsMod(x, w);
  }

  function LowBits(x: nat, w: nat): nat {
    if w == 0 then 0 else 2 * LowBits(x / 2, w - 1) + x % 2
  }

  lemma {:induction false} LowBitsMod(x: nat, w: nat)
    ensures LowBits(x, w) == x % Pow2(w)
  {
    if w != 0 {
      LowBitsMod(x / 2, w - 1);
      DivModDouble(x, Pow2(w - 1));
    }
  }

  lemma {:induction false} AndAllButLow(x: nat, k: nat, w: nat)
    requires k < w
    ensures Pow2(k) < Pow2(w)
    ensures And(x, Pow2(w) - 1 - Pow2(k)) == LowBits(x, w) - (if Bit(x, k) then Pow2(k) else 0)
  {
    hide And, Bit;
    var p := Pow2(w - 1);
    if k == 0 {
      AndLowMask(x / 2, w - 1);
      LowBitsMod(x / 2, w - 1);
      AndDouble(x, p - 1, 0);
      BitZero(x);
    } else {
      AndAllButLow(x / 2, k - 1, w - 1);
      BitStep(x, k);
      var m := p - 1 - Pow2(k - 1);
      assert Pow2(w) - 1 - Pow2(k) == 2 * m + 1;
      AndDouble(x, m, 1);
    }
  }

  lemma BitZero(x: nat)
    ensures Bit(x, 0) == (x % 2 == 1)
  {
  }

  lemma AndDouble(x: nat, y: nat, bit: nat)
    requires bit < 2
    ensures And(x, 2 * y + bit) == 2 * And(x / 2, y) + (if x % 2 == 1 && bit == 1 then 1 else 0)
  {
    assert (2 * y + bit) / 2 == y && (2 * y + bit) % 2 == bit;
    AndStep(x, 2 * y + bit);
  }

  lemma AndStep(x: nat, y: nat)
    ensures And(x, y) == 2 * And(x / 2, y / 2) + (if x % 2 == 1 && y % 2 == 1 then 1 else 0)
  {
  }
}
