/** The packed bitmap of lib/kernel/bitmap.c. */
module Bitmap {
  import opened Bits
  import opened Sequences

  const ELEM_BITS: nat := 64

  /** `elem_type` */
  type Elem = x: nat | x < 0x1_0000_0000_0000_0000

  lemma WordSize()
    ensures Pow2(64) == 0x1_0000_0000_0000_0000
  {
    assert Pow2(8) == 0x100 && Pow2(16) == 0x1_0000 && Pow2(24) == 0x100_0000 && Pow2(32) == 0x1_0000_0000;
    assert Pow2(40) == 0x100_0000_0000 && Pow2(48) == 0x1_0000_0000_0000 && Pow2(56) == 0x100_0000_0000_0000;
  }

  // ---------------------------------------------------------------- single bits of words

  lemma {:induction false} BitOfOr(x: nat, y: nat, j: nat)
    ensures Bit(Or(x, y), j) <==> Bit(x, j) || Bit(y, j)
  {
    OrStep(x, y);
    if j == 0 {
      BitZero(x);
      BitZero(y);
      BitZero(Or(x, y));
    } else {
      BitStep(x, j);
      BitStep(y, j);
      BitStep(Or(x, y), j);
      BitOfOr(x / 2, y / 2, j - 1);
    }
  }

  lemma {:induction false} BitOfAnd(x: nat, y: nat, j: nat)
    ensures Bit(And(x, y), j) <==> Bit(x, j) && Bit(y, j)
  {
    AndStep(x, y);
    if j == 0 {
      BitZero(x);
      BitZero(y);
      BitZero(And(x, y));
    } else {
      BitStep(x, j);
      BitStep(y, j);
      BitStep(And(x, y), j);
      BitOfAnd(x / 2, y / 2, j - 1);
    }
  }

  lemma {:induction false} BitOfPow2(k: nat, j: nat)
    ensures Bit(Pow2(k), j) <==> j == k
  {
    if j == 0 {
      BitZero(Pow2(k));
    } else {
      BitStep(Pow2(k), j);
      if k == 0 {
        BitOfZero(j - 1);
      } else {
        BitOfPow2(k - 1, j - 1);
      }
    }
  }

  lemma {:induction false} BitOfZero(j: nat)
    ensures !Bit(0, j)
  { }

  /** The bits of a w-bit complement. */
  lemma {:induction false} BitOfComplement(x: nat, w: nat, j: nat)
    requires x < Pow2(w)
    ensures Bit(Pow2(w) - 1 - x, j) <==> j < w && !Bit(x, j)
  {
    var y := Pow2(w) - 1 - x;
    if w == 0 {
      BitOfZero(j);
    } else if j == 0 {
      BitZero(x);
      BitZero(y);
    } else {
      assert y / 2 == Pow2(w - 1) - 1 - x / 2;
      BitStep(x, j);
      BitStep(y, j);
      BitOfComplement(x / 2, w - 1, j - 1);
    }
  }

  lemma {:induction false} OrBound(x: nat, y: nat, w: nat)
    requires x < Pow2(w) && y < Pow2(w)
    ensures Or(x, y) < Pow2(w)
  {
    if w != 0 {
      OrStep(x, y);
      OrBound(x / 2, y / 2, w - 1);
    }
  }

  lemma {:induction false} AndBound(x: nat, y: nat)
    ensures And(x, y) <= x
  {
    if x != 0 && y != 0 {
      AndBound(x / 2, y / 2);
    }
  }

  lemma {:induction false} MaskBound(k: nat, w: nat)
    requires k < w
    ensures Pow2(k) < Pow2(w)
  {
    if k + 1 < w {
      MaskBound(k, w - 1);
    }
  }

  /** Or-ing the mask of a bit sets that bit only. */
  lemma MarkWord(x: Elem, k: nat, j: nat)
    requires k < ELEM_BITS
    ensures Or(x, Pow2(k)) < 0x1_0000_0000_0000_0000
    ensures Bit(Or(x, Pow2(k)), j) <==> Bit(x, j) || j == k
  {
    WordSize();
    MaskBound(k, 64);
    OrBound(x, Pow2(k), 64);
    BitOfOr(x, Pow2(k), j);
    BitOfPow2(k, j);
  }

  /** And-ing the complement of the mask clears that bit only. */
  lemma ResetWord(x: Elem, k: nat, j: nat)
    requires k < ELEM_BITS && j < ELEM_BITS
    ensures Pow2(k) < 0x1_0000_0000_0000_0000
    ensures And(x, 0xFFFF_FFFF_FFFF_FFFF - Pow2(k)) < 0x1_0000_0000_0000_0000
    ensures Bit(And(x, 0xFFFF_FFFF_FFFF_FFFF - Pow2(k)), j) <==> Bit(x, j) && j != k
  {
    WordSize();
    MaskBound(k, 64);
    var m := 0xFFFF_FFFF_FFFF_FFFF - Pow2(k);
    AndBound(x, m);
    BitOfAnd(x, m, j);
    BitOfComplement(Pow2(k), 64, j);
    BitOfPow2(k, j);
  }

  // ---------------------------------------------------------------- the bitmap

  function ElemIdx(bitIdx: nat): nat { bitIdx / ELEM_BITS }
  function BitMask(bitIdx: nat): nat { Pow2(bitIdx % ELEM_BITS) }
  function ElemCnt(bitCnt: nat): nat { (bitCnt + ELEM_BITS - 1) / ELEM_BITS }

  /** All of the cnt bits from start on have the value. */
  ghost predicate Group(b: seq<bool>, start: nat, cnt: nat, value: bool) {
    start + cnt <= |b| && forall i | start <= i < start + cnt :: b[i] == value
  }

  /** b with the cnt bits from start on set to a value. */
  ghost function WithSet(b: seq<bool>, start: nat, cnt: nat, value: bool): (r: seq<bool>)
    ensures |r| == |b|
  {
    seq(|b|, i requires 0 <= i < |b| => if start <= i < start + cnt then value else b[i])
  }

  class Bitmap {
    const bitCnt: nat
    const bits: array<Elem>

    ghost predicate Valid() {
      bits.Length == ElemCnt(bitCnt)
    }

    /** The bits the packed elements stand for. */
    ghost function View(): (b: seq<bool>)
      requires Valid()
      reads bits
      ensures |b| == bitCnt
    {
      seq(bitCnt, i requires 0 <= i < bitCnt reads bits => Bit(bits[i / ELEM_BITS], i % ELEM_BITS))
    }

    constructor (bitCnt: nat)
      ensures Valid() && this.bitCnt == bitCnt && fresh(bits)
      ensures View() == seq(bitCnt, _ => false)
    {
      this.bitCnt := bitCnt;
      bits := new Elem[ElemCnt(bitCnt)];
      new;
      SetMultiple(0, bitCnt, false);
    }

    /** `bitmap_mark` */
    method Mark(idx: nat)
      requires Valid() && idx < bitCnt
      modifies bits
      ensures View() == old(View())[idx := true]
    {
      var e, k := ElemIdx(idx), idx % ELEM_BITS;
      MarkWord(bits[e], k, k);
      forall j | 0 <= j < ELEM_BITS
        ensures Bit(Or(bits[e], Pow2(k)), j) <==> Bit(bits[e], j) || j == k
      {
        MarkWord(bits[e], k, j);
      }
      bits[e] := Or(bits[e], BitMask(idx));
    }

    /** `bitmap_reset` */
    method Reset(idx: nat)
      requires Valid() && idx < bitCnt
      modifies bits
      ensures View() == old(View())[idx := false]
    {
      var e, k := ElemIdx(idx), idx % ELEM_BITS;
      ResetWord(bits[e], k, k);
      forall j | 0 <= j < ELEM_BITS
        ensures Bit(And(bits[e], 0xFFFF_FFFF_FFFF_FFFF - Pow2(k)), j) <==> Bit(bits[e], j) && j != k
      {
        ResetWord(bits[e], k, j);
      }
      bits[e] := And(bits[e], 0xFFFF_FFFF_FFFF_FFFF - BitMask(idx));
    }

    /** `bitmap_set` */
    method Set(idx: nat, value: bool)
      requires Valid() && idx < bitCnt
      modifies bits
      ensures View() == old(View())[idx := value]
    {
      if value {
        Mark(idx);
      } else {
        Reset(idx);
      }
    }

    /** `bitmap_test` */
    method Test(idx: nat) returns (r: bool)
      requires Valid() && idx < bitCnt
      ensures r == View()[idx]
    {
      AndBit(bits[ElemIdx(idx)], idx % ELEM_BITS);
      r := And(bits[ElemIdx(idx)], BitMask(idx)) != 0;
    }

    /** `bitmap_set_multiple` */
    method SetMultiple(start: nat, cnt: nat, value: bool)
      requires Valid() && start + cnt <= bitCnt
      modifies bits
      ensures View() == WithSet(old(View()), start, cnt, value)
      ensures forall i | 0 <= i < bitCnt :: View()[i] == if start <= i < start + cnt then value else old(View())[i]
    {
      for i := 0 to cnt
        invariant View() == WithSet(old(View()), start, i, value)
      {
        Set(start + i, value);
      }
    }

    /** `bitmap_contains` */
    method Contains(start: nat, cnt: nat, value: bool) returns (r: bool)
      requires Valid() && start + cnt <= bitCnt
      ensures r <==> !Group(View(), start, cnt, !value)
    {
      for i := 0 to cnt
        invariant Group(View(), start, i, !value)
      {
        var bit := Test(start + i);
        if bit == value {
          return true;
        }
      }
      r := false;
    }

    /** `bitmap_scan`: the first group of cnt bits with the value at or after start. */
    method Scan(start: nat, cnt: nat, value: bool) returns (r: Option<nat>)
      requires Valid() && start <= bitCnt
      ensures r.Some? ==> start <= r.value && Group(View(), r.value, cnt, value)
      ensures r.Some? ==> forall j | start <= j < r.value :: !Group(View(), j, cnt, value)
      ensures r == None ==> forall j | start <= j :: !Group(View(), j, cnt, value)
    {
      if cnt <= bitCnt {
        var last := bitCnt - cnt;
        var i := start;
        while i <= last
          invariant start <= i && forall j | start <= j < i :: !Group(View(), j, cnt, value)
        {
          var other := Contains(i, cnt, !value);
          if !other {
            return Some(i);
          }
          i := i + 1;
        }
      }
      r := None;
    }

    /** `bitmap_scan_and_flip` */
    method ScanAndFlip(start: nat, cnt: nat, value: bool) returns (r: Option<nat>)
      requires Valid() && start <= bitCnt
      modifies bits
      ensures r.Some? ==> start <= r.value && Group(old(View()), r.value, cnt, value)
      ensures r.Some? ==> forall j | start <= j < r.value :: !Group(old(View()), j, cnt, value)
      ensures r.Some? ==> View() == WithSet(old(View()), r.value, cnt, !value)
      ensures r == None ==> View() == old(View()) && forall j | start <= j :: !Group(old(View()), j, cnt, value)
      // not 0, as its comment says
      ensures cnt == 0 ==> r == Some(start) && View() == old(View())
    {
      r := Scan(start, cnt, value);
      if r.Some? {
        SetMultiple(r.value, cnt, !value);
      }
      assert cnt == 0 ==> Group(old(View()), start, cnt, value);
      assert cnt == 0 ==> WithSet(old(View()), start, cnt, !value) == old(View());
    }
  }

  /** `bitmap_create`: null exactly when one of its two blocks cannot be had; an empty bitmap does without the
      second. */
  method BitmapCreate(bitCnt: nat, mem: bool, bitsMem: bool) returns (b: Bitmap?)
    ensures b != null <==> mem && (bitsMem || bitCnt == 0)
    ensures b != null ==>
              fresh(b) && fresh(b.bits) && b.Valid() && b.bitCnt == bitCnt && b.View() == seq(bitCnt, _ => false)
  {
    if !mem || !(bitsMem || bitCnt == 0) {
      return null;
    }
    b := new Bitmap(bitCnt);
  }
}
