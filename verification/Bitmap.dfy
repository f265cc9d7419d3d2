/** Bitmaps (lib/kernel/bitmap.c): an array of 32-bit words that simulates an array of bits. */
module Bitmaps {
  import opened Bits
  import opened Integers
  import opened Words

  const ELEM_BITS: nat := 32

  datatype Found = Error | At(idx: nat)

  // ----- the abstract bitmap

  /** `s` with the `cnt` bits from `start` set to `v`. */
  function Fill(s: seq<bool>, start: nat, cnt: nat, v: bool): (r: seq<bool>)
    requires start + cnt <= |s|
    ensures |r| == |s|
    ensures forall i :: 0 <= i < |s| ==> r[i] == if start <= i < start + cnt then v else s[i]
  {
    s[..start] + seq(cnt, _ => v) + s[start + cnt..]
  }

  predicate AllAre(s: seq<bool>, start: nat, cnt: nat, v: bool)
    requires start + cnt <= |s|
  {
    forall i :: start <= i < start + cnt ==> s[i] == v
  }

  /** `r` is the least position from `start` on of `cnt` consecutive bits equal to `v`. */
  ghost predicate FirstGroup(s: seq<bool>, start: nat, cnt: nat, v: bool, r: Found) {
    match r
    case Error => forall i :: start <= i && i + cnt <= |s| ==> !AllAre(s, i, cnt, v)
    case At(k) =>
      && start <= k && k + cnt <= |s| && AllAre(s, k, cnt, v)
      && forall i :: start <= i < k ==> !AllAre(s, i, cnt, v)
  }

  function ElemIdx(bitIdx: nat): nat { bitIdx / ELEM_BITS }

  function BitMask(bitIdx: nat): u32
  {
    MaskInRange(bitIdx % ELEM_BITS);
    Pow2(bitIdx % ELEM_BITS)
  }

  function ElemCnt(bitCnt: nat): nat { (bitCnt + ELEM_BITS - 1) / ELEM_BITS }

  /** The bits in use in the last word. */
  function LastMask(bitCnt: nat): u32
  {
    var lastBits := bitCnt % ELEM_BITS;
    MaskInRange(lastBits);
    if lastBits != 0 then Pow2(lastBits) - 1 else TWO32 - 1
  }

  lemma {:induction false} Pow2Less(a: nat, b: nat)
    requires a < b
    ensures 2 * Pow2(a) <= Pow2(b)
    decreases b
  {
    if a + 1 < b { Pow2Less(a, b - 1); }
  }

  lemma MaskInRange(k: nat)
    requires k < ELEM_BITS
    ensures 1 <= Pow2(k) < TWO32
  {
    Pow2Values();
    Pow2Less(k, 32);
    Pow2Positive(k);
  }

  // ----- single words

  lemma OrMask(x: u32, k: nat)
    requires k < ELEM_BITS
    ensures Or(x, Pow2(k)) < TWO32
    ensures forall i :: 0 <= i < ELEM_BITS ==> Bit(Or(x, Pow2(k)), i) == (i == k || Bit(x, i))
  {
    MaskInRange(k);
    Pow2Values();
    OrBound(x, Pow2(k), 32);
    forall i | 0 <= i < ELEM_BITS ensures Bit(Or(x, Pow2(k)), i) == (i == k || Bit(x, i)) {
      OrBit(x, Pow2(k), i);
      Pow2Bit(k, i);
    }
  }

  lemma AndNotMask(x: u32, k: nat)
    requires k < ELEM_BITS
    ensures Pow2(k) < TWO32 && And(x, Not(Pow2(k))) < TWO32
    ensures forall i :: 0 <= i < ELEM_BITS ==> Bit(And(x, Not(Pow2(k))), i) == (i != k && Bit(x, i))
  {
    MaskInRange(k);
    AndBound(x, Not(Pow2(k)));
    forall i | 0 <= i < ELEM_BITS ensures Bit(And(x, Not(Pow2(k))), i) == (i != k && Bit(x, i)) {
      AndBit(x, Not(Pow2(k)), i);
      NotBit(Pow2(k), i);
      Pow2Bit(k, i);
    }
  }

  lemma XorMask(x: u32, k: nat)
    requires k < ELEM_BITS
    ensures Xor(x, Pow2(k)) < TWO32
    ensures forall i :: 0 <= i < ELEM_BITS ==> Bit(Xor(x, Pow2(k)), i) == (Bit(x, i) != (i == k))
  {
    MaskInRange(k);
    Pow2Values();
    XorBound(x, Pow2(k), 32);
    forall i | 0 <= i < ELEM_BITS ensures Bit(Xor(x, Pow2(k)), i) == (Bit(x, i) != (i == k)) {
      XorBit(x, Pow2(k), i);
      Pow2Bit(k, i);
    }
  }

  lemma TestMask(x: u32, k: nat)
    requires k < ELEM_BITS
    ensures And(x, Pow2(k)) != 0 <==> Bit(x, k)
  {
    AndBit(x, Pow2(k), k);
    Pow2Bit(k, k);
    if !Bit(x, k) {
      Pow2Values();
      MaskInRange(k);
      AndBound(x, Pow2(k));
      forall i | 0 <= i < 32 ensures Bit(And(x, Pow2(k)), i) == Bit(0, i) {
        AndBit(x, Pow2(k), i);
        Pow2Bit(k, i);
        ZeroBit(i);
      }
      SameBits(And(x, Pow2(k)), 0, 32);
    } else {
      ZeroBit(k);
    }
  }

  /** Masking the last word keeps the bits in use and clears the others. */
  lemma LastMaskKeeps(x: u32, bitCnt: nat, i: nat)
    requires i < ELEM_BITS && 0 < bitCnt
    ensures Bit(And(x, LastMask(bitCnt)), i) == (Bit(x, i) && i <= (bitCnt - 1) % ELEM_BITS)
  {
    hide And, Bit, LastMask;
    LastMaskIs(bitCnt);
    LowMaskBit(x, LastBits(bitCnt), i);
  }

  /** How many bits of the last word are in use. */
  function LastBits(bitCnt: nat): nat {
    if bitCnt % ELEM_BITS == 0 then ELEM_BITS else bitCnt % ELEM_BITS
  }

  lemma LastMaskIs(bitCnt: nat)
    requires 0 < bitCnt
    ensures LastMask(bitCnt) == Pow2(LastBits(bitCnt)) - 1 && (bitCnt - 1) % ELEM_BITS == LastBits(bitCnt) - 1
  {
    Pow2Values();
    LastIndex(bitCnt);
  }

  lemma LastIndex(bitCnt: nat)
    requires 0 < bitCnt
    ensures (bitCnt - 1) % ELEM_BITS == LastBits(bitCnt) - 1
  {
  }

  // ----- the code of bitmap.c

  class Bitmap {
    const bitCnt: nat
    const bits: array<u32>

    ghost predicate Valid() {
      bits.Length == ElemCnt(bitCnt)
    }

    ghost function View(): (s: seq<bool>)
      reads bits
      requires Valid()
      ensures |s| == bitCnt
    {
      seq(bitCnt, i requires 0 <= i < bitCnt reads bits => Bit(bits[ElemIdx(i)], i % ELEM_BITS))
    }

    /** bitmap_create, once its storage has been obtained. */
    constructor (n: nat)
      ensures Valid() && fresh(bits) && bitCnt == n && View() == seq(n, _ => false)
    {
      bitCnt := n;
      bits := new u32[ElemCnt(n)](_ => 0);
      new;
      forall i | 0 <= i < n ensures !View()[i] {
        ZeroBit(i % ELEM_BITS);
      }
      assert View() == seq(n, _ => false);
    }

    /** bitmap_mark. */
    method Mark(k: nat)
      requires Valid() && k < bitCnt
      modifies bits
      ensures View() == old(View())[k := true]
    {
      OrMask(bits[ElemIdx(k)], k % ELEM_BITS);
      bits[ElemIdx(k)] := Or(bits[ElemIdx(k)], BitMask(k));
    }

    /** bitmap_reset. */
    method Reset(k: nat)
      requires Valid() && k < bitCnt
      modifies bits
      ensures View() == old(View())[k := false]
    {
      AndNotMask(bits[ElemIdx(k)], k % ELEM_BITS);
      bits[ElemIdx(k)] := And(bits[ElemIdx(k)], Not(BitMask(k)));
    }

    /** bitmap_flip. */
    method Flip(k: nat)
      requires Valid() && k < bitCnt
      modifies bits
      ensures View() == old(View())[k := !old(View())[k]]
    {
      XorMask(bits[ElemIdx(k)], k % ELEM_BITS);
      bits[ElemIdx(k)] := Xor(bits[ElemIdx(k)], BitMask(k));
    }

    /** bitmap_test. */
    method Test(k: nat) returns (b: bool)
      requires Valid() && k < bitCnt
      ensures b == View()[k]
    {
      TestMask(bits[ElemIdx(k)], k % ELEM_BITS);
      b := And(bits[ElemIdx(k)], BitMask(k)) != 0;
    }

    /** bitmap_set. */
    method Set(k: nat, v: bool)
      requires Valid() && k < bitCnt
      modifies bits
      ensures View() == old(View())[k := v]
    {
      if v {
        Mark(k);
      } else {
        Reset(k);
      }
    }

    /** bitmap_set_multiple. */
    method SetMultiple(start: nat, cnt: nat, v: bool)
      requires Valid() && start + cnt <= bitCnt
      modifies bits
      ensures View() == Fill(old(View()), start, cnt, v)
    {
      ghost var s := View();
      assert Fill(s, start, 0, v) == s;
      for i := 0 to cnt
        invariant View() == Fill(s, start, i, v)
      {
        Set(start + i, v);
        assert View() == Fill(s, start, i + 1, v);
      }
    }

    /** bitmap_contains. */
    method Contains(start: nat, cnt: nat, v: bool) returns (b: bool)
      requires Valid() && start + cnt <= bitCnt
      ensures b <==> !AllAre(View(), start, cnt, !v)
    {
      for i := 0 to cnt
        invariant AllAre(View(), start, i, !v)
      {
        var t := Test(start + i);
        if t == v {
          return true;
        }
      }
      b := false;
    }

    /** bitmap_scan. */
    method Scan(start: nat, cnt: nat, v: bool) returns (r: Found)
      requires Valid() && start <= bitCnt
      ensures FirstGroup(View(), start, cnt, v, r)
    {
      if cnt <= bitCnt {
        var last := bitCnt - cnt;
        var i := start;
        while i <= last
          invariant start <= i
          invariant forall j :: start <= j < i && j + cnt <= bitCnt ==> !AllAre(View(), j, cnt, v)
          decreases last + 1 - i
        {
          var other := Contains(i, cnt, !v);
          if !other {
            return At(i);
          }
          i := i + 1;
        }
      }
      r := Error;
    }

    /** bitmap_scan_and_flip. */
    method ScanAndFlip(start: nat, cnt: nat, v: bool) returns (r: Found)
      requires Valid() && start <= bitCnt
      modifies bits
      ensures FirstGroup(old(View()), start, cnt, v, r)
      ensures View() == if r.At? then Fill(old(View()), r.idx, cnt, !v) else old(View())
    {
      r := Scan(start, cnt, v);
      if r.At? {
        SetMultiple(r.idx, cnt, !v);
      }
    }
  }

  /** bitmap_create. `mem` is whether the structure can be allocated, `bitsMem` whether its words
      can: null exactly when the structure cannot, or the words of a nonempty bitmap cannot. */
  method Create(n: nat, mem: bool, bitsMem: bool) returns (b: Bitmap?)
    ensures b == null <==> !mem || (!bitsMem && n > 0)
    ensures b != null ==> fresh(b) && fresh(b.bits) && b.Valid() && b.bitCnt == n && b.View() == seq(n, _ => false)
  {
    b := null;
    if mem {
      if bitsMem || n == 0 {
        b := new Bitmap(n);
      }
    }
  }
}
