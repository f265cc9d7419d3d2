/** Bitwise operators on machine words, defined bit by bit on natural numbers. */
module Bits {
  import opened Integers
  import opened Words

  predicate Bit(x: nat, i: nat)
    decreases i
  {
    if i == 0 then x % 2 == 1 else Bit(x / 2, i - 1)
  }

  function And(x: nat, y: nat): nat {
    if x == 0 || y == 0 then 0
    else 2 * And(x / 2, y / 2) + if x % 2 == 1 && y % 2 == 1 then 1 else 0
  }

  function Or(x: nat, y: nat): nat {
    if x == 0 && y == 0 then 0
    else 2 * Or(x / 2, y / 2) + if x % 2 == 1 || y % 2 == 1 then 1 else 0
  }

  function Xor(x: nat, y: nat): nat {
    if x == 0 && y == 0 then 0
    else 2 * Xor(x / 2, y / 2) + if x % 2 != y % 2 then 1 else 0
  }

  /** The ~ operator on 32-bit words. */
  function Not(x: u32): u32 { TWO32 - 1 - x }

  lemma {:induction false} AndBit(x: nat, y: nat, i: nat)
    ensures Bit(And(x, y), i) <==> Bit(x, i) && Bit(y, i)
    decreases i
  {
    AndHalves(x, y);
    if i > 0 { AndBit(x / 2, y / 2, i - 1); }
  }

  lemma {:induction false} OrBit(x: nat, y: nat, i: nat)
    ensures Bit(Or(x, y), i) <==> Bit(x, i) || Bit(y, i)
    decreases i
  {
    OrHalves(x, y);
    if i > 0 { OrBit(x / 2, y / 2, i - 1); }
  }

  lemma {:induction false} XorBit(x: nat, y: nat, i: nat)
    ensures Bit(Xor(x, y), i) <==> Bit(x, i) != Bit(y, i)
    decreases i
  {
    XorHalves(x, y);
    if i > 0 { XorBit(x / 2, y / 2, i - 1); }
  }

  lemma OrHalves(x: nat, y: nat)
    ensures Or(x, y) / 2 == Or(x / 2, y / 2)
    ensures Or(x, y) % 2 == 1 <==> x % 2 == 1 || y % 2 == 1
  {
  }

  lemma XorHalves(x: nat, y: nat)
    ensures Xor(x, y) / 2 == Xor(x / 2, y / 2)
    ensures Xor(x, y) % 2 == 1 <==> x % 2 != y % 2
  {
  }

  lemma AndHalves(x: nat, y: nat)
    ensures And(x, y) / 2 == And(x / 2, y / 2)
    ensures And(x, y) % 2 == 1 <==> x % 2 == 1 && y % 2 == 1
  {
  }

  lemma {:induction false} ZeroBit(i: nat)
    ensures !Bit(0, i)
  {
    if i > 0 { ZeroBit(i - 1); }
  }

  /** Pow2(n) - 1 - x flips the n low bits of x. */
  lemma {:induction false} ComplementBit(x: nat, n: nat, i: nat)
    requires x < Pow2(n) && i < n
    ensures Bit(Pow2(n) - 1 - x, i) <==> !Bit(x, i)
    decreases n
  {
    if i > 0 {
      ComplementBit(x / 2, n - 1, i - 1);
      assert (Pow2(n) - 1 - x) / 2 == Pow2(n - 1) - 1 - x / 2;
    }
  }

  lemma {:induction false} HighBitsClear(x: nat, n: nat, i: nat)
    requires x < Pow2(n) && n <= i
    ensures !Bit(x, i)
    decreases i
  {
    if n == 0 { ZeroBit(i); } else { HighBitsClear(x / 2, n - 1, i - 1); }
  }

  lemma NotBit(x: u32, i: nat)
    requires i < 32
    ensures Bit(Not(x), i) <==> !Bit(x, i)
  {
    Pow2Values();
    ComplementBit(x, 32, i);
  }

  lemma {:induction false} Pow2Bit(k: nat, i: nat)
    ensures Bit(Pow2(k), i) <==> i == k
    decreases k
  {
    if k == 0 {
      if i > 0 { assert Pow2(0) / 2 == 0; ZeroBit(i - 1); }
    } else if i > 0 {
      Pow2Bit(k - 1, i - 1);
    }
  }

  /** Words with the same bits are equal. */
  lemma {:induction false} SameBits(x: nat, y: nat, n: nat)
    requires x < Pow2(n) && y < Pow2(n)
    requires forall i :: 0 <= i < n ==> Bit(x, i) == Bit(y, i)
    ensures x == y
    decreases n
  {
    if n > 0 {
      assert Bit(x, 0) == Bit(y, 0);
      forall i | 0 <= i < n - 1 ensures Bit(x / 2, i) == Bit(y / 2, i) {
        assert Bit(x, i + 1) == Bit(y, i + 1);
      }
      SameBits(x / 2, y / 2, n - 1);
    }
  }

  lemma {:induction false} AndBound(x: nat, y: nat)
    ensures And(x, y) <= x && And(x, y) <= y
  {
    if x > 0 && y > 0 { AndBound(x / 2, y / 2); }
  }

  lemma {:induction false} OrBound(x: nat, y: nat, n: nat)
    requires x < Pow2(n) && y < Pow2(n)
    ensures Or(x, y) < Pow2(n) && x <= Or(x, y)
    decreases n
  {
    if n > 0 { OrBound(x / 2, y / 2, n - 1); }
  }

  lemma {:induction false} XorBound(x: nat, y: nat, n: nat)
    requires x < Pow2(n) && y < Pow2(n)
    ensures Xor(x, y) < Pow2(n)
    decreases n
  {
    if n > 0 { XorBound(x / 2, y / 2, n - 1); }
  }

  /** Masking with the n low bits is reduction modulo 2^n. */
  lemma {:induction false} LowMask(x: nat, n: nat)
    ensures 0 < Pow2(n) && And(x, Pow2(n) - 1) == x % Pow2(n)
    decreases n
  {
    if n > 0 {
      LowMask(x / 2, n - 1);
      var p := Pow2(n - 1);
      assert (Pow2(n) - 1) / 2 == p - 1;
      HalfMod(x, p);
      if x == 0 || Pow2(n) - 1 == 0 { } else {
        assert And(x, Pow2(n) - 1) == 2 * And(x / 2, p - 1) + x % 2;
      }
    }
  }

  lemma LowMaskBit(x: nat, n: nat, i: nat)
    ensures 0 < Pow2(n) && (Bit(And(x, Pow2(n) - 1), i) <==> Bit(x, i) && i < n)
  {
    Pow2Positive(n);
    AndBit(x, Pow2(n) - 1, i);
    if i < n {
      ComplementBit(0, n, i);
      ZeroBit(i);
    } else {
      HighBitsClear(Pow2(n) - 1, n, i);
    }
  }

  lemma HalfMod(x: nat, p: nat)
    requires 0 < p
    ensures x % (2 * p) == 2 * ((x / 2) % p) + x % 2
  {
    var h := x / 2;
    var q, r := h / p, h % p;
    assert h == p * q + r;
    assert x == (2 * p) * q + (2 * r + x % 2) by { assert (2 * p) * q == 2 * (p * q); }
    DivUnique(x, 2 * p, q);
  }
}
