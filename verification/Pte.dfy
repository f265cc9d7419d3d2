/** Virtual addresses and page-table entries (threads/vaddr.h, threads/pte.h); the entry format is
    that of section 3.7.6 of the IA-32 manual, volume 3A. */
module PageEntries {
  import opened Bitmaps
  import opened Bits
  import opened Integers
  import opened Palloc
  import opened Words

  const PTE_ADDR: u32 := 0xffff_f000
  const PTE_P: u32 := 0x1
  const PTE_W: u32 := 0x2
  const PTE_U: u32 := 0x4
  const PTE_A: u32 := 0x20
  const PTE_D: u32 := 0x40

  /** Bits 12 to 21. */
  const PTMASK: u32 := 0x3f_f000

  const PGMASK: u32 := 0xfff

  // ----- addresses

  function PtNo(va: u32): nat { And(va, PTMASK) / PGSIZE }

  function PdNo(va: u32): nat { va / 0x40_0000 }

  function PgRoundDown(va: u32): nat { And(va, Not(PGMASK)) }

  function PgRoundUp(va: u32): nat { And(ToU32(va + PGSIZE - 1), Not(PGMASK)) }

  /** Masking with bits n to m-1. */
  lemma {:induction false} BandMask(x: nat, m: nat, n: nat)
    requires n <= m
    ensures 1 <= Pow2(n) <= Pow2(m) && And(x, Pow2(m) - Pow2(n)) == x % Pow2(m) - x % Pow2(n)
    decreases n
  {
    Pow2Positive(m);
    if n == 0 {
      LowMask(x, m);
    } else {
      BandMask(x / 2, m - 1, n - 1);
      var p, q := Pow2(m - 1), Pow2(n - 1);
      assert (Pow2(m) - Pow2(n)) / 2 == p - q;
      HalfMod(x, p);
      HalfMod(x, q);
      if x != 0 && Pow2(m) - Pow2(n) != 0 {
        assert And(x, Pow2(m) - Pow2(n)) == 2 * And(x / 2, p - q);
      } else if x != 0 {
        assert p == q;
      }
    }
  }

  lemma Powers()
    ensures Pow2(12) == 4096 && Pow2(22) == 0x40_0000 && Pow2(20) == 0x10_0000 && Pow2(32) == TWO32
  {
    Pow2Values();
    Pow2Add(8, 4);
    Pow2Add(16, 4);
    Pow2Add(20, 2);
  }

  /** The directory and table indices are the page number's two digits in base 1024. */
  lemma Indices(va: u32)
    ensures PtNo(va) == PgNo(va) % 1024 && PdNo(va) == PgNo(va) / 1024
    ensures PtNo(va) < 1024 && PdNo(va) < 1024
  {
    Powers();
    BandMask(va, 22, 12);
    var hi, mid, lo := va / 0x40_0000, va / 4096 % 1024, va % 4096;
    DivDiv(va, 4096, 1024);
    assert va == 4096 * (va / 4096) + lo && va / 4096 == 1024 * hi + mid;
    DivUnique(va, 0x40_0000, hi);
    assert va % 0x40_0000 == 4096 * mid + lo;
  }

  lemma RoundingDown(va: u32)
    ensures PgRoundDown(va) == PGSIZE * PgNo(va) <= va < PgRoundDown(va) + PGSIZE
  {
    Powers();
    BandMask(va, 32, 12);
  }

  /** Rounding up gives the nearest page boundary, or wraps to 0 in the last page. */
  lemma RoundingUp(va: u32)
    ensures va <= TWO32 - PGSIZE ==> PgOfs(PgRoundUp(va)) == 0 && va <= PgRoundUp(va) < va + PGSIZE
    ensures va > TWO32 - PGSIZE ==> PgRoundUp(va) == 0
  {
    hide And;
    RoundingDown(ToU32(va + PGSIZE - 1));
  }

  // ----- entries

  predicate Present(e: u32) { And(e, PTE_P) != 0 }

  predicate Writable(e: u32) { And(e, PTE_W) != 0 }

  predicate User(e: u32) { And(e, PTE_U) != 0 }

  predicate Dirty(e: u32) { And(e, PTE_D) != 0 }

  predicate Accessed(e: u32) { And(e, PTE_A) != 0 }

  /** The frame number in the address bits; pte_get_page and pde_get_pt add PHYS_BASE. */
  function FrameOf(e: u32): nat { And(e, PTE_ADDR) / PGSIZE }

  function PdeCreate(frame: nat): nat { Or(Or(Or(PGSIZE * frame, PTE_U), PTE_P), PTE_W) }

  function PteCreateKernel(frame: nat, writable: bool): nat {
    Or(Or(PGSIZE * frame, PTE_P), if writable then PTE_W else 0)
  }

  function PteCreateUser(frame: nat, writable: bool): nat {
    Or(PteCreateKernel(frame, writable), PTE_U)
  }

  lemma FrameIs(e: u32)
    ensures FrameOf(e) == e / PGSIZE
  {
    hide And, Pow2;
    Powers();
    BandMask(e, 32, 12);
    assert And(e, PTE_ADDR) == e - e % PGSIZE;
    RoundedQuotient(e);
  }

  lemma RoundedQuotient(x: nat)
    ensures (x - x % PGSIZE) / PGSIZE == x / PGSIZE
  {
  }

  /** The flags, bit by bit. */
  lemma FlagBits(e: u32)
    ensures Present(e) <==> Bit(e, 0)
    ensures Writable(e) <==> Bit(e, 1)
    ensures User(e) <==> Bit(e, 2)
    ensures Accessed(e) <==> Bit(e, 5)
    ensures Dirty(e) <==> Bit(e, 6)
  {
    assert Pow2(0) == 1 && Pow2(1) == 2 && Pow2(2) == 4 && Pow2(5) == 32 && Pow2(6) == 64;
    TestMask(e, 0);
    TestMask(e, 1);
    TestMask(e, 2);
    TestMask(e, 5);
    TestMask(e, 6);
  }

  /** x shifted right by n bits. */
  function Shr(x: nat, n: nat): nat
    decreases n
  {
    if n == 0 then x else Shr(x / 2, n - 1)
  }

  lemma {:induction false} ShrBit(x: nat, n: nat, i: nat)
    ensures Bit(Shr(x, n), i) == Bit(x, i + n)
    decreases n
  {
    if n > 0 { ShrBit(x / 2, n - 1, i); }
  }

  lemma {:induction false} ShrDivides(x: int, n: nat)
    requires 0 <= x
    ensures 0 < Pow2(n) && Shr(x, n) == x / Pow2(n)
    decreases n
  {
    Pow2Positive(n);
    if n > 0 {
      ShrDivides(x / 2, n - 1);
      DivDiv(x, 2, Pow2(n - 1));
    }
  }

  /** Entries that agree on the address bits name the same frame. */
  lemma SameFrame(x: u32, y: u32)
    requires forall i :: 12 <= i < 32 ==> Bit(x, i) == Bit(y, i)
    ensures FrameOf(x) == FrameOf(y)
  {
    Powers();
    FrameIs(x);
    FrameIs(y);
    ShrDivides(x, 12);
    ShrDivides(y, 12);
    forall i | 0 <= i < 20 ensures Bit(x / 4096, i) == Bit(y / 4096, i) {
      ShrBit(x, 12, i);
      ShrBit(y, 12, i);
      assert Bit(x, i + 12) == Bit(y, i + 12);
    }
    SameBits(x / 4096, y / 4096, 20);
  }

  /** Setting one flag of an entry. */
  lemma SetFlag(e: u32, k: nat)
    requires k < 12
    ensures Pow2(k) < TWO32 && Or(e, Pow2(k)) < TWO32 && FrameOf(Or(e, Pow2(k))) == FrameOf(e)
    ensures forall i :: 0 <= i < 32 ==> Bit(Or(e, Pow2(k)), i) == (i == k || Bit(e, i))
  {
    AndNotMask(e, k);
    OrMask(e, k);
    SameFrame(Or(e, Pow2(k)), e);
  }

  /** Clearing one flag of an entry. */
  lemma ClearFlag(e: u32, k: nat)
    requires k < 12
    ensures Pow2(k) < TWO32 && And(e, Not(Pow2(k))) < TWO32 && FrameOf(And(e, Not(Pow2(k)))) == FrameOf(e)
    ensures forall i :: 0 <= i < 32 ==> Bit(And(e, Not(Pow2(k))), i) == (i != k && Bit(e, i))
  {
    AndNotMask(e, k);
    SameFrame(And(e, Not(Pow2(k))), e);
  }

  /** A multiple of a page has no flags set. */
  lemma {:induction false} LowBitsClear(y: nat, n: nat, i: nat)
    requires i < n
    ensures !Bit(Pow2(n) * y, i)
    decreases n
  {
    assert Pow2(n) * y == 2 * (Pow2(n - 1) * y) by { MulAssoc(2, Pow2(n - 1), y); }
    if i > 0 { LowBitsClear(y, n - 1, i - 1); }
  }

  lemma PlainFrame(frame: nat)
    requires frame < 0x10_0000
    ensures PGSIZE * frame < TWO32 && FrameOf(PGSIZE * frame) == frame
    ensures forall i :: 0 <= i < 12 ==> !Bit(PGSIZE * frame, i)
  {
    Powers();
    FrameIs(PGSIZE * frame);
    forall i | 0 <= i < 12 ensures !Bit(PGSIZE * frame, i) { LowBitsClear(frame, 12, i); }
  }

  /** pte_create_kernel and pte_create_user make present entries for the frame, writable as asked,
      neither dirty nor accessed; they differ in who may use them. */
  lemma UserEntry(frame: nat, writable: bool)
    requires frame < 0x10_0000
    ensures var e := PteCreateUser(frame, writable);
      && e < TWO32 && FrameOf(e) == frame && Present(e) && (Writable(e) <==> writable) && User(e)
      && !Dirty(e) && !Accessed(e)
    ensures var e := PteCreateKernel(frame, writable);
      && e < TWO32 && FrameOf(e) == frame && Present(e) && (Writable(e) <==> writable) && !User(e)
      && !Dirty(e) && !Accessed(e)
  {
    PlainFrame(frame);
    assert Pow2(0) == 1 && Pow2(1) == 2 && Pow2(2) == 4;
    SetFlag(PGSIZE * frame, 0);
    var a := Or(PGSIZE * frame, 1);
    OrZero(a);
    SetFlag(a, 1);
    var b := PteCreateKernel(frame, writable);
    SetFlag(b, 2);
    FlagBits(b);
    FlagBits(Or(b, 4));
  }

  lemma {:induction false} OrZero(x: nat)
    ensures Or(x, 0) == x
  {
    if x > 0 { OrZero(x / 2); }
  }

  /** pde_create makes a present entry for the table, so not 0. */
  lemma DirectoryEntry(frame: nat)
    requires frame < 0x10_0000
    ensures var e := PdeCreate(frame); 0 < e < TWO32 && FrameOf(e) == frame && Present(e) && Writable(e) && User(e)
  {
    PlainFrame(frame);
    assert Pow2(0) == 1 && Pow2(1) == 2 && Pow2(2) == 4;
    SetFlag(PGSIZE * frame, 2);
    var a := Or(PGSIZE * frame, 4);
    SetFlag(a, 0);
    var b := Or(a, 1);
    SetFlag(b, 1);
    FlagBits(Or(b, 2));
    ZeroBit(0);
  }

  lemma {:induction false} OrLow(n: nat, y: nat, a: nat, c: nat)
    requires a < Pow2(n) && c < Pow2(n)
    ensures Or(Pow2(n) * y + a, c) == Pow2(n) * y + Or(a, c)
    decreases n
  {
    if n == 0 {
      OrZero(y);
    } else {
      var p := Pow2(n - 1);
      assert Pow2(n) * y == 2 * (p * y) by { MulAssoc(2, p, y); }
      OrLow(n - 1, y, a / 2, c / 2);
      OrHalves(a, c);
      OrHalves(2 * (p * y) + a, c);
      assert (2 * (p * y) + a) / 2 == p * y + a / 2 && (2 * (p * y) + a) % 2 == a % 2;
    }
  }

  /** The frame's address in the upper 20 bits; below them P, W if writable and U, and no other bit. */
  lemma EntryValues(frame: nat, writable: bool)
    ensures PteCreateUser(frame, writable) == PGSIZE * frame + 5 + if writable then 2 else 0
    ensures PteCreateKernel(frame, writable) == PGSIZE * frame + 1 + if writable then 2 else 0
    ensures PdeCreate(frame) == PGSIZE * frame + 7
  {
    hide Or;
    var y := 512 * frame;
    assert Pow2(3) == 8 && PGSIZE * frame == 8 * y;
    SmallOrs();
    OrLow(3, y, 0, 1);
    OrLow(3, y, 1, if writable then 2 else 0);
    OrLow(3, y, if writable then 3 else 1, 4);
    OrLow(3, y, 0, 4);
    OrLow(3, y, 4, 1);
    OrLow(3, y, 5, 2);
  }

  lemma SmallOrs()
    ensures Or(0, 1) == 1 && Or(1, 2) == 3 && Or(1, 0) == 1 && Or(3, 4) == 7 && Or(1, 4) == 5
    ensures Or(0, 4) == 4 && Or(4, 1) == 5 && Or(5, 2) == 7
  {
    assert Or(0, 2) == 2 && Or(2, 1) == 3 && Or(2, 0) == 2 && Or(1, 1) == 1;
  }
}
