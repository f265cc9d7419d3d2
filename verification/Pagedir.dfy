/** Page directories (userprog/pagedir.c): a two-level table of entries that stands for a flat map
    from virtual page to frame. Memory is a map from frame number to 1024 words. */
module PageDirs {
  import opened Bits
  import opened Integers
  import opened Options
  import opened PageEntries
  import opened Palloc
  import opened Sequences
  import opened Words

  /** Entries in a page directory or page table. */
  const ENTRIES: nat := 1024

  /** Virtual pages. */
  const PAGES: nat := 0x10_0000

  /** pd_no (PHYS_BASE): the first directory entry of the kernel. */
  const USER_PDES: nat := 768

  type Memory = map<nat, seq<u32>>

  /** Every directory entry is 0 or leads to a table of its own. */
  ghost predicate Tables(mem: Memory, pd: nat) {
    && pd in mem && |mem[pd]| == ENTRIES
    && (forall i :: 0 <= i < ENTRIES && mem[pd][i] != 0 ==> Leads(mem, pd, i))
    && (forall i, j :: 0 <= i < j < ENTRIES && mem[pd][i] != 0 && mem[pd][j] != 0 ==>
          FrameOf(mem[pd][i]) != FrameOf(mem[pd][j]))
  }

  ghost predicate Leads(mem: Memory, pd: nat, i: nat)
    requires pd in mem && i < |mem[pd]|
  {
    var t := FrameOf(mem[pd][i]);
    Present(mem[pd][i]) && t in mem && t != pd && |mem[t]| == ENTRIES
  }

  /** The page-table entry of page `v`. */
  ghost function Pte(mem: Memory, pd: nat, v: nat): Option<u32>
    requires Tables(mem, pd) && v < PAGES
  {
    var pde := mem[pd][v / ENTRIES];
    if pde == 0 then None
    else
      assert Leads(mem, pd, v / ENTRIES);
      Some(mem[FrameOf(pde)][v % ENTRIES])
  }

  ghost predicate Mapped(mem: Memory, pd: nat, v: nat)
    requires Tables(mem, pd) && v < PAGES
  {
    Pte(mem, pd, v).Some? && Present(Pte(mem, pd, v).value)
  }

  /** Memory that is neither the directory nor one of its tables keeps its words. */
  ghost predicate OthersKept(mem: Memory, mem': Memory, pd: nat) {
    forall f :: f in mem && !IsTable(mem, pd, f) ==> f in mem' && mem'[f] == mem[f]
  }

  ghost predicate IsTable(mem: Memory, pd: nat, f: nat) {
    f == pd || (pd in mem && exists i :: 0 <= i < |mem[pd]| && mem[pd][i] != 0 && FrameOf(mem[pd][i]) == f)
  }

  lemma KeptTwice(a: Memory, b: Memory, c: Memory, pd: nat)
    requires OthersKept(a, b, pd) && OthersKept(b, c, pd)
    requires forall f :: f in a && IsTable(b, pd, f) ==> IsTable(a, pd, f)
    ensures OthersKept(a, c, pd)
  {
    hide IsTable;
    forall f | f in a && !IsTable(a, pd, f) ensures f in c && c[f] == a[f] {
      assert !IsTable(b, pd, f);
    }
  }

  /** The flat map: each mapped page's frame, and whether it is writable. */
  ghost function Translation(mem: Memory, pd: nat): (m: map<nat, (nat, bool)>)
    requires Tables(mem, pd)
  {
    map v | 0 <= v < PAGES && Mapped(mem, pd, v) ::
      (FrameOf(Pte(mem, pd, v).value), Writable(Pte(mem, pd, v).value))
  }

  // ----- changes

  ghost function WithTable(mem: Memory, pd: nat, i: nat, frame: nat): Memory
    requires pd in mem && i < |mem[pd]| && PdeCreate(frame) < TWO32
  {
    var table: seq<u32>, dir: seq<u32> := seq<u32>(ENTRIES, _ => 0), mem[pd][i := PdeCreate(frame)];
    mem[frame := table][pd := dir]
  }

  /** A new page table maps nothing. */
  lemma TableAdded(mem: Memory, pd: nat, i: nat, frame: nat)
    requires Tables(mem, pd) && i < ENTRIES && mem[pd][i] == 0 && frame !in mem && frame < PAGES
    ensures PdeCreate(frame) < TWO32 && Tables(WithTable(mem, pd, i, frame), pd)
    ensures var mem' := WithTable(mem, pd, i, frame);
      forall v: nat :: v < PAGES ==>
        Pte(mem', pd, v) == if v / ENTRIES == i then Some(0) else Pte(mem, pd, v)
  {
    hide FrameOf, Present, PdeCreate;
    DirectoryEntry(frame);
    var mem' := WithTable(mem, pd, i, frame);
    forall j | 0 <= j < ENTRIES && j != i && mem[pd][j] != 0
      ensures Leads(mem', pd, j) && FrameOf(mem[pd][j]) != frame
    {
      assert Leads(mem, pd, j);
    }
    assert Leads(mem', pd, i);
    forall v: nat | v < PAGES
      ensures Pte(mem', pd, v) == if v / ENTRIES == i then Some(0) else Pte(mem, pd, v)
    {
      if v / ENTRIES != i && mem[pd][v / ENTRIES] != 0 { assert Leads(mem, pd, v / ENTRIES); }
    }
  }

  ghost function WithPte(mem: Memory, pd: nat, v: nat, e: u32): Memory
    requires Tables(mem, pd) && v < PAGES && mem[pd][v / ENTRIES] != 0
  {
    assert Leads(mem, pd, v / ENTRIES);
    var t := FrameOf(mem[pd][v / ENTRIES]);
    var table: seq<u32> := mem[t][v % ENTRIES := e];
    mem[t := table]
  }

  /** Writing one page's entry changes no other page's. */
  lemma PteWritten(mem: Memory, pd: nat, v: nat, e: u32)
    requires Tables(mem, pd) && v < PAGES && mem[pd][v / ENTRIES] != 0
    ensures Tables(WithPte(mem, pd, v, e), pd) && WithPte(mem, pd, v, e)[pd] == mem[pd]
    ensures var mem' := WithPte(mem, pd, v, e);
      forall w: nat :: w < PAGES ==> Pte(mem', pd, w) == if w == v then Some(e) else Pte(mem, pd, w)
  {
    hide FrameOf, Present;
    var mem' := WithPte(mem, pd, v, e);
    assert Leads(mem, pd, v / ENTRIES);
    forall j | 0 <= j < ENTRIES && mem[pd][j] != 0 ensures Leads(mem', pd, j) {
      assert Leads(mem, pd, j);
    }
    forall w: nat | w < PAGES ensures Pte(mem', pd, w) == if w == v then Some(e) else Pte(mem, pd, w) {
      if mem[pd][w / ENTRIES] != 0 {
        assert Leads(mem, pd, w / ENTRIES);
        if w / ENTRIES == v / ENTRIES && w != v { assert w % ENTRIES != v % ENTRIES; }
      }
    }
  }

  /** So what happens to the flat map depends on that entry alone. */
  lemma TranslationChanged(mem: Memory, mem': Memory, pd: nat, v: nat, e: u32)
    requires Tables(mem, pd) && Tables(mem', pd) && v < PAGES
    requires forall w: nat :: w < PAGES ==> Pte(mem', pd, w) == if w == v then Some(e) else Pte(mem, pd, w)
    ensures Translation(mem', pd) ==
      if Present(e) then Translation(mem, pd)[v := (FrameOf(e), Writable(e))] else Translation(mem, pd) - {v}
  {
    hide Tables, Pte, FrameOf, Present, Writable;
    forall w: nat | w < PAGES && w != v ensures Mapped(mem', pd, w) == Mapped(mem, pd, w) {
      assert Pte(mem', pd, w) == Pte(mem, pd, w);
    }
    assert Pte(mem', pd, v) == Some(e);
    assert Mapped(mem', pd, v) == Present(e);
  }

  /** Entries that turn from absent to 0 map nothing. */
  lemma NothingNew(mem: Memory, mem': Memory, pd: nat)
    requires Tables(mem, pd) && Tables(mem', pd)
    requires forall w: nat :: w < PAGES ==>
      Pte(mem', pd, w) == Pte(mem, pd, w) || (Pte(mem, pd, w).None? && Pte(mem', pd, w) == Some(0))
    ensures Translation(mem', pd) == Translation(mem, pd)
  {
    hide Tables, Pte, FrameOf, Writable;
    assert !Present(0);
    forall w: nat | w < PAGES ensures Mapped(mem', pd, w) == Mapped(mem, pd, w) {
    }
  }

  lemma PresentCleared(e: u32)
    ensures And(e, Not(PTE_P)) < TWO32 && !Present(And(e, Not(PTE_P))) && (!Present(e) ==> And(e, Not(PTE_P)) == e)
    ensures SameBut(e, And(e, Not(PTE_P)), 0) && SameBut(e, e, 0)
  {
    assert Pow2(0) == 1;
    ClearFlag(e, 0);
    FlagBits(And(e, Not(PTE_P)));
    FlagBits(e);
    Powers();
    if !Present(e) {
      SameBits(And(e, Not(PTE_P)), e, 32);
    }
  }

  /** The entries agree on every bit but `k`. */
  ghost predicate SameBut(e0: u32, e: u32, k: nat) {
    forall i :: 0 <= i < 32 && i != k ==> Bit(e, i) == Bit(e0, i)
  }

  /** Setting or clearing the dirty or the accessed bit. */
  lemma FlagChange(e: u32, k: nat, on: bool)
    requires k == 5 || k == 6
    ensures Pow2(k) < TWO32 && (if on then Or(e, Pow2(k)) else And(e, Not(Pow2(k)))) < TWO32
    ensures var e' := if on then Or(e, Pow2(k)) else And(e, Not(Pow2(k)));
      && FrameOf(e') == FrameOf(e) && Present(e') == Present(e) && Writable(e') == Writable(e)
      && Accessed(e') == (if k == 5 then on else Accessed(e)) && Dirty(e') == (if k == 6 then on else Dirty(e))
    ensures var e' := if on then Or(e, Pow2(k)) else And(e, Not(Pow2(k)));
      SameBut(e, e', k)
  {
    hide FrameOf, Present, Writable, Accessed, Dirty, And, Or;
    SetFlag(e, k);
    ClearFlag(e, k);
    FlagBits(e);
    FlagBits(if on then Or(e, Pow2(k)) else And(e, Not(Pow2(k))));
  }

  lemma SameTranslation(mem: Memory, pd: nat, v: nat, e: u32)
    requires Tables(mem, pd) && v < PAGES && Pte(mem, pd, v).Some?
    requires var e0 := Pte(mem, pd, v).value;
      FrameOf(e) == FrameOf(e0) && Present(e) == Present(e0) && Writable(e) == Writable(e0)
    ensures (if Present(e) then Translation(mem, pd)[v := (FrameOf(e), Writable(e))] else Translation(mem, pd) - {v})
      == Translation(mem, pd)
  {
    hide FrameOf, Present, Writable, Tables, Pte;
  }

  // ----- what pagedir_destroy frees

  /** The page freed at step `k`: steps 1025*i to 1025*i + 1023 are the pages of table `i`, step
      1025*i + 1024 is the table itself, and the last step is the directory. */
  ghost function FreedAt(mem: Memory, pd: nat, k: nat): Option<nat>
    requires Tables(mem, pd)
  {
    if k >= 1025 * USER_PDES then Some(pd)
    else
      var i, j := k / 1025, k % 1025;
      if !Present(mem[pd][i]) then None
      else if j == ENTRIES then Some(FrameOf(mem[pd][i]))
      else
        PresentLeads(mem, pd, i);
        var pte := mem[FrameOf(mem[pd][i])][j];
        if Present(pte) then Some(FrameOf(pte)) else None
  }

  lemma PresentLeads(mem: Memory, pd: nat, i: nat)
    requires Tables(mem, pd) && i < ENTRIES && Present(mem[pd][i])
    ensures Leads(mem, pd, i)
  {
    assert And(0, PTE_P) == 0;
  }

  /** The pages freed in the first `n` steps, in order. */
  ghost function Freed(mem: Memory, pd: nat, n: nat): seq<nat>
    requires Tables(mem, pd)
  {
    if n == 0 then []
    else Freed(mem, pd, n - 1) + match FreedAt(mem, pd, n - 1) { case None => [] case Some(p) => [p] }
  }

  lemma FreedLast(mem: Memory, pd: nat, n: nat)
    requires Tables(mem, pd)
    ensures Freed(mem, pd, 0) == []
    ensures n > 0 ==> var last := FreedAt(mem, pd, n - 1);
      Freed(mem, pd, n) == Freed(mem, pd, n - 1) + if last.Some? then [last.value] else []
  {
    hide FreedAt, Tables;
  }

  lemma {:induction false} FreedElements(mem: Memory, pd: nat, n: nat, p: nat)
    requires Tables(mem, pd)
    ensures p in Freed(mem, pd, n) <==> exists k :: 0 <= k < n && FreedAt(mem, pd, k) == Some(p)
    decreases n
  {
    hide FreedAt, Tables, Freed;
    FreedLast(mem, pd, n);
    if n > 0 {
      FreedElements(mem, pd, n - 1, p);
      if FreedAt(mem, pd, n - 1) == Some(p) {
        assert 0 <= n - 1 < n && FreedAt(mem, pd, n - 1) == Some(p);
      }
    }
  }

  /** No two of the first `n` steps name the same page. */
  ghost predicate StepsDiffer(mem: Memory, pd: nat, n: nat)
    requires Tables(mem, pd)
  {
    forall j, k :: 0 <= j < k < n && FreedAt(mem, pd, j).Some? ==> FreedAt(mem, pd, j) != FreedAt(mem, pd, k)
  }

  lemma StepsDifferNext(mem: Memory, pd: nat, n: nat)
    requires Tables(mem, pd) && n > 0
    ensures var last := FreedAt(mem, pd, n - 1);
      StepsDiffer(mem, pd, n) <==>
        StepsDiffer(mem, pd, n - 1) && (last.Some? ==> last.value !in Freed(mem, pd, n - 1))
  {
    hide FreedAt, Tables, Freed;
    var last := FreedAt(mem, pd, n - 1);
    if last.Some? { FreedElements(mem, pd, n - 1, last.value); }
  }

  /** Nothing is freed twice exactly when no two steps name the same page. */
  lemma {:induction false} FreedOnce(mem: Memory, pd: nat, n: nat)
    requires Tables(mem, pd)
    ensures Distinct(Freed(mem, pd, n)) <==> StepsDiffer(mem, pd, n)
    decreases n
  {
    hide FreedAt, Tables, Distinct, Freed;
    FreedLast(mem, pd, n);
    if n > 0 {
      FreedOnce(mem, pd, n - 1);
      StepsDifferNext(mem, pd, n);
      var front, last := Freed(mem, pd, n - 1), FreedAt(mem, pd, n - 1);
      if last.Some? {
        DistinctSnoc(front, last.value);
      } else {
        assert front + [] == front;
      }
    } else {
      DistinctEmpty<nat>();
    }
  }

  lemma DistinctEmpty<T>()
    ensures Distinct<T>([])
  {
  }

  lemma DistinctSnoc<T>(s: seq<T>, x: T)
    ensures Distinct(s + [x]) <==> Distinct(s) && x !in s
  {
    var t := s + [x];
    if Distinct(t) {
      assert forall i :: 0 <= i < |s| ==> s[i] == t[i];
      assert t[|s|] == x;
    }
  }

  lemma FreedNext(mem: Memory, pd: nat, i: nat, j: nat)
    requires Tables(mem, pd) && i < USER_PDES && j <= ENTRIES && Present(mem[pd][i])
    ensures Leads(mem, pd, i) && Freed(mem, pd, 1025 * i + j + 1) == Freed(mem, pd, 1025 * i + j) +
      if j == ENTRIES then [FrameOf(mem[pd][i])]
      else if Present(mem[FrameOf(mem[pd][i])][j]) then [FrameOf(mem[FrameOf(mem[pd][i])][j])] else []
  {
    hide FrameOf, Present;
    PresentLeads(mem, pd, i);
    assert (1025 * i + j) / 1025 == i && (1025 * i + j) % 1025 == j;
  }

  lemma LastFreed(mem: Memory, pd: nat)
    requires Tables(mem, pd)
    ensures Freed(mem, pd, 1025 * USER_PDES + 1) == Freed(mem, pd, 1025 * USER_PDES) + [pd]
  {
  }

  /** An absent table is passed over. */
  lemma {:induction false} FreedSkip(mem: Memory, pd: nat, i: nat, j: nat)
    requires Tables(mem, pd) && i < USER_PDES && !Present(mem[pd][i]) && j <= 1025
    ensures Freed(mem, pd, 1025 * i + j) == Freed(mem, pd, 1025 * i)
    decreases j
  {
    if j > 0 {
      FreedSkip(mem, pd, i, j - 1);
      assert (1025 * i + (j - 1)) / 1025 == i;
    }
  }

  // ----- destroying, in terms of the flat map

  /** `p` is a page table of the user half. */
  ghost predicate UserTable(mem: Memory, pd: nat, p: nat)
    requires Tables(mem, pd)
  {
    exists i :: 0 <= i < USER_PDES && mem[pd][i] != 0 && FrameOf(mem[pd][i]) == p
  }

  ghost predicate UserFrame(mem: Memory, pd: nat, v: nat, p: nat)
    requires Tables(mem, pd)
  {
    v < ENTRIES * USER_PDES && v in Translation(mem, pd) && Translation(mem, pd)[v].0 == p
  }

  lemma ZeroAbsent()
    ensures !Present(0)
  {
  }

  /** The step that frees the frame of user page `v`. */
  lemma StepOfPage(mem: Memory, pd: nat, v: nat)
    requires Tables(mem, pd) && v < ENTRIES * USER_PDES
    ensures var k := 1025 * (v / ENTRIES) + v % ENTRIES;
      && k < 1025 * USER_PDES && FreedAt(mem, pd, k) ==
           if v in Translation(mem, pd) then Some(Translation(mem, pd)[v].0) else None
  {
    hide FrameOf, Present;
    var i, j := v / ENTRIES, v % ENTRIES;
    assert (1025 * i + j) / 1025 == i && (1025 * i + j) % 1025 == j;
    ZeroAbsent();
    assert Mapped(mem, pd, v) <==> v in Translation(mem, pd);
    if mem[pd][i] != 0 { assert Leads(mem, pd, i); }
  }

  lemma StepOfTable(mem: Memory, pd: nat, i: nat)
    requires Tables(mem, pd) && i < USER_PDES
    ensures FreedAt(mem, pd, 1025 * i + ENTRIES) == if mem[pd][i] != 0 then Some(FrameOf(mem[pd][i])) else None
  {
    hide FrameOf, Present;
    assert (1025 * i + ENTRIES) / 1025 == i && (1025 * i + ENTRIES) % 1025 == ENTRIES;
    ZeroAbsent();
    if mem[pd][i] != 0 { assert Leads(mem, pd, i); }
  }

  /** Every step is one of those, or the last. */
  lemma StepIs(k: nat)
    requires k < 1025 * USER_PDES
    ensures var i, j := k / 1025, k % 1025;
      && i < USER_PDES && k == 1025 * i + j && j <= ENTRIES
      && (j < ENTRIES ==>
            && ENTRIES * i + j < ENTRIES * USER_PDES
            && (ENTRIES * i + j) / ENTRIES == i && (ENTRIES * i + j) % ENTRIES == j)
  {
  }

  /** pagedir_destroy frees the frame of every user page, every user page table and the directory,
      and no other page. */
  lemma DestroyFrees(mem: Memory, pd: nat, p: nat)
    requires Tables(mem, pd)
    ensures p in Freed(mem, pd, 1025 * USER_PDES + 1) <==>
      p == pd || UserTable(mem, pd, p) || exists v: nat :: UserFrame(mem, pd, v, p)
  {
    hide FreedAt, Translation, FrameOf;
    var n := 1025 * USER_PDES;
    FreedElements(mem, pd, n + 1, p);
    DirectoryLast(mem, pd);
    if k :| 0 <= k < n + 1 && FreedAt(mem, pd, k) == Some(p) && k < n {
      StepNames(mem, pd, k, p);
    }
    if v: nat :| UserFrame(mem, pd, v, p) {
      StepOfPage(mem, pd, v);
    }
    if UserTable(mem, pd, p) {
      var i :| 0 <= i < USER_PDES && mem[pd][i] != 0 && FrameOf(mem[pd][i]) == p;
      StepOfTable(mem, pd, i);
    }
  }

  lemma DirectoryLast(mem: Memory, pd: nat)
    requires Tables(mem, pd)
    ensures FreedAt(mem, pd, 1025 * USER_PDES) == Some(pd)
  {
  }

  lemma StepNames(mem: Memory, pd: nat, k: nat, p: nat)
    requires Tables(mem, pd) && k < 1025 * USER_PDES && FreedAt(mem, pd, k) == Some(p)
    ensures var i, j := k / 1025, k % 1025;
      && i < USER_PDES && k == 1025 * i + j && j <= ENTRIES
      && (if j == ENTRIES then mem[pd][i] != 0 && FrameOf(mem[pd][i]) == p else UserFrame(mem, pd, ENTRIES * i + j, p))
  {
    hide FreedAt, Tables, Translation, FrameOf;
    StepIs(k);
    if k % 1025 == ENTRIES {
      StepOfTable(mem, pd, k / 1025);
    } else {
      StepOfPage(mem, pd, ENTRIES * (k / 1025) + k % 1025);
    }
  }

  /** No frame is mapped at two user pages, and none holds the directory or a user page table. */
  ghost predicate FramesApart(mem: Memory, pd: nat)
    requires Tables(mem, pd)
  {
    && (forall v: nat, w: nat, p: nat :: v < w && UserFrame(mem, pd, v, p) ==> !UserFrame(mem, pd, w, p))
    && (forall v: nat, p: nat :: UserFrame(mem, pd, v, p) ==> p != pd && !UserTable(mem, pd, p))
  }

  /** pagedir_destroy frees no page twice exactly when the frames are apart. */
  lemma DestroyOnce(mem: Memory, pd: nat)
    requires Tables(mem, pd)
    ensures Distinct(Freed(mem, pd, 1025 * USER_PDES + 1)) <==> FramesApart(mem, pd)
  {
    hide FreedAt, Freed, Distinct, Translation, FrameOf, UserFrame;
    FreedOnce(mem, pd, 1025 * USER_PDES + 1);
    if FramesApart(mem, pd) {
      ApartSteps(mem, pd);
    }
    if StepsDiffer(mem, pd, 1025 * USER_PDES + 1) {
      StepsApart(mem, pd);
    }
  }

  lemma ApartSteps(mem: Memory, pd: nat)
    requires Tables(mem, pd) && FramesApart(mem, pd)
    ensures StepsDiffer(mem, pd, 1025 * USER_PDES + 1)
  {
    hide FreedAt, Freed, Translation, FrameOf, UserFrame;
    var n := 1025 * USER_PDES;
    DirectoryLast(mem, pd);
    forall j, k | 0 <= j < k < n + 1 && FreedAt(mem, pd, j).Some? ensures FreedAt(mem, pd, j) != FreedAt(mem, pd, k) {
      StepNames(mem, pd, j, FreedAt(mem, pd, j).value);
      if k < n && FreedAt(mem, pd, k).Some? {
        StepNames(mem, pd, k, FreedAt(mem, pd, k).value);
      }
      if k == n {
        TableNotDirectory(mem, pd, j / 1025);
      }
    }
  }

  lemma TableNotDirectory(mem: Memory, pd: nat, i: nat)
    requires Tables(mem, pd) && i < ENTRIES
    ensures mem[pd][i] != 0 ==> FrameOf(mem[pd][i]) != pd
  {
    if mem[pd][i] != 0 { assert Leads(mem, pd, i); }
  }

  lemma StepsApart(mem: Memory, pd: nat)
    requires Tables(mem, pd) && StepsDiffer(mem, pd, 1025 * USER_PDES + 1)
    ensures FramesApart(mem, pd)
  {
    hide FreedAt, Freed, Translation, FrameOf;
    DirectoryLast(mem, pd);
    forall v: nat, w: nat, p: nat | v < w && UserFrame(mem, pd, v, p) ensures !UserFrame(mem, pd, w, p) {
      if w < ENTRIES * USER_PDES {
        StepOfPage(mem, pd, v);
        StepOfPage(mem, pd, w);
      }
    }
    forall v: nat, p: nat | UserFrame(mem, pd, v, p) ensures p != pd && !UserTable(mem, pd, p) {
      StepOfPage(mem, pd, v);
      forall i | 0 <= i < USER_PDES && mem[pd][i] != 0 ensures FrameOf(mem[pd][i]) != p {
        StepOfTable(mem, pd, i);
      }
    }
  }

  class PageDir {
    const pd: nat
    /** init_page_dir. */
    const kernel: seq<u32>
    var mem: Memory

    ghost predicate Valid()
      reads this
    {
      Tables(mem, pd) && |kernel| == ENTRIES && mem[pd][USER_PDES..] == kernel[USER_PDES..]
    }

    ghost function View(): map<nat, (nat, bool)>
      reads this
      requires Valid()
    {
      Translation(mem, pd)
    }

    /** pagedir_create in a page just allocated: init_page_dir maps no user page. */
    constructor (mem: Memory, pd: nat, kernel: seq<u32>)
      requires |kernel| == ENTRIES && (forall i :: 0 <= i < USER_PDES ==> kernel[i] == 0)
      requires pd !in mem && Tables(mem[pd := kernel], pd)
      ensures Valid() && this.pd == pd && this.kernel == kernel && this.mem == mem[pd := kernel]
      ensures forall v :: v in View() ==> v >= ENTRIES * USER_PDES
    {
      this.pd, this.kernel, this.mem := pd, kernel, mem[pd := kernel];
      new;
      forall v | v in View() ensures v >= ENTRIES * USER_PDES {
        assert Mapped(this.mem, pd, v);
      }
    }

    /** lookup_page: the entry's table and index. `page` is what palloc_get_page would return. */
    method LookupPage(va: u32, create: bool, page: Option<nat>) returns (r: Option<(nat, nat)>)
      requires Valid() && (create ==> va < PHYS_BASE)
      requires page.Some? ==> page.value < PAGES && page.value !in mem
      modifies this
      ensures Valid() && (r.None? ==> mem == old(mem))
      ensures r.None? <==> Pte(old(mem), pd, PgNo(va)).None? && (!create || page.None?)
      ensures r.Some? ==> Pte(mem, pd, PgNo(va)).Some? && mem[pd][PgNo(va) / ENTRIES] != 0
      ensures r.Some? ==> r.value == (FrameOf(mem[pd][PgNo(va) / ENTRIES]), PgNo(va) % ENTRIES)
      ensures Pte(old(mem), pd, PgNo(va)).Some? ==> mem == old(mem)
      ensures Pte(old(mem), pd, PgNo(va)).None? && r.Some? ==>
        mem[pd] == old(mem)[pd][PgNo(va) / ENTRIES := PGSIZE * page.value + 7]
      ensures OthersKept(old(mem), mem, pd)
      ensures forall f :: f in old(mem) && IsTable(mem, pd, f) ==> IsTable(old(mem), pd, f)
      ensures forall w: nat :: w < PAGES ==>
        Pte(mem, pd, w) == Pte(old(mem), pd, w) || (Pte(old(mem), pd, w).None? && Pte(mem, pd, w) == Some(0))
    {
      hide FrameOf, Present, PdeCreate, PtNo;
      Indices(va);
      var i := PdNo(va);
      if mem[pd][i] == 0 {
        if !create || page.None? {
          return None;
        }
        TableAdded(mem, pd, i, page.value);
        DirectoryEntry(page.value);
        EntryValues(page.value, true);
        var table: seq<u32>, dir: seq<u32> := seq<u32>(ENTRIES, _ => 0), mem[pd][i := PdeCreate(page.value)];
        mem := mem[page.value := table][pd := dir];
      }
      r := Some((FrameOf(mem[pd][i]), PtNo(va)));
    }
  
    /** Writes the entry LookupPage found for page `v`. */
    method StorePte(at: (nat, nat), ghost v: nat, e: u32)
      requires Valid() && v < PAGES && mem[pd][v / ENTRIES] != 0
      requires at == (FrameOf(mem[pd][v / ENTRIES]), v % ENTRIES)
      modifies this
      ensures Valid() && mem[pd] == old(mem)[pd] && OthersKept(old(mem), mem, pd)
      ensures forall w: nat :: w < PAGES ==> Pte(mem, pd, w) == if w == v then Some(e) else Pte(old(mem), pd, w)
    {
      hide FrameOf, Present;
      PteWritten(mem, pd, v, e);
      assert Leads(mem, pd, v / ENTRIES);
      var table: seq<u32> := mem[at.0][at.1 := e];
      mem := mem[at.0 := table];
    }

    /** pagedir_set_page: exactly the target page's translation is added, by an entry with the bits P,
        U and W if writable, unless a page table is needed and there is no memory for it. The kernel's
        half stays init_page_dir's. */
    method SetPage(upage: u32, frame: nat, writable: bool, page: Option<nat>) returns (ok: bool)
      requires Valid() && PgOfs(upage) == 0 && upage < PHYS_BASE && frame < PAGES
      requires PgNo(upage) !in View() && (page.Some? ==> page.value < PAGES && page.value !in mem)
      modifies this
      ensures Valid() && (!ok ==> mem == old(mem))
      ensures ok ==> View() == old(View())[PgNo(upage) := (frame, writable)]
      ensures ok ==> Pte(mem, pd, PgNo(upage)) == Some(PGSIZE * frame + 5 + if writable then 2 else 0)
      ensures ok ==>
        var e := Pte(mem, pd, PgNo(upage)).value; e < TWO32 && User(e) && !Dirty(e) && !Accessed(e)
      ensures forall w: nat :: w < PAGES && w != PgNo(upage) ==>
        Pte(mem, pd, w) == Pte(old(mem), pd, w) || (Pte(old(mem), pd, w).None? && Pte(mem, pd, w) == Some(0))
      ensures OthersKept(old(mem), mem, pd)
      ensures !ok <==> Pte(old(mem), pd, PgNo(upage)).None? && page.None?
    {
      hide FrameOf, Present, Writable, User, Dirty, Accessed, PteCreateUser, Tables, Pte, OthersKept, IsTable;
      ghost var v := PgNo(upage);
      ghost var before := mem;
      var pte := LookupPage(upage, true, page);
      if pte.None? {
        return false;
      }
      UserEntry(frame, writable);
      EntryValues(frame, writable);
      NothingNew(before, mem, pd);
      ghost var mid := mem;
      StorePte(pte.value, v, PteCreateUser(frame, writable));
      TranslationChanged(mid, mem, pd, v, PteCreateUser(frame, writable));
      KeptTwice(before, mid, mem, pd);
      ok := true;
    }

    /** pagedir_get_page: the kernel address of the byte, if the page is mapped. */
    method GetPage(uaddr: u32) returns (r: Option<nat>)
      requires Valid() && uaddr < PHYS_BASE
      ensures r ==
        if PgNo(uaddr) in View() then Some(PHYS_BASE + PGSIZE * View()[PgNo(uaddr)].0 + PgOfs(uaddr)) else None
    {
      var e := ReadPte(uaddr);
      if e.Some? && Present(e.value) {
        r := Some(PHYS_BASE + PGSIZE * FrameOf(e.value) + PgOfs(uaddr));
      } else {
        r := None;
      }
    }

    /** lookup_page without creating, and the entry it points to. */
    method ReadPte(va: u32) returns (e: Option<u32>)
      requires Valid()
      ensures e == Pte(mem, pd, PgNo(va))
    {
      hide FrameOf, Present, PtNo;
      Indices(va);
      var pde := mem[pd][PdNo(va)];
      if pde == 0 {
        return None;
      }
      assert Leads(mem, pd, PdNo(va));
      e := Some(mem[FrameOf(pde)][PtNo(va)]);
    }

    /** pagedir_clear_page: the page is unmapped, and no other page's translation changes; the
        entry keeps its other bits. */
    method ClearPage(upage: u32)
      requires Valid() && PgOfs(upage) == 0 && upage < PHYS_BASE
      modifies this
      ensures Valid() && View() == old(View()) - {PgNo(upage)}
      ensures Pte(old(mem), pd, PgNo(upage)).Some? ==>
        && Pte(mem, pd, PgNo(upage)).Some? && var e := Pte(old(mem), pd, PgNo(upage)).value;
        && SameBut(e, Pte(mem, pd, PgNo(upage)).value, 0) && !Present(Pte(mem, pd, PgNo(upage)).value)
      ensures forall w: nat :: w < PAGES && w != PgNo(upage) ==> Pte(mem, pd, w) == Pte(old(mem), pd, w)
      ensures OthersKept(old(mem), mem, pd) && (Pte(old(mem), pd, PgNo(upage)).None? ==> mem == old(mem))
    {
      hide FrameOf, Present, Writable, Tables, And, Pte, IsTable, SameBut;
      ghost var v := PgNo(upage);
      ghost var before := mem;
      var pte := LookupPage(upage, false, None);
      var e := ReadPte(upage);
      if pte.Some? {
        PresentCleared(e.value);
      }
      if pte.Some? && Present(e.value) {
        StorePte(pte.value, v, And(e.value, Not(PTE_P)));
        TranslationChanged(before, mem, pd, v, And(e.value, Not(PTE_P)));
      } else {
        assert v !in View();
      }
    }
  
    /** pagedir_is_dirty. */
    method IsDirty(vpage: u32) returns (b: bool)
      requires Valid()
      ensures b <==> Pte(mem, pd, PgNo(vpage)).Some? && Dirty(Pte(mem, pd, PgNo(vpage)).value)
    {
      var e := ReadPte(vpage);
      b := e.Some? && Dirty(e.value);
    }

    /** pagedir_is_accessed. */
    method IsAccessed(vpage: u32) returns (b: bool)
      requires Valid()
      ensures b <==> Pte(mem, pd, PgNo(vpage)).Some? && Accessed(Pte(mem, pd, PgNo(vpage)).value)
    {
      var e := ReadPte(vpage);
      b := e.Some? && Accessed(e.value);
    }

    /** pagedir_set_dirty: only the dirty bit of that page's entry changes, and no translation. */
    method SetDirty(vpage: u32, dirty: bool)
      requires Valid()
      modifies this
      ensures Valid() && View() == old(View()) && OthersKept(old(mem), mem, pd)
      ensures forall w: nat :: w < PAGES && w != PgNo(vpage) ==> Pte(mem, pd, w) == Pte(old(mem), pd, w)
      ensures Pte(mem, pd, PgNo(vpage)).Some? <==> Pte(old(mem), pd, PgNo(vpage)).Some?
      ensures Pte(mem, pd, PgNo(vpage)).Some? ==>
        var e, e0 := Pte(mem, pd, PgNo(vpage)).value, Pte(old(mem), pd, PgNo(vpage)).value;
        Dirty(e) == dirty && SameBut(e0, e, 6)
    {
      hide FrameOf, Present, Writable, Dirty, Accessed, Tables, And, Or, Pte, SameBut, IsTable;
      ghost var before := mem;
      var pte := LookupPage(vpage, false, None);
      var e := ReadPte(vpage);
      if pte.Some? {
        FlagChange(e.value, 6, dirty);
        FlagChange(e.value, 6, !dirty);
        assert Pow2(6) == PTE_D;
        var e' := if dirty then Or(e.value, PTE_D) else And(e.value, Not(PTE_D));
        StorePte(pte.value, PgNo(vpage), e');
        TranslationChanged(before, mem, pd, PgNo(vpage), e');
        SameTranslation(before, pd, PgNo(vpage), e');
      }
    }

    /** pagedir_set_accessed: only the accessed bit of that page's entry changes. */
    method SetAccessed(vpage: u32, accessed: bool)
      requires Valid()
      modifies this
      ensures Valid() && View() == old(View()) && OthersKept(old(mem), mem, pd)
      ensures forall w: nat :: w < PAGES && w != PgNo(vpage) ==> Pte(mem, pd, w) == Pte(old(mem), pd, w)
      ensures Pte(mem, pd, PgNo(vpage)).Some? <==> Pte(old(mem), pd, PgNo(vpage)).Some?
      ensures Pte(mem, pd, PgNo(vpage)).Some? ==>
        var e, e0 := Pte(mem, pd, PgNo(vpage)).value, Pte(old(mem), pd, PgNo(vpage)).value;
        Accessed(e) == accessed && SameBut(e0, e, 5)
    {
      hide FrameOf, Present, Writable, Dirty, Accessed, Tables, And, Or, Pte, SameBut, IsTable;
      ghost var before := mem;
      var pte := LookupPage(vpage, false, None);
      var e := ReadPte(vpage);
      if pte.Some? {
        FlagChange(e.value, 5, accessed);
        FlagChange(e.value, 5, !accessed);
        assert Pow2(5) == PTE_A;
        var e' := if accessed then Or(e.value, PTE_A) else And(e.value, Not(PTE_A));
        StorePte(pte.value, PgNo(vpage), e');
        TranslationChanged(before, mem, pd, PgNo(vpage), e');
        SameTranslation(before, pd, PgNo(vpage), e');
      }
    }

    /** pagedir_destroy: the pages passed to palloc_free_page, in order. */
    method Destroy() returns (freed: seq<nat>)
      requires Valid()
      ensures freed == Freed(mem, pd, 1025 * USER_PDES + 1)
    {
      hide Tables, FreedAt;
      freed := [];
      for i := 0 to USER_PDES
        invariant freed == Freed(mem, pd, 1025 * i)
      {
        freed := DestroyTable(i, freed);
      }
      LastFreed(mem, pd);
      freed := freed + [pd];
    }

    /** The body of the outer loop of pagedir_destroy. */
    method DestroyTable(i: nat, freed: seq<nat>) returns (more: seq<nat>)
      requires Valid() && i < USER_PDES && freed == Freed(mem, pd, 1025 * i)
      ensures more == Freed(mem, pd, 1025 * (i + 1))
    {
      hide FrameOf, Present, Freed;
      more := freed;
      var pde := mem[pd][i];
      if !Present(pde) {
        FreedSkip(mem, pd, i, 1025);
        return;
      }
      PresentLeads(mem, pd, i);
      var pt := FrameOf(pde);
      for j := 0 to ENTRIES
        invariant more == Freed(mem, pd, 1025 * i + j)
      {
        var pte := mem[pt][j];
        FreedNext(mem, pd, i, j);
        if Present(pte) {
          more := more + [FrameOf(pte)];
        }
      }
      FreedNext(mem, pd, i, ENTRIES);
      more := more + [pt];
    }
  }

  /** pagedir_create. `page` is what palloc_get_page returns. */
  method Create(mem: Memory, page: Option<nat>, kernel: seq<u32>) returns (d: PageDir?)
    requires |kernel| == ENTRIES && (forall i :: 0 <= i < USER_PDES ==> kernel[i] == 0)
    requires page.Some? ==> page.value !in mem && Tables(mem[page.value := kernel], page.value)
    ensures d == null <==> page.None?
    ensures d != null ==> fresh(d) && d.Valid() && d.pd == page.value && d.mem == mem[page.value := kernel]
    ensures d != null ==> forall v :: v in d.View() ==> v >= ENTRIES * USER_PDES
  {
    hide Tables;
    d := null;
    if page.Some? {
      d := new PageDir(mem, page.value, kernel);
    }
  }
}
