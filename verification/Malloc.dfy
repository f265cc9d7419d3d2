/** The block allocator (threads/malloc.c): power-of-two blocks carved from one-page arenas,
    and multi-page arenas for larger requests. */
module Malloc {
  import opened Integers
  import opened Options
  import opened Palloc
  import opened Sequences
  import opened Words

  /** sizeof (struct arena). */
  const ARENA_SIZE: nat := 12

  /** The block size of each descriptor, as malloc_init computes them. */
  const SIZES: seq<nat> := [16, 32, 64, 128, 256, 512, 1024]

  type DescIdx = d: nat | d < 7

  function BlockSize(d: DescIdx): (n: nat)
    ensures 16 <= n <= 1024
  {
    SIZES[d]
  }

  function BlocksPerArena(d: DescIdx): (n: nat)
    ensures n * BlockSize(d) + ARENA_SIZE <= PGSIZE < (n + 1) * BlockSize(d) + ARENA_SIZE && n >= 2
  {
    (PGSIZE - ARENA_SIZE) / BlockSize(d)
  }

  /** An arena header: its descriptor and free blocks, or its number of pages. */
  datatype Arena = Normal(d: DescIdx, freeCnt: nat) | Big(pages: nat)

  /** Arenas by page number within the pool, the free lists as block addresses relative to the
      pool's base, and the live blocks with the sizes asked for. */
  datatype Heap = Heap(arenas: map<nat, Arena>, free: seq<seq<nat>>, live: map<nat, nat>)

  // ----- addresses

  /** arena_to_block, for the arena at page `p`. */
  function BlockAt(p: nat, d: DescIdx, i: nat): nat {
    PGSIZE * p + ARENA_SIZE + i * BlockSize(d)
  }

  /** block_to_arena. */
  function PageOf(b: nat): nat { b / PGSIZE }

  ghost function BlocksOf(p: nat, d: DescIdx): set<nat> {
    set i | 0 <= i < BlocksPerArena(d) :: BlockAt(p, d, i)
  }

  /** Blocks lie inside their arena's page, after the header; block_to_arena finds the arena. */
  lemma BlockInPage(p: nat, d: DescIdx, i: nat)
    requires i < BlocksPerArena(d)
    ensures PGSIZE * p + ARENA_SIZE <= BlockAt(p, d, i)
    ensures BlockAt(p, d, i) + BlockSize(d) <= PGSIZE * (p + 1)
    ensures PageOf(BlockAt(p, d, i)) == p
  {
    var n := BlocksPerArena(d);
    MulOrder(i + 1, n, BlockSize(d));
    assert (i + 1) * BlockSize(d) == i * BlockSize(d) + BlockSize(d);
    MulNonNeg(i, BlockSize(d));
    DivUnique(BlockAt(p, d, i), PGSIZE, p);
  }

  /** Different blocks of one arena do not overlap. */
  lemma BlocksApart(p: nat, d: DescIdx, i: nat, j: nat)
    requires i < j
    ensures BlockAt(p, d, i) + BlockSize(d) <= BlockAt(p, d, j)
  {
    MulOrder(i + 1, j, BlockSize(d));
    assert (i + 1) * BlockSize(d) == i * BlockSize(d) + BlockSize(d);
  }

  lemma {:induction false} BlockCount(p: nat, d: DescIdx, n: nat)
    requires n <= BlocksPerArena(d)
    ensures |set i | 0 <= i < n :: BlockAt(p, d, i)| == n
    decreases n
  {
    var s := set i | 0 <= i < n :: BlockAt(p, d, i);
    if n > 0 {
      BlockCount(p, d, n - 1);
      var t := set i | 0 <= i < n - 1 :: BlockAt(p, d, i);
      assert s == t + {BlockAt(p, d, n - 1)};
      forall b | b in t ensures b != BlockAt(p, d, n - 1) {
        var i :| 0 <= i < n - 1 && b == BlockAt(p, d, i);
        BlocksApart(p, d, i, n - 1);
      }
    } else {
      assert s == {};
    }
  }

  // ----- the invariant

  /** `b` is a block of the arena of its page, whose descriptor is `d`. */
  ghost predicate BlockOf(h: Heap, b: nat, d: DescIdx) {
    && PageOf(b) in h.arenas && h.arenas[PageOf(b)].Normal? && h.arenas[PageOf(b)].d == d
    && b in BlocksOf(PageOf(b), d)
  }

  ghost predicate IsFree(h: Heap, b: nat, d: DescIdx)
    requires |h.free| == 7
  {
    b in h.free[d]
  }

  /** `b` has been handed out and not freed: a block of an arena that is not on its
      descriptor's list, or the body of a big arena. */
  ghost predicate InUse(h: Heap, b: nat)
    requires |h.free| == 7
  {
    PageOf(b) in h.arenas &&
    match h.arenas[PageOf(b)]
    case Normal(d, _) => b in BlocksOf(PageOf(b), d) && !IsFree(h, b, d)
    case Big(_) => b == PGSIZE * PageOf(b) + ARENA_SIZE
  }

  ghost function FreeOf(h: Heap, p: nat, d: DescIdx): set<nat>
    requires |h.free| == 7
  {
    set b | b in BlocksOf(p, d) && IsFree(h, b, d)
  }

  ghost function PagesOf(p: nat, a: Arena): set<nat> {
    Range(p, if a.Normal? then 1 else a.pages)
  }

  /** Bytes available at block `b`: block_size in malloc.c. */
  function Room(arenas: map<nat, Arena>, b: nat): nat {
    if PageOf(b) !in arenas then 0
    else
      match arenas[PageOf(b)]
      case Normal(d, _) => BlockSize(d)
      case Big(n) => if PGSIZE * n < ARENA_SIZE then 0 else PGSIZE * n - ARENA_SIZE
  }

  function Capacity(h: Heap, b: nat): nat { Room(h.arenas, b) }

  /** Sizes above this make the page count of malloc wrap around. */
  const WRAP_LIMIT: nat := TWO32 - ARENA_SIZE

  /** The free lists hold distinct blocks of live arenas. */
  ghost predicate ListsOk(h: Heap) {
    && |h.free| == 7
    && (forall d: DescIdx :: Distinct(h.free[d]))
    && (forall d: DescIdx, b: nat :: IsFree(h, b, d) ==> BlockOf(h, b, d))
  }

  /** Each arena's count is the number of its blocks on its descriptor's list. */
  ghost predicate CountsOk(h: Heap)
    requires |h.free| == 7
  {
    forall p :: p in h.arenas && h.arenas[p].Normal? ==>
      h.arenas[p].freeCnt == |FreeOf(h, p, h.arenas[p].d)|
  }

  /** Live blocks are exactly those handed out and not freed, each at least as large as asked
      for unless the request wrapped. */
  ghost predicate LiveOk(h: Heap)
    requires |h.free| == 7
  {
    && (forall b: nat :: b in h.live <==> InUse(h, b))
    && (forall b: nat :: b in h.live && h.live[b] <= WRAP_LIMIT ==> h.live[b] <= Capacity(h, b))
  }

  /** Arenas share no page. */
  ghost predicate PagesOk(h: Heap) {
    && (forall p :: p in h.arenas && h.arenas[p].Big? ==> 1 <= h.arenas[p].pages)
    && (forall p, q :: p in h.arenas && q in h.arenas && p != q ==>
          PagesOf(p, h.arenas[p]) !! PagesOf(q, h.arenas[q]))
  }

  ghost predicate Consistent(h: Heap) {
    ListsOk(h) && CountsOk(h) && LiveOk(h) && PagesOk(h)
  }

  /** No arena persists with all its blocks free. */
  ghost predicate NoneEmpty(h: Heap) {
    forall p :: p in h.arenas && h.arenas[p].Normal? ==> h.arenas[p].freeCnt < BlocksPerArena(h.arenas[p].d)
  }

  ghost predicate HeapInv(h: Heap) { Consistent(h) && NoneEmpty(h) }

  const EMPTY: Heap := Heap(map[], [[], [], [], [], [], [], []], map[])

  lemma EmptyInv()
    ensures HeapInv(EMPTY)
  {
  }

  // ----- the transitions

  /** The blocks of an arena in address order. */
  function BlockSeq(p: nat, d: DescIdx, n: nat): (s: seq<nat>)
    ensures |s| == n && forall i :: 0 <= i < n ==> s[i] == BlockAt(p, d, i)
  {
    seq(n, i requires 0 <= i < n => BlockAt(p, d, i))
  }

  /** A fresh arena: all its blocks join the free list. */
  function AddArena(h: Heap, p: nat, d: DescIdx): Heap
    requires |h.free| == 7
  {
    h.(arenas := h.arenas[p := Normal(d, BlocksPerArena(d))],
       free := h.free[d := h.free[d] + BlockSeq(p, d, BlocksPerArena(d))])
  }

  lemma BlocksInPage(p: nat, d: DescIdx)
    ensures forall b: nat :: b in BlocksOf(p, d) ==> PageOf(b) == p
  {
    forall b: nat | b in BlocksOf(p, d) ensures PageOf(b) == p {
      var i :| 0 <= i < BlocksPerArena(d) && b == BlockAt(p, d, i);
      BlockInPage(p, d, i);
    }
  }

  lemma BlockSeqElements(p: nat, d: DescIdx)
    ensures var s := BlockSeq(p, d, BlocksPerArena(d));
      Distinct(s) && forall b: nat :: b in s <==> b in BlocksOf(p, d)
  {
    var n := BlocksPerArena(d);
    var s := BlockSeq(p, d, n);
    forall i, j | 0 <= i < j < n ensures s[i] != s[j] { BlocksApart(p, d, i, j); }
    forall b: nat | b in BlocksOf(p, d) ensures b in s {
      var i :| 0 <= i < n && b == BlockAt(p, d, i);
      assert s[i] == b;
    }
  }

  /** Counts of arenas whose blocks neither join nor leave a list stay right. */
  lemma SameFree(h: Heap, h': Heap, p: nat, d: DescIdx)
    requires |h.free| == 7 && |h'.free| == 7
    requires forall b: nat :: PageOf(b) == p ==> (IsFree(h', b, d) <==> IsFree(h, b, d))
    ensures FreeOf(h', p, d) == FreeOf(h, p, d)
  {
    BlocksInPage(p, d);
  }

  lemma AddArenaConsistent(h: Heap, p: nat, d: DescIdx)
    requires Consistent(h) && forall q :: q in h.arenas ==> p !in PagesOf(q, h.arenas[q])
    ensures Consistent(AddArena(h, p, d))
  {
    hide BlocksOf, BlockSeq, CountsOk, LiveOk, PagesOk, Distinct;
    NewPage(h, p);
    AddArenaLists(h, p, d);
    AddArenaCounts(h, p, d);
    AddArenaLive(h, p, d);
    AddArenaPages(h, p, d);
  }

  lemma NewPage(h: Heap, p: nat)
    requires PagesOk(h) && forall q :: q in h.arenas ==> p !in PagesOf(q, h.arenas[q])
    ensures p !in h.arenas
  {
    assert p in h.arenas ==> p in PagesOf(p, h.arenas[p]);
  }

  lemma AddArenaLists(h: Heap, p: nat, d: DescIdx)
    requires ListsOk(h) && p !in h.arenas
    ensures ListsOk(AddArena(h, p, d))
    ensures var h' := AddArena(h, p, d); forall b: nat, e: DescIdx ::
      IsFree(h', b, e) <==> IsFree(h, b, e) || (e == d && b in BlocksOf(p, d))
  {
    hide BlocksOf, BlockSeq;
    var h', blocks := AddArena(h, p, d), BlockSeq(p, d, BlocksPerArena(d));
    BlockSeqElements(p, d);
    BlocksInPage(p, d);
    assert forall i :: 0 <= i < |blocks| ==> blocks[i] in blocks;
    assert forall i :: 0 <= i < |h.free[d]| ==> IsFree(h, h.free[d][i], d);
    forall b: nat, e: DescIdx ensures IsFree(h', b, e) <==> IsFree(h, b, e) || (e == d && b in BlocksOf(p, d)) {
    }
  }

  lemma AddArenaCounts(h: Heap, p: nat, d: DescIdx)
    requires ListsOk(h) && CountsOk(h) && p !in h.arenas && ListsOk(AddArena(h, p, d))
    ensures CountsOk(AddArena(h, p, d))
  {
    var h' := AddArena(h, p, d);
    AddArenaLists(h, p, d);
    hide ListsOk;
    BlockCount(p, d, BlocksPerArena(d));
    assert FreeOf(h', p, d) == BlocksOf(p, d);
    BlocksInPage(p, d);
    forall q | q in h.arenas && h.arenas[q].Normal?
      ensures FreeOf(h', q, h.arenas[q].d) == FreeOf(h, q, h.arenas[q].d)
    {
      SameFree(h, h', q, h.arenas[q].d);
    }
  }

  lemma AddArenaLive(h: Heap, p: nat, d: DescIdx)
    requires ListsOk(h) && LiveOk(h) && p !in h.arenas && ListsOk(AddArena(h, p, d))
    ensures LiveOk(AddArena(h, p, d))
  {
    var h' := AddArena(h, p, d);
    AddArenaLists(h, p, d);
    BlocksInPage(p, d);
    hide ListsOk, BlocksOf;
    forall b: nat ensures InUse(h', b) <==> InUse(h, b) {
    }
  }

  lemma AddArenaPages(h: Heap, p: nat, d: DescIdx)
    requires |h.free| == 7 && PagesOk(h) && forall q :: q in h.arenas ==> p !in PagesOf(q, h.arenas[q])
    ensures PagesOk(AddArena(h, p, d))
  {
    assert Range(p, 1) == {p};
  }

  /** Handing out the front block of a free list. */
  function Take(h: Heap, d: DescIdx, size: nat): Heap
    requires ListsOk(h) && h.free[d] != []
  {
    var b := h.free[d][0];
    assert IsFree(h, b, d);
    var a := h.arenas[PageOf(b)];
    h.(arenas := h.arenas[PageOf(b) := a.(freeCnt := if a.freeCnt == 0 then 0 else a.freeCnt - 1)],
       free := h.free[d := h.free[d][1..]], live := h.live[b := size])
  }

  lemma TakeFree(h: Heap, d: DescIdx, size: nat)
    requires ListsOk(h) && h.free[d] != []
    ensures ListsOk(Take(h, d, size))
    ensures var h', b := Take(h, d, size), h.free[d][0];
      && IsFree(h, b, d) && forall x: nat, e: DescIdx :: IsFree(h', x, e) <==> IsFree(h, x, e) && !(e == d && x == b)
  {
    var h', b := Take(h, d, size), h.free[d][0];
    assert IsFree(h, b, d) && h.free[d] == [b] + h'.free[d];
    forall x: nat, e: DescIdx ensures IsFree(h', x, e) <==> IsFree(h, x, e) && !(e == d && x == b) {
    }
  }

  lemma TakeCounts(h: Heap, d: DescIdx, size: nat)
    requires ListsOk(h) && CountsOk(h) && h.free[d] != [] && ListsOk(Take(h, d, size))
    ensures CountsOk(Take(h, d, size))
    ensures IsFree(h, h.free[d][0], d) && h.arenas[PageOf(h.free[d][0])].freeCnt > 0
  {
    var h', b := Take(h, d, size), h.free[d][0];
    var p := PageOf(b);
    TakeFree(h, d, size);
    assert BlockOf(h, b, d);
    assert FreeOf(h', p, d) == FreeOf(h, p, d) - {b} && b in FreeOf(h, p, d);
    forall q | q in h'.arenas && q != p && h'.arenas[q].Normal?
      ensures h'.arenas[q].freeCnt == |FreeOf(h', q, h'.arenas[q].d)|
    {
      SameFree(h, h', q, h.arenas[q].d);
    }
  }

  lemma TakeLive(h: Heap, d: DescIdx, size: nat)
    requires ListsOk(h) && LiveOk(h) && h.free[d] != [] && ListsOk(Take(h, d, size)) && size <= BlockSize(d)
    ensures LiveOk(Take(h, d, size)) && h.free[d][0] !in h.live
  {
    var h', b := Take(h, d, size), h.free[d][0];
    TakeFree(h, d, size);
    assert BlockOf(h, b, d);
    hide BlocksOf;
    forall x: nat ensures InUse(h', x) <==> InUse(h, x) || x == b {
      assert IsFree(h', x, d) <==> IsFree(h, x, d) && x != b;
    }
  }

  lemma TakePages(h: Heap, d: DescIdx, size: nat)
    requires ListsOk(h) && PagesOk(h) && h.free[d] != []
    ensures PagesOk(Take(h, d, size))
  {
    assert IsFree(h, h.free[d][0], d);
  }

  lemma TakeConsistent(h: Heap, d: DescIdx, size: nat)
    requires Consistent(h) && h.free[d] != [] && size <= BlockSize(d)
    ensures Consistent(Take(h, d, size))
    ensures IsFree(h, h.free[d][0], d) && h.free[d][0] !in h.live && h.arenas[PageOf(h.free[d][0])].freeCnt > 0
  {
    hide CountsOk, LiveOk, PagesOk, BlocksOf;
    assert IsFree(h, h.free[d][0], d);
    TakeFree(h, d, size);
    TakeCounts(h, d, size);
    TakeLive(h, d, size);
    TakePages(h, d, size);
  }

  /** Putting a live block back on the front of its list. */
  function Give(h: Heap, b: nat): Heap
    requires ListsOk(h) && PageOf(b) in h.arenas && h.arenas[PageOf(b)].Normal?
  {
    var a := h.arenas[PageOf(b)];
    h.(arenas := h.arenas[PageOf(b) := a.(freeCnt := a.freeCnt + 1)],
       free := h.free[a.d := [b] + h.free[a.d]], live := h.live - {b})
  }

  lemma GiveFree(h: Heap, b: nat)
    requires ListsOk(h) && InUse(h, b) && h.arenas[PageOf(b)].Normal?
    ensures ListsOk(Give(h, b))
    ensures var h', d := Give(h, b), h.arenas[PageOf(b)].d;
      forall x: nat, e: DescIdx :: IsFree(h', x, e) <==> IsFree(h, x, e) || (e == d && x == b)
  {
    var h', d := Give(h, b), h.arenas[PageOf(b)].d;
    forall x: nat, e: DescIdx ensures IsFree(h', x, e) <==> IsFree(h, x, e) || (e == d && x == b) {
    }
    assert forall i :: 0 <= i < |h.free[d]| ==> IsFree(h, h.free[d][i], d);
  }

  lemma GiveCounts(h: Heap, b: nat)
    requires ListsOk(h) && CountsOk(h) && InUse(h, b) && h.arenas[PageOf(b)].Normal? && ListsOk(Give(h, b))
    ensures CountsOk(Give(h, b))
  {
    var h', p, d := Give(h, b), PageOf(b), h.arenas[PageOf(b)].d;
    GiveFree(h, b);
    assert FreeOf(h', p, d) == FreeOf(h, p, d) + {b} && b !in FreeOf(h, p, d);
    forall q | q in h'.arenas && q != p && h'.arenas[q].Normal?
      ensures h'.arenas[q].freeCnt == |FreeOf(h', q, h'.arenas[q].d)|
    {
      SameFree(h, h', q, h.arenas[q].d);
    }
  }

  lemma GiveLive(h: Heap, b: nat)
    requires ListsOk(h) && LiveOk(h) && InUse(h, b) && h.arenas[PageOf(b)].Normal? && ListsOk(Give(h, b))
    ensures LiveOk(Give(h, b))
  {
    var h', d := Give(h, b), h.arenas[PageOf(b)].d;
    GiveFree(h, b);
    hide BlocksOf;
    forall x: nat ensures InUse(h', x) <==> InUse(h, x) && x != b {
      assert IsFree(h', x, d) <==> IsFree(h, x, d) || x == b;
    }
  }

  lemma GivePages(h: Heap, b: nat)
    requires ListsOk(h) && PagesOk(h) && PageOf(b) in h.arenas && h.arenas[PageOf(b)].Normal?
    ensures PagesOk(Give(h, b))
  {
  }

  lemma GiveConsistent(h: Heap, b: nat)
    requires Consistent(h) && b in h.live && InUse(h, b) && h.arenas[PageOf(b)].Normal?
    ensures Consistent(Give(h, b))
  {
    hide CountsOk, LiveOk, PagesOk, BlocksOf;
    GiveFree(h, b);
    GiveCounts(h, b);
    GiveLive(h, b);
    GivePages(h, b);
  }

  /** A free list after list_remove of the first `n` blocks of an arena. */
  function Removed(s: seq<nat>, p: nat, d: DescIdx, n: nat): seq<nat> {
    if n == 0 then s else Without(Removed(s, p, d, n - 1), BlockAt(p, d, n - 1))
  }

  lemma {:induction false} RemovedElements(s: seq<nat>, p: nat, d: DescIdx, n: nat)
    requires Distinct(s) && n <= BlocksPerArena(d)
    ensures Distinct(Removed(s, p, d, n))
    ensures forall x: nat :: x in Removed(s, p, d, n) <==> x in s && !(exists i :: 0 <= i < n && x == BlockAt(p, d, i))
    decreases n
  {
    if n > 0 {
      RemovedElements(s, p, d, n - 1);
      WithoutDistinct(Removed(s, p, d, n - 1), BlockAt(p, d, n - 1));
    }
  }

  /** Giving back an arena whose blocks are all free. */
  function DropArena(h: Heap, p: nat): Heap
    requires |h.free| == 7 && p in h.arenas && h.arenas[p].Normal?
  {
    var d := h.arenas[p].d;
    h.(arenas := h.arenas - {p}, free := h.free[d := Removed(h.free[d], p, d, BlocksPerArena(d))])
  }

  lemma AllFree(h: Heap, p: nat)
    requires ListsOk(h) && CountsOk(h) && p in h.arenas && h.arenas[p].Normal?
    requires h.arenas[p].freeCnt >= BlocksPerArena(h.arenas[p].d)
    ensures FreeOf(h, p, h.arenas[p].d) == BlocksOf(p, h.arenas[p].d)
    ensures h.arenas[p].freeCnt == BlocksPerArena(h.arenas[p].d)
  {
    var d := h.arenas[p].d;
    BlockCount(p, d, BlocksPerArena(d));
    var rest := BlocksOf(p, d) - FreeOf(h, p, d);
    assert BlocksOf(p, d) == FreeOf(h, p, d) + rest;
    assert |BlocksOf(p, d)| == |FreeOf(h, p, d)| + |rest|;
  }

  lemma DropArenaFree(h: Heap, p: nat)
    requires ListsOk(h) && p in h.arenas && h.arenas[p].Normal?
    ensures ListsOk(DropArena(h, p))
    ensures var h', d := DropArena(h, p), h.arenas[p].d;
      forall x: nat, e: DescIdx :: IsFree(h', x, e) <==> IsFree(h, x, e) && PageOf(x) != p
  {
    var h', d := DropArena(h, p), h.arenas[p].d;
    RemovedElements(h.free[d], p, d, BlocksPerArena(d));
    BlocksInPage(p, d);
    forall x: nat, e: DescIdx ensures IsFree(h', x, e) <==> IsFree(h, x, e) && PageOf(x) != p {
      if IsFree(h, x, e) { assert BlockOf(h, x, e); }
    }
  }

  lemma DropArenaConsistent(h: Heap, p: nat)
    requires Consistent(h) && p in h.arenas && h.arenas[p].Normal?
    requires h.arenas[p].freeCnt >= BlocksPerArena(h.arenas[p].d)
    ensures Consistent(DropArena(h, p)) && h.arenas[p].freeCnt == BlocksPerArena(h.arenas[p].d)
  {
    var h', d := DropArena(h, p), h.arenas[p].d;
    AllFree(h, p);
    DropArenaFree(h, p);
    forall q | q in h'.arenas && h'.arenas[q].Normal?
      ensures h'.arenas[q].freeCnt == |FreeOf(h', q, h'.arenas[q].d)|
    {
      SameFree(h, h', q, h.arenas[q].d);
    }
    forall x: nat ensures InUse(h', x) <==> InUse(h, x) {
      assert PageOf(x) == p && x in BlocksOf(p, d) ==> x in FreeOf(h, p, d);
    }
  }

  /** A multi-page arena for one request. */
  function AddBig(h: Heap, p: nat, pages: nat, size: nat): Heap {
    h.(arenas := h.arenas[p := Big(pages)], live := h.live[PGSIZE * p + ARENA_SIZE := size])
  }

  /** Big arenas play no part in the lists and the counts. */
  lemma SameNormals(h: Heap, h': Heap)
    requires ListsOk(h) && CountsOk(h) && h'.free == h.free
    requires forall p :: p in h.arenas && h.arenas[p].Normal? ==> p in h'.arenas && h'.arenas[p] == h.arenas[p]
    requires forall p :: p in h'.arenas && h'.arenas[p].Normal? ==> p in h.arenas && h.arenas[p] == h'.arenas[p]
    ensures ListsOk(h') && CountsOk(h')
  {
    hide BlocksOf, Distinct;
    forall b: nat, d: DescIdx | IsFree(h', b, d) ensures BlockOf(h', b, d) {
      assert IsFree(h, b, d);
    }
    forall q | q in h'.arenas && h'.arenas[q].Normal?
      ensures h'.arenas[q].freeCnt == |FreeOf(h', q, h'.arenas[q].d)|
    {
      SameFree(h, h', q, h.arenas[q].d);
    }
  }

  lemma AddBigLive(h: Heap, p: nat, pages: nat, size: nat)
    requires |h.free| == 7 && LiveOk(h) && 1 <= pages && (size <= WRAP_LIMIT ==> size + ARENA_SIZE <= PGSIZE * pages)
    requires p !in h.arenas
    ensures LiveOk(AddBig(h, p, pages, size))
  {
    hide BlocksOf;
    var h', b := AddBig(h, p, pages, size), PGSIZE * p + ARENA_SIZE;
    assert PageOf(b) == p;
    forall x: nat ensures InUse(h', x) <==> InUse(h, x) || x == b {
    }
  }

  lemma AddBigPages(h: Heap, p: nat, pages: nat, size: nat)
    requires PagesOk(h) && 1 <= pages && forall q :: q in h.arenas ==> PagesOf(q, h.arenas[q]) !! Range(p, pages)
    ensures p !in h.arenas && PagesOk(AddBig(h, p, pages, size))
  {
    hide Range;
    assert p in Range(p, pages);
    assert forall q :: q in h.arenas ==> p !in PagesOf(q, h.arenas[q]);
    NewPage(h, p);
  }

  lemma AddBigConsistent(h: Heap, p: nat, pages: nat, size: nat)
    requires Consistent(h) && 1 <= pages && (size <= WRAP_LIMIT ==> size + ARENA_SIZE <= PGSIZE * pages)
    requires forall q :: q in h.arenas ==> PagesOf(q, h.arenas[q]) !! Range(p, pages)
    ensures Consistent(AddBig(h, p, pages, size)) && p !in h.arenas
  {
    hide Distinct, CountsOk, LiveOk, PagesOk, BlocksOf, PagesOf, Range;
    AddBigPages(h, p, pages, size);
    SameNormals(h, AddBig(h, p, pages, size));
    AddBigLive(h, p, pages, size);
  }

  function DropBig(h: Heap, p: nat): Heap {
    h.(arenas := h.arenas - {p}, live := h.live - {PGSIZE * p + ARENA_SIZE})
  }

  lemma DropBigLive(h: Heap, p: nat)
    requires |h.free| == 7 && LiveOk(h) && p in h.arenas && h.arenas[p].Big?
    ensures LiveOk(DropBig(h, p))
  {
    hide BlocksOf;
    var h', b := DropBig(h, p), PGSIZE * p + ARENA_SIZE;
    assert PageOf(b) == p;
    forall x: nat ensures InUse(h', x) <==> InUse(h, x) && x != b {
    }
  }

  lemma DropBigConsistent(h: Heap, p: nat)
    requires Consistent(h) && p in h.arenas && h.arenas[p].Big?
    ensures Consistent(DropBig(h, p))
  {
    hide Distinct, CountsOk, LiveOk, BlocksOf;
    SameNormals(h, DropBig(h, p));
    DropBigLive(h, p);
  }

  // ----- what the invariant promises

  /** Where a live block may lie: after its arena's header, inside its arena's pages. */
  lemma LiveExtent(h: Heap, b: nat)
    requires Consistent(h) && b in h.live
    ensures PageOf(b) in h.arenas
    ensures var p := PageOf(b); var n := if h.arenas[p].Normal? then 1 else h.arenas[p].pages;
      PGSIZE * p + ARENA_SIZE <= b && b + Capacity(h, b) <= PGSIZE * (p + n)
  {
    var p := PageOf(b);
    assert InUse(h, b);
    if h.arenas[p].Normal? {
      var i :| 0 <= i < BlocksPerArena(h.arenas[p].d) && b == BlockAt(p, h.arenas[p].d, i);
      BlockInPage(p, h.arenas[p].d, i);
    }
  }

  /** Two live blocks share no byte. */
  lemma LiveApart(h: Heap, b: nat, c: nat)
    requires Consistent(h) && b in h.live && c in h.live && b != c
    ensures PageOf(b) in h.arenas && PageOf(c) in h.arenas
    ensures b + Capacity(h, b) <= c || c + Capacity(h, c) <= b
  {
    LiveExtent(h, b);
    LiveExtent(h, c);
    var p, q := PageOf(b), PageOf(c);
    assert InUse(h, b) && InUse(h, c);
    if p == q {
      SamePageApart(p, h.arenas[p].d, b, c);
    } else {
      PagesApart(h, p, q);
    }
  }

  lemma SamePageApart(p: nat, d: DescIdx, b: nat, c: nat)
    requires b in BlocksOf(p, d) && c in BlocksOf(p, d) && b != c
    ensures b + BlockSize(d) <= c || c + BlockSize(d) <= b
  {
    var i :| 0 <= i < BlocksPerArena(d) && b == BlockAt(p, d, i);
    var j :| 0 <= j < BlocksPerArena(d) && c == BlockAt(p, d, j);
    if i < j { BlocksApart(p, d, i, j); } else { BlocksApart(p, d, j, i); }
  }

  lemma PagesApart(h: Heap, p: nat, q: nat)
    requires PagesOk(h) && p in h.arenas && q in h.arenas && p != q
    ensures var n := if h.arenas[p].Normal? then 1 else h.arenas[p].pages;
      var m := if h.arenas[q].Normal? then 1 else h.arenas[q].pages;
      p + n <= q || q + m <= p
  {
    assert p in PagesOf(p, h.arenas[p]) && q in PagesOf(q, h.arenas[q]);
  }

  /** An arena none of whose blocks is in use has them all on its list. */
  lemma IdleArena(h: Heap, p: nat)
    requires |h.free| == 7 && CountsOk(h) && p in h.arenas && h.arenas[p].Normal?
    requires forall b: nat :: PageOf(b) == p ==> !InUse(h, b)
    ensures h.arenas[p].freeCnt == BlocksPerArena(h.arenas[p].d)
  {
    var d := h.arenas[p].d;
    BlocksInPage(p, d);
    BlockCount(p, d, BlocksPerArena(d));
    assert FreeOf(h, p, d) == BlocksOf(p, d) by {
      hide BlocksOf;
      forall b | b in BlocksOf(p, d) ensures b in FreeOf(h, p, d) {
        assert !InUse(h, b);
      }
    }
  }

  /** Every arena holds a live block. */
  lemma SomeLive(h: Heap, p: nat) returns (b: nat)
    requires HeapInv(h) && p in h.arenas
    ensures b in h.live && PageOf(b) == p
  {
    hide BlocksOf, CountsOk, BlocksPerArena, Distinct;
    b := PGSIZE * p + ARENA_SIZE;
    assert PageOf(b) == p;
    if h.arenas[p].Normal? {
      if forall c: nat :: PageOf(c) == p ==> !InUse(h, c) {
        IdleArena(h, p);
        assert false;
      }
      b :| PageOf(b) == p && InUse(h, b);
    } else {
      assert InUse(h, b);
    }
  }

  /** With no block live, no arena is left. */
  lemma NothingLive(h: Heap)
    requires HeapInv(h) && h.live == map[]
    ensures h.arenas == map[]
  {
    hide HeapInv;
    if h.arenas != map[] {
      var p :| p in h.arenas;
      var b := SomeLive(h, p);
    }
  }

  // ----- the pages held

  /** The pages of all arenas. */
  ghost function Held(arenas: map<nat, Arena>): set<nat> {
    set p, q | p in arenas && q in PagesOf(p, arenas[p]) :: q
  }

  lemma HeldAdd(arenas: map<nat, Arena>, p: nat, a: Arena)
    requires p !in arenas
    ensures Held(arenas[p := a]) == Held(arenas) + PagesOf(p, a)
  {
    hide Held, PagesOf;
    forall q ensures q in Held(arenas[p := a]) <==> q in Held(arenas) + PagesOf(p, a) {
      HeldAddPage(arenas, p, a, q);
    }
  }

  lemma HeldAddPage(arenas: map<nat, Arena>, p: nat, a: Arena, q: nat)
    requires p !in arenas
    ensures q in Held(arenas[p := a]) <==> q in Held(arenas) || q in PagesOf(p, a)
  {
    hide PagesOf;
    var more := arenas[p := a];
    if q in Held(more) {
      var r :| r in more && q in PagesOf(r, more[r]);
      assert r != p ==> r in arenas && more[r] == arenas[r];
    }
    if q in PagesOf(p, a) {
      assert p in more && more[p] == a;
    }
    if q in Held(arenas) {
      var r :| r in arenas && q in PagesOf(r, arenas[r]);
      assert r in more && more[r] == arenas[r];
    }
  }

  lemma HeldDrop(h: Heap, p: nat)
    requires PagesOk(h) && p in h.arenas
    ensures PagesOf(p, h.arenas[p]) <= Held(h.arenas)
    ensures Held(h.arenas - {p}) == Held(h.arenas) - PagesOf(p, h.arenas[p])
  {
    hide PagesOf;
    var rest := h.arenas - {p};
    HeldAdd(rest, p, h.arenas[p]);
    assert rest[p := h.arenas[p]] == h.arenas;
    forall q | q in Held(rest) ensures q !in PagesOf(p, h.arenas[p]) {
      var r :| r in rest && q in PagesOf(r, rest[r]);
      assert r != p && r in h.arenas;
    }
  }

  /** Changing an arena's count holds no other pages. */
  lemma HeldSame(arenas: map<nat, Arena>, p: nat, a: Arena)
    requires p in arenas && PagesOf(p, a) == PagesOf(p, arenas[p])
    ensures Held(arenas[p := a]) == Held(arenas)
  {
    hide PagesOf;
    HeldAdd(arenas - {p}, p, arenas[p]);
    HeldAdd(arenas - {p}, p, a);
    assert (arenas - {p})[p := arenas[p]] == arenas;
    assert (arenas - {p})[p := a] == arenas[p := a];
  }

  // ----- sizes

  /** DIV_ROUND_UP (size + sizeof *a, PGSIZE) in 32-bit arithmetic. */
  function PageCnt(size: u32): nat {
    ToU32(size + ARENA_SIZE + PGSIZE - 1) / PGSIZE
  }

  /** A big request asks for enough pages, or for none, exactly up to the wrap-around limit. */
  lemma PageCntEnough(size: u32)
    ensures PageCnt(size) == 0 || size + ARENA_SIZE <= PGSIZE * PageCnt(size) <==> size <= WRAP_LIMIT
    ensures PageCnt(size) == 0 <==> WRAP_LIMIT - PGSIZE < size <= WRAP_LIMIT
    ensures size > WRAP_LIMIT ==> PageCnt(size) == 1
  {
    var x := size + ARENA_SIZE + PGSIZE - 1;
    assert ToU32(x) == if x < TWO32 then x else x - TWO32;
  }

  /** A big block holds its request exactly up to the limit: above it the request is for 1 page. */
  lemma BigCapacity(h: Heap, p: nat, size: u32)
    requires PageCnt(size) > 0
    ensures var h', b := AddBig(h, p, PageCnt(size), size), PGSIZE * p + ARENA_SIZE;
      PageOf(b) == p && (size <= Capacity(h', b) <==> size <= WRAP_LIMIT)
  {
    hide PageCnt;
    PageCntEnough(size);
    DivUnique(PGSIZE * p + ARENA_SIZE, PGSIZE, p);
  }

  /** The largest request gets a block that holds less than a page. */
  lemma LargestRequest(h: Heap, p: nat)
    ensures PageCnt(TWO32 - 1) == 1
    ensures Capacity(AddBig(h, p, 1, TWO32 - 1), PGSIZE * p + ARENA_SIZE) == PGSIZE - ARENA_SIZE < TWO32 - 1
  {
    hide PageCnt;
    PageCntEnough(TWO32 - 1);
    DivUnique(PGSIZE * p + ARENA_SIZE, PGSIZE, p);
  }

  /** malloc_init's loop: the block sizes are the powers of two from 16 below half a page. */
  method InitDescs() returns (sizes: seq<nat>)
    ensures sizes == SIZES && |sizes| <= 10
  {
    sizes := [];
    var blockSize := 16;
    while blockSize < PGSIZE / 2
      invariant |sizes| <= 7 && sizes == SIZES[..|sizes|]
      invariant blockSize == if |sizes| < 7 then SIZES[|sizes|] else PGSIZE / 2
      decreases 7 - |sizes|
    {
      sizes := sizes + [blockSize];
      blockSize := blockSize * 2;
    }
  }

  /** The search for the smallest descriptor that holds `size` bytes; 7 when none does. */
  method FindDesc(size: nat) returns (d: nat)
    ensures d <= 7 && (forall e: DescIdx :: e < d ==> BlockSize(e) < size)
    ensures d < 7 ==> size <= BlockSize(d)
  {
    d := 0;
    while d < 7 && BlockSize(d) < size
      invariant d <= 7 && (forall e: DescIdx :: e < d ==> BlockSize(e) < size)
    {
      d := d + 1;
    }
  }

  lemma LiveInUse(h: Heap, b: nat)
    requires HeapInv(h) && b in h.live
    ensures |h.free| == 7 && InUse(h, b)
  {
  }

  lemma LiveArena(h: Heap, b: nat)
    requires HeapInv(h) && b in h.live
    ensures PageOf(b) in h.arenas
  {
    assert InUse(h, b);
  }

  // ----- the heap against the pages owned

  lemma ApartFromArenas(arenas: map<nat, Arena>, owned: set<nat>, r: set<nat>)
    requires Held(arenas) <= owned && r !! owned
    ensures forall q :: q in arenas ==> PagesOf(q, arenas[q]) !! r
  {
    forall q | q in arenas ensures PagesOf(q, arenas[q]) <= Held(arenas) {
    }
  }

  lemma GrantBig(h: Heap, owned: set<nat>, p: nat, pages: nat, size: nat)
    requires HeapInv(h) && Held(h.arenas) <= owned && Range(p, pages) !! owned
    requires 1 <= pages && (size <= WRAP_LIMIT ==> size + ARENA_SIZE <= PGSIZE * pages)
    ensures var h', owned' := AddBig(h, p, pages, size), owned + Range(p, pages);
      && HeapInv(h') && Held(h'.arenas) <= owned' && owned' - Held(h'.arenas) == owned - Held(h.arenas)
    ensures PGSIZE * p + ARENA_SIZE !in h.live && p !in h.arenas
  {
    hide Held, BlocksOf, Range, Distinct, PagesOk, CountsOk;
    ApartFromArenas(h.arenas, owned, Range(p, pages));
    AddBigConsistent(h, p, pages, size);
    HeldAdd(h.arenas, p, Big(pages));
    assert PageOf(PGSIZE * p + ARENA_SIZE) == p;
    assert !InUse(h, PGSIZE * p + ARENA_SIZE);
  }

  lemma TakeHeld(h: Heap, d: DescIdx, size: nat)
    requires Consistent(h) && h.free[d] != [] && size <= BlockSize(d)
    ensures Held(Take(h, d, size).arenas) == Held(h.arenas)
  {
    hide Held, BlocksOf, Distinct, PagesOk, CountsOk, LiveOk, Range;
    TakeConsistent(h, d, size);
    var b := h.free[d][0];
    var a := h.arenas[PageOf(b)];
    HeldSame(h.arenas, PageOf(b), a.(freeCnt := (a.freeCnt - 1) as nat));
  }

  /** Handing out a block leaves its arena with one in use, so no arena is left empty even if
      the block's own arena was. */
  lemma TakeNoneEmpty(h: Heap, d: DescIdx, size: nat)
    requires Consistent(h) && h.free[d] != [] && size <= BlockSize(d)
    requires forall p :: p in h.arenas && h.arenas[p].Normal? && p != PageOf(h.free[d][0]) ==>
      h.arenas[p].freeCnt < BlocksPerArena(h.arenas[p].d)
    requires IsFree(h, h.free[d][0], d) &&
      h.arenas[PageOf(h.free[d][0])].freeCnt <= BlocksPerArena(h.arenas[PageOf(h.free[d][0])].d)
    ensures NoneEmpty(Take(h, d, size))
  {
    hide BlocksOf, Distinct, PagesOk, CountsOk, LiveOk, BlocksPerArena;
    TakeConsistent(h, d, size);
  }

  lemma TakeInv(h: Heap, d: DescIdx, size: nat)
    requires HeapInv(h) && h.free[d] != [] && size <= BlockSize(d)
    ensures var h' := Take(h, d, size); HeapInv(h') && Held(h'.arenas) == Held(h.arenas)
    ensures h.free[d][0] !in h.live
  {
    hide Held, BlocksOf, Distinct, PagesOk, CountsOk, LiveOk, BlocksPerArena;
    TakeConsistent(h, d, size);
    TakeHeld(h, d, size);
    TakeNoneEmpty(h, d, size);
  }

  /** A descriptor's list is refilled from a new page, and its front block handed out. */
  lemma GrantArena(h: Heap, owned: set<nat>, p: nat, d: DescIdx, size: nat)
    requires HeapInv(h) && Held(h.arenas) <= owned && p !in owned && h.free[d] == [] && size <= BlockSize(d)
    ensures Consistent(AddArena(h, p, d)) && AddArena(h, p, d).free[d] != []
    ensures var h', owned' := Take(AddArena(h, p, d), d, size), owned + {p};
      && HeapInv(h') && Held(h'.arenas) <= owned' && owned' - Held(h'.arenas) == owned - Held(h.arenas)
    ensures AddArena(h, p, d).free[d][0] !in h.live && p !in h.arenas
  {
    hide Held, BlocksOf, Distinct, PagesOk, CountsOk, LiveOk, Range, BlocksPerArena;
    ApartFromArenas(h.arenas, owned, {p});
    NewPage(h, p);
    AddArenaConsistent(h, p, d);
    var mid := AddArena(h, p, d);
    assert mid.free[d] == BlockSeq(p, d, BlocksPerArena(d));
    BlockInPage(p, d, 0);
    assert Range(p, 1) == {p};
    HeldAdd(h.arenas, p, Normal(d, BlocksPerArena(d)));
    TakeConsistent(mid, d, size);
    TakeHeld(mid, d, size);
    TakeNoneEmpty(mid, d, size);
  }

  /** Freeing a block whose arena stays in use. */
  lemma GiveInv(h: Heap, b: nat)
    requires HeapInv(h) && b in h.live && InUse(h, b) && h.arenas[PageOf(b)].Normal?
    ensures var h' := Give(h, b); Consistent(h') && Held(h'.arenas) == Held(h.arenas)
    ensures var a := h.arenas[PageOf(b)]; a.freeCnt + 1 < BlocksPerArena(a.d) ==> NoneEmpty(Give(h, b))
  {
    hide Held, Range, BlocksOf, Distinct, PagesOk, CountsOk, LiveOk, BlocksPerArena;
    GiveConsistent(h, b);
    var a := h.arenas[PageOf(b)];
    HeldSame(h.arenas, PageOf(b), a.(freeCnt := a.freeCnt + 1));
  }

  /** Freeing the last block of an arena: the arena goes, and its page with it. */
  lemma ReturnArena(h: Heap, b: nat)
    requires HeapInv(h) && b in h.live && InUse(h, b) && h.arenas[PageOf(b)].Normal?
    requires var a := h.arenas[PageOf(b)]; a.freeCnt + 1 >= BlocksPerArena(a.d)
    ensures ListsOk(Give(h, b)) && PageOf(b) in Held(h.arenas)
    ensures var h' := DropArena(Give(h, b), PageOf(b));
      HeapInv(h') && Held(h'.arenas) == Held(h.arenas) - {PageOf(b)}
  {
    hide Held, Range, BlocksOf, Distinct, PagesOk, CountsOk, LiveOk, BlocksPerArena;
    var p := PageOf(b);
    var mid := Give(h, b);
    GiveInv(h, b);
    DropArenaConsistent(mid, p);
    HeldDrop(mid, p);
    assert Range(p, 1) == {p} && p in Range(p, 1);
  }

  lemma ReturnBig(h: Heap, p: nat)
    requires HeapInv(h) && p in h.arenas && h.arenas[p].Big?
    ensures var h' := DropBig(h, p); HeapInv(h') && Held(h'.arenas) == Held(h.arenas) - PagesOf(p, h.arenas[p])
    ensures PagesOf(p, h.arenas[p]) <= Held(h.arenas) && 1 <= h.arenas[p].pages
  {
    hide Held, Range, PagesOf, BlocksOf, Distinct, CountsOk, LiveOk, BlocksPerArena;
    DropBigConsistent(h, p);
    HeldDrop(h, p);
  }

  /** Arenas may come, but none goes or changes its kind. */
  ghost predicate Keeps(a: map<nat, Arena>, b: map<nat, Arena>) {
    forall p :: p in a ==> p in b && Kind(b[p]) == Kind(a[p])
  }

  lemma KeepsSelf(a: map<nat, Arena>)
    ensures Keeps(a, a)
  {
  }

  function Kind(a: Arena): Arena { if a.Normal? then Normal(a.d, 0) else a }
}
