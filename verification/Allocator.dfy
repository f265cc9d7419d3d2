/** The code of threads/malloc.c over a pool of pages. */
module Allocators {
  import opened Integers
  import opened Malloc
  import opened MallocRuns
  import opened Options
  import opened Palloc
  import opened Sequences
  import opened Words

  /** No smaller kind of arena would do. */
  predicate Tight(size: nat, a: Arena) {
    if a.Normal? then a.d == 0 || BlockSize(a.d - 1) < size else size > 1024
  }

  /** The `n` bytes from `b` lie after the header of an arena, inside its pages and apart from
      every live block but `b`. */
  ghost predicate Alone(h: Heap, b: nat, n: nat) {
    && PageOf(b) in h.arenas && PGSIZE * PageOf(b) + ARENA_SIZE <= b
    && b + n <= PGSIZE * (PageOf(b) + Extent(h.arenas[PageOf(b)]))
    && forall c: nat :: c in h.live && c != b ==> b + n <= c || c + Capacity(h, c) <= b
  }

  /** The pages of an arena. */
  function Extent(a: Arena): nat {
    if a.Normal? then 1 else a.pages
  }

  lemma AloneRoom(h: Heap, b: nat)
    requires HeapInv(h) && b in h.live
    ensures Alone(h, b, Room(h.arenas, b))
  {
    hide ListsOk, CountsOk, LiveOk, PagesOk, Room, PageOf;
    LiveExtent(h, b);
    forall c: nat | c in h.live && c != b ensures b + Capacity(h, b) <= c || c + Capacity(h, c) <= b {
      LiveApart(h, b, c);
    }
  }

  class Allocator {
    const pool: Pool
    var arenas: map<nat, Arena>
    var free: seq<seq<nat>>
    ghost var live: map<nat, nat>

    ghost function View(): Heap
      reads this
    {
      Heap(arenas, free, live)
    }

    ghost function Mem(): Memory
      reads this, pool
    {
      Memory(View(), pool.owner.Keys)
    }

    /** Every page of an arena was granted by the page allocator. */
    ghost predicate Valid()
      reads this, pool, pool.usedMap.bits
    {
      pool.Valid() && Good(Mem())
    }

    /** The pages in use that no arena holds. */
    ghost function Elsewhere(): set<nat>
      reads this, pool
    {
      pool.owner.Keys - Held(arenas)
    }

    constructor (pool: Pool)
      requires pool.Valid()
      ensures Valid() && this.pool == pool && View() == EMPTY
    {
      this.pool := pool;
      arenas, free, live := map[], [[], [], [], [], [], [], []], map[];
      EmptyInv();
    }

    // ----- the steps

    /** palloc_get_multiple from the kernel pool, as a page number. */
    method GetPages(n: nat) returns (page: Option<nat>)
      requires pool.Valid()
      modifies pool, pool.usedMap.bits
      ensures pool.Valid()
      ensures page.None? ==> pool.owner.Keys == old(pool.owner.Keys) && (n > 0 ==> Exhausted(n))
      ensures page.Some? ==> n > 0 && Range(page.value, n) !! old(pool.owner.Keys)
      ensures page.Some? ==> pool.owner.Keys == old(pool.owner.Keys) + Range(page.value, n)
    {
      hide pool.Valid, Range, Grant;
      var pages, idx := pool.GetMultiple(n);
      if pages.None? {
        return None;
      }
      page := Some((pages.value - pool.base) / PGSIZE);
      assert page.value == idx;
    }

    /** No run of `n` pages is free in the pool. */
    ghost predicate Exhausted(n: nat)
      reads pool
    {
      forall i: nat :: i + n <= pool.usedMap.bitCnt ==> !(Range(i, n) !! pool.owner.Keys)
    }

    /** palloc_free_multiple on an arena's pages. */
    method ReturnPages(p: nat, n: nat)
      requires pool.Valid() && 1 <= n && Range(p, n) <= pool.owner.Keys
      modifies pool, pool.usedMap.bits
      ensures pool.Valid() && pool.owner.Keys == old(pool.owner.Keys) - Range(p, n)
    {
      hide Range;
      PageHeld(p, n);
      pool.FreeMultiple(pool.AddressOf(p), n, p);
    }

    /** An owned page is one of the pool's. */
    lemma PageHeld(p: nat, n: nat)
      requires pool.Valid() && 1 <= n && Range(p, n) <= pool.owner.Keys
      ensures pool.Holds(pool.AddressOf(p))
    {
      assert p in Range(p, n);
      assert p in pool.owner;
    }

    /** A new arena's header, and the loop that pushes its blocks. */
    method PushBlocks(p: nat, d: DescIdx)
      requires |free| == 7
      modifies this`free, this`arenas
      ensures View() == AddArena(old(View()), p, d)
    {
      arenas := arenas[p := Normal(d, BlocksPerArena(d))];
      ghost var before := free[d];
      assert before + BlockSeq(p, d, 0) == before;
      for i := 0 to BlocksPerArena(d)
        invariant arenas == old(arenas)[p := Normal(d, BlocksPerArena(d))]
        invariant free == old(free)[d := before + BlockSeq(p, d, i)]
      {
        assert before + BlockSeq(p, d, i + 1) == (before + BlockSeq(p, d, i)) + [BlockAt(p, d, i)];
        free := free[d := free[d] + [BlockAt(p, d, i)]];
      }
    }

    /** The loop of free that takes the blocks of an unused arena off the list. */
    method RemoveBlocks(p: nat, d: DescIdx)
      requires |free| == 7
      modifies this`free
      ensures free == old(free)[d := Removed(old(free)[d], p, d, BlocksPerArena(d))]
    {
      ghost var before := free[d];
      for i := 0 to BlocksPerArena(d)
        invariant free == old(free)[d := Removed(before, p, d, i)]
      {
        free := free[d := Without(free[d], BlockAt(p, d, i))];
      }
    }

    /** The header of a multi-page arena. */
    method InitBig(p: nat, pages: nat, ghost size: nat)
      modifies this
      ensures View() == AddBig(old(View()), p, pages, size)
    {
      arenas := arenas[p := Big(pages)];
      live := live[PGSIZE * p + ARENA_SIZE := size];
    }

    method DropHeader(p: nat)
      modifies this
      ensures View() == DropBig(old(View()), p)
    {
      arenas := arenas - {p};
      live := live - {PGSIZE * p + ARENA_SIZE};
    }

    /** Pops the front of a free list: the end of malloc's small path. */
    method TakeBlock(d: DescIdx, ghost size: nat) returns (b: nat)
      requires ListsOk(View()) && free[d] != []
      modifies this
      ensures View() == Take(old(View()), d, size) && b == old(free)[d][0]
    {
      b := free[d][0];
      assert IsFree(View(), b, d);
      free := free[d := free[d][1..]];
      var a := arenas[PageOf(b)];
      arenas := arenas[PageOf(b) := a.(freeCnt := if a.freeCnt == 0 then 0 else a.freeCnt - 1)];
      live := live[b := size];
    }

    /** Pushes a freed block on its list. */
    method PushFreed(b: nat)
      requires ListsOk(View()) && PageOf(b) in arenas && arenas[PageOf(b)].Normal?
      modifies this
      ensures View() == Give(old(View()), b)
    {
      var a := arenas[PageOf(b)];
      free := free[a.d := [b] + free[a.d]];
      arenas := arenas[PageOf(b) := a.(freeCnt := a.freeCnt + 1)];
      live := live - {b};
    }

    // ----- the branches of malloc and free

    /** malloc for a request no descriptor serves. */
    method MallocBig(size: u32) returns (r: Option<nat>, ghost c: Call)
      requires Valid()
      modifies this, pool, pool.usedMap.bits
      ensures Valid()
      ensures r.None? ==> Mem() == old(Mem()) && (PageCnt(size) > 0 ==> Exhausted(PageCnt(size)))
      ensures r.Some? ==>
        && c.TakeBig? && c.pages == PageCnt(size) > 0 && c.size == size && Allowed(old(Mem()), c)
        && Mem() == Apply(old(Mem()), c) && r.value == pool.base + Result(old(Mem()), c)
    {
      hide Good, pool.Valid, Range, Exhausted, PageCnt, AddBig;
      c := GiveBlock(0);
      var page := GetPages(PageCnt(size));
      if page.None? {
        return None, c;
      }
      ghost var before := old(Mem());
      PageCntEnough(size);
      c := TakeBig(page.value, PageCnt(size), size);
      ApplyGood(before, c);
      InitBig(page.value, PageCnt(size), size);
      r := Some(pool.base + (PGSIZE * page.value + ARENA_SIZE));
    }

    /** malloc from a nonempty free list. */
    method MallocOld(d: DescIdx, ghost size: nat) returns (b: nat, ghost c: Call)
      requires Valid() && size <= BlockSize(d) && Good(Mem()) && free[d] != []
      modifies this
      ensures Valid() && c == TakeOld(d, size) && Allowed(old(Mem()), c)
      ensures Mem() == Apply(old(Mem()), c) && b == Result(old(Mem()), c)
    {
      hide Held, pool.Valid, Take, CountsOk, LiveOk, PagesOk, BlocksOf, Distinct;
      c := TakeOld(d, size);
      ApplyGood(Mem(), c);
      b := TakeBlock(d, size);
    }

    /** malloc from a new arena. */
    method MallocFresh(d: DescIdx, ghost size: nat) returns (r: Option<nat>, ghost c: Call)
      requires Valid() && size <= BlockSize(d) && Good(Mem()) && free[d] == []
      modifies this, pool, pool.usedMap.bits
      ensures Valid() && (r.None? ==> Mem() == old(Mem()) && Exhausted(1))
      ensures r.Some? ==>
        && c.TakeFresh? && c.d == d && c.size == size && Allowed(old(Mem()), c)
        && Mem() == Apply(old(Mem()), c) && r.value == Result(old(Mem()), c)
    {
      hide Held, pool.Valid, Range, Take, AddArena, CountsOk, LiveOk, PagesOk, BlocksOf, Distinct, Exhausted;
      c := GiveBlock(0);
      var page := GetPages(1);
      if page.None? {
        return None, c;
      }
      var p := page.value;
      ghost var before := old(Mem());
      assert Range(p, 1) == {p} && p in Range(p, 1);
      c := TakeFresh(p, d, size);
      ApplyGood(before, c);
      GrantArena(before.h, before.owned, p, d, size);
      PushBlocks(p, d);
      var b := TakeBlock(d, size);
      r := Some(b);
    }

    /** malloc from descriptor `d`. */
    method MallocSmall(d: DescIdx, ghost size: nat) returns (r: Option<nat>, ghost c: Call)
      requires Valid() && size <= BlockSize(d)
      modifies this, pool, pool.usedMap.bits
      ensures Valid() && (r.None? ==> Mem() == old(Mem()) && Exhausted(1))
      ensures r.Some? ==>
        && (c.TakeFresh? || c.TakeOld?) && c.d == d && c.size == size && Allowed(old(Mem()), c)
        && Mem() == Apply(old(Mem()), c) && r.value == pool.base + Result(old(Mem()), c)
    {
      hide Held, pool.Valid, CountsOk, LiveOk, PagesOk, BlocksOf, Distinct, Exhausted, Apply, Result, Allowed;
      if free[d] == [] {
        var b;
        b, c := MallocFresh(d, size);
        r := if b.Some? then Some(pool.base + b.value) else None;
      } else {
        var b;
        b, c := MallocOld(d, size);
        r := Some(pool.base + b);
      }
    }

    /** malloc: a block live from now on, at least as large as asked for exactly when the request
        does not wrap; null only for 0 bytes, for a page count that wrapped to 0 or for want of
        pages. Pages outside the arenas are untouched. `c` is what the call did to memory. */
    method Malloc(size: u32) returns (r: Option<nat>, ghost c: Call)
      requires Valid()
      modifies this, pool, pool.usedMap.bits
      ensures Valid() && Elsewhere() == old(Elsewhere())
      ensures Keeps(old(arenas), arenas) && (r.None? ==> Mem() == old(Mem()))
      ensures r.None? && size > 0 && (size <= 1024 || PageCnt(size) > 0) ==>
        Exhausted(if size <= 1024 then 1 else PageCnt(size))
      ensures r.Some? ==>
        && size > 0 && r.value >= pool.base && var b := r.value - pool.base;
        && b !in old(live) && live == old(live)[b := size] && PageOf(b) in arenas
        && (size <= Room(arenas, b) <==> size <= WRAP_LIMIT) && Tight(size, arenas[PageOf(b)])
      ensures r.Some? ==>
        Takes(c) && c.size == size && Allowed(old(Mem()), c) && Mem() == Apply(old(Mem()), c)
    {
      hide Good, pool.Valid, Range, Held, Exhausted, PageCnt, Keeps, Apply, Allowed, Result;
      KeepsSelf(arenas);
      c := GiveBlock(0);
      if size == 0 {
        return None, c;
      }
      var d := FindDesc(size);
      if d == 7 {
        assert BlockSize(6) < size;
        r, c := MallocBig(size);
      } else {
        r, c := MallocSmall(d, size);
      }
      if r.Some? {
        TakeEffect(old(Mem()), c);
        ApplyGood(old(Mem()), c);
        RoomFits(size, c, Mem().h.arenas[PageOf(r.value - pool.base)]);
      }
    }

    /** free: null is allowed; otherwise the block must be live, and after it is not. An arena
        whose last block in use this was returns its page. */
    method Free(ptr: Option<nat>) returns (ghost c: Call)
      requires Valid() && (ptr.Some? ==> ptr.value >= pool.base && ptr.value - pool.base in live)
      modifies this, pool, pool.usedMap.bits
      ensures Valid() && Elsewhere() == old(Elsewhere()) && (ptr.None? ==> Mem() == old(Mem()))
      ensures live == if ptr.None? then old(live) else old(live) - {ptr.value - pool.base}
      ensures forall b :: b in live ==> PageOf(b) in arenas && Room(arenas, b) == Room(old(arenas), b)
      ensures ptr.Some? ==> !Takes(c) && Allowed(old(Mem()), c) && Mem() == Apply(old(Mem()), c)
    {
      hide HeapInv, pool.Valid, Held, BlocksOf, Allowed, Apply;
      c := TakeOld(0, 0);
      if ptr.None? {
        LiveArenas();
        return c;
      }
      var b := ptr.value - pool.base;
      LiveInUse(View(), b);
      if arenas[PageOf(b)].Normal? {
        c := FreeSmall(b);
      } else {
        c := FreeBig(b);
      }
      GiveEffect(old(Mem()), c);
      GiveKeepsRoom(old(Mem()), c);
      ApplyGood(old(Mem()), c);
    }

    lemma LiveArenas()
      requires Valid()
      ensures forall b :: b in live ==> PageOf(b) in arenas
    {
      forall b | b in live ensures PageOf(b) in arenas { LiveArena(View(), b); }
    }

    method FreeSmall(b: nat) returns (ghost c: Call)
      requires Valid() && InArena(View(), b)
      modifies this, pool, pool.usedMap.bits
      ensures Valid() && (c == GiveBlock(b) || c == GiveLast(b)) && Allowed(old(Mem()), c)
      ensures Mem() == Apply(old(Mem()), c)
    {
      hide pool.Valid, Held, CountsOk, LiveOk, PagesOk, BlocksOf, Distinct, BlocksPerArena;
      var a := arenas[PageOf(b)];
      if a.freeCnt + 1 >= BlocksPerArena(a.d) {
        c := FreeLast(b);
      } else {
        c := GiveBlock(b);
        ApplyGood(Mem(), c);
        PushFreed(b);
      }
    }

    /** free of the last block in use of an arena. */
    method FreeLast(b: nat) returns (ghost c: Call)
      requires Valid() && InArena(View(), b) && Last(View(), b)
      modifies this, pool, pool.usedMap.bits
      ensures Valid() && c == GiveLast(b) && Allowed(old(Mem()), c) && Mem() == Apply(old(Mem()), c)
    {
      hide pool.Valid, Held, Range, CountsOk, LiveOk, PagesOk, BlocksOf, Distinct, BlocksPerArena, Removed;
      var p := PageOf(b);
      var d := arenas[p].d;
      c := GiveLast(b);
      ApplyGood(Mem(), c);
      ReturnArena(View(), b);
      PushFreed(b);
      RemoveBlocks(p, d);
      arenas := arenas - {p};
      assert Range(p, 1) == {p};
      ReturnPages(p, 1);
    }

    method FreeBig(b: nat) returns (ghost c: Call)
      requires Valid() && b in live && |free| == 7 && InUse(View(), b) && arenas[PageOf(b)].Big?
      modifies this, pool, pool.usedMap.bits
      ensures Valid() && c == GiveBig(PageOf(b)) && Allowed(old(Mem()), c)
      ensures Mem() == Apply(old(Mem()), c) && Given(c) == b
    {
      hide HeapInv, pool.Valid, Range, Held, DropBig;
      var p := PageOf(b);
      var n := arenas[p].pages;
      c := GiveBig(p);
      ApplyGood(Mem(), c);
      ReturnBig(View(), p);
      DropHeader(p);
      ReturnPages(p, n);
    }

    // ----- realloc

    /** block_size: the bytes of a live block lie after its arena's header, inside its pages and
        apart from every other live block. */
    method BlockCapacity(ptr: nat) returns (n: nat)
      requires Valid() && ptr >= pool.base && ptr - pool.base in live
      ensures n == Room(arenas, ptr - pool.base) && Alone(View(), ptr - pool.base, n)
    {
      hide pool.Valid, Held, ListsOk, CountsOk, LiveOk, PagesOk, BlocksOf, Alone;
      ghost var b := ptr - pool.base;
      LiveExtent(View(), b);
      n := match arenas[PageOf(ptr - pool.base)]
        case Normal(d, _) => BlockSize(d)
        case Big(pages) => PGSIZE * pages - ARENA_SIZE;
      AloneRoom(View(), b);
    }

    ghost function Block(ptr: Option<nat>): set<nat> {
      if ptr.Some? && ptr.value >= pool.base then {ptr.value - pool.base} else {}
    }

    /** realloc, but for the bytes copied: on failure the old block stays as it is; on success the
        new one takes its place, and what is copied lies inside both. `calls` is what it did. */
    method Realloc(oldBlock: Option<nat>, newSize: u32) returns (r: Option<nat>, copied: nat, ghost calls: seq<Call>)
      requires Valid() && (oldBlock.Some? ==> oldBlock.value >= pool.base && oldBlock.value - pool.base in live)
      modifies this, pool, pool.usedMap.bits
      ensures Valid() && Elsewhere() == old(Elsewhere())
      ensures newSize == 0 ==> r.None? && live == old(live) - Block(oldBlock)
      ensures newSize > 0 && r.None? ==> Mem() == old(Mem())
      ensures r.None? && newSize > 0 && (newSize <= 1024 || PageCnt(newSize) > 0) ==>
        Exhausted(if newSize <= 1024 then 1 else PageCnt(newSize))
      ensures r.Some? ==>
        && r.value >= pool.base && var b := r.value - pool.base;
        && b !in old(live) && live == old(live)[b := newSize] - Block(oldBlock)
        && PageOf(b) in arenas && (newSize <= Room(arenas, b) <==> newSize <= WRAP_LIMIT)
      ensures r.Some? && oldBlock.Some? ==>
        var oldSize := Room(old(arenas), oldBlock.value - pool.base);
        copied == if newSize < oldSize then newSize else oldSize
      ensures Runs(old(Mem()), calls) && Mem() == After(old(Mem()), calls)
    {
      hide Good, pool.Valid, Held, Exhausted, PageCnt, InUse, Allowed, Apply, Runs, After;
      copied, calls, r := 0, [], None;
      ghost var before := old(Mem());
      RunNone(before);
      if newSize == 0 {
        ghost var c := Free(oldBlock);
        if oldBlock.Some? {
          calls := [c];
          RunOne(before, c);
        }
        return None, copied, calls;
      }
      if oldBlock.Some? { GoodLive(before, oldBlock.value - pool.base); }
      ghost var taken;
      r, taken := Malloc(newSize);
      if r.Some? {
        calls := [taken];
        RunOne(before, taken);
        if oldBlock.Some? {
          var oldSize := BlockCapacity(oldBlock.value);
          copied := if newSize < oldSize then newSize else oldSize;
          ghost var given := Free(oldBlock);
          calls := [taken, given];
          RunTwo(before, taken, given);
        }
      }
    }

    /** Once every block is freed, every page is back with the page allocator. */
    lemma AllReturned()
      requires Valid() && live == map[]
      ensures pool.owner.Keys == Elsewhere()
    {
      NothingLive(View());
    }
  }

  /** A block of the arena a call picks is as large as asked for exactly up to the limit. */
  lemma RoomFits(size: u32, c: Call, a: Arena)
    requires size > 0 && Takes(c) && c.size == size
    requires c.TakeBig? ==> c.pages == PageCnt(size) > 0 && Kind(a) == Big(c.pages)
    requires !c.TakeBig? ==> size <= BlockSize(c.d) && Kind(a) == Normal(c.d, 0)
    ensures var room := match a
        case Normal(d, _) => BlockSize(d)
        case Big(n) => if PGSIZE * n < ARENA_SIZE then 0 else PGSIZE * n - ARENA_SIZE;
      size <= room <==> size <= WRAP_LIMIT
  {
    hide PageCnt;
    PageCntEnough(size);
  }
}
