/** The page allocator (threads/palloc.c): two pools of pages, each with a bitmap at its base. */
module Palloc {
  import opened Bitmaps
  import opened Integers
  import opened Options

  const PGSIZE: nat := 4096
  const PHYS_BASE: nat := 0xC000_0000

  /** Where physical memory free for allocation starts: 1 MB. */
  const FREE_START: nat := PHYS_BASE + 0x10_0000

  function PgNo(va: nat): nat { va / PGSIZE }

  function PgOfs(va: nat): nat { va % PGSIZE }

  // ----- carving memory into pools

  /** bitmap_buf_size: a two-word header, then the words. */
  function BitmapBufSize(bitCnt: nat): nat { 8 + 4 * ElemCnt(bitCnt) }

  /** init_pool's layout of `pageCnt` pages: pages for the bitmap, then the pages managed;
      None where the kernel panics for want of room. */
  function PoolLayout(pageCnt: nat): Option<(nat, nat)> {
    var bmPages := (BitmapBufSize(pageCnt) + PGSIZE - 1) / PGSIZE;
    if bmPages > pageCnt then None else Some((bmPages, pageCnt - bmPages))
  }

  /** The bitmap fits in its pages, of which there are no more than needed, and bitmap and managed
      pages fill the pool exactly. There is no layout exactly when the bitmap alone is too large. */
  lemma LayoutFits(pageCnt: nat)
    ensures PoolLayout(pageCnt).None? <==> BitmapBufSize(pageCnt) > pageCnt * PGSIZE
    ensures PoolLayout(pageCnt).Some? ==> var (bmPages, cnt) := PoolLayout(pageCnt).value;
      && BitmapBufSize(cnt) <= bmPages * PGSIZE && (bmPages - 1) * PGSIZE < BitmapBufSize(pageCnt)
      && bmPages + cnt == pageCnt && bmPages >= 1
  {
    hide BitmapBufSize;
    SmallerBuf(pageCnt);
  }

  lemma SmallerBuf(pageCnt: nat)
    ensures 8 <= BitmapBufSize(pageCnt)
    ensures forall cnt: nat :: cnt <= pageCnt ==> BitmapBufSize(cnt) <= BitmapBufSize(pageCnt)
  {
  }

  // ----- one pool

  /** Ownership after the pages in `r` went to grant `g`. */
  ghost function Grant(owner: map<nat, nat>, r: set<nat>, g: nat): (after: map<nat, nat>)
    ensures after.Keys == owner.Keys + r
  {
    map i | i in owner.Keys + r :: if i in r then g else owner[i]
  }

  /** The used map has a bit set exactly for the pages somebody owns. */
  ghost predicate Tracks(owner: map<nat, nat>, grants: nat, s: seq<bool>) {
    && (forall i :: i in owner <==> 0 <= i < |s| && s[i])
    && (forall i :: i in owner ==> owner[i] < grants)
  }

  lemma TracksGrant(owner: map<nat, nat>, grants: nat, s: seq<bool>, idx: nat, cnt: nat)
    requires Tracks(owner, grants, s) && idx + cnt <= |s| && AllAre(s, idx, cnt, false)
    ensures Range(idx, cnt) !! owner.Keys
    ensures Tracks(Grant(owner, Range(idx, cnt), grants), grants + 1, Fill(s, idx, cnt, true))
  {
  }

  lemma TracksFree(owner: map<nat, nat>, grants: nat, s: seq<bool>, idx: nat, cnt: nat)
    requires Tracks(owner, grants, s) && Range(idx, cnt) <= owner.Keys
    ensures cnt > 0 ==> idx + cnt <= |s|
    ensures cnt > 0 ==> Tracks(owner - Range(idx, cnt), grants, Fill(s, idx, cnt, false))
  {
    if cnt > 0 { assert idx + cnt - 1 in Range(idx, cnt); }
  }

  lemma NoRunLeft(owner: map<nat, nat>, grants: nat, s: seq<bool>, cnt: nat, i: nat)
    requires Tracks(owner, grants, s) && i + cnt <= |s| && !AllAre(s, i, cnt, false)
    ensures !(Range(i, cnt) !! owner.Keys)
  {
    var j :| i <= j < i + cnt && s[j];
    assert j in Range(i, cnt) && j in owner;
  }

  class Pool {
    const usedMap: Bitmap
    const base: nat
    /** The pool's memory from `start` to `base` holds the bitmap. */
    ghost const start: nat
    /** Which grant each page in use belongs to. */
    ghost var owner: map<nat, nat>
    ghost var grants: nat

    ghost predicate Valid()
      reads this, usedMap.bits
    {
      && usedMap.Valid()
      && PgOfs(base) == 0 && PgOfs(start) == 0
      && start + BitmapBufSize(usedMap.bitCnt) <= base
      && Tracks(owner, grants, usedMap.View())
    }

    ghost function End(): nat { base + PGSIZE * usedMap.bitCnt }

    /** The address of page `idx`. */
    function AddressOf(idx: nat): nat { base + PGSIZE * idx }

    /** init_pool, for a layout that does not panic. */
    constructor (start: nat, pageCnt: nat)
      requires PgOfs(start) == 0 && PoolLayout(pageCnt).Some?
      ensures Valid() && fresh(usedMap) && fresh(usedMap.bits) && owner == map[]
      ensures this.start == start && End() == start + PGSIZE * pageCnt
    {
      LayoutFits(pageCnt);
      var (bmPages, cnt) := PoolLayout(pageCnt).value;
      var b := new Bitmap(cnt);
      usedMap := b;
      base := start + bmPages * PGSIZE;
      this.start := start;
      owner, grants := map[], 0;
    }

    /** palloc_get_multiple on this pool: the pages handed out belonged to nobody and now belong
        to one new grant; it fails only when every run of that length has a page in use. */
    method GetMultiple(pageCnt: nat) returns (pages: Option<nat>, ghost idx: nat)
      requires Valid()
      modifies this, usedMap.bits
      ensures Valid() && (pageCnt == 0 ==> pages.None?)
      ensures pages.None? ==> owner == old(owner) && grants == old(grants)
      ensures pages.None? && pageCnt > 0 ==>
        forall i: nat :: i + pageCnt <= usedMap.bitCnt ==> !(Range(i, pageCnt) !! owner.Keys)
      ensures pages.Some? ==>
        && pages.value == AddressOf(idx) && idx + pageCnt <= usedMap.bitCnt
        && Range(idx, pageCnt) !! old(owner).Keys && grants == old(grants) + 1
        && owner == Grant(old(owner), Range(idx, pageCnt), old(grants))
    {
      hide Tracks, AllAre, Fill, Range, Grant, Bitmap.View;
      idx := 0;
      if pageCnt == 0 {
        return None, 0;
      }
      ghost var s := usedMap.View();
      var r := usedMap.ScanAndFlip(0, pageCnt, false);
      if r.Error? {
        forall i: nat | i + pageCnt <= usedMap.bitCnt ensures !(Range(i, pageCnt) !! owner.Keys) {
          assert !AllAre(s, i, pageCnt, false);
          NoRunLeft(owner, grants, s, pageCnt, i);
        }
        return None, 0;
      }
      idx := r.idx;
      TracksGrant(owner, grants, s, idx, pageCnt);
      owner := Grant(owner, Range(idx, pageCnt), grants);
      grants := grants + 1;
      pages := Some(AddressOf(r.idx));
    }

    /** page_from_pool. */
    predicate Holds(page: nat) {
      PgNo(base) <= PgNo(page) < PgNo(base) + usedMap.bitCnt
    }

    /** palloc_free_multiple on this pool: the pages, all in use, become free; no others change. */
    method FreeMultiple(pages: nat, pageCnt: nat, ghost idx: nat)
      requires Valid() && pages == AddressOf(idx) && Holds(pages)
      requires Range(idx, pageCnt) <= owner.Keys
      modifies this, usedMap.bits
      ensures Valid() && grants == old(grants) && owner == old(owner) - Range(idx, pageCnt)
    {
      hide Tracks, Fill, Range;
      if pageCnt == 0 {
        assert Range(idx, pageCnt) == {};
        return;
      }
      var pageIdx := PgNo(pages) - PgNo(base);
      assert pageIdx == idx;
      TracksFree(owner, grants, usedMap.View(), idx, pageCnt);
      usedMap.SetMultiple(pageIdx, pageCnt, false);
      owner := owner - Range(idx, pageCnt);
    }
  }

  // ----- both pools

  lemma PageAligned(n: nat)
    ensures PgOfs(FREE_START + n * PGSIZE) == 0
  {
  }

  class PageAllocator {
    const kernelPool: Pool
    const userPool: Pool

    ghost function Repr(): set<object> {
      {kernelPool, kernelPool.usedMap.bits, userPool, userPool.usedMap.bits}
    }

    /** The pools are separate objects, and the kernel pool's memory ends where the user pool's
        bitmap begins. */
    ghost predicate Valid()
      reads Repr()
    {
      && kernelPool.Valid() && userPool.Valid()
      && kernelPool != userPool && kernelPool.usedMap.bits != userPool.usedMap.bits
      && kernelPool.start == FREE_START && kernelPool.End() == userPool.start
    }

    /** palloc_init, for memory large enough that neither pool panics. */
    constructor (ramPages: nat, userPageLimit: nat)
      requires 0x100 <= ramPages
      requires var freePages := ramPages - 0x100;
        var userPages := if freePages / 2 > userPageLimit then userPageLimit else freePages / 2;
        PoolLayout(freePages - userPages).Some? && PoolLayout(userPages).Some?
      ensures Valid() && kernelPool.owner == map[] && userPool.owner == map[]
      ensures userPool.End() == PHYS_BASE + ramPages * PGSIZE
    {
      hide PoolLayout, Tracks, BitmapBufSize, PgOfs, Bitmap.View;
      var freePages := ramPages - 0x100;
      var userPages := freePages / 2;
      if userPages > userPageLimit {
        userPages := userPageLimit;
      }
      var kernelPages := freePages - userPages;
      PageAligned(0);
      PageAligned(kernelPages);
      var k := new Pool(FREE_START, kernelPages);
      var u := new Pool(FREE_START + kernelPages * PGSIZE, userPages);
      kernelPool, userPool := k, u;
    }

    ghost function PoolOf(user: bool): Pool {
      if user then userPool else kernelPool
    }

    /** palloc_get_multiple: the pages handed out share no page with any earlier grant of their
        pool, and the other pool is untouched. */
    method GetMultiple(user: bool, pageCnt: nat) returns (pages: Option<nat>, ghost idx: nat)
      requires Valid()
      modifies Repr()
      ensures Valid() && (pageCnt == 0 ==> pages.None?)
      ensures PoolOf(!user).owner == old(PoolOf(!user).owner)
      ensures pages.None? ==> PoolOf(user).owner == old(PoolOf(user).owner)
      ensures pages.None? && pageCnt > 0 ==> forall i: nat :: i + pageCnt <= PoolOf(user).usedMap.bitCnt ==>
        !(Range(i, pageCnt) !! PoolOf(user).owner.Keys)
      ensures pages.Some? ==>
        && pages.value == PoolOf(user).AddressOf(idx) && idx + pageCnt <= PoolOf(user).usedMap.bitCnt
        && Range(idx, pageCnt) !! old(PoolOf(user).owner).Keys
        && PoolOf(user).owner.Keys == old(PoolOf(user).owner).Keys + Range(idx, pageCnt)
    {
      hide Tracks, Grant, Range;
      var pool := if user then userPool else kernelPool;
      pages, idx := pool.GetMultiple(pageCnt);
    }

    /** Pages of a pool lie in its own memory, clear of both bitmaps and of the other pool. */
    lemma Placement(user: bool, idx: nat, pageCnt: nat)
      requires Valid() && idx + pageCnt <= PoolOf(user).usedMap.bitCnt
      ensures var pool := PoolOf(user); var other := PoolOf(!user); var pages := pool.AddressOf(idx);
        && pool.start + BitmapBufSize(pool.usedMap.bitCnt) <= pages
        && pages + PGSIZE * pageCnt <= pool.End()
        && (pages + PGSIZE * pageCnt <= other.start || other.End() <= pages)
    {
    }

    /** No page belongs to both pools, so the test in palloc_free_multiple finds the right one. */
    lemma OnePool(page: nat)
      requires Valid()
      ensures !(kernelPool.Holds(page) && userPool.Holds(page))
    {
    }

    /** palloc_free_multiple. */
    method FreeMultiple(pages: nat, pageCnt: nat, ghost user: bool, ghost idx: nat)
      requires Valid() && pages == PoolOf(user).AddressOf(idx) && PoolOf(user).Holds(pages)
      requires Range(idx, pageCnt) <= PoolOf(user).owner.Keys
      modifies Repr()
      ensures Valid() && PoolOf(user).owner == old(PoolOf(user).owner) - Range(idx, pageCnt)
      ensures PoolOf(!user).owner == old(PoolOf(!user).owner)
    {
      OnePool(pages);
      if kernelPool.Holds(pages) {
        kernelPool.FreeMultiple(pages, pageCnt, idx);
      } else {
        userPool.FreeMultiple(pages, pageCnt, idx);
      }
    }
  }
}
