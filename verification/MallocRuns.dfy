/** The block allocator's guarantees over every sequence of calls. */
module MallocRuns {
  import opened Integers
  import opened Malloc
  import Palloc
  import Sequences

  /** The heap, and the pages the page allocator has granted to anyone. */
  datatype Memory = Memory(h: Heap, owned: set<nat>)

  /** What a call of malloc or free comes to. */
  datatype Call =
    | TakeBig(p: nat, pages: nat, size: nat)        // a multi-page arena
    | TakeFresh(p: nat, d: DescIdx, size: nat)      // the first block of a new arena
    | TakeOld(d: DescIdx, size: nat)                // the front of a free list
    | GiveBlock(b: nat)                             // free, with other blocks of the arena in use
    | GiveLast(b: nat)                              // free of the arena's last block in use
    | GiveBig(p: nat)                               // free of a multi-page arena

  ghost predicate Good(m: Memory) { HeapInv(m.h) && Held(m.h.arenas) <= m.owned }

  ghost predicate InArena(h: Heap, b: nat) {
    |h.free| == 7 && b in h.live && InUse(h, b) && h.arenas[PageOf(b)].Normal?
  }

  /** Whether freeing `b` leaves its arena unused. */
  ghost predicate Last(h: Heap, b: nat)
    requires InArena(h, b)
  {
    var a := h.arenas[PageOf(b)];
    a.freeCnt + 1 >= BlocksPerArena(a.d)
  }

  ghost predicate Allowed(m: Memory, c: Call)
    requires Good(m)
  {
    match c
    case TakeBig(p, pages, size) =>
      1 <= pages && Range(p, pages) !! m.owned && (size <= WRAP_LIMIT ==> size + ARENA_SIZE <= Palloc.PGSIZE * pages)
    case TakeFresh(p, d, size) => p !in m.owned && m.h.free[d] == [] && size <= BlockSize(d)
    case TakeOld(d, size) => m.h.free[d] != [] && size <= BlockSize(d)
    case GiveBlock(b) => InArena(m.h, b) && !Last(m.h, b)
    case GiveLast(b) => InArena(m.h, b) && Last(m.h, b)
    case GiveBig(p) => p in m.h.arenas && m.h.arenas[p].Big?
  }

  ghost function Apply(m: Memory, c: Call): Memory
    requires Good(m) && Allowed(m, c)
  {
    match c
    case TakeBig(p, pages, size) => Memory(AddBig(m.h, p, pages, size), m.owned + Range(p, pages))
    case TakeFresh(p, d, size) =>
      GrantArena(m.h, m.owned, p, d, size);
      Memory(Take(AddArena(m.h, p, d), d, size), m.owned + {p})
    case TakeOld(d, size) => Memory(Take(m.h, d, size), m.owned)
    case GiveBlock(b) => Memory(Give(m.h, b), m.owned)
    case GiveLast(b) => Memory(DropArena(Give(m.h, b), PageOf(b)), m.owned - {PageOf(b)})
    case GiveBig(p) => Memory(DropBig(m.h, p), m.owned - PagesOf(p, m.h.arenas[p]))
  }

  /** Pages a call takes from the page allocator, and pages it returns. */
  function Taken(c: Call): nat {
    match c
    case TakeBig(_, pages, _) => pages
    case TakeFresh(_, _, _) => 1
    case _ => 0
  }

  function Returned(m: Memory, c: Call): nat {
    match c
    case GiveLast(_) => 1
    case GiveBig(p) => if p in m.h.arenas && m.h.arenas[p].Big? then m.h.arenas[p].pages else 0
    case _ => 0
  }

  /** The block a call hands out. */
  ghost function Result(m: Memory, c: Call): nat
    requires Good(m) && Allowed(m, c) && Takes(c)
  {
    if c.TakeBig? then Palloc.PGSIZE * c.p + ARENA_SIZE
    else if c.TakeFresh? then
      GrantArena(m.h, m.owned, c.p, c.d, c.size);
      AddArena(m.h, c.p, c.d).free[c.d][0]
    else m.h.free[c.d][0]
  }

  predicate Takes(c: Call) { c.TakeBig? || c.TakeFresh? || c.TakeOld? }

  /** The block a call takes back. */
  function Given(c: Call): nat
    requires !Takes(c)
  {
    if c.GiveBig? then Palloc.PGSIZE * c.p + ARENA_SIZE else c.b
  }

  /** A block handed out was not live and is now, in an arena of its own kind; the other live
      blocks stay, and so do the arenas. */
  lemma TakeEffect(m: Memory, c: Call)
    requires Good(m) && Allowed(m, c) && Takes(c)
    ensures var m', b := Apply(m, c), Result(m, c);
      && b !in m.h.live && m'.h.live == m.h.live[b := c.size] && PageOf(b) in m'.h.arenas
      && Keeps(m.h.arenas, m'.h.arenas)
      && Kind(m'.h.arenas[PageOf(b)]) == if c.TakeBig? then Big(c.pages) else Normal(c.d, 0)
  {
    hide Held, Range;
    match c
    case TakeBig(p, pages, size) => TakeBigEffect(m, c);
    case TakeFresh(p, d, size) => TakeFreshEffect(m, c);
    case TakeOld(d, size) => TakeOldEffect(m.h, d, size);
  }

  lemma TakeBigEffect(m: Memory, c: Call)
    requires Good(m) && Allowed(m, c) && c.TakeBig?
    ensures var m', b := Apply(m, c), Result(m, c);
      && b !in m.h.live && m'.h.live == m.h.live[b := c.size] && PageOf(b) in m'.h.arenas
      && Keeps(m.h.arenas, m'.h.arenas) && Kind(m'.h.arenas[PageOf(b)]) == Big(c.pages)
  {
    hide HeapInv, Held, Range;
    GrantBig(m.h, m.owned, c.p, c.pages, c.size);
    DivUnique(Palloc.PGSIZE * c.p + ARENA_SIZE, Palloc.PGSIZE, c.p);
  }

  lemma TakeOldEffect(h: Heap, d: DescIdx, size: nat)
    requires Consistent(h) && h.free[d] != [] && size <= BlockSize(d)
    ensures var h', b := Take(h, d, size), h.free[d][0];
      && b !in h.live && h'.live == h.live[b := size] && PageOf(b) in h'.arenas
      && Keeps(h.arenas, h'.arenas) && Kind(h'.arenas[PageOf(b)]) == Normal(d, 0)
  {
    hide CountsOk, LiveOk, PagesOk, BlocksOf, Sequences.Distinct;
    TakeConsistent(h, d, size);
    assert BlockOf(h, h.free[d][0], d);
  }

  lemma TakeFreshEffect(m: Memory, c: Call)
    requires Good(m) && Allowed(m, c) && c.TakeFresh?
    ensures var m', b := Apply(m, c), Result(m, c);
      && b !in m.h.live && m'.h.live == m.h.live[b := c.size] && PageOf(b) in m'.h.arenas
      && Keeps(m.h.arenas, m'.h.arenas) && Kind(m'.h.arenas[PageOf(b)]) == Normal(c.d, 0)
  {
    hide Held, CountsOk, LiveOk, PagesOk, BlocksOf, Sequences.Distinct, Take, BlockSeq;
    GrantArena(m.h, m.owned, c.p, c.d, c.size);
    var mid := AddArena(m.h, c.p, c.d);
    TakeOldEffect(mid, c.d, c.size);
    KeepsBoth(m.h.arenas, mid.arenas, Apply(m, c).h.arenas);
  }

  lemma KeepsBoth(a: map<nat, Arena>, b: map<nat, Arena>, c: map<nat, Arena>)
    requires Keeps(a, b) && Keeps(b, c)
    ensures Keeps(a, c)
  {
  }

  /** A new arena hands out its first block, and a block taken back is the next handed out. */
  lemma NextServed(m: Memory, c: Call)
    requires Good(m) && Allowed(m, c) && (c.TakeFresh? || c.GiveBlock?)
    ensures c.TakeFresh? ==> Result(m, c) == BlockAt(c.p, c.d, 0)
    ensures c.GiveBlock? ==> var m', d := Apply(m, c), m.h.arenas[PageOf(c.b)].d;
      Good(m') && Allowed(m', TakeOld(d, 0)) && Result(m', TakeOld(d, 0)) == c.b
  {
    hide Held, CountsOk, LiveOk, PagesOk, BlocksOf, Sequences.Distinct, Range;
    if c.TakeFresh? {
      GrantArena(m.h, m.owned, c.p, c.d, c.size);
    } else {
      ApplyGood(m, c);
    }
  }

  /** A block taken back stops being live, no other does, and the pages of everyone else stay. */
  lemma GiveEffect(m: Memory, c: Call)
    requires Good(m) && Allowed(m, c) && !Takes(c)
    ensures Given(c) in m.h.live && Apply(m, c).h.live == m.h.live - {Given(c)}
    ensures Apply(m, c).owned - Held(Apply(m, c).h.arenas) == m.owned - Held(m.h.arenas)
  {
    hide Held, Range, BlocksOf, CountsOk, PagesOk, ListsOk;
    ApplyGood(m, c);
    if c.GiveBig? {
      assert PageOf(Palloc.PGSIZE * c.p + ARENA_SIZE) == c.p;
      assert |m.h.free| == 7 by { Seven(m.h); }
      assert InUse(m.h, Palloc.PGSIZE * c.p + ARENA_SIZE);
    }
  }

  /** The blocks that stay live keep their arena and so their size. */
  lemma GiveKeepsRoom(m: Memory, c: Call)
    requires Good(m) && Allowed(m, c) && !Takes(c)
    ensures forall b :: b in Apply(m, c).h.live ==>
      PageOf(b) in Apply(m, c).h.arenas && Room(Apply(m, c).h.arenas, b) == Room(m.h.arenas, b)
  {
    hide Held, Range, BlocksOf, CountsOk, PagesOk, ListsOk, LiveOk, Removed;
    ApplyGood(m, c);
    var h' := Apply(m, c).h;
    forall b | b in h'.live ensures PageOf(b) in h'.arenas && Room(h'.arenas, b) == Room(m.h.arenas, b) {
      LiveArena(h', b);
    }
  }

  lemma Seven(h: Heap)
    requires HeapInv(h)
    ensures |h.free| == 7
  {
  }

  lemma SetSizes(big: set<nat>, part: set<nat>)
    requires part <= big
    ensures |big - part| == |big| - |part|
  {
    assert big == (big - part) + part;
  }

  lemma UnionSize(a: set<nat>, b: set<nat>)
    requires a !! b
    ensures |a + b| == |a| + |b|
  {
  }

  /** Held pages that grow with the pages owned, and by as much. */
  lemma HeldGrows(owned: set<nat>, held: set<nat>, r: set<nat>, held': set<nat>)
    requires held <= owned && r !! owned && held' <= owned + r && (owned + r) - held' == owned - held
    ensures held' == held + r && |held'| == |held| + |r|
  {
    forall x ensures x in held' <==> x in held + r {
      assert x in (owned + r) - held' <==> x in owned - held;
    }
    UnionSize(held, r);
  }

  lemma TakeBigGood(m: Memory, p: nat, pages: nat, size: nat)
    requires Good(m) && Allowed(m, TakeBig(p, pages, size))
    ensures var m' := Apply(m, TakeBig(p, pages, size));
      && Good(m') && m'.owned - Held(m'.h.arenas) == m.owned - Held(m.h.arenas)
      && |Held(m'.h.arenas)| == |Held(m.h.arenas)| + pages
  {
    hide HeapInv, Held;
    GrantBig(m.h, m.owned, p, pages, size);
    HeldGrows(m.owned, Held(m.h.arenas), Range(p, pages), Held(AddBig(m.h, p, pages, size).arenas));
  }

  lemma TakeFreshGood(m: Memory, p: nat, d: DescIdx, size: nat)
    requires Good(m) && Allowed(m, TakeFresh(p, d, size))
    ensures var m' := Apply(m, TakeFresh(p, d, size));
      && Good(m') && m'.owned - Held(m'.h.arenas) == m.owned - Held(m.h.arenas)
      && |Held(m'.h.arenas)| == |Held(m.h.arenas)| + 1
  {
    hide Held;
    GrantArena(m.h, m.owned, p, d, size);
    HeldGrows(m.owned, Held(m.h.arenas), {p}, Held(Take(AddArena(m.h, p, d), d, size).arenas));
  }

  lemma GiveLastGood(m: Memory, b: nat)
    requires Good(m) && Allowed(m, GiveLast(b))
    ensures var m' := Apply(m, GiveLast(b));
      && Good(m') && m'.owned - Held(m'.h.arenas) == m.owned - Held(m.h.arenas)
      && |Held(m'.h.arenas)| == |Held(m.h.arenas)| - 1
  {
    hide Held;
    ReturnArena(m.h, b);
    SetSizes(Held(m.h.arenas), {PageOf(b)});
  }

  lemma GiveBigGood(m: Memory, p: nat)
    requires Good(m) && Allowed(m, GiveBig(p))
    ensures var m' := Apply(m, GiveBig(p));
      && Good(m') && m'.owned - Held(m'.h.arenas) == m.owned - Held(m.h.arenas)
      && |Held(m'.h.arenas)| == |Held(m.h.arenas)| - m.h.arenas[p].pages
  {
    hide HeapInv, Held;
    ReturnBig(m.h, p);
    SetSizes(Held(m.h.arenas), PagesOf(p, m.h.arenas[p]));
  }

  /** Every call keeps the invariant and the pages of everyone else, and changes the number of
      pages held by what it takes less what it returns. */
  lemma ApplyGood(m: Memory, c: Call)
    requires Good(m) && Allowed(m, c)
    ensures Good(Apply(m, c))
    ensures var m' := Apply(m, c);
      && m'.owned - Held(m'.h.arenas) == m.owned - Held(m.h.arenas)
      && |Held(m'.h.arenas)| == |Held(m.h.arenas)| + Taken(c) - Returned(m, c)
  {
    hide Consistent, Held, Range, PagesOf;
    match c
    case TakeBig(p, pages, size) => TakeBigGood(m, p, pages, size);
    case TakeFresh(p, d, size) => TakeFreshGood(m, p, d, size);
    case TakeOld(d, size) => TakeInv(m.h, d, size);
    case GiveBlock(b) => GiveInv(m.h, b);
    case GiveLast(b) => GiveLastGood(m, b);
    case GiveBig(p) => GiveBigGood(m, p);
  }

  // ----- runs

  /** `calls` can be made in turn from `m`. */
  ghost predicate Runs(m: Memory, calls: seq<Call>)
    requires Good(m)
    decreases |calls|
  {
    calls == [] || (Allowed(m, calls[0]) && (ApplyGood(m, calls[0]); Runs(Apply(m, calls[0]), calls[1..])))
  }

  ghost function After(m: Memory, calls: seq<Call>): Memory
    requires Good(m) && Runs(m, calls)
    decreases |calls|
  {
    if calls == [] then m else ApplyGood(m, calls[0]); After(Apply(m, calls[0]), calls[1..])
  }

  ghost function TakenIn(calls: seq<Call>): nat {
    if calls == [] then 0 else Taken(calls[0]) + TakenIn(calls[1..])
  }

  ghost function ReturnedIn(m: Memory, calls: seq<Call>): nat
    requires Good(m) && Runs(m, calls)
    decreases |calls|
  {
    if calls == [] then 0
    else ApplyGood(m, calls[0]); Returned(m, calls[0]) + ReturnedIn(Apply(m, calls[0]), calls[1..])
  }

  /** After every run the invariant holds, the pages held are those taken less those returned, and
      nobody else's pages have changed. */
  lemma {:induction false} RunGood(m: Memory, calls: seq<Call>)
    requires Good(m) && Runs(m, calls)
    ensures Good(After(m, calls))
    ensures |Held(After(m, calls).h.arenas)| == |Held(m.h.arenas)| + TakenIn(calls) - ReturnedIn(m, calls)
    ensures After(m, calls).owned - Held(After(m, calls).h.arenas) == m.owned - Held(m.h.arenas)
    decreases |calls|
  {
    hide Good, Allowed, Apply, Held, Returned, Taken;
    if calls != [] {
      ApplyGood(m, calls[0]);
      RunGood(Apply(m, calls[0]), calls[1..]);
    }
  }

  /** So once a run from an empty heap has freed all it allocated, every page is back. */
  lemma RunReturnsAll(m: Memory, calls: seq<Call>)
    requires Good(m) && Runs(m, calls) && m.h == EMPTY && After(m, calls).h.live == map[]
    ensures After(m, calls).owned == m.owned && TakenIn(calls) == ReturnedIn(m, calls)
  {
    hide HeapInv, Allowed, Apply, Runs, After, Returned, Taken;
    RunGood(m, calls);
    NothingLive(After(m, calls).h);
    var end := After(m, calls);
    assert Held(m.h.arenas) == {} && Held(end.h.arenas) == {};
    assert m.owned - {} == m.owned && end.owned - {} == end.owned;
  }

  lemma GoodLive(m: Memory, b: nat)
    requires Good(m) && b in m.h.live
    ensures PageOf(b) in m.h.arenas
  {
    LiveArena(m.h, b);
  }

  lemma RunNone(m: Memory)
    requires Good(m)
    ensures Runs(m, []) && After(m, []) == m
  {
  }

  lemma RunOne(m: Memory, c: Call)
    requires Good(m) && Allowed(m, c)
    ensures Runs(m, [c]) && After(m, [c]) == Apply(m, c)
  {
    hide Good, Allowed, Apply;
    ApplyGood(m, c);
    assert [c][1..] == [];
  }

  lemma RunTwo(m: Memory, c: Call, d: Call)
    requires Good(m) && Allowed(m, c) && Good(Apply(m, c)) && Allowed(Apply(m, c), d)
    ensures Runs(m, [c, d]) && After(m, [c, d]) == Apply(Apply(m, c), d)
  {
    hide Good, Allowed, Apply;
    RunOne(Apply(m, c), d);
    assert [c, d][1..] == [d];
  }
}
