# Pintos in Dafny

A model of the Pintos kernel's hard parts, with proofs. Each module follows one component:

- `Arithmetic`: 64-bit division on a 32-bit divide instruction. One divide gives an estimate that
  is proved to be right or one too large.
- `Lists`, `ListSort`, `Runs`: intrusive doubly linked lists as heap objects, with the in-place
  natural merge sort. `Runs` is the theory of runs and stability, on sequences.
- `Threads`, `Synch`, `SynchProofs`: the scheduler and the synchronization primitives as a step
  system. Each region that runs with interrupts off is one step, and the processor may change
  hands between any two. The theorems are about every reachable state.
- `SynchLaws`, `SynchCalls`: the same over the events of whole runs. Values and lists are tallies
  of the events, and each call is described by what holds when it returns.
- `Bits`, `Bitmaps`, `Palloc`, `Malloc`, `MallocRuns`, `Allocators`: word-level bitmaps, the page
  pools on top of them, and the block allocator on top of those. `MallocRuns` has the steps of
  memory and what holds after every sequence of them; every call of `Allocators` is such a step.
- `InodeIo`, `Directories`, `DirectoryRuns`: file data on 512-byte sectors as a flat byte sequence,
  and directories on file data as a finite map over every sequence of adds and removes.
- `FileSystem`, `FileSystemLaws`, `FileSystemRuns`, `Conservation`: who owns which sector, over every
  sequence of creates, opens, removes, reopens and closes, and which sectors are marked but owned
  by no one.
- `OnDisk`, `Volumes`: the same operations on the device, whose bytes hold headers, root directory
  and free map after each of them, so that it can be mounted again.
- `Hashes`: the chained hash table as a set with one element per class of equal elements.
- `PageEntries`, `PageDirs`: page-table entries (section 3.7.6 of the IA-32 manual, volume 3A) and
  the two-level table as a flat map from page to frame.
- `Stdlib`, `Stdio`, `Conversions`, `Ustar`: heapsort, binary search, atoi, the integer conversions
  of printf and the specifications that ask for them (section 7.19.6.1 of ISO C99), and ustar
  archive headers (the pax utility of the Single UNIX Specification, version 3).
- `Words`, `Integers`, `Sequences`, `Options`: shared arithmetic, sequence facts and `Option`.

Code that changes things in place is a class or an array method proved against a function or a
property of its old state; pure code is a function with lemmas. Memory that may run out, disk
writes that may fail and pages an allocator may refuse are parameters, so every theorem covers
every outcome. Machine words wrap where the source's do. `dafny verify dfyconfig.toml` checks the
whole project.

Where the code does less than its comments say, the model follows the code, and the exact
condition is proved:

- `umod64` and `smod64` return 32 bits: right exactly when the remainder fits.
- A big `malloc` computes its page count in 32 bits: the block is large enough exactly for sizes up
  to 2^32 - 12. Larger ones get a single page.
- `dir_add` takes a failed read for the end of the directory: names stay unique exactly when its
  first scan did not miss the name, and no entry is lost exactly unless its second scan gives up on
  a slot in use.
- `free_map_release` ignores a failed write of the free map's file. The file is then exact just when
  the part not written was; it always marks the sectors in use.
- A create that gets as far as `dir_add` and is refused there leaves sectors marked exactly when the
  size is not 0. Such creates, and entries that `dir_add` overwrites, are the only ways in which a
  sector comes to be marked and owned by no inode.
- `format_integer` pads twice when both `-` and `0` are set, which `%0*d` with a negative width does
  and no width in digits that fits an int. It pads nothing when the width is INT_MIN and there is
  nothing to print.
- A negative size in a ustar header does not survive the round trip.
- The branch of `inode_write_at` that clears the bounce buffer is never taken: a chunk that covers
  its sector is written directly. `WriteChunk` has `assert false` there.

## Model

| member | source | states |
|---|---|---|
| Arithmetic.Divl | pintos/src/lib/arithmetic.c:25-37 | the DIVL instruction: exact quotient, for operands whose quotient fits in 32 bits |
| Arithmetic.Nlz | pintos/src/lib/arithmetic.c:40-73 | the shift that brings the highest set bit of a nonzero word to bit 31 |
| Arithmetic.ShiftIfSmall | pintos/src/lib/arithmetic.c:46-71 | one step of the search for the leading bit: it counts and shifts out clear bits only |
| Arithmetic.NarrowQuotient | pintos/src/lib/arithmetic.c:80-112 | with a one-word divisor, reducing the high word first leaves a quotient that fits in one word, and adding back the high quotient gives the whole one |
| Arithmetic.UdivNarrow | pintos/src/lib/arithmetic.c:80-112 | one-word divisors: the exact quotient, with no divide error |
| Arithmetic.TruncatedDivisor | pintos/src/lib/arithmetic.c:121-123 | the 32 leading bits of a two-word divisor are the divisor without its low bits |
| Arithmetic.EstimateGap | pintos/src/lib/arithmetic.c:121-124 | n(d - vP) < d(vP) for the truncated divisor v and P = 2^(32-s), the inequality behind the estimate |
| Arithmetic.EstimateWithinOne | pintos/src/lib/arithmetic.c:121-124 | for every 64-bit n and two-word d the estimate is floor(n/d) or floor(n/d) + 1, and the divide that makes it cannot trap |
| Arithmetic.CorrectionStep | pintos/src/lib/arithmetic.c:121-124 | one comparison repairs an estimate that is at most one too large, and no product wraps |
| Arithmetic.UdivWide | pintos/src/lib/arithmetic.c:113-126 | two-word divisors: the exact quotient |
| Arithmetic.Udiv64 | pintos/src/lib/arithmetic.c:77-127 | floor(n/d) for every 64-bit n and every nonzero d |
| Arithmetic.Umod64 | pintos/src/lib/arithmetic.c:131-135 | the 32-bit result is n mod d exactly when n mod d is below 2^32 |
| Arithmetic.Sdiv64 | pintos/src/lib/arithmetic.c:139-146 | truncation toward zero (section 6.5.5 of ISO C99) exactly unless the quotient is 2^63 |
| Arithmetic.Smod64 | pintos/src/lib/arithmetic.c:150-154 | the 32-bit result is the remainder of truncating division exactly when that fits in an int |
| Arithmetic.RemaindersCutOff | pintos/src/lib/arithmetic.c:131-154 | an unsigned and a signed remainder that do not fit: 2^32 comes out as 0, 2^31 as -2^31 |
| Lists.List.constructor | pintos/src/lib/kernel/list.c:60-68 | an empty list, head and tail linked to each other |
| Lists.Insert | pintos/src/lib/kernel/list.c:168-178 | the element is put just before the given one, the rest keep their order, the list stays well linked |
| Lists.Remove | pintos/src/lib/kernel/list.c:248-255 | the element goes, the others keep their order, and its successor is returned |
| Lists.CutRange | pintos/src/lib/kernel/list.c:196-198 | first half of list_splice: a range leaves its list and stays linked |
| Lists.PutRange | pintos/src/lib/kernel/list.c:200-203 | second half of list_splice: a linked range joins a list |
| Lists.Splice | pintos/src/lib/kernel/list.c:183-204 | moves a range within one list; nothing else changes place |
| Lists.SpliceInto | pintos/src/lib/kernel/list.c:183-204 | moves a range from one list to another; both stay well linked |
| Lists.FlipElements | pintos/src/lib/kernel/list.c:330-332 | the loop of list_reverse exchanges the links of every interior element |
| Lists.ReverseList | pintos/src/lib/kernel/list.c:325-337 | the same elements in reverse order, well linked |
| ListSort.FindEndOfRun | pintos/src/lib/kernel/list.c:357-372 | the end of the maximal non-descending run that starts here |
| ListSort.MergeStep | pintos/src/lib/kernel/list.c:389-398 | one turn of the merge places one element of either run |
| ListSort.InplaceMerge | pintos/src/lib/kernel/list.c:379-399 | two adjacent runs become one, stably, with the rest of the list as it was |
| ListSort.SortPass | pintos/src/lib/kernel/list.c:415-436 | a pass that puts out more than one run leaves strictly fewer maximal runs |
| ListSort.Sort | pintos/src/lib/kernel/list.c:404-440 | a well-linked list of exactly the same nodes, sorted and stable, equal to what insertion sort gives; the passes end because the runs get fewer |
| ListSort.FindGreater | pintos/src/lib/kernel/list.c:454-456 | the first element greater than the new one, or the tail |
| ListSort.InsertInOrder | pintos/src/lib/kernel/list.c:445-459 | inserts after every element not greater, which keeps a sorted list sorted |
| ListSort.DedupeStep | pintos/src/lib/kernel/list.c:474-485 | one turn of list_unique keeps or drops the next element |
| ListSort.RemoveDuplicates | pintos/src/lib/kernel/list.c:465-486 | drops every element equal to the last one kept; the dropped ones go to the other list in order |
| Runs.RunCountSplit | pintos/src/lib/kernel/list.c:357-372 | a maximal run accounts for one run of the rest |
| Runs.RunCountMerged | pintos/src/lib/kernel/list.c:415-436 | a merged range adds at most one run to what precedes it |
| Runs.AdvanceImproves | pintos/src/lib/kernel/list.c:389-398 | moving an element forward past larger ones never swaps an equal pair and only improves the order |
| Runs.StableSortUnique | pintos/src/lib/kernel/list.c:401-440 | two stable sorts of the same elements are the same sequence |
| Runs.StableSortIsInsertionSort | pintos/src/lib/kernel/list.c:401-459 | whatever stably sorts distinct nodes computes repeated list_insert_ordered |
| Runs.InsertOrderedSorted | pintos/src/lib/kernel/list.c:445-459 | ordered insertion keeps a sorted sequence sorted |
| Runs.UniqueOfSorted | pintos/src/lib/kernel/list.c:461-486 | on a sorted list list_unique leaves exactly one of each class of equal elements, in strictly increasing order |
| Threads.Scheduler.Schedule | pintos/src/threads/thread.c:565-641 | the front of the ready list, or the idle thread, gets the processor; a dying previous thread other than the initial one is destroyed |
| Threads.Scheduler.ThreadBlock | pintos/src/threads/thread.c:275-286 | block as specified, keeping the scheduler invariant |
| Threads.Scheduler.ThreadUnblock | pintos/src/threads/thread.c:296-308 | unblock as specified: a blocked thread joins the end of the ready list |
| Threads.Scheduler.ThreadYield | pintos/src/threads/thread.c:370-384 | yield as specified: the running thread goes to the end of the ready list unless it is the idle thread |
| Threads.Scheduler.ThreadTick | pintos/src/threads/thread.c:126-144 | a tick, with a yield once TIME_SLICE ticks have gone by |
| Threads.Scheduler.ThreadExit | pintos/src/threads/thread.c:345-366 | the core of exit: the thread leaves the list of all threads and never runs again |
| Threads.Scheduler.ThreadCreate | pintos/src/threads/thread.c:169-218 | a new thread, queued, or TID_ERROR and nothing changed when no page is left |
| Threads.ApplySane | pintos/src/threads/thread.c:275-641 | every operation keeps: exactly one thread runs, the ready list holds each ready non-idle thread exactly once and no other |
| Threads.RunSane | pintos/src/threads/thread.c:275-641 | the invariant holds at the end of every run of allowed operations, each allowed where it is taken |
| Threads.RunExtends | pintos/src/threads/thread.c:275-641 | every operation allowed at the end of a run extends it, and the longer run keeps the invariant |
| Threads.ReachableSane | pintos/src/threads/thread.c:275-641 | the invariant holds in every state reachable from boot |
| Threads.ReachableApply | pintos/src/threads/thread.c:275-641 | reachable states are closed under every allowed operation |
| Threads.QueueAdvances | pintos/src/threads/thread.c:565-641 | one operation moves a queued thread forward by one exactly when it switches |
| Threads.RoundRobin | pintos/src/threads/thread.c:565-641 | over every run with at most k switches, the thread at position k is still queued and has moved forward once per switch |
| Threads.RunsOnItsTurn | pintos/src/threads/thread.c:565-641 | the thread at position k of the ready list runs on exactly the (k+1)-th later schedule() |
| Threads.TicksForceSwitches | pintos/src/threads/thread.c:126-144 | at most TIME_SLICE timer ticks go by per switch |
| Threads.WhoRuns | pintos/src/threads/thread.c:126-144 | operation by operation who runs next: the front of the queue, else the yielding thread itself, else the idle thread; and the tick count |
| Threads.SliceIsWhole | pintos/src/threads/thread.c:126-144 | a thread that does not give up the processor keeps it until its fourth tick |
| Threads.TicksSwitch | pintos/src/threads/thread.c:126-144 | n ticks make exactly a quarter of n switches, counted from the last one |
| Threads.BoundedWait | pintos/src/threads/thread.c:126-144 | in every run with 4(k+1) timer ticks the thread at position k gets the processor |
| Threads.ApplyDying | pintos/src/threads/thread.c:345-366 | only exit makes a thread dying, and nothing revives one |
| Synch.Semaphore.TryDown | pintos/src/threads/synch.c:83-102 | decrements a positive value, and says so; otherwise changes nothing |
| Synch.Semaphore.DownTurn | pintos/src/threads/synch.c:60-76 | one turn of the retry loop: decremented, or queued and asleep |
| Synch.Semaphore.Up | pintos/src/threads/synch.c:108-121 | wakes the front waiter if any, and increments |
| SynchProofs.StepInv | pintos/src/threads/synch.c:60-338 | every event of every thread, with the processor taken away between any two regions, keeps the whole invariant |
| SynchProofs.StartInv | pintos/src/threads/synch.c:44-265 | the invariant holds at boot |
| SynchProofs.RunExtends | pintos/src/threads/synch.c:60-338 | after every run the invariant holds and every enabled event extends the run |
| SynchProofs.ReachableInv | pintos/src/threads/synch.c:60-338 | the invariant holds in every reachable state |
| SynchProofs.ReachableStep | pintos/src/threads/synch.c:60-338 | reachable states are closed under every enabled event |
| SynchProofs.OneQueue | pintos/src/threads/synch.c:60-121 | in every reachable state no thread is on two wait lists, or twice on one, or on a wait list and the ready list; every blocked thread but the idle one is on a wait list |
| SynchProofs.SemaphoreLaw | pintos/src/threads/synch.c:60-121 | the counters kept with a semaphore give its value; while anyone is queued it is at most the number of threads woken that have yet to retry |
| SynchProofs.SleepersAreSafe | pintos/src/threads/synch.c:60-121 | while a thread sleeps on a positive semaphore, another woken from the same list is ready or running and has yet to take its turn |
| SynchProofs.MutualExclusion | pintos/src/threads/synch.c:192-236 | at most one thread is between acquire and release; the lock is free exactly when its semaphore has value 1; a holder passes the assertion of lock_release |
| SynchProofs.SignalNotLost | pintos/src/threads/synch.c:287-322 | once a signal has upped a waiter's semaphore nobody sleeps on it and its value is 1, even if the signal came between the release of the lock and sema_down |
| SynchProofs.OnlyWaiterSleeps | pintos/src/threads/synch.c:287-302 | only its own thread downs, or sleeps on, a waiter's semaphore |
| SynchProofs.SignalBeforeReturn | pintos/src/threads/synch.c:311-322 | a signaler only touches the stack semaphore of a thread still inside cond_wait |
| SynchProofs.SignalTakesLongest | pintos/src/threads/synch.c:311-322 | the event of a signal, or of the next turn of a broadcast, takes off the list exactly the thread that has waited longest |
| SynchProofs.ReturnsNeedSignals | pintos/src/threads/synch.c:287-338 | returns from cond_wait never outnumber the waiters that signals took off the list |
| SynchProofs.WaitReturnsHolding | pintos/src/threads/synch.c:287-302 | cond_wait returns holding the lock, and only a thread a signal took off the list returns |
| SynchProofs.RunSchedules | pintos/src/threads/synch.c:60-338 | every run of the primitives is a run of the scheduler, so its guarantees carry over |
| SynchLaws.StepSema | pintos/src/threads/synch.c:60-121 | event by event: an up adds one and a completed down takes one, nothing else changes the value, and the list is a queue |
| SynchLaws.RunSema | pintos/src/threads/synch.c:60-121 | over every run the value is the old one plus the ups less the completed downs in the run, and sleepers are woken in the order in which they went to sleep |
| SynchLaws.PlainUpsIn | pintos/src/threads/synch.c:108-121 | the ups of a semaphore of its own are the sema_up events on it, no more and no fewer |
| SynchLaws.SemaphoreTally | pintos/src/threads/synch.c:44-121 | a semaphore made with value v has, after every run, v plus the number of sema_ups in the run less the completed downs: no up is lost |
| SynchLaws.UpIsCode | pintos/src/threads/synch.c:108-121 | the step of sema_up is what the method Up does to semaphore and scheduler |
| SynchLaws.TryDownIsCode | pintos/src/threads/synch.c:83-102 | the step of sema_try_down is the method TryDown |
| SynchLaws.DownIsCode | pintos/src/threads/synch.c:60-76 | each turn of sema_down is the method DownTurn |
| SynchLaws.NewObjects | pintos/src/threads/synch.c:175-266 | a new lock is free and a new condition has no waiters |
| SynchLaws.StepCond | pintos/src/threads/synch.c:287-338 | event by event: waiters join at the back and signals take them off the front, and nothing else does |
| SynchLaws.RunCond | pintos/src/threads/synch.c:287-338 | over every run waiters are taken off in the order in which they joined, one for each signal or broadcast turn that finds any |
| SynchCalls.SemaDown | pintos/src/threads/synch.c:60-76 | sema_down returns having decremented the semaphore exactly once, whatever runs in between |
| SynchCalls.LockAcquire | pintos/src/threads/synch.c:192-201 | lock_acquire returns holding the lock, having downed its semaphore exactly once |
| SynchCalls.LockTryAcquire | pintos/src/threads/synch.c:209-222 | lock_try_acquire returns holding the lock exactly when nobody was inside; otherwise it returns at once and changes nothing |
| SynchCalls.LockRelease | pintos/src/threads/synch.c:228-236 | lock_release returns without the lock, having upped its semaphore exactly once |
| SynchCalls.CondWait | pintos/src/threads/synch.c:287-302 | cond_wait joins the back of the list; it returns holding the lock, having released it once, been upped by a signal, downed its own semaphore once and reacquired the lock once |
| SynchCalls.CondSignal | pintos/src/threads/synch.c:311-322 | cond_signal takes the front waiter off and returns with its semaphore at 1; with no waiter it changes nothing |
| SynchCalls.CondBroadcast | pintos/src/threads/synch.c:330-338 | cond_broadcast returns with the list empty and everyone who was on it signaled |
| Bitmaps.OrMask | pintos/src/lib/kernel/bitmap.c:157-167 | or with a bit's mask sets that bit and no other |
| Bitmaps.AndNotMask | pintos/src/lib/kernel/bitmap.c:170-180 | and with the complement clears that bit and no other |
| Bitmaps.XorMask | pintos/src/lib/kernel/bitmap.c:185-195 | exclusive or flips that bit and no other |
| Bitmaps.TestMask | pintos/src/lib/kernel/bitmap.c:198-204 | masking tests that bit |
| Bitmaps.LastMaskKeeps | pintos/src/lib/kernel/bitmap.c:63-70 | last_mask keeps the bits in use of the last word and clears the others |
| Bitmaps.Bitmap.constructor | pintos/src/lib/kernel/bitmap.c:84-89 | all bits clear |
| Bitmaps.Create | pintos/src/lib/kernel/bitmap.c:78-94 | a fresh clear bitmap; null exactly when the structure cannot be allocated, or the words of a nonempty one cannot |
| Bitmaps.Bitmap.Mark | pintos/src/lib/kernel/bitmap.c:157-167 | the words stand for the same bits with one set |
| Bitmaps.Bitmap.Reset | pintos/src/lib/kernel/bitmap.c:170-180 | ... with one cleared |
| Bitmaps.Bitmap.Flip | pintos/src/lib/kernel/bitmap.c:185-195 | ... with one flipped |
| Bitmaps.Bitmap.Test | pintos/src/lib/kernel/bitmap.c:198-204 | the value of one bit |
| Bitmaps.Bitmap.Set | pintos/src/lib/kernel/bitmap.c:145-154 | ... with one set to the value |
| Bitmaps.Bitmap.SetMultiple | pintos/src/lib/kernel/bitmap.c:218-229 | exactly the bits of the range take the value |
| Bitmaps.Bitmap.Contains | pintos/src/lib/kernel/bitmap.c:251-264 | whether some bit of the range has the value |
| Bitmaps.Bitmap.Scan | pintos/src/lib/kernel/bitmap.c:296-311 | the least index of a run of the value, or an error exactly when there is none |
| Bitmaps.Bitmap.ScanAndFlip | pintos/src/lib/kernel/bitmap.c:320-327 | the same, and that run is flipped and nothing else |
| Palloc.LayoutFits | pintos/src/threads/palloc.c:153-170 | the bitmap fits in its pages, none of which is spare, and bitmap and managed pages fill the pool; there is no layout exactly when the bitmap alone is too large |
| Palloc.Pool.constructor | pintos/src/threads/palloc.c:153-170 | a pool with every page free |
| Palloc.Pool.GetMultiple | pintos/src/threads/palloc.c:70-101 | the pages granted belonged to nobody and now belong to one new grant; null exactly for 0 pages or when no run of that length is free |
| Palloc.Pool.FreeMultiple | pintos/src/threads/palloc.c:117-142 | the pages, all in use, become free; no other changes |
| Palloc.PageAllocator.constructor | pintos/src/threads/palloc.c:45-62 | two empty pools that meet and end with physical memory |
| Palloc.PageAllocator.GetMultiple | pintos/src/threads/palloc.c:70-101 | a grant shares no page with any earlier one of its pool, and the other pool is untouched; null exactly for 0 pages or when no run of that length is free |
| Palloc.PageAllocator.Placement | pintos/src/threads/palloc.c:45-170 | pages of a pool lie in its own memory, clear of both bitmaps and of the other pool |
| Palloc.PageAllocator.OnePool | pintos/src/threads/palloc.c:174-182 | no page is in both pools |
| Palloc.PageAllocator.FreeMultiple | pintos/src/threads/palloc.c:117-142 | frees in the pool the pages came from |
| Malloc.InitDescs | pintos/src/threads/malloc.c:71-85 | the descriptors are the powers of two from 16 up to 1024, and fit the table |
| Malloc.FindDesc | pintos/src/threads/malloc.c:100-105 | the smallest descriptor that serves the size |
| Malloc.BlockInPage | pintos/src/threads/malloc.c:266-294 | a block lies in its arena's page after the header, and block_to_arena finds the arena |
| Malloc.BlocksApart | pintos/src/threads/malloc.c:284-294 | blocks of one arena do not overlap |
| Malloc.AddArenaConsistent | pintos/src/threads/malloc.c:124-146 | a new arena keeps lists, counts, live blocks and pages consistent |
| Malloc.TakeConsistent | pintos/src/threads/malloc.c:148-153 | so does handing out the front of a list, which was not live |
| Malloc.GiveConsistent | pintos/src/threads/malloc.c:236-242 | so does putting a live block back |
| Malloc.DropArenaConsistent | pintos/src/threads/malloc.c:241-253 | so does giving back an arena all of whose blocks are free; its count is then exactly blocks_per_arena, as asserted |
| Malloc.AddBigConsistent | pintos/src/threads/malloc.c:105-120 | so does a multi-page arena |
| Malloc.DropBigConsistent | pintos/src/threads/malloc.c:257-262 | and giving one back |
| Malloc.LiveExtent | pintos/src/threads/malloc.c:89-154 | a live block lies after its arena's header and inside its arena's pages |
| Malloc.LiveApart | pintos/src/threads/malloc.c:89-154 | two live blocks share no byte |
| Malloc.SomeLive | pintos/src/threads/malloc.c:241-253 | no arena persists without a live block |
| Malloc.NothingLive | pintos/src/threads/malloc.c:218-264 | with no block live no arena is left |
| Malloc.PageCntEnough | pintos/src/threads/malloc.c:109 | the page count covers size and header, or is 0, exactly up to size 2^32 - 12; it is 0 exactly for the 4096 sizes up to that, and 1 for every larger size |
| Malloc.LargestRequest | pintos/src/threads/malloc.c:105-121 | the largest request gets a block of one page |
| Malloc.BigCapacity | pintos/src/threads/malloc.c:105-120 | a big block holds its request exactly up to size 2^32 - 12 |
| Allocators.Allocator.constructor | pintos/src/threads/malloc.c:71-85 | no arenas, empty lists |
| Allocators.Allocator.PushBlocks | pintos/src/threads/malloc.c:137-145 | the loop that adds all blocks of a new arena to the list, in order |
| Allocators.Allocator.RemoveBlocks | pintos/src/threads/malloc.c:247-251 | the loop that removes all blocks of an arena from the list |
| Allocators.Allocator.MallocBig | pintos/src/threads/malloc.c:105-120 | a block of its own pages, as a TakeBig step of memory, or null with nothing changed and no run of pages free |
| Allocators.Allocator.MallocOld | pintos/src/threads/malloc.c:148-153 | the front of a nonempty list, as a TakeOld step of memory |
| Allocators.Allocator.MallocFresh | pintos/src/threads/malloc.c:124-153 | the first block of a new arena, as a TakeFresh step, or null with nothing changed and no page free |
| Allocators.Allocator.MallocSmall | pintos/src/threads/malloc.c:122-153 | the one or the other; null only with nothing changed and no page free |
| Allocators.Allocator.Malloc | pintos/src/threads/malloc.c:89-154 | a block not live before and live now, from the smallest kind of arena that serves, as large as asked for exactly when size <= 2^32 - 12; null only for size 0, a wrapped page count or want of pages; every other block stays; the invariant and the pages outside the arenas are kept; the call is one allowed step of MallocRuns |
| Allocators.Allocator.Free | pintos/src/threads/malloc.c:218-264 | the block stops being live and nothing else does; live blocks keep their size; pages are returned with the last block of their arena; pages outside the arenas are untouched; the call is one allowed step of MallocRuns |
| Allocators.Allocator.BlockCapacity | pintos/src/threads/malloc.c:177-186 | so many bytes at a live block lie after its arena's header, inside its pages and apart from every other live block |
| Allocators.Allocator.Realloc | pintos/src/threads/malloc.c:194-214 | null only for size 0, a page count that wrapped to 0 or want of pages, and then the old block stays; on success the new one, large enough, replaces it and min(new size, old size) bytes are copied; size 0 frees; the call is a run of at most two steps of MallocRuns |
| Allocators.Allocator.AllReturned | pintos/src/threads/malloc.c:218-264 | once every block is freed every page taken from the page allocator is back |
| MallocRuns.ApplyGood | pintos/src/threads/malloc.c:89-264 | every step that malloc, free or realloc makes keeps the invariant and everyone else's pages, and changes the number of pages held by those it takes less those it returns |
| MallocRuns.TakeEffect | pintos/src/threads/malloc.c:89-154 | a step of malloc makes one block live that was not, in an arena of the kind it asked for, and leaves every other arena's kind |
| MallocRuns.GiveEffect | pintos/src/threads/malloc.c:218-264 | a step of free makes exactly its block not live, and pages outside the arenas stay |
| MallocRuns.NextServed | pintos/src/threads/malloc.c:120-264 | a new arena hands out its first block, and the block freed last is the next of its size handed out |
| MallocRuns.GiveKeepsRoom | pintos/src/threads/malloc.c:218-264 | the blocks that stay live keep their arenas and so their sizes |
| MallocRuns.RunGood | pintos/src/threads/malloc.c:89-264 | after every sequence of steps the invariant holds, so live blocks are disjoint and counts right, and the pages held are those taken less those returned |
| MallocRuns.RunReturnsAll | pintos/src/threads/malloc.c:89-264 | a run from an empty heap that has freed all it allocated has returned every page |
| InodeIo.BytesToSectors | pintos/src/filesys/inode.c:25-29 | enough sectors for the length, and no more than needed unless the 32-bit sum wraps |
| InodeIo.NextChunk | pintos/src/filesys/inode.c:209-221 | a chunk lies in one sector and in the file, at the position byte_to_sector gives; it is empty exactly at the end of file or request |
| InodeIo.MovedStep | pintos/src/filesys/inode.c:207-246 | moving a chunk and then the rest moves what the whole request would |
| InodeIo.Clipped | pintos/src/filesys/inode.c:213-225 | the request up to the end of the file: all of it, or as far as the last byte |
| InodeIo.Moved | pintos/src/filesys/inode.c:207-246 | all of that with memory; without, whole sectors from a sector boundary, short by less than one |
| InodeIo.PatchSector | pintos/src/filesys/inode.c:284-308 | writing part of a sector over its old contents changes those bytes of the device and no other |
| InodeIo.WriteAt | pintos/src/filesys/inode.c:257-318 | the count is min(size, max(0, length - offset)), less only when denied or without a bounce buffer; exactly those bytes of the device change, to the buffer's |
| InodeIo.WriteChunk | pintos/src/filesys/inode.c:284-308 | a whole sector goes out directly, part of one is merged with what the sector held; the branch that starts from zeros is unreachable |
| InodeIo.ReadAt | pintos/src/filesys/inode.c:200-250 | the same count; the buffer gets exactly those bytes of the file and keeps the rest |
| InodeIo.CopyOut | pintos/src/filesys/inode.c:223-240 | one chunk of the file goes into the buffer behind what was read, and the rest of the buffer stays |
| InodeIo.WriteRefines | pintos/src/filesys/inode.c:257-318 | a write to the device is a write to the file as a flat byte sequence |
| InodeIo.OtherFileUntouched | pintos/src/filesys/inode.c:257-318 | a file whose sectors are separate does not change |
| InodeIo.OtherSectorUntouched | pintos/src/filesys/inode.c:257-318 | a sector outside the file's data keeps every byte |
| InodeIo.ReadBack | pintos/src/filesys/inode.c:200-318 | the range written holds the data, every other byte of the file what it held |
| InodeIo.OpenFile.Read | pintos/src/filesys/file.c:68-74 | the next bytes of the file, and the position moves past them |
| InodeIo.OpenFile.Write | pintos/src/filesys/file.c:94-100 | the next bytes are replaced, the position moves past them, and no other byte of the device changes |
| Directories.Strlcpy | pintos/src/filesys/directory.c:172-174 | the name read back is the name written, whatever the field held |
| Directories.ParseEncode | pintos/src/filesys/directory.c:16-22 | an entry's 20 bytes read back as the entry |
| Directories.EntryLayout | pintos/src/filesys/directory.c:16-22 | sector as a little-endian word, 15 bytes of name, in_use |
| Directories.SlotWritten | pintos/src/filesys/directory.c:171-175 | writing an entry changes its slot alone |
| Directories.FindNamed | pintos/src/filesys/directory.c:91-112 | the first slot in use with the name among those read |
| Directories.FindUnused | pintos/src/filesys/directory.c:159-169 | where the search for a free slot stops |
| Directories.AddSlot | pintos/src/filesys/directory.c:141-179 | the slot dir_add writes, if any |
| Directories.AddRefines | pintos/src/filesys/directory.c:171-175 | filling a free slot with a new name keeps names unique and adds exactly that pair to the map |
| Directories.RemoveRefines | pintos/src/filesys/directory.c:204-207 | clearing a slot keeps names unique and removes exactly that name from the map |
| Directories.AddKeepsUnique | pintos/src/filesys/directory.c:155-175 | names stay unique exactly when no slot the first scan could not read has the name |
| Directories.AddLosesNothing | pintos/src/filesys/directory.c:159-175 | no entry is lost exactly unless the slots the second scan can read, and the next one, are all in use |
| Directories.ShortReadOverwrites | pintos/src/filesys/directory.c:159-175 | with failed reads an add can overwrite the one file there is |
| Directories.ShortReadDuplicates | pintos/src/filesys/directory.c:155-175 | with failed reads one name can be entered twice |
| Directories.AddAllRead | pintos/src/filesys/directory.c:141-179 | with every slot readable a successful add is an addition to the map |
| Directories.ListingComplete | pintos/src/filesys/directory.c:218-236 | from position 0 each name in use is listed exactly once |
| Directories.Directory.ReadEntry | pintos/src/filesys/directory.c:101-103 | one slot of the directory's file, or a short read |
| Directories.Directory.WriteEntry | pintos/src/filesys/directory.c:171-175 | one slot changes, no other slot and no sector outside the directory's data |
| Directories.Directory.Lookup | pintos/src/filesys/directory.c:91-112 | the first slot in use with the name, or none |
| Directories.Directory.FindFree | pintos/src/filesys/directory.c:159-169 | the first free slot, or where the scan ends |
| Directories.Directory.Add | pintos/src/filesys/directory.c:141-179 | fails exactly on an invalid name, a name seen, no slot to write or a failed write, and then changes nothing; otherwise one slot holds the new entry; no sector outside the directory's data changes |
| Directories.Directory.Remove | pintos/src/filesys/directory.c:184-216 | succeeds exactly when the name is found, its inode opened and the write done; then that slot is free, otherwise nothing changes; no sector outside the directory's data changes |
| Directories.Directory.Readdir | pintos/src/filesys/directory.c:221-236 | the next name of the listing of the slots it can read, or none at its end, with the position past them |
| DirectoryRuns.RoomLeft | pintos/src/filesys/directory.c:159-169 | with unique names there is a free slot exactly while the map has fewer names than slots |
| DirectoryRuns.AddStep | pintos/src/filesys/directory.c:141-179 | with every slot readable an add is an addition to a map with room for as many names as slots, its failures included |
| DirectoryRuns.RemoveStep | pintos/src/filesys/directory.c:184-216 | with every slot readable a removal is a removal from the map, its failures included |
| DirectoryRuns.RunIsMap | pintos/src/filesys/directory.c:91-216 | with every slot readable any sequence of adds and removes keeps names unique and leaves the map that the same calls make of the map |
| DirectoryRuns.StepUnique | pintos/src/filesys/directory.c:141-216 | one call keeps names unique exactly when it does not add a name that a slot it could not read has |
| DirectoryRuns.RunUnique | pintos/src/filesys/directory.c:141-216 | whatever reads fail, names are unique throughout a sequence of calls exactly when none of them misses its name |
| DirectoryRuns.DirAdd | pintos/src/filesys/directory.c:141-179 | dir_add on the directory's bytes is one call of these sequences |
| DirectoryRuns.DirRemove | pintos/src/filesys/directory.c:184-216 | and so is dir_remove |
| Volumes.Volume.constructor | pintos/src/filesys/filesys.c:17-31 | after formatting: two inodes with their own sectors, which are all the sectors marked; an empty directory, the free map file open, all of it held in the bytes of the device |
| Volumes.MakeMap | pintos/src/filesys/free-map.c:70-84 | the free map's file gets sectors nobody used and its header, and keeps clear of the fixed sectors |
| Volumes.MakeRoot | pintos/src/filesys/filesys.c:93-103 | the root directory gets a sector nobody used, a header and zeros, and the free map's file marks every sector in use |
| Volumes.Volume.Mount | pintos/src/filesys/filesys.c:17-31 | without formatting, on the device any run left behind: the file system its bytes hold, with the free map file open |
| Volumes.ReadMap | pintos/src/filesys/free-map.c:51-60 | the free map read back has exactly the bits of its file |
| Volumes.Reboot | pintos/src/filesys/filesys.c:17-39 | after a shutdown between operations the same names lead to the same inodes with the same contents, no sector in use is free, and the free map is the same if its file was exact |
| Volumes.Volume.FreeMapAllocate | pintos/src/filesys/free-map.c:26-40 | succeeds exactly when so many consecutive sectors are free and the file of the map can be written, and takes the first such run; a failure leaves the map as it was; after a success the file marks the sectors in use and no others; the device keeps holding all it held |
| Volumes.Volume.FreeMapRelease | pintos/src/filesys/free-map.c:43-49 | exactly these sectors, asserted to be in use, become free; whatever becomes of the write, the file marks every sector in use, and no others if it was whole |
| FileSystem.OpenInv | pintos/src/filesys/inode.c:111-151 | opening or reopening keeps ownership and counts |
| FileSystem.CloseInv | pintos/src/filesys/inode.c:163-186 | closing keeps them; the last close of a removed inode frees its sectors and no others |
| FileSystem.EraseInv | pintos/src/filesys/directory.c:204-207 | erasing an entry keeps the invariant |
| FileSystem.MarkRemovedInv | pintos/src/filesys/inode.c:190-195 | marking an unlinked inode removed keeps it |
| FileSystem.LinkInv | pintos/src/filesys/directory.c:171-175 | a directory entry for an inode on sectors of its own keeps it |
| FileSystem.CreatedSpare | pintos/src/filesys/inode.c:72-106 | an inode just created owns its sectors and shares none |
| FileSystem.LeakInv | pintos/src/filesys/filesys.c:54-55 | a create that fails in dir_add gives back the header's sector only, and keeps the invariant: sectors owned are marked used |
| FileSystem.RefusedLeaks | pintos/src/filesys/filesys.c:48-55 | a create refused by dir_add leaves exactly the data sectors marked, so some exactly when the size is not 0 |
| FileSystem.DenyCounted | pintos/src/filesys/inode.c:322-327 | deny_write_cnt stays the number of denying handles and never passes open_cnt |
| FileSystem.AllowCounted | pintos/src/filesys/inode.c:332-338 | the assertions of inode_allow_write hold and the counts stay right |
| FileSystem.DeniedExactly | pintos/src/filesys/inode.c:265-266 | deny_write_cnt is nonzero exactly while some open handle denies, and at most open_cnt |
| FileSystem.WriteReturnsZero | pintos/src/filesys/inode.c:257-318 | a nonempty in-range write with memory returns 0 exactly while some handle denies |
| FileSystem.FilesApart | pintos/src/filesys/inode.c:72-195 | live inodes, linked or removed but open, keep data and headers apart |
| FileSystem.WriteLeavesOthers | pintos/src/filesys/inode.c:257-318 | a write to one live inode changes no byte of another, nor of its header |
| FileSystem.RemoveNet | pintos/src/filesys/directory.c:184-216 | opening, erasing, marking and closing come to: sectors free at once, or kept until the last close |
| Volumes.Volume.InodeOpen | pintos/src/filesys/inode.c:111-142 | one more reference to the one in-memory inode, whose header is read from the device; null only for a new one without memory |
| Volumes.Volume.InodeClose | pintos/src/filesys/inode.c:163-186 | the specified close; both calls of free_map_release meet their assertion |
| Volumes.WriteInode | pintos/src/filesys/inode.c:91-101 | the header sector holds the header, the data sectors hold zeros, and no other sector changes |
| Volumes.Volume.InodeCreate | pintos/src/filesys/inode.c:72-106 | succeeds exactly when there is memory, a run for the data and a map that can be written: then a header is on the device at the sector, and zeroed data sectors nobody used; otherwise nothing changed but the free map's file |
| Volumes.Volume.FileOpen | pintos/src/filesys/file.c:17-34 | keeps the reference, or closes it when there is no memory |
| Volumes.Volume.FileReopen | pintos/src/filesys/file.c:38-42 | one more reference to the same inode, or nothing changed |
| Volumes.Volume.FileClose | pintos/src/filesys/file.c:45-54 | allows writes again if the file denied them, then closes |
| Volumes.Volume.FileDenyWrite | pintos/src/filesys/file.c:118-127 | denies once per file |
| Volumes.Volume.FileAllowWrite | pintos/src/filesys/file.c:132-141 | undoes a denial, once |
| Volumes.Volume.OpenRoot | pintos/src/filesys/directory.c:54-58 | a reference to the root directory, exactly when it is open already or there is memory; otherwise nothing changed |
| Volumes.Volume.FilesysCreate | pintos/src/filesys/filesys.c:45-59 | succeeds exactly when memory, a header sector and a run for the data are there, the map can be written, and dir_add finds the name new and a slot for it: then there is a new entry and inode on zeroed sectors nobody used, all else as before. If only dir_add refuses, exactly the data sectors stay marked; on any other failure nothing changed. Either way no byte of another file changes and the device holds headers, directory and free map |
| Volumes.Volume.FilesysOpen | pintos/src/filesys/filesys.c:66-77 | a new handle on the inode of the first entry with the name and nothing else changed, or nothing at all |
| Volumes.Volume.FilesysRemove | pintos/src/filesys/filesys.c:83-91 | the entry goes, on the device too; an open inode keeps its sectors, otherwise they are free at once; failure changes nothing; no byte of another file changes |
| Volumes.Volume.DirRemove | pintos/src/filesys/directory.c:184-216 | the same for the open directory |
| Volumes.Volume.FileWriteAt | pintos/src/filesys/file.c:105-114 | the bytes counted replace the file's, 0 while a handle denies; every other file, every header, the directory and the free map keep their bytes |
| Volumes.Volume.FileReadAt | pintos/src/filesys/file.c:79-85 | the bytes of the file at the offset, as many as the source counts |
| OnDisk.DecodeEncode | pintos/src/filesys/inode.c:14-21 | a header's sector reads back as the header |
| OnDisk.InodeLayout | pintos/src/filesys/inode.c:14-21 | start, length and magic as little-endian words, then zeros |
| Volumes.WriteMap | pintos/src/lib/kernel/bitmap.c:354-361 | the bytes of the words go to the front of the file: none if writes to it are denied, all of them unless there is no memory for the last, partial sector; no sector outside the file changes |
| OnDisk.MapWritten | pintos/src/lib/kernel/bitmap.c:354-361 | after a write of the free map that may stop early, the words written are new and the others old |
| OnDisk.MapBitPlace | pintos/src/lib/kernel/bitmap.c:354-361 | sector k is bit k mod 8 of byte k / 8 of the file |
| OnDisk.MapExactIff | pintos/src/lib/kernel/bitmap.c:354-361 | after such a write the file has exactly the bits of the words just when the part not written had them |
| OnDisk.LastWordUnwritten | pintos/src/lib/kernel/bitmap.c:354-361 | a map of 129 words of which the last was not written: a bit that is set in memory and clear in the file |
| OnDisk.MapWhole | pintos/src/filesys/free-map.c:26-49 | after a whole write the file marks the sectors in use and no others |
| OnDisk.MapStep | pintos/src/filesys/free-map.c:26-49 | a write of the free map's file, whole or cut short, leaves it covering every sector in use |
| OnDisk.SlotsStored | pintos/src/filesys/directory.c:171-207 | a write of directory entries keeps headers and free map on the device |
| OnDisk.FileStored | pintos/src/filesys/inode.c:257-318 | a write to a file keeps every header, the root directory and the free map on the device |
| OnDisk.RemountInv | pintos/src/filesys/filesys.c:17-31 | whatever was open or half removed, what the device's bytes hold is a good file system with the same directory and files and none of their sectors free |
| FileSystemRuns.RemovesInv | pintos/src/filesys/filesys.c:83-91 | removing a file keeps the invariant, whether it is open or not |
| FileSystemRuns.CreatesInv | pintos/src/filesys/filesys.c:45-59 | creating one keeps it |
| FileSystemRuns.RefusesInv | pintos/src/filesys/filesys.c:45-59 | a create that dir_add refuses keeps it |
| FileSystemRuns.NextInv | pintos/src/filesys/filesys.c:45-91 | every operation, whatever its outcome, keeps it |
| FileSystemRuns.RunInv | pintos/src/filesys/filesys.c:45-91 | throughout every sequence of creates, opens, reopens, removes, denials and closes, headers and data of all live inodes are disjoint and marked used, and the open and deny counts are right |
| FileSystemRuns.OpenStays | pintos/src/filesys/inode.c:163-195 | while an inode stays open its header does not change and it stays removed if it was |
| FileSystemRuns.RemovedKeepsSectors | pintos/src/filesys/inode.c:163-195 | a file removed while open keeps all its sectors, marked used and shared with no live inode, as long as it stays open |
| FileSystemRuns.CreateUnique | pintos/src/filesys/filesys.c:45-59 | a create keeps file names unique exactly when its scan did not miss the name |
| FileSystemRuns.CreateMaps | pintos/src/filesys/filesys.c:45-59 | with every slot readable it adds its name and sector to the map of the directory |
| FileSystemRuns.RemoveUnique | pintos/src/filesys/filesys.c:83-91 | a remove keeps names unique and takes exactly that name out of the map |
| FileSystemRuns.NextUnique | pintos/src/filesys/filesys.c:45-91 | every operation keeps names unique, creates that miss their name apart |
| FileSystemRuns.RunUnique | pintos/src/filesys/filesys.c:45-91 | names stay unique throughout every sequence of operations in which no create misses its name, and such a sequence is one of those with the guarantees of RunInv |
| FileSystemRuns.Create | pintos/src/filesys/filesys.c:45-59 | filesys_create on the device is one step of these sequences, whatever fails |
| FileSystemRuns.Open | pintos/src/filesys/filesys.c:66-77 | so is filesys_open |
| FileSystemRuns.Reopen | pintos/src/filesys/file.c:38-42 | and file_reopen |
| FileSystemRuns.Remove | pintos/src/filesys/filesys.c:83-91 | and filesys_remove |
| FileSystemRuns.Close | pintos/src/filesys/file.c:45-54 | and file_close |
| FileSystemRuns.DenyWrite | pintos/src/filesys/file.c:118-127 | and file_deny_write |
| FileSystemRuns.AllowWrite | pintos/src/filesys/file.c:132-141 | and file_allow_write |
| FileSystemLaws.OpenEffect | pintos/src/filesys/inode.c:111-151 | one more handle on that inode, which does not deny; all else stays |
| FileSystemLaws.CloseEffect | pintos/src/filesys/inode.c:163-186 | one handle fewer; the last drops the inode, and its sectors come free exactly if it was deleted |
| FileSystemLaws.DenyEffect | pintos/src/filesys/file.c:118-127 | the handle joins those that deny writes to its inode; allowing undoes it |
| FileSystemLaws.AllowEffect | pintos/src/filesys/file.c:132-141 | the handle leaves them; writes go through again exactly if it was the only one |
| FileSystemLaws.UnlinkEffect | pintos/src/filesys/directory.c:184-216 | exactly that slot is freed; a file nobody has open loses its sectors, an open one is marked and keeps them |
| FileSystemLaws.DeleteAndClose | pintos/src/filesys/inode.c:163-195 | deleting a file and closing a handle commute: a file may be deleted while it is open |
| FileSystem.FormatOrphans | pintos/src/filesys/filesys.c:94-102 | on a formatted volume every marked sector belongs to an inode |
| Conservation.CloseOrphans | pintos/src/filesys/inode.c:163-186 | closing orphans the sectors of an inode exactly when it is the last close of one that lost its entry without being removed |
| Conservation.RemoveOrphans | pintos/src/filesys/directory.c:184-216 | removing orphans nothing |
| Conservation.CreateOrphans | pintos/src/filesys/filesys.c:45-59 | creating orphans exactly the sectors of a file, not open, whose entry dir_add overwrites |
| Conservation.RefuseOrphans | pintos/src/filesys/filesys.c:48-55 | a create refused by dir_add orphans exactly the sectors it newly marked |
| Conservation.StepOrphans | pintos/src/filesys/filesys.c:45-91 | an operation adds to the orphans exactly the sectors it leaves, none of which was one; it never finds an owner for an orphan |
| Conservation.NextLeaves | pintos/src/filesys/filesys.c:45-91 | every operation leaves some set of sectors, so this accounts for all of them |
| Conservation.RunOrphans | pintos/src/filesys/filesys.c:45-91 | throughout every sequence of operations the marked sectors without an owner are those of the start and those the operations left, and their numbers add up |
| Conservation.TidyRun | pintos/src/filesys/filesys.c:45-91 | without a refused create of a nonempty file and without an overwritten entry, the marked sectors without an owner stay what they were: none, from a formatted volume |
| Conservation.DuplicateLosesSector | pintos/src/filesys/filesys.c:45-59 | on a device of 8 sectors, with every allocation and read succeeding, creating "a" and then "a" with one byte loses sector 6 |
| Hashes.TurnOffKeepsTop | pintos/src/lib/kernel/hash.c:328-333 | turn_off_least_1bit loses a bit but never the highest of several |
| Hashes.PowersOf2 | pintos/src/lib/kernel/hash.c:335-340 | is_power_of_2 holds exactly of the powers of two |
| Hashes.BestBucketCnt | pintos/src/lib/kernel/hash.c:364-372 | a power of two, at least 4, with fewer than four elements per bucket, and no more than half the elements unless 4 |
| Hashes.FlatDiffers | pintos/src/lib/kernel/hash.c:98-154 | no two elements anywhere in the table are equal |
| Hashes.RebuiltTable | pintos/src/lib/kernel/hash.c:386-410 | moving all elements to new buckets keeps each once, in its bucket |
| Hashes.HashTable.constructor | pintos/src/lib/kernel/hash.c:28-37 | an empty table of four buckets |
| Hashes.Create | pintos/src/lib/kernel/hash.c:24-42 | an empty table; false exactly when the buckets cannot be allocated |
| Hashes.HashTable.FindBucket | pintos/src/lib/kernel/hash.c:304-310 | the mask picks hash modulo the bucket count |
| Hashes.HashTable.FindElem | pintos/src/lib/kernel/hash.c:312-326 | the element of the bucket equal to the key, if any |
| Hashes.HashTable.Rehash | pintos/src/lib/kernel/hash.c:347-413 | contents never change; with memory elem_cnt < 4 * bucket_cnt afterwards; without it nothing changes |
| Hashes.HashTable.MoveAll | pintos/src/lib/kernel/hash.c:386-410 | the nested loops keep contents and invariant |
| Hashes.HashTable.FindsOne | pintos/src/lib/kernel/hash.c:312-326 | at most one element is equal to a key |
| Hashes.HashTable.BucketSearch | pintos/src/lib/kernel/hash.c:304-326 | searching one bucket is searching the table |
| Hashes.HashTable.Find | pintos/src/lib/kernel/hash.c:131-135 | the element of the table equal to the key, or none exactly when there is none |
| Hashes.HashTable.Insert | pintos/src/lib/kernel/hash.c:98-110 | adds exactly when no equal element is present, and returns the one that is |
| Hashes.HashTable.Replace | pintos/src/lib/kernel/hash.c:114-127 | the equal element, if any, is replaced and returned |
| Hashes.HashTable.Delete | pintos/src/lib/kernel/hash.c:144-154 | the equal element, if any, is removed and returned |
| Hashes.HashTable.Size | pintos/src/lib/kernel/hash.c:246-251 | the number of elements |
| Hashes.HashIterator.Next | pintos/src/lib/kernel/hash.c:218-235 | the next element of the rest of the table, or none at its end |
| Hashes.IterationComplete | pintos/src/lib/kernel/hash.c:182-235 | a whole iteration meets every element once |
| PageEntries.Indices | pintos/src/threads/pte.h:31-39 | the two indices are the page number's digits in base 1024 |
| PageEntries.RoundingDown | pintos/src/threads/vaddr.h:37-40 | the page boundary at or below |
| PageEntries.RoundingUp | pintos/src/threads/vaddr.h:32-35 | the page boundary at or above, or 0 in the last page |
| PageEntries.FrameIs | pintos/src/threads/pte.h:100-104 | the address bits are the frame number |
| PageEntries.SetFlag | pintos/src/threads/pte.h:61-68 | setting a flag changes that bit alone and not the frame |
| PageEntries.ClearFlag | pintos/src/threads/pte.h:61-68 | clearing a flag changes that bit alone and not the frame |
| PageEntries.UserEntry | pintos/src/threads/pte.h:83-98 | present entries for the frame, writable as asked, clean and not accessed, for user code exactly in the user form |
| PageEntries.EntryValues | pintos/src/threads/pte.h:64-98 | the numbers: the frame's address plus P, W if writable and U, and no other bit |
| PageEntries.DirectoryEntry | pintos/src/threads/pte.h:70-81 | a present nonzero entry that leads back to the table |
| PageDirs.TableAdded | pintos/src/userprog/pagedir.c:66-81 | a new page table maps nothing and changes no other entry |
| PageDirs.PteWritten | pintos/src/userprog/pagedir.c:109-116 | writing one page's entry changes no other page's and no directory entry |
| PageDirs.TranslationChanged | pintos/src/userprog/pagedir.c:98-157 | the flat map changes at that page alone, as its entry says |
| PageDirs.DestroyFrees | pintos/src/userprog/pagedir.c:27-48 | exactly the frames of user pages, the user page tables and the directory are freed |
| PageDirs.DestroyOnce | pintos/src/userprog/pagedir.c:27-48 | none is freed twice exactly when no frame is mapped twice or holds a table or the directory |
| PageDirs.PageDir.constructor | pintos/src/userprog/pagedir.c:19-22 | the kernel's mappings and no user page |
| PageDirs.Create | pintos/src/userprog/pagedir.c:16-23 | such a directory, or null exactly when there is no page |
| PageDirs.PageDir.LookupPage | pintos/src/userprog/pagedir.c:56-86 | the entry's place; null exactly when there is no table and none can be made; a table that is made is empty, with its directory entry present, writable and for users; nothing becomes mapped |
| PageDirs.PageDir.SetPage | pintos/src/userprog/pagedir.c:98-119 | exactly the target page is added to the flat map with its frame and permission; its entry has the bits P, U and W if writable, so is neither dirty nor accessed; no other entry and no other memory changes; fails, changing nothing, exactly for want of a table; the kernel half stays |
| PageDirs.PageDir.GetPage | pintos/src/userprog/pagedir.c:125-137 | the kernel address of the byte by the flat map, or null |
| PageDirs.PageDir.ClearPage | pintos/src/userprog/pagedir.c:143-157 | exactly the target page leaves the flat map; its entry keeps its other bits, and every other entry stays |
| PageDirs.PageDir.IsDirty | pintos/src/userprog/pagedir.c:163-168 | the dirty bit, false without an entry |
| PageDirs.PageDir.IsAccessed | pintos/src/userprog/pagedir.c:192-197 | the accessed bit, false without an entry |
| PageDirs.PageDir.SetDirty | pintos/src/userprog/pagedir.c:172-186 | that bit of that entry takes the value and the other 31 stay; so does every other entry and the flat map |
| PageDirs.PageDir.SetAccessed | pintos/src/userprog/pagedir.c:201-215 | that bit of that entry takes the value and the other 31 stay; so does every other entry and the flat map |
| PageDirs.PageDir.Destroy | pintos/src/userprog/pagedir.c:27-48 | the pages freed, in order |
| Stdlib.LargestOfThree | pintos/src/lib/stdlib.c:103-112 | the largest of an element and its children |
| Stdlib.Sinks | pintos/src/lib/stdlib.c:119-121 | swapping with the largest child moves the one violation down |
| Stdlib.Heapify | pintos/src/lib/stdlib.c:96-123 | a heap from the given element on, a permutation of the first elements, the rest untouched |
| Stdlib.HeapTop | pintos/src/lib/stdlib.c:146-151 | the first element of a heap is its largest |
| Stdlib.TopToEnd | pintos/src/lib/stdlib.c:147-151 | moving it behind the others leaves the rest no larger and a heap but for its first element |
| Stdlib.Sort | pintos/src/lib/stdlib.c:131-152 | a sorted permutation, for every total preorder |
| Stdlib.SortHeap | pintos/src/lib/stdlib.c:146-151 | the second loop sorts a heap |
| Stdlib.BinarySearch | pintos/src/lib/stdlib.c:184-207 | a matching position, or none exactly when none matches |
| Stdlib.ParseDigits | pintos/src/lib/stdlib.c:31-36 | the negated value of the digits, modulo 2^32 |
| Stdlib.Atoi | pintos/src/lib/stdlib.c:9-41 | the integer written, exactly when it fits in an int, INT_MIN included |
| Stdlib.DenotesText | pintos/src/lib/stdlib.c:9-41 | what that integer is: white space, at most one sign, then the digits up to the first other character |
| Stdio.LowDigitsValue | pintos/src/lib/stdio.c:501-513 | the digits put in the buffer, commas apart, denote the value |
| Stdio.LowDigitsLength | pintos/src/lib/stdio.c:501-513 | a number below 8^n takes at most n digits and as many commas |
| Stdio.BufferedValue | pintos/src/lib/stdio.c:501-524 | so do they after precision zeros and the octal zero |
| Stdio.BufferedFits | pintos/src/lib/stdio.c:475-524 | the buffer's 64 characters are enough |
| Stdio.FillDigits | pintos/src/lib/stdio.c:501-513 | the digit loop stays inside the buffer and leaves the number's digits |
| Stdio.FillZeros | pintos/src/lib/stdio.c:515-524 | the precision loop and the octal zero stay inside the buffer |
| Stdio.OutputDup | pintos/src/lib/stdio.c:550-555 | the character, that many times |
| Stdio.OutputBuffer | pintos/src/lib/stdio.c:543-544 | the buffer backwards |
| Stdio.FormatInteger | pintos/src/lib/stdio.c:469-547 | the specified text, with every buffer access in bounds and the pad count in 32 bits |
| Stdio.FormattedValue | pintos/src/lib/stdio.c:469-547 | the digits of the output, all else skipped, denote the value, for every base, flag, width and precision |
| Stdio.FormattedLength | pintos/src/lib/stdio.c:526-546 | the length is max(width, payload) exactly unless there is padding to do and both - and 0 are set, or the pad count wraps around |
| Stdio.PadCntIs | pintos/src/lib/stdio.c:526-529 | the pad count is the room left in the field, exactly unless the subtraction wraps around: then it is 2^32 more |
| Stdio.PaddedLength | pintos/src/lib/stdio.c:526-546 | the output is the payload and the padding, twice if both - and 0 are set |
| Stdio.CommaPlaces | pintos/src/lib/stdio.c:506-513 | commas stand exactly at every (group + 1)-th place from the low digit |
| Stdio.BufferedShape | pintos/src/lib/stdio.c:506-524 | the buffer holds the grouped digits without a leading zero, then zeros up to the precision or 63 characters, then the leading zero of octal where there is none |
| Stdio.FormattedGroups | pintos/src/lib/stdio.c:469-547 | in the output: commas exactly between full groups counted from the right end of the number, and zeros up to the precision |
| Stdio.FormattedSigns | pintos/src/lib/stdio.c:482-499 | a minus sign exactly for a negative signed number, a plus sign exactly when asked for and not negative, the prefix letter exactly for a nonzero hexadecimal number with # |
| Stdio.BareParts | pintos/src/lib/stdio.c:482-546 | without padding: the sign character asked for, 0x or 0X, then digits and commas, letters in the case of the conversion |
| Stdio.PaddingPlace | pintos/src/lib/stdio.c:526-546 | against the same conversion without a width: blanks before everything, with - after everything, with 0 zeros between sign and prefix and the digits |
| Stdio.AtoiInverts | pintos/src/lib/stdio.c:185-226 | atoi reads back what %d prints, for every int |
| Conversions.ParseFlags | pintos/src/lib/stdio.c:343-375 | the flags are the longest run of flag characters; - cancels 0 and + cancels space |
| Conversions.ParseConversion | pintos/src/lib/stdio.c:339-416 | flags, width and precision are the one reading of the format by its grammar; where it ends, how many arguments it took, and its meaning, a negative width setting - and any precision cancelling 0 |
| Conversions.SplitUnique | pintos/src/lib/stdio.c:339-416 | a format can be read in one way only |
| Conversions.SplitText | pintos/src/lib/stdio.c:339-416 | what was read is the front of the format |
| Conversions.BothPads | pintos/src/lib/stdio.c:372-416 | - and 0 are both set exactly for a 0 without a -, a negative width and no precision |
| Conversions.FlagByFlag | pintos/src/lib/stdio.c:339-416 | which flags, width and precision the conversion gets from each character and argument |
| Conversions.ArgumentOrder | pintos/src/lib/stdio.c:372-410 | a star takes the next argument, width before precision; digits stand for their number |
| Conversions.FormatPlace | pintos/src/lib/stdio.c:339-547 | over all formats, arguments and values: which side the padding is on, what it is made of, and which sign is printed |
| Conversions.DigitsNotNegative | pintos/src/lib/stdio.c:384-394 | a width in digits below 2^31 never sets both |
| Conversions.FieldLaw | pintos/src/lib/stdio.c:339-547 | over all formats, arguments and values the output is max(width, payload) characters exactly unless a negative width meets a 0 without precision and leaves room, or the width is INT_MIN and the payload empty |
| Conversions.PadFromWidth | pintos/src/lib/stdio.c:372-529 | over all formats and arguments the padding is the room in the field asked for, exactly unless that is 2^31 and the payload empty |
| Conversions.IntMinPrintsNothing | pintos/src/lib/stdio.c:372-547 | "%*.0d" with INT_MIN and 0 prints nothing |
| Conversions.NegativeStarPadsTwice | pintos/src/lib/stdio.c:339-547 | %0*d with the arguments -5 and 7 prints 9 characters in a field of 5 |
| Stdio.Vsnprintf | pintos/src/lib/stdio.c:25-52 | as many characters as fit, terminated unless the size is 0, nothing else touched; the full length is returned |
| Ustar.StripSafe | pintos/src/lib/ustar.c:56-73 | the name left starts with none of the prefixes, is neither empty nor "..", and is "." or an end of the name given |
| Ustar.StripIdempotent | pintos/src/lib/ustar.c:65-73 | stripping twice is stripping once |
| Ustar.StripPrefixes | pintos/src/lib/ustar.c:65-73 | the loop ends and computes the stripped name |
| Ustar.StripKeeps | pintos/src/lib/ustar.c:65-73 | a name without such a prefix is kept, but "" and ".." become "." |
| Ustar.StripDrops | pintos/src/lib/ustar.c:65-73 | /, ./ and ../ are dropped whatever follows |
| Ustar.StripAll | pintos/src/lib/ustar.c:65-73 | a name loses all its leading prefixes and nothing else |
| Ustar.Prefixes | pintos/src/lib/ustar.c:65-73 | every name is such prefixes and then a name without one, so this says what becomes of every name |
| Ustar.SumIndependent | pintos/src/lib/ustar.c:35-54 | the checksum does not depend on the checksum field |
| Ustar.SumChange | pintos/src/lib/ustar.c:35-54 | any other byte counts in full |
| Ustar.SumSpaces | pintos/src/lib/ustar.c:35-54 | the field itself counts as spaces: 512 spaces sum to 512 times 32 |
| Ustar.ParseAccepts | pintos/src/lib/ustar.c:181-227 | a header is read as an entry exactly when magic, version, checksum, name, type and size are in order, and what the entry is; it is the end exactly when all bytes are 0 |
| Ustar.ChecksumHolds | pintos/src/lib/ustar.c:202-207 | an entry is read only from a header whose checksum field holds its sum |
| Ustar.OneByteDetected | pintos/src/lib/ustar.c:181-227 | one byte changed outside the checksum field makes a good header refused |
| Ustar.CalculateChksum | pintos/src/lib/ustar.c:35-54 | the sum of the bytes, with the field read as spaces, in 32 bits without wrapping |
| Ustar.ParseOctalField | pintos/src/lib/ustar.c:129-162 | the parse of a field, with its overflow and format errors |
| Ustar.ParseOctalIff | pintos/src/lib/ustar.c:129-162 | accepted exactly: octal digits, then a space or a null byte, with a value below 2^32, which is the result |
| Ustar.ParseDigitsOf | pintos/src/lib/ustar.c:129-162 | octal digits and a null byte are read as their value |
| Ustar.OctalField | pintos/src/lib/ustar.c:102-115 | a number that fits is printed in exactly its field, in octal digits that denote it |
| Ustar.FieldReads | pintos/src/lib/ustar.c:102-162 | printing and parsing an octal field are inverse |
| Ustar.FillHeader | pintos/src/lib/ustar.c:99-112 | every field but the checksum is in its place |
| Ustar.OtherFields | pintos/src/lib/ustar.c:99-112 | permissions, owner and time read back as 0644 or 0755, root and 1136102400 |
| Ustar.MakeHeader | pintos/src/lib/ustar.c:82-118 | fails, changing nothing, exactly on a stripped name longer than 99; otherwise the header with its checksum |
| Ustar.IsAllZeros | pintos/src/lib/ustar.c:164-173 | whether every byte is 0 |
| Ustar.ParseHeader | pintos/src/lib/ustar.c:181-227 | the parse of any 512 bytes, with each error in its order |
| Ustar.RoundTrip | pintos/src/lib/ustar.c:82-227 | parsing the header made gives the stripped name, the type and the size, 0 for a directory, exactly when size >= 0 or it is a directory; otherwise "file too large" |

## Left out

- System calls, process start-up, waiting and argument passing (userprog/syscall.c, process.c).
- Devices, interrupts, context switch and boot code; a device is an array of sectors, a switch is a
  change of the running thread.
- Priorities, the USERPROG part of thread_exit, and thread names, stacks and statistics.
- list_max, list_min, list_size and the remaining one-loop list functions.
- bitmap_count and printing.
- The locks inside malloc and palloc: each call is one step, as under those locks.
- calloc, the zeroing and poisoning of memory, and the PAL_ZERO and PAL_ASSERT flags.
- hash_clear, hash_destroy, hash_apply and the hash functions themselves.
- The translation lookaside buffer, and accessed and dirty bits the processor sets by itself.
- String conversions, length modifiers and the loop over format strings.
- Pintos user programs, tests and build tools.
- Allocators.Allocator.Realloc: does not model the copied bytes, only how many and between which blocks.
- Volumes.Volume.constructor: requires a device on which formatting does not panic, and takes the free map's writes while formatting to have memory.
- Stdio.Vsnprintf: takes the characters the conversions output, not the format and its arguments.
- Stdio.FormatInteger: takes overflow of the pad count to wrap, which ISO C99 leaves undefined.
- Conversions.ParseConversion: takes width and precision digits beyond an int to wrap, which ISO C99 leaves undefined.
- Hashes.HashTable.FindBucket: chains are sequences; the links under them are those of Lists.
- Stdlib.Atoi: takes int overflow to wrap, which ISO C99 leaves undefined.
- Arithmetic.Sdiv64: takes the quotient 2^63 to wrap, which ISO C99 leaves undefined.
- Stdlib.DoSwap: swaps elements, not their bytes one by one.
