/** What each call of threads/synch.c has done when it returns, whatever other threads do between
    its regions. */
module SynchCalls {
  import opened Options
  import opened Sequences
  import Threads
  import opened Synch
  import opened SynchProofs
  import opened SynchLaws

  // ----- calls and returns

  /** The call thread `t` is in returns with the last of `es`, and not before. */
  ghost predicate Returns(k: State, es: seq<Event>, t: Tid)
    requires Runs(k, es)
    decreases |es|
  {
    t < |k.pc| && if es == [] then k.pc[t] == Outside else k.pc[t] != Outside && Returns(Step(k, es[0]), es[1..], t)
  }

  /** Thread `t` runs its next region. */
  ghost predicate Moves(k: State, e: Event, t: Tid) {
    e == Continue && k.sched.running == t
  }

  /** Thread `t` completes a sema_down of `s`. */
  ghost predicate Takes(k: State, e: Event, t: Tid, s: SemaId)
    requires Inv(k) && s < |k.semas|
  {
    Moves(k, e, t) && Downs(k, e, s)
  }

  /** Thread `t` ups `s` in a lock_release or a cond_signal. */
  ghost predicate Gives(k: State, e: Event, t: Tid, s: SemaId)
    requires Inv(k)
  {
    Moves(k, e, t) && Ups(k, e, s)
  }

  ghost function TakesIn(k: State, es: seq<Event>, t: Tid, s: SemaId): nat
    requires Runs(k, es) && s < |k.semas|
    decreases |es|
  {
    if es == [] then 0
    else StepSema(k, es[0], s); One(Takes(k, es[0], t, s)) + TakesIn(Step(k, es[0]), es[1..], t, s)
  }

  ghost function GivesIn(k: State, es: seq<Event>, t: Tid, s: SemaId): nat
    requires Runs(k, es)
    decreases |es|
  {
    if es == [] then 0 else One(Gives(k, es[0], t, s)) + GivesIn(Step(k, es[0]), es[1..], t, s)
  }

  /** Nothing goes away, and the other threads stay where they are. */
  ghost predicate Fixed(k: State, k': State) {
    && |k.pc| <= |k'.pc| && |k.semas| <= |k'.semas| && |k.locks| <= |k'.locks| && |k.conds| <= |k'.conds|
    && (forall u :: 0 <= u < |k.pc| && u != k.sched.running ==> k'.pc[u] == k.pc[u])
    && (forall l :: 0 <= l < |k.locks| ==> k'.locks[l].sema == k.locks[l].sema)
    && (forall c :: 0 <= c < |k.conds| ==> k'.conds[c].lock == k.conds[c].lock)
  }

  /** Only a thread itself moves it through a call, and objects keep what they are made of. */
  lemma StepFixed(k: State, e: Event, t: Tid)
    requires Inv(k) && Enabled(k, e) && t < |k.pc| && k.pc[t] != Outside
    ensures Fixed(k, Step(k, e)) && (!Moves(k, e, t) ==> Step(k, e).pc[t] == k.pc[t])
  {
    hide Threads.Apply, Threads.Sane, Queues, NoLostWakeup, Exclusive, Balanced, Counts, Signals, PopWaiter, Proceed,
      PcOk;
    Threads.Basics(k.sched);
    if e.Signal? { PopFixed(k, e.c, false); }
    if e.TryAcquire? { assert LockOk(k, e.l); }
    if e == Continue { ProceedFixed(k); }
  }

  lemma PopFixed(k: State, c: CondId, all: bool)
    requires Inv(k) && c < |k.conds|
    ensures Fixed(k, PopWaiter(k, c, all))
  {
    hide Threads.Apply, Threads.Sane, Queues, NoLostWakeup, Exclusive, Balanced, Counts, PcOk;
    Threads.Basics(k.sched);
    if k.conds[c].waiters != [] { assert k.conds[c].waiters[0] in k.conds[c].waiters; }
  }

  lemma ProceedFixed(k: State)
    requires Inv(k) && k.pc[k.sched.running] != Outside
    ensures Fixed(k, Proceed(k))
  {
    hide Threads.Apply, Threads.Sane, Queues, NoLostWakeup, Exclusive, Balanced, Counts, Signals, PopWaiter;
    Threads.Basics(k.sched);
    var t := k.sched.running;
    assert PcOk(k, t);
    if k.pc[t].Broadcasting? { PopFixed(k, k.pc[t].c, true); }
    if k.pc[t].Releasing? { assert LockOk(k, k.pc[t].l); }
  }

  // ----- sema_down

  ghost predicate InDown(k: State, t: Tid, s: SemaId) {
    t < |k.pc| && k.pc[t].Downing? && k.pc[t].s == s && k.pc[t].after == ToCaller && s < |k.semas|
  }

  lemma DownStep(k: State, e: Event, t: Tid, s: SemaId)
    requires Inv(k) && Enabled(k, e) && InDown(k, t, s)
    ensures if Takes(k, e, t, s) then t < |Step(k, e).pc| && Step(k, e).pc[t] == Outside && s < |Step(k, e).semas|
            else InDown(Step(k, e), t, s)
  {
    hide Threads.Apply, Threads.Sane, Queues, NoLostWakeup, Exclusive, Balanced, Counts, Signals;
    Threads.Basics(k.sched);
    assert PcOk(k, t);
    StepFixed(k, e, t);
    if !Moves(k, e, t) { hide Step; }
  }

  lemma {:induction false} InDownReturns(k: State, t: Tid, s: SemaId, es: seq<Event>)
    requires Runs(k, es) && InDown(k, t, s) && Returns(k, es, t)
    ensures TakesIn(k, es, t, s) == 1
    decreases |es|
  {
    hide Inv, Enabled, Step, Takes;
    DownStep(k, es[0], t, s);
    if !Takes(k, es[0], t, s) {
      InDownReturns(Step(k, es[0]), t, s, es[1..]);
    }
  }

  /** Event `e` is a call of the running thread, and `es` runs from there to its return. */
  ghost predicate Call(k: State, e: Event, es: seq<Event>) {
    Inv(k) && Enabled(k, e) && Runs(Step(k, e), es) && Returns(Step(k, e), es, k.sched.running)
  }

  /** sema_down returns having taken one from the value, once. */
  lemma SemaDown(k: State, s: SemaId, es: seq<Event>)
    requires Call(k, Down(s), es)
    ensures s < |Step(k, Down(s)).semas| && TakesIn(Step(k, Down(s)), es, k.sched.running, s) == 1
  {
    hide Threads.Apply, Threads.Sane, Queues, NoLostWakeup, Exclusive, Balanced, Counts, Signals, Runs, Returns,
      TakesIn, PcOk;
    Threads.Basics(k.sched);
    InDownReturns(Step(k, Down(s)), k.sched.running, s, es);
  }

  // ----- lock_acquire

  ghost predicate InAcquire(k: State, t: Tid, l: LockId) {
    && t < |k.pc| && l < |k.locks| && k.locks[l].sema < |k.semas|
    && (k.pc[t] == Acquired(l, None) ||
        (k.pc[t].Downing? && k.pc[t].s == k.locks[l].sema && k.pc[t].after == ToHolder(l, None)))
  }

  /** Thread `t` is outside, and the holder of `l`. */
  ghost predicate Has(k: State, t: Tid, l: LockId) {
    t < |k.pc| && t < |k.holds| && l < |k.locks| &&
    k.pc[t] == Outside && k.locks[l].holder == Some(t) && l in k.holds[t]
  }

  lemma AcquireStep(k: State, e: Event, t: Tid, l: LockId)
    requires Inv(k) && Enabled(k, e) && InAcquire(k, t, l)
    ensures var k', s := Step(k, e), k.locks[l].sema;
      && |k.semas| <= |k'.semas| && l < |k'.locks| && k'.locks[l].sema == s
      && (Takes(k, e, t, s) ==> !k.pc[t].Acquired?)
      && if Moves(k, e, t) && k.pc[t].Acquired? then Has(k', t, l)
         else InAcquire(k', t, l) && (k'.pc[t].Acquired? <==> k.pc[t].Acquired? || Takes(k, e, t, s))
  {
    hide Threads.Apply, Threads.Sane, Queues, NoLostWakeup, Exclusive, Balanced, Counts, Signals;
    Threads.Basics(k.sched);
    assert PcOk(k, t);
    StepFixed(k, e, t);
    if !Moves(k, e, t) { hide Step; }
  }

  lemma {:induction false} InAcquireReturns(k: State, t: Tid, l: LockId, es: seq<Event>)
    requires Runs(k, es) && InAcquire(k, t, l) && Returns(k, es, t)
    ensures TakesIn(k, es, t, k.locks[l].sema) == One(!k.pc[t].Acquired?) && Has(After(k, es), t, l)
    decreases |es|
  {
    hide Inv, Enabled, Step, Takes, Has;
    AcquireStep(k, es[0], t, l);
    if !(Moves(k, es[0], t) && k.pc[t].Acquired?) {
      InAcquireReturns(Step(k, es[0]), t, l, es[1..]);
    } else {
      HasIsOutside(Step(k, es[0]), t, l);
    }
  }

  lemma HasIsOutside(k: State, t: Tid, l: LockId)
    requires Has(k, t, l)
    ensures t < |k.pc| && k.pc[t] == Outside
  {
  }

  /** lock_acquire returns holding the lock, having downed its semaphore once. */
  lemma LockAcquire(k: State, l: LockId, es: seq<Event>)
    requires Call(k, Acquire(l), es)
    ensures Has(After(Step(k, Acquire(l)), es), k.sched.running, l)
    ensures l < |k.locks| && k.locks[l].sema < |Step(k, Acquire(l)).semas|
    ensures TakesIn(Step(k, Acquire(l)), es, k.sched.running, k.locks[l].sema) == 1
  {
    hide Threads.Apply, Threads.Sane, Queues, NoLostWakeup, Exclusive, Balanced, Counts, Signals, Runs, Returns,
      TakesIn, PcOk, Has;
    Threads.Basics(k.sched);
    assert LockOk(k, l);
    InAcquireReturns(Step(k, Acquire(l)), k.sched.running, l, es);
  }

  /** lock_try_acquire gets the lock exactly when nobody is inside; otherwise it returns at once and
      changes nothing. */
  lemma LockTryAcquire(k: State, l: LockId, es: seq<Event>)
    requires Call(k, TryAcquire(l), es)
    ensures l < |k.locks|
    ensures Inside(k, l) == {} ==> Has(After(Step(k, TryAcquire(l)), es), k.sched.running, l)
    ensures Inside(k, l) != {} ==> Step(k, TryAcquire(l)) == k && es == []
  {
    hide Threads.Apply, Threads.Sane, Queues, NoLostWakeup, Balanced, Counts, Signals, Runs, TakesIn, PcOk, Has,
      Inside;
    Threads.Basics(k.sched);
    var k1, t := Step(k, TryAcquire(l)), k.sched.running;
    assert LockOk(k, l);
    assert |Inside(k, l)| == 0 <==> Inside(k, l) == {};
    if Inside(k, l) == {} {
      assert k1.pc[t] == Acquired(l, None);
      InAcquireReturns(k1, t, l, es);
    }
  }

  // ----- lock_release

  ghost predicate InRelease(k: State, t: Tid, l: LockId) {
    t < |k.pc| && t < |k.holds| && l < |k.locks| && k.locks[l].sema < |k.semas| && k.pc[t] == Releasing(l, None)
  }

  lemma ReleaseStep(k: State, e: Event, t: Tid, l: LockId)
    requires Inv(k) && Enabled(k, e) && InRelease(k, t, l)
    ensures var k', s := Step(k, e), k.locks[l].sema;
      && l < |k'.locks| && k'.locks[l].sema == s && (Gives(k, e, t, s) <==> Moves(k, e, t))
      && t < |k'.pc| && t < |k'.holds| && l !in k'.holds[t]
      && if Moves(k, e, t) then k'.pc[t] == Outside else InRelease(k', t, l)
  {
    hide Threads.Apply, Threads.Sane, Queues, NoLostWakeup, Balanced, Counts, Signals;
    Threads.Basics(k.sched);
    assert PcOk(k, t);
    assert LockOk(k, l);
    StepInv(k, e);
    StepFixed(k, e, t);
    if !Moves(k, e, t) { hide Step; }
  }

  lemma {:induction false} InReleaseReturns(k: State, t: Tid, l: LockId, es: seq<Event>)
    requires Runs(k, es) && InRelease(k, t, l) && Returns(k, es, t)
    ensures var k' := After(k, es);
      GivesIn(k, es, t, k.locks[l].sema) == 1 && t < |k'.holds| && l !in k'.holds[t]
    decreases |es|
  {
    hide Inv, Enabled, Step, Gives;
    ReleaseStep(k, es[0], t, l);
    if !Moves(k, es[0], t) {
      InReleaseReturns(Step(k, es[0]), t, l, es[1..]);
    }
  }

  /** lock_release returns without the lock, having upped its semaphore once. */
  lemma LockRelease(k: State, l: LockId, es: seq<Event>)
    requires Call(k, Release(l), es)
    ensures l < |k.locks| && GivesIn(Step(k, Release(l)), es, k.sched.running, k.locks[l].sema) == 1
    ensures var k' := After(Step(k, Release(l)), es); k.sched.running < |k'.holds| && l !in k'.holds[k.sched.running]
  {
    hide Threads.Apply, Threads.Sane, Queues, NoLostWakeup, Exclusive, Balanced, Counts, Signals, Runs, Returns,
      GivesIn, PcOk;
    Threads.Basics(k.sched);
    assert LockOk(k, l);
    InReleaseReturns(Step(k, Release(l)), k.sched.running, l, es);
  }

  // ----- cond_wait

  /** The four things left to do, in order: drop the lock and up its semaphore, down the caller's
      own semaphore, down the lock's, and note the holder. */
  datatype Left = Left(up: bool, own: bool, down: bool)

  /** Thread `t` is in a cond_wait on `c` with semaphore `w`. */
  ghost predicate InWait(k: State, t: Tid, c: CondId, w: SemaId, left: Left) {
    && t < |k.pc| && c < |k.conds| && k.conds[c].lock < |k.locks| && w < |k.semas| && k.semas[w].kind.Waiter?
    && k.locks[k.conds[c].lock].sema < |k.semas| && k.locks[k.conds[c].lock].sema != w
    && WaitAt(k.pc[t], c, w, k.conds[c].lock, k.locks[k.conds[c].lock].sema, left)
  }

  /** Where in cond_wait a thread stands, with condition `c`, its semaphore `w`, and lock `l` with `s`. */
  predicate WaitAt(pc: Pc, c: CondId, w: SemaId, l: LockId, s: SemaId, left: Left) {
    match pc
    case Enqueued(d, v) => d == c && v == w && left == Left(true, true, true)
    case Releasing(m, wait) => m == l && wait == Some((c, w)) && left == Left(true, true, true)
    case Downing(r, _, ToReacquire(d)) => d == c && r == w && left == Left(false, true, true)
    case Downing(r, _, ToHolder(m, from)) => m == l && r == s && from == Some(c) && left == Left(false, false, true)
    case Acquired(m, from) => m == l && from == Some(c) && left == Left(false, false, false)
    case _ => false
  }

  /** Once `up`, `own` or `down` is done it is done. */
  function Done(left: Left, up: bool, own: bool, down: bool): Left {
    Left(left.up && !up, left.own && !own, left.down && !down)
  }

  lemma WaitStep(k: State, e: Event, t: Tid, c: CondId, w: SemaId, left: Left)
    requires Inv(k) && Enabled(k, e) && InWait(k, t, c, w, left)
    ensures var k', l := Step(k, e), k.conds[c].lock; var s := k.locks[l].sema;
      && |k.semas| <= |k'.semas| && l < |k'.locks| && c < |k'.conds| && k'.conds[c].lock == l && k'.locks[l].sema == s
      && (Gives(k, e, t, s) ==> left.up) && (Takes(k, e, t, w) ==> left.own) && (Takes(k, e, t, s) ==> left.down)
      && if Moves(k, e, t) && !left.down then Has(k', t, l)
         else InWait(k', t, c, w, Done(left, Gives(k, e, t, s), Takes(k, e, t, w), Takes(k, e, t, s)))
  {
    hide Threads.Apply, Threads.Sane, Queues, NoLostWakeup, Exclusive, Balanced, Counts, Signals;
    Threads.Basics(k.sched);
    assert PcOk(k, t);
    assert LockOk(k, k.conds[c].lock);
    StepFixed(k, e, t);
    StepKinds(k, e, w);
    if !Moves(k, e, t) { hide Step, WaitAt; }
  }

  /** A stack semaphore stays that of its cond_wait, and goes through its phases in order. */
  lemma StepKinds(k: State, e: Event, w: SemaId)
    requires Inv(k) && Enabled(k, e) && w < |k.semas| && k.semas[w].kind.Waiter?
    ensures w < |Step(k, e).semas| && Advances(k.semas[w].kind, Step(k, e).semas[w].kind)
  {
    hide Threads.Apply, Threads.Sane, Queues, NoLostWakeup, Exclusive, Balanced, Counts, Signals, PopWaiter, Proceed,
      PcOk;
    Threads.Basics(k.sched);
    if TouchesNone(e) {
      QuietSema(k, e, w);
    } else if e.Signal? {
      PopKinds(k, e.c, false, w);
    } else if e == Continue {
      ProceedKinds(k, w);
    } else if e.TryAcquire? {
      assert LockOk(k, e.l);
    }
  }

  function Rank(p: Phase): nat {
    match p case Queued => 0 case Popped => 1 case Upped => 2 case Consumed => 3
  }

  ghost predicate Advances(a: Kind, b: Kind)
    requires a.Waiter?
  {
    b.Waiter? && b.c == a.c && b.t == a.t && Rank(a.phase) <= Rank(b.phase)
  }

  lemma PopKinds(k: State, c: CondId, all: bool, w: SemaId)
    requires Inv(k) && c < |k.conds| && w < |k.semas| && k.semas[w].kind.Waiter?
    ensures w < |PopWaiter(k, c, all).semas| && Advances(k.semas[w].kind, PopWaiter(k, c, all).semas[w].kind)
  {
    hide Threads.Apply, Threads.Sane, Queues, NoLostWakeup, Exclusive, Balanced, Counts, PcOk;
    if k.conds[c].waiters != [] {
      var v := k.conds[c].waiters[0];
      assert v in k.conds[c].waiters;
      assert k.semas[v].kind.phase == Queued;
    }
  }

  lemma ProceedKinds(k: State, w: SemaId)
    requires Inv(k) && k.pc[k.sched.running] != Outside && w < |k.semas| && k.semas[w].kind.Waiter?
    ensures w < |Proceed(k).semas| && Advances(k.semas[w].kind, Proceed(k).semas[w].kind)
  {
    hide Threads.Apply, Threads.Sane, Queues, NoLostWakeup, Exclusive, Balanced, Counts, Signals, PopWaiter;
    Threads.Basics(k.sched);
    var t := k.sched.running;
    assert PcOk(k, t);
    if k.pc[t].Broadcasting? { PopKinds(k, k.pc[t].c, true, w); }
    if k.pc[t].Releasing? { assert LockOk(k, k.pc[t].l); }
  }

  lemma {:induction false} InWaitReturns(k: State, t: Tid, c: CondId, w: SemaId, left: Left, es: seq<Event>)
    requires Runs(k, es) && InWait(k, t, c, w, left) && Returns(k, es, t)
    ensures var l := k.conds[c].lock; var s := k.locks[l].sema;
      && GivesIn(k, es, t, s) == One(left.up) && TakesIn(k, es, t, w) == One(left.own)
      && TakesIn(k, es, t, s) == One(left.down) && Has(After(k, es), t, l)
    decreases |es|
  {
    hide Inv, Enabled, Step, Takes, Gives, Has;
    var e, l := es[0], k.conds[c].lock;
    var s := k.locks[l].sema;
    WaitStep(k, e, t, c, w, left);
    if !(Moves(k, e, t) && !left.down) {
      InWaitReturns(Step(k, e), t, c, w, Done(left, Gives(k, e, t, s), Takes(k, e, t, w), Takes(k, e, t, s)), es[1..]);
    } else {
      HasIsOutside(Step(k, e), t, l);
    }
  }

  lemma {:induction false} TakesAreDowns(k: State, es: seq<Event>, t: Tid, s: SemaId)
    requires Runs(k, es) && s < |k.semas|
    ensures TakesIn(k, es, t, s) <= DownsIn(k, es, s)
    decreases |es|
  {
    hide Inv, Enabled, Step, Downs, Moves;
    if es != [] {
      StepSema(k, es[0], s);
      TakesAreDowns(Step(k, es[0]), es[1..], t, s);
    }
  }

  /** cond_wait joins the back of the list with a semaphore of its own. It returns holding the lock
      again, having upped the lock's semaphore once, downed its own once, which takes a signal, and
      downed the lock's once. */
  lemma CondWait(k: State, c: CondId, es: seq<Event>)
    requires Call(k, Wait(c), es)
    ensures c < |k.conds| && k.conds[c].lock < |k.locks|
    ensures var k1, w, l, t := Step(k, Wait(c)), |k.semas|, k.conds[c].lock, k.sched.running; var s := k.locks[l].sema;
      && w < |k1.semas| && s < |k1.semas| && k1.semas[w].value == 0 && k1.conds[c].waiters == k.conds[c].waiters + [w]
      && GivesIn(k1, es, t, s) == 1 && TakesIn(k1, es, t, w) == 1 && TakesIn(k1, es, t, s) == 1
      && UpsIn(k1, es, w) > 0 && Has(After(k1, es), t, l)
  {
    hide Threads.Apply, Threads.Sane, Queues, NoLostWakeup, Exclusive, Balanced, Counts, Signals, Runs, Returns,
      GivesIn, TakesIn, PcOk, Has, UpsIn, DownsIn, WakesIn, SleepersIn, After;
    Threads.Basics(k.sched);
    assert LockOk(k, k.conds[c].lock);
    var k1 := Step(k, Wait(c));
    InWaitReturns(k1, k.sched.running, c, |k.semas|, Left(true, true, true), es);
    TakesAreDowns(k1, es, k.sched.running, |k.semas|);
    RunSema(k1, es, |k.semas|);
  }

  // ----- cond_signal and cond_broadcast

  /** Waiter `w` was taken off its list and upped. */
  ghost predicate Sent(k: State, w: SemaId) {
    w < |k.semas| && k.semas[w].kind.Waiter? && Rank(k.semas[w].kind.phase) >= 2
  }

  lemma SignalStep(k: State, e: Event, t: Tid, c: CondId, w: SemaId, all: bool)
    requires Inv(k) && Enabled(k, e) && t < |k.pc| && k.pc[t] == Signaling(c, w, all)
    ensures t < |Step(k, e).pc|
    ensures !Moves(k, e, t) ==> Step(k, e).pc[t] == k.pc[t]
    ensures Moves(k, e, t) ==> var k' := Step(k, e);
      && k'.pc[t] == (if all then Broadcasting(c) else Outside)
      && w < |k'.semas| && k'.semas[w].value == 1 && Sent(k', w)
  {
    hide Threads.Apply, Threads.Sane, Queues, NoLostWakeup, Exclusive, Balanced, Counts;
    Threads.Basics(k.sched);
    assert PcOk(k, t);
    StepFixed(k, e, t);
    if !Moves(k, e, t) { hide Step; }
  }

  lemma {:induction false} InSignalReturns(k: State, t: Tid, c: CondId, w: SemaId, es: seq<Event>)
    requires Runs(k, es) && t < |k.pc| && k.pc[t] == Signaling(c, w, false) && Returns(k, es, t)
    ensures var k' := After(k, es); w < |k'.semas| && k'.semas[w].value == 1 && Sent(k', w)
    decreases |es|
  {
    hide Inv, Enabled, Step, Sent;
    SignalStep(k, es[0], t, c, w, false);
    if !Moves(k, es[0], t) {
      InSignalReturns(Step(k, es[0]), t, c, w, es[1..]);
    }
  }

  /** cond_signal takes the front waiter off the list and returns with that waiter's semaphore upped;
      with nobody waiting it returns at once and changes nothing. */
  lemma CondSignal(k: State, c: CondId, es: seq<Event>)
    requires Call(k, Signal(c), es)
    ensures c < |k.conds|
    ensures k.conds[c].waiters == [] ==> Step(k, Signal(c)) == k && es == []
    ensures k.conds[c].waiters != [] ==>
      var w, k1 := k.conds[c].waiters[0], Step(k, Signal(c)); var k' := After(k1, es);
      && c < |k1.conds| && k.conds[c].waiters == [w] + k1.conds[c].waiters
      && w < |k'.semas| && k'.semas[w].value == 1 && Sent(k', w)
  {
    hide Threads.Apply, Threads.Sane, Queues, NoLostWakeup, Exclusive, Balanced, Counts, Runs, PcOk, Sent;
    Threads.Basics(k.sched);
    if k.conds[c].waiters != [] {
      assert k.conds[c].waiters[0] in k.conds[c].waiters;
      InSignalReturns(Step(k, Signal(c)), k.sched.running, c, k.conds[c].waiters[0], es);
    }
  }

  /** Thread `t` broadcasts: the first `n` of the waiters `ws` are off the list, and upped, all but
      the one it is about to up. */
  ghost predicate InBroadcast(k: State, t: Tid, c: CondId, ws: seq<SemaId>, n: nat) {
    && t < |k.pc| && c < |k.conds| && n <= |ws| && k.conds[c].waiters == ws[n..]
    && (k.pc[t] == Broadcasting(c) || (n > 0 && k.pc[t] == Signaling(c, ws[n - 1], true)))
    && forall i :: 0 <= i < (if k.pc[t].Broadcasting? then n else n - 1) ==> Sent(k, ws[i])
  }

  /** Nobody else joins or leaves the list, for want of the lock. */
  lemma ListHeld(k: State, e: Event, t: Tid, c: CondId)
    requires Inv(k) && Enabled(k, e) && t < |k.pc| && c < |k.conds| && !Moves(k, e, t)
    requires k.pc[t] == Broadcasting(c) || (k.pc[t].Signaling? && k.pc[t].c == c)
    ensures c < |Step(k, e).conds| && Step(k, e).conds[c].waiters == k.conds[c].waiters
  {
    hide Step, Threads.Apply, Threads.Sane, Queues, NoLostWakeup, Exclusive, Balanced, Counts, Signals, PcOk;
    Threads.Basics(k.sched);
    SenderHolds(k, t, c);
    if k.pc[k.sched.running] == Broadcasting(c) { SenderHolds(k, k.sched.running, c); }
    StepCond(k, e, c);
  }

  lemma SenderHolds(k: State, t: Tid, c: CondId)
    requires Inv(k) && t < |k.pc| && c < |k.conds| && k.conds[c].lock < |k.locks|
    requires k.pc[t] == Broadcasting(c) || (k.pc[t].Signaling? && k.pc[t].c == c)
    ensures k.locks[k.conds[c].lock].holder == Some(t)
  {
    hide Threads.Sane, Queues, NoLostWakeup, Balanced, Counts, Signals;
    assert PcOk(k, t);
    assert k.conds[c].lock in k.holds[t];
  }

  lemma SentStays(k: State, e: Event, w: SemaId)
    requires Inv(k) && Enabled(k, e) && Sent(k, w)
    ensures Sent(Step(k, e), w)
  {
    hide Inv, Enabled, Step;
    StepKinds(k, e, w);
  }

  lemma BroadcastWaits(k: State, e: Event, t: Tid, c: CondId, ws: seq<SemaId>, n: nat)
    requires Inv(k) && Enabled(k, e) && InBroadcast(k, t, c, ws, n) && !Moves(k, e, t)
    ensures InBroadcast(Step(k, e), t, c, ws, n)
  {
    hide Inv, Enabled, Step, Sent;
    StepFixed(k, e, t);
    ListHeld(k, e, t, c);
    forall i | 0 <= i < (if k.pc[t].Broadcasting? then n else n - 1) ensures Sent(Step(k, e), ws[i]) {
      SentStays(k, e, ws[i]);
    }
  }

  lemma BroadcastMoves(k: State, t: Tid, c: CondId, ws: seq<SemaId>, n: nat)
    requires Inv(k) && Enabled(k, Continue) && InBroadcast(k, t, c, ws, n) && k.sched.running == t
    ensures var k' := Step(k, Continue);
      && (k.pc[t].Broadcasting? && n < |ws| ==> InBroadcast(k', t, c, ws, n + 1))
      && (k.pc[t].Broadcasting? && n == |ws| ==> k' == SetPc(k, Outside))
      && (k.pc[t].Signaling? ==> InBroadcast(k', t, c, ws, n))
  {
    hide Threads.Apply, Threads.Sane, Queues, NoLostWakeup, Exclusive, Balanced, Counts, Signals, PcOk, Sent, Step,
      Proceed;
    Threads.Basics(k.sched);
    var k' := Step(k, Continue);
    StepCond(k, Continue, c);
    forall i | 0 <= i < (if k.pc[t].Broadcasting? then n else n - 1) ensures Sent(k', ws[i]) {
      SentStays(k, Continue, ws[i]);
    }
    if k.pc[t].Signaling? {
      SignalStep(k, Continue, t, c, ws[n - 1], true);
    } else {
      BroadcastPops(k, t, c);
    }
  }

  lemma BroadcastPops(k: State, t: Tid, c: CondId)
    requires Inv(k) && k.sched.running == t < |k.pc| && k.pc[t] == Broadcasting(c) && c < |k.conds|
    ensures var k' := Step(k, Continue); var ws := k.conds[c].waiters;
      && (ws != [] ==> |k'.pc| == |k.pc| && k'.pc[t] == Signaling(c, ws[0], true))
      && (ws == [] ==> k' == SetPc(k, Outside))
  {
    hide Threads.Apply, Threads.Sane, Queues, NoLostWakeup, Exclusive, Balanced, Counts, Signals;
    Threads.Basics(k.sched);
  }

  lemma {:induction false} InBroadcastReturns(k: State, t: Tid, c: CondId, ws: seq<SemaId>, n: nat, es: seq<Event>)
    requires Runs(k, es) && InBroadcast(k, t, c, ws, n) && Returns(k, es, t)
    ensures var k' := After(k, es); c < |k'.conds| && k'.conds[c].waiters == [] && forall w :: w in ws ==> Sent(k', w)
    decreases |es|
  {
    hide Inv, Enabled, Step, Sent;
    var e := es[0];
    if !Moves(k, e, t) {
      BroadcastWaits(k, e, t, c, ws, n);
      InBroadcastReturns(Step(k, e), t, c, ws, n, es[1..]);
    } else {
      BroadcastMoves(k, t, c, ws, n);
      if k.pc[t].Signaling? {
        InBroadcastReturns(Step(k, e), t, c, ws, n, es[1..]);
      } else if n < |ws| {
        InBroadcastReturns(Step(k, e), t, c, ws, n + 1, es[1..]);
      } else {
        forall i | 0 <= i < n ensures Sent(Step(k, e), ws[i]) { SentStays(k, e, ws[i]); }
      }
    }
  }

  /** cond_broadcast returns with the list empty and everyone who was on it upped. */
  lemma CondBroadcast(k: State, c: CondId, es: seq<Event>)
    requires Call(k, Broadcast(c), es)
    ensures var k' := After(Step(k, Broadcast(c)), es);
      && c < |k.conds| && c < |k'.conds| && k'.conds[c].waiters == []
      && forall w :: w in k.conds[c].waiters ==> Sent(k', w)
  {
    hide Threads.Apply, Threads.Sane, Queues, NoLostWakeup, Exclusive, Balanced, Counts, Signals, Runs, Returns,
      PcOk, Sent;
    Threads.Basics(k.sched);
    InBroadcastReturns(Step(k, Broadcast(c)), k.sched.running, c, k.conds[c].waiters, 0, es);
  }
}
