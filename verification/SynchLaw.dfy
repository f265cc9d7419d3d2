/** What the calls of threads/synch.c do, told by the events of a run: how values and wait lists
    follow from the events, and what holds when a call returns, whatever runs in between. */
module SynchLaws {
  import opened Options
  import opened Sequences
  import Threads
  import opened Synch
  import opened SynchProofs

  type Tid = Threads.Tid

  // ----- what an event does to a semaphore

  /** The event ups `s`: sema_up, the end of lock_release, or that of cond_signal. */
  ghost predicate Ups(k: State, e: Event, s: SemaId)
    requires Inv(k)
  {
    || e == Up(s)
    || (e == Continue && var pc := k.pc[k.sched.running];
        || (pc.Releasing? && pc.l < |k.locks| && k.locks[pc.l].sema == s)
        || (pc.Signaling? && pc.w == s))
  }

  /** The running thread is at the loop of sema_down on `s`. */
  ghost predicate AtDown(k: State, e: Event, s: SemaId)
    requires Inv(k)
  {
    e == Continue && k.pc[k.sched.running].Downing? && k.pc[k.sched.running].s == s
  }

  /** The event completes a down of `s`. */
  ghost predicate Downs(k: State, e: Event, s: SemaId)
    requires Inv(k) && s < |k.semas|
  {
    k.semas[s].value > 0 &&
    (e == TryDown(s) || AtDown(k, e, s) || (e.TryAcquire? && e.l < |k.locks| && k.locks[e.l].sema == s))
  }

  ghost predicate Sleeps(k: State, e: Event, s: SemaId)
    requires Inv(k) && s < |k.semas|
  {
    k.semas[s].value == 0 && AtDown(k, e, s)
  }

  ghost predicate Wakes(k: State, e: Event, s: SemaId)
    requires Inv(k) && s < |k.semas|
  {
    Ups(k, e, s) && k.semas[s].waiters != []
  }

  function One(b: bool): nat { if b then 1 else 0 }

  /** An up adds one and a completed down takes one, whoever makes them, and nothing else changes
      the value; the list is a queue. */
  ghost predicate SemaMoves(k: State, e: Event, k': State, s: SemaId)
    requires Inv(k) && s < |k.semas|
  {
    && s < |k'.semas| && var m, m' := k.semas[s], k'.semas[s];
    && m'.value == m.value + One(Ups(k, e, s)) - One(Downs(k, e, s))
    && m'.ups == m.ups + One(Ups(k, e, s)) && m'.downs == m.downs + One(Downs(k, e, s))
    && m'.waiters ==
       if Wakes(k, e, s) then m.waiters[1..] else if Sleeps(k, e, s) then m.waiters + [k.sched.running] else m.waiters
  }

  lemma StepSema(k: State, e: Event, s: SemaId)
    requires Inv(k) && Enabled(k, e) && s < |k.semas|
    ensures SemaMoves(k, e, Step(k, e), s)
  {
    hide Threads.Apply, Threads.Sane, Queues, NoLostWakeup, Exclusive, Balanced, Counts, Signals, PopWaiter, Proceed,
      SemaMoves, PcOk;
    Threads.Basics(k.sched);
    match e
    case Continue => ProceedSema(k, s);
    case Signal(c) => PopSema(k, e, c, false, s);
    case Up(_) => CallSema(k, e, s);
    case TryDown(_) => CallSema(k, e, s);
    case TryAcquire(_) => CallSema(k, e, s);
    case _ => QuietMoves(k, e, s);
  }

  predicate TouchesNone(e: Event) {
    e != Continue && !e.Up? && !e.TryDown? && !e.TryAcquire? && !e.Signal?
  }

  lemma CallSema(k: State, e: Event, s: SemaId)
    requires Inv(k) && Enabled(k, e) && s < |k.semas| && (e.Up? || e.TryDown? || e.TryAcquire?)
    ensures SemaMoves(k, e, Step(k, e), s)
  {
    hide Threads.Apply, Threads.Sane, Queues, NoLostWakeup, Exclusive, Balanced, Counts, Signals, PopWaiter, Proceed,
      PcOk;
    Threads.Basics(k.sched);
    if e.TryAcquire? { assert LockOk(k, e.l); }
  }

  lemma QuietMoves(k: State, e: Event, s: SemaId)
    requires Inv(k) && Enabled(k, e) && s < |k.semas| && TouchesNone(e)
    ensures SemaMoves(k, e, Step(k, e), s)
  {
    hide Step, Enabled, Threads.Sane, Queues, NoLostWakeup, Exclusive, Balanced, Counts, Signals, PcOk;
    QuietSema(k, e, s);
  }

  lemma QuietSema(k: State, e: Event, s: SemaId)
    requires Inv(k) && Enabled(k, e) && s < |k.semas| && TouchesNone(e)
    ensures s < |Step(k, e).semas| && Step(k, e).semas[s] == k.semas[s]
  {
    hide Threads.Apply, Threads.Sane, Queues, NoLostWakeup, Exclusive, Balanced, Counts, Signals, PopWaiter, Proceed,
      PcOk, Shape, UpRegion;
  }

  lemma PopSema(k: State, e: Event, c: CondId, all: bool, s: SemaId)
    requires Inv(k) && s < |k.semas| && c < |k.conds|
    requires e.Signal? || (e == Continue && k.pc[k.sched.running].Broadcasting?)
    ensures SemaMoves(k, e, PopWaiter(k, c, all), s)
  {
    hide Threads.Apply, Threads.Sane, Queues, NoLostWakeup, Exclusive, Balanced, Counts, PcOk;
    Threads.Basics(k.sched);
    if k.conds[c].waiters != [] { assert k.conds[c].waiters[0] in k.conds[c].waiters; }
  }

  lemma ProceedSema(k: State, s: SemaId)
    requires Inv(k) && k.pc[k.sched.running] != Outside && s < |k.semas|
    ensures SemaMoves(k, Continue, Proceed(k), s)
  {
    hide Threads.Apply, Threads.Sane, Queues, NoLostWakeup, Exclusive, Balanced, Counts, Signals, PopWaiter,
      SemaMoves;
    Threads.Basics(k.sched);
    var t := k.sched.running;
    assert PcOk(k, t);
    match k.pc[t]
    case Broadcasting(c) => PopSema(k, Continue, c, true, s);
    case Releasing(l, _) =>
      assert LockOk(k, l);
      RegionSema(k, s);
    case _ => RegionSema(k, s);
  }

  lemma RegionSema(k: State, s: SemaId)
    requires Inv(k) && k.pc[k.sched.running] != Outside && !k.pc[k.sched.running].Broadcasting? && s < |k.semas|
    ensures SemaMoves(k, Continue, Proceed(k), s)
  {
    hide Threads.Apply, Threads.Sane, Queues, NoLostWakeup, Exclusive, Balanced, Counts, Signals, PopWaiter;
    Threads.Basics(k.sched);
    assert PcOk(k, k.sched.running);
    if k.pc[k.sched.running].Releasing? { assert LockOk(k, k.pc[k.sched.running].l); }
  }

  // ----- the steps are the code of class Semaphore

  /** Semaphore.Up, on the semaphore and the scheduler. */
  lemma UpIsCode(k: State, s: SemaId)
    requires Inv(k) && Enabled(k, Up(s))
    ensures var k', m := Step(k, Up(s)), k.semas[s];
      && k'.semas == k.semas[s := Raised(m)]
      && (m.waiters == [] ==> k'.sched == k.sched)
      && (m.waiters != [] ==>
            && Threads.Allowed(k.sched, Threads.Unblock(m.waiters[0]))
            && k'.sched == Threads.Apply(k.sched, Threads.Unblock(m.waiters[0])))
  {
    hide Threads.Apply, Threads.Sane, NoLostWakeup, Exclusive, Balanced, Counts, Signals, PcOk;
    if k.semas[s].waiters != [] { assert k.semas[s].waiters[0] in k.semas[s].waiters; }
  }

  /** Semaphore.TryDown. */
  lemma TryDownIsCode(k: State, s: SemaId)
    requires Inv(k) && Enabled(k, TryDown(s))
    ensures Step(k, TryDown(s)) ==
      if k.semas[s].value > 0 then k.(semas := k.semas[s := Decremented(k.semas[s])]) else k
  {
    hide Threads.Sane, Queues, NoLostWakeup, Exclusive, Balanced, Counts, Signals, PcOk;
  }

  /** Semaphore.DownTurn. */
  lemma DownIsCode(k: State)
    requires Inv(k) && k.pc[k.sched.running].Downing?
    ensures var k', s := Step(k, Continue), k.pc[k.sched.running].s; s < |k.semas| && var m := k.semas[s];
      && (m.value > 0 ==> k'.semas == k.semas[s := Decremented(m)] && k'.sched == k.sched)
      && (m.value == 0 ==>
            && k'.semas == k.semas[s := m.(waiters := m.waiters + [k.sched.running])]
            && Threads.Allowed(k.sched, Threads.Block) && k'.sched == Threads.Apply(k.sched, Threads.Block))
  {
    hide Threads.Apply, Queues, NoLostWakeup, Exclusive, Balanced, Counts, Signals;
    assert PcOk(k, k.sched.running);
    Threads.Basics(k.sched);
  }

  /** A new lock is free, a new condition has nobody waiting, and the old ones stay. */
  lemma NewObjects(k: State, l: LockId)
    requires Inv(k) && l < |k.locks|
    ensures var k' := Step(k, NewLock);
      && |k'.locks| == |k.locks| + 1 && k'.locks[..|k.locks|] == k.locks
      && k'.locks[|k.locks|].holder == None && Inside(k', |k.locks|) == {}
    ensures Step(k, NewCond(l)).conds == k.conds + [Cond(l, [], 0, 0)]
  {
    hide Threads.Apply, Threads.Sane, Queues, NoLostWakeup, Balanced, Counts, Signals;
    var k', n := Step(k, NewLock), |k.locks|;
    forall t: Tid ensures t !in Inside(k', n) {
      if t < |k.pc| { assert PcOk(k, t); }
    }
  }

  // ----- semaphores over whole runs

  ghost function UpsIn(k: State, es: seq<Event>, s: SemaId): nat
    requires Runs(k, es)
    decreases |es|
  {
    if es == [] then 0 else One(Ups(k, es[0], s)) + UpsIn(Step(k, es[0]), es[1..], s)
  }

  ghost function DownsIn(k: State, es: seq<Event>, s: SemaId): nat
    requires Runs(k, es) && s < |k.semas|
    decreases |es|
  {
    if es == [] then 0
    else StepSema(k, es[0], s); One(Downs(k, es[0], s)) + DownsIn(Step(k, es[0]), es[1..], s)
  }

  /** How often a sleeper of `s` was woken, and who went to sleep on it, in order. */
  ghost function WakesIn(k: State, es: seq<Event>, s: SemaId): nat
    requires Runs(k, es) && s < |k.semas|
    decreases |es|
  {
    if es == [] then 0
    else StepSema(k, es[0], s); One(Wakes(k, es[0], s)) + WakesIn(Step(k, es[0]), es[1..], s)
  }

  ghost function SleepersIn(k: State, es: seq<Event>, s: SemaId): seq<Tid>
    requires Runs(k, es) && s < |k.semas|
    decreases |es|
  {
    if es == [] then []
    else
      StepSema(k, es[0], s);
      (if Sleeps(k, es[0], s) then [k.sched.running] else []) + SleepersIn(Step(k, es[0]), es[1..], s)
  }

  lemma UpsOrSleeps(k: State, e: Event, s: SemaId)
    requires Inv(k) && s < |k.semas|
    ensures !(Ups(k, e, s) && Sleeps(k, e, s))
  {
    hide Threads.Sane, Queues, NoLostWakeup, Exclusive, Balanced, Counts, Signals, PcOk;
  }

  /** A step of a queue, then `n` more off the front and `rest` joining at the back. */
  lemma QueueStep(q: seq<nat>, q1: seq<nat>, off: bool, joins: seq<nat>, rest: seq<nat>, n: nat)
    requires (off ==> q != [] && joins == []) && q1 == (if off then q[1..] else q + joins) && n <= |q1 + rest|
    ensures |q + (joins + rest)| == One(off) + |q1 + rest| && (q1 + rest)[n..] == (q + (joins + rest))[One(off) + n..]
  {
    assert off ==> q == [q[0]] + q1;
    assert q + (joins + rest) == if off then [q[0]] + (q1 + rest) else q1 + rest;
  }

  lemma {:induction false} RunValue(k: State, es: seq<Event>, s: SemaId)
    requires Runs(k, es) && s < |k.semas|
    ensures var k', m := After(k, es), k.semas[s];
      && s < |k'.semas|
      && k'.semas[s].value == m.value + UpsIn(k, es, s) - DownsIn(k, es, s)
      && k'.semas[s].ups == m.ups + UpsIn(k, es, s) && k'.semas[s].downs == m.downs + DownsIn(k, es, s)
    decreases |es|
  {
    hide Inv, Enabled, Step, Ups, Downs, Sleeps, Wakes;
    if es != [] {
      StepSema(k, es[0], s);
      RunValue(Step(k, es[0]), es[1..], s);
    }
  }

  lemma {:induction false} RunList(k: State, es: seq<Event>, s: SemaId)
    requires Runs(k, es) && s < |k.semas|
    ensures var k', m := After(k, es), k.semas[s];
      && s < |k'.semas|
      && WakesIn(k, es, s) + |k'.semas[s].waiters| == |m.waiters + SleepersIn(k, es, s)|
      && k'.semas[s].waiters == (m.waiters + SleepersIn(k, es, s))[WakesIn(k, es, s)..]
    decreases |es|
  {
    hide Inv, Enabled, Step, Ups, Downs, Sleeps, One;
    if es != [] {
      var k1 := Step(k, es[0]);
      UpsOrSleeps(k, es[0], s);
      StepSema(k, es[0], s);
      RunList(k1, es[1..], s);
      var joins := if Sleeps(k, es[0], s) then [k.sched.running] else [];
      QueueStep(k.semas[s].waiters, k1.semas[s].waiters, Wakes(k, es[0], s), joins, SleepersIn(k1, es[1..], s),
                WakesIn(k1, es[1..], s));
    }
  }

  /** Over every run: the value counts ups and completed downs, and sleepers are woken in the order
      in which they went to sleep. */
  lemma RunSema(k: State, es: seq<Event>, s: SemaId)
    requires Runs(k, es) && s < |k.semas|
    ensures var k', m := After(k, es), k.semas[s];
      && s < |k'.semas|
      && k'.semas[s].value == m.value + UpsIn(k, es, s) - DownsIn(k, es, s)
      && k'.semas[s].ups == m.ups + UpsIn(k, es, s) && k'.semas[s].downs == m.downs + DownsIn(k, es, s)
      && WakesIn(k, es, s) + |k'.semas[s].waiters| == |m.waiters + SleepersIn(k, es, s)|
      && k'.semas[s].waiters == (m.waiters + SleepersIn(k, es, s))[WakesIn(k, es, s)..]
  {
    hide Runs, After, UpsIn, DownsIn, WakesIn, SleepersIn;
    RunValue(k, es, s);
    RunList(k, es, s);
  }

  /** Nobody but callers of sema_up ups a semaphore of their own. */
  lemma PlainUps(k: State, e: Event, s: SemaId)
    requires Inv(k) && Enabled(k, e) && s < |k.semas| && k.semas[s].kind == Plain
    ensures Ups(k, e, s) <==> e == Up(s)
  {
    hide Threads.Apply, Threads.Sane, Queues, NoLostWakeup, Exclusive, Balanced, Counts, Signals;
    Threads.Basics(k.sched);
    assert PcOk(k, k.sched.running);
    if k.pc[k.sched.running].Releasing? { assert LockOk(k, k.pc[k.sched.running].l); }
  }

  lemma PlainStays(k: State, e: Event, s: SemaId)
    requires Inv(k) && Enabled(k, e) && s < |k.semas| && k.semas[s].kind == Plain
    ensures s < |Step(k, e).semas| && Step(k, e).semas[s].kind == Plain
  {
    hide Threads.Apply, Threads.Sane, Queues, NoLostWakeup, Exclusive, Balanced, Counts, PcOk, Signals, PopWaiter,
      Proceed;
    if TouchesNone(e) {
      QuietSema(k, e, s);
      hide Step, Enabled;
    } else if e.TryAcquire? {
      assert LockOk(k, e.l);
    } else if e == Continue {
      ProceedPlain(k, s);
    } else if e.Signal? {
      PopPlain(k, e.c, false, s);
    }
  }

  lemma PopPlain(k: State, c: CondId, all: bool, s: SemaId)
    requires Inv(k) && c < |k.conds| && s < |k.semas| && k.semas[s].kind == Plain
    ensures s < |PopWaiter(k, c, all).semas| && PopWaiter(k, c, all).semas[s].kind == Plain
  {
    hide Threads.Apply, Threads.Sane, Queues, NoLostWakeup, Exclusive, Balanced, Counts, PcOk;
    if k.conds[c].waiters != [] { assert k.conds[c].waiters[0] in k.conds[c].waiters; }
  }

  lemma ProceedPlain(k: State, s: SemaId)
    requires Inv(k) && k.pc[k.sched.running] != Outside && s < |k.semas| && k.semas[s].kind == Plain
    ensures s < |Proceed(k).semas| && Proceed(k).semas[s].kind == Plain
  {
    hide Threads.Apply, Threads.Sane, Queues, NoLostWakeup, Exclusive, Balanced, Counts, Signals, PopWaiter;
    Threads.Basics(k.sched);
    var t := k.sched.running;
    assert PcOk(k, t);
    if k.pc[t].Broadcasting? { PopPlain(k, k.pc[t].c, true, s); }
    if k.pc[t].Releasing? { assert LockOk(k, k.pc[t].l); }
  }

  lemma {:induction false} PlainUpsIn(k: State, es: seq<Event>, s: SemaId)
    requires Runs(k, es) && s < |k.semas| && k.semas[s].kind == Plain
    ensures UpsIn(k, es, s) == multiset(es)[Up(s)]
    decreases |es|
  {
    hide Inv, Enabled, Step, Ups;
    if es != [] {
      PlainUps(k, es[0], s);
      PlainStays(k, es[0], s);
      PlainUpsIn(Step(k, es[0]), es[1..], s);
      assert es == [es[0]] + es[1..];
    }
  }

  /** Over every run: a semaphore that sema_init made with value `v` has, at the end, that value plus
      the number of its sema_ups in the run less its completed downs. No up is lost. */
  lemma SemaphoreTally(k: State, v: nat, es: seq<Event>)
    requires Inv(k) && Runs(Step(k, NewSema(v)), es)
    ensures var s, k1 := |k.semas|, Step(k, NewSema(v)); var k' := After(k1, es);
      s < |k1.semas| && s < |k'.semas| && k'.semas[s].value == v + multiset(es)[Up(s)] - DownsIn(k1, es, s)
  {
    hide Inv;
    var s, k1 := |k.semas|, Step(k, NewSema(v));
    assert k1.semas[s].value == v && k1.semas[s].kind == Plain;
    hide Step;
    PlainUpsIn(k1, es, s);
    RunSema(k1, es, s);
  }

  // ----- condition lists

  /** The event takes the front waiter off the list of `c`. */
  ghost predicate Pops(k: State, e: Event, c: CondId)
    requires Inv(k) && c < |k.conds|
  {
    k.conds[c].waiters != [] && (e == Signal(c) || (e == Continue && k.pc[k.sched.running] == Broadcasting(c)))
  }

  /** A cond_wait on `c` returns. */
  ghost predicate WaitEnds(k: State, e: Event, c: CondId)
    requires Inv(k)
  {
    e == Continue && k.pc[k.sched.running].Acquired? && k.pc[k.sched.running].from == Some(c)
  }

  /** Waiters join at the back and signals take them off the front; nothing else does. */
  ghost predicate CondMoves(k: State, e: Event, k': State, c: CondId)
    requires Inv(k) && c < |k.conds|
  {
    && c < |k'.conds| && var d, d' := k.conds[c], k'.conds[c];
    && d'.lock == d.lock && d'.pops == d.pops + One(Pops(k, e, c)) && d'.returned == d.returned + One(WaitEnds(k, e, c))
    && d'.waiters ==
       if Pops(k, e, c) then d.waiters[1..] else if e == Wait(c) then d.waiters + [|k.semas|] else d.waiters
  }

  lemma StepCond(k: State, e: Event, c: CondId)
    requires Inv(k) && Enabled(k, e) && c < |k.conds|
    ensures CondMoves(k, e, Step(k, e), c)
  {
    hide Threads.Apply, Threads.Sane, Queues, NoLostWakeup, Exclusive, Balanced, Counts, Signals, Proceed, PcOk;
    Threads.Basics(k.sched);
    if e == Continue {
      ProceedCond(k, c);
    } else if !e.Signal? && !e.Wait? {
      QuietCond(k, e, c);
      hide Step, Enabled;
    }
  }

  lemma QuietCond(k: State, e: Event, c: CondId)
    requires Inv(k) && Enabled(k, e) && c < |k.conds| && e != Continue && !e.Signal? && !e.Wait?
    ensures c < |Step(k, e).conds| && Step(k, e).conds[c] == k.conds[c]
  {
    hide Threads.Apply, Threads.Sane, Queues, NoLostWakeup, Exclusive, Balanced, Counts, Signals, PopWaiter, Proceed,
      PcOk, Shape;
  }

  lemma ProceedCond(k: State, c: CondId)
    requires Inv(k) && k.pc[k.sched.running] != Outside && c < |k.conds|
    ensures CondMoves(k, Continue, Proceed(k), c)
  {
    hide Threads.Apply, Threads.Sane, Queues, NoLostWakeup, Exclusive, Balanced, Counts, Signals;
    Threads.Basics(k.sched);
    assert PcOk(k, k.sched.running);
  }

  ghost function PopsIn(k: State, es: seq<Event>, c: CondId): nat
    requires Runs(k, es) && c < |k.conds|
    decreases |es|
  {
    if es == [] then 0
    else StepCond(k, es[0], c); One(Pops(k, es[0], c)) + PopsIn(Step(k, es[0]), es[1..], c)
  }

  ghost function WaitEndsIn(k: State, es: seq<Event>, c: CondId): nat
    requires Runs(k, es)
    decreases |es|
  {
    if es == [] then 0 else One(WaitEnds(k, es[0], c)) + WaitEndsIn(Step(k, es[0]), es[1..], c)
  }

  /** The semaphores that calls of cond_wait put on the list of `c`, in order. */
  ghost function WaitersIn(k: State, es: seq<Event>, c: CondId): seq<SemaId>
    requires Runs(k, es)
    decreases |es|
  {
    if es == [] then []
    else (if es[0] == Wait(c) then [|k.semas|] else []) + WaitersIn(Step(k, es[0]), es[1..], c)
  }

  /** Over every run signals take waiters off in the order in which they joined, and `pops` and
      `returned` count those signals and the returns. */
  lemma {:induction false} RunCond(k: State, es: seq<Event>, c: CondId)
    requires Runs(k, es) && c < |k.conds|
    ensures var k', d := After(k, es), k.conds[c];
      && c < |k'.conds|
      && k'.conds[c].pops == d.pops + PopsIn(k, es, c) && k'.conds[c].returned == d.returned + WaitEndsIn(k, es, c)
      && PopsIn(k, es, c) + |k'.conds[c].waiters| == |d.waiters + WaitersIn(k, es, c)|
      && k'.conds[c].waiters == (d.waiters + WaitersIn(k, es, c))[PopsIn(k, es, c)..]
    decreases |es|
  {
    hide Inv, Enabled, Step, WaitEnds, One;
    if es != [] {
      var k1 := Step(k, es[0]);
      StepCond(k, es[0], c);
      RunCond(k1, es[1..], c);
      QueueStep(k.conds[c].waiters, k1.conds[c].waiters, Pops(k, es[0], c),
                if es[0] == Wait(c) then [|k.semas|] else [], WaitersIn(k1, es[1..], c), PopsIn(k1, es[1..], c));
    }
  }
}
