/** Semaphores, locks and condition variables (threads/synch.c) over the scheduler, as a step
    system: every region that runs with interrupts off is one step of the running thread,
    and the processor may be taken away between any two steps. */
module Synch {
  import opened Options
  import opened Sequences
  import opened Threads

  type SemaId = nat
  type LockId = nat
  type CondId = nat

  /** Life of the semaphore that cond_wait keeps on its stack: on the condition's list,
      taken off by a signal, upped by that signal, downed by its waiter. */
  datatype Phase = Queued | Popped | Upped | Consumed

  datatype Kind =
    | Plain
    | OfLock(l: LockId)
    | Waiter(c: CondId, t: Tid, phase: Phase)

  /** `initial`, `ups` and `downs` record the semaphore's history. */
  datatype Sema = Sema(value: nat, waiters: seq<Tid>, kind: Kind, initial: nat, ups: nat, downs: nat)

  datatype Lock = Lock(sema: SemaId, holder: Option<Tid>)

  /** `pops` counts the waiters that signals have taken off the list, `returned` the
      completed calls of cond_wait. */
  datatype Cond = Cond(lock: LockId, waiters: seq<SemaId>, pops: nat, returned: nat)

  /** Where a thread goes once its sema_down has decremented the semaphore. */
  datatype Then =
    | ToCaller
    | ToHolder(l: LockId, from: Option<CondId>)  // lock_acquire; `from` when cond_wait called it
    | ToReacquire(c: CondId)                     // cond_wait, about to reacquire the lock

  /** Where each thread stands between two steps. */
  datatype Pc =
    | Outside
    | Downing(s: SemaId, queued: bool, after: Then)           // `queued` once it has slept
    | Acquired(l: LockId, from: Option<CondId>)               // downed, holder not yet set
    | Releasing(l: LockId, wait: Option<(CondId, SemaId)>)    // holder cleared, not yet upped
    | Enqueued(c: CondId, w: SemaId)                          // on the condition's list
    | Signaling(c: CondId, w: SemaId, all: bool)              // popped `w`, not yet upped
    | Broadcasting(c: CondId)

  /** `holds[t]` are the locks between whose acquisition and release thread t stands. */
  datatype State = State(
    sched: Sched, pc: seq<Pc>, holds: seq<set<LockId>>,
    semas: seq<Sema>, locks: seq<Lock>, conds: seq<Cond>)

  const START: State := State(INITIAL, [Outside, Outside], [{}, {}], [], [], [])

  datatype Event =
    | Preempt(op: Op)               // thread_yield or a timer tick, at any point
    | StartIdle | IdleBlock         // the idle thread
    | Create | Finish               // thread_create, thread_exit
    | NewSema(v: nat) | NewLock | NewCond(l: LockId)
    | Up(s: SemaId) | TryDown(s: SemaId)  // also from an interrupt handler
    | Down(s: SemaId)
    | Acquire(l: LockId) | TryAcquire(l: LockId) | Release(l: LockId)
    | Wait(c: CondId) | Signal(c: CondId) | Broadcast(c: CondId)
    | Continue                      // the running thread's next region

  // ----- what every reachable state satisfies

  /** `w` is the live stack semaphore of thread t's cond_wait on c. */
  ghost predicate WaitsWith(k: State, t: Tid, c: CondId, w: SemaId) {
    w < |k.semas| && k.semas[w].kind.Waiter? && k.semas[w].kind.c == c && k.semas[w].kind.t == t
    && k.semas[w].kind.phase != Consumed
  }

  ghost predicate FromOk(k: State, l: LockId, from: Option<CondId>) {
    l < |k.locks| && (from.Some? ==> from.value < |k.conds| && k.conds[from.value].lock == l)
  }

  /** The objects a thread's position refers to exist and are what it takes them for; a thread
      inside a monitor operation holds the monitor's lock. */
  ghost predicate PcOk(k: State, t: Tid)
    requires t < |k.pc| && t < |k.holds|
  {
    match k.pc[t]
    case Outside => true
    case Downing(s, _, after) =>
      s < |k.semas| && (match after
        case ToCaller => k.semas[s].kind == Plain
        case ToHolder(l, from) => FromOk(k, l, from) && s == k.locks[l].sema
        case ToReacquire(c) => c < |k.conds| && WaitsWith(k, t, c, s))
    case Acquired(l, from) => FromOk(k, l, from)
    case Releasing(l, wait) =>
      l < |k.locks| && (wait.Some? ==>
        FromOk(k, l, Some(wait.value.0)) && WaitsWith(k, t, wait.value.0, wait.value.1))
    case Enqueued(c, w) => c < |k.conds| && WaitsWith(k, t, c, w) && k.conds[c].lock in k.holds[t]
    case Signaling(c, w, _) =>
      c < |k.conds| && w < |k.semas| && k.semas[w].kind.Waiter? && k.semas[w].kind.c == c
      && k.semas[w].kind.phase == Popped && k.conds[c].lock in k.holds[t]
    case Broadcasting(c) => c < |k.conds| && k.conds[c].lock in k.holds[t]
  }

  ghost predicate SemaOk(k: State, s: SemaId)
    requires s < |k.semas|
  {
    match k.semas[s].kind
    case Plain => true
    case OfLock(l) => l < |k.locks| && k.locks[l].sema == s
    case Waiter(c, t, _) => c < |k.conds| && t < |k.pc|
  }

  ghost predicate LockOk(k: State, l: LockId)
    requires l < |k.locks|
  {
    k.locks[l].sema < |k.semas| && k.semas[k.locks[l].sema].kind == OfLock(l)
  }

  ghost predicate Shape(k: State) {
    && Sane(k.sched) && |k.pc| == |k.holds| == |k.sched.status|
    && k.pc[IDLE] == Outside && k.holds[IDLE] == {}
    && (forall t :: 0 <= t < |k.pc| ==> PcOk(k, t))
    && (forall s :: 0 <= s < |k.semas| ==> SemaOk(k, s))
    && (forall l :: 0 <= l < |k.locks| ==> LockOk(k, l))
    && (forall c :: 0 <= c < |k.conds| ==> k.conds[c].lock < |k.locks|)
  }

  /** Thread u has slept in sema_down on s and not yet decremented it. */
  predicate Slept(k: State, u: Tid, s: SemaId) {
    u < |k.pc| && k.pc[u].Downing? && k.pc[u].s == s && k.pc[u].queued
  }

  predicate IsBlocked(k: State, u: Tid) {
    u < |k.sched.status| && k.sched.status[u] == Blocked
  }

  /** Wait lists hold exactly the blocked threads, each on the one list of the semaphore
      it is downing, once. */
  ghost predicate Queues(k: State) {
    && (forall s :: 0 <= s < |k.semas| ==> Distinct(k.semas[s].waiters))
    && (forall s: SemaId, u: Tid {:trigger u in k.semas[s].waiters} :: s < |k.semas| && u in k.semas[s].waiters ==>
          u != IDLE && IsBlocked(k, u) && Slept(k, u, s))
    && (forall u: Tid :: IsBlocked(k, u) && u != IDLE && u < |k.pc| ==>
          k.pc[u].Downing? && k.pc[u].s < |k.semas| && u in k.semas[k.pc[u].s].waiters)
  }

  /** Threads woken from the list of s that have not run their next turn of the loop. */
  ghost function Woken(k: State, s: SemaId): set<Tid> {
    set u: Tid | u < |k.pc| && Slept(k, u, s) && !IsBlocked(k, u)
  }

  /** No wake-up is lost: while someone sleeps on s, every unit of its value has a thread
      already woken to take it. */
  ghost predicate NoLostWakeup(k: State) {
    forall s :: 0 <= s < |k.semas| && k.semas[s].waiters != [] ==> k.semas[s].value <= |Woken(k, s)|
  }

  /** A semaphore's value is its initial value plus ups minus completed downs. */
  ghost predicate Counts(k: State) {
    forall s :: 0 <= s < |k.semas| ==>
      k.semas[s].value == k.semas[s].initial + k.semas[s].ups - k.semas[s].downs
  }

  /** Thread t is between the down and the up of lock l's semaphore. */
  predicate InsideAt(k: State, t: Tid, l: LockId)
    requires t < |k.pc| && t < |k.holds|
  {
    || l in k.holds[t]
    || (k.pc[t].Acquired? && k.pc[t].l == l)
    || (k.pc[t].Releasing? && k.pc[t].l == l)
  }

  ghost function Inside(k: State, l: LockId): set<Tid> {
    set t: Tid | t < |k.pc| && t < |k.holds| && InsideAt(k, t, l)
  }

  /** Mutual exclusion: the semaphore's value and the threads inside add up to one; the holder
      field names exactly the thread that holds the lock; a thread is inside only once. */
  ghost predicate Exclusive(k: State) {
    && (forall l :: 0 <= l < |k.locks| && k.locks[l].sema < |k.semas| ==>
          k.semas[k.locks[l].sema].value + |Inside(k, l)| == 1)
    && (forall l, t :: 0 <= l < |k.locks| && 0 <= t < |k.holds| ==>
          (k.locks[l].holder == Some(t) <==> l in k.holds[t]))
    && (forall l :: 0 <= l < |k.locks| && k.locks[l].holder.Some? ==> k.locks[l].holder.value < |k.holds|)
    && (forall t, l :: 0 <= t < |k.holds| && l in k.holds[t] ==> l < |k.locks|)
    && (forall t :: 0 <= t < |k.pc| && t < |k.holds| ==>
          && (k.pc[t].Acquired? ==> k.pc[t].l !in k.holds[t])
          && (k.pc[t].Releasing? ==> k.pc[t].l !in k.holds[t]))
  }

  /** The condition and stack semaphore of a thread in the first half of cond_wait. */
  function WaitingOn(pc: Pc): Option<(CondId, SemaId)> {
    match pc
    case Enqueued(c, w) => Some((c, w))
    case Releasing(_, wait) => wait
    case Downing(s, _, ToReacquire(c)) => Some((c, s))
    case _ => None
  }

  /** Semaphores are numbered as they are made, so an increasing list is in order of arrival. */
  ghost predicate Increasing(ws: seq<SemaId>) {
    forall i, j :: 0 <= i < j < |ws| ==> ws[i] < ws[j]
  }

  /** A waiter's semaphore is live exactly while its thread is in the first half of cond_wait,
      is on its condition's list, in order of arrival, exactly while queued, and has value one exactly after the
      signal that took it off has upped it. */
  ghost predicate Signals(k: State) {
    && (forall w :: 0 <= w < |k.semas| && k.semas[w].kind.Waiter? ==>
          var kind := k.semas[w].kind;
          && kind.c < |k.conds| && kind.t < |k.pc|
          && k.semas[w].value == (if kind.phase == Upped then 1 else 0)
          && (kind.phase != Consumed <==> WaitingOn(k.pc[kind.t]) == Some((kind.c, w)))
          && (kind.phase == Queued <==> w in k.conds[kind.c].waiters))
    && (forall c :: 0 <= c < |k.conds| ==> Increasing(k.conds[c].waiters))
    && (forall c: CondId, w: SemaId {:trigger w in k.conds[c].waiters} :: c < |k.conds| && w in k.conds[c].waiters ==>
          w < |k.semas| && k.semas[w].kind.Waiter? && k.semas[w].kind.c == c)
  }

  /** Thread t was taken off c's list by a signal and has not yet returned from cond_wait. */
  predicate Signaled(k: State, t: Tid, c: CondId)
    requires t < |k.pc|
  {
    var wait := WaitingOn(k.pc[t]);
    || (wait.Some? && wait.value.0 == c && wait.value.1 < |k.semas|
        && k.semas[wait.value.1].kind.Waiter?
        && (k.semas[wait.value.1].kind.phase == Popped || k.semas[wait.value.1].kind.phase == Upped))
    || (k.pc[t].Downing? && k.pc[t].after.ToHolder? && k.pc[t].after.from == Some(c))
    || (k.pc[t].Acquired? && k.pc[t].from == Some(c))
  }

  ghost function InFlight(k: State, c: CondId): set<Tid> {
    set t: Tid | t < |k.pc| && Signaled(k, t, c)
  }

  /** Every waiter a signal took off the list either has returned or is on its way. */
  ghost predicate Balanced(k: State) {
    forall c :: 0 <= c < |k.conds| ==> k.conds[c].pops == k.conds[c].returned + |InFlight(k, c)|
  }

  ghost predicate Inv(k: State) {
    Shape(k) && Queues(k) && NoLostWakeup(k) && Counts(k) && Exclusive(k) && Signals(k) && Balanced(k)
  }

  // ----- one step

  /** Where `after` leads a thread that has just decremented the semaphore. */
  function Resume(k: State, after: Then): Pc
    requires after.ToReacquire? ==> after.c < |k.conds| && k.conds[after.c].lock < |k.locks|
  {
    match after
    case ToCaller => Outside
    case ToHolder(l, from) => Acquired(l, from)
    case ToReacquire(c) =>
      var l := k.conds[c].lock;
      Downing(k.locks[l].sema, false, ToHolder(l, Some(c)))
  }

  function Decremented(m: Sema): Sema
    requires m.value > 0
  {
    m.(value := m.value - 1, downs := m.downs + 1,
       kind := if m.kind.Waiter? then m.kind.(phase := Consumed) else m.kind)
  }

  /** The semaphore after sema_up: its longest waiter, if any, is off the list. */
  function Raised(m: Sema): Sema {
    m.(value := m.value + 1, ups := m.ups + 1, waiters := if m.waiters == [] then [] else m.waiters[1..])
  }

  /** One turn of the loop in sema_down: sleep on the list if the value is zero,
      otherwise decrement it. */
  function DownRegion(k: State): State
    requires Shape(k) && k.pc[k.sched.running].Downing?
  {
    var t := k.sched.running;
    var pc := k.pc[t];
    assert PcOk(k, t);
    var m := k.semas[pc.s];
    if m.value == 0 then
      k.(semas := k.semas[pc.s := m.(waiters := m.waiters + [t])],
         pc := k.pc[t := pc.(queued := true)],
         sched := Apply(k.sched, Block))
    else
      k.(semas := k.semas[pc.s := Decremented(m)], pc := k.pc[t := Resume(k, pc.after)])
  }

  /** sema_up: wakes the longest waiter, if any, and increments the value. */
  function UpRegion(k: State, s: SemaId, pc: Pc, kind: Kind): State
    requires Shape(k) && Queues(k) && s < |k.semas|
  {
    var m := k.semas[s];
    var m' := Raised(m).(kind := kind);
    assert m.waiters != [] ==> m.waiters[0] in k.semas[s].waiters && IsBlocked(k, m.waiters[0]);
    k.(semas := k.semas[s := m'], pc := k.pc[k.sched.running := pc],
       sched := if m.waiters == [] then k.sched else Apply(k.sched, Unblock(m.waiters[0])))
  }

  function SetPc(k: State, pc: Pc): State
    requires k.sched.running < |k.pc|
  {
    k.(pc := k.pc[k.sched.running := pc])
  }

  /** lock->holder = thread_current (), the end of lock_acquire. */
  function TakeLock(k: State, l: LockId, from: Option<CondId>): State
    requires Shape(k) && FromOk(k, l, from)
  {
    var t := k.sched.running;
    k.(locks := k.locks[l := k.locks[l].(holder := Some(t))],
       holds := k.holds[t := k.holds[t] + {l}], pc := k.pc[t := Outside],
       conds := if from.None? then k.conds
                else k.conds[from.value := k.conds[from.value].(returned := k.conds[from.value].returned + 1)])
  }

  /** lock->holder = NULL, the start of lock_release. */
  function DropLock(k: State, l: LockId, wait: Option<(CondId, SemaId)>): State
    requires Shape(k) && l < |k.locks|
  {
    var t := k.sched.running;
    k.(locks := k.locks[l := k.locks[l].(holder := None)],
       holds := k.holds[t := k.holds[t] - {l}], pc := k.pc[t := Releasing(l, wait)])
  }

  /** The start of cond_wait: a fresh semaphore joins the condition's list. */
  function Enqueue(k: State, c: CondId): State
    requires Shape(k) && c < |k.conds|
  {
    var t, w, cond := k.sched.running, |k.semas|, k.conds[c];
    k.(semas := k.semas + [Sema(0, [], Waiter(c, t, Queued), 0, 0, 0)],
       conds := k.conds[c := cond.(waiters := cond.waiters + [w])], pc := k.pc[t := Enqueued(c, w)])
  }

  /** The start of cond_signal: takes the longest-waiting semaphore off the list, if any. */
  function PopWaiter(k: State, c: CondId, all: bool): State
    requires Shape(k) && Signals(k) && c < |k.conds|
  {
    var t, cond := k.sched.running, k.conds[c];
    if cond.waiters == [] then SetPc(k, Outside)
    else
      var w := cond.waiters[0];
      assert w in k.conds[c].waiters;
      k.(semas := k.semas[w := k.semas[w].(kind := k.semas[w].kind.(phase := Popped))],
         conds := k.conds[c := cond.(waiters := cond.waiters[1..], pops := cond.pops + 1)],
         pc := k.pc[t := Signaling(c, w, all)])
  }

  /** The assertions of synch.c and the rules its callers follow. */
  ghost predicate Enabled(k: State, e: Event)
    requires Inv(k)
  {
    var t := k.sched.running;
    match e
    case Preempt(op) => op.Yield? || op.Tick?
    case StartIdle => t == IDLE && !k.sched.idleSet
    case IdleBlock => t == IDLE && k.sched.idleSet
    case Create => k.pc[t] == Outside
    case Finish => t != IDLE && k.pc[t] == Outside
    case NewSema(_) => true
    case NewLock => true
    case NewCond(l) => l < |k.locks|
    case Up(s) => s < |k.semas| && k.semas[s].kind == Plain
    case TryDown(s) => s < |k.semas| && k.semas[s].kind == Plain
    case Down(s) => t != IDLE && k.pc[t] == Outside && s < |k.semas| && k.semas[s].kind == Plain
    case Acquire(l) => t != IDLE && k.pc[t] == Outside && l < |k.locks| && k.locks[l].holder != Some(t)
    case TryAcquire(l) => t != IDLE && k.pc[t] == Outside && l < |k.locks| && k.locks[l].holder != Some(t)
    case Release(l) => k.pc[t] == Outside && l < |k.locks| && k.locks[l].holder == Some(t)
    case Wait(c) => k.pc[t] == Outside && c < |k.conds| && k.locks[k.conds[c].lock].holder == Some(t)
    case Signal(c) => k.pc[t] == Outside && c < |k.conds| && k.locks[k.conds[c].lock].holder == Some(t)
    case Broadcast(c) => k.pc[t] == Outside && c < |k.conds| && k.locks[k.conds[c].lock].holder == Some(t)
    case Continue => k.pc[t] != Outside
  }

  /** The running thread's next region, by where it stands. */
  function Proceed(k: State): State
    requires Inv(k) && k.pc[k.sched.running] != Outside
  {
    var t := k.sched.running;
    assert PcOk(k, t);
    match k.pc[t]
    case Downing(_, _, _) => DownRegion(k)
    case Acquired(l, from) => TakeLock(k, l, from)
    case Releasing(l, wait) =>
      var s := k.locks[l].sema;
      assert LockOk(k, l);
      UpRegion(k, s, if wait.None? then Outside else Downing(wait.value.1, false, ToReacquire(wait.value.0)),
               k.semas[s].kind)
    case Enqueued(c, w) => DropLock(k, k.conds[c].lock, Some((c, w)))
    case Signaling(c, w, all) =>
      UpRegion(k, w, if all then Broadcasting(c) else Outside, k.semas[w].kind.(phase := Upped))
    case Broadcasting(c) => PopWaiter(k, c, true)
  }

  function Step(k: State, e: Event): State
    requires Inv(k) && Enabled(k, e)
  {
    var t := k.sched.running;
    match e
    case Preempt(op) => k.(sched := Apply(k.sched, op))
    case StartIdle => k.(sched := Apply(k.sched, SetIdle))
    case IdleBlock => k.(sched := Apply(k.sched, Block))
    case Create => k.(sched := Apply(k.sched, Spawn), pc := k.pc + [Outside], holds := k.holds + [{}])
    case Finish => k.(sched := Apply(k.sched, Exit))
    case NewSema(v) => k.(semas := k.semas + [Sema(v, [], Plain, v, 0, 0)])
    case NewLock =>
      k.(semas := k.semas + [Sema(1, [], OfLock(|k.locks|), 1, 0, 0)],
         locks := k.locks + [Lock(|k.semas|, None)])
    case NewCond(l) => k.(conds := k.conds + [Cond(l, [], 0, 0)])
    case Up(s) => UpRegion(k, s, k.pc[t], Plain)
    case TryDown(s) =>
      if k.semas[s].value == 0 then k else k.(semas := k.semas[s := Decremented(k.semas[s])])
    case Down(s) => SetPc(k, Downing(s, false, ToCaller))
    case Acquire(l) => SetPc(k, Downing(k.locks[l].sema, false, ToHolder(l, None)))
    case TryAcquire(l) =>
      var s := k.locks[l].sema;
      assert LockOk(k, l);
      if k.semas[s].value == 0 then k
      else k.(semas := k.semas[s := Decremented(k.semas[s])], pc := k.pc[t := Acquired(l, None)])
    case Release(l) => DropLock(k, l, None)
    case Wait(c) => Enqueue(k, c)
    case Signal(c) => PopWaiter(k, c, false)
    case Broadcast(c) => SetPc(k, Broadcasting(c))
    case Continue => Proceed(k)
  }

  // ----- the code of synch.c

  /** struct semaphore. Its methods are the regions of synch.c that run with interrupts off. */
  class Semaphore {
    var value: nat
    var waiters: seq<Tid>
    ghost var kind: Kind
    ghost var initial: nat
    ghost var ups: nat
    ghost var downs: nat

    ghost function View(): Sema
      reads this
    {
      Sema(value, waiters, kind, initial, ups, downs)
    }

    /** sema_init. */
    constructor (v: nat, ghost kind: Kind)
      ensures View() == Sema(v, [], kind, v, 0, 0)
    {
      value, waiters := v, [];
      this.kind, initial, ups, downs := kind, v, 0, 0;
    }

    /** sema_try_down. */
    method TryDown() returns (success: bool)
      modifies this
      ensures success == (old(value) > 0)
      ensures View() == if success then Decremented(old(View())) else old(View())
    {
      if value > 0 {
        value := value - 1;
        downs := downs + 1;
        kind := if kind.Waiter? then kind.(phase := Consumed) else kind;
        success := true;
      } else {
        success := false;
      }
    }

    /** One turn of the loop in sema_down: `done` when the semaphore was decremented; otherwise
        the caller is on the list, blocked, and the processor is with another thread. */
    method DownTurn(cpu: Scheduler) returns (done: bool)
      requires cpu.Valid() && Allowed(cpu.View(), Block)
      modifies this, cpu
      ensures done == (old(value) > 0) && cpu.Valid()
      ensures done ==> View() == Decremented(old(View())) && cpu.View() == old(cpu.View())
      ensures !done ==>
        && View() == old(View()).(waiters := old(waiters) + [old(cpu.running)])
        && cpu.View() == Apply(old(cpu.View()), Block)
    {
      if value == 0 {
        waiters := waiters + [cpu.running];
        cpu.ThreadBlock();
        done := false;
      } else {
        value := value - 1;
        downs := downs + 1;
        kind := if kind.Waiter? then kind.(phase := Consumed) else kind;
        done := true;
      }
    }

    /** sema_up. */
    method Up(cpu: Scheduler)
      requires cpu.Valid() && (waiters != [] ==> Allowed(cpu.View(), Unblock(waiters[0])))
      modifies this, cpu
      ensures cpu.Valid() && View() == Raised(old(View()))
      ensures cpu.View() ==
        if old(waiters) == [] then old(cpu.View()) else Apply(old(cpu.View()), Unblock(old(waiters)[0]))
    {
      if waiters != [] {
        var t := waiters[0];
        waiters := waiters[1..];
        cpu.ThreadUnblock(t);
      }
      value := value + 1;
      ups := ups + 1;
    }
  }
}
