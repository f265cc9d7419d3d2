/** The scheduler (threads/thread.c): thread states, the ready list and context switches.
    Interrupts are off inside each operation, so each is one atomic step; a switch of
    stacks is the change of the running thread. */
module Threads {
  import opened Options
  import opened Sequences

  type Tid = nat

  /** The thread that thread_start creates to run when no other thread is ready. */
  const IDLE: Tid := 1

  datatype Status = Running | Ready | Blocked | Dying

  /** Timer ticks a thread may run before it is made to yield. */
  const TIME_SLICE: nat := 4

  /** `idleSet` says whether the idle thread has yet stored itself in `idle_thread`;
      `ticks` counts timer ticks since the last switch. */
  datatype Sched = Sched(status: seq<Status>, ready: seq<Tid>, running: Tid, idleSet: bool, ticks: nat)

  /** What thread_start leaves behind: main runs, the idle thread is on the ready list. */
  const INITIAL: Sched := Sched([Running, Ready], [IDLE], 0, false, 0)

  // ----- the operations

  /** next_thread_to_run and the rest of schedule: the running thread has already changed state. */
  function Switch(s: Sched): Sched
    requires s.ready == [] ==> IDLE < |s.status|
    requires s.ready != [] ==> s.ready[0] < |s.status|
  {
    var next := if s.ready == [] then IDLE else s.ready[0];
    var rest := if s.ready == [] then [] else s.ready[1..];
    s.(status := s.status[next := Running], ready := rest, running := next, ticks := 0)
  }

  datatype Op =
    | Nop                // an operation that leaves the scheduler alone
    | Block              // thread_block
    | Unblock(t: Tid)    // thread_unblock
    | Yield              // thread_yield
    | Tick               // thread_tick, with the yield it asks for on return from the interrupt
    | Exit               // the core of thread_exit
    | Spawn              // thread_create
    | SetIdle            // the first statement of the idle thread

  /** The assertions and calling conventions of thread.c. */
  ghost predicate Allowed(s: Sched, op: Op) {
    match op
    case Unblock(t) => t < |s.status| && s.status[t] == Blocked && t != IDLE
    case Block => s.running != IDLE || s.idleSet
    case Exit => s.running != IDLE
    case SetIdle => s.running == IDLE && !s.idleSet
    case _ => true
  }

  function YieldFrom(s: Sched): Sched
    requires Sane(s)
  {
    var queue := if s.running != IDLE || !s.idleSet then s.ready + [s.running] else s.ready;
    Switch(s.(status := s.status[s.running := Ready], ready := queue))
  }

  function Apply(s: Sched, op: Op): Sched
    requires Sane(s) && Allowed(s, op)
  {
    match op
    case Nop => s
    case Block => Switch(s.(status := s.status[s.running := Blocked]))
    case Unblock(t) => s.(status := s.status[t := Ready], ready := s.ready + [t])
    case Yield => YieldFrom(s)
    case Tick => if s.ticks + 1 >= TIME_SLICE then YieldFrom(s) else s.(ticks := s.ticks + 1)
    case Exit => Switch(s.(status := s.status[s.running := Dying]))
    case Spawn => s.(status := s.status + [Ready], ready := s.ready + [|s.status|])
    case SetIdle => s.(idleSet := true)
  }

  // ----- what every reachable scheduler state satisfies

  /** Exactly one thread runs; the ready list holds every ready thread exactly once, except
      the idle thread, which once known is never on it. */
  ghost predicate Sane(s: Sched) {
    && IDLE < |s.status| && s.running < |s.status| && s.ticks < TIME_SLICE
    && (forall t :: 0 <= t < |s.status| ==> (s.status[t] == Running <==> t == s.running))
    && Distinct(s.ready)
    && (forall i :: 0 <= i < |s.ready| ==> s.ready[i] < |s.status| && s.status[s.ready[i]] == Ready)
    && (forall t :: 0 <= t < |s.status| && s.status[t] == Ready && !(t == IDLE && s.idleSet) ==> t in s.ready)
    && s.status[IDLE] != Dying
    && (s.idleSet ==> IDLE !in s.ready)
    && (!s.idleSet ==> s.status[IDLE] == Running || s.status[IDLE] == Ready)
  }

  lemma InitialSane()
    ensures Sane(INITIAL)
  {
    assert 1 in INITIAL.ready;
  }

  /** After the running thread has been put in another state and queued if it stays ready,
      switching restores the invariant. */
  lemma SwitchSane(s: Sched)
    requires IDLE < |s.status|
    requires forall t :: 0 <= t < |s.status| ==> s.status[t] != Running
    requires Distinct(s.ready)
    requires forall i :: 0 <= i < |s.ready| ==> s.ready[i] < |s.status| && s.status[s.ready[i]] == Ready
    requires forall t :: 0 <= t < |s.status| && s.status[t] == Ready && !(t == IDLE && s.idleSet) ==> t in s.ready
    requires s.status[IDLE] != Dying && (s.idleSet ==> IDLE !in s.ready)
    requires !s.idleSet ==> s.status[IDLE] == Ready
    ensures Sane(Switch(s))
  {
    var s' := Switch(s);
    if s.ready != [] {
      assert forall i :: 0 <= i < |s'.ready| ==> s'.ready[i] == s.ready[i + 1];
      forall t | 0 <= t < |s'.status| && s'.status[t] == Ready && !(t == IDLE && s'.idleSet) ensures t in s'.ready {
        assert t in s.ready && t != s.ready[0];
      }
    }
  }

  lemma YieldSane(s: Sched)
    requires Sane(s)
    ensures Sane(YieldFrom(s))
  {
    var cur := s.running;
    var queue := if cur != IDLE || !s.idleSet then s.ready + [cur] else s.ready;
    var mid := s.(status := s.status[cur := Ready], ready := queue);
    assert cur !in s.ready;
    forall t | 0 <= t < |mid.status| && mid.status[t] == Ready && !(t == IDLE && s.idleSet) ensures t in queue {
      assert t == cur || t in s.ready;
    }
    SwitchSane(mid);
  }

  lemma QueueSane(s: Sched, t: Tid)
    requires Sane(s) && t < |s.status| && s.status[t] == Blocked && t != IDLE
    ensures Sane(s.(status := s.status[t := Ready], ready := s.ready + [t]))
  {
  }

  lemma SpawnSane(s: Sched)
    requires Sane(s)
    ensures Sane(s.(status := s.status + [Ready], ready := s.ready + [|s.status|]))
  {
  }

  /** Every operation keeps the invariant. */
  lemma ApplySane(s: Sched, op: Op)
    requires Sane(s) && Allowed(s, op)
    ensures Sane(Apply(s, op))
  {
    match op
    case Block => SwitchSane(s.(status := s.status[s.running := Blocked]));
    case Unblock(t) => QueueSane(s, t);
    case Yield => YieldSane(s);
    case Tick => YieldSane(s);
    case Exit => SwitchSane(s.(status := s.status[s.running := Dying]));
    case Spawn => SpawnSane(s);
    case Nop =>
    case SetIdle =>
  }

  lemma Basics(s: Sched)
    requires Sane(s)
    ensures IDLE < |s.status| && s.running < |s.status| && s.status[s.running] == Running
    ensures s.ready != [] ==> s.ready[0] < |s.status|
  {
  }

  /** The operations that call schedule() change the running thread's state first. */
  lemma SwitchForm(s: Sched)
    requires Sane(s)
    ensures Allowed(s, Block) ==> Apply(s, Block) == Switch(s.(status := s.status[s.running := Blocked]))
    ensures Allowed(s, Exit) ==> Apply(s, Exit) == Switch(s.(status := s.status[s.running := Dying]))
    ensures Apply(s, Yield) == Switch(s.(status := s.status[s.running := Ready],
      ready := if s.running != IDLE || !s.idleSet then s.ready + [s.running] else s.ready))
  {
  }

  /** Only exit makes a thread dying, and nothing revives one. */
  lemma ApplyDying(s: Sched, op: Op)
    requires Sane(s) && Allowed(s, op)
    ensures |Apply(s, op).status| == |s.status| + if op.Spawn? then 1 else 0
    ensures forall t :: 0 <= t < |s.status| ==>
      (Apply(s, op).status[t] == Dying <==> s.status[t] == Dying || (op.Exit? && t == s.running))
    ensures op.Spawn? ==> Apply(s, op).status[|s.status|] == Ready
    ensures Switches(s, op) && !op.Exit? ==> s.status[s.running] != Dying
    ensures op.Exit? ==> Apply(s, op).running != s.running && s.status[s.running] != Dying
  {
  }

  // ----- round-robin scheduling over whole runs

  /** A run: every operation is allowed when it comes. That the states on the way satisfy the
      invariant is no part of this; it follows from ApplySane. */
  ghost predicate Runs(s: Sched, ops: seq<Op>)
    requires Sane(s)
    decreases |ops|
  {
    ops == [] || (Allowed(s, ops[0]) && (ApplySane(s, ops[0]); Runs(Apply(s, ops[0]), ops[1..])))
  }

  ghost function After(s: Sched, ops: seq<Op>): Sched
    requires Sane(s) && Runs(s, ops)
    decreases |ops|
  {
    if ops == [] then s else ApplySane(s, ops[0]); After(Apply(s, ops[0]), ops[1..])
  }

  /** Whether an operation calls schedule(). */
  ghost predicate Switches(s: Sched, op: Op) {
    op.Block? || op.Yield? || op.Exit? || (op.Tick? && s.ticks + 1 >= TIME_SLICE)
  }

  ghost function SwitchCount(s: Sched, ops: seq<Op>): nat
    requires Sane(s) && Runs(s, ops)
    decreases |ops|
  {
    if ops == [] then 0
    else
      ApplySane(s, ops[0]);
      (if Switches(s, ops[0]) then 1 else 0) + SwitchCount(Apply(s, ops[0]), ops[1..])
  }

  ghost function TickCount(ops: seq<Op>): nat {
    if ops == [] then 0 else (if ops[0].Tick? then 1 else 0) + TickCount(ops[1..])
  }

  /** The invariant holds at the end of every run of allowed operations. */
  lemma {:induction false} RunSane(s: Sched, ops: seq<Op>)
    requires Sane(s) && Runs(s, ops)
    ensures Sane(After(s, ops))
    decreases |ops|
  {
    hide Sane, Apply, Allowed;
    if ops != [] {
      ApplySane(s, ops[0]);
      RunSane(Apply(s, ops[0]), ops[1..]);
    }
  }

  /** Any operation allowed at the end of a run makes it longer, and the longer run keeps the
      invariant too. */
  lemma {:induction false} RunExtends(s: Sched, ops: seq<Op>, op: Op)
    requires Sane(s) && Runs(s, ops)
    ensures Sane(After(s, ops))
    ensures Allowed(After(s, ops), op) ==>
      Runs(s, ops + [op]) && After(s, ops + [op]) == Apply(After(s, ops), op) && Sane(After(s, ops + [op]))
    decreases |ops|
  {
    hide Sane, Apply, Allowed;
    if ops == [] {
      if Allowed(s, op) {
        ApplySane(s, op);
        assert ([] + [op])[1..] == [];
      }
    } else {
      ApplySane(s, ops[0]);
      RunExtends(Apply(s, ops[0]), ops[1..], op);
      assert (ops + [op])[1..] == ops[1..] + [op];
    }
  }

  /** A state some run from boot ends in. */
  ghost predicate Reachable(s: Sched) {
    InitialSane();
    exists ops :: Runs(INITIAL, ops) && After(INITIAL, ops) == s
  }

  /** In every reachable state exactly one thread runs and the ready list is exact. */
  lemma ReachableSane(s: Sched)
    requires Reachable(s)
    ensures Sane(s)
  {
    hide Sane, Apply, Allowed;
    InitialSane();
    var ops :| Runs(INITIAL, ops) && After(INITIAL, ops) == s;
    RunSane(INITIAL, ops);
  }

  /** Every allowed operation leads from a reachable state to a reachable one. */
  lemma ReachableApply(s: Sched, op: Op)
    requires Reachable(s) && Sane(s) && Allowed(s, op)
    ensures Reachable(Apply(s, op))
  {
    hide Sane, Apply, Allowed;
    InitialSane();
    var ops :| Runs(INITIAL, ops) && After(INITIAL, ops) == s;
    RunExtends(INITIAL, ops, op);
    assert Runs(INITIAL, ops + [op]);
  }

  /** One operation moves a queued thread forward by one exactly when it switches. */
  lemma QueueAdvances(s: Sched, op: Op, k: nat)
    requires Sane(s) && Allowed(s, op) && k < |s.ready|
    ensures var s' := Apply(s, op);
      if !Switches(s, op) then k < |s'.ready| && s'.ready[k] == s.ready[k]
      else if k == 0 then s'.running == s.ready[0]
      else k - 1 < |s'.ready| && s'.ready[k - 1] == s.ready[k]
  {
  }

  /** Over every run with at most k switches, the thread at position k of the ready list
      stays queued and has moved forward once for each of them. */
  lemma {:induction false} RoundRobin(s: Sched, ops: seq<Op>, k: nat)
    requires Sane(s) && Runs(s, ops) && k < |s.ready| && SwitchCount(s, ops) <= k
    ensures var j := k - SwitchCount(s, ops);
      j < |After(s, ops).ready| && After(s, ops).ready[j] == s.ready[k]
    decreases |ops|
  {
    hide Sane, Apply;
    if ops != [] {
      ApplySane(s, ops[0]);
      QueueAdvances(s, ops[0], k);
      RoundRobin(Apply(s, ops[0]), ops[1..], if Switches(s, ops[0]) then k - 1 else k);
    }
  }

  /** The switch after exactly k others is the one that runs the thread at position k. */
  lemma RunsOnItsTurn(s: Sched, ops: seq<Op>, op: Op, k: nat)
    requires Sane(s) && Runs(s, ops) && k < |s.ready| && SwitchCount(s, ops) == k
    requires Allowed(After(s, ops), op) && Switches(After(s, ops), op)
    ensures Sane(After(s, ops)) && Apply(After(s, ops), op).running == s.ready[k]
  {
    RunSane(s, ops);
    RoundRobin(s, ops, k);
    QueueAdvances(After(s, ops), op, 0);
  }

  /** Timer ticks force switches: at most TIME_SLICE ticks go by per switch. */
  lemma {:induction false} TicksForceSwitches(s: Sched, ops: seq<Op>)
    requires Sane(s) && Runs(s, ops)
    ensures s.ticks + TickCount(ops) <= TIME_SLICE * SwitchCount(s, ops) + After(s, ops).ticks
    decreases |ops|
  {
    if ops != [] {
      ApplySane(s, ops[0]);
      TicksForceSwitches(Apply(s, ops[0]), ops[1..]);
    }
  }

  /** Who runs next, and what the tick count and the idle thread's flag are, operation by operation. */
  lemma WhoRuns(s: Sched, op: Op)
    requires Sane(s) && Allowed(s, op)
    ensures var s' := Apply(s, op);
      var gives, stays := op.Block? || op.Exit? || op.Yield? || (op.Tick? && s.ticks == 3), op.Yield? || op.Tick?;
      && s'.running == (if !gives then s.running
                        else if s.ready != [] then s.ready[0]
                        else if stays && (s.running != IDLE || !s.idleSet) then s.running else IDLE)
      && s'.ticks == (if gives then 0 else if op.Tick? then s.ticks + 1 else s.ticks)
      && (s'.idleSet <==> s.idleSet || op.SetIdle?)
  {
  }

  /** Nobody is preempted before 4 ticks: without a call that gives up the processor, the same thread
      runs until the fourth tick since it got it. */
  lemma {:induction false} SliceIsWhole(s: Sched, ops: seq<Op>)
    requires Sane(s) && Runs(s, ops) && s.ticks + TickCount(ops) < 4
    requires forall op :: op in ops ==> !op.Block? && !op.Yield? && !op.Exit?
    ensures After(s, ops).running == s.running && After(s, ops).ticks == s.ticks + TickCount(ops)
    decreases |ops|
  {
    hide Sane, Apply;
    if ops != [] {
      assert ops[0] in ops;
      WhoRuns(s, ops[0]);
      ApplySane(s, ops[0]);
      SliceIsWhole(Apply(s, ops[0]), ops[1..]);
    }
  }

  function Ticks(n: nat): seq<Op> {
    if n == 0 then [] else [Tick] + Ticks(n - 1)
  }

  /** And every fourth tick switches. */
  lemma {:induction false} TicksSwitch(s: Sched, n: nat)
    requires Sane(s)
    ensures Runs(s, Ticks(n)) && After(s, Ticks(n)).ticks == (s.ticks + n) % 4
    ensures SwitchCount(s, Ticks(n)) == (s.ticks + n) / 4
    decreases n
  {
    hide Apply;
    if n > 0 {
      WhoRuns(s, Tick);
      ApplySane(s, Tick);
      hide Sane;
      TicksSwitch(Apply(s, Tick), n - 1);
      assert Ticks(n)[1..] == Ticks(n - 1);
    }
  }

  /** No starvation, with a bound: in every run of at least 4 (k + 1) timer ticks the thread
      at position k of the ready list gets the processor after some prefix of the run. */
  lemma BoundedWait(s: Sched, ops: seq<Op>, k: nat) returns (i: nat)
    requires Sane(s) && Runs(s, ops) && k < |s.ready| && TickCount(ops) >= TIME_SLICE * (k + 1)
    ensures i <= |ops| && Runs(s, ops[..i]) && After(s, ops[..i]).running == s.ready[k]
  {
    TicksForceSwitches(s, ops);
    RunSane(s, ops);
    i := TurnComes(s, ops, k);
  }

  lemma {:induction false} TurnComes(s: Sched, ops: seq<Op>, k: nat) returns (i: nat)
    requires Sane(s) && Runs(s, ops) && k < |s.ready| && SwitchCount(s, ops) > k
    ensures 0 < i <= |ops| && Runs(s, ops[..i]) && After(s, ops[..i]).running == s.ready[k]
    decreases |ops|
  {
    hide Sane, Apply;
    ApplySane(s, ops[0]);
    QueueAdvances(s, ops[0], k);
    var s' := Apply(s, ops[0]);
    assert Runs(s', ops[1..]);
    if Switches(s, ops[0]) && k == 0 {
      i := 1;
      assert Runs(s', []);
      assert ops[..1] == [ops[0]];
    } else {
      i := TurnComes(s', ops[1..], if Switches(s, ops[0]) then k - 1 else k);
      i := i + 1;
      assert ops[..i][1..] == ops[1..][..i - 1] && ops[..i][0] == ops[0];
    }
  }

  // ----- the code of thread.c

  /** The initial thread, whose page does not come from the page allocator. */
  const MAIN: Tid := 0

  /** Threads not on all_list are exactly the dying ones, and of those each but the initial
      thread has been freed exactly once. */
  ghost predicate Accounted(all: seq<Tid>, freed: seq<Tid>, status: seq<Status>) {
    && Distinct(all) && Distinct(freed)
    && (forall t: Tid :: t in all <==> t < |status| && status[t] != Dying)
    && (forall t: Tid :: t in freed <==> t < |status| && status[t] == Dying && t != MAIN)
  }

  lemma AccountKept(all: seq<Tid>, freed: seq<Tid>, status: seq<Status>, status': seq<Status>)
    requires Accounted(all, freed, status) && |status'| == |status|
    requires forall t :: 0 <= t < |status| ==> (status'[t] == Dying <==> status[t] == Dying)
    ensures Accounted(all, freed, status')
  {
  }

  lemma AccountExit(all: seq<Tid>, freed: seq<Tid>, status: seq<Status>, status': seq<Status>, cur: Tid)
    requires Accounted(all, freed, status) && |status'| == |status| && cur < |status| && status[cur] != Dying
    requires forall t :: 0 <= t < |status| ==> (status'[t] == Dying <==> status[t] == Dying || t == cur)
    ensures Accounted(Without(all, cur), if cur == MAIN then freed else freed + [cur], status')
  {
    WithoutDistinct(all, cur);
  }

  lemma AccountSpawn(all: seq<Tid>, freed: seq<Tid>, status: seq<Status>)
    requires Accounted(all, freed, status)
    ensures Accounted(all + [|status|], freed, status + [Ready])
  {
    var status' := status + [Ready];
    forall t: Tid ensures t in all + [|status|] <==> t < |status'| && status'[t] != Dying {
      assert t in all + [|status|] <==> t in all || t == |status|;
      assert t < |status| ==> status'[t] == status[t];
    }
    forall t: Tid ensures t in freed <==> t < |status'| && status'[t] == Dying && t != MAIN {
      assert t < |status| ==> status'[t] == status[t];
    }
    assert |status| !in all;
  }

  lemma NotSpawned(all: seq<Tid>, freed: seq<Tid>, status: seq<Status>)
    requires Accounted(all, freed, status)
    ensures |status| !in all && |status| !in freed
  {
  }

  class Scheduler {
    var status: seq<Status>
    var readyList: seq<Tid>
    var allList: seq<Tid>
    var running: Tid
    var idleSet: bool
    var threadTicks: nat
    /** Threads whose page has been given back, in order. */
    var freed: seq<Tid>

    ghost function View(): Sched
      reads this
    {
      Sched(status, readyList, running, idleSet, threadTicks)
    }

    ghost predicate Valid()
      reads this
    {
      Sane(View()) && Accounted(allList, freed, status)
    }

    constructor ()
      ensures Valid() && View() == INITIAL
    {
      status, readyList, allList, running := [Running, Ready], [IDLE], [MAIN, IDLE], MAIN;
      idleSet, threadTicks, freed := false, 0, [];
      new;
      InitialSane();
    }

    /** next_thread_to_run: the thread chosen and those left make up the queue as it was, in its
        order; the idle thread is chosen exactly when nobody is queued. */
    method NextThreadToRun() returns (next: Tid)
      modifies `readyList
      ensures if old(readyList) == [] then next == IDLE && readyList == [] else old(readyList) == [next] + readyList
    {
      if readyList == [] {
        next := IDLE;
      } else {
        next := readyList[0];
        readyList := readyList[1..];
      }
    }

    /** schedule and thread_schedule_tail: switches to the next thread and, when the previous
        one is dying, destroys it. */
    method Schedule()
      requires running < |status| && status[running] != Running
      requires readyList == [] ==> IDLE < |status|
      requires readyList != [] ==> readyList[0] < |status|
      modifies this
      ensures View() == Switch(old(View())) && allList == old(allList)
      ensures freed == if status[old(running)] == Dying && old(running) != MAIN
                       then old(freed) + [old(running)] else old(freed)
    {
      var cur := running;
      var next := NextThreadToRun();
      running := next;
      status := status[next := Running];
      threadTicks := 0;
      if cur != next && status[cur] == Dying && cur != MAIN {
        freed := freed + [cur];
      }
    }

    /** thread_block. */
    method ThreadBlock()
      requires Valid() && Allowed(View(), Block)
      modifies this
      ensures Valid() && View() == Apply(old(View()), Block)
    {
      hide Sane, Accounted, Apply, Switch;
      Basics(View());
      SwitchForm(View());
      ApplySane(View(), Block);
      ApplyDying(View(), Block);
      AccountKept(allList, freed, status, Apply(View(), Block).status);
      ghost var mid := View().(status := status[running := Blocked]);
      assert Apply(View(), Block) == Switch(mid);
      status := status[running := Blocked];
      assert View() == mid;
      Schedule();
      assert status == Apply(old(View()), Block).status && status[old(running)] != Dying;
    }

    /** thread_unblock. */
    method ThreadUnblock(t: Tid)
      requires Valid() && Allowed(View(), Unblock(t))
      modifies this
      ensures Valid() && View() == Apply(old(View()), Unblock(t))
    {
      hide Sane, Accounted;
      ApplySane(View(), Unblock(t));
      ApplyDying(View(), Unblock(t));
      AccountKept(allList, freed, status, Apply(View(), Unblock(t)).status);
      readyList := readyList + [t];
      status := status[t := Ready];
    }

    /** thread_yield. */
    method ThreadYield()
      requires Valid()
      modifies this
      ensures Valid() && View() == Apply(old(View()), Yield)
    {
      hide Sane, Accounted, Apply, Switch;
      Basics(View());
      SwitchForm(View());
      ApplySane(View(), Yield);
      ApplyDying(View(), Yield);
      AccountKept(allList, freed, status, Apply(View(), Yield).status);
      ghost var mid := View().(status := status[running := Ready],
        ready := if running != IDLE || !idleSet then readyList + [running] else readyList);
      assert Apply(View(), Yield) == Switch(mid);
      if running != IDLE || !idleSet {
        readyList := readyList + [running];
      }
      status := status[running := Ready];
      assert View() == mid;
      Schedule();
      assert status == Apply(old(View()), Yield).status && status[old(running)] != Dying;
    }

    /** thread_tick and the yield on return from the interrupt. */
    method ThreadTick()
      requires Valid()
      modifies this
      ensures Valid() && View() == Apply(old(View()), Tick)
    {
      hide Sane, Accounted;
      ApplySane(View(), Tick);
      ApplyDying(View(), Tick);
      AccountKept(allList, freed, status, Apply(View(), Tick).status);
      if threadTicks + 1 >= TIME_SLICE {
        ThreadYield();
      } else {
        threadTicks := threadTicks + 1;
      }
    }

    /** The core of thread_exit: leaves all_list, then never runs again. */
    method ThreadExit()
      requires Valid() && Allowed(View(), Exit)
      modifies this
      ensures Valid() && View() == Apply(old(View()), Exit)
    {
      hide Sane, Accounted, Apply, Switch;
      Basics(View());
      SwitchForm(View());
      ApplySane(View(), Exit);
      ApplyDying(View(), Exit);
      AccountExit(allList, freed, status, Apply(View(), Exit).status, running);
      ghost var mid := View().(status := status[running := Dying]);
      assert Apply(View(), Exit) == Switch(mid);
      var cur := running;
      allList := Without(allList, cur);
      status := status[cur := Dying];
      assert View() == mid;
      Schedule();
      assert status == Apply(old(View()), Exit).status && status[old(running)] == Dying;
    }

    /** thread_create; `page` is whether palloc_get_page succeeded. None is TID_ERROR. */
    method ThreadCreate(page: bool) returns (t: Option<Tid>)
      requires Valid()
      modifies this
      ensures Valid() && (t.Some? <==> page) && (t.None? ==> View() == old(View()))
      ensures t.Some? ==>
        && t.value == |old(status)| && t.value !in old(allList) && t.value !in old(freed)
        && View() == Apply(old(View()), Spawn)
    {
      hide Sane, Accounted;
      if !page {
        return None;
      }
      ApplySane(View(), Spawn);
      NotSpawned(allList, freed, status);
      AccountSpawn(allList, freed, status);
      var tid := |status|;
      allList := allList + [tid];
      readyList := readyList + [tid];
      status := status + [Ready];
      t := Some(tid);
    }
  }
}
