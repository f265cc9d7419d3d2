/** Every step of the synchronization primitives keeps the invariant. */
module SynchProofs {
  import opened Options
  import opened Sequences
  import opened Threads
  import opened Synch

  // ----- what a scheduler operation does to blocked threads

  lemma ApplyBlocked(s: Sched, op: Op)
    requires Sane(s) && Allowed(s, op)
    ensures |Apply(s, op).status| == |s.status| + if op.Spawn? then 1 else 0
    ensures forall t :: 0 <= t < |s.status| && t != IDLE ==>
      (Apply(s, op).status[t] == Blocked <==>
        (s.status[t] == Blocked && op != Unblock(t)) || (op == Block && t == s.running))
    ensures op.Spawn? ==> Apply(s, op).status[|s.status|] == Ready
    ensures s.status[s.running] == Running
  {
  }

  // ----- frames: what a transition may leave alone

  /** Wait lists, sleepers and blocked threads stay as they are; values do not grow. */
  ghost predicate KeepsQueues(k: State, k': State) {
    && |k.semas| <= |k'.semas| && |k.pc| <= |k'.pc|
    && |k.pc| == |k.sched.status| && |k'.pc| == |k'.sched.status|
    && (forall s :: 0 <= s < |k.semas| ==>
          k'.semas[s].waiters == k.semas[s].waiters && k'.semas[s].value <= k.semas[s].value)
    && (forall s :: |k.semas| <= s < |k'.semas| ==> k'.semas[s].waiters == [])
    && (forall u: Tid :: u != IDLE ==> (IsBlocked(k', u) <==> IsBlocked(k, u)))
    && (forall u: Tid, s: SemaId :: Slept(k', u, s) <==> Slept(k, u, s))
    && (forall s: SemaId :: !Slept(k, IDLE, s))
    && (forall u: Tid :: u < |k.pc| && IsBlocked(k, u) && u != IDLE ==> k'.pc[u] == k.pc[u])
  }

  lemma QueuesKept(k: State, k': State)
    requires Queues(k) && NoLostWakeup(k) && KeepsQueues(k, k')
    ensures Queues(k') && NoLostWakeup(k')
  {
    forall s: SemaId ensures Woken(k', s) == Woken(k, s) {
      forall u: Tid ensures u in Woken(k', s) <==> u in Woken(k, s) {
        assert Slept(k', u, s) <==> Slept(k, u, s);
      }
    }
  }

  /** Locks, what threads hold, who is inside and the locks' semaphore values stay as they are;
      new locks are free. */
  ghost predicate KeepsLocks(k: State, k': State) {
    && |k.locks| <= |k'.locks| && |k.holds| <= |k'.holds| == |k'.pc| && |k.pc| <= |k'.pc| && |k.semas| <= |k'.semas|
    && (forall l :: 0 <= l < |k.locks| ==> k'.locks[l] == k.locks[l])
    && (forall l :: |k.locks| <= l < |k'.locks| ==>
          k'.locks[l].holder == None && k'.locks[l].sema < |k'.semas| && k'.semas[k'.locks[l].sema].value == 1)
    && (forall l :: 0 <= l < |k.locks| && k.locks[l].sema < |k.semas| ==>
          k'.semas[k.locks[l].sema].value == k.semas[k.locks[l].sema].value)
    && (forall t :: 0 <= t < |k.holds| ==> k'.holds[t] == k.holds[t])
    && (forall t :: |k.holds| <= t < |k'.holds| ==> k'.holds[t] == {} && k'.pc[t] == Outside)
    && (forall t :: 0 <= t < |k.pc| ==> LockPart(k'.pc[t]) == LockPart(k.pc[t]))
  }

  /** The lock a position puts its thread inside of, beyond those it holds. */
  function LockPart(pc: Pc): Option<LockId> {
    match pc
    case Acquired(l, _) => Some(l)
    case Releasing(l, _) => Some(l)
    case _ => None
  }

  lemma LocksKept(k: State, k': State)
    requires Shape(k) && Exclusive(k) && KeepsLocks(k, k')
    ensures Exclusive(k')
  {
    forall l: LockId | l < |k.locks| ensures Inside(k', l) == Inside(k, l) {
      forall t: Tid ensures t in Inside(k', l) <==> t in Inside(k, l) {
        if t < |k.pc| {
          assert LockPart(k'.pc[t]) == LockPart(k.pc[t]);
        }
      }
    }
    forall l: LockId | |k.locks| <= l < |k'.locks| ensures Inside(k', l) == {} {
      forall t: Tid ensures t !in Inside(k', l) {
        if t < |k.pc| {
          assert PcOk(k, t) && LockPart(k'.pc[t]) == LockPart(k.pc[t]);
        }
      }
    }
    forall l | 0 <= l < |k'.locks| && k'.locks[l].sema < |k'.semas|
      ensures k'.semas[k'.locks[l].sema].value + |Inside(k', l)| == 1
    {
      if l < |k.locks| { assert LockOk(k, l); }
    }
    forall t | 0 <= t < |k'.pc|
      ensures (k'.pc[t].Acquired? ==> k'.pc[t].l !in k'.holds[t])
           && (k'.pc[t].Releasing? ==> k'.pc[t].l !in k'.holds[t])
    {
      if t < |k.pc| { assert LockPart(k'.pc[t]) == LockPart(k.pc[t]); }
    }
  }

  /** Condition lists, waiters' semaphores and who waits with them stay as they are. */
  ghost predicate KeepsSignals(k: State, k': State) {
    && |k.semas| <= |k'.semas| && |k.pc| <= |k'.pc| && |k.conds| <= |k'.conds|
    && (forall c :: 0 <= c < |k.conds| ==> k'.conds[c].waiters == k.conds[c].waiters)
    && (forall c :: |k.conds| <= c < |k'.conds| ==> k'.conds[c].waiters == [])
    && (forall w :: 0 <= w < |k.semas| ==> k'.semas[w].kind == k.semas[w].kind)
    && (forall w :: 0 <= w < |k.semas| && k.semas[w].kind.Waiter? ==> k'.semas[w].value == k.semas[w].value)
    && (forall w :: |k.semas| <= w < |k'.semas| ==> !k'.semas[w].kind.Waiter?)
    && (forall t :: 0 <= t < |k.pc| ==> WaitingOn(k'.pc[t]) == WaitingOn(k.pc[t]))
  }

  lemma SignalsKept(k: State, k': State)
    requires Signals(k) && KeepsSignals(k, k')
    ensures Signals(k')
  {
  }

  /** The counters of every condition and the set of signaled threads stay as they are. */
  ghost predicate KeepsBalance(k: State, k': State) {
    && |k.pc| <= |k'.pc| && |k.conds| <= |k'.conds|
    && (forall c :: 0 <= c < |k.conds| ==>
          k'.conds[c].pops == k.conds[c].pops && k'.conds[c].returned == k.conds[c].returned)
    && (forall c :: |k.conds| <= c < |k'.conds| ==> k'.conds[c].pops == k'.conds[c].returned)
    && (forall t: Tid, c: CondId :: t < |k.pc| ==> (Signaled(k', t, c) <==> Signaled(k, t, c)))
    && (forall t: Tid, c: CondId :: |k.pc| <= t < |k'.pc| ==> !Signaled(k', t, c))
  }

  lemma BalanceKept(k: State, k': State)
    requires Shape(k) && Balanced(k) && KeepsBalance(k, k')
    ensures Balanced(k')
  {
    forall c: CondId ensures InFlight(k', c) == InFlight(k, c) {
    }
    forall c | |k.conds| <= c < |k'.conds| ensures InFlight(k', c) == {} {
      forall t: Tid | t < |k.pc| ensures !Signaled(k, t, c) {
        assert PcOk(k, t);
      }
    }
  }

  /** Semaphores keep their kind, locks their semaphore and conditions their lock. */
  ghost predicate KeepsObjects(k: State, k': State) {
    && |k.semas| <= |k'.semas| && |k.locks| <= |k'.locks| && |k.conds| <= |k'.conds| && |k.pc| <= |k'.pc|
    && (forall s :: 0 <= s < |k.semas| ==> k'.semas[s].kind == k.semas[s].kind)
    && (forall l :: 0 <= l < |k.locks| ==> k'.locks[l].sema == k.locks[l].sema)
    && (forall c :: 0 <= c < |k.conds| ==> k'.conds[c].lock == k.conds[c].lock)
  }

  /** Only the running thread's position and locks change, besides new objects and threads. */
  ghost predicate OthersStay(k: State, k': State) {
    && |k.pc| == |k.holds| <= |k'.pc| == |k'.holds|
    && (forall u :: 0 <= u < |k.pc| && u != k.sched.running ==> k'.pc[u] == k.pc[u] && k'.holds[u] == k.holds[u])
    && (forall u :: |k.pc| <= u < |k'.pc| ==> k'.pc[u] == Outside && k'.holds[u] == {})
  }

  lemma ShapeKept(k: State, k': State)
    requires Shape(k) && KeepsObjects(k, k') && OthersStay(k, k')
    requires Sane(k'.sched) && |k'.pc| == |k'.sched.status| && PcOk(k', k.sched.running)
    requires k.sched.running == IDLE ==> k'.pc[IDLE] == Outside && k'.holds[IDLE] == {}
    requires forall s :: |k.semas| <= s < |k'.semas| ==> SemaOk(k', s)
    requires forall l :: |k.locks| <= l < |k'.locks| ==> LockOk(k', l)
    requires forall c :: |k.conds| <= c < |k'.conds| ==> k'.conds[c].lock < |k'.locks|
    ensures Shape(k')
  {
    forall t | 0 <= t < |k'.pc| ensures PcOk(k', t) {
      if t < |k.pc| { assert PcOk(k, t); }
    }
    forall s | 0 <= s < |k'.semas| ensures SemaOk(k', s) {
      if s < |k.semas| { assert SemaOk(k, s); }
    }
    forall l | 0 <= l < |k'.locks| ensures LockOk(k', l) {
      if l < |k.locks| { assert LockOk(k, l); }
    }
  }

  lemma PcSame(k: State, k': State, t: Tid)
    requires KeepsObjects(k, k') && t < |k.pc| && t < |k.holds| && t < |k'.holds| && PcOk(k, t)
    requires k'.pc[t] == k.pc[t] && k'.holds[t] == k.holds[t]
    ensures PcOk(k', t)
  {
  }

  /** The condition a thread is returning from, once it has consumed its signal. */
  function FromPart(pc: Pc): Option<CondId> {
    match pc
    case Downing(_, _, ToHolder(_, from)) => from
    case Acquired(_, from) => from
    case _ => None
  }

  /** A step that touches neither locks nor conditions: plain semaphores, wait lists, the
      scheduler, and the running thread's position in ways that matter to neither. */
  ghost predicate Quiet(k: State, k': State) {
    && k'.locks == k.locks && k'.conds == k.conds && k'.holds == k.holds
    && |k'.pc| == |k.pc| && |k'.semas| == |k.semas|
    && (forall s :: 0 <= s < |k.semas| ==>
          k'.semas[s].kind == k.semas[s].kind
          && (k.semas[s].kind != Plain ==> k'.semas[s].value == k.semas[s].value))
    && (forall u :: 0 <= u < |k.pc| && u != k.sched.running ==> k'.pc[u] == k.pc[u])
    && (forall u :: 0 <= u < |k.pc| ==>
          LockPart(k'.pc[u]) == LockPart(k.pc[u]) && WaitingOn(k'.pc[u]) == WaitingOn(k.pc[u])
          && FromPart(k'.pc[u]) == FromPart(k.pc[u]))
  }

  /** Neither the life of a signal nor the balance is touched. */
  ghost predicate KeepsConds(k: State, k': State) {
    && |k'.semas| == |k.semas| && |k'.pc| == |k.pc| && k'.conds == k.conds
    && (forall s :: 0 <= s < |k.semas| ==>
          k'.semas[s].kind == k.semas[s].kind && (k.semas[s].kind.Waiter? ==> k'.semas[s].value == k.semas[s].value))
    && (forall u :: 0 <= u < |k.pc| ==>
          WaitingOn(k'.pc[u]) == WaitingOn(k.pc[u]) && FromPart(k'.pc[u]) == FromPart(k.pc[u]))
  }

  lemma CondsKept(k: State, k': State)
    requires Shape(k) && Signals(k) && Balanced(k) && KeepsConds(k, k')
    ensures Signals(k') && Balanced(k')
  {
    hide Sane, Signals, Balanced, PcOk, SemaOk, LockOk;
    SignalsKept(k, k');
    forall u: Tid, c: CondId | u < |k.pc| ensures Signaled(k', u, c) <==> Signaled(k, u, c) {
      assert FromPart(k'.pc[u]) == FromPart(k.pc[u]) && WaitingOn(k'.pc[u]) == WaitingOn(k.pc[u]);
    }
    BalanceKept(k, k');
  }

  lemma QuietKept(k: State, k': State)
    requires Shape(k) && Exclusive(k) && Signals(k) && Balanced(k) && Quiet(k, k')
    requires Sane(k'.sched) && |k'.pc| == |k'.sched.status| && PcOk(k', k.sched.running)
    requires k.sched.running == IDLE ==> k'.pc[IDLE] == Outside
    ensures Shape(k') && Exclusive(k') && Signals(k') && Balanced(k')
  {
    hide Sane, Exclusive, Signals, Balanced, PcOk;
    ShapeKept(k, k');
    forall l | 0 <= l < |k.locks| && k.locks[l].sema < |k.semas|
      ensures k'.semas[k.locks[l].sema].value == k.semas[k.locks[l].sema].value
    {
      assert LockOk(k, l);
    }
    LocksKept(k, k');
    CondsKept(k, k');
  }

  // ----- steps of the scheduler alone, and new objects

  lemma SchedStep(k: State, op: Op)
    requires Inv(k) && Allowed(k.sched, op)
    requires op.Yield? || op.Tick? || op.SetIdle? || op.Exit? || (op.Block? && k.sched.running == IDLE)
    ensures Inv(k.(sched := Apply(k.sched, op)))
  {
    hide Apply, Sane, Queues, NoLostWakeup, Exclusive, Signals, Balanced, PcOk;
    var k' := k.(sched := Apply(k.sched, op));
    Basics(k.sched);
    ApplySane(k.sched, op);
    ApplyBlocked(k.sched, op);
    PcSame(k, k', k.sched.running);
    QuietKept(k, k');
    QueuesKept(k, k');
  }

  lemma CreateShape(k: State)
    requires Inv(k)
    ensures var k' := k.(sched := Apply(k.sched, Spawn), pc := k.pc + [Outside], holds := k.holds + [{}]);
      Shape(k') && Queues(k') && NoLostWakeup(k')
  {
    hide Apply, Sane, Queues, NoLostWakeup, Exclusive, Signals, Balanced, PcOk, SemaOk, LockOk;
    var k' := k.(sched := Apply(k.sched, Spawn), pc := k.pc + [Outside], holds := k.holds + [{}]);
    Basics(k.sched);
    ApplySane(k.sched, Spawn);
    ApplyBlocked(k.sched, Spawn);
    PcSame(k, k', k.sched.running);
    ShapeKept(k, k');
    QueuesKept(k, k');
  }

  lemma CreateStep(k: State)
    requires Inv(k)
    ensures Inv(k.(sched := Apply(k.sched, Spawn), pc := k.pc + [Outside], holds := k.holds + [{}]))
  {
    hide Apply, Sane, Queues, NoLostWakeup, Exclusive, Signals, Balanced, PcOk, SemaOk, LockOk;
    var k' := k.(sched := Apply(k.sched, Spawn), pc := k.pc + [Outside], holds := k.holds + [{}]);
    Basics(k.sched);
    ApplySane(k.sched, Spawn);
    ApplyBlocked(k.sched, Spawn);
    PcSame(k, k', k.sched.running);
    CreateShape(k);
    LocksKept(k, k');
    SignalsKept(k, k');
    BalanceKept(k, k');
  }

  lemma NewSemaShape(k: State, v: nat)
    requires Inv(k) && Enabled(k, NewSema(v))
    ensures var k' := Step(k, NewSema(v)); Shape(k') && Queues(k') && NoLostWakeup(k')
  {
    hide Apply, Sane, Queues, NoLostWakeup, Exclusive, Signals, Balanced, PcOk;
    var k' := Step(k, NewSema(v));
    Basics(k.sched);
    PcSame(k, k', k.sched.running);
    ShapeKept(k, k');
    QueuesKept(k, k');
  }

  lemma NewSemaStep(k: State, v: nat)
    requires Inv(k) && Enabled(k, NewSema(v))
    ensures Inv(Step(k, NewSema(v)))
  {
    hide Apply, Sane, Queues, NoLostWakeup, Exclusive, Signals, Balanced, PcOk;
    var k' := Step(k, NewSema(v));
    Basics(k.sched);
    PcSame(k, k', k.sched.running);
    NewSemaShape(k, v);
    LocksKept(k, k');
    SignalsKept(k, k');
    BalanceKept(k, k');
  }

  lemma NewLockShape(k: State)
    requires Inv(k) && Enabled(k, NewLock)
    ensures var k' := Step(k, NewLock); Shape(k') && Queues(k') && NoLostWakeup(k')
  {
    hide Apply, Sane, Queues, NoLostWakeup, Exclusive, Signals, Balanced, PcOk;
    var k' := Step(k, NewLock);
    Basics(k.sched);
    PcSame(k, k', k.sched.running);
    ShapeKept(k, k');
    QueuesKept(k, k');
  }

  lemma NewLockStep(k: State)
    requires Inv(k) && Enabled(k, NewLock)
    ensures Inv(Step(k, NewLock))
  {
    hide Apply, Sane, Queues, NoLostWakeup, Exclusive, Signals, Balanced, PcOk;
    var k' := Step(k, NewLock);
    Basics(k.sched);
    PcSame(k, k', k.sched.running);
    NewLockShape(k);
    LocksKept(k, k');
    SignalsKept(k, k');
    BalanceKept(k, k');
  }

  lemma NewCondShape(k: State, l: LockId)
    requires Inv(k) && Enabled(k, NewCond(l))
    ensures var k' := Step(k, NewCond(l)); Shape(k') && Queues(k') && NoLostWakeup(k')
  {
    hide Apply, Sane, Queues, NoLostWakeup, Exclusive, Signals, Balanced, PcOk;
    var k' := Step(k, NewCond(l));
    Basics(k.sched);
    PcSame(k, k', k.sched.running);
    ShapeKept(k, k');
    QueuesKept(k, k');
  }

  lemma NewCondStep(k: State, l: LockId)
    requires Inv(k) && Enabled(k, NewCond(l))
    ensures Inv(Step(k, NewCond(l)))
  {
    hide Apply, Sane, Queues, NoLostWakeup, Exclusive, Signals, Balanced, PcOk;
    var k' := Step(k, NewCond(l));
    Basics(k.sched);
    PcSame(k, k', k.sched.running);
    NewCondShape(k, l);
    LocksKept(k, k');
    SignalsKept(k, k');
    BalanceKept(k, k');
  }

  // ----- entering an operation

  /** Positions of a thread that has entered an operation but changed nothing yet. */
  predicate Entering(pc: Pc) {
    pc.Broadcasting? || (pc.Downing? && !pc.queued && !pc.after.ToReacquire?
      && (pc.after.ToHolder? ==> pc.after.from == None))
  }

  lemma CallStep(k: State, pc: Pc)
    requires Inv(k) && k.sched.running != IDLE && k.pc[k.sched.running] == Outside && Entering(pc)
    requires PcOk(SetPc(k, pc), k.sched.running)
    ensures Inv(SetPc(k, pc))
  {
    hide Apply, Sane, Queues, NoLostWakeup, Exclusive, Signals, Balanced, PcOk;
    Basics(k.sched);
    var k' := SetPc(k, pc);
    QuietKept(k, k');
    QueuesKept(k, k');
  }

  // ----- sema_down

  /** Going to sleep: thread t joins the list of s, whose value is zero. */
  lemma SleepQueues(k: State, k': State, t: Tid, s: SemaId)
    requires Queues(k) && NoLostWakeup(k) && |k'.pc| == |k.pc| == |k.sched.status| == |k'.sched.status|
    requires t < |k.pc| && t != IDLE && !IsBlocked(k, t) && s < |k.semas| && k.semas[s].value == 0
    requires k'.semas == k.semas[s := k.semas[s].(waiters := k.semas[s].waiters + [t])]
    requires (forall u :: 0 <= u < |k.pc| && u != t ==> k'.pc[u] == k.pc[u]) && Slept(k', t, s)
    requires forall u: Tid :: u != IDLE ==> (IsBlocked(k', u) <==> IsBlocked(k, u) || u == t)
    requires forall r: SemaId :: !Slept(k, IDLE, r)
    requires k.pc[t].Downing? && k.pc[t].s == s
    ensures Queues(k') && NoLostWakeup(k')
  {
    forall r | 0 <= r < |k'.semas| ensures Distinct(k'.semas[r].waiters) {
      assert t !in k.semas[s].waiters;
    }
    forall r: SemaId, u: Tid {:trigger u in k'.semas[r].waiters} | r < |k'.semas| && u in k'.semas[r].waiters
      ensures u != IDLE && IsBlocked(k', u) && Slept(k', u, r)
    {
      assert u != t ==> u in k.semas[r].waiters;
      assert r != s ==> u in k.semas[r].waiters;
    }
    forall r | 0 <= r < |k'.semas| && r != s ensures Woken(k', r) == Woken(k, r) {
      forall u: Tid ensures u in Woken(k', r) <==> u in Woken(k, r) {
        assert Slept(k', u, r) <==> Slept(k, u, r);
      }
    }
  }

  lemma DownWoken(k: State, k': State, t: Tid, s: SemaId, r: SemaId)
    requires |k'.pc| == |k.pc| && k'.sched == k.sched && t < |k.pc|
    requires forall u :: 0 <= u < |k.pc| && u != t ==> k'.pc[u] == k.pc[u]
    requires !Slept(k', t, r) && (Slept(k, t, r) ==> r == s)
    ensures Woken(k', r) == Woken(k, r) - {t} && (r != s ==> Woken(k', r) == Woken(k, r))
  {
    forall u: Tid ensures u in Woken(k', r) <==> u in Woken(k, r) - {t} {
      assert u != t ==> (Slept(k', u, r) <==> Slept(k, u, r));
    }
    assert r != s ==> t !in Woken(k, r);
  }

  /** Decrementing s: thread t leaves the loop; if it had been woken, it took its unit. */
  lemma DownQueues(k: State, k': State, t: Tid, s: SemaId)
    requires Queues(k) && NoLostWakeup(k) && |k'.pc| == |k.pc| && k'.sched == k.sched
    requires t < |k.pc| && t != IDLE && !IsBlocked(k, t) && s < |k.semas| && k.semas[s].value > 0
    requires |k'.semas| == |k.semas| && forall r :: 0 <= r < |k.semas| ==>
      k'.semas[r].waiters == k.semas[r].waiters
      && k'.semas[r].value == if r == s then k.semas[r].value - 1 else k.semas[r].value
    requires forall u :: 0 <= u < |k.pc| && u != t ==> k'.pc[u] == k.pc[u]
    requires forall r: SemaId :: !Slept(k', t, r) && (Slept(k, t, r) ==> r == s)
    ensures Queues(k') && NoLostWakeup(k')
  {
    hide Woken;
    forall r: SemaId ensures Woken(k', r) == Woken(k, r) - {t} && (r != s ==> Woken(k', r) == Woken(k, r)) {
      DownWoken(k, k', t, s, r);
    }
    forall r: SemaId, u: Tid {:trigger u in k'.semas[r].waiters} | r < |k'.semas| && u in k'.semas[r].waiters
      ensures u != IDLE && IsBlocked(k', u) && Slept(k', u, r)
    {
      assert u in k.semas[r].waiters && u != t;
    }
  }

  /** sema_up on s: the front of its list, if any, is woken, and the value grows by one. */
  lemma UpQueues(k: State, k': State, t: Tid, s: SemaId)
    requires Queues(k) && NoLostWakeup(k) && |k'.pc| == |k.pc| == |k.sched.status| == |k'.sched.status|
    requires t < |k.pc| && !IsBlocked(k, t) && s < |k.semas| == |k'.semas|
    requires forall r :: 0 <= r < |k.semas| && r != s ==>
      k'.semas[r].waiters == k.semas[r].waiters && k'.semas[r].value == k.semas[r].value
    requires k'.semas[s].value == k.semas[s].value + 1
    requires k'.semas[s].waiters == if k.semas[s].waiters == [] then [] else k.semas[s].waiters[1..]
    requires forall u :: 0 <= u < |k.pc| && u != t ==> k'.pc[u] == k.pc[u]
    requires forall r: SemaId :: Slept(k', t, r) <==> Slept(k, t, r)
    requires forall r: SemaId :: !Slept(k, IDLE, r)
    requires forall u: Tid :: u != IDLE ==>
      (IsBlocked(k', u) <==> IsBlocked(k, u) && !(k.semas[s].waiters != [] && u == k.semas[s].waiters[0]))
    ensures Queues(k') && NoLostWakeup(k')
  {
    var ws := k.semas[s].waiters;
    if ws == [] {
      UpQueuesIdle(k, k', t, s);
    } else {
      UpQueuesWake(k, k', t, s, ws[0]);
    }
  }

  lemma UpQueuesIdle(k: State, k': State, t: Tid, s: SemaId)
    requires Queues(k) && NoLostWakeup(k) && |k'.pc| == |k.pc| == |k.sched.status| == |k'.sched.status|
    requires t < |k.pc| && !IsBlocked(k, t) && s < |k.semas| == |k'.semas| && k.semas[s].waiters == []
    requires forall r :: 0 <= r < |k.semas| ==> k'.semas[r].waiters == k.semas[r].waiters
    requires forall r :: 0 <= r < |k.semas| && r != s ==> k'.semas[r].value == k.semas[r].value
    requires forall u :: 0 <= u < |k.pc| && u != t ==> k'.pc[u] == k.pc[u]
    requires forall r: SemaId :: Slept(k', t, r) <==> Slept(k, t, r)
    requires forall r: SemaId :: !Slept(k, IDLE, r)
    requires forall u: Tid :: u != IDLE ==> (IsBlocked(k', u) <==> IsBlocked(k, u))
    ensures Queues(k') && NoLostWakeup(k')
  {
    forall r: SemaId ensures Woken(k', r) == Woken(k, r) {
      forall u: Tid ensures u in Woken(k', r) <==> u in Woken(k, r) {
        assert Slept(k', u, r) <==> Slept(k, u, r);
      }
    }
    forall r: SemaId, u: Tid {:trigger u in k'.semas[r].waiters} | r < |k'.semas| && u in k'.semas[r].waiters
      ensures u != IDLE && IsBlocked(k', u) && Slept(k', u, r)
    {
      assert u in k.semas[r].waiters && u != t;
    }
  }

  lemma UpQueuesWake(k: State, k': State, t: Tid, s: SemaId, v: Tid)
    requires Queues(k) && NoLostWakeup(k) && |k'.pc| == |k.pc| == |k.sched.status| == |k'.sched.status|
    requires t < |k.pc| && !IsBlocked(k, t) && s < |k.semas| == |k'.semas|
    requires k.semas[s].waiters != [] && v == k.semas[s].waiters[0]
    requires forall r :: 0 <= r < |k.semas| && r != s ==>
      k'.semas[r].waiters == k.semas[r].waiters && k'.semas[r].value == k.semas[r].value
    requires k'.semas[s].value == k.semas[s].value + 1 && k'.semas[s].waiters == k.semas[s].waiters[1..]
    requires forall u :: 0 <= u < |k.pc| && u != t ==> k'.pc[u] == k.pc[u]
    requires forall r: SemaId :: Slept(k', t, r) <==> Slept(k, t, r)
    requires forall r: SemaId :: !Slept(k, IDLE, r)
    requires forall u: Tid :: u != IDLE ==> (IsBlocked(k', u) <==> IsBlocked(k, u) && u != v)
    ensures Queues(k') && NoLostWakeup(k')
  {
    assert v in k.semas[s].waiters && v != t;
    forall r: SemaId, u: Tid {:trigger u in k'.semas[r].waiters} | r < |k'.semas| && u in k'.semas[r].waiters
      ensures u != IDLE && IsBlocked(k', u) && Slept(k', u, r)
    {
      assert u in k.semas[r].waiters && u != t;
      assert u != v;
    }
    forall u: Tid | IsBlocked(k', u) && u != IDLE && u < |k'.pc|
      ensures k'.pc[u].Downing? && k'.pc[u].s < |k'.semas| && u in k'.semas[k'.pc[u].s].waiters
    {
      assert IsBlocked(k, u) && u != v && u in k.semas[k.pc[u].s].waiters;
    }
    assert Woken(k', s) == Woken(k, s) + {v} && v !in Woken(k, s) by {
      forall u: Tid ensures u in Woken(k', s) <==> u in Woken(k, s) + {v} {
        assert Slept(k', u, s) <==> Slept(k, u, s);
      }
    }
    forall r | 0 <= r < |k'.semas| && r != s ensures Woken(k', r) == Woken(k, r) {
      forall u: Tid ensures u in Woken(k', r) <==> u in Woken(k, r) {
        assert Slept(k', u, r) <==> Slept(k, u, r);
      }
    }
  }

  // ----- locks: who is inside

  ghost predicate SameButLock(k: State, k': State, t: Tid, l: LockId) {
    && |k'.pc| == |k.pc| == |k.holds| == |k'.holds| && |k'.locks| == |k.locks| && |k'.semas| == |k.semas|
    && t < |k.pc| && l < |k.locks|
    && (forall m :: 0 <= m < |k.locks| ==> k'.locks[m].sema == k.locks[m].sema < |k.semas|)
    && (forall m :: 0 <= m < |k.locks| && m != l ==>
          && k'.locks[m].holder == k.locks[m].holder
          && k'.semas[k.locks[m].sema].value == k.semas[k.locks[m].sema].value)
    && (forall u :: 0 <= u < |k.pc| && u != t ==>
          LockPart(k'.pc[u]) == LockPart(k.pc[u]) && k'.holds[u] == k.holds[u])
  }

  lemma InsideOthers(k: State, k': State, t: Tid, l: LockId)
    requires SameButLock(k, k', t, l)
    requires forall m: LockId :: m != l ==> (InsideAt(k', t, m) <==> InsideAt(k, t, m))
    ensures forall m: LockId :: m != l ==> Inside(k', m) == Inside(k, m)
    ensures Inside(k', l) - {t} == Inside(k, l) - {t}
  {
    forall m: LockId, u: Tid | u < |k.pc| && (u != t || m != l) ensures u in Inside(k', m) <==> u in Inside(k, m) {
      assert u != t ==> LockPart(k'.pc[u]) == LockPart(k.pc[u]);
    }
  }

  /** A thread that downs a lock's semaphore finds nobody inside and is then alone inside. */
  lemma LockDown(k: State, k': State, t: Tid, l: LockId)
    requires Exclusive(k) && SameButLock(k, k', t, l)
    requires k'.locks == k.locks && k'.holds == k.holds
    requires LockPart(k.pc[t]) == None && LockPart(k'.pc[t]) == Some(l)
    requires k.semas[k.locks[l].sema].value > 0
    requires k'.semas[k.locks[l].sema].value == k.semas[k.locks[l].sema].value - 1
    ensures Exclusive(k')
  {
    assert |Inside(k, l)| == 0 && t !in Inside(k, l);
    assert l !in k.holds[t] by { assert InsideAt(k, t, l) ==> t in Inside(k, l); }
    InsideOthers(k, k', t, l);
    assert t in Inside(k', l);
    assert Inside(k', l) == {t};
    forall u | 0 <= u < |k'.pc|
      ensures (k'.pc[u].Acquired? ==> k'.pc[u].l !in k'.holds[u]) &&
        (k'.pc[u].Releasing? ==> k'.pc[u].l !in k'.holds[u])
    {
      assert u != t ==> LockPart(k'.pc[u]) == LockPart(k.pc[u]);
    }
  }

  /** The up that ends lock_release takes its thread out. */
  lemma LockUp(k: State, k': State, t: Tid, l: LockId)
    requires Exclusive(k) && SameButLock(k, k', t, l)
    requires k'.locks == k.locks && k'.holds == k.holds
    requires k.pc[t].Releasing? && k.pc[t].l == l && LockPart(k'.pc[t]) == None
    requires k'.semas[k.locks[l].sema].value == k.semas[k.locks[l].sema].value + 1
    ensures Exclusive(k')
  {
    InsideOthers(k, k', t, l);
    assert t in Inside(k, l) && t !in Inside(k', l);
    assert Inside(k', l) == Inside(k, l) - {t};
    forall u | 0 <= u < |k'.pc|
      ensures (k'.pc[u].Acquired? ==> k'.pc[u].l !in k'.holds[u]) &&
        (k'.pc[u].Releasing? ==> k'.pc[u].l !in k'.holds[u])
    {
      assert u != t ==> LockPart(k'.pc[u]) == LockPart(k.pc[u]);
    }
  }

  /** A thread inside is the only one inside. */
  lemma OnlyInside(k: State, t: Tid, u: Tid, l: LockId)
    requires Exclusive(k) && l < |k.locks| && k.locks[l].sema < |k.semas|
    requires t in Inside(k, l) && u in Inside(k, l)
    ensures t == u
  {
    assert |Inside(k, l)| <= 1;
    assert |Inside(k, l) - {t}| == |Inside(k, l)| - 1;
    assert u != t ==> u in Inside(k, l) - {t};
  }

  /** Setting the holder field: the thread inside becomes the one that holds the lock. */
  lemma LockTake(k: State, k': State, t: Tid, l: LockId)
    requires Exclusive(k) && SameButLock(k, k', t, l)
    requires k.pc[t].Acquired? && k.pc[t].l == l && LockPart(k'.pc[t]) == None
    requires k'.holds[t] == k.holds[t] + {l} && k'.locks[l].holder == Some(t)
    requires k'.semas[k.locks[l].sema].value == k.semas[k.locks[l].sema].value
    ensures Exclusive(k')
  {
    InsideOthers(k, k', t, l);
    assert t in Inside(k, l) && t in Inside(k', l);
    assert Inside(k', l) == Inside(k, l);
    forall u | 0 <= u < |k.holds| && u != t ensures l !in k.holds[u] {
      if l in k.holds[u] {
        assert u in Inside(k, l);
        OnlyInside(k, t, u, l);
      }
    }
    forall u | 0 <= u < |k'.pc|
      ensures (k'.pc[u].Acquired? ==> k'.pc[u].l !in k'.holds[u]) &&
        (k'.pc[u].Releasing? ==> k'.pc[u].l !in k'.holds[u])
    {
      assert u != t ==> LockPart(k'.pc[u]) == LockPart(k.pc[u]);
    }
  }

  /** Clearing the holder field: the holder stays inside until its up. */
  lemma LockDrop(k: State, k': State, t: Tid, l: LockId)
    requires Exclusive(k) && SameButLock(k, k', t, l)
    requires l in k.holds[t] && LockPart(k.pc[t]) == None && LockPart(k'.pc[t]) == Some(l)
    requires k'.holds[t] == k.holds[t] - {l} && k'.locks[l].holder == None
    requires k'.semas[k.locks[l].sema].value == k.semas[k.locks[l].sema].value
    ensures Exclusive(k')
  {
    InsideOthers(k, k', t, l);
    assert t in Inside(k, l) && t in Inside(k', l);
    assert Inside(k', l) == Inside(k, l);
    forall u | 0 <= u < |k'.pc|
      ensures (k'.pc[u].Acquired? ==> k'.pc[u].l !in k'.holds[u]) &&
        (k'.pc[u].Releasing? ==> k'.pc[u].l !in k'.holds[u])
    {
      assert u != t ==> LockPart(k'.pc[u]) == LockPart(k.pc[u]);
    }
  }

  // ----- conditions: the life of a waiter's semaphore

  ghost predicate SameButCond(k: State, k': State, t: Tid, c: CondId, w: SemaId) {
    && |k'.pc| == |k.pc| && |k'.conds| == |k.conds| && t < |k.pc| && c < |k.conds|
    && (forall d :: 0 <= d < |k.conds| && d != c ==> k'.conds[d].waiters == k.conds[d].waiters)
    && (forall v :: 0 <= v < |k.semas| && v < |k'.semas| && v != w ==>
          k'.semas[v].kind == k.semas[v].kind && (k.semas[v].kind.Waiter? ==> k'.semas[v].value == k.semas[v].value))
    && (forall u :: 0 <= u < |k.pc| && u != t ==> WaitingOn(k'.pc[u]) == WaitingOn(k.pc[u]))
  }

  lemma SignalsEnqueue(k: State, k': State, t: Tid, c: CondId)
    requires Signals(k) && SameButCond(k, k', t, c, |k.semas|) && |k'.semas| == |k.semas| + 1
    requires k'.conds[c].waiters == k.conds[c].waiters + [|k.semas|]
    requires k'.semas[|k.semas|].kind == Waiter(c, t, Queued) && k'.semas[|k.semas|].value == 0
    requires WaitingOn(k.pc[t]) == None && WaitingOn(k'.pc[t]) == Some((c, |k.semas|))
    ensures Signals(k')
  {
    var ws := k.conds[c].waiters;
    forall i | 0 <= i < |ws| ensures ws[i] < |k.semas| { assert ws[i] in k.conds[c].waiters; }
    forall d: CondId, v: SemaId {:trigger v in k'.conds[d].waiters} | d < |k'.conds| && v in k'.conds[d].waiters
      ensures v < |k'.semas| && k'.semas[v].kind.Waiter? && k'.semas[v].kind.c == d
    {
      assert v in k.conds[d].waiters || (d == c && v == |k.semas|);
    }
    forall v | 0 <= v < |k.semas| && k.semas[v].kind.Waiter? && k.semas[v].kind.c == c
      ensures v in k'.conds[c].waiters <==> v in k.conds[c].waiters
    {
    }
  }

  lemma SignalsPop(k: State, k': State, t: Tid, c: CondId, w: SemaId)
    requires Signals(k) && |k'.semas| == |k.semas| && SameButCond(k, k', t, c, w)
    requires k.conds[c].waiters != [] && w == k.conds[c].waiters[0] && k'.conds[c].waiters == k.conds[c].waiters[1..]
    requires w < |k.semas| && k.semas[w].kind.Waiter? && k'.semas[w].kind == k.semas[w].kind.(phase := Popped)
    requires k'.semas[w].value == k.semas[w].value
    requires WaitingOn(k'.pc[t]) == WaitingOn(k.pc[t])
    ensures Signals(k') && k.semas[w].kind.phase == Queued && k.semas[w].kind.c == c
  {
    assert w in k.conds[c].waiters;
    assert k.conds[c].waiters == [w] + k'.conds[c].waiters;
    forall d: CondId, v: SemaId {:trigger v in k'.conds[d].waiters} | d < |k'.conds| && v in k'.conds[d].waiters
      ensures v < |k'.semas| && k'.semas[v].kind.Waiter? && k'.semas[v].kind.c == d
    {
      assert v in k.conds[d].waiters;
    }
  }

  /** The phase of one waiter's semaphore moves on without touching any list. */
  lemma SignalsAdvance(k: State, k': State, t: Tid, w: SemaId)
    requires Signals(k) && |k'.semas| == |k.semas| && w < |k.semas| && k.semas[w].kind.Waiter?
    requires SameButCond(k, k', t, k.semas[w].kind.c, w) && k'.conds == k.conds
    requires
      || (k.semas[w].kind.phase == Popped && k'.semas[w].kind == k.semas[w].kind.(phase := Upped)
          && k'.semas[w].value == k.semas[w].value + 1 && WaitingOn(k'.pc[t]) == WaitingOn(k.pc[t]))
      || (k.semas[w].kind.phase == Upped && k'.semas[w].kind == k.semas[w].kind.(phase := Consumed)
          && k'.semas[w].value == k.semas[w].value - 1 && k.semas[w].kind.t == t && WaitingOn(k'.pc[t]) == None)
    ensures Signals(k')
  {
    forall v | 0 <= v < |k'.semas| && k'.semas[v].kind.Waiter? && v != w
      ensures k.semas[v].kind.phase != Consumed <==> WaitingOn(k'.pc[k.semas[v].kind.t]) == Some((k.semas[v].kind.c, v))
    {
      assert WaitingOn(k.pc[k.semas[w].kind.t]) == Some((k.semas[w].kind.c, w));
    }
  }

  /** A signal takes one waiter off the list: one more thread is on its way. */
  lemma BalancePop(k: State, k': State, t: Tid, c: CondId, w: SemaId)
    requires Shape(k) && Signals(k) && Balanced(k)
    requires |k'.pc| == |k.pc| && |k'.conds| == |k.conds| && |k'.semas| == |k.semas| && t < |k.pc| && c < |k.conds|
    requires w < |k.semas| && k.semas[w].kind.Waiter? && k.semas[w].kind.c == c && k.semas[w].kind.phase == Queued
    requires k'.semas == k.semas[w := k.semas[w].(kind := k.semas[w].kind.(phase := Popped))]
    requires forall d :: 0 <= d < |k.conds| ==>
      k'.conds[d].returned == k.conds[d].returned && k'.conds[d].pops == k.conds[d].pops + if d == c then 1 else 0
    requires forall u :: 0 <= u < |k.pc| && u != t ==> k'.pc[u] == k.pc[u]
    requires (k.pc[t] == Outside || k.pc[t].Broadcasting?) && k'.pc[t].Signaling?
    ensures Balanced(k')
  {
    var v := k.semas[w].kind.t;
    assert WaitingOn(k.pc[v]) == Some((c, w)) && v != t && !Signaled(k, v, c) && Signaled(k', v, c);
    forall u: Tid, d: CondId | u < |k.pc| && (u != v || d != c)
      ensures Signaled(k', u, d) <==> Signaled(k, u, d)
    {
      assert PcOk(k, u);
    }
    forall d: CondId | d != c ensures InFlight(k', d) == InFlight(k, d) {
    }
    assert InFlight(k', c) == InFlight(k, c) + {v};
  }

  /** Returning from cond_wait: one thread fewer is on its way. */
  lemma BalanceReturn(k: State, k': State, t: Tid, c: CondId)
    requires Balanced(k) && k'.semas == k.semas
    requires |k'.pc| == |k.pc| && |k'.conds| == |k.conds| && t < |k.pc| && c < |k.conds|
    requires forall d :: 0 <= d < |k.conds| ==>
      k'.conds[d].pops == k.conds[d].pops && k'.conds[d].returned == k.conds[d].returned + if d == c then 1 else 0
    requires forall u :: 0 <= u < |k.pc| && u != t ==> k'.pc[u] == k.pc[u]
    requires k.pc[t].Acquired? && k.pc[t].from == Some(c) && k'.pc[t] == Outside
    ensures Balanced(k')
  {
    forall u: Tid, d: CondId | u < |k.pc| && u != t ensures Signaled(k', u, d) <==> Signaled(k, u, d) {
    }
    forall d: CondId | d != c ensures InFlight(k', d) == InFlight(k, d) {
    }
    assert t in InFlight(k, c) && InFlight(k', c) == InFlight(k, c) - {t};
  }

  // ----- the regions of sema_down

  /** The running thread stands in sema_down on s. */
  ghost predicate AtDown(k: State, t: Tid, s: SemaId) {
    t == k.sched.running < |k.pc| && k.pc[t].Downing? && k.pc[t].s == s < |k.semas|
  }

  lemma SleepStep(k: State, t: Tid, s: SemaId)
    requires Inv(k) && AtDown(k, t, s) && k.semas[s].value == 0
    ensures Inv(DownRegion(k))
  {
    hide Apply, Sane, Queues, NoLostWakeup, Exclusive, Signals, Balanced;
    Basics(k.sched);
    var k' := DownRegion(k);
    assert PcOk(k, t);
    ApplySane(k.sched, Block);
    ApplyBlocked(k.sched, Block);
    assert PcOk(k', t);
    QuietKept(k, k');
    SleepQueues(k, k', t, s);
  }

  lemma DownPlainStep(k: State, t: Tid, s: SemaId)
    requires Inv(k) && AtDown(k, t, s) && k.semas[s].value > 0 && k.pc[t].after == ToCaller
    ensures Inv(DownRegion(k))
  {
    hide Apply, Sane, Queues, NoLostWakeup, Exclusive, Signals, Balanced;
    Basics(k.sched);
    var k' := DownRegion(k);
    assert PcOk(k, t) && PcOk(k', t);
    QuietKept(k, k');
    DownQueues(k, k', t, s);
  }

  lemma DownLockStep(k: State, t: Tid, s: SemaId)
    requires Inv(k) && AtDown(k, t, s) && k.semas[s].value > 0 && k.pc[t].after.ToHolder?
    ensures Inv(DownRegion(k))
  {
    hide Apply, Sane, Queues, NoLostWakeup, Exclusive, Signals, Balanced;
    Basics(k.sched);
    var k' := DownRegion(k);
    assert PcOk(k, t) && PcOk(k', t);
    DownQueues(k, k', t, s);
    LockSemaTaken(k, k', t, s, k.pc[t].after.l);
  }

  /** The lock's semaphore is decremented: everything but the wait lists. */
  lemma LockSemaTaken(k: State, k': State, t: Tid, s: SemaId, l: LockId)
    requires Shape(k) && Exclusive(k) && Signals(k) && Balanced(k)
    requires t == k.sched.running < |k.pc| && t != IDLE && l < |k.locks| && s == k.locks[l].sema < |k.semas|
    requires k.semas[s].value > 0 && LockPart(k.pc[t]) == None && WaitingOn(k.pc[t]) == None
    requires k' == k.(semas := k.semas[s := Decremented(k.semas[s])], pc := k.pc[t := Acquired(l, FromPart(k.pc[t]))])
    requires PcOk(k', t)
    ensures Shape(k') && Exclusive(k') && Signals(k') && Balanced(k')
  {
    hide Sane, Exclusive, Signals, Balanced, PcOk;
    assert LockOk(k, l);
    ShapeKept(k, k');
    forall m | 0 <= m < |k.locks| ensures k.locks[m].sema < |k.semas| && (m != l ==> k.locks[m].sema != s) {
      assert LockOk(k, m);
    }
    LockDown(k, k', t, l);
    CondsKept(k, k');
  }

  /** The waiter consumes its signal and turns to the lock. */
  lemma DownWaitStep(k: State, t: Tid, s: SemaId)
    requires Inv(k) && AtDown(k, t, s) && k.semas[s].value > 0 && k.pc[t].after.ToReacquire?
    ensures Inv(DownRegion(k))
  {
    hide Apply, Sane, Queues, NoLostWakeup, Exclusive, Balanced;
    Basics(k.sched);
    var k' := DownRegion(k);
    assert PcOk(k, t);
    DownQueues(k, k', t, s);
    assert k.semas[s].kind.phase == Upped;
    SignalsAdvance(k, k', t, s);
    SignalConsumed(k, k', t, s);
  }

  lemma SignalConsumed(k: State, k': State, t: Tid, s: SemaId)
    requires Shape(k) && Exclusive(k) && Signals(k) && Balanced(k) && AtDown(k, t, s) && t != IDLE
    requires k.semas[s].value > 0 && k.pc[t].after.ToReacquire? && k' == DownRegion(k)
    requires k.semas[s].kind.Waiter? && k.semas[s].kind.phase == Upped
    ensures Shape(k') && Exclusive(k') && Balanced(k')
  {
    hide Apply, Sane, Exclusive, Signals, Balanced;
    assert PcOk(k, t);
    assert LockOk(k, k.conds[k.pc[t].after.c].lock);
    forall u: Tid | u < |k.pc| && u != t && k.pc[u].Signaling? ensures k.pc[u].w != s { assert PcOk(k, u); }
    PhaseShape(k, k', t, s);
    forall m | 0 <= m < |k.locks| ensures k.locks[m].sema != s { assert LockOk(k, m); }
    LocksKept(k, k');
    forall u: Tid, d: CondId | u < |k.pc| ensures Signaled(k', u, d) <==> Signaled(k, u, d) {
      assert PcOk(k, u);
    }
    BalanceKept(k, k');
  }

  /** One waiter's semaphore changes phase: nobody else relied on the old one. */
  lemma PhaseShape(k: State, k': State, t: Tid, w: SemaId)
    requires Shape(k) && t == k.sched.running < |k.pc| && w < |k.semas| == |k'.semas|
    requires k.semas[w].kind.Waiter? && k'.semas[w].kind.Waiter?
    requires k'.semas[w].kind == k.semas[w].kind.(phase := k'.semas[w].kind.phase)
    requires forall s :: 0 <= s < |k.semas| && s != w ==> k'.semas[s].kind == k.semas[s].kind
    requires k'.locks == k.locks && |k'.conds| == |k.conds| && OthersStay(k, k') && |k'.pc| == |k.pc|
    requires forall c :: 0 <= c < |k.conds| ==> k'.conds[c].lock == k.conds[c].lock
    requires Sane(k'.sched) && |k'.pc| == |k'.sched.status| && PcOk(k', t)
    requires t == IDLE ==> k'.pc[IDLE] == Outside && k'.holds[IDLE] == {}
    requires forall u: Tid :: u < |k.pc| && u != t && k.pc[u].Signaling? ==> k.pc[u].w != w
    requires k'.semas[w].kind.phase == Consumed ==> k.semas[w].kind.t == t
    ensures Shape(k')
  {
    hide Sane;
    Basics(k'.sched);
    forall u | 0 <= u < |k'.pc| ensures PcOk(k', u) { assert PcOk(k, u); }
    forall r | 0 <= r < |k'.semas| ensures SemaOk(k', r) { assert SemaOk(k, r); }
    forall m | 0 <= m < |k'.locks| ensures LockOk(k', m) { assert LockOk(k, m); }
  }

  lemma TryDownStep(k: State, s: SemaId)
    requires Inv(k) && s < |k.semas| && k.semas[s].kind == Plain && k.semas[s].value > 0
    ensures Inv(k.(semas := k.semas[s := Decremented(k.semas[s])]))
  {
    hide Apply, Sane, Queues, NoLostWakeup, Exclusive, Signals, Balanced, PcOk;
    Basics(k.sched);
    var k' := k.(semas := k.semas[s := Decremented(k.semas[s])]);
    PcSame(k, k', k.sched.running);
    QuietKept(k, k');
    QueuesKept(k, k');
  }

  lemma TryAcquireStep(k: State, t: Tid, l: LockId)
    requires Inv(k) && t == k.sched.running < |k.pc| && t != IDLE && k.pc[t] == Outside
    requires l < |k.locks| && k.locks[l].sema < |k.semas| && k.semas[k.locks[l].sema].value > 0
    ensures var s := k.locks[l].sema;
      Inv(k.(semas := k.semas[s := Decremented(k.semas[s])], pc := k.pc[t := Acquired(l, None)]))
  {
    hide Apply, Sane, Queues, NoLostWakeup, Exclusive, Signals, Balanced;
    Basics(k.sched);
    var s := k.locks[l].sema;
    var k' := k.(semas := k.semas[s := Decremented(k.semas[s])], pc := k.pc[t := Acquired(l, None)]);
    assert PcOk(k', t);
    DownQueues(k, k', t, s);
    LockSemaTaken(k, k', t, s, l);
  }

  // ----- the region of sema_up

  lemma UpQueuesStep(k: State, k': State, t: Tid, s: SemaId, pc: Pc, kind: Kind)
    requires Shape(k) && Queues(k) && NoLostWakeup(k) && t == k.sched.running && s < |k.semas|
    requires k' == UpRegion(k, s, pc, kind)
    requires pc == k.pc[t] || (forall r: SemaId :: !Slept(k, t, r) && !Slept(k', t, r))
    ensures Queues(k') && NoLostWakeup(k') && Sane(k'.sched) && |k'.sched.status| == |k.sched.status|
  {
    hide Apply, NoLostWakeup, Sane;
    Basics(k.sched);
    var ws := k.semas[s].waiters;
    if ws != [] {
      assert ws[0] in k.semas[s].waiters && IsBlocked(k, ws[0]);
      ApplySane(k.sched, Unblock(ws[0]));
      ApplyBlocked(k.sched, Unblock(ws[0]));
    }
    UpQueues(k, k', t, s);
  }

  lemma UpPlainStep(k: State, s: SemaId)
    requires Inv(k) && s < |k.semas| && k.semas[s].kind == Plain
    ensures Inv(UpRegion(k, s, k.pc[k.sched.running], Plain))
  {
    hide Apply, Sane, NoLostWakeup, Exclusive, Signals, Balanced, PcOk, Queues;
    Basics(k.sched);
    var t, k' := k.sched.running, UpRegion(k, s, k.pc[k.sched.running], Plain);
    UpQueuesStep(k, k', t, s, k.pc[t], Plain);
    PcSame(k, k', t);
    QuietKept(k, k');
  }

  lemma ReleaseUpStep(k: State, t: Tid, l: LockId, pc: Pc)
    requires Inv(k) && t == k.sched.running < |k.pc| && k.pc[t].Releasing? && k.pc[t].l == l < |k.locks|
    requires k.locks[l].sema < |k.semas|
    requires pc == match k.pc[t].wait
      case None => Outside
      case Some(wait) => Downing(wait.1, false, ToReacquire(wait.0))
    ensures Inv(UpRegion(k, k.locks[l].sema, pc, k.semas[k.locks[l].sema].kind))
  {
    hide Apply, Sane, NoLostWakeup, Exclusive, Signals, Balanced, Queues;
    Basics(k.sched);
    var s := k.locks[l].sema;
    var k' := UpRegion(k, s, pc, k.semas[s].kind);
    UpQueuesStep(k, k', t, s, pc, k.semas[s].kind);
    assert PcOk(k, t) && LockOk(k, l);
    assert PcOk(k', t);
    ShapeKept(k, k');
    forall m | 0 <= m < |k.locks| ensures k.locks[m].sema < |k.semas| && (m != l ==> k.locks[m].sema != s) {
      assert LockOk(k, m);
    }
    LockUp(k, k', t, l);
    CondsKept(k, k');
  }

  lemma SignalUpShape(k: State, t: Tid, w: SemaId, pc: Pc)
    requires Inv(k) && t == k.sched.running < |k.pc| && k.pc[t].Signaling? && k.pc[t].w == w < |k.semas|
    requires k.semas[w].kind.Waiter? && pc == if k.pc[t].all then Broadcasting(k.pc[t].c) else Outside
    ensures var k' := UpRegion(k, w, pc, k.semas[w].kind.(phase := Upped)); Shape(k') && Queues(k') && NoLostWakeup(k')
  {
    hide Apply, Sane, NoLostWakeup, Exclusive, Signals, Balanced, Queues;
    Basics(k.sched);
    var kind := k.semas[w].kind.(phase := Upped);
    var k' := UpRegion(k, w, pc, kind);
    UpQueuesStep(k, k', t, w, pc, kind);
    assert PcOk(k, t) && SemaOk(k, w);
    assert PcOk(k', t);
    OneSignaler(k, t, w);
    PhaseShape(k, k', t, w);
  }

  /** The up of a signal: the waiter's semaphore gets its unit. */
  lemma SignalUpStep(k: State, t: Tid, w: SemaId, pc: Pc)
    requires Inv(k) && t == k.sched.running < |k.pc| && k.pc[t].Signaling? && k.pc[t].w == w < |k.semas|
    requires k.semas[w].kind.Waiter? && pc == if k.pc[t].all then Broadcasting(k.pc[t].c) else Outside
    ensures Inv(UpRegion(k, w, pc, k.semas[w].kind.(phase := Upped)))
  {
    hide Apply, Sane, NoLostWakeup, Exclusive, Signals, Balanced, Queues;
    Basics(k.sched);
    var kind := k.semas[w].kind.(phase := Upped);
    var k' := UpRegion(k, w, pc, kind);
    SignalUpShape(k, t, w, pc);
    assert PcOk(k, t) && SemaOk(k, w);
    OneSignaler(k, t, w);
    forall m | 0 <= m < |k.locks| ensures k.locks[m].sema != w { assert LockOk(k, m); }
    LocksKept(k, k');
    SignalsAdvance(k, k', t, w);
    forall u: Tid, c: CondId | u < |k.pc| ensures Signaled(k', u, c) <==> Signaled(k, u, c) {
    }
    BalanceKept(k, k');
  }

  /** Signalers hold the condition's lock, so no two signal the same waiter. */
  lemma OneSignaler(k: State, t: Tid, w: SemaId)
    requires Shape(k) && Exclusive(k) && t < |k.pc| && k.pc[t].Signaling? && k.pc[t].w == w
    ensures forall u: Tid :: u < |k.pc| && u != t && k.pc[u].Signaling? ==> k.pc[u].w != w
  {
    assert PcOk(k, t);
    var l := k.conds[k.pc[t].c].lock;
    assert k.locks[l].holder == Some(t);
    forall u: Tid | u < |k.pc| && u != t && k.pc[u].Signaling? ensures k.pc[u].w != w {
      assert PcOk(k, u);
      assert k.locks[k.conds[k.pc[u].c].lock].holder == Some(u);
    }
  }

  // ----- the holder field

  lemma TakeLockShape(k: State, t: Tid)
    requires Inv(k) && t == k.sched.running < |k.pc| && k.pc[t].Acquired? && FromOk(k, k.pc[t].l, k.pc[t].from)
    ensures var k' := TakeLock(k, k.pc[t].l, k.pc[t].from); Shape(k') && Queues(k') && NoLostWakeup(k')
  {
    hide Apply, Sane, Queues, NoLostWakeup, Exclusive, Signals, Balanced;
    var k' := TakeLock(k, k.pc[t].l, k.pc[t].from);
    Basics(k.sched);
    assert PcOk(k, t) && PcOk(k', t);
    ShapeKept(k, k');
    QueuesKept(k, k');
  }

  lemma TakeLockStep(k: State, t: Tid)
    requires Inv(k) && t == k.sched.running < |k.pc| && k.pc[t].Acquired? && FromOk(k, k.pc[t].l, k.pc[t].from)
    ensures Inv(TakeLock(k, k.pc[t].l, k.pc[t].from))
  {
    hide Apply, Sane, Queues, NoLostWakeup, Exclusive, Signals, Balanced;
    Basics(k.sched);
    var l, from := k.pc[t].l, k.pc[t].from;
    var k' := TakeLock(k, l, from);
    assert PcOk(k, t) && PcOk(k', t);
    TakeLockShape(k, t);
    forall m | 0 <= m < |k.locks| ensures k.locks[m].sema < |k.semas| { assert LockOk(k, m); }
    LockTake(k, k', t, l);
    SignalsKept(k, k');
    if from.Some? {
      BalanceReturn(k, k', t, from.value);
    } else {
      forall u: Tid, c: CondId | u < |k.pc| ensures Signaled(k', u, c) <==> Signaled(k, u, c) {
      }
      BalanceKept(k, k');
    }
  }

  lemma DropLockShape(k: State, t: Tid, l: LockId, wait: Option<(CondId, SemaId)>)
    requires Inv(k) && t == k.sched.running < |k.pc| && l < |k.locks| && l in k.holds[t]
    requires if wait.None? then k.pc[t] == Outside
             else k.pc[t] == Enqueued(wait.value.0, wait.value.1) && wait.value.0 < |k.conds|
                  && l == k.conds[wait.value.0].lock
    ensures var k' := DropLock(k, l, wait); Shape(k') && Queues(k') && NoLostWakeup(k')
  {
    hide Apply, Sane, Queues, NoLostWakeup, Exclusive, Signals, Balanced;
    var k' := DropLock(k, l, wait);
    Basics(k.sched);
    assert PcOk(k, t) && PcOk(k', t);
    ShapeKept(k, k');
    QueuesKept(k, k');
  }

  lemma DropLockStep(k: State, t: Tid, l: LockId, wait: Option<(CondId, SemaId)>)
    requires Inv(k) && t == k.sched.running < |k.pc| && l < |k.locks| && l in k.holds[t]
    requires if wait.None? then k.pc[t] == Outside
             else k.pc[t] == Enqueued(wait.value.0, wait.value.1) && wait.value.0 < |k.conds|
                  && l == k.conds[wait.value.0].lock
    ensures Inv(DropLock(k, l, wait))
  {
    hide Apply, Sane, Queues, NoLostWakeup, Exclusive, Signals, Balanced;
    Basics(k.sched);
    var k' := DropLock(k, l, wait);
    assert PcOk(k, t) && PcOk(k', t);
    DropLockShape(k, t, l, wait);
    forall m | 0 <= m < |k.locks| ensures k.locks[m].sema < |k.semas| { assert LockOk(k, m); }
    LockDrop(k, k', t, l);
    CondsKept(k, k');
  }

  // ----- the condition's list

  lemma EnqueueShape(k: State, t: Tid, c: CondId)
    requires Inv(k) && t == k.sched.running < |k.pc| && t != IDLE && k.pc[t] == Outside
    requires c < |k.conds| && k.conds[c].lock in k.holds[t]
    ensures var k' := Enqueue(k, c); Shape(k') && Queues(k') && NoLostWakeup(k')
  {
    hide Apply, Sane, Queues, NoLostWakeup, Exclusive, Signals, Balanced;
    var k' := Enqueue(k, c);
    Basics(k.sched);
    assert PcOk(k', t);
    ShapeKept(k, k');
    QueuesKept(k, k');
  }

  lemma EnqueueStep(k: State, t: Tid, c: CondId)
    requires Inv(k) && t == k.sched.running < |k.pc| && t != IDLE && k.pc[t] == Outside
    requires c < |k.conds| && k.conds[c].lock in k.holds[t]
    ensures Inv(Enqueue(k, c))
  {
    hide Apply, Sane, Queues, NoLostWakeup, Exclusive, Signals, Balanced;
    Basics(k.sched);
    var k' := Enqueue(k, c);
    assert PcOk(k', t);
    EnqueueShape(k, t, c);
    LocksKept(k, k');
    SignalsEnqueue(k, k', t, c);
    forall u: Tid, d: CondId | u < |k.pc| ensures Signaled(k', u, d) <==> Signaled(k, u, d) {
      assert PcOk(k, u);
    }
    BalanceKept(k, k');
  }

  lemma PopStep(k: State, t: Tid, c: CondId, all: bool)
    requires Inv(k) && t == k.sched.running < |k.pc| && t != IDLE
    requires k.pc[t] == Outside || k.pc[t].Broadcasting?
    requires c < |k.conds| && k.conds[c].lock in k.holds[t] && k.conds[c].waiters != []
    ensures Inv(PopWaiter(k, c, all))
  {
    hide Apply, Sane, Queues, NoLostWakeup, Exclusive, Balanced;
    Basics(k.sched);
    var w := k.conds[c].waiters[0];
    assert w in k.conds[c].waiters;
    var k' := PopWaiter(k, c, all);
    SignalsPop(k, k', t, c, w);
    assert PcOk(k', t);
    NotYetSignaled(k, t, w);
    PopShape(k, k', t, c, w);
    PopLocks(k, k', t, c, w);
  }

  lemma NotYetSignaled(k: State, t: Tid, w: SemaId)
    requires Shape(k) && w < |k.semas| && k.semas[w].kind.Waiter? && k.semas[w].kind.phase == Queued
    ensures forall u: Tid :: u < |k.pc| && u != t && k.pc[u].Signaling? ==> k.pc[u].w != w
  {
    forall u: Tid | u < |k.pc| && u != t && k.pc[u].Signaling? ensures k.pc[u].w != w {
      assert PcOk(k, u);
    }
  }

  ghost predicate Popping(k: State, k': State, t: Tid, c: CondId, w: SemaId) {
    && Shape(k) && Signals(k)
    && t == k.sched.running < |k.pc| && t != IDLE && c < |k.conds| && k.conds[c].waiters != []
    && (k.pc[t] == Outside || k.pc[t].Broadcasting?)
    && w == k.conds[c].waiters[0] < |k.semas|
    && k.semas[w].kind.Waiter? && k.semas[w].kind.c == c && k.semas[w].kind.phase == Queued
    && (k' == PopWaiter(k, c, true) || k' == PopWaiter(k, c, false))
  }

  lemma PopShape(k: State, k': State, t: Tid, c: CondId, w: SemaId)
    requires Queues(k) && NoLostWakeup(k) && Popping(k, k', t, c, w)
    requires PcOk(k', t) && forall u: Tid :: u < |k.pc| && u != t && k.pc[u].Signaling? ==> k.pc[u].w != w
    ensures Shape(k') && Queues(k') && NoLostWakeup(k')
  {
    hide Apply, Sane, Queues, NoLostWakeup, Signals, PcOk;
    Basics(k.sched);
    PhaseShape(k, k', t, w);
    QueuesKept(k, k');
  }

  lemma PopLocks(k: State, k': State, t: Tid, c: CondId, w: SemaId)
    requires Exclusive(k) && Balanced(k) && Popping(k, k', t, c, w)
    ensures Exclusive(k') && Balanced(k')
  {
    hide Apply, Sane, Exclusive, Balanced, Signals, PcOk;
    Basics(k.sched);
    LocksKept(k, k');
    BalancePop(k, k', t, c, w);
  }

  // ----- every step

  lemma HolderHolds(k: State, t: Tid, l: LockId)
    requires Shape(k) && Exclusive(k) && t < |k.pc| && l < |k.locks|
    ensures k.locks[l].holder == Some(t) <==> l in k.holds[t]
    ensures t == IDLE ==> k.locks[l].holder != Some(t)
  {
    Basics(k.sched);
  }

  /** The next region of the running thread keeps the invariant. */
  lemma ProceedInv(k: State)
    requires Inv(k) && k.pc[k.sched.running] != Outside
    ensures Inv(Proceed(k))
  {
    hide Apply, Sane, Queues, NoLostWakeup, Exclusive, Balanced, Counts, Signals,
         DownRegion, UpRegion, TakeLock, DropLock, PopWaiter;
    Basics(k.sched);
    var t := k.sched.running;
    assert PcOk(k, t);
    match k.pc[t]
    case Downing(s, _, after) =>
      if k.semas[s].value == 0 {
        SleepStep(k, t, s);
      } else {
        match after
        case ToCaller => DownPlainStep(k, t, s);
        case ToHolder(_, _) => DownLockStep(k, t, s);
        case ToReacquire(_) => DownWaitStep(k, t, s);
      }
    case Acquired(_, _) => TakeLockStep(k, t);
    case Releasing(l, wait) =>
      assert LockOk(k, l);
      ReleaseUpStep(k, t, l, if wait.None? then Outside else Downing(wait.value.1, false, ToReacquire(wait.value.0)));
    case Enqueued(c, w) => DropLockStep(k, t, k.conds[c].lock, Some((c, w)));
    case Signaling(c, w, all) => SignalUpStep(k, t, w, if all then Broadcasting(c) else Outside);
    case Broadcasting(c) => BroadcastStep(k, t, c);
  }

  lemma BroadcastStep(k: State, t: Tid, c: CondId)
    requires Inv(k) && t == k.sched.running < |k.pc| && k.pc[t] == Broadcasting(c)
    ensures c < |k.conds| && Inv(PopWaiter(k, c, true))
  {
    hide Apply, Sane, Queues, NoLostWakeup, Exclusive, Balanced, Signals;
    Basics(k.sched);
    assert PcOk(k, t);
    if k.conds[c].waiters != [] {
      PopStep(k, t, c, true);
    } else {
      var k' := SetPc(k, Outside);
      assert PcOk(k', t);
      QuietKept(k, k');
      QueuesKept(k, k');
    }
  }

  lemma SignalCallStep(k: State, t: Tid, c: CondId)
    requires Inv(k) && t == k.sched.running < |k.pc| && t != IDLE && k.pc[t] == Outside
    requires c < |k.conds| && k.conds[c].lock in k.holds[t]
    ensures Inv(PopWaiter(k, c, false))
  {
    if k.conds[c].waiters != [] {
      PopStep(k, t, c, false);
    } else {
      assert SetPc(k, Outside) == k;
    }
  }

  /** Every event keeps the invariant. */
  lemma StepInv(k: State, e: Event)
    requires Inv(k) && Enabled(k, e)
    ensures Inv(Step(k, e))
  {
    hide Apply, Sane, Queues, NoLostWakeup, Exclusive, Balanced, Counts, Signals,
         UpRegion, DropLock, Enqueue, PopWaiter, Proceed;
    Basics(k.sched);
    var t := k.sched.running;
    match e
    case Preempt(op) => SchedStep(k, op);
    case StartIdle => SchedStep(k, SetIdle);
    case IdleBlock => SchedStep(k, Block);
    case Finish => SchedStep(k, Exit);
    case Create => CreateStep(k);
    case NewSema(v) => NewSemaStep(k, v);
    case NewLock => NewLockStep(k);
    case NewCond(l) => NewCondStep(k, l);
    case Up(s) => UpPlainStep(k, s);
    case TryDown(s) => if k.semas[s].value > 0 { TryDownStep(k, s); }
    case Down(s) => CallStep(k, Downing(s, false, ToCaller));
    case Acquire(l) =>
      assert LockOk(k, l);
      CallStep(k, Downing(k.locks[l].sema, false, ToHolder(l, None)));
    case TryAcquire(l) =>
      assert LockOk(k, l);
      if k.semas[k.locks[l].sema].value > 0 { TryAcquireStep(k, t, l); }
    case Release(l) =>
      HolderHolds(k, t, l);
      DropLockStep(k, t, l, None);
    case Wait(c) =>
      HolderHolds(k, t, k.conds[c].lock);
      EnqueueStep(k, t, c);
    case Signal(c) =>
      HolderHolds(k, t, k.conds[c].lock);
      SignalCallStep(k, t, c);
    case Broadcast(c) =>
      HolderHolds(k, t, k.conds[c].lock);
      CallStep(k, Broadcasting(c));
    case Continue => ProceedInv(k);
  }

  lemma StartInv()
    ensures Inv(START)
  {
    InitialSane();
  }

  // ----- whole runs

  /** A run: a sequence of events each of which is enabled when it comes. */
  ghost predicate Runs(k: State, es: seq<Event>)
    decreases |es|
  {
    Inv(k) && (es != [] ==> Enabled(k, es[0]) && Runs(Step(k, es[0]), es[1..]))
  }

  ghost function After(k: State, es: seq<Event>): State
    requires Runs(k, es)
    decreases |es|
  {
    if es == [] then k else After(Step(k, es[0]), es[1..])
  }

  /** Runs never leave the invariant: after every run, every enabled event extends it. */
  lemma {:induction false} RunExtends(k: State, es: seq<Event>, e: Event)
    requires Runs(k, es)
    ensures Inv(After(k, es))
    ensures Enabled(After(k, es), e) ==> Runs(k, es + [e]) && After(k, es + [e]) == Step(After(k, es), e)
    decreases |es|
  {
    hide Inv, Enabled, Step;
    if es == [] {
      if Enabled(k, e) {
        StepInv(k, e);
        assert Runs(Step(k, e), []);
        assert ([] + [e])[1..] == [];
      }
    } else {
      RunExtends(Step(k, es[0]), es[1..], e);
      assert (es + [e])[1..] == es[1..] + [e];
    }
  }

  // ----- what synch.c promises, in every reachable state

  ghost predicate Reachable(k: State) {
    exists es :: Runs(START, es) && After(START, es) == k
  }

  lemma ReachableInv(k: State)
    requires Reachable(k)
    ensures Inv(k)
  {
    hide Inv, Enabled, Step;
    var es :| Runs(START, es) && After(START, es) == k;
    RunExtends(START, es, Continue);
  }

  /** Reachable states are closed under every enabled event. */
  lemma ReachableStep(k: State, e: Event)
    requires Reachable(k) && Inv(k) && Enabled(k, e)
    ensures Reachable(Step(k, e))
  {
    hide Inv, Enabled, Step;
    var es :| Runs(START, es) && After(START, es) == k;
    RunExtends(START, es, e);
  }

  /** At most one thread is between the acquisition and the release of a lock, the lock is free
      exactly when its semaphore has value one, and a thread that has acquired a lock and not
      released it passes the assertion in lock_release. */
  lemma MutualExclusion(k: State, l: LockId, t: Tid, u: Tid)
    requires Reachable(k) && l < |k.locks|
    ensures t in Inside(k, l) && u in Inside(k, l) ==> t == u
    ensures k.locks[l].sema < |k.semas| && (k.semas[k.locks[l].sema].value == 1 <==> Inside(k, l) == {})
    ensures t < |k.holds| && l in k.holds[t] ==> k.locks[l].holder == Some(t)
  {
    ReachableInv(k);
    assert LockOk(k, l);
    if t in Inside(k, l) && u in Inside(k, l) {
      OnlyInside(k, t, u, l);
    }
  }

  /** In every reachable state a semaphore's value is its initial value plus the ups minus the
      completed downs, and while anyone is queued it is at most the number of threads woken that
      have yet to retry. */
  lemma SemaphoreLaw(k: State, s: SemaId)
    requires Reachable(k) && s < |k.semas|
    ensures k.semas[s].value == k.semas[s].initial + k.semas[s].ups - k.semas[s].downs
    ensures k.semas[s].waiters != [] ==> k.semas[s].value <= |Woken(k, s)|
  {
    ReachableInv(k);
  }

  /** In every reachable state a thread on a wait list is on no other, is on that one once, is
      blocked and is not on the ready list; and every blocked thread but the idle one is on a list. */
  lemma OneQueue(k: State, u: Tid, s: SemaId, r: SemaId)
    requires Reachable(k) && s < |k.semas| && r < |k.semas|
    ensures u in k.semas[s].waiters ==> IsBlocked(k, u) && u !in k.sched.ready && Distinct(k.semas[s].waiters)
    ensures u in k.semas[s].waiters && u in k.semas[r].waiters ==> r == s
    ensures IsBlocked(k, u) && u != IDLE ==> exists q :: 0 <= q < |k.semas| && u in k.semas[q].waiters
  {
    hide Enabled, Step, Runs, Reachable, NoLostWakeup, Counts, Exclusive, Balanced, Signals, PcOk;
    ReachableInv(k);
    if u in k.sched.ready {
      assert k.sched.status[u] == Ready;
    }
  }

  /** While a thread sleeps on a semaphore whose value is positive, another that was woken from
      the same list is ready or running and has yet to take its turn. */
  lemma SleepersAreSafe(k: State, s: SemaId, u: Tid) returns (v: Tid)
    requires Reachable(k) && s < |k.semas| && u in k.semas[s].waiters && k.semas[s].value > 0
    ensures v < |k.pc| && Slept(k, v, s) && !IsBlocked(k, v)
  {
    ReachableInv(k);
    assert Woken(k, s) != {} by { assert |Woken(k, s)| > 0; }
    v :| v in Woken(k, s);
  }

  /** A signal sent at any moment after the waiter joined the list is not lost: once it has upped
      the waiter's semaphore nobody sleeps on it, and the waiter's sema_down goes through. */
  lemma SignalNotLost(k: State, w: SemaId)
    requires Reachable(k) && w < |k.semas| && k.semas[w].kind.Waiter? && k.semas[w].kind.phase == Upped
    ensures k.semas[w].value == 1 && k.semas[w].waiters == []
    ensures var t := k.semas[w].kind.t; t < |k.pc| && !IsBlocked(k, t)
  {
    var t, ws := k.semas[w].kind.t, k.semas[w].waiters;
    assert |ws| > 0 ==> ws[0] in ws;
    ReachableInv(k);
    assert SemaOk(k, w);
    forall u: Tid ensures u in ws ==> u == t && IsBlocked(k, t) {
      OnlyWaiterSleeps(k, w, u);
    }
    assert IsBlocked(k, t) ==> Woken(k, w) == {} && t in ws by {
      forall v: Tid ensures v in Woken(k, w) ==> v == t {
        OnlyWaiterSleeps(k, w, v);
      }
      BlockedWaiterListed(k, w, t);
    }
  }

  /** Only its own thread ever downs, or sleeps on, a waiter's semaphore. */
  lemma OnlyWaiterSleeps(k: State, w: SemaId, u: Tid)
    requires Inv(k) && w < |k.semas| && k.semas[w].kind.Waiter?
    ensures Slept(k, u, w) ==> u == k.semas[w].kind.t
    ensures u in k.semas[w].waiters ==> Slept(k, u, w) && IsBlocked(k, u)
  {
    forall l | 0 <= l < |k.locks| ensures k.locks[l].sema != w { assert LockOk(k, l); }
    if u < |k.pc| {
      assert PcOk(k, u);
    }
  }

  lemma BlockedWaiterListed(k: State, w: SemaId, t: Tid)
    requires Inv(k) && w < |k.semas| && k.semas[w].kind.Waiter? && k.semas[w].kind.t == t
    requires k.semas[w].kind.phase != Consumed
    ensures IsBlocked(k, t) ==> t in k.semas[w].waiters
  {
    Basics(k.sched);
    assert WaitingOn(k.pc[t]) == Some((k.semas[w].kind.c, w));
  }

  /** A signaler only touches the stack semaphore of a thread still inside cond_wait. */
  lemma SignalBeforeReturn(k: State, u: Tid)
    requires Reachable(k) && u < |k.pc| && k.pc[u].Signaling?
    ensures var w := k.pc[u].w;
      && w < |k.semas| && k.semas[w].kind.Waiter? && k.semas[w].kind.t < |k.pc|
      && WaitingOn(k.pc[k.semas[w].kind.t]) == Some((k.pc[u].c, w)) && k.semas[w].value == 0
  {
    hide Enabled, Step, Runs, Reachable, Queues, NoLostWakeup, Counts, Exclusive, Balanced, Sane;
    ReachableInv(k);
    assert PcOk(k, u);
  }

  /** A signal takes off the thread that has waited longest. */
  lemma SignalTakesLongest(k: State, e: Event, c: CondId, w: SemaId)
    requires Reachable(k) && Inv(k) && Enabled(k, e) && c < |k.conds| && w in k.conds[c].waiters
    requires e == Signal(c) || (e == Continue && k.pc[k.sched.running] == Broadcasting(c))
    ensures var k' := Step(k, e); k.sched.running < |k'.pc| && var v := k'.pc[k.sched.running];
      && v.Signaling? && v.w <= w && v.w in k.conds[c].waiters
      && c < |k'.conds| && k.conds[c].waiters == [v.w] + k'.conds[c].waiters && v.w !in k'.conds[c].waiters
  {
    hide Apply, Sane, Queues, NoLostWakeup, Exclusive, Balanced, Counts, Reachable, PcOk;
    Basics(k.sched);
  }

  /** Returns from cond_wait never outnumber the waiters that signals took off the list. */
  lemma ReturnsNeedSignals(k: State, c: CondId)
    requires Reachable(k) && c < |k.conds|
    ensures k.conds[c].returned + |InFlight(k, c)| == k.conds[c].pops
    ensures k.conds[c].returned <= k.conds[c].pops
  {
    ReachableInv(k);
  }

  /** cond_wait returns holding the lock, and only a thread that a signal took off the list
      returns. */
  lemma WaitReturnsHolding(k: State, c: CondId)
    requires Reachable(k) && Inv(k) && k.pc[k.sched.running] != Outside && c < |k.conds|
    ensures var t, k' := k.sched.running, Step(k, Continue);
      && |k'.conds| == |k.conds|
      && (k'.conds[c].returned != k.conds[c].returned ==>
            && k'.conds[c].returned == k.conds[c].returned + 1
            && t in InFlight(k, c) && k'.pc[t] == Outside
            && k.conds[c].lock < |k'.locks| && k'.locks[k.conds[c].lock].holder == Some(t))
  {
    hide Apply, Sane, Queues, NoLostWakeup, Exclusive, Signals, Balanced, Reachable;
    Basics(k.sched);
    assert PcOk(k, k.sched.running);
  }

  // ----- the scheduler underneath

  /** The scheduler operation that an event performs. */
  ghost function OpOf(k: State, e: Event): Op
    requires Inv(k) && Enabled(k, e)
  {
    var t := k.sched.running;
    match e
    case Preempt(op) => op
    case StartIdle => SetIdle
    case IdleBlock => Block
    case Create => Spawn
    case Finish => Exit
    case Up(s) => WakeOp(k, s)
    case Continue =>
      assert PcOk(k, t);
      (match k.pc[t]
       case Downing(s, _, _) => if k.semas[s].value == 0 then Block else Nop
       case Releasing(l, _) => assert LockOk(k, l); WakeOp(k, k.locks[l].sema)
       case Signaling(_, w, _) => WakeOp(k, w)
       case _ => Nop)
    case _ => Nop
  }

  ghost function WakeOp(k: State, s: SemaId): Op
    requires s < |k.semas|
  {
    if k.semas[s].waiters == [] then Nop else Unblock(k.semas[s].waiters[0])
  }

  lemma StepSched(k: State, e: Event)
    requires Inv(k) && Enabled(k, e)
    ensures Allowed(k.sched, OpOf(k, e)) && Step(k, e).sched == Apply(k.sched, OpOf(k, e))
  {
    hide Apply, Sane, Exclusive, Balanced, NoLostWakeup, Signals;
    Basics(k.sched);
    var t := k.sched.running;
    assert PcOk(k, t);
    forall s: SemaId | s < |k.semas| ensures Allowed(k.sched, WakeOp(k, s)) {
      assert k.semas[s].waiters != [] ==>
        k.semas[s].waiters[0] in k.semas[s].waiters && IsBlocked(k, k.semas[s].waiters[0]);
    }
    NopIsNop(k.sched);
    if k.pc[t].Releasing? {
      assert LockOk(k, k.pc[t].l);
    }
  }

  lemma NopIsNop(s: Sched)
    requires Sane(s)
    ensures Apply(s, Nop) == s
  {
  }

  ghost function Ops(k: State, es: seq<Event>): seq<Op>
    requires Runs(k, es)
    decreases |es|
  {
    if es == [] then [] else [OpOf(k, es[0])] + Ops(Step(k, es[0]), es[1..])
  }

  /** Every run of the primitives is a run of the scheduler, so its guarantees carry over:
      in particular a ready thread waits at most four timer ticks per place in the queue. */
  lemma {:induction false} RunSchedules(k: State, es: seq<Event>)
    requires Runs(k, es)
    ensures Sane(k.sched) && Threads.Runs(k.sched, Ops(k, es))
    ensures Threads.After(k.sched, Ops(k, es)) == After(k, es).sched
    decreases |es|
  {
    hide Step, OpOf, Enabled, Apply, Allowed, Sane;
    if es != [] {
      StepSched(k, es[0]);
      ApplySane(k.sched, OpOf(k, es[0]));
      RunSchedules(Step(k, es[0]), es[1..]);
      assert Ops(k, es)[1..] == Ops(Step(k, es[0]), es[1..]);
    }
  }
}
