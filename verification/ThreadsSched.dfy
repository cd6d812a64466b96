/** Every step keeps the scheduler's invariant. */
module ThreadsSched {
  import opened Wrappers
  import opened Ordering
  import opened Threads
  import opened ThreadsInv

  lemma ScheduleReadyAt(s: State, t: Thread)
    requires Suspended(s)
    ensures var s' := Schedule(s);
            t in s'.ready <==> t in s'.status && s'.status[t] == Ready && t != s'.idle
  {
    if s.ready != [] {
      assert t in s.ready <==> t == s.ready[0] || t in s.ready[1..];
    }
  }

  lemma ScheduleReady(s: State)
    requires Suspended(s)
    ensures ReadyOk(Schedule(s))
  {
    var s' := Schedule(s);
    forall t ensures t in s'.ready <==> t in s'.status && s'.status[t] == Ready && t != s'.idle {
      ScheduleReadyAt(s, t);
    }
  }

  ghost function Next(s: State): Thread {
    if s.ready == [] then s.idle else s.ready[0]
  }

  /** What the switch needs to know of the thread it leaves and the one it takes up. */
  ghost predicate Switchable(s: State) {
    && s.current in s.status && s.pc.Keys == s.status.Keys
    && Next(s) in s.status && s.status[Next(s)] != Dying && (s.status[Next(s)] == Ready || Next(s) == s.idle)
    && s.idle in s.status && s.pc[s.idle] == User
    && (s.status[s.current] == Dying ==> s.pc[s.current] == User)
  }

  lemma SuspendedSwitches(s: State)
    requires Suspended(s)
    ensures Switchable(s)
  {
    if s.ready != [] { assert s.ready[0] in s.ready; }
  }

  lemma LivesAfter(s: State)
    requires Switchable(s) && LivesOk(s)
    ensures LivesOk(Schedule(s))
  {
  }

  lemma ScheduleSched(s: State)
    requires Suspended(s)
    ensures SchedInv(Schedule(s))
  {
    ScheduleReady(s);
    SuspendedSwitches(s);
    LivesAfter(s);
  }

  lemma BlockSched(s: State, pc: Pc)
    requires SchedInv(s) && (s.current != s.idle || pc == User)
    ensures SchedInv(ThreadBlock(s, pc))
  {
    ScheduleSched(s.(status := s.status[s.current := Blocked], pc := s.pc[s.current := pc]));
  }

  lemma YieldSched(s: State)
    requires SchedInv(s)
    ensures SchedInv(ThreadYield(s))
  {
    ScheduleSched(s.(ready := if s.current != s.idle then s.ready + [s.current] else s.ready,
                     status := s.status[s.current := Ready]));
  }

  lemma ExitSched(s: State)
    requires SchedInv(s) && s.current != s.idle && s.pc[s.current] == User
    ensures SchedInv(ThreadExit(s))
  {
    ScheduleSched(s.(status := s.status[s.current := Dying]));
  }

  lemma UnblockSched(s: State, t: Thread)
    requires SchedInv(s) && t in s.status && s.status[t] == Blocked && t != s.idle
    ensures SchedInv(ThreadUnblock(s, t))
  {
  }

  lemma CreateSched(s: State, t: Thread)
    requires SchedInv(s) && t !in s.status && t != s.idle
    ensures SchedInv(ThreadCreate(s, t))
  {
  }

  lemma SetPcSched(s: State, pc: Pc)
    requires SchedInv(s) && s.current != s.idle
    ensures SchedInv(s.(pc := s.pc[s.current := pc]))
  {
  }

  lemma UpSched(s: State, x: SemaId)
    requires SchedInv(s) && WaitInv(s) && x in s.sema
    ensures SchedInv(SemaUp(s, x))
  {
    var w := s.sema[x].waiters;
    if w != [] {
      assert w[0] in w && BlockedOn(s, w[0], x);
      UnblockSched(s, w[0]);
    }
  }

  lemma DownSched(s: State, x: SemaId, k: DownThen)
    requires SchedInv(s) && x in s.sema && (k.ToReacquire? ==> k.c in s.lockOf) && s.current != s.idle
    ensures SchedInv(SemaDown(s, x, k))
  {
    var s0 := s.(sema := s.sema[x := s.sema[x].(waiters := s.sema[x].waiters + [s.current])]);
    BlockSched(s0, Waiting(x, k));
  }

  lemma SchedStep(s: State, a: Action)
    requires WellFormed(s) && SchedInv(s) && WaitInv(s) && Enabled(s, a)
    ensures SchedInv(Apply(s, a))
  {
    match a
    case Yield => YieldSched(s);
    case IdleBlock => BlockSched(s, User);
    case Exit => ExitSched(s);
    case Create(t) => CreateSched(s, t);
    case Down(x) => DownSched(s, x, ToUser);
    case TryDown(x) =>
    case Up(x) => UpSched(s, x);
    case InterruptTryDown(x) =>
    case InterruptUp(x) => UpSched(s, x);
    case Acquire(l) => DownSched(s, LockSema(l), ToHolder(l));
    case TryAcquire(l) => SetPcSched(s, SetHolder(l));
    case Release(l) => SetPcSched(s, CallUp(LockSema(l), Released));
    case Wait(c) => SetPcSched(s, CondRelease(c));
    case Signal(c) => if s.condWaiters[c] != [] { PopSched(s, c, Signalled(c)); }
    case Broadcast(c) => SetPcSched(s, Broadcasting(c));
    case Continue => SchedResume(s);
  }

  lemma PopSched(s: State, c: Cond, k: UpThen)
    requires SchedInv(s) && s.current != s.idle && c in s.condWaiters && s.condWaiters[c] != []
    ensures SchedInv(PopWaiter(s, c, k))
  {
    SetPcSched(s, CallUp(WaiterSema(s.condWaiters[c][0]), k));
  }

  lemma SchedResume(s: State)
    requires WellFormed(s) && SchedInv(s) && WaitInv(s) && s.pc[s.current] != User
    ensures SchedInv(Resume(s))
  {
    var t := s.current;
    assert PcOk(s, t, s.pc[t]);
    match s.pc[t]
    case CallDown(x, k) => DownSched(s, x, k);
    case Waiting(x, k) => DownSched(s, x, k);
    case CallUp(x, k) => UpSched(s, x); SetPcSched(SemaUp(s, x), AfterUp(t, k));
    case SetHolder(l) => SetPcSched(s, User);
    case CondRelease(c) => SetPcSched(s, CallUp(LockSema(s.lockOf[c]), ToSleep(c)));
    case Broadcasting(c) =>
      if s.condWaiters[c] == [] { SetPcSched(s, User); } else { PopSched(s, c, ToBroadcast(c)); }
  }
}
