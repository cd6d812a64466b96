/** Every step keeps well-formedness, the wait lists and the wake-up count. */
module ThreadsWait {
  import opened Wrappers
  import opened Ordering
  import opened Threads
  import opened ThreadsInv
  import opened ThreadsSched

  // ----- well-formedness

  /** The names s' uses were in use in s, except possibly by thread t. */
  ghost predicate SameNames(s: State, s': State, t: Thread) {
    && s'.lockOf == s.lockOf && s'.holder.Keys == s.holder.Keys && s'.condWaiters.Keys == s.condWaiters.Keys
    && s.sema.Keys <= s'.sema.Keys
    && (forall c, u :: c in s'.condWaiters && u in s'.condWaiters[c] ==>
          WaiterSema(u) in s'.sema || (c in s.condWaiters && u in s.condWaiters[c]))
    && (forall u :: u in s'.pc && u != t ==> (u in s.pc && s'.pc[u] == s.pc[u]) || s'.pc[u] == User)
    && (t in s'.pc ==> PcOk(s', t, s'.pc[t]))
  }

  lemma NamesKept(s: State, s': State, t: Thread)
    requires WellFormed(s) && SameNames(s, s', t)
    requires s'.current in s'.status && s'.current in s'.pc
    ensures WellFormed(s')
  {
    forall u | u in s'.pc && u != t && s'.pc[u] != User ensures PcOk(s', u, s'.pc[u]) {
      assert PcOk(s, u, s.pc[u]);
    }
    forall l | l in s'.holder ensures LockSema(l) in s'.sema {
      assert LockSema(l) in s.sema.Keys;
    }
  }

  lemma SwitchNames(s: State, a: Action)
    requires WellFormed(s) && Enabled(s, a) && (a.Yield? || a.IdleBlock? || a.Exit? || a.Create?)
    ensures SameNames(s, Apply(s, a), s.current)
  {
    assert PcOk(s, s.current, s.pc[s.current]);
  }

  lemma DownNames(s: State, x: SemaId, k: DownThen)
    requires WellFormed(s) && x in s.sema && DownOk(s, s.current, x, k)
    ensures SameNames(s, SemaDown(s, x, k), s.current)
  {
  }

  lemma SemaNames(s: State, x: SemaId)
    requires WellFormed(s) && x in s.sema
    ensures SameNames(s, SemaUp(s, x), s.current) && SameNames(s, SemaTryDown(s, x), s.current)
  {
    assert PcOk(s, s.current, s.pc[s.current]);
  }

  lemma UpNames(s: State, x: SemaId, k: UpThen)
    requires WellFormed(s) && PcOk(s, s.current, CallUp(x, k))
    ensures var u := SemaUp(s, x); SameNames(s, u.(pc := u.pc[s.current := AfterUp(s.current, k)]), s.current)
  {
    var u := SemaUp(s, x);
    assert u.sema.Keys == s.sema.Keys && u.pc == s.pc && u.condWaiters == s.condWaiters;
    var s' := u.(pc := u.pc[s.current := AfterUp(s.current, k)]);
    assert PcOk(s', s.current, AfterUp(s.current, k));
  }

  lemma PopNames(s: State, c: Cond, k: UpThen)
    requires WellFormed(s) && c in s.condWaiters && s.condWaiters[c] != [] && (k == Signalled(c) || k == ToBroadcast(c))
    ensures SameNames(s, PopWaiter(s, c, k), s.current)
  {
    assert s.condWaiters[c][0] in s.condWaiters[c];
  }

  lemma NamesStep(s: State, a: Action)
    requires WellFormed(s) && Enabled(s, a)
    ensures SameNames(s, Apply(s, a), s.current)
  {
    match a
    case Yield => SwitchNames(s, a);
    case IdleBlock => SwitchNames(s, a);
    case Exit => SwitchNames(s, a);
    case Create(t) => SwitchNames(s, a);
    case Down(x) => DownNames(s, x, ToUser);
    case TryDown(x) => SemaNames(s, x);
    case Up(x) => SemaNames(s, x);
    case InterruptTryDown(x) => SemaNames(s, x);
    case InterruptUp(x) => SemaNames(s, x);
    case Acquire(l) => DownNames(s, LockSema(l), ToHolder(l));
    case TryAcquire(l) =>
    case Release(l) =>
    case Wait(c) =>
    case Signal(c) => if s.condWaiters[c] != [] { PopNames(s, c, Signalled(c)); }
    case Broadcast(c) =>
    case Continue => ResumeNames(s);
  }

  lemma ResumeNames(s: State)
    requires WellFormed(s) && s.pc[s.current] != User
    ensures SameNames(s, Resume(s), s.current)
  {
    assert PcOk(s, s.current, s.pc[s.current]);
    match s.pc[s.current]
    case CallDown(x, k) => DownNames(s, x, k);
    case Waiting(x, k) => DownNames(s, x, k);
    case CallUp(x, k) => UpNames(s, x, k);
    case SetHolder(l) =>
    case CondRelease(c) =>
    case Broadcasting(c) => if s.condWaiters[c] != [] { PopNames(s, c, ToBroadcast(c)); }
  }

  lemma WellFormedStep(s: State, a: Action)
    requires WellFormed(s) && SchedInv(s) && WaitInv(s) && Enabled(s, a)
    ensures WellFormed(Apply(s, a))
  {
    SchedStep(s, a);
    NamesStep(s, a);
    NamesKept(s, Apply(s, a), s.current);
  }

  // ----- wait lists

  lemma ScheduleBlocked(s: State, t: Thread, x: SemaId)
    requires Switchable(s)
    ensures BlockedOn(Schedule(s), t, x) <==> BlockedOn(s, t, x)
  {
  }

  lemma ScheduleWaiting(s: State)
    requires Switchable(s) && WaitInv(s)
    ensures WaitInv(Schedule(s))
  {
    forall t, x ensures BlockedOn(Schedule(s), t, x) <==> BlockedOn(s, t, x) {
      ScheduleBlocked(s, t, x);
    }
  }

  lemma ScheduleWait(s: State)
    requires Suspended(s) && WaitInv(s)
    ensures WaitInv(Schedule(s))
  {
    SuspendedSwitches(s);
    ScheduleWaiting(s);
  }

  lemma BlockWait(s: State, x: SemaId, k: DownThen)
    requires SchedInv(s) && WaitInv(s) && x in s.sema && s.current != s.idle
    ensures var w := s.sema[x].waiters + [s.current];
            var s0 := s.(sema := s.sema[x := s.sema[x].(waiters := w)],
                         status := s.status[s.current := Blocked], pc := s.pc[s.current := Waiting(x, k)]);
            Suspended(s0) && WaitInv(s0)
  {
    var w := s.sema[x].waiters + [s.current];
    assert !BlockedOn(s, s.current, x);
    var s0 := s.(sema := s.sema[x := s.sema[x].(waiters := w)],
                 status := s.status[s.current := Blocked], pc := s.pc[s.current := Waiting(x, k)]);
    forall y, t | y in s0.sema ensures t in s0.sema[y].waiters <==> BlockedOn(s0, t, y) {
      if t != s.current { assert BlockedOn(s0, t, y) <==> BlockedOn(s, t, y); }
    }
  }

  /** Steps that neither block nor unblock anyone. */
  lemma QuietWait(s: State, s': State)
    requires WaitInv(s)
    requires s'.idle == s.idle && s'.status == s.status
    requires forall x :: x in s'.sema ==> x in s.sema && s'.sema[x].waiters == s.sema[x].waiters
    requires s'.pc.Keys == s.pc.Keys
    requires forall t :: t in s.pc && t in s.status && s.status[t] == Blocked ==> s'.pc[t] == s.pc[t]
    ensures WaitInv(s')
  {
    forall t, x ensures BlockedOn(s', t, x) <==> BlockedOn(s, t, x) {
    }
  }

  lemma UpWait(s: State, x: SemaId)
    requires SchedInv(s) && WaitInv(s) && x in s.sema
    ensures WaitInv(SemaUp(s, x))
  {
    var w := s.sema[x].waiters;
    var s' := SemaUp(s, x);
    if w == [] {
      QuietWait(s, s');
    } else {
      assert w[0] in w && BlockedOn(s, w[0], x);
      assert forall t :: t in w <==> t == w[0] || t in w[1..];
      forall y, t | y in s'.sema ensures t in s'.sema[y].waiters <==> BlockedOn(s', t, y) {
        if t != w[0] { assert BlockedOn(s', t, y) <==> BlockedOn(s, t, y); }
      }
    }
  }

  lemma DownWait(s: State, x: SemaId, k: DownThen)
    requires SchedInv(s) && WaitInv(s) && x in s.sema && s.current != s.idle
    requires k.ToReacquire? ==> k.c in s.lockOf
    ensures WaitInv(SemaDown(s, x, k))
  {
    if s.sema[x].value == 0 {
      BlockWait(s, x, k);
      var w := s.sema[x].waiters + [s.current];
      ScheduleWait(s.(sema := s.sema[x := s.sema[x].(waiters := w)],
                      status := s.status[s.current := Blocked], pc := s.pc[s.current := Waiting(x, k)]));
    } else {
      QuietWait(s, SemaDown(s, x, k));
    }
  }

  lemma YieldWait(s: State)
    requires SchedInv(s) && WaitInv(s)
    ensures WaitInv(ThreadYield(s))
  {
    var s0 := s.(ready := if s.current != s.idle then s.ready + [s.current] else s.ready,
                 status := s.status[s.current := Ready]);
    forall t, x ensures BlockedOn(s0, t, x) <==> BlockedOn(s, t, x) { }
    ScheduleWait(s0);
  }

  lemma ExitWait(s: State)
    requires SchedInv(s) && WaitInv(s) && s.current != s.idle && s.pc[s.current] == User
    ensures WaitInv(ThreadExit(s))
  {
    var s0 := s.(status := s.status[s.current := Dying]);
    forall t, x ensures BlockedOn(s0, t, x) <==> BlockedOn(s, t, x) { }
    ScheduleWait(s0);
  }

  lemma IdleBlockWait(s: State)
    requires SchedInv(s) && WaitInv(s) && s.current == s.idle
    ensures WaitInv(ThreadBlock(s, User))
  {
    var s0 := s.(status := s.status[s.current := Blocked], pc := s.pc[s.current := User]);
    forall t, x ensures BlockedOn(s0, t, x) <==> BlockedOn(s, t, x) { }
    ScheduleWait(s0);
  }

  lemma CreateWait(s: State, t: Thread)
    requires SchedInv(s) && WaitInv(s) && t !in s.status && t != s.idle
    ensures WaitInv(ThreadCreate(s, t))
  {
    forall u, x ensures BlockedOn(ThreadCreate(s, t), u, x) <==> BlockedOn(s, u, x) { }
  }

  lemma EnqueueWait(s: State, c: Cond)
    requires WellFormed(s) && SchedInv(s) && WaitInv(s) && c in s.condWaiters
    ensures WaitInv(CondEnqueue(s, c))
  {
    var s' := CondEnqueue(s, c);
    forall u, x ensures BlockedOn(s', u, x) <==> BlockedOn(s, u, x) { }
    forall u ensures !BlockedOn(s, u, WaiterSema(s.current)) {
      if u in s.pc { assert PcOk(s, u, s.pc[u]); }
    }
  }

  /** The current thread goes from one place outside sema_down's loop to another; nobody blocks or wakes. */
  ghost predicate QuietCall(s: State, s': State) {
    && s.current in s.pc && s.current in s'.pc && s'.status == s.status && s'.idle == s.idle
    && s'.pc == s.pc[s.current := s'.pc[s.current]] && !s.pc[s.current].Waiting? && !s'.pc[s.current].Waiting?
    && s'.sema.Keys == s.sema.Keys
    && (forall x :: x in s.sema ==> s'.sema[x].waiters == s.sema[x].waiters && s'.sema[x].value <= s.sema[x].value)
  }

  predicate IsQuietCall(a: Action) {
    a.TryDown? || a.InterruptTryDown? || a.TryAcquire? || a.Release? || a.Signal? || a.Broadcast?
  }

  lemma CallsQuiet(s: State, a: Action)
    requires WellFormed(s) && Enabled(s, a) && Interruptible(s)
    requires IsQuietCall(a)
    ensures QuietCall(s, Apply(s, a))
  {
  }

  lemma CallWait(s: State, a: Action)
    requires WellFormed(s) && SchedInv(s) && WaitInv(s) && Enabled(s, a)
    requires IsQuietCall(a)
    ensures WaitInv(Apply(s, a))
  {
    CallsQuiet(s, a);
    QuietWait(s, Apply(s, a));
  }

  lemma WaitStep(s: State, a: Action)
    requires WellFormed(s) && SchedInv(s) && WaitInv(s) && Enabled(s, a)
    ensures WaitInv(Apply(s, a))
  {
    match a
    case Yield => YieldWait(s);
    case IdleBlock => IdleBlockWait(s);
    case Exit => ExitWait(s);
    case Create(t) => CreateWait(s, t);
    case Down(x) => DownWait(s, x, ToUser);
    case TryDown(x) => CallWait(s, a);
    case Up(x) => UpWait(s, x);
    case InterruptTryDown(x) => CallWait(s, a);
    case InterruptUp(x) => UpWait(s, x);
    case Acquire(l) => DownWait(s, LockSema(l), ToHolder(l));
    case TryAcquire(l) => CallWait(s, a);
    case Release(l) => CallWait(s, a);
    case Wait(c) => EnqueueWait(s, c);
    case Signal(c) => CallWait(s, a);
    case Broadcast(c) => CallWait(s, a);
    case Continue => ResumeWait(s);
  }

  lemma ResumeWait(s: State)
    requires WellFormed(s) && SchedInv(s) && WaitInv(s) && s.pc[s.current] != User
    ensures WaitInv(Resume(s))
  {
    assert PcOk(s, s.current, s.pc[s.current]);
    match s.pc[s.current]
    case CallDown(x, k) => DownWait(s, x, k);
    case Waiting(x, k) => DownWait(s, x, k);
    case CallUp(x, k) => UpWait(s, x); QuietWait(SemaUp(s, x), Resume(s));
    case SetHolder(l) => QuietWait(s, Resume(s));
    case CondRelease(c) => QuietWait(s, Resume(s));
    case Broadcasting(c) => QuietWait(s, Resume(s));
  }

  // ----- wake-ups

  lemma ScheduleWoken(s: State, t: Thread, x: SemaId)
    requires Switchable(s)
    ensures IsWoken(Schedule(s), t, x) <==> IsWoken(s, t, x)
  {
  }

  /** The wait list of x is empty, or its value did not grow and no woken thread was lost. */
  lemma QuietWake(s: State, s': State, x: SemaId)
    requires WakeAt(s, x)
    requires x in s'.sema && s'.sema[x].waiters != [] ==>
               x in s.sema && s.sema[x].waiters != [] && s'.sema[x].value <= s.sema[x].value
    requires forall t :: IsWoken(s', t, x) <==> IsWoken(s, t, x)
    ensures WakeAt(s', x)
  {
    assert Woken(s', x) == Woken(s, x);
  }

  lemma SwitchWake(s: State, s0: State, x: SemaId)
    requires WakeAt(s, x) && Suspended(s0) && s0.sema == s.sema
    requires forall t :: IsWoken(s0, t, x) <==> IsWoken(s, t, x)
    ensures WakeAt(Schedule(s0), x)
  {
    SuspendedSwitches(s0);
    forall t ensures IsWoken(Schedule(s0), t, x) <==> IsWoken(s, t, x) {
      ScheduleWoken(s0, t, x);
    }
    QuietWake(s, Schedule(s0), x);
  }

  /** The current thread queues up on x: x has no units, and no other semaphore's woken threads change. */
  lemma BlockWake(s: State, x: SemaId, k: DownThen, y: SemaId)
    requires SchedInv(s) && WakeAt(s, y) && x in s.sema && s.current != s.idle && s.sema[x].value == 0
    requires k.ToReacquire? ==> k.c in s.lockOf
    requires s.pc[s.current].Waiting? ==> s.pc[s.current].wx == x
    ensures WakeAt(SemaDown(s, x, k), y)
  {
    var s0 := s.(sema := s.sema[x := s.sema[x].(waiters := s.sema[x].waiters + [s.current])],
                 status := s.status[s.current := Blocked], pc := s.pc[s.current := Waiting(x, k)]);
    if y != x {
      forall t ensures IsWoken(Schedule(s0), t, y) <==> IsWoken(s, t, y) {
        ScheduleWoken(s0, t, y);
      }
      QuietWake(s, Schedule(s0), y);
    }
  }

  /** The current thread takes a unit of x, perhaps ahead of a thread woken for it. */
  lemma TakeWake(s: State, x: SemaId, k: DownThen, y: SemaId)
    requires SchedInv(s) && WakeAt(s, y) && x in s.sema && s.current != s.idle && s.sema[x].value > 0
    requires k.ToReacquire? ==> k.c in s.lockOf
    requires s.pc[s.current].Waiting? ==> s.pc[s.current].wx == x
    ensures WakeAt(SemaDown(s, x, k), y)
  {
    var s' := SemaDown(s, x, k);
    if y == x {
      assert forall t :: IsWoken(s', t, x) <==> IsWoken(s, t, x) && t != s.current;
      assert Woken(s', x) == Woken(s, x) - {s.current};
    } else {
      QuietWake(s, s', y);
    }
  }

  lemma DownWake(s: State, x: SemaId, k: DownThen, y: SemaId)
    requires SchedInv(s) && WakeAt(s, y) && x in s.sema && s.current != s.idle
    requires k.ToReacquire? ==> k.c in s.lockOf
    requires s.pc[s.current].Waiting? ==> s.pc[s.current].wx == x
    ensures WakeAt(SemaDown(s, x, k), y)
  {
    if s.sema[x].value == 0 { BlockWake(s, x, k, y); } else { TakeWake(s, x, k, y); }
  }

  /** A new unit of x comes with a newly woken thread, if any thread waits. */
  lemma UpWake(s: State, x: SemaId, y: SemaId)
    requires WaitInv(s) && WakeAt(s, y) && x in s.sema
    ensures WakeAt(SemaUp(s, x), y)
  {
    var w := s.sema[x].waiters;
    var s' := SemaUp(s, x);
    if w != [] {
      assert w[0] in w && BlockedOn(s, w[0], x);
      if y == x {
        assert forall t :: IsWoken(s', t, x) <==> IsWoken(s, t, x) || t == w[0];
        assert Woken(s', x) == Woken(s, x) + {w[0]} && w[0] !in Woken(s, x);
      } else {
        QuietWake(s, s', y);
      }
    } else if y != x {
      QuietWake(s, s', y);
    }
  }

  lemma YieldWake(s: State, x: SemaId)
    requires SchedInv(s) && WakeAt(s, x)
    ensures WakeAt(ThreadYield(s), x)
  {
    SwitchWake(s, s.(ready := if s.current != s.idle then s.ready + [s.current] else s.ready,
                     status := s.status[s.current := Ready]), x);
  }

  lemma ExitWake(s: State, x: SemaId)
    requires SchedInv(s) && WakeAt(s, x) && s.current != s.idle && s.pc[s.current] == User
    ensures WakeAt(ThreadExit(s), x)
  {
    SwitchWake(s, s.(status := s.status[s.current := Dying]), x);
  }

  lemma IdleBlockWake(s: State, x: SemaId)
    requires SchedInv(s) && WakeAt(s, x) && s.current == s.idle
    ensures WakeAt(ThreadBlock(s, User), x)
  {
    SwitchWake(s, s.(status := s.status[s.current := Blocked], pc := s.pc[s.current := User]), x);
  }

  lemma CreateWake(s: State, t: Thread, x: SemaId)
    requires SchedInv(s) && WakeAt(s, x) && t !in s.status
    ensures WakeAt(ThreadCreate(s, t), x)
  {
    QuietWake(s, ThreadCreate(s, t), x);
  }

  /** The current thread moves between places outside sema_down's loop. */
  lemma SetPcWake(s: State, s': State, x: SemaId)
    requires WakeAt(s, x) && s.current in s.pc && s.current in s'.pc && s'.status == s.status
    requires s'.pc == s.pc[s.current := s'.pc[s.current]]
    requires !s.pc[s.current].Waiting? && !s'.pc[s.current].Waiting?
    requires x in s'.sema && s'.sema[x].waiters != [] ==>
               x in s.sema && s.sema[x].waiters != [] && s'.sema[x].value <= s.sema[x].value
    ensures WakeAt(s', x)
  {
    QuietWake(s, s', x);
  }

  lemma CallWake(s: State, a: Action, x: SemaId)
    requires WellFormed(s) && WakeAt(s, x) && Enabled(s, a) && Interruptible(s) && IsQuietCall(a)
    ensures WakeAt(Apply(s, a), x)
  {
    CallsQuiet(s, a);
    SetPcWake(s, Apply(s, a), x);
  }

  lemma WakeStepAt(s: State, a: Action, x: SemaId)
    requires WellFormed(s) && SchedInv(s) && WaitInv(s) && WakeAt(s, x) && Enabled(s, a)
    ensures WakeAt(Apply(s, a), x)
  {
    match a
    case Yield => YieldWake(s, x);
    case IdleBlock => IdleBlockWake(s, x);
    case Exit => ExitWake(s, x);
    case Create(t) => CreateWake(s, t, x);
    case Down(y) => DownWake(s, y, ToUser, x);
    case TryDown(y) => CallWake(s, a, x);
    case Up(y) => UpWake(s, y, x);
    case InterruptTryDown(y) => CallWake(s, a, x);
    case InterruptUp(y) => UpWake(s, y, x);
    case Acquire(l) => DownWake(s, LockSema(l), ToHolder(l), x);
    case TryAcquire(l) => CallWake(s, a, x);
    case Release(l) => CallWake(s, a, x);
    case Wait(c) => SetPcWake(s, Apply(s, a), x);
    case Signal(c) => CallWake(s, a, x);
    case Broadcast(c) => CallWake(s, a, x);
    case Continue => ResumeWake(s, x);
  }

  lemma ResumeWake(s: State, x: SemaId)
    requires WellFormed(s) && SchedInv(s) && WaitInv(s) && WakeAt(s, x) && s.pc[s.current] != User
    ensures WakeAt(Resume(s), x)
  {
    assert PcOk(s, s.current, s.pc[s.current]);
    match s.pc[s.current]
    case CallDown(y, k) => DownWake(s, y, k, x);
    case Waiting(y, k) => DownWake(s, y, k, x);
    case CallUp(y, k) => UpWake(s, y, x); SetPcWake(SemaUp(s, y), Resume(s), x);
    case SetHolder(l) => SetPcWake(s, Resume(s), x);
    case CondRelease(c) => SetPcWake(s, Resume(s), x);
    case Broadcasting(c) => SetPcWake(s, Resume(s), x);
  }

  lemma WakeStep(s: State, a: Action)
    requires WellFormed(s) && SchedInv(s) && WaitInv(s) && WakeInv(s) && Enabled(s, a)
    ensures WakeInv(Apply(s, a))
  {
    forall x ensures WakeAt(Apply(s, a), x) { WakeStepAt(s, a, x); }
  }
}
