/** What every step of the thread system keeps. */
module ThreadsInv {
  import opened Wrappers
  import opened Ordering
  import opened Threads

  // ----- scheduler

  /** The ready list holds exactly the ready threads other than the idle thread, each once. */
  ghost predicate ReadyOk(s: State) {
    && Distinct(s.ready)
    && (forall t :: t in s.ready <==> t in s.status && s.status[t] == Ready && t != s.idle)
  }

  /** The idle thread and dying threads never start a primitive; only the initial thread stays around dying. */
  ghost predicate LivesOk(s: State) {
    && s.pc.Keys == s.status.Keys
    && s.idle in s.status && s.pc[s.idle] == User && s.status[s.idle] != Dying
    && (forall t :: t in s.status && s.status[t] == Dying ==> (t == s.initial || t == s.current) && s.pc[t] == User)
  }

  ghost predicate SchedInv(s: State) {
    && s.current in s.status
    && (forall t :: t in s.status ==> (s.status[t] == Running <==> t == s.current))
    && ReadyOk(s) && LivesOk(s)
  }

  /** Between a status change of the current thread and the switch: nobody runs. */
  ghost predicate Suspended(s: State) {
    && s.current in s.status
    && (forall t :: t in s.status ==> s.status[t] != Running)
    && ReadyOk(s) && LivesOk(s)
  }

  /** Where t stands; a thread that does not exist is nowhere inside a primitive. */
  ghost function PcOf(s: State, t: Thread): Pc {
    if t in s.pc then s.pc[t] else User
  }

  // ----- wait lists

  ghost predicate BlockedOn(s: State, t: Thread, x: SemaId) {
    t in s.status && t in s.pc && s.status[t] == Blocked && s.pc[t].Waiting? && s.pc[t].wx == x
  }

  /** A thread is on a semaphore's wait list exactly while it is blocked in sema_down on that semaphore,
      and every blocked thread but the idle thread is. */
  ghost predicate WaitInv(s: State) {
    && (forall x :: x in s.sema ==> Distinct(s.sema[x].waiters))
    && (forall x, t :: x in s.sema ==> (t in s.sema[x].waiters <==> BlockedOn(s, t, x)))
    && (forall t :: t in s.status && t in s.pc && s.status[t] == Blocked && t != s.idle ==> s.pc[t].Waiting?)
  }

  /** t was taken off x's wait list and has not looked at its value again yet. */
  ghost predicate IsWoken(s: State, t: Thread, x: SemaId) {
    t in s.pc && s.pc[t].Waiting? && s.pc[t].wx == x && t in s.status && s.status[t] != Blocked
  }

  ghost function Woken(s: State, x: SemaId): set<Thread> {
    set t | t in s.pc && IsWoken(s, t, x)
  }

  /** While somebody waits on x, each unit of its value is matched by a woken thread. */
  ghost predicate WakeAt(s: State, x: SemaId) {
    x in s.sema && s.sema[x].waiters != [] ==> s.sema[x].value <= |Woken(s, x)|
  }

  /** No wake-up is lost. */
  ghost predicate WakeInv(s: State) {
    forall x :: WakeAt(s, x)
  }

  // ----- locks

  /** Past sema_down in lock_acquire, or not yet through sema_up in lock_release. */
  ghost predicate InRegion(pc: Pc, l: Lock) {
    pc == SetHolder(l) || (pc.CallUp? && pc.ux == LockSema(l))
  }

  /** The threads between the end of sema_down and sema_up on l's semaphore. */
  ghost function Owners(s: State, l: Lock): set<Thread>
    requires l in s.holder
  {
    (set t | t in s.pc && InRegion(PcOf(s, t), l)) + if s.holder[l].Some? then {s.holder[l].value} else {}
  }

  /** Mutual exclusion on l, also in the windows where lock->holder is null. */
  ghost predicate LockAt(s: State, l: Lock)
    requires l in s.holder
  {
    && LockSema(l) in s.sema && s.sema[LockSema(l)].value + |Owners(s, l)| == 1
    && (forall t :: InRegion(PcOf(s, t), l) ==> s.holder[l] == None)
  }

  ghost predicate LockInv(s: State) {
    forall l :: l in s.holder ==> LockAt(s, l)
  }

  ghost predicate HoldsNeeded(s: State, t: Thread) {
    var n := NeedsLock(PcOf(s, t));
    n.Some? && n.value in s.lockOf ==> Holds(s, t, s.lockOf[n.value])
  }

  /** Inside cond_wait before the release, and throughout cond_signal and cond_broadcast, the lock is held. */
  ghost predicate HoldInv(s: State) {
    forall t :: HoldsNeeded(s, t)
  }

  ghost function NeedsLock(pc: Pc): Option<Cond> {
    if pc.CondRelease? then Some(pc.rc)
    else if pc.Broadcasting? then Some(pc.bc)
    else if pc.CallUp? && (pc.uk.Signalled? || pc.uk.ToBroadcast?) then Some(pc.uk.c)
    else None
  }

  // ----- condition variables

  /** The condition a thread sleeps on in cond_wait, until its private semaphore lets it go. */
  ghost function CondOf(pc: Pc): Option<Cond> {
    if pc.CondRelease? then Some(pc.rc)
    else if pc.CallUp? && pc.uk.ToSleep? then Some(pc.uk.c)
    else if pc.CallDown? && pc.dk.ToReacquire? then Some(pc.dk.c)
    else if pc.Waiting? && pc.wk.ToReacquire? then Some(pc.wk.c)
    else None
  }

  ghost function SleepsOn(s: State, t: Thread): Option<Cond> {
    CondOf(PcOf(s, t))
  }

  ghost predicate SignalsTo(pc: Pc, t: Thread) {
    pc.CallUp? && pc.ux == WaiterSema(t)
  }

  /** Threads that popped t's waiter off the condition and are about to up its semaphore. */
  ghost function Signallers(s: State, t: Thread): set<Thread> {
    set u | u in s.pc && SignalsTo(PcOf(s, u), t)
  }

  ghost function Queued(s: State, t: Thread, c: Cond): nat
    requires c in s.condWaiters
  {
    if t in s.condWaiters[c] then 1 else 0
  }

  /** A sleeper owns exactly one token: its place in the queue, a signaller on its way, or a unit in its
      semaphore.  Threads outside cond_wait own none. */
  ghost predicate TokenAt(s: State, t: Thread) {
    var sleep := SleepsOn(s, t);
    && (forall c :: c in s.condWaiters && t in s.condWaiters[c] ==> sleep == Some(c))
    && (sleep.None? ==> Signallers(s, t) == {})
    && (sleep.Some? ==>
          && sleep.value in s.condWaiters && WaiterSema(t) in s.sema
          && Queued(s, t, sleep.value) + |Signallers(s, t)| + s.sema[WaiterSema(t)].value == 1)
  }

  ghost predicate CondInv(s: State) {
    && (forall c :: c in s.condWaiters ==> Distinct(s.condWaiters[c]))
    && (forall t :: TokenAt(s, t))
  }

  ghost predicate Inv(s: State) {
    WellFormed(s) && SchedInv(s) && WaitInv(s) && WakeInv(s) && LockInv(s) && HoldInv(s) && CondInv(s)
  }
}
