/** Threads, semaphores, locks and condition variables as one step system.

    Code that runs with interrupts off is one atomic step, broken only where thread_block switches
    threads.  Everywhere else the running thread may be preempted. */
module Threads {
  import opened Wrappers
  import opened Ordering

  /** A thread is named by the page its structure lives in, which may be reused after it dies. */
  type Thread = nat
  type Lock = nat
  type Cond = nat

  datatype Status = Running | Ready | Blocked | Dying

  /** A stand-alone semaphore, the one inside a lock, or the one on a waiter's stack in cond_wait. */
  datatype SemaId = PlainSema(n: nat) | LockSema(l: Lock) | WaiterSema(t: Thread)

  datatype Sema = Sema(value: nat, waiters: seq<Thread>)

  /** What follows a sema_down: return to the caller, write lock->holder, or reacquire the lock. */
  datatype DownThen = ToUser | ToHolder(l: Lock) | ToReacquire(c: Cond)

  /** What follows a sema_up: return, go to sleep in cond_wait, or continue cond_broadcast. */
  datatype UpThen = Released | ToSleep(c: Cond) | Signalled(c: Cond) | ToBroadcast(c: Cond)

  /** Where a thread stands.  `Waiting` is the loop of sema_down: asleep on the wait list, or woken and about
      to look at the value again with interrupts still off. */
  datatype Pc =
    | User
    | CallDown(dx: SemaId, dk: DownThen)
    | Waiting(wx: SemaId, wk: DownThen)
    | CallUp(ux: SemaId, uk: UpThen)
    | SetHolder(l: Lock)
    | CondRelease(rc: Cond)
    | Broadcasting(bc: Cond)

  datatype State = State(
    status: map<Thread, Status>,
    pc: map<Thread, Pc>,
    current: Thread,
    idle: Thread,
    initial: Thread,
    ready: seq<Thread>,
    sema: map<SemaId, Sema>,
    holder: map<Lock, Option<Thread>>,
    lockOf: map<Cond, Lock>,
    condWaiters: map<Cond, seq<Thread>>)

  /** What the running thread, or an interrupt, does next.  `Continue` finishes a started primitive. */
  datatype Action =
    | Yield | IdleBlock | Exit | Create(t: Thread)
    | Down(x: SemaId) | TryDown(x: SemaId) | Up(x: SemaId)
    | InterruptTryDown(x: SemaId) | InterruptUp(x: SemaId)
    | Acquire(l: Lock) | TryAcquire(l: Lock) | Release(l: Lock)
    | Wait(c: Cond) | Signal(c: Cond) | Broadcast(c: Cond)
    | Continue

  // ----- thread.c

  /** schedule and schedule_tail: the current thread already left the running state. */
  function Schedule(s: State): State
    requires s.current in s.status
  {
    var next := if s.ready == [] then s.idle else s.ready[0];
    var s1 := s.(ready := if s.ready == [] then [] else s.ready[1..],
                 current := next,
                 status := s.status[next := Running]);
    if s.current != next && s.status[s.current] == Dying && s.current != s.initial then
      s1.(status := s1.status - {s.current}, pc := s.pc - {s.current})
    else s1
  }

  function ThreadBlock(s: State, pc: Pc): State
    requires s.current in s.status
  {
    Schedule(s.(status := s.status[s.current := Blocked], pc := s.pc[s.current := pc]))
  }

  function ThreadUnblock(s: State, t: Thread): State {
    s.(ready := s.ready + [t], status := s.status[t := Ready])
  }

  function ThreadYield(s: State): State
    requires s.current in s.status
  {
    Schedule(s.(ready := if s.current != s.idle then s.ready + [s.current] else s.ready,
                status := s.status[s.current := Ready]))
  }

  function ThreadExit(s: State): State
    requires s.current in s.status
  {
    Schedule(s.(status := s.status[s.current := Dying]))
  }

  /** thread_create, from the moment the new thread becomes visible. */
  function ThreadCreate(s: State, t: Thread): State {
    ThreadUnblock(s.(pc := s.pc[t := User]), t)
  }

  // ----- synch.c

  function AfterDown(s: State, k: DownThen): Pc
    requires k.ToReacquire? ==> k.c in s.lockOf
  {
    match k
    case ToUser => User
    case ToHolder(l) => SetHolder(l)
    case ToReacquire(c) => CallDown(LockSema(s.lockOf[c]), ToHolder(s.lockOf[c]))
  }

  function AfterUp(t: Thread, k: UpThen): Pc {
    match k
    case Released => User
    case ToSleep(c) => CallDown(WaiterSema(t), ToReacquire(c))
    case Signalled(c) => User
    case ToBroadcast(c) => Broadcasting(c)
  }

  function SetValue(s: State, x: SemaId, v: nat): State
    requires x in s.sema
  {
    s.(sema := s.sema[x := s.sema[x].(value := v)])
  }

  /** One turn of sema_down's loop by the current thread: take a unit, or queue up and block. */
  function SemaDown(s: State, x: SemaId, k: DownThen): State
    requires x in s.sema && s.current in s.status && (k.ToReacquire? ==> k.c in s.lockOf)
  {
    if s.sema[x].value == 0 then
      ThreadBlock(s.(sema := s.sema[x := s.sema[x].(waiters := s.sema[x].waiters + [s.current])]), Waiting(x, k))
    else
      SetValue(s, x, s.sema[x].value - 1).(pc := s.pc[s.current := AfterDown(s, k)])
  }

  function SemaTryDown(s: State, x: SemaId): State
    requires x in s.sema
  {
    if s.sema[x].value > 0 then SetValue(s, x, s.sema[x].value - 1) else s
  }

  function SemaUp(s: State, x: SemaId): State
    requires x in s.sema
  {
    var Sema(v, w) := s.sema[x];
    if w == [] then SetValue(s, x, v + 1)
    else ThreadUnblock(s, w[0]).(sema := s.sema[x := Sema(v + 1, w[1..])])
  }

  /** list_pop_front of cond->waiters, then on to sema_up of that waiter's semaphore. */
  function PopWaiter(s: State, c: Cond, k: UpThen): State
    requires c in s.condWaiters && s.condWaiters[c] != []
  {
    var w := s.condWaiters[c];
    s.(condWaiters := s.condWaiters[c := w[1..]], pc := s.pc[s.current := CallUp(WaiterSema(w[0]), k)])
  }

  function CondEnqueue(s: State, c: Cond): State
    requires c in s.condWaiters
  {
    var t := s.current;
    s.(sema := s.sema[WaiterSema(t) := Sema(0, [])],
       condWaiters := s.condWaiters[c := s.condWaiters[c] + [t]],
       pc := s.pc[t := CondRelease(c)])
  }

  // ----- one step

  ghost predicate WellFormed(s: State) {
    && s.current in s.status && s.current in s.pc
    && s.lockOf.Keys == s.condWaiters.Keys
    && (forall c :: c in s.lockOf ==> s.lockOf[c] in s.holder)
    && (forall l :: l in s.holder ==> LockSema(l) in s.sema)
    && (forall c, t :: c in s.condWaiters && t in s.condWaiters[c] ==> WaiterSema(t) in s.sema)
    && (forall t :: t in s.pc ==> PcOk(s, t, s.pc[t]))
  }

  /** The semaphore, lock and condition a program counter names exist and belong together. */
  ghost predicate PcOk(s: State, t: Thread, pc: Pc) {
    match pc
    case User => true
    case CallDown(x, k) => x in s.sema && DownOk(s, t, x, k)
    case Waiting(x, k) => x in s.sema && DownOk(s, t, x, k)
    case CallUp(x, k) =>
      && x in s.sema
      && (k.Released? ==> x.LockSema? && x.l in s.holder)
      && (k.ToSleep? ==> k.c in s.lockOf && x == LockSema(s.lockOf[k.c]) && WaiterSema(t) in s.sema)
      && (k.Signalled? ==> k.c in s.lockOf && x.WaiterSema?)
      && (k.ToBroadcast? ==> k.c in s.lockOf && x.WaiterSema?)
    case SetHolder(l) => l in s.holder
    case CondRelease(c) => c in s.lockOf && WaiterSema(t) in s.sema
    case Broadcasting(c) => c in s.lockOf
  }

  ghost predicate DownOk(s: State, t: Thread, x: SemaId, k: DownThen) {
    match k
    case ToUser => x.PlainSema?
    case ToHolder(l) => l in s.holder && x == LockSema(l)
    case ToReacquire(c) => c in s.lockOf && x == WaiterSema(t)
  }

  predicate Holds(s: State, t: Thread, l: Lock) {
    l in s.holder && s.holder[l] == Some(t)
  }

  /** The running thread is in its own code, and is not the idle thread. */
  predicate InUser(s: State) {
    s.current in s.pc && s.pc[s.current] == User && s.current != s.idle
  }

  /** Interrupts are on: the running thread is not on its way back from thread_block. */
  predicate Interruptible(s: State) {
    s.current in s.pc && !s.pc[s.current].Waiting?
  }

  /** The calls the source's assertions admit in this state. */
  predicate Enabled(s: State, a: Action) {
    match a
    case Yield => Interruptible(s)
    case IdleBlock => s.current == s.idle && s.current in s.pc && s.pc[s.current] == User
    case Exit => InUser(s)
    case Create(t) => InUser(s) && t !in s.status && t != s.initial && t != s.idle
    case Down(x) => InUser(s) && x in s.sema && x.PlainSema?
    case TryDown(x) => InUser(s) && x in s.sema && x.PlainSema?
    case Up(x) => InUser(s) && x in s.sema && x.PlainSema?
    case InterruptTryDown(x) => Interruptible(s) && x in s.sema && x.PlainSema?
    case InterruptUp(x) => Interruptible(s) && x in s.sema && x.PlainSema?
    case Acquire(l) => InUser(s) && l in s.holder && !Holds(s, s.current, l)
    case TryAcquire(l) => InUser(s) && l in s.holder && !Holds(s, s.current, l)
    case Release(l) => InUser(s) && Holds(s, s.current, l)
    case Wait(c) => InUser(s) && c in s.lockOf && Holds(s, s.current, s.lockOf[c])
    case Signal(c) => InUser(s) && c in s.lockOf && Holds(s, s.current, s.lockOf[c])
    case Broadcast(c) => InUser(s) && c in s.lockOf && Holds(s, s.current, s.lockOf[c])
    case Continue => s.current in s.pc && s.pc[s.current] != User
  }

  function Apply(s: State, a: Action): State
    requires WellFormed(s) && Enabled(s, a)
  {
    match a
    case Yield => ThreadYield(s)
    case IdleBlock => ThreadBlock(s, User)
    case Exit => ThreadExit(s)
    case Create(t) => ThreadCreate(s, t)
    case Down(x) => SemaDown(s, x, ToUser)
    case TryDown(x) => SemaTryDown(s, x)
    case Up(x) => SemaUp(s, x)
    case InterruptTryDown(x) => SemaTryDown(s, x)
    case InterruptUp(x) => SemaUp(s, x)
    case Acquire(l) => SemaDown(s, LockSema(l), ToHolder(l))
    case TryAcquire(l) =>
      if s.sema[LockSema(l)].value > 0 then SemaTryDown(s, LockSema(l)).(pc := s.pc[s.current := SetHolder(l)]) else s
    case Release(l) => s.(holder := s.holder[l := None], pc := s.pc[s.current := CallUp(LockSema(l), Released)])
    case Wait(c) => CondEnqueue(s, c)
    case Signal(c) => if s.condWaiters[c] == [] then s else PopWaiter(s, c, Signalled(c))
    case Broadcast(c) => s.(pc := s.pc[s.current := Broadcasting(c)])
    case Continue => Resume(s)
  }

  function Resume(s: State): State
    requires WellFormed(s)
  {
    var t := s.current;
    match s.pc[t]
    case User => s
    case CallDown(x, k) => SemaDown(s, x, k)
    case Waiting(x, k) => SemaDown(s, x, k)
    case CallUp(x, k) => var u := SemaUp(s, x); u.(pc := u.pc[t := AfterUp(t, k)])
    case SetHolder(l) => s.(holder := s.holder[l := Some(t)], pc := s.pc[t := User])
    case CondRelease(c) =>
      s.(holder := s.holder[s.lockOf[c] := None], pc := s.pc[t := CallUp(LockSema(s.lockOf[c]), ToSleep(c))])
    case Broadcasting(c) =>
      if s.condWaiters[c] == [] then s.(pc := s.pc[t := User]) else PopWaiter(s, c, ToBroadcast(c))
  }
}
