/** What the invariants and the step relation mean for users of the primitives. */
module ThreadsProperties {
  import opened Wrappers
  import opened Ordering
  import opened Threads
  import opened ThreadsInv
  import opened ThreadsSched
  import opened ThreadsWait
  import opened ThreadsLock
  import opened ThreadsCond
  import opened ThreadsRun

  // ----- safety in every reachable state

  /** A thread's single list element is on at most one list, the right one for its status, and a thread
      that does not exist is on none. */
  lemma OneList(s: State, t: Thread)
    requires Reachable(s)
    ensures t in s.ready <==> t in s.status && s.status[t] == Ready && t != s.idle
    ensures t in s.status ==> (s.status[t] == Running <==> t == s.current)
    ensures forall x :: x in s.sema && t in s.sema[x].waiters ==> t in s.status && s.status[t] == Blocked
    ensures forall x, y :: x in s.sema && y in s.sema && t in s.sema[x].waiters && t in s.sema[y].waiters ==> x == y
    ensures forall c :: c in s.condWaiters && t in s.condWaiters[c] ==> t in s.status
  {
    ReachableInv(s);
    WaitsOnce(s, t);
    SleeperExists(s, t);
  }

  lemma SleeperExists(s: State, t: Thread)
    requires SchedInv(s) && TokenAt(s, t)
    ensures forall c :: c in s.condWaiters && t in s.condWaiters[c] ==> t in s.status
  {
  }

  lemma WaitsOnce(s: State, t: Thread)
    requires WaitInv(s)
    ensures forall x :: x in s.sema && t in s.sema[x].waiters ==> t in s.status && s.status[t] == Blocked
    ensures forall x, y :: x in s.sema && y in s.sema && t in s.sema[x].waiters && t in s.sema[y].waiters ==> x == y
  {
    assert forall x :: x in s.sema && t in s.sema[x].waiters ==> BlockedOn(s, t, x);
  }

  /** Two threads are never both between the end of sema_down and sema_up on one lock. */
  lemma MutualExclusion(s: State, l: Lock, t: Thread, u: Thread)
    requires Reachable(s) && l in s.holder && t in Owners(s, l) && u in Owners(s, l)
    ensures t == u && LockSema(l) in s.sema && s.sema[LockSema(l)].value == 0
  {
    ReachableInv(s);
    assert LockAt(s, l);
    OnlyMember(Owners(s, l), t);
  }

  /** If x has units while a thread sleeps on it, some thread was woken for them and is on its way to look. */
  lemma NoLostWakeup(s: State, x: SemaId)
    requires Reachable(s) && x in s.sema && s.sema[x].waiters != [] && s.sema[x].value > 0
    ensures exists t :: t in s.pc && s.pc[t].Waiting? && s.pc[t].wx == x && (t in s.ready || t == s.current)
  {
    ReachableInv(s);
    assert WakeAt(s, x);
    var t :| t in Woken(s, x);
    assert t in s.pc && s.pc[t].Waiting? && s.pc[t].wx == x && (t in s.ready || t == s.current);
  }

  lemma OnlyOwnSemaphore(s: State, t: Thread)
    requires WellFormed(s) && WaitInv(s) && WakeInv(s) && t in s.pc && s.pc[t].Waiting? && s.pc[t].wx == WaiterSema(t)
    requires BlockedOn(s, t, WaiterSema(t)) && WaiterSema(t) in s.sema
    ensures s.sema[WaiterSema(t)].value == 0
  {
    assert forall u :: IsWoken(s, u, WaiterSema(t)) ==> PcOk(s, u, s.pc[u]);
    assert Woken(s, WaiterSema(t)) == {} && WakeAt(s, WaiterSema(t));
  }

  /** A thread blocked in cond_wait has not been forgotten: it is still queued on its condition, or a
      signaller has taken it off and is about to wake it.  A signal that arrived before it blocked is a unit
      in its semaphore, so it would not have blocked. */
  lemma NoLostSignal(s: State, t: Thread, c: Cond)
    requires Reachable(s) && BlockedOn(s, t, WaiterSema(t)) && s.pc[t].wk == ToReacquire(c)
    ensures c in s.condWaiters && (t in s.condWaiters[c] <==> Signallers(s, t) == {})
    ensures WaiterSema(t) in s.sema && s.sema[WaiterSema(t)].value == 0
  {
    ReachableInv(s);
    SleeperToken(s, t, c);
  }

  lemma SleeperToken(s: State, t: Thread, c: Cond)
    requires WellFormed(s) && WaitInv(s) && WakeInv(s) && TokenAt(s, t)
    requires BlockedOn(s, t, WaiterSema(t)) && s.pc[t].wk == ToReacquire(c)
    ensures c in s.condWaiters && (t in s.condWaiters[c] <==> Signallers(s, t) == {})
    ensures WaiterSema(t) in s.sema && s.sema[WaiterSema(t)].value == 0
  {
    assert SleepsOn(s, t) == Some(c);
    OnlyOwnSemaphore(s, t);
  }

  /** The running thread's next step puts the first unit in w's private semaphore and changes no other. */
  ghost predicate Fills(s: State, w: Thread) {
    && WellFormed(s) && WaiterSema(w) in s.sema && s.sema[WaiterSema(w)].value == 0
    && WaiterSema(w) in Resume(s).sema && Resume(s).sema[WaiterSema(w)].value == 1
    && (forall x :: x in s.sema && x != WaiterSema(w) ==> x in Resume(s).sema && Resume(s).sema[x] == s.sema[x])
  }

  /** A signaller's sema_up reaches a thread still inside cond_wait, and fills its empty semaphore. */
  lemma SignalDelivered(s: State, w: Thread)
    requires WellFormed(s) && TokenAt(s, w) && SignalsTo(PcOf(s, s.current), w)
    ensures SleepsOn(s, w).Some? && Fills(s, w)
  {
    assert s.current in Signallers(s, w);
  }

  /** While a thread holds the lock of condition c, no other thread changes c's list: the list operations of
      cond_wait, cond_signal and cond_broadcast need no disabled interrupts. */
  lemma CondListProtected(s: State, a: Action, t: Thread, c: Cond)
    requires WellFormed(s) && SchedInv(s) && HoldInv(s) && Enabled(s, a)
    requires t != s.current && c in s.lockOf && Holds(s, t, s.lockOf[c])
    ensures c in Apply(s, a).condWaiters && Apply(s, a).condWaiters[c] == s.condWaiters[c]
  {
    assert HoldsNeeded(s, s.current) && PcOk(s, s.current, PcOf(s, s.current));
    QueueEffect(s, a, c);
  }

  // ----- counting

  ghost function UpsBy(s: State, a: Action, x: SemaId): nat {
    if (a.Up? || a.InterruptUp?) && a.x == x then 1
    else if a.Continue? && PcOf(s, s.current).CallUp? && PcOf(s, s.current).ux == x then 1
    else 0
  }

  /** The semaphore this action may decrement. */
  ghost function Tries(s: State, a: Action): Option<SemaId> {
    match a
    case Down(x) => Some(x)
    case TryDown(x) => Some(x)
    case InterruptTryDown(x) => Some(x)
    case Acquire(l) => Some(LockSema(l))
    case TryAcquire(l) => Some(LockSema(l))
    case Continue =>
      var pc := PcOf(s, s.current);
      if pc.CallDown? then Some(pc.dx) else if pc.Waiting? then Some(pc.wx) else None
    case _ => None
  }

  ghost function DownsBy(s: State, a: Action, x: SemaId): nat
    requires x in s.sema
  {
    if Tries(s, a) == Some(x) && s.sema[x].value > 0 then 1 else 0
  }

  /** The part of the invariant that is kept without looking at locks and conditions. */
  ghost predicate Core(s: State) {
    WellFormed(s) && SchedInv(s) && WaitInv(s)
  }

  lemma CoreStep(s: State, a: Action)
    requires Core(s) && Enabled(s, a)
    ensures Core(Apply(s, a))
  {
    WellFormedStep(s, a);
    SchedStep(s, a);
    WaitStep(s, a);
  }

  lemma {:induction false} CoreRun(s: State, acts: seq<Action>)
    requires Core(s) && Executes(s, acts)
    ensures Core(After(s, acts))
    decreases |acts|
  {
    if acts != [] {
      CoreStep(s, acts[0]);
      CoreRun(Apply(s, acts[0]), acts[1..]);
    }
  }

  lemma ValueUp(s: State, y: SemaId, x: SemaId)
    requires x in s.sema && y in s.sema
    ensures x in SemaUp(s, y).sema && SemaUp(s, y).sema[x].value == s.sema[x].value + if x == y then 1 else 0
  {
  }

  lemma ValueSema(s: State, a: Action, x: SemaId)
    requires WellFormed(s) && Enabled(s, a) && x in s.sema
    requires a.Down? || a.Acquire? || a.TryAcquire?
    ensures x in Apply(s, a).sema
    ensures Apply(s, a).sema[x].value == s.sema[x].value + UpsBy(s, a, x) - DownsBy(s, a, x)
  {
    if a.Down? { DownValue(s, a.x, ToUser, x); }
    else if a.Acquire? { DownValue(s, LockSema(a.l), ToHolder(a.l), x); }
  }

  lemma ValuePlain(s: State, a: Action, x: SemaId)
    requires WellFormed(s) && Enabled(s, a) && x in s.sema && IsPlain(a)
    ensures x in Apply(s, a).sema
    ensures Apply(s, a).sema[x].value == s.sema[x].value + UpsBy(s, a, x) - DownsBy(s, a, x)
  {
  }

  /** cond_wait starts with a fresh semaphore; otherwise a value changes by ups and downs alone. */
  lemma ValueStep(s: State, a: Action, x: SemaId)
    requires Core(s) && Enabled(s, a) && x in s.sema && !(a.Wait? && x == WaiterSema(s.current))
    ensures x in Apply(s, a).sema
    ensures Apply(s, a).sema[x].value == s.sema[x].value + UpsBy(s, a, x) - DownsBy(s, a, x)
  {
    if IsPlain(a) {
      ValuePlain(s, a, x);
    } else if a.Down? || a.Acquire? || a.TryAcquire? {
      ValueSema(s, a, x);
    } else if a.Continue? {
      ValueResume(s, x);
    }
  }

  lemma ValueResume(s: State, x: SemaId)
    requires WellFormed(s) && s.pc[s.current] != User && x in s.sema
    ensures x in Resume(s).sema
    ensures Resume(s).sema[x].value == s.sema[x].value + UpsBy(s, Continue, x) - DownsBy(s, Continue, x)
  {
    assert PcOk(s, s.current, PcOf(s, s.current));
    match s.pc[s.current]
    case CallDown(y, k) => DownValue(s, y, k, x);
    case Waiting(y, k) => DownValue(s, y, k, x);
    case CallUp(y, k) => ValueUp(s, y, x);
    case SetHolder(l) =>
    case CondRelease(d) =>
    case Broadcasting(d) =>
  }

  ghost function UpsIn(s: State, acts: seq<Action>, x: SemaId): nat
    requires Executes(s, acts)
    decreases |acts|
  {
    if acts == [] then 0 else UpsBy(s, acts[0], x) + UpsIn(Apply(s, acts[0]), acts[1..], x)
  }

  ghost function DownsIn(s: State, acts: seq<Action>, x: SemaId): nat
    requires Executes(s, acts)
    decreases |acts|
  {
    if acts == [] then 0
    else (if x in s.sema then DownsBy(s, acts[0], x) else 0) + DownsIn(Apply(s, acts[0]), acts[1..], x)
  }

  /** Over every run, value == initial + ups - downs. */
  lemma {:induction false} ValueCounts(s: State, acts: seq<Action>, x: SemaId)
    requires Core(s) && Executes(s, acts) && x in s.sema && !x.WaiterSema?
    ensures x in After(s, acts).sema
    ensures After(s, acts).sema[x].value + DownsIn(s, acts, x) == s.sema[x].value + UpsIn(s, acts, x)
    decreases |acts|
  {
    if acts != [] {
      CoreStep(s, acts[0]);
      ValueStep(s, acts[0], x);
      ValueCounts(Apply(s, acts[0]), acts[1..], x);
    }
  }

  // ----- FIFO scheduling

  /** Does this action call schedule()? */
  ghost predicate Schedules(s: State, a: Action) {
    || a.Yield? || a.IdleBlock? || a.Exit?
    || ((a.Down? || a.Acquire? || a.Continue?) && Tries(s, a).Some?
        && Tries(s, a).value in s.sema && s.sema[Tries(s, a).value].value == 0)
  }

  lemma ReadyStep(s: State, a: Action)
    requires WellFormed(s) && SchedInv(s) && Enabled(s, a)
    ensures !Schedules(s, a) ==> s.ready <= Apply(s, a).ready
    ensures Schedules(s, a) && s.ready != [] ==>
              Apply(s, a).current == s.ready[0] && s.ready[1..] <= Apply(s, a).ready
  {
    if a.Continue? {
      ReadyResume(s);
    } else if a.Down? {
      ReadyDown(s, a.x, ToUser);
    } else if a.Acquire? {
      ReadyDown(s, LockSema(a.l), ToHolder(a.l));
    } else if IsSwitch(a) {
      ReadySwitch(s, a);
    } else {
      ReadyGrows(s, a);
    }
  }

  lemma ReadySwitch(s: State, a: Action)
    requires WellFormed(s) && SchedInv(s) && Enabled(s, a) && IsSwitch(a)
    ensures !Schedules(s, a) ==> s.ready <= Apply(s, a).ready
    ensures Schedules(s, a) && s.ready != [] ==>
              Apply(s, a).current == s.ready[0] && s.ready[1..] <= Apply(s, a).ready
  {
  }

  lemma ReadyGrows(s: State, a: Action)
    requires WellFormed(s) && Enabled(s, a) && !IsSwitch(a) && !a.Continue? && !a.Down? && !a.Acquire?
    ensures !Schedules(s, a) && s.ready <= Apply(s, a).ready
  {
  }

  lemma ReadyDown(s: State, x: SemaId, k: DownThen)
    requires x in s.sema && s.current in s.status && (k.ToReacquire? ==> k.c in s.lockOf)
    ensures s.sema[x].value > 0 ==> SemaDown(s, x, k).ready == s.ready
    ensures s.sema[x].value == 0 && s.ready != [] ==>
              SemaDown(s, x, k).current == s.ready[0] && SemaDown(s, x, k).ready == s.ready[1..]
  {
  }

  lemma ReadyResume(s: State)
    requires WellFormed(s) && s.pc[s.current] != User
    ensures !Schedules(s, Continue) ==> s.ready <= Resume(s).ready
    ensures Schedules(s, Continue) && s.ready != [] ==>
              Resume(s).current == s.ready[0] && s.ready[1..] <= Resume(s).ready
  {
    assert PcOk(s, s.current, PcOf(s, s.current));
    match s.pc[s.current]
    case CallDown(y, k) => ReadyDown(s, y, k);
    case Waiting(y, k) => ReadyDown(s, y, k);
    case CallUp(y, k) =>
    case SetHolder(l) =>
    case CondRelease(d) =>
    case Broadcasting(d) =>
  }

  lemma FifoStep(s: State, a: Action, k: nat)
    requires WellFormed(s) && SchedInv(s) && Enabled(s, a) && k < |s.ready| && (Schedules(s, a) ==> k > 0)
    ensures var k' := if Schedules(s, a) then k - 1 else k;
            k' < |Apply(s, a).ready| && Apply(s, a).ready[k'] == s.ready[k]
  {
    ReadyStep(s, a);
    if Schedules(s, a) { assert s.ready[1..][k - 1] == s.ready[k]; }
  }

  ghost function SchedulesIn(s: State, acts: seq<Action>): nat
    requires Executes(s, acts)
    decreases |acts|
  {
    if acts == [] then 0
    else (if Schedules(s, acts[0]) then 1 else 0) + SchedulesIn(Apply(s, acts[0]), acts[1..])
  }

  /** With k threads ahead of it, a ready thread moves up one place per schedule() call. */
  lemma {:induction false} FifoPlace(s: State, acts: seq<Action>, k: nat)
    requires Core(s) && Executes(s, acts) && k < |s.ready| && SchedulesIn(s, acts) <= k
    ensures k - SchedulesIn(s, acts) < |After(s, acts).ready|
    ensures After(s, acts).ready[k - SchedulesIn(s, acts)] == s.ready[k]
    decreases |acts|
  {
    if acts != [] {
      CoreStep(s, acts[0]);
      FifoStep(s, acts[0], k);
      FifoPlace(Apply(s, acts[0]), acts[1..], if Schedules(s, acts[0]) then k - 1 else k);
    }
  }

  /** ... and is the one chosen by exactly the (k + 1)th. */
  lemma FifoChosen(s: State, acts: seq<Action>, a: Action, k: nat)
    requires Core(s) && Executes(s, acts) && k < |s.ready| && SchedulesIn(s, acts) == k
    requires WellFormed(After(s, acts)) && Enabled(After(s, acts), a) && Schedules(After(s, acts), a)
    ensures Apply(After(s, acts), a).current == s.ready[k]
  {
    FifoPlace(s, acts, k);
    CoreRun(s, acts);
    ReadyStep(After(s, acts), a);
  }
}
