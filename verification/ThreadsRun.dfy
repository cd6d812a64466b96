/** Safety and order over whole runs of the thread system. */
module ThreadsRun {
  import opened Wrappers
  import opened Ordering
  import opened Threads
  import opened ThreadsInv
  import opened ThreadsSched
  import opened ThreadsWait
  import opened ThreadsLock
  import opened ThreadsCond

  /** The thread that an action takes off c's list: cond_signal and each turn of cond_broadcast take the oldest. */
  ghost function TakenBy(s: State, a: Action, c: Cond): Option<Thread> {
    if c in s.condWaiters && s.condWaiters[c] != []
       && (a == Signal(c) || (a.Continue? && PcOf(s, s.current) == Broadcasting(c)))
    then Some(s.condWaiters[c][0]) else None
  }

  /** Only cond_wait adds to c's list, and only signals take from it. */
  lemma QueueEffect(s: State, a: Action, c: Cond)
    requires WellFormed(s) && SchedInv(s) && Enabled(s, a) && c in s.condWaiters
    ensures c in Apply(s, a).condWaiters
    ensures Apply(s, a).condWaiters[c] ==
            if TakenBy(s, a, c).Some? then s.condWaiters[c][1..]
            else if a == Wait(c) then s.condWaiters[c] + [s.current] else s.condWaiters[c]
  {
    if a.Continue? {
      QueueResume(s, c);
    } else if !a.Wait? && !a.Signal? {
      QueueStays(s, a);
    }
  }

  lemma QueueStays(s: State, a: Action)
    requires WellFormed(s) && SchedInv(s) && Enabled(s, a) && !a.Continue? && !a.Wait? && !a.Signal?
    ensures Apply(s, a).condWaiters == s.condWaiters
  {
    if IsSwitch(a) { SwitchStays(s, a); }
    else if IsPlain(a) { PlainStays(s, a); }
    else if a.Down? { DownStays(s, a.x, ToUser); }
    else if a.Acquire? { DownStays(s, LockSema(a.l), ToHolder(a.l)); }
  }

  lemma QueueResume(s: State, c: Cond)
    requires WellFormed(s) && SchedInv(s) && s.pc[s.current] != User && c in s.condWaiters
    ensures c in Resume(s).condWaiters
    ensures Resume(s).condWaiters[c] ==
            if TakenBy(s, Continue, c).Some? then s.condWaiters[c][1..] else s.condWaiters[c]
  {
    assert PcOk(s, s.current, PcOf(s, s.current));
    match s.pc[s.current]
    case CallDown(x, k) => DownStays(s, x, k);
    case Waiting(x, k) => DownStays(s, x, k);
    case CallUp(x, k) => UpStays(s, x);
    case SetHolder(l) =>
    case CondRelease(d) =>
    case Broadcasting(d) =>
  }

  lemma StepOthers(s: State, a: Action)
    requires WellFormed(s) && SchedInv(s) && Enabled(s, a)
    ensures OthersStay(s, Apply(s, a))
  {
    if IsSwitch(a) { SwitchStays(s, a); }
    else if IsPlain(a) { PlainStays(s, a); }
    else if a.Down? { DownStays(s, a.x, ToUser); }
    else if a.Acquire? { DownStays(s, LockSema(a.l), ToHolder(a.l)); }
    else if a.Continue? { ResumeSelf(s); }
  }

  lemma HoldStep(s: State, a: Action)
    requires Inv(s) && Enabled(s, a)
    ensures HoldInv(Apply(s, a))
  {
    StepOthers(s, a);
    HoldStepSelf(s, a);
    forall u | u != s.current ensures HoldsNeeded(Apply(s, a), u) { HoldStepOther(s, a, u); }
  }

  lemma CondStep(s: State, a: Action)
    requires WellFormed(s) && SchedInv(s) && CondInv(s) && Enabled(s, a)
    ensures CondInv(Apply(s, a))
  {
    forall t ensures TokenAt(Apply(s, a), t) { TokenStep(s, a, t); }
    NamesStep(s, a);
    assert TokenAt(s, s.current);
    forall c | c in Apply(s, a).condWaiters ensures Distinct(Apply(s, a).condWaiters[c]) {
      QueueEffect(s, a, c);
    }
  }

  lemma LockStep(s: State, a: Action)
    requires WellFormed(s) && SchedInv(s) && HoldsNeeded(s, s.current) && LockInv(s) && Enabled(s, a)
    ensures LockInv(Apply(s, a))
  {
    NamesStep(s, a);
    forall l | l in Apply(s, a).holder ensures LockAt(Apply(s, a), l) { LockStepAt(s, a, l); }
  }

  /** Every step of the system keeps every invariant. */
  lemma InvStep(s: State, a: Action)
    requires Inv(s) && Enabled(s, a)
    ensures Inv(Apply(s, a))
  {
    WellFormedStep(s, a);
    SchedStep(s, a);
    WaitStep(s, a);
    WakeStep(s, a);
    LockStep(s, a);
    HoldStep(s, a);
    CondStep(s, a);
  }

  // ----- runs

  /** Right after thread_start: the main thread runs, the idle thread is blocked, nothing is held. */
  ghost predicate Init(s: State) {
    && s.initial != s.idle && s.current == s.initial
    && s.status == map[s.initial := Running, s.idle := Blocked]
    && s.pc == map[s.initial := User, s.idle := User]
    && s.ready == []
    && s.lockOf.Keys == s.condWaiters.Keys && (forall c :: c in s.lockOf ==> s.lockOf[c] in s.holder)
    && (forall x :: x in s.sema ==> s.sema[x].waiters == [])
    && (forall l :: l in s.holder ==> s.holder[l] == None && LockSema(l) in s.sema && s.sema[LockSema(l)].value == 1)
    && (forall c :: c in s.condWaiters ==> s.condWaiters[c] == [])
  }

  lemma InitOrder(s: State)
    requires Init(s)
    ensures WellFormed(s) && SchedInv(s) && WaitInv(s) && WakeInv(s)
  {
  }

  lemma InitLock(s: State, l: Lock)
    requires Init(s) && l in s.holder
    ensures LockAt(s, l)
  {
    assert Owners(s, l) == {};
  }

  lemma InitToken(s: State, t: Thread)
    requires Init(s)
    ensures TokenAt(s, t)
  {
    assert Signallers(s, t) == {};
  }

  lemma InitInv(s: State)
    requires Init(s)
    ensures Inv(s)
  {
    InitOrder(s);
    forall l | l in s.holder ensures LockAt(s, l) { InitLock(s, l); }
    forall t ensures TokenAt(s, t) { InitToken(s, t); }
  }

  ghost predicate Executes(s: State, acts: seq<Action>)
    decreases |acts|
  {
    acts == [] || (WellFormed(s) && Enabled(s, acts[0]) && Executes(Apply(s, acts[0]), acts[1..]))
  }

  ghost function After(s: State, acts: seq<Action>): State
    requires Executes(s, acts)
    decreases |acts|
  {
    if acts == [] then s else After(Apply(s, acts[0]), acts[1..])
  }

  /** The invariant holds in every state of every run. */
  lemma {:induction false} InvRun(s: State, acts: seq<Action>)
    requires Inv(s) && Executes(s, acts)
    ensures Inv(After(s, acts))
    decreases |acts|
  {
    if acts != [] {
      InvStep(s, acts[0]);
      InvRun(Apply(s, acts[0]), acts[1..]);
    }
  }

  ghost predicate Reachable(s: State) {
    exists s0, acts :: Init(s0) && Executes(s0, acts) && After(s0, acts) == s
  }

  lemma ReachableInv(s: State)
    requires Reachable(s)
    ensures Inv(s)
  {
    var s0, acts :| Init(s0) && Executes(s0, acts) && After(s0, acts) == s;
    InitInv(s0);
    InvRun(s0, acts);
  }

  lemma ReachableToken(s: State, t: Thread)
    requires Reachable(s)
    ensures WellFormed(s) && SchedInv(s) && WaitInv(s) && TokenAt(s, t)
  {
    ReachableInv(s);
  }

  lemma ReachableHold(s: State)
    requires Reachable(s)
    ensures HoldInv(s) && forall c :: c in s.condWaiters ==> Distinct(s.condWaiters[c])
  {
    ReachableInv(s);
  }

  lemma ReachableLock(s: State, l: Lock)
    requires Reachable(s) && l in s.holder
    ensures LockAt(s, l)
  {
    ReachableInv(s);
  }

  lemma {:induction false} RunExtends(s: State, acts: seq<Action>, a: Action)
    requires Executes(s, acts) && WellFormed(After(s, acts)) && Enabled(After(s, acts), a)
    ensures Executes(s, acts + [a]) && After(s, acts + [a]) == Apply(After(s, acts), a)
    decreases |acts|
  {
    if acts == [] {
      assert [a][1..] == [];
    } else {
      assert (acts + [a])[1..] == acts[1..] + [a];
      RunExtends(Apply(s, acts[0]), acts[1..], a);
    }
  }

  lemma ReachableStep(s: State, a: Action)
    requires Reachable(s) && WellFormed(s) && Enabled(s, a)
    ensures Reachable(Apply(s, a))
  {
    var s0, acts :| Init(s0) && Executes(s0, acts) && After(s0, acts) == s;
    RunExtends(s0, acts, a);
  }
}
