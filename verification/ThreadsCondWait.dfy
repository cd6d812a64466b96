/** cond_wait from its start to its return, in every interleaving. */
module ThreadsCondWait {
  import opened Wrappers
  import opened Ordering
  import opened Threads
  import opened ThreadsInv
  import opened ThreadsSched
  import opened ThreadsWait
  import opened ThreadsLock
  import opened ThreadsCond
  import opened ThreadsRun
  import opened ThreadsProperties

  /** t is back from its private semaphore and in lock_acquire on l. */
  ghost predicate Reacquiring(pc: Pc, l: Lock) {
    || pc == CallDown(LockSema(l), ToHolder(l)) || pc == Waiting(LockSema(l), ToHolder(l)) || pc == SetHolder(l)
  }

  ghost function Count(b: bool): nat {
    if b then 1 else 0
  }

  /** How often an action of a run takes t off c's list. */
  ghost function TakesIn(s: State, acts: seq<Action>, c: Cond, t: Thread): nat
    requires Executes(s, acts)
    decreases |acts|
  {
    if acts == [] then 0
    else Count(TakenBy(s, acts[0], c) == Some(t)) + TakesIn(Apply(s, acts[0]), acts[1..], c, t)
  }

  /** t is inside a primitive in every state of the run but perhaps the last. */
  ghost predicate InsideUntil(s: State, acts: seq<Action>, t: Thread)
    requires Executes(s, acts)
    decreases |acts|
  {
    acts != [] ==> PcOf(s, t) != User && InsideUntil(Apply(s, acts[0]), acts[1..], t)
  }

  // ----- lock_acquire at the end of cond_wait

  lemma SelfStep(s: State, a: Action)
    requires WellFormed(s) && SchedInv(s) && Enabled(s, a) && PcOf(s, s.current) != User
    ensures PcOf(Apply(s, a), s.current) == if a.Continue? then NextPc(s) else PcOf(s, s.current)
  {
    if IsSwitch(a) { SwitchStays(s, a); }
    else if IsPlain(a) { PlainStays(s, a); }
    else { ResumeSelf(s); }
  }

  lemma ReacquireStep(s: State, a: Action, t: Thread, l: Lock)
    requires WellFormed(s) && SchedInv(s) && Enabled(s, a) && Reacquiring(PcOf(s, t), l)
    ensures var s' := Apply(s, a);
            Reacquiring(PcOf(s', t), l) || (PcOf(s', t) == User && Holds(s', t, l))
  {
    if t != s.current {
      StepOthers(s, a);
    } else {
      assert PcOk(s, t, PcOf(s, t));
      SelfStep(s, a);
      HolderEffect(s, a);
    }
  }

  /** Nobody is about to up the private semaphore of a thread past cond_wait's sleep. */
  lemma AwakeStep(s: State, a: Action, t: Thread, l: Lock)
    requires WellFormed(s) && TokenAt(s, t) && Enabled(s, a) && Reacquiring(PcOf(s, t), l)
    ensures UpsBy(s, a, WaiterSema(t)) == 0
  {
    assert s.current !in Signallers(s, t);
  }

  lemma ReacquireTurn(s: State, a: Action, t: Thread, l: Lock)
    requires Reachable(s) && WellFormed(s) && Enabled(s, a) && Reacquiring(PcOf(s, t), l)
    ensures UpsBy(s, a, WaiterSema(t)) == 0
    ensures Reacquiring(PcOf(Apply(s, a), t), l) || (PcOf(Apply(s, a), t) == User && Holds(Apply(s, a), t, l))
  {
    ReachableToken(s, t);
    AwakeStep(s, a, t, l);
    ReacquireStep(s, a, t, l);
  }

  lemma {:induction false} ReacquireRun(s: State, acts: seq<Action>, t: Thread, l: Lock)
    requires Reachable(s) && Reacquiring(PcOf(s, t), l)
    requires Executes(s, acts) && InsideUntil(s, acts, t) && PcOf(After(s, acts), t) == User
    ensures Holds(After(s, acts), t, l) && UpsIn(s, acts, WaiterSema(t)) == 0
    decreases |acts|
  {
    ReacquireTurn(s, acts[0], t, l);
    ReachableStep(s, acts[0]);
    if |acts| > 1 { ReacquireRun(Apply(s, acts[0]), acts[1..], t, l); }
  }

  // ----- the sleep

  /** Only t itself takes from t's private semaphore. */
  lemma OwnDown(s: State, a: Action, t: Thread)
    requires WellFormed(s) && Enabled(s, a) && WaiterSema(t) in s.sema && t != s.current
    ensures DownsBy(s, a, WaiterSema(t)) == 0
  {
    assert PcOk(s, s.current, PcOf(s, s.current));
  }

  /** t sleeps on, or takes the unit in its semaphore and turns to the lock. */
  lemma SleepPc(s: State, a: Action, t: Thread, c: Cond)
    requires WellFormed(s) && SchedInv(s) && Enabled(s, a) && SleepsOn(s, t) == Some(c)
    ensures c in s.lockOf && WaiterSema(t) in s.sema
    ensures if DownsBy(s, a, WaiterSema(t)) == 0 then SleepsOn(Apply(s, a), t) == Some(c)
            else s.sema[WaiterSema(t)].value > 0 && Reacquiring(PcOf(Apply(s, a), t), s.lockOf[c])
  {
    assert PcOk(s, t, PcOf(s, t));
    if t != s.current {
      StepOthers(s, a);
      OwnDown(s, a, t);
    } else {
      SelfStep(s, a);
    }
  }

  /** A private semaphore with a unit in it has nobody left to up it. */
  lemma UnitIsLast(s: State, a: Action, t: Thread, c: Cond)
    requires WellFormed(s) && TokenAt(s, t) && Enabled(s, a) && SleepsOn(s, t) == Some(c)
    ensures c in s.condWaiters && WaiterSema(t) in s.sema
    ensures s.sema[WaiterSema(t)].value > 0 ==>
              s.sema[WaiterSema(t)].value == 1 && UpsBy(s, a, WaiterSema(t)) == 0
  {
    assert UpsBy(s, a, WaiterSema(t)) == 1 ==> s.current in Signallers(s, t);
  }

  lemma QueuedStep(s: State, a: Action, t: Thread, c: Cond)
    requires WellFormed(s) && SchedInv(s) && Enabled(s, a) && PcOf(s, t) != User
    requires c in s.condWaiters && Distinct(s.condWaiters[c])
    ensures c in Apply(s, a).condWaiters
    ensures Queued(s, t, c) == Count(TakenBy(s, a, c) == Some(t)) + Queued(Apply(s, a), t, c)
  {
    QueueEffect(s, a, c);
  }

  /** What is still to come before t may go on: the units its semaphore lacks. */
  ghost predicate Owed(s: State, t: Thread, c: Cond, ups: nat) {
    c in s.lockOf && WaiterSema(t) in s.sema && s.sema[WaiterSema(t)].value + ups == 1
  }

  lemma OwedStep(s: State, a: Action, t: Thread, c: Cond, ups: nat)
    requires WellFormed(s) && SchedInv(s) && WaitInv(s) && TokenAt(s, t) && Enabled(s, a)
    requires SleepsOn(s, t) == Some(c) && Owed(s, t, c, ups)
    ensures var s', u := Apply(s, a), UpsBy(s, a, WaiterSema(t));
            if DownsBy(s, a, WaiterSema(t)) == 0 then u <= ups && Owed(s', t, c, ups - u) else ups == u == 0
  {
    UnitIsLast(s, a, t, c);
    ValueStep(s, a, WaiterSema(t));
    HolderEffect(s, a);
  }

  lemma SleepTurn(s: State, a: Action, t: Thread, c: Cond, ups: nat)
    requires Reachable(s) && WellFormed(s) && Enabled(s, a) && SleepsOn(s, t) == Some(c) && Owed(s, t, c, ups)
    ensures var s', u := Apply(s, a), UpsBy(s, a, WaiterSema(t));
            && s'.lockOf == s.lockOf
            && if DownsBy(s, a, WaiterSema(t)) == 0
               then SleepsOn(s', t) == Some(c) && u <= ups && Owed(s', t, c, ups - u)
               else Reacquiring(PcOf(s', t), s.lockOf[c]) && ups == u == 0
  {
    ReachableToken(s, t);
    SleepPc(s, a, t, c);
    OwedStep(s, a, t, c, ups);
    HolderEffect(s, a);
  }

  /** From the sleep to the return: the lock is held again, and the missing ups came. */
  lemma {:induction false} SleepRun(s: State, acts: seq<Action>, t: Thread, c: Cond, ups: nat)
    requires Reachable(s) && SleepsOn(s, t) == Some(c) && Owed(s, t, c, ups)
    requires Executes(s, acts) && InsideUntil(s, acts, t) && PcOf(After(s, acts), t) == User
    ensures Holds(After(s, acts), t, s.lockOf[c]) && UpsIn(s, acts, WaiterSema(t)) == ups
    decreases |acts|
  {
    var s', rest := Apply(s, acts[0]), acts[1..];
    SleepTurn(s, acts[0], t, c, ups);
    ReachableStep(s, acts[0]);
    if DownsBy(s, acts[0], WaiterSema(t)) == 0 {
      SleepRun(s', rest, t, c, ups - UpsBy(s, acts[0], WaiterSema(t)));
    } else {
      ReacquireRun(s', rest, t, s.lockOf[c]);
    }
  }

  lemma QueuedTurn(s: State, a: Action, t: Thread, c: Cond)
    requires Reachable(s) && WellFormed(s) && Enabled(s, a) && c in s.condWaiters && PcOf(s, t) != User
    ensures Reachable(Apply(s, a)) && c in Apply(s, a).condWaiters
    ensures Queued(s, t, c) == Count(TakenBy(s, a, c) == Some(t)) + Queued(Apply(s, a), t, c)
  {
    ReachableInv(s);
    ReachableStep(s, a);
    QueuedStep(s, a, t, c);
  }

  lemma {:induction false} TakesRun(s: State, acts: seq<Action>, t: Thread, c: Cond)
    requires Reachable(s) && c in s.condWaiters && Executes(s, acts) && InsideUntil(s, acts, t)
    ensures Reachable(After(s, acts)) && c in After(s, acts).condWaiters
    ensures Queued(s, t, c) == TakesIn(s, acts, c, t) + Queued(After(s, acts), t, c)
    decreases |acts|
  {
    if acts != [] {
      QueuedTurn(s, acts[0], t, c);
      TakesRun(Apply(s, acts[0]), acts[1..], t, c);
    }
  }

  lemma AwakeUnqueued(s: State, t: Thread, c: Cond)
    requires Reachable(s) && c in s.condWaiters && PcOf(s, t) == User
    ensures Queued(s, t, c) == 0
  {
    ReachableToken(s, t);
  }

  // ----- the theorem

  /** Entering cond_wait leaves the caller last on the condition's list with an empty private semaphore. */
  lemma WaitEnters(s: State, c: Cond)
    requires WellFormed(s) && Enabled(s, Wait(c))
    ensures var s' := Apply(s, Wait(c));
            && SleepsOn(s', s.current) == Some(c) && Owed(s', s.current, c, 1) && s'.lockOf == s.lockOf
            && c in s'.condWaiters && Queued(s', s.current, c) == 1
  {
  }

  /** cond_wait, in every interleaving with other threads and interrupts: when the caller is back in its own
      code it holds the condition's lock again, and since it called it was taken off the front of the
      condition's list exactly once and its private semaphore was upped exactly once. */
  lemma CondWaitReturns(s: State, c: Cond, acts: seq<Action>)
    requires Reachable(s) && WellFormed(s) && Enabled(s, Wait(c))
    requires var s' := Apply(s, Wait(c));
             Executes(s', acts) && InsideUntil(s', acts, s.current) && PcOf(After(s', acts), s.current) == User
    ensures var s', t := Apply(s, Wait(c)), s.current;
            && Holds(After(s', acts), t, s.lockOf[c])
            && TakesIn(s', acts, c, t) == 1 && UpsIn(s', acts, WaiterSema(t)) == 1
  {
    ReachableStep(s, Wait(c));
    WaitEnters(s, c);
    SleepRun(Apply(s, Wait(c)), acts, s.current, c, 1);
    TakesRun(Apply(s, Wait(c)), acts, s.current, c);
    AwakeUnqueued(After(Apply(s, Wait(c)), acts), s.current, c);
  }

  // ----- the signaller

  /** u takes no step of its own primitive in the run. */
  ghost predicate Rests(s: State, acts: seq<Action>, u: Thread)
    requires Executes(s, acts)
    decreases |acts|
  {
    acts != [] ==> !(s.current == u && acts[0].Continue?) && Rests(Apply(s, acts[0]), acts[1..], u)
  }

  /** u took w off c's list and has not upped its semaphore yet. */
  ghost predicate Delivering(s: State, u: Thread, w: Thread, c: Cond) {
    SignalsTo(PcOf(s, u), w) && SleepsOn(s, w) == Some(c)
  }

  lemma DeliveringStep(s: State, a: Action, u: Thread, w: Thread, c: Cond)
    requires WellFormed(s) && SchedInv(s) && TokenAt(s, w) && Enabled(s, a) && Delivering(s, u, w, c)
    requires !(s.current == u && a.Continue?)
    ensures Delivering(Apply(s, a), u, w, c)
  {
    assert u in Signallers(s, w);
    SleepPc(s, a, w, c);
    if u == s.current { SelfStep(s, a); } else { StepOthers(s, a); }
  }

  lemma DeliveringTurn(s: State, a: Action, u: Thread, w: Thread, c: Cond)
    requires Reachable(s) && WellFormed(s) && Enabled(s, a) && Delivering(s, u, w, c)
    requires !(s.current == u && a.Continue?)
    ensures Reachable(Apply(s, a)) && Delivering(Apply(s, a), u, w, c)
  {
    ReachableToken(s, w);
    ReachableStep(s, a);
    DeliveringStep(s, a, u, w, c);
  }

  lemma {:induction false} DeliveringRun(s: State, acts: seq<Action>, u: Thread, w: Thread, c: Cond)
    requires Reachable(s) && Executes(s, acts) && Rests(s, acts, u) && Delivering(s, u, w, c)
    ensures Reachable(After(s, acts)) && Delivering(After(s, acts), u, w, c)
    decreases |acts|
  {
    if acts != [] {
      DeliveringTurn(s, acts[0], u, w, c);
      DeliveringRun(Apply(s, acts[0]), acts[1..], u, w, c);
    }
  }

  lemma TakingStarts(s: State, a: Action, c: Cond)
    requires WellFormed(s) && SchedInv(s) && Enabled(s, a) && TakenBy(s, a, c).Some?
    requires TokenAt(s, s.condWaiters[c][0])
    ensures Delivering(Apply(s, a), s.current, s.condWaiters[c][0], c)
  {
    StepOthers(s, a);
    if a.Continue? { ResumeSelf(s); }
  }

  /** A signal is never lost or misdirected: the thread that cond_signal or a turn of cond_broadcast takes off
      the list is the oldest one there, it is still asleep on c with an empty semaphore however long the
      signaller is preempted, and the signaller's next step fills that semaphore and no other. */
  lemma SignalArrives(s: State, a: Action, c: Cond, acts: seq<Action>)
    requires Reachable(s) && WellFormed(s) && Enabled(s, a) && TakenBy(s, a, c).Some?
    requires var s1 := Apply(s, a);
             Executes(s1, acts) && Rests(s1, acts, s.current) && After(s1, acts).current == s.current
    ensures var s2, w := After(Apply(s, a), acts), s.condWaiters[c][0];
            SleepsOn(s2, w) == Some(c) && Fills(s2, w)
  {
    var s2, w := After(Apply(s, a), acts), s.condWaiters[c][0];
    ReachableStep(s, a);
    assert Delivering(Apply(s, a), s.current, w, c) by {
      ReachableToken(s, w);
      TakingStarts(s, a, c);
    }
    DeliveringRun(Apply(s, a), acts, s.current, w, c);
    ReachableToken(s2, w);
    SignalDelivered(s2, w);
  }
}
