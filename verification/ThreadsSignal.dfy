/** cond_signal and cond_broadcast from their start to their return, in every interleaving. */
module ThreadsSignal {
  import opened Wrappers
  import opened Ordering
  import opened Threads
  import opened ThreadsInv
  import opened ThreadsLock
  import opened ThreadsRun
  import opened ThreadsProperties
  import opened ThreadsCondWait

  /** Inside cond_signal or cond_broadcast on c. */
  ghost predicate Calling(pc: Pc, c: Cond) {
    || pc == Broadcasting(c)
    || (pc.CallUp? && pc.ux.WaiterSema? && (pc.uk == ToBroadcast(c) || pc.uk == Signalled(c)))
  }

  ghost predicate OneSignal(pc: Pc, c: Cond) {
    pc.CallUp? && pc.uk == Signalled(c)
  }

  /** In lock_acquire at the end of cond_wait, and not past the lock's semaphore. */
  ghost predicate Trying(pc: Pc, l: Lock) {
    pc == CallDown(LockSema(l), ToHolder(l)) || pc == Waiting(LockSema(l), ToHolder(l))
  }

  /** Is w yet to be upped: still on c's list, or taken off it by t, who has not upped it yet? */
  ghost function Due(s: State, t: Thread, w: Thread, c: Cond): nat
    requires c in s.condWaiters
  {
    Queued(s, w, c) + Count(SignalsTo(PcOf(s, t), w))
  }

  // ----- the lock keeps everybody else out

  lemma CallingHolds(s: State, t: Thread, c: Cond)
    requires Reachable(s) && Calling(PcOf(s, t), c) && c in s.lockOf
    ensures Holds(s, t, s.lockOf[c])
  {
    ReachableHold(s);
    assert HoldsNeeded(s, t);
  }

  lemma LockedOut(s: State, t: Thread, w: Thread, l: Lock)
    requires Reachable(s) && Holds(s, t, l) && Reacquiring(PcOf(s, w), l)
    ensures Trying(PcOf(s, w), l)
  {
    ReachableLock(s, l);
  }

  lemma CallingStep(s: State, a: Action, t: Thread, c: Cond)
    requires WellFormed(s) && SchedInv(s) && Enabled(s, a) && Calling(PcOf(s, t), c)
    ensures PcOf(Apply(s, a), t) == if t == s.current && a.Continue? then NextPc(s) else PcOf(s, t)
    ensures PcOf(Apply(s, a), t) == User || Calling(PcOf(Apply(s, a), t), c)
  {
    if t == s.current { SelfStep(s, a); } else { StepOthers(s, a); }
  }

  // ----- what becomes of one sleeper

  lemma OnlySignaller(s: State, a: Action, t: Thread, w: Thread, c: Cond)
    requires WellFormed(s) && TokenAt(s, w) && Enabled(s, a) && t in s.pc && t != s.current && c in s.condWaiters
    requires SleepsOn(s, w) == Some(c) && Owed(s, w, c, Due(s, t, w, c))
    ensures UpsBy(s, a, WaiterSema(w)) == 0
  {
    if s.current in Signallers(s, w) {
      assert Count(SignalsTo(PcOf(s, t), w)) == |Signallers(s, w)|;
      if t in Signallers(s, w) { OnlyMember(Signallers(s, w), s.current); }
    }
  }

  lemma DueOthers(s: State, a: Action, t: Thread, w: Thread, c: Cond)
    requires WellFormed(s) && SchedInv(s) && HoldInv(s) && TokenAt(s, w) && Enabled(s, a) && t != s.current
    requires Calling(PcOf(s, t), c) && c in s.lockOf && Holds(s, t, s.lockOf[c])
    requires SleepsOn(s, w) == Some(c) && Owed(s, w, c, Due(s, t, w, c))
    ensures c in Apply(s, a).condWaiters
    ensures UpsBy(s, a, WaiterSema(w)) == 0 && Due(Apply(s, a), t, w, c) == Due(s, t, w, c)
  {
    OnlySignaller(s, a, t, w, c);
    CondListProtected(s, a, t, c);
    StepOthers(s, a);
  }

  lemma DueOwn(s: State, a: Action, w: Thread, c: Cond)
    requires WellFormed(s) && SchedInv(s) && Enabled(s, a) && Calling(PcOf(s, s.current), c)
    requires c in s.lockOf && Distinct(s.condWaiters[c])
    ensures c in Apply(s, a).condWaiters
    ensures UpsBy(s, a, WaiterSema(w)) + Due(Apply(s, a), s.current, w, c) == Due(s, s.current, w, c)
  {
    SelfStep(s, a);
    QueueEffect(s, a, c);
  }

  lemma DueTurn(s: State, a: Action, t: Thread, w: Thread, c: Cond)
    requires Reachable(s) && WellFormed(s) && Enabled(s, a) && Calling(PcOf(s, t), c) && c in s.lockOf
    requires SleepsOn(s, w) == Some(c) && Owed(s, w, c, Due(s, t, w, c))
    ensures c in Apply(s, a).condWaiters
    ensures UpsBy(s, a, WaiterSema(w)) + Due(Apply(s, a), t, w, c) == Due(s, t, w, c)
  {
    ReachableToken(s, w);
    ReachableHold(s);
    CallingHolds(s, t, c);
    if t == s.current { DueOwn(s, a, w, c); } else { DueOthers(s, a, t, w, c); }
  }

  lemma NothingDue(s: State, t: Thread, w: Thread, c: Cond)
    requires TokenAt(s, w) && c in s.condWaiters && SleepsOn(s, w) == None
    ensures Due(s, t, w, c) == 0
  {
    assert t !in Signallers(s, w);
  }

  lemma AwakeDue(s: State, t: Thread, w: Thread, c: Cond, l: Lock)
    requires Reachable(s) && c in s.condWaiters && Reacquiring(PcOf(s, w), l)
    ensures Due(s, t, w, c) == 0
  {
    assert TokenAt(s, w) by { ReachableToken(s, w); }
    NothingDue(s, t, w, c);
  }

  /** t is in its call; w sleeps on c with just what is due to it outstanding, or is on its way back and locked out. */
  ghost predicate Waking(s: State, t: Thread, w: Thread, c: Cond, l: Lock) {
    && Calling(PcOf(s, t), c) && c in s.lockOf && s.lockOf[c] == l && c in s.condWaiters
    && ((SleepsOn(s, w) == Some(c) && Owed(s, w, c, Due(s, t, w, c))) || Trying(PcOf(s, w), l))
  }

  lemma WakingSleeper(s: State, a: Action, t: Thread, w: Thread, c: Cond, l: Lock)
    requires Reachable(s) && WellFormed(s) && Enabled(s, a) && Waking(s, t, w, c, l) && SleepsOn(s, w) == Some(c)
    ensures var s' := Apply(s, a);
            && c in s'.condWaiters && UpsBy(s, a, WaiterSema(w)) + Due(s', t, w, c) == Due(s, t, w, c)
            && (Calling(PcOf(s', t), c) ==> Waking(s', t, w, c, l))
  {
    var s' := Apply(s, a);
    DueTurn(s, a, t, w, c);
    SleepTurn(s, a, w, c, Due(s, t, w, c));
    if Calling(PcOf(s', t), c) && Reacquiring(PcOf(s', w), l) {
      ReachableStep(s, a);
      ComesBackOut(s', t, w, c, l);
    }
  }

  lemma ComesBackOut(s: State, t: Thread, w: Thread, c: Cond, l: Lock)
    requires Reachable(s) && Calling(PcOf(s, t), c) && c in s.lockOf && s.lockOf[c] == l && Reacquiring(PcOf(s, w), l)
    ensures Trying(PcOf(s, w), l)
  {
    CallingHolds(s, t, c);
    LockedOut(s, t, w, l);
  }

  lemma WakingAwake(s: State, a: Action, t: Thread, w: Thread, c: Cond, l: Lock)
    requires Reachable(s) && WellFormed(s) && Enabled(s, a) && Waking(s, t, w, c, l) && Trying(PcOf(s, w), l)
    ensures var s' := Apply(s, a);
            && c in s'.condWaiters && UpsBy(s, a, WaiterSema(w)) + Due(s', t, w, c) == Due(s, t, w, c)
            && (Calling(PcOf(s', t), c) ==> Waking(s', t, w, c, l))
  {
    var s' := Apply(s, a);
    ReachableStep(s, a);
    StillOut(s, a, t, w, c, l);
    AwakeDue(s, t, w, c, l);
    AwakeDue(s', t, w, c, l);
  }

  /** Whoever tries for the lock of a condition that t is signalling keeps trying. */
  lemma StillOut(s: State, a: Action, t: Thread, w: Thread, c: Cond, l: Lock)
    requires Reachable(s) && WellFormed(s) && Enabled(s, a) && Trying(PcOf(s, w), l)
    requires Calling(PcOf(s, t), c) && c in s.lockOf && s.lockOf[c] == l
    ensures var s' := Apply(s, a);
            && UpsBy(s, a, WaiterSema(w)) == 0 && Trying(PcOf(s', w), l)
            && c in s'.condWaiters && c in s'.lockOf && s'.lockOf[c] == l
  {
    var s' := Apply(s, a);
    ReachableStep(s, a);
    ReacquireTurn(s, a, w, l);
    OutOfReach(s, a, t, w, c);
    if Calling(PcOf(s', t), c) {
      CallingHolds(s', t, c);
      if Reacquiring(PcOf(s', w), l) { LockedOut(s', t, w, l); }
    }
  }

  lemma OutOfReach(s: State, a: Action, t: Thread, w: Thread, c: Cond)
    requires Reachable(s) && WellFormed(s) && Enabled(s, a) && Calling(PcOf(s, t), c) && c in s.lockOf && w != t
    ensures var s' := Apply(s, a);
            && s'.lockOf == s.lockOf && c in s'.condWaiters
            && (Calling(PcOf(s', t), c) || PcOf(s', w) == PcOf(s, w))
  {
    ReachableToken(s, w);
    CallingStep(s, a, t, c);
    HolderEffect(s, a);
    QueueEffect(s, a, c);
    StepOthers(s, a);
  }

  // ----- runs

  lemma WakingTurn(s: State, a: Action, t: Thread, w: Thread, c: Cond, l: Lock)
    requires Reachable(s) && WellFormed(s) && Enabled(s, a) && Waking(s, t, w, c, l)
    ensures var s' := Apply(s, a);
            && c in s'.condWaiters && UpsBy(s, a, WaiterSema(w)) + Due(s', t, w, c) == Due(s, t, w, c)
            && (PcOf(s', t) != User ==> Waking(s', t, w, c, l))
  {
    ReachableToken(s, t);
    CallingStep(s, a, t, c);
    if Trying(PcOf(s, w), l) { WakingAwake(s, a, t, w, c, l); } else { WakingSleeper(s, a, t, w, c, l); }
  }

  /** From any point of the call to its return: w's semaphore was upped once if that was due and w is not left on the
      list, and not at all otherwise. */
  lemma {:induction false} WakingRun(s: State, acts: seq<Action>, t: Thread, w: Thread, c: Cond, l: Lock)
    requires Reachable(s) && Waking(s, t, w, c, l)
    requires Executes(s, acts) && InsideUntil(s, acts, t) && PcOf(After(s, acts), t) == User
    ensures var s' := After(s, acts);
            c in s'.condWaiters && UpsIn(s, acts, WaiterSema(w)) + Queued(s', w, c) == Due(s, t, w, c)
    decreases |acts|
  {
    WakingTurn(s, acts[0], t, w, c, l);
    ReachableStep(s, acts[0]);
    if |acts| > 1 { WakingRun(Apply(s, acts[0]), acts[1..], t, w, c, l); }
  }

  lemma {:induction false} TakenRun(s: State, acts: seq<Action>, t: Thread, w: Thread, c: Cond, l: Lock)
    requires Reachable(s) && Waking(s, t, w, c, l)
    requires Executes(s, acts) && InsideUntil(s, acts, t) && PcOf(After(s, acts), t) == User
    ensures c in After(s, acts).condWaiters
    ensures TakesIn(s, acts, c, w) + Queued(After(s, acts), w, c) == Queued(s, w, c)
    decreases |acts|
  {
    QueuedTurn(s, acts[0], w, c);
    WakingTurn(s, acts[0], t, w, c, l);
    if |acts| > 1 { TakenRun(Apply(s, acts[0]), acts[1..], t, w, c, l); }
  }

  /** In cond_broadcast, the list is empty when the call returns; in cond_signal, it is what the signal left. */
  lemma ListTurn(s: State, a: Action, t: Thread, c: Cond)
    requires Reachable(s) && WellFormed(s) && Enabled(s, a) && Calling(PcOf(s, t), c) && c in s.lockOf
    ensures var s' := Apply(s, a);
            && s'.lockOf == s.lockOf && c in s'.condWaiters
            && (PcOf(s', t) == User ||
                (Calling(PcOf(s', t), c) && OneSignal(PcOf(s', t), c) == OneSignal(PcOf(s, t), c)))
            && (OneSignal(PcOf(s, t), c) ==> s'.condWaiters[c] == s.condWaiters[c])
            && (!OneSignal(PcOf(s, t), c) && PcOf(s', t) == User ==> s'.condWaiters[c] == [])
  {
    ReachableToken(s, t);
    CallingStep(s, a, t, c);
    HolderEffect(s, a);
    if t == s.current {
      QueueEffect(s, a, c);
    } else {
      ReachableHold(s);
      CallingHolds(s, t, c);
      CondListProtected(s, a, t, c);
    }
  }

  lemma {:induction false} ListRun(s: State, acts: seq<Action>, t: Thread, c: Cond)
    requires Reachable(s) && Calling(PcOf(s, t), c) && c in s.lockOf && c in s.condWaiters
    requires Executes(s, acts) && InsideUntil(s, acts, t) && PcOf(After(s, acts), t) == User
    ensures c in After(s, acts).condWaiters
    ensures After(s, acts).condWaiters[c] == if OneSignal(PcOf(s, t), c) then s.condWaiters[c] else []
    decreases |acts|
  {
    ListTurn(s, acts[0], t, c);
    ReachableStep(s, acts[0]);
    if |acts| > 1 { ListRun(Apply(s, acts[0]), acts[1..], t, c); }
  }

  // ----- the theorems

  lemma BroadcastStarts(s: State, c: Cond, w: Thread)
    requires WellFormed(s) && Enabled(s, Broadcast(c)) && w in s.condWaiters[c] && TokenAt(s, w)
    ensures var s' := Apply(s, Broadcast(c)); Waking(s', s.current, w, c, s.lockOf[c]) && Due(s', s.current, w, c) == 1
    ensures PcOf(Apply(s, Broadcast(c)), s.current) == Broadcasting(c)
  {
  }

  /** cond_broadcast, in every interleaving: when the caller is back in its own code nobody is left on the condition's
      list, and each thread that was on it at the call has been taken off exactly once and upped exactly once. */
  lemma BroadcastWakesAll(s: State, c: Cond, acts: seq<Action>, w: Thread)
    requires Reachable(s) && WellFormed(s) && Enabled(s, Broadcast(c))
    requires var s' := Apply(s, Broadcast(c));
             Executes(s', acts) && InsideUntil(s', acts, s.current) && PcOf(After(s', acts), s.current) == User
    ensures var s' := Apply(s, Broadcast(c));
            && c in After(s', acts).condWaiters && After(s', acts).condWaiters[c] == []
            && (w in s.condWaiters[c] ==> TakesIn(s', acts, c, w) == 1 && UpsIn(s', acts, WaiterSema(w)) == 1)
  {
    var s', t := Apply(s, Broadcast(c)), s.current;
    ReachableStep(s, Broadcast(c));
    ListRun(s', acts, t, c);
    if w in s.condWaiters[c] {
      assert TokenAt(s, w) by { ReachableToken(s, w); }
      BroadcastStarts(s, c, w);
      WakingRun(s', acts, t, w, c, s.lockOf[c]);
      TakenRun(s', acts, t, w, c, s.lockOf[c]);
    }
  }

  lemma SignalStarts(s: State, c: Cond, w: Thread)
    requires WellFormed(s) && Enabled(s, Signal(c)) && w in s.condWaiters[c] && TokenAt(s, w)
    requires Distinct(s.condWaiters[c])
    ensures var s' := Apply(s, Signal(c));
            && Waking(s', s.current, w, c, s.lockOf[c]) && Due(s', s.current, w, c) == 1
            && OneSignal(PcOf(s', s.current), c) && s'.condWaiters[c] == s.condWaiters[c][1..]
  {
  }

  /** cond_signal, in every interleaving: when the caller is back in its own code the list is one shorter at its front,
      the thread that was there has been upped exactly once, and no other of the list's threads has been upped. */
  lemma SignalWakesOne(s: State, c: Cond, acts: seq<Action>, w: Thread)
    requires Reachable(s) && WellFormed(s) && Enabled(s, Signal(c)) && w in s.condWaiters[c]
    requires var s' := Apply(s, Signal(c));
             Executes(s', acts) && InsideUntil(s', acts, s.current) && PcOf(After(s', acts), s.current) == User
    ensures var s' := Apply(s, Signal(c));
            && c in After(s', acts).condWaiters && After(s', acts).condWaiters[c] == s.condWaiters[c][1..]
            && UpsIn(s', acts, WaiterSema(w)) == Count(w == s.condWaiters[c][0])
  {
    var s', t := Apply(s, Signal(c)), s.current;
    ReachableStep(s, Signal(c));
    assert TokenAt(s, w) && Distinct(s.condWaiters[c]) by {
      ReachableToken(s, w);
      ReachableHold(s);
    }
    SignalStarts(s, c, w);
    ListRun(s', acts, t, c);
    WakingRun(s', acts, t, w, c, s.lockOf[c]);
  }
}
