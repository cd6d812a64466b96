/** Every step keeps the token of every thread asleep in cond_wait. */
module ThreadsCond {
  import opened Wrappers
  import opened Ordering
  import opened Threads
  import opened ThreadsInv
  import opened ThreadsLock

  /** Nothing about t's token moved. */
  lemma TokenUnmoved(s: State, s': State, t: Thread)
    requires TokenAt(s, t) && SleepsOn(s', t) == SleepsOn(s, t)
    requires forall u :: SignalsTo(PcOf(s', u), t) <==> SignalsTo(PcOf(s, u), t)
    requires s'.condWaiters.Keys == s.condWaiters.Keys
    requires forall c :: c in s.condWaiters ==> (t in s'.condWaiters[c] <==> t in s.condWaiters[c])
    requires SleepsOn(s, t).Some? ==>
               WaiterSema(t) in s'.sema && s'.sema[WaiterSema(t)].value == s.sema[WaiterSema(t)].value
    ensures TokenAt(s', t)
  {
    assert Signallers(s', t) == Signallers(s, t);
  }

  lemma StayToken(s: State, s': State, t: Thread)
    requires TokenAt(s, t) && AllStay(s, s')
    ensures TokenAt(s', t)
  {
    TokenUnmoved(s, s', t);
  }

  /** The current thread moves, without signalling anyone or changing what it sleeps on. */
  lemma SetPcToken(s: State, s': State, t: Thread)
    requires TokenAt(s, t) && OthersStay(s, s') && s'.condWaiters == s.condWaiters
    requires CondOf(PcOf(s', s.current)) == CondOf(PcOf(s, s.current))
    requires forall u :: !SignalsTo(PcOf(s, s.current), u) && !SignalsTo(PcOf(s', s.current), u)
    requires WaiterSema(t) in s.sema ==>
               WaiterSema(t) in s'.sema && s'.sema[WaiterSema(t)].value == s.sema[WaiterSema(t)].value
    ensures TokenAt(s', t)
  {
    TokenUnmoved(s, s', t);
  }

  lemma EnqueueToken(s: State, c: Cond, t: Thread)
    requires s.current in s.pc && PcOf(s, s.current) == User && c in s.condWaiters && TokenAt(s, t)
    ensures TokenAt(CondEnqueue(s, c), t)
  {
    var s' := CondEnqueue(s, c);
    if t == s.current {
      assert Signallers(s', t) == {};
    } else {
      TokenUnmoved(s, s', t);
    }
  }

  /** cond_signal: the oldest waiter trades its place in the queue for a signaller. */
  lemma PopToken(s: State, c: Cond, k: UpThen, t: Thread)
    requires s.current in s.pc && c in s.condWaiters && s.condWaiters[c] != [] && Distinct(s.condWaiters[c])
    requires CondOf(PcOf(s, s.current)) == None && !k.ToSleep?
    requires forall u :: !SignalsTo(PcOf(s, s.current), u)
    requires TokenAt(s, t)
    ensures TokenAt(PopWaiter(s, c, k), t)
  {
    var s' := PopWaiter(s, c, k);
    var w := s.condWaiters[c];
    assert forall u :: u in w <==> u == w[0] || u in w[1..];
    if t == w[0] {
      assert Signallers(s', t) == Signallers(s, t) + {s.current};
    } else {
      TokenUnmoved(s, s', t);
    }
  }

  /** The signaller's sema_up turns into a unit in the waiter's semaphore. */
  lemma UpToken(s: State, x: SemaId, k: UpThen, t: Thread)
    requires x in s.sema && s.current in s.pc && PcOf(s, s.current) == CallUp(x, k) && TokenAt(s, t)
    requires k.ToSleep? ==> !x.WaiterSema?
    ensures var u := SemaUp(s, x); TokenAt(u.(pc := u.pc[s.current := AfterUp(s.current, k)]), t)
  {
    UpStays(s, x);
    var u := SemaUp(s, x);
    var s' := u.(pc := u.pc[s.current := AfterUp(s.current, k)]);
    if x == WaiterSema(t) {
      assert s.current in Signallers(s, t);
      assert Signallers(s', t) == Signallers(s, t) - {s.current};
    } else {
      TokenUnmoved(s, s', t);
    }
  }

  /** The sleeper spends its unit and leaves. */
  lemma DownToken(s: State, x: SemaId, k: DownThen, t: Thread)
    requires SchedInv(s) && x in s.sema && DownOk(s, s.current, x, k) && s.current != s.idle && TokenAt(s, t)
    requires CondOf(PcOf(s, s.current)) == if k.ToReacquire? then Some(k.c) else None
    requires forall u :: !SignalsTo(PcOf(s, s.current), u)
    ensures TokenAt(SemaDown(s, x, k), t)
  {
    DownStays(s, x, k);
    var s' := SemaDown(s, x, k);
    if t != s.current || s.sema[x].value == 0 || !k.ToReacquire? {
      TokenUnmoved(s, s', t);
    } else {
      TokenSpent(s, s', k.c);
    }
  }

  /** The current thread's semaphore lets it go: the unit it takes is its token. */
  lemma TokenSpent(s: State, s': State, c: Cond)
    requires TokenAt(s, s.current) && SleepsOn(s, s.current) == Some(c) && SleepsOn(s', s.current) == None
    requires WaiterSema(s.current) in s.sema && s.sema[WaiterSema(s.current)].value > 0
    requires forall u :: SignalsTo(PcOf(s', u), s.current) <==> SignalsTo(PcOf(s, u), s.current)
    requires s'.condWaiters == s.condWaiters
    ensures TokenAt(s', s.current)
  {
    assert Signallers(s', s.current) == Signallers(s, s.current);
    assert |Signallers(s, s.current)| == 0;
  }

  lemma CallToken(s: State, a: Action, t: Thread)
    requires WellFormed(s) && Enabled(s, a) && TokenAt(s, t) && (a.Signal? ==> Distinct(s.condWaiters[a.c]))
    requires a.TryAcquire? || a.Release? || a.Wait? || a.Signal? || a.Broadcast?
    ensures TokenAt(Apply(s, a), t)
  {
    if a.Wait? {
      EnqueueToken(s, a.c, t);
    } else if a.Signal? {
      if s.condWaiters[a.c] != [] { PopToken(s, a.c, Signalled(a.c), t); }
    } else {
      SetPcToken(s, Apply(s, a), t);
    }
  }

  lemma ResumeToken(s: State, t: Thread)
    requires WellFormed(s) && SchedInv(s) && CondInv(s) && s.pc[s.current] != User
    ensures TokenAt(Resume(s), t)
  {
    assert PcOk(s, s.current, PcOf(s, s.current));
    match s.pc[s.current]
    case CallDown(x, k) => DownToken(s, x, k, t);
    case Waiting(x, k) => DownToken(s, x, k, t);
    case CallUp(x, k) => UpToken(s, x, k, t);
    case SetHolder(l) => SetPcToken(s, Resume(s), t);
    case CondRelease(c) => SetPcToken(s, Resume(s), t);
    case Broadcasting(c) =>
      if s.condWaiters[c] == [] { SetPcToken(s, Resume(s), t); } else { PopToken(s, c, ToBroadcast(c), t); }
  }

  lemma TokenStep(s: State, a: Action, t: Thread)
    requires WellFormed(s) && SchedInv(s) && CondInv(s) && Enabled(s, a)
    ensures TokenAt(Apply(s, a), t)
  {
    if IsSwitch(a) {
      SwitchStays(s, a);
      StayToken(s, Apply(s, a), t);
    } else if IsPlain(a) {
      PlainStays(s, a);
      StayToken(s, Apply(s, a), t);
    } else if a.Down? {
      DownToken(s, a.x, ToUser, t);
    } else if a.Acquire? {
      DownToken(s, LockSema(a.l), ToHolder(a.l), t);
    } else if a.Continue? {
      ResumeToken(s, t);
    } else {
      CallToken(s, a, t);
    }
  }
}
