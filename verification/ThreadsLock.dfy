/** Every step keeps mutual exclusion and the ownership rules of condition variables. */
module ThreadsLock {
  import opened Wrappers
  import opened Ordering
  import opened Threads
  import opened ThreadsInv

  lemma OnlyMember(S: set<Thread>, t: Thread)
    requires |S| <= 1 && t in S
    ensures S == {t}
  {
    assert S == {t} + (S - {t});
  }

  // ----- what a step leaves alone

  /** Only the current thread moves; others start and end in their own code. */
  ghost predicate OthersStay(s: State, s': State) {
    forall u :: u != s.current ==> PcOf(s', u) == PcOf(s, u)
  }

  lemma ScheduleStays(s: State)
    requires Suspended(s)
    ensures forall u :: PcOf(Schedule(s), u) == PcOf(s, u)
    ensures Schedule(s).holder == s.holder && Schedule(s).sema == s.sema && Schedule(s).condWaiters == s.condWaiters
  {
  }

  lemma DownStays(s: State, x: SemaId, k: DownThen)
    requires SchedInv(s) && x in s.sema && s.current != s.idle && (k.ToReacquire? ==> k.c in s.lockOf)
    ensures var s' := SemaDown(s, x, k); var blocks := s.sema[x].value == 0;
            && OthersStay(s, s') && s'.holder == s.holder && s'.condWaiters == s.condWaiters && s'.lockOf == s.lockOf
            && PcOf(s', s.current) == (if blocks then Waiting(x, k) else AfterDown(s, k))
  {
    if s.sema[x].value == 0 {
      var w := s.sema[x].waiters + [s.current];
      ScheduleStays(s.(sema := s.sema[x := s.sema[x].(waiters := w)],
                       status := s.status[s.current := Blocked], pc := s.pc[s.current := Waiting(x, k)]));
    }
  }

  lemma DownValue(s: State, x: SemaId, k: DownThen, y: SemaId)
    requires x in s.sema && y in s.sema && s.current in s.status && (k.ToReacquire? ==> k.c in s.lockOf)
    ensures y in SemaDown(s, x, k).sema
    ensures SemaDown(s, x, k).sema[y].value == s.sema[y].value - if y == x && s.sema[x].value > 0 then 1 else 0
  {
  }

  lemma UpStays(s: State, x: SemaId)
    requires x in s.sema
    ensures var s' := SemaUp(s, x);
            && s'.pc == s.pc && s'.holder == s.holder && s'.condWaiters == s.condWaiters && s'.sema.Keys == s.sema.Keys
            && s'.current == s.current && s'.lockOf == s.lockOf
            && (forall y :: y in s.sema ==> s'.sema[y].value == s.sema[y].value + if y == x then 1 else 0)
  {
    var v := s.sema[x].value + 1;
    if s.sema[x].waiters == [] {
      assert SemaUp(s, x).sema == s.sema[x := Sema(v, [])];
    } else {
      assert SemaUp(s, x).sema == s.sema[x := Sema(v, s.sema[x].waiters[1..])];
    }
  }

  /** Locks, conditions and all program counters rest. */
  ghost predicate AllStay(s: State, s': State) {
    && (forall u :: PcOf(s', u) == PcOf(s, u)) && s'.holder == s.holder && s'.condWaiters == s.condWaiters
    && s'.lockOf == s.lockOf && s'.sema.Keys == s.sema.Keys
    && (forall y :: y in s.sema && !y.PlainSema? ==> s'.sema[y].value == s.sema[y].value)
  }

  predicate IsSwitch(a: Action) {
    a.Yield? || a.IdleBlock? || a.Exit? || a.Create?
  }

  predicate IsPlain(a: Action) {
    a.TryDown? || a.InterruptTryDown? || a.Up? || a.InterruptUp?
  }

  lemma SwitchStays(s: State, a: Action)
    requires WellFormed(s) && SchedInv(s) && Enabled(s, a) && IsSwitch(a)
    ensures AllStay(s, Apply(s, a))
  {
  }

  lemma PlainStays(s: State, a: Action)
    requires WellFormed(s) && Enabled(s, a) && IsPlain(a)
    ensures AllStay(s, Apply(s, a))
  {
  }

  // ----- one lock

  lemma OwnersAre(s: State, l: Lock)
    requires l in s.holder
    ensures forall u :: u in Owners(s, l) <==> InRegion(PcOf(s, u), l) || s.holder[l] == Some(u)
  {
  }

  /** Nothing about l moved. */
  lemma LockUnmoved(s: State, s': State, l: Lock)
    requires l in s.holder && LockAt(s, l)
    requires l in s'.holder && s'.holder[l] == s.holder[l]
    requires LockSema(l) in s'.sema && s'.sema[LockSema(l)].value == s.sema[LockSema(l)].value
    requires forall u :: InRegion(PcOf(s', u), l) <==> InRegion(PcOf(s, u), l)
    ensures LockAt(s', l)
  {
    OwnersAre(s, l);
    OwnersAre(s', l);
    assert Owners(s', l) == Owners(s, l);
  }

  /** The current thread enters the region by taking the unit. */
  lemma LockTaken(s: State, s': State, l: Lock)
    requires l in s.holder && LockAt(s, l) && s.sema[LockSema(l)].value > 0
    requires l in s'.holder && s'.holder[l] == s.holder[l] && OthersStay(s, s')
    requires LockSema(l) in s'.sema && s'.sema[LockSema(l)].value == s.sema[LockSema(l)].value - 1
    requires InRegion(PcOf(s', s.current), l)
    ensures LockAt(s', l)
  {
    OwnersAre(s, l);
    OwnersAre(s', l);
    assert Owners(s, l) == {};
    assert Owners(s', l) == {s.current};
  }

  /** The current thread stays owner: it writes or clears lock->holder. */
  lemma LockKept(s: State, s': State, l: Lock)
    requires l in s.holder && LockAt(s, l) && s.current in Owners(s, l) && OthersStay(s, s')
    requires l in s'.holder && LockSema(l) in s'.sema && s'.sema[LockSema(l)].value == s.sema[LockSema(l)].value
    requires s'.holder[l] == if InRegion(PcOf(s', s.current), l) then None else Some(s.current)
    ensures LockAt(s', l)
  {
    OwnersAre(s, l);
    OwnersAre(s', l);
    OnlyMember(Owners(s, l), s.current);
    assert Owners(s', l) == {s.current};
  }

  /** The current thread leaves the region by giving the unit back. */
  lemma LockGiven(s: State, s': State, l: Lock)
    requires l in s.holder && LockAt(s, l) && InRegion(PcOf(s, s.current), l) && OthersStay(s, s')
    requires l in s'.holder && s'.holder[l] == s.holder[l] && !InRegion(PcOf(s', s.current), l)
    requires LockSema(l) in s'.sema && s'.sema[LockSema(l)].value == s.sema[LockSema(l)].value + 1
    ensures LockAt(s', l)
  {
    OwnersAre(s, l);
    OwnersAre(s', l);
    OnlyMember(Owners(s, l), s.current);
    assert Owners(s', l) == {};
  }

  lemma DownLock(s: State, x: SemaId, k: DownThen, l: Lock)
    requires SchedInv(s) && x in s.sema && DownOk(s, s.current, x, k)
    requires s.current != s.idle && l in s.holder && LockAt(s, l) && !InRegion(PcOf(s, s.current), l)
    ensures LockAt(SemaDown(s, x, k), l)
  {
    DownStays(s, x, k);
    if x == LockSema(l) && s.sema[x].value > 0 {
      LockTaken(s, SemaDown(s, x, k), l);
    } else {
      LockUnmoved(s, SemaDown(s, x, k), l);
    }
  }

  lemma UpLock(s: State, x: SemaId, k: UpThen, l: Lock)
    requires x in s.sema && s.current in s.pc && PcOf(s, s.current) == CallUp(x, k)
    requires l in s.holder && LockAt(s, l)
    ensures var u := SemaUp(s, x); LockAt(u.(pc := u.pc[s.current := AfterUp(s.current, k)]), l)
  {
    UpStays(s, x);
    var u := SemaUp(s, x);
    var s' := u.(pc := u.pc[s.current := AfterUp(s.current, k)]);
    if x == LockSema(l) { LockGiven(s, s', l); } else { LockUnmoved(s, s', l); }
  }

  /** The current thread moves between places outside the region of l. */
  lemma SetPcLock(s: State, s': State, l: Lock)
    requires l in s.holder && LockAt(s, l) && OthersStay(s, s') && l in s'.holder && s'.holder[l] == s.holder[l]
    requires LockSema(l) in s'.sema && s'.sema[LockSema(l)].value == s.sema[LockSema(l)].value
    requires InRegion(PcOf(s, s.current), l) <==> InRegion(PcOf(s', s.current), l)
    ensures LockAt(s', l)
  {
    LockUnmoved(s, s', l);
  }

  /** The current thread writes or clears the holder of l0, which it owns. */
  lemma HolderLock(s: State, s': State, l0: Lock, l: Lock)
    requires OthersStay(s, s') && l0 in s.holder && l in s.holder
    requires s'.holder.Keys == s.holder.Keys && s'.sema == s.sema
    requires LockAt(s, l) && s.current in Owners(s, l0)
    requires s'.holder[l0] == if InRegion(PcOf(s', s.current), l0) then None else Some(s.current)
    requires l != l0 ==>
               s'.holder[l] == s.holder[l] && (InRegion(PcOf(s', s.current), l) <==> InRegion(PcOf(s, s.current), l))
    ensures LockAt(s', l)
  {
    if l == l0 { LockKept(s, s', l); } else { LockUnmoved(s, s', l); }
  }

  lemma TryAcquireLock(s: State, l0: Lock, l: Lock)
    requires WellFormed(s) && Enabled(s, TryAcquire(l0)) && l in s.holder && LockAt(s, l)
    ensures LockAt(Apply(s, TryAcquire(l0)), l)
  {
    var s' := Apply(s, TryAcquire(l0));
    if s.sema[LockSema(l0)].value > 0 {
      if l == l0 { LockTaken(s, s', l); } else { LockUnmoved(s, s', l); }
    }
  }

  lemma UserCallLock(s: State, a: Action, l: Lock)
    requires WellFormed(s) && Enabled(s, a) && l in s.holder && LockAt(s, l)
    requires a.Release? || a.Wait? || a.Signal? || a.Broadcast?
    ensures l in Apply(s, a).holder && LockAt(Apply(s, a), l)
  {
    if a.Release? { HolderLock(s, Apply(s, a), a.l, l); } else { SetPcLock(s, Apply(s, a), l); }
  }

  lemma LockStepAt(s: State, a: Action, l: Lock)
    requires WellFormed(s) && SchedInv(s) && HoldsNeeded(s, s.current) && Enabled(s, a) && l in s.holder && LockAt(s, l)
    ensures l in Apply(s, a).holder && LockAt(Apply(s, a), l)
  {
    if IsSwitch(a) || IsPlain(a) || a.Down? || a.Acquire? {
      LockMoveAt(s, a, l);
    } else if a.TryAcquire? {
      TryAcquireLock(s, a.l, l);
    } else if a.Continue? {
      ResumeLockAt(s, l);
    } else {
      UserCallLock(s, a, l);
    }
  }

  lemma LockMoveAt(s: State, a: Action, l: Lock)
    requires WellFormed(s) && SchedInv(s) && Enabled(s, a) && l in s.holder && LockAt(s, l)
    requires IsSwitch(a) || IsPlain(a) || a.Down? || a.Acquire?
    ensures l in Apply(s, a).holder && LockAt(Apply(s, a), l)
  {
    if IsSwitch(a) {
      SwitchStays(s, a);
      LockUnmoved(s, Apply(s, a), l);
    } else if IsPlain(a) {
      PlainStays(s, a);
      LockUnmoved(s, Apply(s, a), l);
    } else if a.Down? {
      DownLock(s, a.x, ToUser, l);
    } else {
      DownLock(s, LockSema(a.l), ToHolder(a.l), l);
    }
  }

  lemma WriteHolderLock(s: State, l: Lock)
    requires WellFormed(s) && HoldsNeeded(s, s.current) && l in s.holder && LockAt(s, l)
    requires s.pc[s.current].SetHolder? || s.pc[s.current].CondRelease? || s.pc[s.current].Broadcasting?
    ensures l in Resume(s).holder && LockAt(Resume(s), l)
  {
    assert PcOk(s, s.current, PcOf(s, s.current));
    match s.pc[s.current]
    case SetHolder(l0) => HolderLock(s, Resume(s), l0, l);
    case CondRelease(c) =>
      HolderLock(s, Resume(s), s.lockOf[c], l);
    case Broadcasting(c) => SetPcLock(s, Resume(s), l);
  }

  lemma ResumeLockAt(s: State, l: Lock)
    requires WellFormed(s) && SchedInv(s) && HoldsNeeded(s, s.current) && s.pc[s.current] != User
    requires l in s.holder && LockAt(s, l)
    ensures l in Resume(s).holder && LockAt(Resume(s), l)
  {
    var pc := s.pc[s.current];
    if pc.CallDown? || pc.Waiting? {
      ResumeDownLock(s, l);
    } else if pc.CallUp? {
      assert PcOk(s, s.current, PcOf(s, s.current));
      UpLock(s, pc.ux, pc.uk, l);
    } else {
      WriteHolderLock(s, l);
    }
  }

  lemma ResumeDownLock(s: State, l: Lock)
    requires WellFormed(s) && SchedInv(s) && l in s.holder && LockAt(s, l)
    requires s.pc[s.current].CallDown? || s.pc[s.current].Waiting?
    ensures l in Resume(s).holder && LockAt(Resume(s), l)
  {
    assert PcOk(s, s.current, PcOf(s, s.current));
    var pc := s.pc[s.current];
    if pc.CallDown? {
      DownLock(s, pc.dx, pc.dk, l);
    } else {
      DownLock(s, pc.wx, pc.wk, l);
    }
  }

  // ----- who may touch a condition

  /** lock->holder after a step. */
  ghost function NewHolder(s: State, a: Action): map<Lock, Option<Thread>>
    requires WellFormed(s) && Enabled(s, a)
  {
    var pc := s.pc[s.current];
    if a.Release? then s.holder[a.l := None]
    else if a.Continue? && pc.SetHolder? then s.holder[pc.l := Some(s.current)]
    else if a.Continue? && pc.CondRelease? && pc.rc in s.lockOf then s.holder[s.lockOf[pc.rc] := None]
    else s.holder
  }

  lemma HolderEffect(s: State, a: Action)
    requires WellFormed(s) && SchedInv(s) && Enabled(s, a)
    ensures Apply(s, a).holder == NewHolder(s, a) && Apply(s, a).lockOf == s.lockOf
  {
    assert PcOk(s, s.current, s.pc[s.current]);
    if IsSwitch(a) { SwitchStays(s, a); }
    else if IsPlain(a) { PlainStays(s, a); }
    else if a.Down? { DownStays(s, a.x, ToUser); }
    else if a.Acquire? { DownStays(s, LockSema(a.l), ToHolder(a.l)); }
    else if a.Continue? { HolderResume(s); }
  }

  lemma HolderResume(s: State)
    requires WellFormed(s) && SchedInv(s) && s.pc[s.current] != User
    ensures Resume(s).holder == NewHolder(s, Continue) && Resume(s).lockOf == s.lockOf
  {
    assert PcOk(s, s.current, s.pc[s.current]);
    match s.pc[s.current]
    case CallDown(x, k) => DownStays(s, x, k);
    case Waiting(x, k) => DownStays(s, x, k);
    case CallUp(x, k) => UpStays(s, x);
    case SetHolder(l) =>
    case CondRelease(c) =>
    case Broadcasting(c) =>
  }

  /** A step of the current thread never takes a lock away from another holder. */
  lemma HoldsStable(s: State, a: Action, u: Thread, l: Lock)
    requires WellFormed(s) && HoldsNeeded(s, s.current) && Enabled(s, a)
    requires u != s.current && Holds(s, u, l) && LockAt(s, l)
    ensures l in NewHolder(s, a) && NewHolder(s, a)[l] == Some(u)
  {
    var pc := PcOf(s, s.current);
    assert pc.SetHolder? ==> InRegion(pc, pc.l);
  }

  lemma HoldStepOther(s: State, a: Action, u: Thread)
    requires WellFormed(s) && SchedInv(s) && HoldsNeeded(s, s.current) && HoldsNeeded(s, u) && LockInv(s)
    requires Enabled(s, a) && u != s.current && PcOf(Apply(s, a), u) == PcOf(s, u)
    ensures HoldsNeeded(Apply(s, a), u)
  {
    HolderEffect(s, a);
    var n := NeedsLock(PcOf(s, u));
    if n.Some? && n.value in s.lockOf {
      HoldsStable(s, a, u, s.lockOf[n.value]);
    }
  }

  /** The current thread moves to a place that needs a lock only while it holds that lock. */
  lemma HoldStepSelf(s: State, a: Action)
    requires WellFormed(s) && SchedInv(s) && HoldsNeeded(s, s.current) && Enabled(s, a)
    ensures HoldsNeeded(Apply(s, a), s.current)
  {
    if a.Continue? {
      HoldResumeSelf(s);
    } else if IsSwitch(a) || IsPlain(a) || a.Down? || a.Acquire? {
      HoldMoveSelf(s, a);
    }
  }

  lemma HoldMoveSelf(s: State, a: Action)
    requires WellFormed(s) && SchedInv(s) && Enabled(s, a) && HoldsNeeded(s, s.current)
    requires IsSwitch(a) || IsPlain(a) || a.Down? || a.Acquire?
    ensures HoldsNeeded(Apply(s, a), s.current)
  {
    if IsSwitch(a) { SwitchStays(s, a); }
    else if IsPlain(a) { PlainStays(s, a); }
    else if a.Down? { HoldDownSelf(s, a.x, ToUser); }
    else { HoldDownSelf(s, LockSema(a.l), ToHolder(a.l)); }
  }

  lemma HoldDownSelf(s: State, x: SemaId, k: DownThen)
    requires SchedInv(s) && x in s.sema && s.current != s.idle && !k.ToReacquire?
    ensures HoldsNeeded(SemaDown(s, x, k), s.current)
  {
    DownStays(s, x, k);
  }

  lemma HoldResumeSelf(s: State)
    requires WellFormed(s) && SchedInv(s) && HoldsNeeded(s, s.current) && s.pc[s.current] != User
    ensures HoldsNeeded(Resume(s), s.current)
  {
    HolderEffect(s, Continue);
    assert PcOk(s, s.current, PcOf(s, s.current));
    ResumeSelf(s);
  }

  /** Where Continue takes the current thread. */
  ghost function NextPc(s: State): Pc
    requires WellFormed(s)
  {
    var t := s.current;
    match s.pc[t]
    case User => User
    case CallDown(x, k) => if x in s.sema && s.sema[x].value == 0 then Waiting(x, k) else AfterDown(s, k)
    case Waiting(x, k) => if x in s.sema && s.sema[x].value == 0 then Waiting(x, k) else AfterDown(s, k)
    case CallUp(x, k) => AfterUp(t, k)
    case SetHolder(l) => User
    case CondRelease(c) => CallUp(LockSema(s.lockOf[c]), ToSleep(c))
    case Broadcasting(c) =>
      if s.condWaiters[c] == [] then User else CallUp(WaiterSema(s.condWaiters[c][0]), ToBroadcast(c))
  }

  lemma ResumeSelf(s: State)
    requires WellFormed(s) && SchedInv(s) && s.pc[s.current] != User
    ensures PcOf(Resume(s), s.current) == NextPc(s) && OthersStay(s, Resume(s))
  {
    assert PcOk(s, s.current, s.pc[s.current]);
    match s.pc[s.current]
    case CallDown(x, k) => DownStays(s, x, k);
    case Waiting(x, k) => DownStays(s, x, k);
    case CallUp(x, k) => UpStays(s, x);
    case SetHolder(l) =>
    case CondRelease(c) =>
    case Broadcasting(c) =>
  }
}
