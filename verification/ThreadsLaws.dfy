/** Laws of single primitives: who is woken, who holds, who is gone. */
module ThreadsLaws {
  import opened Wrappers
  import opened Ordering
  import opened Threads
  import opened ThreadsInv
  import opened ThreadsSched
  import opened ThreadsWait
  import opened ThreadsLock
  import opened ThreadsRun
  import opened ThreadsProperties
  import opened ThreadsCondWait

  // ----- threads come and go

  /** thread_exit: the thread never runs again, is on no list, and its page is free once another thread runs; only the
      initial thread's stays. */
  lemma ExitEnds(s: State)
    requires Reachable(s) && WellFormed(s) && Enabled(s, Exit)
    ensures Gone(s, Apply(s, Exit), s.current)
  {
    assert Leavable(s) by { ReachableToken(s, s.current); }
    ExitLeaves(s);
  }

  ghost predicate Gone(s: State, s': State, t: Thread) {
    && s'.current != t && t !in s'.ready
    && (if t == s.initial then t in s'.status && s'.status[t] == Dying else t !in s'.status && t !in s'.pc)
    && (forall u :: u != t ==> (u in s'.status <==> u in s.status))
  }

  ghost predicate Leavable(s: State) {
    && s.current in s.status && s.current !in s.ready && s.idle in s.status
    && (s.ready != [] ==> s.ready[0] in s.status && s.ready[0] != s.current)
  }

  lemma ExitLeaves(s: State)
    requires Leavable(s) && s.current != s.idle
    ensures Gone(s, ThreadExit(s), s.current)
  {
  }

  /** thread_create: the new thread is ready, last in line, and about to run its own code; nothing else changes. */
  lemma CreateStarts(s: State, t: Thread)
    requires WellFormed(s) && Enabled(s, Create(t))
    ensures var s' := Apply(s, Create(t));
            && t !in s.status && s'.status == s.status[t := Ready] && s'.ready == s.ready + [t]
            && s'.current == s.current && PcOf(s', t) == User && s'.sema == s.sema && s'.holder == s.holder
            && (forall u :: u != t ==> PcOf(s', u) == PcOf(s, u))
  {
  }

  // ----- semaphores wake in order

  lemma UpFirst(s: State, x: SemaId)
    requires x in s.sema
    ensures var s', w := SemaUp(s, x), s.sema[x].waiters;
            && x in s'.sema && s'.sema[x].waiters == (if w == [] then [] else w[1..])
            && s'.ready == (if w == [] then s.ready else s.ready + [w[0]])
            && (w != [] ==> w[0] in s'.status && s'.status[w[0]] == Ready)
  {
  }

  /** Whoever calls sema_up, the thread that waited longest, if there is one, joins the end of the ready list, and only
      that thread. */
  lemma UpWakesFirst(s: State, a: Action, x: SemaId)
    requires WellFormed(s) && Enabled(s, a) && UpsBy(s, a, x) == 1
    ensures var s' := Apply(s, a);
            && x in s.sema && x in s'.sema
            && var w := s.sema[x].waiters;
            && s'.sema[x].waiters == (if w == [] then [] else w[1..])
            && s'.ready == (if w == [] then s.ready else s.ready + [w[0]])
            && (w != [] ==> w[0] in s'.status && s'.status[w[0]] == Ready)
  {
    assert PcOk(s, s.current, PcOf(s, s.current));
    UpFirst(s, x);
  }

  lemma LineDown(s: State, y: SemaId, k: DownThen, x: SemaId)
    requires x in s.sema && y in s.sema && s.current in s.status && (k.ToReacquire? ==> k.c in s.lockOf)
    ensures x in SemaDown(s, y, k).sema && s.sema[x].waiters <= SemaDown(s, y, k).sema[x].waiters
  {
  }

  /** x's line without its first thread, if an up took one. */
  ghost function LineAfterUps(s: State, a: Action, x: SemaId): seq<Thread>
    requires x in s.sema
  {
    if UpsBy(s, a, x) == 1 && s.sema[x].waiters != [] then s.sema[x].waiters[1..] else s.sema[x].waiters
  }

  lemma LineUp(s: State, y: SemaId, x: SemaId)
    requires x in s.sema && y in s.sema
    ensures x in SemaUp(s, y).sema
    ensures SemaUp(s, y).sema[x].waiters
         == if x == y && s.sema[x].waiters != [] then s.sema[x].waiters[1..] else s.sema[x].waiters
  {
  }

  lemma LineResume(s: State, x: SemaId)
    requires WellFormed(s) && s.pc[s.current] != User && x in s.sema
    ensures x in Resume(s).sema && LineAfterUps(s, Continue, x) <= Resume(s).sema[x].waiters
  {
    assert PcOk(s, s.current, PcOf(s, s.current));
    match s.pc[s.current]
    case CallDown(y, k) => LineDown(s, y, k, x);
    case Waiting(y, k) => LineDown(s, y, k, x);
    case CallUp(y, k) => LineUp(s, y, x);
    case SetHolder(l) =>
    case CondRelease(d) =>
    case Broadcasting(d) =>
  }

  lemma LineStep(s: State, a: Action, x: SemaId)
    requires WellFormed(s) && SchedInv(s) && Enabled(s, a) && x in s.sema && !x.WaiterSema?
    ensures x in Apply(s, a).sema && LineAfterUps(s, a, x) <= Apply(s, a).sema[x].waiters
  {
    if a.Continue? { LineResume(s, x); }
    else if a.Up? || a.InterruptUp? { LineUp(s, a.x, x); }
    else { LineCalls(s, a, x); }
  }

  lemma LineCalls(s: State, a: Action, x: SemaId)
    requires WellFormed(s) && SchedInv(s) && Enabled(s, a) && x in s.sema && !x.WaiterSema?
    requires !a.Continue? && !a.Up? && !a.InterruptUp?
    ensures x in Apply(s, a).sema && s.sema[x].waiters <= Apply(s, a).sema[x].waiters
  {
    if a.Down? { LineDown(s, a.x, ToUser, x); }
    else if a.Acquire? { LineDown(s, LockSema(a.l), ToHolder(a.l), x); }
  }

  /** w has k others ahead of it in x's line. */
  ghost predicate InLine(s: State, x: SemaId, k: nat, w: Thread) {
    x in s.sema && k < |s.sema[x].waiters| && s.sema[x].waiters[k] == w
  }

  lemma PlaceStep(s: State, a: Action, x: SemaId, k: nat, w: Thread)
    requires WellFormed(s) && SchedInv(s) && Enabled(s, a) && !x.WaiterSema? && InLine(s, x, k, w)
    requires UpsBy(s, a, x) <= k
    ensures InLine(Apply(s, a), x, k - UpsBy(s, a, x), w)
  {
    LineStep(s, a, x);
  }

  lemma PlaceTurn(s: State, a: Action, x: SemaId, k: nat, w: Thread)
    requires Reachable(s) && WellFormed(s) && Enabled(s, a) && !x.WaiterSema? && InLine(s, x, k, w)
    requires UpsBy(s, a, x) <= k
    ensures InLine(Apply(s, a), x, k - UpsBy(s, a, x), w)
  {
    ReachableToken(s, w);
    PlaceStep(s, a, x, k, w);
  }

  /** Over every run, a thread in a semaphore's line moves up one place per up: with n + ups others ahead of it first,
      it has n ahead of it then. */
  lemma {:induction false} LinePlace(s: State, acts: seq<Action>, x: SemaId, k: nat, n: nat, w: Thread)
    requires Reachable(s) && Executes(s, acts) && !x.WaiterSema? && InLine(s, x, k, w) && k == n + UpsIn(s, acts, x)
    ensures InLine(After(s, acts), x, n, w)
    decreases |acts|
  {
    if acts != [] {
      PlaceTurn(s, acts[0], x, k, w);
      ReachableStep(s, acts[0]);
      LinePlace(Apply(s, acts[0]), acts[1..], x, k - UpsBy(s, acts[0], x), n, w);
    }
  }

  lemma FirstWoken(s: State, a: Action, x: SemaId, w: Thread)
    requires WellFormed(s) && Enabled(s, a) && UpsBy(s, a, x) == 1 && InLine(s, x, 0, w)
    ensures Apply(s, a).ready == s.ready + [w]
  {
    UpWakesFirst(s, a, x);
  }

  /** ... and is the one woken by exactly the (k + 1)th. */
  lemma LineChosen(s: State, acts: seq<Action>, s1: State, a: Action, x: SemaId, k: nat, w: Thread)
    requires Reachable(s) && Executes(s, acts) && !x.WaiterSema? && InLine(s, x, k, w) && UpsIn(s, acts, x) == k
    requires s1 == After(s, acts) && WellFormed(s1) && Enabled(s1, a) && UpsBy(s1, a, x) == 1
    ensures Apply(s1, a).ready == s1.ready + [w]
  {
    LinePlace(s, acts, x, k, 0, w);
    FirstWoken(s1, a, x, w);
  }

  // ----- locks

  /** lock_acquire, in every interleaving: when the caller is back in its own code, it holds the lock. */
  lemma AcquireReturns(s: State, l: Lock, acts: seq<Action>)
    requires Reachable(s) && WellFormed(s) && Enabled(s, Acquire(l))
    requires var s' := Apply(s, Acquire(l));
             Executes(s', acts) && InsideUntil(s', acts, s.current) && PcOf(After(s', acts), s.current) == User
    ensures Holds(After(Apply(s, Acquire(l)), acts), s.current, l)
  {
    ReachableStep(s, Acquire(l));
    assert Reacquiring(PcOf(Apply(s, Acquire(l)), s.current), l) by {
      ReachableToken(s, s.current);
      DownStays(s, LockSema(l), ToHolder(l));
    }
    ReacquireRun(Apply(s, Acquire(l)), acts, s.current, l);
  }

  /** lock_try_acquire, in every interleaving: when the caller is back in its own code, it holds the lock if the lock
      was free at the call, and otherwise it never waited. */
  lemma TryAcquireReturns(s: State, l: Lock, acts: seq<Action>)
    requires Reachable(s) && WellFormed(s) && Enabled(s, TryAcquire(l))
    requires var s' := Apply(s, TryAcquire(l));
             Executes(s', acts) && InsideUntil(s', acts, s.current) && PcOf(After(s', acts), s.current) == User
    ensures if s.sema[LockSema(l)].value > 0 then Holds(After(Apply(s, TryAcquire(l)), acts), s.current, l)
            else Apply(s, TryAcquire(l)) == s && acts == []
  {
    if s.sema[LockSema(l)].value > 0 {
      ReachableStep(s, TryAcquire(l));
      ReacquireRun(Apply(s, TryAcquire(l)), acts, s.current, l);
    }
  }

  // ----- a sleeper in cond_wait has let go of the lock

  /** Past the release in cond_wait, up to the end of the sleep. */
  ghost function LetGo(pc: Pc): Option<Cond> {
    if pc.CondRelease? then None else CondOf(pc)
  }

  ghost predicate Unlocked(s: State, t: Thread) {
    var c := LetGo(PcOf(s, t));
    c.Some? && c.value in s.lockOf ==> !Holds(s, t, s.lockOf[c.value])
  }

  lemma UnlockedStep(s: State, a: Action, t: Thread)
    requires WellFormed(s) && SchedInv(s) && Enabled(s, a) && Unlocked(s, t)
    ensures Unlocked(Apply(s, a), t)
  {
    HolderEffect(s, a);
    if t != s.current {
      StepOthers(s, a);
    } else if PcOf(s, t) != User {
      assert PcOk(s, t, PcOf(s, t));
      SelfStep(s, a);
    } else {
      LeavesUser(s, a);
    }
  }

  lemma LeavesUser(s: State, a: Action)
    requires WellFormed(s) && SchedInv(s) && Enabled(s, a) && PcOf(s, s.current) == User
    ensures LetGo(PcOf(Apply(s, a), s.current)) == None
  {
    if IsSwitch(a) { SwitchStays(s, a); }
    else if IsPlain(a) { PlainStays(s, a); }
    else if a.Down? { DownStays(s, a.x, ToUser); }
    else if a.Acquire? { DownStays(s, LockSema(a.l), ToHolder(a.l)); }
  }

  lemma {:induction false} UnlockedRun(s: State, acts: seq<Action>, t: Thread)
    requires Core(s) && Executes(s, acts) && Unlocked(s, t)
    ensures Unlocked(After(s, acts), t)
    decreases |acts|
  {
    if acts != [] {
      CoreStep(s, acts[0]);
      UnlockedStep(s, acts[0], t);
      UnlockedRun(Apply(s, acts[0]), acts[1..], t);
    }
  }

  /** In every reachable state, a thread that sleeps in cond_wait does not hold the condition's lock. */
  lemma SleepsUnlocked(s: State, t: Thread, c: Cond)
    requires Reachable(s) && LetGo(PcOf(s, t)) == Some(c)
    ensures c in s.lockOf && !Holds(s, t, s.lockOf[c])
  {
    var s0, acts :| Init(s0) && Executes(s0, acts) && After(s0, acts) == s;
    InitOrder(s0);
    UnlockedRun(s0, acts, t);
    ReachableToken(s, t);
    assert PcOk(s, t, PcOf(s, t));
  }
}
