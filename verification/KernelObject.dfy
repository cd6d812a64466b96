/** The interrupts-off sections of thread.c and synch.c on the kernel's own variables and linked lists.  Each
    section carries out one step of the step system: what it needs of the lists, that a thread's single element
    is on none of them when it is pushed, comes from the invariants of that system. */
module KernelObject {
  import opened Wrappers
  import opened Ordering
  import opened KernelList
  import opened Threads
  import opened ThreadsInv
  import opened ThreadsRun
  import opened ThreadsProperties
  import opened ThreadQueues

  /** What can be read off the kernel's variables. */
  datatype View = View(idle: Thread, initial: Thread, current: Thread, status: map<Thread, Status>,
                       value: map<SemaId, nat>, lines: map<QueueId, seq<Thread>>)

  ghost predicate ShowsSema(value: map<SemaId, nat>, lines: map<QueueId, seq<Thread>>, sema: map<SemaId, Sema>,
                            x: SemaId)
  {
    && (x in sema <==> x in value) && (x in sema <==> WaitQueue(x) in lines)
    && (x in sema ==> value[x] == sema[x].value && lines[WaitQueue(x)] == sema[x].waiters)
  }

  ghost predicate ShowsSemas(value: map<SemaId, nat>, lines: map<QueueId, seq<Thread>>, sema: map<SemaId, Sema>) {
    forall x :: ShowsSema(value, lines, sema, x)
  }

  lemma ReadyApart(value: map<SemaId, nat>, lines: map<QueueId, seq<Thread>>, sema: map<SemaId, Sema>,
                   ready: seq<Thread>)
    requires ShowsSemas(value, lines, sema)
    ensures ShowsSemas(value, lines[ReadyQueue := ready], sema)
  {
    var lines' := lines[ReadyQueue := ready];
    forall x ensures ShowsSema(value, lines', sema, x) { assert ShowsSema(value, lines, sema, x); }
  }

  /** The variables stand for s; where each thread is in its code, and the conditions, are not among them. */
  ghost predicate Shows(v: View, s: State) {
    && v.idle == s.idle && v.initial == s.initial && v.current == s.current && v.status == s.status
    && ReadyQueue in v.lines && v.lines[ReadyQueue] == s.ready && ShowsSemas(v.value, v.lines, s.sema)
  }

  /** On no list at all. */
  ghost predicate Nowhere(s: State, t: Thread) {
    t !in s.ready && (forall x :: x in s.sema ==> t !in s.sema[x].waiters)
  }

  lemma NowhereInLine(v: View, s: State, t: Thread, q: QueueId)
    requires Shows(v, s) && Nowhere(s, t) && q in v.lines
    ensures t !in v.lines[q]
  {
    if q.WaitQueue? { assert ShowsSema(v.value, v.lines, s.sema, q.x); }
  }

  // ----- the effect of each section on the view

  ghost function Switched(v: View, next: Thread, initial: Thread): View
    requires v.current in v.status
  {
    var status := v.status[next := Running];
    if v.current != next && v.status[v.current] == Dying && v.current != initial
    then v.(current := next, status := status - {v.current})
    else v.(current := next, status := status)
  }

  ghost function NextLines(v: View): map<QueueId, seq<Thread>>
    requires ReadyQueue in v.lines
  {
    if v.lines[ReadyQueue] == [] then v.lines else v.lines[ReadyQueue := v.lines[ReadyQueue][1..]]
  }

  ghost function NextOf(s: State): Thread {
    if s.ready == [] then s.idle else s.ready[0]
  }

  lemma ShowsSchedule(v: View, s: State)
    requires Shows(v, s) && s.current in s.status
    ensures Shows(Switched(v.(lines := NextLines(v)), NextOf(s), s.initial), Schedule(s))
  {
    ShowsPopped(v, s);
    ShowsSwitched(v.(lines := NextLines(v)), s.(ready := if s.ready == [] then [] else s.ready[1..]), NextOf(s));
  }

  lemma ShowsPopped(v: View, s: State)
    requires Shows(v, s)
    ensures Shows(v.(lines := NextLines(v)), s.(ready := if s.ready == [] then [] else s.ready[1..]))
  {
    if s.ready != [] { ReadyApart(v.value, v.lines, s.sema, s.ready[1..]); }
  }

  lemma ShowsSwitched(v: View, s: State, next: Thread)
    requires Shows(v, s) && s.current in s.status
    ensures var s1 := s.(current := next, status := s.status[next := Running]);
            var s2 := s1.(status := s1.status - {s.current}, pc := s.pc - {s.current});
            var dies := s.current != next && s.status[s.current] == Dying && s.current != s.initial;
            Shows(Switched(v, next, s.initial), if dies then s2 else s1)
  {
  }

  lemma ShowsUnblock(v: View, s: State, t: Thread)
    requires Shows(v, s)
    ensures Shows(v.(lines := v.lines[ReadyQueue := v.lines[ReadyQueue] + [t]], status := v.status[t := Ready]),
                  ThreadUnblock(s, t))
  {
    ReadyApart(v.value, v.lines, s.sema, s.ready + [t]);
  }

  /** A semaphore with another value and another line. */
  ghost function WithSema(v: View, x: SemaId, m: Sema): View {
    v.(value := v.value[x := m.value], lines := v.lines[WaitQueue(x) := m.waiters])
  }

  lemma ShowsWithSema(v: View, s: State, x: SemaId, m: Sema)
    requires Shows(v, s)
    ensures Shows(WithSema(v, x, m), s.(sema := s.sema[x := m]))
  {
    var v', sema' := WithSema(v, x, m), s.sema[x := m];
    forall y ensures ShowsSema(v'.value, v'.lines, sema', y) { assert ShowsSema(v.value, v.lines, s.sema, y); }
  }

  lemma ShowsValue(v: View, s: State, x: SemaId, n: nat)
    requires Shows(v, s) && x in s.sema
    ensures Shows(v.(value := v.value[x := n]), SetValue(s, x, n))
  {
    assert ShowsSema(v.value, v.lines, s.sema, x);
    ShowsWithSema(v, s, x, s.sema[x].(value := n));
    assert v.lines[WaitQueue(x) := s.sema[x].waiters] == v.lines;
  }

  lemma ShowsLine(v: View, s: State, x: SemaId, w: seq<Thread>)
    requires Shows(v, s) && x in s.sema
    ensures Shows(v.(lines := v.lines[WaitQueue(x) := w]), s.(sema := s.sema[x := s.sema[x].(waiters := w)]))
  {
    assert ShowsSema(v.value, v.lines, s.sema, x);
    ShowsWithSema(v, s, x, s.sema[x].(waiters := w));
    assert v.value[x := s.sema[x].value] == v.value;
  }

  /** sema_up before it adds to the value. */
  ghost function Woke(s: State, x: SemaId): State
    requires x in s.sema
  {
    var w := s.sema[x].waiters;
    if w == [] then s else ThreadUnblock(s.(sema := s.sema[x := s.sema[x].(waiters := w[1..])]), w[0])
  }

  lemma UpInTwoParts(s: State, x: SemaId, n: nat)
    requires x in s.sema && n == s.sema[x].value + 1
    ensures SetValue(Woke(s, x), x, n) == SemaUp(s, x)
  {
    if s.sema[x].waiters != [] {
      assert SetValue(Woke(s, x), x, s.sema[x].value + 1).sema == SemaUp(s, x).sema;
    }
  }

  /** a runs a turn of sema_down on x, with k to follow. */
  ghost predicate TurnOf(s: State, a: Action, x: SemaId, k: DownThen) {
    || (a == Down(x) && k == ToUser)
    || (a.Acquire? && x == LockSema(a.l) && k == ToHolder(a.l))
    || (a.Continue? && (PcOf(s, s.current) == CallDown(x, k) || PcOf(s, s.current) == Waiting(x, k)))
  }

  /** Such a turn is the whole step a ... */
  lemma DownIsStep(s: State, a: Action, x: SemaId, k: DownThen)
    requires WellFormed(s) && Enabled(s, a) && TurnOf(s, a, x, k)
    ensures x in s.sema && (k.ToReacquire? ==> k.c in s.lockOf) && Apply(s, a) == SemaDown(s, x, k)
  {
    assert PcOk(s, s.current, PcOf(s, s.current));
  }

  /** ... and so is sema_up, wherever it is called from, but for where its caller goes on. */
  lemma UpIsStep(v: View, s: State, a: Action, x: SemaId)
    requires WellFormed(s) && Enabled(s, a) && UpsBy(s, a, x) == 1
    ensures x in s.sema && (Shows(v, SemaUp(s, x)) <==> Shows(v, Apply(s, a)))
  {
    assert PcOk(s, s.current, PcOf(s, s.current));
    assert Apply(s, a) == SemaUp(s, x).(pc := Apply(s, a).pc);
  }

  // ----- what the invariants say about lists

  lemma RunningNowhere(s: State)
    requires Reachable(s)
    ensures Nowhere(s, s.current) && s.current in s.status
  {
    ReachableToken(s, s.current);
    assert forall x :: x in s.sema ==> !BlockedOn(s, s.current, x);
  }

  /** init_thread is done, the thread not unblocked yet. */
  ghost function Newborn(s: State, t: Thread): State {
    s.(status := s.status[t := Blocked], pc := s.pc[t := User])
  }

  lemma UnknownNowhere(s: State, t: Thread)
    requires Reachable(s) && t !in s.status
    ensures Nowhere(s, t)
  {
    ReachableToken(s, t);
    assert forall x :: x in s.sema ==> !BlockedOn(s, t, x);
  }

  lemma ShowsNewborn(v: View, s: State, t: Thread)
    requires Nowhere(s, t) && Shows(v, s)
    ensures Nowhere(Newborn(s, t), t) && ThreadUnblock(Newborn(s, t), t) == ThreadCreate(s, t)
    ensures Shows(v.(status := v.status[t := Blocked]), Newborn(s, t))
  {
    assert s.status[t := Blocked][t := Ready] == s.status[t := Ready];
  }

  /** The longest waiter, once taken off its list, is on no other. */
  ghost predicate FirstFree(s: State, x: SemaId)
    requires x in s.sema
  {
    s.sema[x].waiters != [] ==>
      var t, w := s.sema[x].waiters[0], s.sema[x].waiters[1..];
      t in s.status && s.status[t] == Blocked && Nowhere(s.(sema := s.sema[x := s.sema[x].(waiters := w)]), t)
  }

  lemma WaiterNowhere(s: State, x: SemaId)
    requires Reachable(s) && x in s.sema
    ensures FirstFree(s, x)
  {
    if s.sema[x].waiters != [] {
      var t := s.sema[x].waiters[0];
      ReachableToken(s, t);
      assert BlockedOn(s, t, x) && Distinct(s.sema[x].waiters);
      assert forall y :: y in s.sema && y != x ==> !BlockedOn(s, t, y);
    }
  }

  /** No semaphores, locks or conditions yet. */
  ghost function Booted(main: Thread, idle: Thread): State {
    State(map[main := Running, idle := Blocked], map[main := User, idle := User],
          main, idle, main, [], map[], map[], map[], map[])
  }

  class Kernel {
    const idle: Thread
    const initial: Thread
    const queues: Queues
    var current: Thread
    var status: map<Thread, Status>
    var value: map<SemaId, nat>

    ghost function V(): View
      reads this, queues
    {
      View(idle, initial, current, status, value, queues.layout.lines)
    }

    /** Every thread lives in a page, with its list element. */
    ghost predicate Housed()
      reads this
    {
      idle in queues.elemOf && status.Keys <= queues.elemOf.Keys
    }

    /** thread_init, and the idle thread of thread_start. */
    constructor (main: Thread, idleThread: Thread, elems: map<Thread, ListElem>, owners: map<ListElem, Thread>)
      requires Embedded(elems, owners) && main in elems && idleThread in elems && main != idleThread
      ensures queues.Valid() && Housed() && fresh(queues) && Shows(V(), Booted(main, idleThread))
    {
      idle, initial, current := idleThread, main, main;
      status := map[main := Running, idleThread := Blocked];
      value := map[];
      queues := new Queues(elems, owners);
      new;
      queues.InitQueue(ReadyQueue);
    }

    method NextThreadToRun() returns (next: Thread)
      requires queues.Valid() && ReadyQueue in queues.layout.lines
      modifies queues`layout, queues.nodes
      ensures queues.Valid() && queues.layout.lines == NextLines(old(V()))
      ensures next == if old(queues.layout.lines[ReadyQueue]) == [] then idle
                      else old(queues.layout.lines[ReadyQueue][0])
    {
      var empty := queues.IsEmpty(ReadyQueue);
      if empty {
        next := idle;
      } else {
        next := queues.PopFront(ReadyQueue);
      }
    }

    method SwitchTo(next: Thread)
      requires queues.Valid() && current in status && Housed() && next in queues.elemOf
      modifies this`current, this`status
      ensures queues.Valid() && V() == Switched(old(V()), next, initial) && Housed()
    {
      var curr := current;
      current := next;
      var dying := curr != next && status[curr] == Dying && curr != initial;
      status := status[current := Running];
      if dying {
        status := status - {curr};
      }
    }

    /** schedule, then schedule_tail on the new thread's stack. */
    method ScheduleNext(ghost s: State)
      requires queues.Valid() && Housed() && Shows(V(), s)
      requires s.current in s.status
      modifies this`current, this`status, queues`layout, queues.nodes
      ensures queues.Valid() && Housed() && Shows(V(), Schedule(s))
    {
      ShowsSchedule(V(), s);
      var next := NextThreadToRun();
      SwitchTo(next);
    }

    method BlockCurrent(ghost s: State, ghost at: Pc)
      requires queues.Valid() && Housed() && Shows(V(), s)
      requires s.current in s.status
      modifies this`current, this`status, queues`layout, queues.nodes
      ensures queues.Valid() && Housed() && Shows(V(), ThreadBlock(s, at))
    {
      status := status[current := Blocked];
      ScheduleNext(s.(status := s.status[s.current := Blocked], pc := s.pc[s.current := at]));
    }

    /** list_push_back on one of the queues: that the element is on no list follows from the state. */
    method Enqueue(q: QueueId, t: Thread, ghost s: State)
      requires queues.Valid() && Shows(V(), s) && Nowhere(s, t) && t in queues.elemOf && q in queues.layout.lines
      modifies queues`layout, queues.nodes
      ensures queues.Valid()
      ensures V() == old(V()).(lines := old(V()).lines[q := old(V()).lines[q] + [t]])
    {
      forall p | p in queues.layout.lines ensures t !in queues.layout.lines[p] { NowhereInLine(V(), s, t, p); }
      queues.PushBack(q, t);
    }

    method SetStatus(t: Thread, now: Status)
      requires queues.Valid() && Housed() && t in queues.elemOf
      modifies this`status
      ensures queues.Valid() && Housed() && V() == old(V()).(status := old(V()).status[t := now])
    {
      status := status[t := now];
    }

    method Unblock(t: Thread, ghost s: State)
      requires queues.Valid() && Housed() && Shows(V(), s)
      requires t in s.status && s.status[t] == Blocked && Nowhere(s, t)
      modifies this`status, queues`layout, queues.nodes
      ensures queues.Valid() && Housed() && Shows(V(), ThreadUnblock(s, t))
    {
      ShowsUnblock(V(), s, t);
      Enqueue(ReadyQueue, t, s);
      SetStatus(t, Ready);
    }

    method SetValue(x: SemaId, n: nat, ghost s: State)
      requires queues.Valid() && Housed() && Shows(V(), s) && x in s.sema
      modifies this`value
      ensures queues.Valid() && Housed() && Shows(V(), Threads.SetValue(s, x, n))
    {
      ShowsValue(V(), s, x, n);
      value := value[x := n];
    }

    method Requeue(ghost s: State)
      requires queues.Valid() && Housed() && Shows(V(), s) && s.current in s.status && Nowhere(s, s.current)
      modifies this`current, this`status, queues`layout, queues.nodes
      ensures queues.Valid() && Housed() && Shows(V(), ThreadYield(s))
    {
      ghost var s1 := s;
      if current != idle {
        ReadyApart(value, queues.layout.lines, s.sema, s.ready + [s.current]);
        Enqueue(ReadyQueue, current, s);
        s1 := s.(ready := s.ready + [s.current]);
      }
      SetStatus(current, Ready);
      ScheduleNext(s1.(status := s1.status[s1.current := Ready]));
    }

    method QueueUp(x: SemaId, ghost k: DownThen, ghost s: State)
      requires queues.Valid() && Housed() && Shows(V(), s) && s.current in s.status && Nowhere(s, s.current)
      requires x in s.sema && s.sema[x].value == 0 && (k.ToReacquire? ==> k.c in s.lockOf)
      modifies this`current, this`status, queues`layout, queues.nodes
      ensures queues.Valid() && Housed() && Shows(V(), SemaDown(s, x, k))
    {
      ghost var w := s.sema[x].waiters + [s.current];
      assert ShowsSema(value, queues.layout.lines, s.sema, x);
      ShowsLine(V(), s, x, w);
      Enqueue(WaitQueue(x), current, s);
      BlockCurrent(s.(sema := s.sema[x := s.sema[x].(waiters := w)]), Waiting(x, k));
    }

    method TakeUnit(x: SemaId, ghost k: DownThen, ghost s: State)
      requires queues.Valid() && Housed() && Shows(V(), s) && s.current in s.status
      requires x in s.sema && s.sema[x].value > 0 && (k.ToReacquire? ==> k.c in s.lockOf)
      modifies this`value
      ensures queues.Valid() && Housed() && Shows(V(), SemaDown(s, x, k))
    {
      assert ShowsSema(value, queues.layout.lines, s.sema, x);
      SetValue(x, value[x] - 1, s);
    }

    method WakeFirst(x: SemaId, ghost s: State)
      requires queues.Valid() && Housed() && Shows(V(), s) && x in s.sema && FirstFree(s, x)
      modifies this`status, queues`layout, queues.nodes
      ensures queues.Valid() && Housed() && Shows(V(), Woke(s, x))
    {
      ghost var w := s.sema[x].waiters;
      assert ShowsSema(value, queues.layout.lines, s.sema, x);
      var empty := queues.IsEmpty(WaitQueue(x));
      if !empty {
        ShowsLine(V(), s, x, w[1..]);
        var t := queues.PopFront(WaitQueue(x));
        Unblock(t, s.(sema := s.sema[x := s.sema[x].(waiters := w[1..])]));
      }
    }

    method AddUnit(x: SemaId, n: nat, ghost s: State)
      requires queues.Valid() && Housed() && x in s.sema && Shows(V(), Woke(s, x)) && n == s.sema[x].value + 1
      modifies this`value
      ensures queues.Valid() && Housed() && Shows(V(), SemaUp(s, x))
    {
      UpInTwoParts(s, x, n);
      SetValue(x, n, Woke(s, x));
    }

    // ----- the sections, in any reachable state

    method YieldSection(ghost s: State)
      requires queues.Valid() && Housed() && Shows(V(), s) && Reachable(s)
      modifies this`current, this`status, queues`layout, queues.nodes
      ensures s.current in s.status && queues.Valid() && Housed() && Shows(V(), ThreadYield(s))
    {
      RunningNowhere(s);
      Requeue(s);
    }

    /** One turn of the loop in sema_down: take a unit, or queue up and block. */
    method DownTurn(x: SemaId, ghost k: DownThen, ghost s: State)
      requires queues.Valid() && Housed() && Shows(V(), s) && Reachable(s)
      requires x in s.sema && (k.ToReacquire? ==> k.c in s.lockOf)
      modifies this`current, this`status, this`value, queues`layout, queues.nodes
      ensures s.current in s.status && queues.Valid() && Housed() && Shows(V(), SemaDown(s, x, k))
    {
      RunningNowhere(s);
      assert ShowsSema(value, queues.layout.lines, s.sema, x);
      if value[x] == 0 {
        QueueUp(x, k, s);
      } else {
        TakeUnit(x, k, s);
      }
    }

    method UpSection(x: SemaId, ghost s: State)
      requires queues.Valid() && Housed() && Shows(V(), s) && Reachable(s) && x in s.sema
      modifies this`status, this`value, queues`layout, queues.nodes
      ensures queues.Valid() && Housed() && Shows(V(), SemaUp(s, x))
    {
      WaiterNowhere(s, x);
      assert ShowsSema(value, queues.layout.lines, s.sema, x);
      var n := value[x] + 1;
      WakeFirst(x, s);
      AddUnit(x, n, s);
    }

    method TryDownSection(x: SemaId, ghost s: State) returns (success: bool)
      requires queues.Valid() && Housed() && Shows(V(), s) && x in s.sema
      modifies this`value
      ensures queues.Valid() && Housed() && Shows(V(), SemaTryDown(s, x)) && success == (s.sema[x].value > 0)
    {
      assert ShowsSema(value, queues.layout.lines, s.sema, x);
      success := value[x] > 0;
      if success {
        SetValue(x, value[x] - 1, s);
      }
    }

    /** The end of thread_exit: the page goes back when the next thread runs. */
    method ExitSection(ghost s: State)
      requires queues.Valid() && Housed() && Shows(V(), s) && Reachable(s)
      modifies this`current, this`status, queues`layout, queues.nodes
      ensures s.current in s.status && queues.Valid() && Housed() && Shows(V(), ThreadExit(s))
    {
      RunningNowhere(s);
      SetStatus(current, Dying);
      ScheduleNext(s.(status := s.status[s.current := Dying]));
    }

    /** The end of thread_create: the new thread's element is on no list, even if its page was used before. */
    method CreateSection(t: Thread, ghost s: State)
      requires queues.Valid() && Housed() && Shows(V(), s) && Reachable(s) && t !in s.status && t in queues.elemOf
      modifies this`status, queues`layout, queues.nodes
      ensures queues.Valid() && Housed() && Shows(V(), ThreadCreate(s, t))
    {
      UnknownNowhere(s, t);
      ShowsNewborn(V(), s, t);
      SetStatus(t, Blocked);
      Unblock(t, Newborn(s, t));
    }
  }
}
