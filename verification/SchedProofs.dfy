/** Invariants of the scheduler over every interleaving. */
module SchedProofs {
  import opened Base
  import opened Sched

  // ---------------------------------------------------------------- queues

  ghost predicate GoodQueue(s: System, h: Hart) {
    Distinct(s.queues[h]) && forall id | id in s.queues[h] :: id < MAX_AGENTS && s.slots[id].home == h
  }

  lemma {:induction false} WithoutKeeps(q: seq<nat>, id: nat)
    requires Distinct(q)
    ensures Distinct(Without(q, id)) && forall x :: x in Without(q, id) <==> x in q && x != id
  {
    if q != [] {
      var rest := q[1..];
      WithoutKeeps(rest, id);
      assert q == [q[0]] + rest && q[0] !in rest;
      assert forall x :: x in q <==> x == q[0] || x in rest;
      assert forall x :: x in [q[0]] + Without(rest, id) <==> x == q[0] || x in Without(rest, id);
    }
  }

  /** Twelve agents and no duplicates: the capacity test never turns an agent away. */
  lemma QueueHasRoom(q: seq<nat>, id: nat)
    requires Distinct(q) && (forall x | x in q :: x < MAX_AGENTS) && id < MAX_AGENTS
    ensures id in Add(q, id) && Distinct(Add(q, id)) && forall x :: x in Add(q, id) <==> x in q || x == id
  {
    if id !in q {
      Pigeonhole(q + [id], 0, MAX_AGENTS);
    }
  }

  // ---------------------------------------------------------------- the invariant

  ghost predicate GoodSlot(s: System, a: Id) {
    var x := s.slots[a];
    && 0 <= x.home < HARTS
    && (x.status.Running? ==>
          s.current[x.home] == Some(a) && x.runningCpu == x.home && a !in s.queues[x.home])
    && (x.status.Runnable? ==> x.runningCpu == -1 && a in s.queues[x.home])
    && (x.status.Unused? ==> a !in s.queues[x.home])
  }

  ghost predicate GoodHart(s: System, h: Hart) {
    && (s.modes[h].Idle? <==> s.current[h].None?)
    && (s.current[h].Some? ==>
          s.slots[s.current[h].value].home == h && !s.slots[s.current[h].value].status.Unused?)
  }

  ghost predicate Inv(s: System) {
    && (forall h: Hart :: GoodQueue(s, h))
    && (forall a: Id :: GoodSlot(s, a))
    && (forall h: Hart :: GoodHart(s, h))
  }

  /** No hart records agent a as current, and its home hart's queue does not hold it. */
  predicate Detached(s: System, a: Id) {
    (forall h: Hart :: s.current[h] != Some(a)) && a !in s.queues[QueueOf(s.slots[a].home)]
  }

  /** A slot is created with a new home hart only when its old one has let go of it. */
  predicate SafeHome(s: System, e: Step) {
    e.Create? ==> e.home == s.slots[e.a].home || Detached(s, e.a)
  }

  // ---------------------------------------------------------------- building blocks

  /** Only slot a changes, keeping its home, and ends neither running nor runnable, or as it was. */
  lemma SlotChangeKeeps(s: System, s': System, a: Id, x: Slot)
    requires Inv(s) && s' == s.(slots := s.slots[a := x])
    requires x.home == s.slots[a].home && (x.status.Unused? ==> s.slots[a].status.Unused?)
    requires x.status.Running? || x.status.Runnable? ==>
               x.status == s.slots[a].status && x.runningCpu == s.slots[a].runningCpu
    ensures Inv(s')
  {
    forall h: Hart ensures GoodQueue(s', h) && GoodHart(s', h) {
      assert GoodQueue(s, h) && GoodHart(s, h);
    }
    forall b: Id ensures GoodSlot(s', b) {
      assert GoodSlot(s, b);
    }
  }

  /** Marking an agent runnable and queueing it keeps the invariant, wherever it was executing. */
  lemma RunnableKeeps(s: System, a: Id, x: Slot)
    requires Inv(s)
    requires x.home == s.slots[a].home && x.status.Runnable? && x.runningCpu == -1
    ensures Inv(Enqueue(s.(slots := s.slots[a := x]), a))
  {
    var s' := Enqueue(s.(slots := s.slots[a := x]), a);
    assert GoodSlot(s, a);
    forall h: Hart ensures GoodQueue(s', h) && GoodHart(s', h) {
      assert GoodQueue(s, h) && GoodHart(s, h);
      QueueHasRoom(s.queues[h], a);
    }
    forall b: Id ensures GoodSlot(s', b) {
      assert GoodSlot(s, b) && GoodQueue(s, QueueOf(s.slots[b].home));
      QueueHasRoom(s.queues[QueueOf(s.slots[b].home)], a);
    }
  }

  /** No agent homed on hart h is marked running. */
  ghost predicate NoneRunning(s: System, h: Hart) {
    forall a: Id | s.slots[a].home == h :: !s.slots[a].status.Running?
  }

  lemma RequeueKeeps(s: System, h: Hart)
    requires Inv(s)
    ensures Inv(Requeue(s, h)) && NoneRunning(Requeue(s, h), h)
    ensures Requeue(s, h).current == s.current && Requeue(s, h).modes == s.modes
  {
    assert GoodHart(s, h);
    if s.current[h].Some? {
      var a := s.current[h].value;
      var s1 := if s.modes[h].Trapped? then s.(slots := s.slots[a := s.slots[a].(tf := s.modes[h].tf)]) else s;
      assert Inv(s1) by {
        if s.modes[h].Trapped? { SlotChangeKeeps(s, s1, a, s.slots[a].(tf := s.modes[h].tf)); }
      }
      if s1.slots[a].status.Running? {
        RunnableKeeps(s1, a, s1.slots[a].(status := Runnable, runningCpu := -1));
      }
    }
    forall b: Id | s.slots[b].home == h ensures !Requeue(s, h).slots[b].status.Running? {
      assert GoodSlot(s, b);
    }
  }

  lemma DispatchKeeps(s: System, h: Hart, a: Id)
    requires Inv(s) && NoneRunning(s, h) && s.slots[a].home == h && Live(s.slots[a])
    ensures Inv(Dispatch(s, h, a))
  {
    var s' := Dispatch(s, h, a);
    forall k: Hart ensures GoodQueue(s', k) && GoodHart(s', k) {
      assert GoodQueue(s, k) && GoodHart(s, k);
      WithoutKeeps(s.queues[k], a);
    }
    forall b: Id ensures GoodSlot(s', b) {
      assert GoodSlot(s, b) && GoodQueue(s, QueueOf(s.slots[b].home));
      WithoutKeeps(s.queues[QueueOf(s.slots[b].home)], a);
    }
  }

  // ---------------------------------------------------------------- what pick_next finds

  lemma MailPickFinds(s: System, h: Hart, i: nat)
    requires i <= MAX_AGENTS
    ensures MailPick(s, h, i).Some? ==> HasMail(s.slots[MailPick(s, h, i).value], h)
    ensures MailPick(s, h, i).None? ==> forall a: Id | i <= a :: !HasMail(s.slots[a], h)
    decreases MAX_AGENTS - i
  {
  }

  lemma {:induction false} QueuePickFinds(s: System, q: seq<nat>)
    ensures QueuePick(s, q).Some? ==> QueuePick(s, q).value in q && Dispatchable(s, QueuePick(s, q).value)
    ensures QueuePick(s, q).None? ==> forall id | id in q :: !Dispatchable(s, id)
  {
    if q != [] {
      QueuePickFinds(s, q[1..]);
      assert forall x :: x in q <==> x == q[0] || x in q[1..];
    }
  }

  lemma RoundPickFinds(s: System, h: Hart, p: nat)
    requires p <= MAX_AGENTS
    ensures RoundPick(s, h, p).Some? ==>
              s.slots[RoundPick(s, h, p).value].status.Runnable? && s.slots[RoundPick(s, h, p).value].home == h
    decreases MAX_AGENTS - p
  {
  }

  /** There is work for hart h: a runnable agent homed there, or a live one with mail. */
  ghost predicate HasWork(s: System, h: Hart) {
    exists a: Id :: s.slots[a].home == h && (s.slots[a].status.Runnable? || HasMail(s.slots[a], h))
  }

  /**
   `pick_next` finds an agent exactly when there is work for its hart.  The agent is live and homed
   there; without mail it is the first dispatchable one of the run queue, so the final round-robin scan
   never decides and `rr_next` never moves.
   */
  lemma PickNextExact(s: System, h: Hart)
    requires Inv(s)
    ensures var (s', next) := PickNext(s, h);
            && (next.Some? <==> HasWork(s, h))
            && (next.Some? ==> Live(s.slots[next.value]) && s.slots[next.value].home == h)
            && s'.rrNext == s.rrNext
            && s' == s.(slots := s'.slots)
            && (forall a: Id :: s'.slots[a] == s.slots[a] ||
                                (next == Some(a) && HasMail(s.slots[a], h) &&
                                 s'.slots[a] == s.slots[a].(status := Runnable, runningCpu := -1)))
            && (MailPick(s, h, 0).None? ==> next == QueuePick(s, s.queues[h]) && s' == s)
  {
    hide MailPick, QueuePick, RoundPick, GoodHart;
    MailPickFinds(s, h, 0);
    QueuePickFinds(s, s.queues[h]);
    RoundPickFinds(s, h, 0);
    assert GoodQueue(s, h);
    if MailPick(s, h, 0).None? && QueuePick(s, s.queues[h]).None? {
      NoWork(s, h);
    }
  }

  lemma NoWork(s: System, h: Hart)
    requires Inv(s)
    requires forall a: Id :: !HasMail(s.slots[a], h)
    requires forall id | id in s.queues[h] :: !Dispatchable(s, id)
    ensures !HasWork(s, h)
  {
    forall a: Id | s.slots[a].home == h ensures !s.slots[a].status.Runnable? {
      assert GoodSlot(s, a);
    }
  }

  lemma PickKeeps(s: System, h: Hart)
    requires Inv(s) && NoneRunning(s, h)
    ensures Inv(Pick(s, h))
  {
    PickNextExact(s, h);
    var (s1, next) := PickNext(s, h);
    if next.Some? {
      var a := next.value;
      MailPickFinds(s, h, 0);
      if MailPick(s, h, 0).Some? {
        assert Dispatch(s1, h, a) == Dispatch(s, h, a);
      }
      DispatchKeeps(s, h, a);
    }
  }

  // ---------------------------------------------------------------- every step

  /** Every step keeps the invariant; a creation under its exact condition. */
  lemma NextKeeps(s: System, e: Step)
    requires Inv(s) && Enabled(s, e) && SafeHome(s, e)
    ensures Inv(Next(s, e))
  {
    match e
    case Trap(h, f) => SaveKeeps(s, h, f);
    case Syscall(h, f) => SaveKeeps(s, h, f);
    case Exit(h, f) => ExitKeeps(s, h, f);
    case Decide(h) =>
      RequeueKeeps(s, h);
      PickKeeps(Requeue(s, h), h);
    case LoopPick(h) =>
      IdleRunsNothing(s, h);
      PickKeeps(s, h);
    case Notify(a) =>
      if !s.slots[a].status.Zombie? {
        RunnableKeeps(s, a, s.slots[a].(status := Runnable, runningCpu := -1));
      }
    case Deliver(a) => SlotChangeKeeps(s, Next(s, e), a, s.slots[a].(mail := s.slots[a].mail + 1));
    case Recv(h) => RecvKeeps(s, h);
    case Destroy(a) => SlotChangeKeeps(s, Next(s, e), a, s.slots[a].(status := Zombie));
    case Create(_, _, _) => CreateKeepsExactly(s, e);
  }

  lemma CreatedState(s: System, e: Step)
    requires e.Create? && Enabled(s, e)
    ensures Next(s, e) == Enqueue(s.(slots := s.slots[e.a := Slot(Runnable, -1, e.home, e.f, 0)]), e.a)
  {
    var x := Slot(Runnable, -1, e.home, e.f, 0);
    assert s.slots[e.a := x][e.a := x.(status := Runnable, runningCpu := -1)] == s.slots[e.a := x];
  }

  /** A creation that gives a slot another home, once its old one has let go of it. */
  lemma MovedKeeps(s: System, e: Step)
    requires Inv(s) && e.Create? && Enabled(s, e) && Detached(s, e.a)
    ensures Inv(Next(s, e))
  {
    CreatedState(s, e);
    hide Next, Enabled;
    var s' := Next(s, e);
    assert GoodSlot(s, e.a);
    forall h: Hart ensures GoodQueue(s', h) && GoodHart(s', h) {
      assert GoodQueue(s, h) && GoodHart(s, h);
      QueueHasRoom(s.queues[h], e.a);
    }
    forall b: Id ensures GoodSlot(s', b) {
      assert GoodSlot(s, b) && GoodQueue(s, QueueOf(e.home));
      QueueHasRoom(s.queues[QueueOf(e.home)], e.a);
    }
  }

  /** The condition on a creation is exact: it holds when, and only when, the invariant survives. */
  lemma CreateKeepsExactly(s: System, e: Step)
    requires Inv(s) && e.Create? && Enabled(s, e)
    ensures SafeHome(s, e) <==> Inv(Next(s, e))
  {
    CreatedState(s, e);
    hide Next, Enabled;
    if Detached(s, e.a) {
      MovedKeeps(s, e);
    } else if e.home == s.slots[e.a].home {
      RunnableKeeps(s, e.a, Slot(Runnable, -1, e.home, e.f, 0));
    } else {
      LeftBehind(s, e);
    }
  }

  lemma LeftBehind(s: System, e: Step)
    requires Inv(s) && e.Create? && Enabled(s, e) && !Detached(s, e.a) && e.home != s.slots[e.a].home
    ensures !Inv(Next(s, e))
  {
    CreatedState(s, e);
    hide Next, Enabled;
    var s' := Next(s, e);
    var old_ := QueueOf(s.slots[e.a].home);
    assert GoodSlot(s, e.a);
    if e.a in s.queues[old_] {
      assert !GoodQueue(s', old_);
    } else {
      var h: Hart :| s.current[h] == Some(e.a);
      assert GoodHart(s, h);
      assert !GoodHart(s', h);
    }
  }

  /** A slot that was never used can be given any home. */
  lemma UnusedIsDetached(s: System, a: Id)
    requires Inv(s) && s.slots[a].status.Unused?
    ensures Detached(s, a)
  {
    assert GoodSlot(s, a);
    forall h: Hart ensures s.current[h] != Some(a) {
      assert GoodHart(s, h);
    }
  }

  lemma SaveKeeps(s: System, h: Hart, f: Frame)
    requires Inv(s) && s.modes[h].User? && s.current[h].Some?
    ensures Inv(SaveFrame(s, h, f)) && Inv(SaveFrame(s, h, f).(modes := s.modes[h := Trapped(f)]))
  {
    var a := s.current[h].value;
    var s1 := SaveFrame(s, h, f);
    SlotChangeKeeps(s, s1, a, s.slots[a].(tf := f));
    ModeKeeps(s1, h, Trapped(f));
  }

  lemma ModeKeeps(s: System, h: Hart, m: Mode)
    requires Inv(s) && !s.modes[h].Idle? && !m.Idle?
    ensures Inv(s.(modes := s.modes[h := m]))
  {
    var s' := s.(modes := s.modes[h := m]);
    forall k: Hart ensures GoodQueue(s', k) && GoodHart(s', k) {
      assert GoodQueue(s, k) && GoodHart(s, k);
    }
    forall a: Id ensures GoodSlot(s', a) {
      assert GoodSlot(s, a);
    }
  }

  lemma ExitKeeps(s: System, h: Hart, f: Frame)
    requires Inv(s) && Enabled(s, Exit(h, f))
    ensures Inv(Next(s, Exit(h, f)))
  {
    var a := s.current[h].value;
    var x := s.slots[a].(status := Zombie, runningCpu := -1, tf := f);
    SlotChangeKeeps(s, s.(slots := s.slots[a := x]), a, x);
    ModeKeeps(s.(slots := s.slots[a := x]), h, Trapped(f));
  }

  lemma RecvKeeps(s: System, h: Hart)
    requires Inv(s) && Enabled(s, Recv(h))
    ensures Inv(Next(s, Recv(h)))
  {
    var a := s.current[h].value;
    if s.slots[a].mail > 0 {
      SlotChangeKeeps(s, Next(s, Recv(h)), a, s.slots[a].(mail := s.slots[a].mail - 1));
    }
  }

  lemma IdleRunsNothing(s: System, h: Hart)
    requires Inv(s) && s.modes[h].Idle?
    ensures NoneRunning(s, h)
  {
    assert GoodHart(s, h);
    forall a: Id | s.slots[a].home == h ensures !s.slots[a].status.Running? {
      assert GoodSlot(s, a);
    }
  }
}
