/** The scheduler's guarantees over whole runs, and the exact conditions they need. */
module SchedRuns {
  import opened Base
  import opened Sched
  import opened SchedProofs

  // ---------------------------------------------------------------- safety

  /** `sched_start`: the init agent runs on the boot hart, the other harts enter the run loop. */
  function Boot(init: Id, tf: Frame): System {
    var slots := seq(MAX_AGENTS, _ => Slot(Unused, -1, 0, Frame([]), 0));
    Sys(slots[init := Slot(Running, 0, 0, tf, 0)], [[], [], [], []],
        [Some(init), None, None, None], [User, Idle, Idle, Idle], 0)
  }

  lemma BootGood(init: Id, tf: Frame)
    ensures Inv(Boot(init, tf)) && ContextInv(Boot(init, tf))
  {
    var s := Boot(init, tf);
    forall h: Hart ensures GoodQueue(s, h) && GoodHart(s, h) {}
    forall a: Id ensures GoodSlot(s, a) {}
  }

  ghost predicate SafeHomes(s: System, es: seq<Step>)
    requires EnabledRun(s, es)
    decreases |es|
  {
    es == [] || (SafeHome(s, es[0]) && SafeHomes(Next(s, es[0]), es[1..]))
  }

  lemma {:induction false} RunKeeps(s: System, es: seq<Step>)
    requires Inv(s) && EnabledRun(s, es) && SafeHomes(s, es)
    ensures Inv(Run(s, es))
    decreases |es|
  {
    hide Inv, Next, Enabled, SafeHome;
    if es != [] {
      NextKeeps(s, es[0]);
      RunKeeps(Next(s, es[0]), es[1..]);
    }
  }

  /**
   No agent is current on two harts, a running agent is current on its home hart, every runnable agent waits in
   its home hart's queue, and queues hold each agent at most once.
   */
  ghost predicate Safe(s: System) {
    && (forall h: Hart, k: Hart | h != k && s.current[h].Some? :: s.current[h] != s.current[k])
    && (forall a: Id | s.slots[a].status.Running? ::
          0 <= s.slots[a].home < HARTS && s.current[s.slots[a].home] == Some(a) &&
          s.slots[a].runningCpu == s.slots[a].home)
    && (forall a: Id | s.slots[a].status.Runnable? ::
          0 <= s.slots[a].home < HARTS && a in s.queues[s.slots[a].home])
    && (forall h: Hart :: Distinct(s.queues[h]) && |s.queues[h]| <= MAX_AGENTS)
  }

  /**
   In every interleaving in which a slot gets another home hart only when the old one has let go of it, the
   scheduler is safe at all times.
   */
  lemma SafetyOverRuns(init: Id, tf: Frame, es: seq<Step>)
    requires EnabledRun(Boot(init, tf), es) && SafeHomes(Boot(init, tf), es)
    ensures Safe(Run(Boot(init, tf), es))
  {
    hide Next, Enabled, SafeHome, Boot;
    BootGood(init, tf);
    RunKeeps(Boot(init, tf), es);
    var s := Run(Boot(init, tf), es);
    forall h: Hart, k: Hart | h != k && s.current[h].Some? ensures s.current[h] != s.current[k] {
      assert GoodHart(s, h) && GoodHart(s, k);
    }
    forall a: Id
      ensures 0 <= s.slots[a].home < HARTS
      ensures s.slots[a].status.Running? ==>
                s.current[s.slots[a].home] == Some(a) && s.slots[a].runningCpu == s.slots[a].home
      ensures s.slots[a].status.Runnable? ==> a in s.queues[s.slots[a].home]
    {
      assert GoodSlot(s, a);
    }
    forall h: Hart ensures Distinct(s.queues[h]) && |s.queues[h]| <= MAX_AGENTS {
      assert GoodQueue(s, h);
      Pigeonhole(s.queues[h], 0, MAX_AGENTS);
    }
  }

  /**
   Creations as `agent_create` makes them with n harts online: the home is the slot number modulo n.  The
   slot of the first agent, whose home is 0, is created again only where that is its home as well.
   */
  predicate Steady(es: seq<Step>, init: Id, n: nat)
    requires 0 < n <= HARTS
  {
    forall i | 0 <= i < |es| && es[i].Create? :: es[i].home == es[i].a % n && (es[i].a == init ==> init % n == 0)
  }

  ghost predicate HomesSettled(s: System, init: Id, n: nat)
    requires 0 < n <= HARTS
  {
    forall a: Id :: s.slots[a].status.Unused? || a == init || s.slots[a].home == a % n
  }

  /** Steps other than creations leave every home and every unused slot as they are. */
  lemma HomesStay(s: System, e: Step)
    requires Inv(s) && Enabled(s, e) && !e.Create?
    ensures forall a: Id :: Next(s, e).slots[a].home == s.slots[a].home
    ensures forall a: Id :: s.slots[a].status.Unused? ==> Next(s, e).slots[a].status.Unused?
  {
    hide Pick, GoodQueue, GoodSlot;
    match e
    case Decide(h) =>
      assert GoodHart(s, h);
      RequeueKeeps(s, h);
      PickKeepsHomes(Requeue(s, h), h);
    case LoopPick(h) => PickKeepsHomes(s, h);
    case Exit(h, _) => assert GoodHart(s, h);
    case _ =>
  }

  lemma PickKeepsHomes(s: System, h: Hart)
    requires Inv(s)
    ensures forall a: Id :: Pick(s, h).slots[a].home == s.slots[a].home
    ensures forall a: Id :: s.slots[a].status.Unused? ==> Pick(s, h).slots[a].status.Unused?
  {
    hide PickNext, HasWork, Inv;
    PickNextExact(s, h);
    forall a: Id
      ensures Pick(s, h).slots[a].home == s.slots[a].home
      ensures s.slots[a].status.Unused? ==> Pick(s, h).slots[a].status.Unused?
    {
      var (s1, next) := PickNext(s, h);
      assert s1.slots[a].home == s.slots[a].home;
    }
  }

  /** With a steady number of harts every creation meets the condition of the theorems. */
  lemma {:induction false} SteadyIsSafe(s: System, es: seq<Step>, init: Id, n: nat)
    requires 0 < n <= HARTS && Steady(es, init, n) && EnabledRun(s, es)
    requires Inv(s) && HomesSettled(s, init, n) && s.slots[init].home == 0
    ensures SafeHomes(s, es)
    decreases |es|
  {
    hide Next, Enabled, Inv;
    if es != [] {
      var e := es[0];
      assert SafeHome(s, e) by {
        if e.Create? && s.slots[e.a].status.Unused? { UnusedIsDetached(s, e.a); }
      }
      NextKeeps(s, e);
      if e.Create? {
        CreatedState(s, e);
      } else {
        HomesStay(s, e);
      }
      SteadyNext(s, e, init, n);
      SteadyIsSafe(Next(s, e), es[1..], init, n);
    }
  }

  lemma SteadyNext(s: System, e: Step, init: Id, n: nat)
    requires 0 < n <= HARTS && Steady([e], init, n) && Enabled(s, e) && HomesSettled(s, init, n)
    requires s.slots[init].home == 0 && Inv(s)
    ensures HomesSettled(Next(s, e), init, n) && Next(s, e).slots[init].home == 0
  {
    hide Next, Enabled, Inv;
    assert [e][0] == e;
    if e.Create? {
      CreatedState(s, e);
    } else {
      HomesStay(s, e);
    }
  }

  /**
   So the theorems hold of every boot run with a steady number of harts online in which the slot of the first
   agent, unless its home would stay 0, is not created again.
   */
  lemma SteadyRunsAreSafe(init: Id, tf: Frame, es: seq<Step>, n: nat)
    requires 0 < n <= HARTS && EnabledRun(Boot(init, tf), es) && Steady(es, init, n)
    ensures SafeHomes(Boot(init, tf), es)
  {
    hide EnabledRun, SafeHomes, Inv;
    BootGood(init, tf);
    SteadyIsSafe(Boot(init, tf), es, init, n);
  }

  /** Zombies, unused and merely created slots are never dispatched. */
  lemma OnlyLiveDispatched(s: System, e: Step)
    requires Inv(s) && Enabled(s, e) && (e.Decide? || e.LoopPick?) && Dispatched(s, e).Some?
    ensures var a := Dispatched(s, e).value;
            && Live(s.slots[a]) && s.slots[a].home == e.h
            && Next(s, e).current[e.h] == Some(a) && Next(s, e).slots[a].status.Running?
  {
    hide Inv, PickNext;
    if e.Decide? {
      RequeueKeeps(s, e.h);
      PickNextExact(Requeue(s, e.h), e.h);
    } else {
      PickNextExact(s, e.h);
    }
  }

  /** A notification turns an executing agent back to runnable: "running exactly when current" is false. */
  lemma NotifiedWhileExecuting(s: System, h: Hart, a: Id)
    requires Inv(s) && s.current[h] == Some(a) && s.modes[h].User? && s.slots[a].status.Running?
    ensures Enabled(s, Notify(a))
    ensures var s' := Next(s, Notify(a));
            s'.current[h] == Some(a) && s'.modes[h].User? && s'.slots[a].status.Runnable? && a in s'.queues[h]
  {
    RunnableKeeps(s, a, s.slots[a].(status := Runnable, runningCpu := -1));
    assert GoodHart(s, h);
    assert GoodSlot(Next(s, Notify(a)), a);
  }

  // ---------------------------------------------------------------- context integrity

  /** A hart waiting in `schedule_trap` holds the frame last saved for its agent. */
  ghost predicate ContextInv(s: System) {
    forall h: Hart | s.modes[h].Trapped? && s.current[h].Some? ::
      s.slots[s.current[h].value].tf == s.modes[h].tf
  }

  /** The slot is not created again while some hart still records it as current. */
  predicate NotWhileCurrent(s: System, e: Step) {
    e.Create? ==> forall h: Hart :: s.current[h] != Some(e.a)
  }

  /** The frame a step saves on behalf of agent a: its own trap, or its initial frame. */
  function SavedBy(s: System, e: Step, a: Id): Option<Frame> {
    match e
    case Trap(h, f) => if s.current[h] == Some(a) then Some(f) else None
    case Exit(h, f) => if s.current[h] == Some(a) then Some(f) else None
    case Syscall(h, f) => if s.current[h] == Some(a) then Some(f) else None
    case Create(b, _, f) => if b == a then Some(f) else None
    case _ => None
  }

  /** The initial frame of agent a or the frame of its own last trap, read off the run alone. */
  function LastSaved(s: System, es: seq<Step>, a: Id, before: Frame): Frame
    requires EnabledRun(s, es)
    decreases |es|
  {
    if es == [] then before
    else
      var f := SavedBy(s, es[0], a);
      LastSaved(Next(s, es[0]), es[1..], a, if f.Some? then f.value else before)
  }

  lemma PickKeepsFrames(s: System, h: Hart)
    requires Inv(s)
    ensures forall a: Id :: Pick(s, h).slots[a].tf == s.slots[a].tf
    ensures forall k: Hart | k != h :: Pick(s, h).modes[k] == s.modes[k] && Pick(s, h).current[k] == s.current[k]
    ensures Pick(s, h).modes[h] == User || Pick(s, h) == s
  {
    hide PickNext, Inv, HasWork, Live, HasMail, QueuePick, MailPick;
    PickNextExact(s, h);
    forall a: Id ensures Pick(s, h).slots[a].tf == s.slots[a].tf {
      var s1 := PickNext(s, h).0;
      assert s1.slots[a].tf == s.slots[a].tf;
    }
  }

  /** One step changes exactly the frames it saves. */
  lemma StepSavesOwnFrame(s: System, e: Step)
    requires Inv(s) && ContextInv(s) && Enabled(s, e) && SafeHome(s, e) && NotWhileCurrent(s, e)
    ensures ContextInv(Next(s, e))
    ensures forall a: Id :: Next(s, e).slots[a].tf ==
              (var f := SavedBy(s, e, a); if f.Some? then f.value else s.slots[a].tf)
  {
    hide PickNext, GoodQueue, GoodSlot, Pick;
    var s' := Next(s, e);
    if e.Decide? {
      RequeueKeeps(s, e.h);
      RequeueKeepsFrames(s, e.h);
      PickKeepsFrames(Requeue(s, e.h), e.h);
    } else if e.LoopPick? {
      PickKeepsFrames(s, e.h);
    }
    forall h: Hart | s'.modes[h].Trapped? && s'.current[h].Some?
      ensures s'.slots[s'.current[h].value].tf == s'.modes[h].tf
    {
      assert GoodHart(s, h);
      if e.Trap? || e.Exit? || e.Syscall? {
        assert GoodHart(s, e.h);
      }
    }
  }

  lemma RequeueKeepsFrames(s: System, h: Hart)
    requires ContextInv(s)
    ensures forall a: Id :: Requeue(s, h).slots[a].tf == s.slots[a].tf
  {
  }

  ghost predicate NeverWhileCurrent(s: System, es: seq<Step>)
    requires EnabledRun(s, es)
    decreases |es|
  {
    es == [] || (NotWhileCurrent(s, es[0]) && NeverWhileCurrent(Next(s, es[0]), es[1..]))
  }

  /**
   Context integrity: in every interleaving where no slot is created again while some hart still records
   it as current, each agent's frame is its initial frame or exactly the frame of its own last trap.
   */
  lemma {:induction false} ContextIntegrity(s: System, es: seq<Step>)
    requires Inv(s) && ContextInv(s) && EnabledRun(s, es) && SafeHomes(s, es) && NeverWhileCurrent(s, es)
    ensures Inv(Run(s, es)) && ContextInv(Run(s, es))
    ensures forall a: Id :: Run(s, es).slots[a].tf == LastSaved(s, es, a, s.slots[a].tf)
    decreases |es|
  {
    hide Inv, Next, Enabled, SafeHome, NotWhileCurrent, ContextInv;
    if es != [] {
      NextKeeps(s, es[0]);
      StepSavesOwnFrame(s, es[0]);
      ContextIntegrity(Next(s, es[0]), es[1..]);
    }
  }

  /** So the frame handed out at a dispatch is the one the agent last left, and a dispatch alters none. */
  lemma DispatchHandsOutLastSaved(s: System, es: seq<Step>, e: Step, a: Id)
    requires Inv(s) && ContextInv(s) && EnabledRun(s, es) && SafeHomes(s, es) && NeverWhileCurrent(s, es)
    requires Enabled(Run(s, es), e) && (e.Decide? || e.LoopPick?) && Dispatched(Run(s, es), e) == Some(a)
    ensures Next(Run(s, es), e).slots[a].tf == LastSaved(s, es, a, s.slots[a].tf)
  {
    hide Inv, Next, ContextInv, LastSaved;
    ContextIntegrity(s, es);
    StepSavesOwnFrame(Run(s, es), e);
  }

  /**
   What a creation does to the invariant behind context integrity, exactly: it survives when, and only when,
   every hart that waits with the slot as its current one holds the very frame the new agent starts with.
   */
  lemma ContextKeptExactly(s: System, e: Step)
    requires Inv(s) && ContextInv(s) && e.Create? && Enabled(s, e)
    ensures ContextInv(Next(s, e)) <==>
            forall h: Hart | s.modes[h].Trapped? && s.current[h] == Some(e.a) :: s.modes[h].tf == e.f
  {
    CreatedState(s, e);
    hide Next, Enabled, Inv;
    var s' := Next(s, e);
    if forall h: Hart | s.modes[h].Trapped? && s.current[h] == Some(e.a) :: s.modes[h].tf == e.f {
      forall h: Hart | s'.modes[h].Trapped? && s'.current[h].Some?
        ensures s'.slots[s'.current[h].value].tf == s'.modes[h].tf
      {
        assert s.modes[h] == s'.modes[h] && s.current[h] == s'.current[h];
      }
    } else {
      var h: Hart :| s.modes[h].Trapped? && s.current[h] == Some(e.a) && s.modes[h].tf != e.f;
      assert s'.modes[h].Trapped? && s'.current[h] == Some(e.a) && s'.slots[e.a].tf == e.f;
    }
  }

  /** A hart that waits on a slot created again overwrites the new agent's first frame with the one it holds. */
  lemma RecreatedWhileWaiting(s: System, h: Hart, a: Id, f: Frame)
    requires Inv(s) && s.current[h] == Some(a) && s.modes[h].Trapped? && a > 0 && s.slots[a].status.Zombie?
    ensures Enabled(s, Create(a, h, f)) && SafeHome(s, Create(a, h, f))
    ensures var s1 := Next(s, Create(a, h, f));
            && s1.slots[a].tf == f && Enabled(s1, Decide(h))
            && Next(s1, Decide(h)).slots[a].tf == s.modes[h].tf
  {
    hide PickNext;
    assert GoodHart(s, h);
    var s1 := Next(s, Create(a, h, f));
    NextKeeps(s, Create(a, h, f));
    RequeueKeeps(s1, h);
    PickKeepsFrames(Requeue(s1, h), h);
  }

  /**
   A slot destroyed while its agent executes, and created again: the next trap of the old agent stores its
   registers as the new agent's frame, and counts as the new agent's own trap.
   */
  lemma RecreatedWhileExecuting(s: System, h: Hart, a: Id, f: Frame, g: Frame)
    requires Inv(s) && s.current[h] == Some(a) && s.modes[h].User? && a > 0 && s.slots[a].status.Zombie?
    ensures Enabled(s, Create(a, h, f)) && SafeHome(s, Create(a, h, f))
    ensures var s1 := Next(s, Create(a, h, f));
            && s1.slots[a].tf == f && s1.slots[a].status.Runnable? && Enabled(s1, Trap(h, g))
            && Next(s1, Trap(h, g)).slots[a].tf == g && SavedBy(s1, Trap(h, g), a) == Some(g)
  {
    assert GoodHart(s, h);
    CreatedState(s, Create(a, h, f));
  }

  /**
   The hypothesis is exact: whenever a slot is created again while a hart records it as current, that hart's
   next step can give the new agent a frame that is neither its initial one nor one of its own.
   */
  lemma RecreatedWhileCurrent(s: System, h: Hart, a: Id, f: Frame, g: Frame)
    requires Inv(s) && s.current[h] == Some(a) && a > 0 && s.slots[a].status.Zombie?
    ensures Enabled(s, Create(a, h, f)) && SafeHome(s, Create(a, h, f)) && !NotWhileCurrent(s, Create(a, h, f))
    ensures var s1 := Next(s, Create(a, h, f));
            var e := if s.modes[h].Trapped? then Decide(h) else Trap(h, g);
            && Enabled(s1, e)
            && Next(s1, e).slots[a].tf == if s.modes[h].Trapped? then s.modes[h].tf else g
  {
    assert GoodHart(s, h);
    hide Next, Enabled, Inv;
    if s.modes[h].Trapped? {
      RecreatedWhileWaiting(s, h, a, f);
    } else {
      RecreatedWhileExecuting(s, h, a, f, g);
    }
  }

  lemma OneStep(s: System, e: Step, es: seq<Step>)
    requires Enabled(s, e) && EnabledRun(Next(s, e), es)
    ensures EnabledRun(s, [e] + es) && Run(s, [e] + es) == Run(Next(s, e), es)
  {
    hide Next, Enabled;
    assert ([e] + es)[1..] == es;
  }

  lemma ThreeSteps(s: System, e0: Step, e1: Step, e2: Step)
    requires Enabled(s, e0) && Enabled(Next(s, e0), e1) && Enabled(Next(Next(s, e0), e1), e2)
    ensures EnabledRun(s, [e0, e1, e2]) && Run(s, [e0, e1, e2]) == Next(Next(Next(s, e0), e1), e2)
  {
    hide Next, Enabled;
    var s1 := Next(s, e0);
    var s2 := Next(s1, e1);
    OneStep(s2, e2, []);
    OneStep(s1, e1, [e2]);
    OneStep(s, e0, [e1, e2]);
    assert [e2] + [] == [e2] && [e1] + [e2] == [e1, e2] && [e0] + [e1, e2] == [e0, e1, e2];
  }

  lemma NoMailNoPick(s: System, h: Hart)
    requires forall a: Id :: s.slots[a].mail == 0
    ensures MailPick(s, h, 0) == None
  {
    MailPickFinds(s, h, 0);
  }

  /** A slot of hart 1 is created and hart 1 dispatches it. */
  lemma HartOneStarts(f: Frame, g: Frame)
    ensures var s := Boot(1, f);
            var es := [Create(2, 0, g), Create(3, 1, g), LoopPick(1)];
            && EnabledRun(s, es)
            && Run(s, es) == s.(slots := s.slots[2 := Slot(Runnable, -1, 0, g, 0)][3 := Slot(Running, 1, 1, g, 0)],
                                queues := [[2], [], [], []], current := [Some(1), Some(3), None, None],
                                modes := [User, User, Idle, Idle])
  {
    hide EnabledRun, Run, MailPick, RoundPick;
    var s := Boot(1, f);
    var s1 := Next(s, Create(2, 0, g));
    CreatedState(s, Create(2, 0, g));
    assert s1.queues[0] == [2] && s1.queues == [[2], [], [], []];
    var s2 := Next(s1, Create(3, 1, g));
    CreatedState(s1, Create(3, 1, g));
    assert s2.queues[1] == [3] && s2.queues == [[2], [3], [], []];
    NoMailNoPick(s2, 1);
    assert QueuePick(s2, s2.queues[1]) == Some(3);
    var s3 := Next(s2, LoopPick(1));
    assert s3.queues == [[2], [], [], []];
    assert s3.current == [Some(1), Some(3), None, None] && s3.modes == [User, User, Idle, Idle];
    assert s3.slots == s.slots[2 := Slot(Runnable, -1, 0, g, 0)][3 := Slot(Running, 1, 1, g, 0)];
    ThreeSteps(s, Create(2, 0, g), Create(3, 1, g), LoopPick(1));
  }

  /** Both harts dispatch in one steady run: agent 3 runs on hart 1 while hart 0 turns from agent 1 to agent 2. */
  lemma TwoHartsDispatch(f: Frame, g: Frame)
    ensures var es := [Create(2, 0, g), Create(3, 1, g), LoopPick(1)];
            && Steady(es, 1, 2) && EnabledRun(Boot(1, f), es)
            && var s := Run(Boot(1, f), es);
            && Enabled(s, Trap(0, g)) && Enabled(Next(s, Trap(0, g)), Decide(0))
            && var s' := Next(Next(s, Trap(0, g)), Decide(0));
            s'.current[0] == Some(2) && s'.current[1] == Some(3) && s'.slots[2].status.Running? &&
            s'.slots[3].status.Running?
  {
    HartOneStarts(f, g);
    hide EnabledRun, Run, MailPick, RoundPick;
    var s := Run(Boot(1, f), [Create(2, 0, g), Create(3, 1, g), LoopPick(1)]);
    var t := Next(s, Trap(0, g));
    var r := Requeue(t, 0);
    assert r.queues[0] == [2, 1] && r.slots[2] == Slot(Runnable, -1, 0, g, 0);
    NoMailNoPick(r, 0);
    assert QueuePick(r, [2, 1]) == Some(2);
  }

  /** With another home for the re-created slot, two harts can run the same agent. */
  lemma ChangedHomeRunsTwice(f: Frame, g: Frame)
    ensures var s := Boot(1, f);
            var es := [Exit(0, g), Create(1, 1, f), LoopPick(1)];
            EnabledRun(s, es) && Run(s, es).current[0] == Run(s, es).current[1] == Some(1)
  {
    hide EnabledRun, Run, MailPick, RoundPick;
    var s := Boot(1, f);
    var s1 := Next(s, Exit(0, g));
    var s2 := Next(s1, Create(1, 1, f));
    assert s2.queues[1] == [1] && s2.slots[1] == Slot(Runnable, -1, 1, f, 0);
    forall a: Id ensures s2.slots[a].mail == 0 {}
    MailPickFinds(s2, 1, 0);
    assert QueuePick(s2, s2.queues[1]) == Some(1);
    ThreeSteps(s, Exit(0, g), Create(1, 1, f), LoopPick(1));
  }
}
