/** When the kernel halts (kernel/sched.c: `sched_has_runnable`, `sched_system_done`), and that it may. */
module SchedHalt {
  import opened Base
  import opened Sched
  import opened SchedProofs
  import opened SchedRuns

  /** `sched_agent_selectable` */
  predicate Selectable(x: Slot) {
    Live(x) && !x.status.Running?
  }

  /** `sched_has_runnable`, from slot i on. */
  predicate HasRunnable(s: System, i: nat)
    requires i <= MAX_AGENTS
    decreases MAX_AGENTS - i
  {
    i < MAX_AGENTS &&
    ((Selectable(s.slots[i]) && (s.slots[i].status.Runnable? || s.slots[i].mail > 0)) || HasRunnable(s, i + 1))
  }

  /** The loop of `sched_system_done`, from slot i on: some slot is neither unused nor a zombie. */
  predicate Active(s: System, i: nat)
    requires i <= MAX_AGENTS
    decreases MAX_AGENTS - i
  {
    i < MAX_AGENTS && ((!s.slots[i].status.Unused? && !s.slots[i].status.Zombie?) || Active(s, i + 1))
  }

  /** `sched_system_done`; slot 0 is left out of the first loop. */
  predicate SystemDone(s: System) {
    !Active(s, 1) && !HasRunnable(s, 0)
  }

  /** No agent is left. */
  ghost predicate AllGone(s: System) {
    forall a: Id :: s.slots[a].status.Unused? || s.slots[a].status.Zombie?
  }

  lemma {:induction false} ActiveExactly(s: System, i: nat)
    requires i <= MAX_AGENTS
    ensures Active(s, i) <==> exists a: Id :: i <= a && !s.slots[a].status.Unused? && !s.slots[a].status.Zombie?
    decreases MAX_AGENTS - i
  {
    if i < MAX_AGENTS {
      ActiveExactly(s, i + 1);
    }
  }

  lemma {:induction false} RunnableExactly(s: System, i: nat)
    requires i <= MAX_AGENTS
    ensures HasRunnable(s, i) <==>
            exists a: Id :: i <= a && Selectable(s.slots[a]) && (s.slots[a].status.Runnable? || s.slots[a].mail > 0)
    decreases MAX_AGENTS - i
  {
    if i < MAX_AGENTS {
      RunnableExactly(s, i + 1);
    }
  }

  /** Slot 0 is unused and no hart records it. */
  predicate ZeroFree(s: System) {
    s.slots[0].status.Unused? && forall h: Hart :: s.current[h] != Some(0)
  }

  /** What `pick_next` chooses is never an unused slot, whatever the state. */
  lemma PickSparesUnused(s: System, h: Hart, a: Id)
    requires s.slots[a].status.Unused?
    ensures PickNext(s, h).1 != Some(a) && PickNext(s, h).0.slots[a] == s.slots[a]
  {
    hide MailPick, QueuePick, RoundPick;
    MailPickFinds(s, h, 0);
    QueuePickFinds(s, s.queues[h]);
    RoundPickFinds(s, h, 0);
  }

  lemma PickKeepsZero(s: System, h: Hart)
    requires ZeroFree(s)
    ensures ZeroFree(Pick(s, h))
  {
    PickSparesUnused(s, h, 0);
    PickKeepsCurrent(s, h);
    hide PickNext;
  }

  lemma PickKeepsCurrent(s: System, h: Hart)
    ensures PickNext(s, h).0.current == s.current
  {
    hide MailPick, QueuePick, RoundPick;
  }

  lemma ZeroStaysFree(s: System, e: Step)
    requires ZeroFree(s) && Enabled(s, e)
    ensures ZeroFree(Next(s, e))
  {
    hide Pick;
    match e
    case Decide(h) => PickKeepsZero(Requeue(s, h), h);
    case LoopPick(h) => PickKeepsZero(s, h);
    case _ =>
  }

  /** Slot 0 stays unused in every run of a kernel that started its first agent in another slot. */
  lemma {:induction false} SlotZeroUnused(s: System, es: seq<Step>)
    requires ZeroFree(s) && EnabledRun(s, es)
    ensures ZeroFree(Run(s, es))
    decreases |es|
  {
    hide ZeroFree, Next, Enabled;
    if es != [] {
      ZeroStaysFree(s, es[0]);
      SlotZeroUnused(Next(s, es[0]), es[1..]);
    }
  }

  /** The test for the end is exact: it holds when, and only when, no agent is left. */
  lemma DoneExactly(s: System)
    requires s.slots[0].status.Unused?
    ensures SystemDone(s) <==> AllGone(s)
  {
    ActiveExactly(s, 1);
    RunnableExactly(s, 0);
  }

  /** In particular after every run of the kernel, whatever homes its creations give. */
  lemma HaltsExactlyWhenAllGone(init: Id, tf: Frame, es: seq<Step>)
    requires init > 0 && EnabledRun(Boot(init, tf), es)
    ensures SystemDone(Run(Boot(init, tf), es)) <==> AllGone(Run(Boot(init, tf), es))
  {
    SlotZeroUnused(Boot(init, tf), es);
    DoneExactly(Run(Boot(init, tf), es));
  }

  // ---------------------------------------------------------------- nothing happens afterwards

  lemma GoneFindsNothing(s: System, h: Hart)
    requires AllGone(s)
    ensures PickNext(s, h) == (s, None)
  {
    hide MailPick, QueuePick, RoundPick;
    MailPickFinds(s, h, 0);
    QueuePickFinds(s, s.queues[h]);
    RoundPickFinds(s, h, 0);
  }

  lemma GoneStays(s: System, e: Step)
    requires AllGone(s) && Enabled(s, e) && !e.Create?
    ensures AllGone(Next(s, e))
    ensures e.Decide? || e.LoopPick? ==> Dispatched(s, e) == None
  {
    hide PickNext;
    if e.Decide? {
      GoneFindsNothing(Requeue(s, e.h), e.h);
    } else if e.LoopPick? {
      GoneFindsNothing(s, e.h);
    }
  }

  ghost predicate NothingDispatched(s: System, es: seq<Step>)
    requires EnabledRun(s, es)
    decreases |es|
  {
    es == [] ||
    ((es[0].Decide? || es[0].LoopPick? ==> Dispatched(s, es[0]) == None) && NothingDispatched(Next(s, es[0]), es[1..]))
  }

  /** Halting loses nothing: once no agent is left and none is created, no hart ever dispatches again. */
  lemma {:induction false} DoneIsFinal(s: System, es: seq<Step>)
    requires AllGone(s) && EnabledRun(s, es) && forall i | 0 <= i < |es| :: !es[i].Create?
    ensures NothingDispatched(s, es) && AllGone(Run(s, es))
    decreases |es|
  {
    hide Next, Enabled, AllGone, Dispatched;
    if es != [] {
      GoneStays(s, es[0]);
      DoneIsFinal(Next(s, es[0]), es[1..]);
    }
  }
}
