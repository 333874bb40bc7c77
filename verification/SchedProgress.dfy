/** No agent is lost: which states a slot can be in, and how an agent that gives up its hart gets it back. */
module SchedProgress {
  import opened Base
  import opened Sched
  import opened SchedProofs
  import opened SchedRuns
  import opened SchedWaiting

  // ---------------------------------------------------------------- states of a slot

  /** Runnable or running. */
  predicate Active(x: Slot) {
    x.status.Runnable? || x.status.Running?
  }

  /** Every slot is unused, runnable, running or a zombie. */
  predicate Ordinary(s: System) {
    forall a: Id :: s.slots[a].status.Unused? || Active(s.slots[a]) || s.slots[a].status.Zombie?
  }

  /** What `pick_next` does to the slots: it picks a live agent, and at most makes it runnable. */
  lemma PickedIsLive(s: System, h: Hart)
    ensures var (s', next) := PickNext(s, h);
            && (next.Some? ==> Live(s.slots[next.value]))
            && s'.current == s.current && s'.modes == s.modes && s'.queues == s.queues
            && (forall a: Id :: s'.slots[a] == s.slots[a] || (next == Some(a) && Active(s'.slots[a])))
  {
    hide MailPick, QueuePick, RoundPick;
    MailPickFinds(s, h, 0);
    QueuePickFinds(s, s.queues[h]);
    RoundPickFinds(s, h, 0);
  }

  /** A pass of the picking loops makes one live agent run, and leaves every other slot alone. */
  lemma PickMoves(s: System, h: Hart)
    ensures forall a: Id :: Pick(s, h).slots[a] == s.slots[a] || (Live(s.slots[a]) && Active(Pick(s, h).slots[a]))
  {
    hide PickNext;
    PickedIsLive(s, h);
    forall a: Id
      ensures Pick(s, h).slots[a] == s.slots[a] || (Live(s.slots[a]) && Active(Pick(s, h).slots[a]))
    {
      var (s1, next) := PickNext(s, h);
      assert s1.slots[a] == s.slots[a] || next == Some(a);
    }
  }

  lemma RequeueMoves(s: System, h: Hart)
    ensures forall a: Id ::
              || Requeue(s, h).slots[a].status == s.slots[a].status
              || (s.slots[a].status.Running? && Active(Requeue(s, h).slots[a]))
  {
  }

  /** The step ends agent a. */
  predicate Ends(s: System, e: Step, a: Id)
    requires Enabled(s, e)
  {
    e == Destroy(a) || (e.Exit? && s.current[e.h] == Some(a))
  }

  /**
   The life of a slot, step by step: an active agent stays active until it exits or is destroyed, which makes it
   a zombie; a zombie stays one, and an unused slot unused, until the slot is created anew, which makes it active.
   */
  lemma SlotLife(s: System, e: Step, a: Id)
    requires Enabled(s, e)
    ensures var (x, x') := (s.slots[a], Next(s, e).slots[a]);
            && (Active(x) && !Ends(s, e, a) ==> Active(x'))
            && (Ends(s, e, a) ==> x'.status.Zombie?)
            && (x.status.Zombie? && !(e.Create? && e.a == a) ==> x'.status.Zombie?)
            && (x.status.Unused? && !Ends(s, e, a) && !(e.Create? && e.a == a) ==> x'.status.Unused?)
            && (e.Create? && e.a == a ==> x'.status.Runnable?)
  {
    hide Pick, Requeue;
    match e
    case Decide(h) =>
      RequeueMoves(s, h);
      PickMoves(Requeue(s, h), h);
    case LoopPick(h) => PickMoves(s, h);
    case _ =>
  }

  lemma OrdinaryStep(s: System, e: Step)
    requires Ordinary(s) && Enabled(s, e)
    ensures Ordinary(Next(s, e))
  {
    hide Pick, Requeue;
    match e
    case Decide(h) =>
      RequeueMoves(s, h);
      PickMoves(Requeue(s, h), h);
    case LoopPick(h) => PickMoves(s, h);
    case _ =>
  }

  lemma {:induction false} OrdinaryKept(s: System, es: seq<Step>)
    requires Ordinary(s) && EnabledRun(s, es)
    ensures Ordinary(Run(s, es))
    decreases |es|
  {
    hide Next, Enabled, Ordinary;
    if es != [] {
      OrdinaryStep(s, es[0]);
      OrdinaryKept(Next(s, es[0]), es[1..]);
    }
  }

  /** Over every run from boot, each slot is unused, runnable, running or a zombie. */
  lemma OrdinaryOverRuns(init: Id, tf: Frame, es: seq<Step>)
    requires EnabledRun(Boot(init, tf), es)
    ensures Ordinary(Run(Boot(init, tf), es))
  {
    hide Next, Enabled, EnabledRun, Run;
    OrdinaryKept(Boot(init, tf), es);
  }

  /** Some step of the run ends agent a. */
  ghost predicate EndsIn(s: System, es: seq<Step>, a: Id)
    requires EnabledRun(s, es)
    decreases |es|
  {
    es != [] && (Ends(s, es[0], a) || EndsIn(Next(s, es[0]), es[1..], a))
  }

  /** An active agent is active for ever, unless it exits or is destroyed. */
  lemma {:induction false} ActiveUntilEnded(s: System, es: seq<Step>, a: Id)
    requires Active(s.slots[a]) && EnabledRun(s, es) && !EndsIn(s, es, a)
    ensures Active(Run(s, es).slots[a])
    decreases |es|
  {
    hide Next, Enabled, Active, Ends;
    if es != [] {
      SlotLife(s, es[0], a);
      ActiveUntilEnded(Next(s, es[0]), es[1..], a);
    }
  }

  /** A notified agent that is not a zombie is runnable and in its home hart's queue. */
  lemma NotifiedIsReady(s: System, a: Id)
    requires Inv(s) && Enabled(s, Notify(a)) && !s.slots[a].status.Zombie?
    ensures var s' := Next(s, Notify(a));
            && s'.slots[a] == s.slots[a].(status := Runnable, runningCpu := -1)
            && 0 <= s'.slots[a].home < HARTS && a in s'.queues[s'.slots[a].home]
  {
    assert GoodSlot(s, a) && GoodQueue(s, s.slots[a].home);
    QueueHasRoom(s.queues[s.slots[a].home], a);
  }

  // ---------------------------------------------------------------- mail

  lemma PickKeepsMail(s: System, h: Hart)
    ensures forall a: Id :: Pick(s, h).slots[a].mail == s.slots[a].mail
  {
    hide MailPick, QueuePick, RoundPick;
  }

  /** The step takes a message out of the inbox of agent a. */
  predicate Takes(s: System, e: Step, a: Id) {
    e.Recv? && s.current[e.h] == Some(a) && s.slots[a].mail > 0
  }

  /** Inboxes change by deliveries and receipts only, one message each; a new agent has none. */
  lemma MailStep(s: System, e: Step, a: Id)
    requires Enabled(s, e)
    ensures var (n, n') := (s.slots[a].mail, Next(s, e).slots[a].mail);
            && (e == Deliver(a) ==> n' == n + 1)
            && (Takes(s, e, a) ==> n' + 1 == n)
            && (e.Create? && e.a == a ==> n' == 0)
            && (e != Deliver(a) && !Takes(s, e, a) && !(e.Create? && e.a == a) ==> n' == n)
  {
    hide Pick;
    match e
    case Decide(h) => PickKeepsMail(Requeue(s, h), h);
    case LoopPick(h) => PickKeepsMail(s, h);
    case _ =>
  }

  /** Deliveries to agent a in the run, and messages it took. */
  function Delivered(es: seq<Step>, a: Id): nat {
    if es == [] then 0 else (if es[0] == Deliver(a) then 1 else 0) + Delivered(es[1..], a)
  }

  function Taken(s: System, es: seq<Step>, a: Id): nat
    requires EnabledRun(s, es)
    decreases |es|
  {
    if es == [] then 0 else (if Takes(s, es[0], a) then 1 else 0) + Taken(Next(s, es[0]), es[1..], a)
  }

  /** Over every run in which the slot is not created anew, an inbox holds what came in and was not taken out. */
  lemma {:induction false} MailLedger(s: System, es: seq<Step>, a: Id)
    requires EnabledRun(s, es) && forall i | 0 <= i < |es| :: !(es[i].Create? && es[i].a == a)
    ensures Run(s, es).slots[a].mail + Taken(s, es, a) == s.slots[a].mail + Delivered(es, a)
    decreases |es|
  {
    hide Next, Enabled, Takes;
    if es != [] {
      MailStep(s, es[0], a);
      NeitherBoth(s, es[0], a);
      MailLedger(Next(s, es[0]), es[1..], a);
    }
  }

  lemma NeitherBoth(s: System, e: Step, a: Id)
    ensures !(e == Deliver(a) && Takes(s, e, a))
  {
  }

  // ---------------------------------------------------------------- giving up the hart

  lemma {:induction false} LastStays(q: seq<nat>, a: nat, b: nat)
    requires q != [] && q[|q| - 1] == a && b != a
    ensures Without(q, b) != [] && Without(q, b)[|Without(q, b)| - 1] == a
  {
    if q[0] != b {
      if |q| > 1 {
        LastStays(q[1..], a, b);
      }
    }
  }

  /** A hart in the scheduler with a running agent has queued it behind all others before it picks. */
  lemma RequeuedLast(s: System, h: Hart, a: Id)
    requires Inv(s) && s.current[h] == Some(a) && s.slots[a].status.Running?
    ensures var s' := Requeue(s, h);
            && s'.slots[a].status.Runnable? && s'.slots[a].home == h
            && s'.queues[h] == s.queues[h] + [a] && a !in s.queues[h]
  {
    assert GoodHart(s, h) && GoodSlot(s, a) && GoodQueue(s, h);
    QueueHasRoom(s.queues[h], a);
  }

  /**
   A decision of a trapped hart whose agent is running always dispatches some agent, and that agent, unless it is
   dispatched itself, is then runnable and last in the queue of its hart.
   */
  lemma DecideDispatches(s: System, h: Hart, a: Id)
    requires Inv(s) && s.modes[h].Trapped? && s.current[h] == Some(a) && s.slots[a].status.Running?
    ensures Dispatched(s, Decide(h)).Some?
    ensures var s' := Next(s, Decide(h));
            Dispatched(s, Decide(h)) != Some(a) ==>
              && s'.slots[a].status.Runnable? && s'.slots[a].home == h
              && s'.queues[h] != [] && s'.queues[h][|s'.queues[h]| - 1] == a
              && Dispatched(s, Decide(h)).value !in s'.queues[h]
  {
    hide PickNext, Requeue;
    RequeuedLast(s, h, a);
    RequeueKeeps(s, h);
    var s1 := Requeue(s, h);
    PickNextExact(s1, h);
    assert HasWork(s1, h);
    var b := PickNext(s1, h).1.value;
    if b != a {
      assert GoodQueue(s1, h);
      WithoutKeeps(s1.queues[h], b);
      LastStays(s1.queues[h], a, b);
    }
  }

  /** Ahead of the last entry of a queue that lacks some agent there are at most ten. */
  lemma AheadOfLast(s: System, q: seq<nat>, a: Id, b: Id)
    requires Distinct(q) && (forall x | x in q :: x < MAX_AGENTS) && b !in q
    requires q != [] && q[|q| - 1] == a
    ensures Ahead(s, q, a) <= 10
  {
    AheadBelowLength(s, q, a);
    var r := q + [b];
    Pigeonhole(r, 0, MAX_AGENTS);
  }

  lemma {:induction false} AheadBelowLength(s: System, q: seq<nat>, a: nat)
    requires a in q
    ensures Ahead(s, q, a) <= |q| - 1
  {
    if q[0] != a {
      AheadBelowLength(s, q[1..], a);
    }
  }

  /** A hart in the scheduler still has its agent marked as running. */
  predicate GaveUp(s: System, h: Hart, a: Id) {
    s.modes[h].Trapped? && s.current[h] == Some(a) && s.slots[a].status.Running?
  }

  /** Other harts do not change that. */
  lemma GaveUpStays(s: System, e: Step, h: Hart, a: Id)
    requires Inv(s) && NoMail(s, h) && GaveUp(s, h, a)
    requires Enabled(s, e) && SafeHome(s, e) && Quiet(s, e, h, a) && !Decision(e, h)
    ensures NoMail(Next(s, e), h) && GaveUp(Next(s, e), h, a)
  {
    hide Pick, Requeue, PickNext;
    assert GoodHart(s, h);
    if e.Decide? {
      OtherHartRequeues(s, e.h, h, a);
      RequeueKeeps(s, e.h);
      OtherHartPicks(Requeue(s, e.h), e.h, h, a);
      PickKeepsFrames(Requeue(s, e.h), e.h);
    } else if e.LoopPick? {
      OtherHartPicks(s, e.h, h, a);
      PickKeepsFrames(s, e.h);
    } else if e.Create? {
      CreatedState(s, e);
    } else {
      PlainStepCalm(s, e, h, a);
    }
  }

  /**
   An agent that yields or is preempted runs again: of the next twelve decisions of its hart one dispatches it,
   whatever the other harts do meanwhile.
   */
  lemma {:induction false} RunsAgain(s: System, es: seq<Step>, h: Hart, a: Id)
    requires Inv(s) && NoMail(s, h) && GaveUp(s, h, a) && QuietRun(s, es, h, a) && Decisions(es, h) >= 12
    ensures DispatchedWithin(s, es, h, a, 12)
    decreases |es|
  {
    hide Inv, Next, Enabled, SafeHome, Quiet, NoMail, Ahead, Dispatched;
    var e := es[0];
    NextKeeps(s, e);
    if Decision(e, h) {
      assert e == Decide(h) by { NotIdle(s, e, h); }
      if Dispatched(s, e) != Some(a) {
        BackInQueue(s, h, a);
        BoundedWaiting(Next(s, e), es[1..], h, a, 10);
      }
    } else {
      GaveUpStays(s, e, h, a);
      RunsAgain(Next(s, e), es[1..], h, a);
    }
  }

  lemma NotIdle(s: System, e: Step, h: Hart)
    requires Enabled(s, e) && Decision(e, h) && s.modes[h].Trapped?
    ensures e == Decide(h)
  {
  }

  /** After the decision that passes it over, the agent waits with at most ten ahead of it. */
  lemma BackInQueue(s: System, h: Hart, a: Id)
    requires Inv(s) && NoMail(s, h) && GaveUp(s, h, a) && Dispatched(s, Decide(h)) != Some(a)
    ensures var s' := Next(s, Decide(h));
            NoMail(s', h) && Waits(s', h, a) && Ahead(s', s'.queues[h], a) <= 10
  {
    hide Pick, Requeue, PickNext, Ahead;
    DecideDispatches(s, h, a);
    NextKeeps(s, Decide(h));
    var s' := Next(s, Decide(h));
    assert GoodQueue(s', h);
    AheadOfLast(s', s'.queues[h], a, Dispatched(s, Decide(h)).value);
    MailAndHomes(s, h);
  }

  lemma MailAndHomes(s: System, h: Hart)
    requires Inv(s) && s.modes[h].Trapped?
    ensures forall b: Id :: Next(s, Decide(h)).slots[b].mail == s.slots[b].mail
    ensures forall b: Id :: Next(s, Decide(h)).slots[b].home == s.slots[b].home
  {
    hide Next, Inv;
    HomesStay(s, Decide(h));
    forall b: Id ensures Next(s, Decide(h)).slots[b].mail == s.slots[b].mail {
      MailStep(s, Decide(h), b);
    }
  }
}
