/** Bounded waiting: how many scheduling decisions of its hart a runnable agent can be passed over. */
module SchedWaiting {
  import opened Base
  import opened Sched
  import opened SchedProofs

  /** Dispatchable entries of the queue before agent a. */
  function Ahead(s: System, q: seq<nat>, a: nat): nat {
    if q == [] || q[0] == a then 0 else (if Dispatchable(s, q[0]) then 1 else 0) + Ahead(s, q[1..], a)
  }

  predicate Decision(e: Step, h: Hart) {
    e == Decide(h) || e == LoopPick(h)
  }

  function Decisions(es: seq<Step>, h: Hart): nat {
    if es == [] then 0 else (if Decision(es[0], h) then 1 else 0) + Decisions(es[1..], h)
  }

  /**
   No agent of hart h is notified, sent mail or killed from outside, no slot still in its queue is created
   again, and a does not exit.
   */
  predicate Quiet(s: System, e: Step, h: Hart, a: Id) {
    match e
    case Notify(b) => s.slots[b].home != h
    case Deliver(b) => s.slots[b].home != h
    case Destroy(b) => s.slots[b].home != h
    case Create(b, _, _) => b !in s.queues[h]
    case Exit(k, _) => s.current[k] != Some(a)
    case _ => true
  }

  ghost predicate QuietRun(s: System, es: seq<Step>, h: Hart, a: Id)
    decreases |es|
  {
    es == [] ||
    (Enabled(s, es[0]) && SafeHome(s, es[0]) && Quiet(s, es[0], h, a) && QuietRun(Next(s, es[0]), es[1..], h, a))
  }

  ghost predicate NoMail(s: System, h: Hart) {
    forall b: Id | s.slots[b].home == h :: s.slots[b].mail == 0
  }

  predicate Waits(s: System, h: Hart, a: Id) {
    s.slots[a].home == h && s.slots[a].status.Runnable?
  }

  /** One of the first n decisions of hart h in the run dispatches a. */
  ghost predicate DispatchedWithin(s: System, es: seq<Step>, h: Hart, a: Id, n: nat)
    requires QuietRun(s, es, h, a)
    decreases |es|
  {
    es != [] &&
    if Decision(es[0], h)
    then n > 0 && (Dispatched(s, es[0]) == Some(a) || DispatchedWithin(Next(s, es[0]), es[1..], h, a, n - 1))
    else DispatchedWithin(Next(s, es[0]), es[1..], h, a, n)
  }

  // ---------------------------------------------------------------- counting

  /** Fewer dispatchable agents, fewer ahead. */
  lemma {:induction false} AheadMonotone(s: System, s': System, q: seq<nat>, a: nat)
    requires forall id | id in q && Dispatchable(s', id) :: Dispatchable(s, id)
    ensures Ahead(s', q, a) <= Ahead(s, q, a)
  {
    if q != [] && q[0] != a {
      assert forall id | id in q[1..] :: id in q;
      AheadMonotone(s, s', q[1..], a);
    }
  }

  /** Entries behind a do not count. */
  lemma {:induction false} AheadAppend(s: System, q: seq<nat>, a: nat, b: nat)
    requires a in q
    ensures Ahead(s, q + [b], a) == Ahead(s, q, a)
  {
    if q[0] != a {
      assert (q + [b])[1..] == q[1..] + [b];
      AheadAppend(s, q[1..], a, b);
    }
  }

  /** Taking out the first dispatchable entry, when it is not a, brings a one place forward. */
  lemma {:induction false} AheadAfterPick(s: System, s': System, q: seq<nat>, a: Id)
    requires Distinct(q) && a in q && Dispatchable(s, a)
    requires QueuePick(s, q).Some? && QueuePick(s, q).value != a
    requires forall id: nat | id != QueuePick(s, q).value :: Dispatchable(s', id) <==> Dispatchable(s, id)
    ensures Ahead(s', Without(q, QueuePick(s, q).value), a) + 1 <= Ahead(s, q, a)
  {
    var b := QueuePick(s, q).value;
    if Dispatchable(s, q[0]) {
      assert forall id | id in q[1..] :: id != b;
      AheadMonotone(s, s', q[1..], a);
    } else {
      assert q[0] != a && q[0] != b by { QueuePickFinds(s, q); }
      AheadAfterPick(s, s', q[1..], a);
      assert ([q[0]] + Without(q[1..], b))[1..] == Without(q[1..], b);
    }
  }

  // ---------------------------------------------------------------- steps

  /** On hart h nothing happened, except that agents other than a may have stopped and mail been read. */
  ghost predicate Calm(s: System, s': System, h: Hart, a: Id) {
    && s'.queues[h] == s.queues[h] && s'.slots[a].status == s.slots[a].status
    && forall b: Id ::
         && s'.slots[b].home == s.slots[b].home
         && (s.slots[b].home == h ==>
               (Dispatchable(s', b) ==> Dispatchable(s, b)) && s'.slots[b].mail <= s.slots[b].mail)
  }

  lemma CalmKeeps(s: System, s': System, h: Hart, a: Id)
    requires Inv(s) && Calm(s, s', h, a) && NoMail(s, h) && Waits(s, h, a)
    ensures NoMail(s', h) && Waits(s', h, a) && Ahead(s', s'.queues[h], a) <= Ahead(s, s.queues[h], a)
  {
    assert GoodQueue(s, h);
    AheadMonotone(s, s', s.queues[h], a);
  }

  lemma OtherHartRequeues(s: System, k: Hart, h: Hart, a: Id)
    requires Inv(s) && k != h && s.slots[a].home == h
    ensures Calm(s, Requeue(s, k), h, a)
  {
    assert GoodHart(s, k);
  }

  lemma OtherHartPicks(s: System, k: Hart, h: Hart, a: Id)
    requires Inv(s) && k != h && s.slots[a].home == h
    ensures Calm(s, Pick(s, k), h, a)
  {
    hide PickNext, Inv, Live;
    PickNextExact(s, k);
    var s' := Pick(s, k);
    var next := PickNext(s, k).1;
    forall b: Id
      ensures s'.slots[b].home == s.slots[b].home && (s.slots[b].home == h ==> s'.slots[b] == s.slots[b])
    {
      assert next == Some(b) ==> s.slots[b].home == k;
    }
  }

  /** A step that is no decision of hart h leaves a waiting, with no more agents ahead of it. */
  lemma OtherStepKeeps(s: System, e: Step, h: Hart, a: Id)
    requires Inv(s) && NoMail(s, h) && Waits(s, h, a) && Enabled(s, e) && SafeHome(s, e) && Quiet(s, e, h, a)
    requires !Decision(e, h)
    ensures NoMail(Next(s, e), h) && Waits(Next(s, e), h, a)
    ensures Ahead(Next(s, e), Next(s, e).queues[h], a) <= Ahead(s, s.queues[h], a)
  {
    hide Inv, Pick, Requeue, Ahead;
    if e.Decide? {
      OtherHartRequeues(s, e.h, h, a);
      CalmKeeps(s, Requeue(s, e.h), h, a);
      RequeueKeeps(s, e.h);
      OtherHartPicks(Requeue(s, e.h), e.h, h, a);
      CalmKeeps(Requeue(s, e.h), Next(s, e), h, a);
    } else if e.Create? {
      CreateBehind(s, e, h, a);
    } else {
      if e.LoopPick? {
        OtherHartPicks(s, e.h, h, a);
      } else {
        PlainStepCalm(s, e, h, a);
      }
      CalmKeeps(s, Next(s, e), h, a);
    }
  }

  /** A creation puts the new agent behind a, or into another queue. */
  lemma CreateBehind(s: System, e: Step, h: Hart, a: Id)
    requires Inv(s) && NoMail(s, h) && Waits(s, h, a) && e.Create? && Enabled(s, e) && Quiet(s, e, h, a)
    ensures NoMail(Next(s, e), h) && Waits(Next(s, e), h, a)
    ensures Ahead(Next(s, e), Next(s, e).queues[h], a) <= Ahead(s, s.queues[h], a)
  {
    CreatedState(s, e);
    var s' := Next(s, e);
    assert GoodSlot(s, a) && GoodQueue(s, h);
    QueueHasRoom(s.queues[h], e.a);
    AheadAppend(s', s.queues[h], a, e.a);
    AheadMonotone(s, s', s.queues[h], a);
  }

  lemma PlainStepCalm(s: System, e: Step, h: Hart, a: Id)
    requires Inv(s) && s.slots[a].home == h && Enabled(s, e) && SafeHome(s, e) && Quiet(s, e, h, a)
    requires !e.Decide? && !e.LoopPick? && !e.Create?
    ensures Calm(s, Next(s, e), h, a)
  {
    if e.Notify? {
      assert GoodSlot(s, e.a);
    }
  }

  // ---------------------------------------------------------------- decisions of hart h

  lemma RequeueBehind(s: System, h: Hart, a: Id)
    requires Inv(s) && NoMail(s, h) && Waits(s, h, a)
    ensures var s' := Requeue(s, h);
            NoMail(s', h) && Waits(s', h, a) && Ahead(s', s'.queues[h], a) <= Ahead(s, s.queues[h], a)
  {
    var s' := Requeue(s, h);
    assert GoodHart(s, h) && GoodQueue(s, h) && GoodSlot(s, a);
    if s.current[h].Some? && s.slots[s.current[h].value].status.Running? {
      var c := s.current[h].value;
      assert GoodSlot(s, c);
      QueueHasRoom(s.queues[h], c);
      AheadAppend(s', s.queues[h], a, c);
    }
    AheadMonotone(s, s', s.queues[h], a);
  }

  /** A decision of hart h dispatches a, or the one agent it dispatches was ahead of a. */
  lemma PickAdvances(s: System, h: Hart, a: Id)
    requires Inv(s) && NoMail(s, h) && Waits(s, h, a)
    ensures var s' := Pick(s, h);
            || PickNext(s, h).1 == Some(a)
            || (NoMail(s', h) && Waits(s', h, a) && Ahead(s', s'.queues[h], a) + 1 <= Ahead(s, s.queues[h], a))
  {
    assert GoodSlot(s, a) && GoodQueue(s, h);
    MailPickFinds(s, h, 0);
    PickNextExact(s, h);
    var b := PickNext(s, h).1;
    assert HasWork(s, h);
    if b != Some(a) {
      hide PickNext, MailPick;
      assert QueuePick(s, s.queues[h]) == b;
      assert Dispatchable(s, a);
      AheadAfterPick(s, Pick(s, h), s.queues[h], a);
    }
  }

  lemma DecisionAdvances(s: System, e: Step, h: Hart, a: Id)
    requires Inv(s) && NoMail(s, h) && Waits(s, h, a) && Enabled(s, e) && Decision(e, h)
    ensures var s' := Next(s, e);
            || Dispatched(s, e) == Some(a)
            || (NoMail(s', h) && Waits(s', h, a) && Ahead(s', s'.queues[h], a) + 1 <= Ahead(s, s.queues[h], a))
  {
    hide Inv, Pick, PickNext, Requeue, Ahead, NoMail;
    if e.Decide? {
      RequeueKeeps(s, h);
      RequeueBehind(s, h, a);
      PickAdvances(Requeue(s, h), h, a);
    } else {
      PickAdvances(s, h, a);
    }
  }

  /**
   Bounded waiting: a runnable agent with k dispatchable entries ahead of it in its hart's queue is
   dispatched by one of that hart's next k + 1 decisions, whatever the other harts do meanwhile.
   */
  lemma {:induction false} BoundedWaiting(s: System, es: seq<Step>, h: Hart, a: Id, k: nat)
    requires Inv(s) && NoMail(s, h) && Waits(s, h, a) && QuietRun(s, es, h, a)
    requires Ahead(s, s.queues[h], a) <= k < Decisions(es, h)
    ensures DispatchedWithin(s, es, h, a, k + 1)
    decreases |es|
  {
    hide Inv, Next, Enabled, SafeHome, Quiet, NoMail, Waits, Ahead, Dispatched;
    var e := es[0];
    NextKeeps(s, e);
    if Decision(e, h) {
      DecisionAdvances(s, e, h, a);
      if Dispatched(s, e) != Some(a) {
        BoundedWaiting(Next(s, e), es[1..], h, a, k - 1);
      }
    } else {
      OtherStepKeeps(s, e, h, a);
      BoundedWaiting(Next(s, e), es[1..], h, a, k);
    }
  }

  /**
   Mail comes first: while some live agent of the hart has mail, its decisions dispatch agents with mail only.
   So waiting is not bounded without the condition on mail.
   */
  lemma MailFirst(s: System, e: Step, h: Hart, b: Id)
    requires Enabled(s, e) && Decision(e, h) && HasMail(s.slots[b], h)
    ensures Dispatched(s, e).Some? && HasMail(s.slots[Dispatched(s, e).value], h)
  {
    var s1 := if e.Decide? then Requeue(s, h) else s;
    forall a: Id ensures HasMail(s1.slots[a], h) <==> HasMail(s.slots[a], h) {}
    MailPickFinds(s1, h, 0);
    assert HasMail(s1.slots[b], h);
  }

  /** A message sent to a live agent is such mail: the next decision of its hart picks an agent with mail. */
  lemma SentGoesFirst(s: System, a: Id, h: Hart, e: Step)
    requires Enabled(s, Deliver(a)) && Live(s.slots[a]) && s.slots[a].home == h && s.slots[a].mail == 0
    requires Enabled(Next(s, Deliver(a)), e) && Decision(e, h)
    ensures var s' := Next(s, Deliver(a));
            Dispatched(s', e).Some? && HasMail(s'.slots[Dispatched(s', e).value], h)
  {
    MailFirst(Next(s, Deliver(a)), e, h, a);
  }
}
