/** A creation that breaks the condition on homes can be continued to an unsafe state, in every case. */
module SchedUnsafe {
  import opened Base
  import opened Sched
  import opened SchedProofs
  import opened SchedRuns

  lemma {:induction false} RunThen(s: System, es: seq<Step>, more: seq<Step>)
    requires EnabledRun(s, es) && EnabledRun(Run(s, es), more)
    ensures EnabledRun(s, es + more) && Run(s, es + more) == Run(Run(s, es), more)
    decreases |es|
  {
    hide Next, Enabled;
    if es == [] {
      assert es + more == more;
    } else {
      RunThen(Next(s, es[0]), es[1..], more);
      OneStep(s, es[0], es[1..] + more);
      assert [es[0]] + (es[1..] + more) == es + more;
    }
  }

  /** All slots below i but a destroyed. */
  function Killed(s: System, a: Id, i: nat): System
    requires i <= MAX_AGENTS
  {
    var slots := seq(MAX_AGENTS, b requires 0 <= b < MAX_AGENTS =>
      if b < i && b != a && !s.slots[b].status.Unused? then s.slots[b].(status := Zombie) else s.slots[b]);
    s.(slots := slots)
  }

  lemma {:induction false} KillOthers(s: System, a: Id, i: nat) returns (es: seq<Step>)
    requires i <= MAX_AGENTS
    ensures EnabledRun(s, es) && Run(s, es) == Killed(s, a, i)
    decreases i
  {
    es := [];
    if i == 0 {
      assert Killed(s, a, 0).slots == s.slots;
    } else {
      es := KillOthers(s, a, i - 1);
      var b, t := i - 1, Killed(s, a, i - 1);
      if b == a || s.slots[b].status.Unused? {
        assert Killed(s, a, i).slots == t.slots;
      } else {
        assert Killed(s, a, i).slots == t.slots[b := t.slots[b].(status := Zombie)];
        OneStep(t, Destroy(b), []);
        RunThen(s, es, [Destroy(b)] + []);
        es := es + ([Destroy(b)] + []);
      }
    }
  }

  /** Agent a is the only one left, ready in the queue of hart k. */
  ghost predicate Alone(s: System, k: Hart, a: Id) {
    && s.slots[a].status.Runnable? && s.slots[a].runningCpu < 0 && s.slots[a].mail == 0 && a in s.queues[k]
    && (forall b: Id | b != a :: s.slots[b].status.Unused? || s.slots[b].status.Zombie?)
  }

  lemma AloneIsPicked(s: System, k: Hart, a: Id)
    requires Alone(s, k, a)
    ensures PickNext(s, k) == (s, Some(a))
  {
    hide MailPick, QueuePick, RoundPick;
    MailPickFinds(s, k, 0);
    QueuePickFinds(s, s.queues[k]);
  }

  /** Hart k comes to dispatch it, whatever it was doing. */
  lemma HartTakesIt(s: System, k: Hart, a: Id, g: Frame) returns (es: seq<Step>)
    requires Alone(s, k, a) && s.current[k] != Some(a) && (s.modes[k].User? ==> s.current[k].Some?)
    ensures EnabledRun(s, es)
    ensures var s' := Run(s, es);
            && s'.current == s.current[k := Some(a)]
            && s'.slots[a].status.Running? && s'.slots[a].home == s.slots[a].home
  {
    hide PickNext;
    if s.modes[k].Idle? {
      AloneIsPicked(s, k, a);
      OneStep(s, LoopPick(k), []);
      es := [LoopPick(k)] + [];
    } else if s.modes[k].Trapped? {
      AloneIsPicked(Requeue(s, k), k, a);
      OneStep(s, Decide(k), []);
      es := [Decide(k)] + [];
    } else {
      var s1 := Next(s, Trap(k, g));
      AloneIsPicked(Requeue(s1, k), k, a);
      OneStep(s1, Decide(k), []);
      OneStep(s, Trap(k, g), [Decide(k)] + []);
      es := [Trap(k, g)] + ([Decide(k)] + []);
    }
  }

  /** After the creation the others are destroyed and hart k takes the new agent. */
  lemma TakenBy(s: System, e: Step, k: Hart, g: Frame) returns (es: seq<Step>)
    requires Inv(s) && e.Create? && Enabled(s, e) && s.current[k] != Some(e.a)
    requires e.a in Next(s, e).queues[k]
    ensures EnabledRun(Next(s, e), es)
    ensures var s' := Run(Next(s, e), es);
            && s'.current == s.current[k := Some(e.a)]
            && s'.slots[e.a].status.Running? && s'.slots[e.a].home == e.home
  {
    CreatedState(s, e);
    assert GoodHart(s, k);
    hide Next, Enabled, Inv, EnabledRun, Run;
    var s1 := Next(s, e);
    var kills := KillOthers(s1, e.a, MAX_AGENTS);
    var s2 := Killed(s1, e.a, MAX_AGENTS);
    assert Alone(s2, k, e.a);
    var rest := HartTakesIt(s2, k, e.a, g);
    RunThen(s1, kills, rest);
    es := kills + rest;
  }

  /**
   The condition on creations is needed for safety itself: after a creation that breaks it, with the old home
   hart recording or only queueing the slot, some continuation reaches an unsafe state.
   */
  lemma UnsafeCreationBreaks(s: System, e: Step, g: Frame) returns (es: seq<Step>)
    requires Inv(s) && e.Create? && Enabled(s, e) && !SafeHome(s, e)
    ensures EnabledRun(Next(s, e), es) && !Safe(Run(Next(s, e), es))
  {
    CreatedState(s, e);
    var old_ := s.slots[e.a].home;
    assert GoodSlot(s, e.a);
    if h: Hart :| s.current[h] == Some(e.a) {
      assert GoodHart(s, h) && GoodHart(s, e.home) && GoodQueue(s, e.home);
      QueueHasRoom(s.queues[e.home], e.a);
      hide Inv, Next, Enabled, EnabledRun, Run;
      es := TakenBy(s, e, e.home, g);
      var s' := Run(Next(s, e), es);
      assert s'.current[h] == Some(e.a) == s'.current[e.home] && h != e.home;
    } else {
      hide Inv, Next, Enabled, EnabledRun, Run;
      es := TakenBy(s, e, old_, g);
      var s' := Run(Next(s, e), es);
      assert s'.slots[e.a].status.Running? && s'.current[e.home] != Some(e.a);
    }
  }
}
