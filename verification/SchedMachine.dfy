/** kernel/sched.c as it runs: run-queue arrays with shifting loops, and the scanning loops of `pick_next`. */
module SchedMachine {
  import opened Base
  import opened Sched
  import opened SchedProofs
  import opened SchedRuns
  import opened SchedHalt

  /** One row of `cpu_rq` with its `cpu_rq_count`. */
  class RunQueue {
    const ids: array<nat>
    var count: nat

    ghost predicate Valid()
      reads this
    {
      ids.Length == MAX_AGENTS && count <= MAX_AGENTS
    }

    ghost function Contents(): seq<nat>
      requires Valid()
      reads this, ids
    {
      ids[..count]
    }

    constructor ()
      ensures Valid() && Contents() == [] && fresh(ids)
    {
      ids := new nat[MAX_AGENTS];
      count := 0;
    }

    /** `sched_rq_add_locked` */
    method Add(id: nat)
      requires Valid()
      modifies this`count, ids
      ensures Valid() && Contents() == Sched.Add(old(Contents()), id)
    {
      var i := 0;
      while i < count
        invariant i <= count && id !in ids[..i]
      {
        if ids[i] == id {
          return;
        }
        i := i + 1;
      }
      if count >= MAX_AGENTS {
        return;
      }
      ids[count] := id;
      count := count + 1;
    }

    /** The inner loop of `sched_rq_remove_locked`: entries after i move down by one. */
    method CloseGap(i: nat)
      requires Valid() && i < count
      modifies this`count, ids
      ensures Valid() && Contents() == old(Contents())[..i] + old(Contents())[i + 1..]
    {
      ghost var q := Contents();
      var j := i + 1;
      while j < count
        invariant i + 1 <= j <= count && count == |q|
        invariant ids[..j - 1] == q[..i] + q[i + 1..j]
        invariant forall k | j - 1 <= k < count :: k == j - 1 || ids[k] == q[k]
      {
        ids[j - 1] := ids[j];
        j := j + 1;
        assert ids[..j - 1] == q[..i] + q[i + 1..j];
      }
      count := count - 1;
    }

    /** `sched_rq_remove_locked` */
    method Remove(id: nat)
      requires Valid()
      modifies this`count, ids
      ensures Valid() && Contents() == Without(old(Contents()), id)
    {
      ghost var q := Contents();
      var i := 0;
      while i < count
        invariant i <= count && Contents() == q && id !in q[..i]
      {
        if ids[i] == id {
          WithoutAt(q, id, i);
          CloseGap(i);
          return;
        }
        i := i + 1;
      }
      WithoutAbsent(q, id);
    }

    /** `pick_from_runqueues` on this queue, given the agents. */
    method PickFirst(s: System) returns (a: Option<nat>)
      requires Valid()
      ensures a == QueuePick(s, Contents())
    {
      ghost var q := Contents();
      var i := 0;
      while i < count
        invariant i <= count && QueuePick(s, q) == QueuePick(s, q[i..])
      {
        if ids[i] < MAX_AGENTS && s.slots[ids[i]].status == Runnable && s.slots[ids[i]].runningCpu < 0 {
          return Some(ids[i]);
        }
        i := i + 1;
      }
      a := None;
    }
  }

  lemma {:induction false} WithoutAt(q: seq<nat>, id: nat, i: nat)
    requires i < |q| && q[i] == id && id !in q[..i]
    ensures Without(q, id) == q[..i] + q[i + 1..]
  {
    if i > 0 {
      assert q[0] in q[..i] && q[..i] == [q[0]] + q[1..][..i - 1];
      WithoutAt(q[1..], id, i - 1);
    }
  }

  lemma {:induction false} WithoutAbsent(q: seq<nat>, id: nat)
    requires id !in q
    ensures Without(q, id) == q
  {
    if q != [] {
      WithoutAbsent(q[1..], id);
    }
  }

  class Scheduler {
    var slots: seq<Slot>
    const rq0: RunQueue
    const rq1: RunQueue
    const rq2: RunQueue
    const rq3: RunQueue
    var current: seq<Option<nat>>
    var modes: seq<Mode>
    var rrNext: nat

    /** The state `sched_start` leaves: init on the boot hart, nothing queued. */
    constructor (init: Id, tf: Frame)
      ensures Valid() && State() == Boot(init, tf) && fresh(Repr())
    {
      var free := seq(MAX_AGENTS, _ => Slot(Unused, -1, 0, Frame([]), 0));
      slots := free[init := Slot(Running, 0, 0, tf, 0)];
      rq0 := new RunQueue();
      rq1 := new RunQueue();
      rq2 := new RunQueue();
      rq3 := new RunQueue();
      current := [Some(init), None, None, None];
      modes := [User, Idle, Idle, Idle];
      rrNext := 0;
    }

    ghost function Repr(): set<object>
      reads this
    {
      {this, rq0, rq1, rq2, rq3, rq0.ids, rq1.ids, rq2.ids, rq3.ids}
    }

    ghost predicate Valid()
      reads Repr()
    {
      && rq0.Valid() && rq1.Valid() && rq2.Valid() && rq3.Valid()
      && rq0 != rq1 && rq0 != rq2 && rq0 != rq3 && rq1 != rq2 && rq1 != rq3 && rq2 != rq3
      && rq0.ids != rq1.ids && rq0.ids != rq2.ids && rq0.ids != rq3.ids
      && rq1.ids != rq2.ids && rq1.ids != rq3.ids && rq2.ids != rq3.ids
      && Sized(Abstract())
    }

    ghost function Abstract(): Sys
      reads this, rq0, rq1, rq2, rq3, rq0.ids, rq1.ids, rq2.ids, rq3.ids
      requires rq0.Valid() && rq1.Valid() && rq2.Valid() && rq3.Valid()
    {
      Sys(slots, [rq0.Contents(), rq1.Contents(), rq2.Contents(), rq3.Contents()], current, modes, rrNext)
    }

    ghost function State(): System
      requires Valid()
      reads Repr()
    {
      Abstract()
    }

    function Row(h: Hart): RunQueue {
      if h == 0 then rq0 else if h == 1 then rq1 else if h == 2 then rq2 else rq3
    }

    /** An agent joins the queue of its home hart. */
    method QueueAgent(a: Id)
      requires Valid()
      modifies Repr() - {this}
      ensures Valid() && State() == Enqueue(old(State()), a)
    {
      var row := Row(QueueOf(slots[a].home));
      row.Add(a);
    }

    /** `sched_notify_runnable` */
    method NotifyAgent(a: Id)
      requires Valid()
      modifies Repr()
      ensures Valid() && State() == NotifyRunnable(old(State()), a)
    {
      if slots[a].status == Zombie {
        return;
      }
      slots := slots[a := slots[a].(status := Runnable, runningCpu := -1)];
      QueueAgent(a);
    }
  
    /** The first loop of `pick_next`. */
    method ScanMail(h: Hart) returns (a: Option<nat>)
      requires Valid()
      ensures a == MailPick(State(), h, 0)
    {
      var i := 0;
      while i < MAX_AGENTS
        invariant i <= MAX_AGENTS && MailPick(State(), h, 0) == MailPick(State(), h, i)
      {
        var x := slots[i];
        if x.status != Unused && x.status != Zombie && x.status != Created && x.home == h && x.mail > 0 {
          return Some(i);
        }
        i := i + 1;
      }
      a := None;
    }

    /** The last loop of `pick_next`. */
    method ScanRound(h: Hart) returns (a: Option<nat>)
      requires Valid()
      ensures a == RoundPick(State(), h, 0)
    {
      var pass := 0;
      while pass < MAX_AGENTS
        invariant pass <= MAX_AGENTS && RoundPick(State(), h, 0) == RoundPick(State(), h, pass)
      {
        var i := (rrNext + pass) % MAX_AGENTS;
        if slots[i].status == Runnable && slots[i].home == h {
          return Some(i);
        }
        pass := pass + 1;
      }
      a := None;
    }

    /** The queue scan of `pick_next`. */
    method ScanQueue(h: Hart) returns (a: Option<nat>)
      requires Valid()
      ensures a == QueuePick(State(), State().queues[h])
    {
      var row := Row(h);
      var view := Sys(slots, [[], [], [], []], current, modes, rrNext);
      a := row.PickFirst(view);
      QueuePickBySlots(view, State(), State().queues[h]);
    }

    /** `pick_next` */
    method PickAgent(h: Hart) returns (next: Option<nat>)
      requires Valid()
      modifies this
      ensures Valid() && (State(), next) == PickNext(old(State()), h)
    {
      next := ScanMail(h);
      if next.Some? {
        slots := slots[next.value := slots[next.value].(status := Runnable, runningCpu := -1)];
        return;
      }
      next := ScanQueue(h);
      if next.Some? {
        return;
      }
      next := ScanRound(h);
      if next.Some? {
        rrNext := (next.value + 1) % MAX_AGENTS;
      }
    }

    /** The end of `schedule_trap` and of `sched_cpu_run_loop`. */
    method DispatchAgent(h: Hart, a: Id)
      requires Valid()
      modifies Repr()
      ensures Valid() && State() == Dispatch(old(State()), h, a)
    {
      current := current[h := Some(a)];
      modes := modes[h := User];
      slots := slots[a := slots[a].(status := Running, runningCpu := h)];
      var row := Row(QueueOf(slots[a].home));
      row.Remove(a);
    }

    /** `schedule_trap` before picking: save the trapped frame, requeue a running agent. */
    method RequeueCurrent(h: Hart)
      requires Valid() && modes[h].Trapped?
      modifies Repr()
      ensures Valid() && State() == Requeue(old(State()), h)
    {
      if current[h].Some? {
        var a := current[h].value;
        slots := slots[a := slots[a].(tf := modes[h].tf)];
        if slots[a].status == Running {
          slots := slots[a := slots[a].(status := Runnable, runningCpu := -1)];
          QueueAgent(a);
        }
      }
    }

    /** `schedule_trap`, one pass of its loop. */
    method Reschedule(h: Hart)
      requires Valid() && modes[h].Trapped?
      modifies Repr()
      ensures Valid() && State() == Next(old(State()), Decide(h))
    {
      hide Requeue, PickNext, Dispatch;
      RequeueCurrent(h);
      var next := PickAgent(h);
      if next.Some? {
        DispatchAgent(h, next.value);
      }
    }

    /** Entry into `schedule_trap`: the trapped frame is saved with the agent that ran. */
    method EnterTrap(h: Hart, f: Frame)
      requires Valid() && Enabled(State(), Trap(h, f))
      modifies this
      ensures Valid() && State() == Next(old(State()), Trap(h, f))
    {
      var a := current[h].value;
      slots := slots[a := slots[a].(tf := f)];
      modes := modes[h := Trapped(f)];
    }

    /** `agent_exit`, then entry into `schedule_trap`. */
    method ExitCurrent(h: Hart, f: Frame)
      requires Valid() && Enabled(State(), Exit(h, f))
      modifies this
      ensures Valid() && State() == Next(old(State()), Exit(h, f))
    {
      var a := current[h].value;
      slots := slots[a := slots[a].(status := Zombie)];
      slots := slots[a := slots[a].(runningCpu := -1)];
      slots := slots[a := slots[a].(tf := f)];
      modes := modes[h := Trapped(f)];
    }

    /** `agent_destroy` */
    method DestroyAgent(id: int) returns (rc: int)
      requires Valid()
      modifies this
      ensures Valid()
      ensures rc == 0 <==> 0 <= id < MAX_AGENTS && !old(slots[id].status.Unused?)
      ensures rc == 0 ==> Enabled(old(State()), Destroy(id)) && State() == Next(old(State()), Destroy(id))
      ensures rc != 0 ==> rc == ENOENT && State() == old(State())
    {
      if id < 0 || id >= MAX_AGENTS || slots[id].status == Unused {
        return ENOENT;
      }
      slots := slots[id := slots[id].(status := Zombie)];
      rc := 0;
    }

    /** `agent_alloc_id`: the first slot after slot 0 that is unused or a zombie. */
    method AllocId() returns (id: int)
      requires Valid()
      ensures id == -1 <==> forall a: Id | a > 0 :: !Free(slots[a])
      ensures id != -1 ==> 0 < id < MAX_AGENTS && Free(slots[id]) && forall a: Id | 0 < a < id :: !Free(slots[a])
    {
      for i := 1 to MAX_AGENTS
        invariant forall a: Id | 0 < a < i :: !Free(slots[a])
      {
        if slots[i].status == Unused || slots[i].status == Zombie {
          return i;
        }
      }
      id := -1;
    }

    /** `agent_create` once its arguments are copied in and its stack is set up with frame f. */
    method CreateAgent(f: Frame, online: nat) returns (rc: int)
      requires Valid() && online <= HARTS
      modifies Repr()
      ensures Valid()
      ensures rc == ENOSPC <==> forall a: Id | a > 0 :: !Free(old(slots[a]))
      ensures rc == ENOSPC ==> State() == old(State())
      ensures rc != ENOSPC ==>
                && 0 < rc < MAX_AGENTS
                && var home := rc % (if online < 1 then 1 else online);
                Enabled(old(State()), Create(rc, home, f)) && State() == Next(old(State()), Create(rc, home, f))
    {
      hide NotifyRunnable;
      var id := AllocId();
      if id < 0 {
        return ENOSPC;
      }
      var ncpu := if online < 1 then 1 else online;
      slots := slots[id := Slot(Runnable, -1, id % ncpu, f, 0)];
      NotifyAgent(id);
      rc := id;
    }

    /** `sched_has_runnable` */
    method AnyRunnable() returns (found: bool)
      requires Valid()
      ensures found == HasRunnable(State(), 0)
    {
      for i := 0 to MAX_AGENTS
        invariant HasRunnable(State(), 0) == HasRunnable(State(), i)
      {
        var x := slots[i];
        if x.status != Unused && x.status != Zombie && x.status != Created && x.status != Running {
          if x.status == Runnable || x.mail > 0 {
            return true;
          }
        }
      }
      found := false;
    }

    /** `sched_system_done` */
    method CheckDone() returns (done: bool)
      requires Valid()
      ensures done == SystemDone(State())
    {
      var active := false;
      for i := 1 to MAX_AGENTS
        invariant Active(State(), 1) == (active || Active(State(), i))
      {
        if slots[i].status != Unused && slots[i].status != Zombie {
          active := true;
        }
      }
      var runnable := AnyRunnable();
      done := !active && !runnable;
    }

    /** `sched_cpu_run_loop`, one pass. */
    method RunLoopPass(h: Hart)
      requires Valid() && modes[h].Idle?
      modifies Repr()
      ensures Valid() && State() == Next(old(State()), LoopPick(h))
    {
      hide PickNext, Dispatch;
      var next := PickAgent(h);
      if next.Some? {
        DispatchAgent(h, next.value);
      }
    }
  }

  /** A slot `agent_alloc_id` may hand out. */
  predicate Free(x: Slot) {
    x.status.Unused? || x.status.Zombie?
  }

  lemma {:induction false} QueuePickBySlots(s: System, s': System, q: seq<nat>)
    requires s.slots == s'.slots
    ensures QueuePick(s, q) == QueuePick(s', q)
  {
    if q != [] {
      QueuePickBySlots(s, s', q[1..]);
    }
  }
}
