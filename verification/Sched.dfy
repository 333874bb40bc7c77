/**
 The multi-hart scheduler of kernel/sched.c and the agent life cycle of kernel/agent.c, as atomic steps
 that any hart may take in any order.  A region under `sched_lock` is one step.
 */
module Sched {
  import opened Base

  const MAX_AGENTS := 12
  const HARTS := 4

  /** The saved registers of an agent. */
  datatype Frame = Frame(regs: seq<nat>)

  datatype Status = Unused | Created | Runnable | Running | Waiting | Zombie

  /** The fields of `struct agent` the scheduler reads; `mail` counts the messages in its inbox. */
  datatype Slot = Slot(status: Status, runningCpu: int, home: int, tf: Frame, mail: nat)

  /** Where a hart is: in user code, in `schedule_trap`'s loop with a trapped frame, or in the run loop. */
  datatype Mode = User | Trapped(tf: Frame) | Idle

  datatype Sys = Sys(
    slots: seq<Slot>, queues: seq<seq<nat>>, current: seq<Option<nat>>, modes: seq<Mode>, rrNext: nat)

  predicate Sized(s: Sys) {
    && |s.slots| == MAX_AGENTS && |s.queues| == HARTS && |s.current| == HARTS && |s.modes| == HARTS
    && (forall h | 0 <= h < HARTS && s.current[h].Some? :: s.current[h].value < MAX_AGENTS)
  }

  type System = s: Sys | Sized(s) witness
    Sys(seq(MAX_AGENTS, _ => Slot(Unused, -1, 0, Frame([]), 0)), [[], [], [], []],
        [None, None, None, None], [Idle, Idle, Idle, Idle], 0)

  type Hart = h: nat | h < HARTS
  type Id = a: nat | a < MAX_AGENTS

  // ---------------------------------------------------------------- run queues

  function QueueOf(home: int): Hart {
    if 0 <= home < HARTS then home else 0
  }

  /** `sched_rq_add_locked` on one queue. */
  function Add(q: seq<nat>, id: nat): seq<nat> {
    if id in q || |q| >= MAX_AGENTS then q else q + [id]
  }

  /** `sched_rq_remove_locked` on one queue: the first occurrence goes. */
  function Without(q: seq<nat>, id: nat): seq<nat> {
    if q == [] then [] else if q[0] == id then q[1..] else [q[0]] + Without(q[1..], id)
  }

  function Enqueue(s: System, a: Id): System {
    var h := QueueOf(s.slots[a].home);
    s.(queues := s.queues[h := Add(s.queues[h], a)])
  }

  // ---------------------------------------------------------------- picking

  /** `sched_agent_has_inbox` */
  predicate Live(x: Slot) {
    !x.status.Unused? && !x.status.Zombie? && !x.status.Created?
  }

  predicate HasMail(x: Slot, h: Hart) {
    Live(x) && x.home == h && x.mail > 0
  }

  /** The first loop of `pick_next`, from slot i on. */
  function MailPick(s: System, h: Hart, i: nat): Option<Id>
    requires i <= MAX_AGENTS
    decreases MAX_AGENTS - i
  {
    if i == MAX_AGENTS then None else if HasMail(s.slots[i], h) then Some(i) else MailPick(s, h, i + 1)
  }

  predicate Dispatchable(s: System, id: nat) {
    id < MAX_AGENTS && s.slots[id].status.Runnable? && s.slots[id].runningCpu < 0
  }

  /** `pick_from_runqueues` */
  function QueuePick(s: System, q: seq<nat>): Option<Id> {
    if q == [] then None else if Dispatchable(s, q[0]) then Some(q[0]) else QueuePick(s, q[1..])
  }

  /** The last loop of `pick_next`, from pass p on. */
  function RoundPick(s: System, h: Hart, p: nat): Option<Id>
    requires p <= MAX_AGENTS
    decreases MAX_AGENTS - p
  {
    if p == MAX_AGENTS then None
    else
      var i := (s.rrNext + p) % MAX_AGENTS;
      if s.slots[i].status.Runnable? && s.slots[i].home == h then Some(i) else RoundPick(s, h, p + 1)
  }

  /** `pick_next` */
  function PickNext(s: System, h: Hart): (System, Option<Id>) {
    match MailPick(s, h, 0)
    case Some(a) => (s.(slots := s.slots[a := s.slots[a].(status := Runnable, runningCpu := -1)]), Some(a))
    case None =>
      match QueuePick(s, s.queues[h])
      case Some(a) => (s, Some(a))
      case None =>
        match RoundPick(s, h, 0)
        case Some(a) => (s.(rrNext := (a + 1) % MAX_AGENTS), Some(a))
        case None => (s, None)
  }

  // ---------------------------------------------------------------- steps

  /** The end of `schedule_trap` and of the run loop: agent a runs on hart h. */
  function Dispatch(s: System, h: Hart, a: Id): System {
    var q := QueueOf(s.slots[a].home);
    s.(slots := s.slots[a := s.slots[a].(status := Running, runningCpu := h)],
       queues := s.queues[q := Without(s.queues[q], a)],
       current := s.current[h := Some(a)],
       modes := s.modes[h := User])
  }

  /** `sched_notify_runnable` */
  function NotifyRunnable(s: System, a: Id): System {
    if s.slots[a].status.Zombie? then s
    else Enqueue(s.(slots := s.slots[a := s.slots[a].(status := Runnable, runningCpu := -1)]), a)
  }

  /** The part of `schedule_trap`'s loop before picking: save the frame, requeue a running agent. */
  function Requeue(s: System, h: Hart): System {
    match s.current[h]
    case None => s
    case Some(a) =>
      var s1 := if s.modes[h].Trapped? then s.(slots := s.slots[a := s.slots[a].(tf := s.modes[h].tf)]) else s;
      if s1.slots[a].status.Running?
      then Enqueue(s1.(slots := s1.slots[a := s1.slots[a].(status := Runnable, runningCpu := -1)]), a)
      else s1
  }

  function Pick(s: System, h: Hart): System {
    var (s1, next) := PickNext(s, h);
    if next.Some? then Dispatch(s1, h, next.value) else s1
  }

  datatype Step =
    | Trap(h: Hart, f: Frame)                  // yield or timer: save and enter schedule_trap
    | Exit(h: Hart, f: Frame)                  // agent_exit, then schedule_trap
    | Syscall(h: Hart, f: Frame)               // any other call: save and resume the same agent
    | Decide(h: Hart)                          // one pass of schedule_trap's loop
    | LoopPick(h: Hart)                        // one pass of sched_cpu_run_loop
    | Notify(a: Id)
    | Deliver(a: Id)                           // a message is pushed into the inbox
    | Recv(h: Hart)                            // the current agent takes one message
    | Destroy(a: Id)
    | Create(a: Id, home: Hart, f: Frame)

  predicate Enabled(s: System, e: Step) {
    match e
    case Trap(h, _) => s.modes[h].User? && s.current[h].Some?
    case Exit(h, _) => s.modes[h].User? && s.current[h].Some?
    case Syscall(h, _) => s.modes[h].User? && s.current[h].Some?
    case Recv(h) => s.modes[h].User? && s.current[h].Some?
    case Decide(h) => s.modes[h].Trapped?
    case LoopPick(h) => s.modes[h].Idle?
    case Notify(a) => !s.slots[a].status.Unused?
    case Deliver(a) => !s.slots[a].status.Unused?
    case Destroy(a) => !s.slots[a].status.Unused?
    case Create(a, _, _) => a > 0 && (s.slots[a].status.Unused? || s.slots[a].status.Zombie?)
  }

  function SaveFrame(s: System, h: Hart, f: Frame): System {
    if s.current[h].None? then s
    else s.(slots := s.slots[s.current[h].value := s.slots[s.current[h].value].(tf := f)])
  }

  function Next(s: System, e: Step): System
    requires Enabled(s, e)
  {
    match e
    case Trap(h, f) => SaveFrame(s, h, f).(modes := s.modes[h := Trapped(f)])
    case Syscall(h, f) => SaveFrame(s, h, f)
    case Exit(h, f) =>
      var a := s.current[h].value;
      s.(slots := s.slots[a := s.slots[a].(status := Zombie, runningCpu := -1, tf := f)],
         modes := s.modes[h := Trapped(f)])
    case Decide(h) => Pick(Requeue(s, h), h)
    case LoopPick(h) => Pick(s, h)
    case Notify(a) => NotifyRunnable(s, a)
    case Deliver(a) => s.(slots := s.slots[a := s.slots[a].(mail := s.slots[a].mail + 1)])
    case Recv(h) =>
      var a := s.current[h].value;
      if s.slots[a].mail == 0 then s else s.(slots := s.slots[a := s.slots[a].(mail := s.slots[a].mail - 1)])
    case Destroy(a) => s.(slots := s.slots[a := s.slots[a].(status := Zombie)])
    case Create(a, home, f) => NotifyRunnable(s.(slots := s.slots[a := Slot(Runnable, -1, home, f, 0)]), a)
  }

  /** The agent a hart starts or resumes by this step, if the step hands out a frame. */
  function Dispatched(s: System, e: Step): Option<Id>
    requires Enabled(s, e)
  {
    match e
    case Decide(h) => PickNext(Requeue(s, h), h).1
    case LoopPick(h) => PickNext(s, h).1
    case Syscall(h, _) => s.current[h]
    case _ => None
  }

  // ---------------------------------------------------------------- runs

  ghost predicate EnabledRun(s: System, es: seq<Step>)
    decreases |es|
  {
    es == [] || (Enabled(s, es[0]) && EnabledRun(Next(s, es[0]), es[1..]))
  }

  function Run(s: System, es: seq<Step>): System
    requires EnabledRun(s, es)
    decreases |es|
  {
    if es == [] then s else Run(Next(s, es[0]), es[1..])
  }
}
