/** Mailboxes over whole runs: first in, first out per queue, steer first, and what a faulting receive keeps. */
module MailboxRuns {
  import opened Base
  import opened Mailbox

  datatype Event = PushMsg(m: Msg) | PopMsg | CompactBox(keep: int)

  function Step(b: Box, e: Event): Box {
    match e
    case PushMsg(m) => Push(b, m).0
    case PopMsg => Pop(b).0
    case CompactBox(keep) => Compact(b, keep)
  }

  lemma StepKeepsValid(b: Box, e: Event)
    requires Valid(b)
    ensures Valid(Step(b, e))
  {
  }

  // ---------------------------------------------------------------- the log of a mailbox

  /**
   Everything a mailbox ever accepted, and how far it has been delivered: steer messages up to
   `steerOut`, normal ones up to `next` except those a compaction has replaced by `head`.
   */
  datatype Log = Log(steerIn: seq<Msg>, steerOut: nat, normalIn: seq<Msg>, next: nat, head: Option<Msg>)

  ghost predicate Sound(l: Log) {
    l.steerOut <= |l.steerIn| && l.next <= |l.normalIn|
  }

  function Pending(l: Log): seq<Msg>
    requires Sound(l)
  {
    (if l.head.Some? then [l.head.value] else []) + l.normalIn[l.next..]
  }

  function View(l: Log): Box
    requires Sound(l)
  {
    Box(l.steerIn[l.steerOut..], Pending(l))
  }

  function LogStep(l: Log, e: Event): (l': Log)
    requires Sound(l)
    ensures Sound(l')
  {
    match e
    case PushMsg(m) =>
      if Push(View(l), m).1 != 0 then l
      else if m.kind == MSG_STEER then l.(steerIn := l.steerIn + [m]) else l.(normalIn := l.normalIn + [m])
    case PopMsg =>
      if l.steerOut < |l.steerIn| then l.(steerOut := l.steerOut + 1)
      else if l.head.Some? then l.(head := None)
      else if l.next < |l.normalIn| then l.(next := l.next + 1)
      else l
    case CompactBox(keep) =>
      var n, k := |Pending(l)|, ClampKeep(keep);
      if n <= k then l
      else l.(head := Some(SummaryOf(Pending(l)[..n - k])), next := l.next + (n - k) - (if l.head.Some? then 1 else 0))
  }

  /** The mailbox is at every step what its log says. */
  lemma LogRefines(l: Log, e: Event)
    requires Sound(l)
    ensures View(LogStep(l, e)) == Step(View(l), e)
  {
    hide SummaryOf, Pending;
    match e
    case PushMsg(m) => PushRefines(l, m);
    case PopMsg => PopRefines(l);
    case CompactBox(keep) => CompactRefines(l, keep);
  }

  lemma PushRefines(l: Log, m: Msg)
    requires Sound(l)
    ensures View(LogStep(l, PushMsg(m))) == Push(View(l), m).0
  {
    var l' := LogStep(l, PushMsg(m));
    assert (l.steerIn + [m])[l.steerOut..] == l.steerIn[l.steerOut..] + [m];
    assert (l.normalIn + [m])[l.next..] == l.normalIn[l.next..] + [m];
    assert Pending(l.(normalIn := l.normalIn + [m])) == Pending(l) + [m];
  }

  lemma PopRefines(l: Log)
    requires Sound(l)
    ensures View(LogStep(l, PopMsg)) == Pop(View(l)).0
  {
    if l.steerOut >= |l.steerIn| && l.head.Some? {
      assert Pending(l)[1..] == l.normalIn[l.next..];
    }
  }

  lemma CompactRefines(l: Log, keep: int)
    requires Sound(l)
    ensures View(LogStep(l, CompactBox(keep))) == Compact(View(l), keep)
  {
    hide SummaryOf;
    var l' := LogStep(l, CompactBox(keep));
    var n, k := |Pending(l)|, ClampKeep(keep);
    if n > k {
      assert Pending(l)[n - k..] == l.normalIn[l'.next..];
    }
  }

  // ---------------------------------------------------------------- deliveries

  /** Where a delivered message came from. */
  datatype Source = Steer(i: nat) | Summary(m: Msg) | Normal(i: nat)

  function Taken(l: Log): Option<Source> {
    if l.steerOut < |l.steerIn| then Some(Steer(l.steerOut))
    else if l.head.Some? then Some(Summary(l.head.value))
    else if l.next < |l.normalIn| then Some(Normal(l.next))
    else None
  }

  function Resolve(l: Log, s: Source): Option<Msg> {
    match s
    case Steer(i) => if i < |l.steerIn| then Some(l.steerIn[i]) else None
    case Summary(m) => Some(m)
    case Normal(i) => if i < |l.normalIn| then Some(l.normalIn[i]) else None
  }

  /** A pop delivers what the log points at; a normal message only when no steer message waits. */
  lemma PopDelivers(l: Log)
    requires Sound(l)
    ensures Pop(View(l)).1 == (if Taken(l).Some? then Resolve(l, Taken(l).value) else None)
    ensures Taken(l).Some? && !Taken(l).value.Steer? ==> View(l).steer == []
  {
  }

  /** The sources of the messages a run delivers, in order. */
  function Outputs(l: Log, es: seq<Event>): seq<Source>
    requires Sound(l)
    decreases |es|
  {
    if es == [] then []
    else (if es[0].PopMsg? && Taken(l).Some? then [Taken(l).value] else []) + Outputs(LogStep(l, es[0]), es[1..])
  }

  function LogRun(l: Log, es: seq<Event>): (l': Log)
    requires Sound(l)
    ensures Sound(l')
    decreases |es|
  {
    if es == [] then l else LogRun(LogStep(l, es[0]), es[1..])
  }

  function BoxRun(b: Box, es: seq<Event>): Box
    decreases |es|
  {
    if es == [] then b else BoxRun(Step(b, es[0]), es[1..])
  }

  function SteerIndices(ss: seq<Source>): seq<nat> {
    if ss == [] then [] else (if ss[0].Steer? then [ss[0].i] else []) + SteerIndices(ss[1..])
  }

  function NormalIndices(ss: seq<Source>): seq<nat> {
    if ss == [] then [] else (if ss[0].Normal? then [ss[0].i] else []) + NormalIndices(ss[1..])
  }

  ghost predicate Consecutive(s: seq<nat>, lo: nat) {
    forall i | 0 <= i < |s| :: s[i] == lo + i
  }

  ghost predicate Increasing(s: seq<nat>, lo: nat, hi: nat) {
    && (forall i | 0 <= i < |s| :: lo <= s[i] < hi)
    && (forall i, j | 0 <= i < j < |s| :: s[i] < s[j])
  }

  /** The event sums up the i-th accepted normal message: a compaction replaces it, behind an older summary. */
  predicate SumsUp(l: Log, e: Event, i: nat)
    requires Sound(l)
  {
    e.CompactBox? && l.next <= i &&
    i - l.next + (if l.head.Some? then 1 else 0) < |Replaced(View(l), e.keep)|
  }

  predicate SummedUp(l: Log, es: seq<Event>, i: nat)
    requires Sound(l)
    decreases |es|
  {
    es != [] && (SumsUp(l, es[0], i) || SummedUp(LogStep(l, es[0]), es[1..], i))
  }

  lemma LogGrows(l: Log, es: seq<Event>)
    requires Sound(l)
    ensures var l' := LogRun(l, es);
            l.steerIn <= l'.steerIn && l.normalIn <= l'.normalIn && l.steerOut <= l'.steerOut && l.next <= l'.next
    decreases |es|
  {
    hide SummaryOf, Push;
    if es != [] {
      LogGrows(LogStep(l, es[0]), es[1..]);
    }
  }

  /**
   First in, first out over every run: the mailbox is its log, every accepted steer message is delivered
   exactly once and in order, and accepted normal messages are delivered in order, none twice.
   */
  lemma {:induction false} FifoOverRuns(l: Log, es: seq<Event>)
    requires Sound(l)
    ensures View(LogRun(l, es)) == BoxRun(View(l), es)
    ensures var out, l' := Outputs(l, es), LogRun(l, es);
            && Consecutive(SteerIndices(out), l.steerOut) && l'.steerOut == l.steerOut + |SteerIndices(out)|
            && Increasing(NormalIndices(out), l.next, l'.next)
    decreases |es|
  {
    hide SummaryOf, Push, Pop, Compact, View, LogStep, Step, Taken;
    if es != [] {
      var e := es[0];
      var l1 := LogStep(l, e);
      LogRefines(l, e);
      FifoOverRuns(l1, es[1..]);
      LogGrows(l1, es[1..]);
      StepOutputs(l, e);
      var rest := Outputs(l1, es[1..]);
      if e.PopMsg? && Taken(l).Some? {
        OutputsUnfold(Taken(l).value, rest);
      } else {
        assert Outputs(l, es) == rest;
      }
    }
  }

  /** The event delivers the i-th accepted normal message. */
  predicate Delivers(l: Log, e: Event, i: nat) {
    e.PopMsg? && Taken(l) == Some(Normal(i))
  }

  lemma StepPasses(l: Log, e: Event, i: nat)
    requires Sound(l)
    ensures l.next <= LogStep(l, e).next
    ensures l.next <= i < LogStep(l, e).next <==> Delivers(l, e, i) || SumsUp(l, e, i)
    ensures !(Delivers(l, e, i) && SumsUp(l, e, i))
  {
    hide SummaryOf, Push;
  }

  lemma DeliveredFirst(l: Log, es: seq<Event>, i: nat)
    requires Sound(l) && es != []
    ensures i in NormalIndices(Outputs(l, es)) <==>
            Delivers(l, es[0], i) || i in NormalIndices(Outputs(LogStep(l, es[0]), es[1..]))
  {
    hide LogStep, Taken;
    var rest := Outputs(LogStep(l, es[0]), es[1..]);
    if es[0].PopMsg? && Taken(l).Some? {
      OutputsUnfold(Taken(l).value, rest);
    } else {
      assert Outputs(l, es) == rest;
    }
  }

  /**
   The normal messages a run passes over without delivering them are exactly those its compactions summed up:
   every accepted message from the first pending one up to the next is one or the other, and none is both.
   */
  lemma {:induction false} GapsAreSummedUp(l: Log, es: seq<Event>, i: nat)
    requires Sound(l)
    ensures l.next <= LogRun(l, es).next
    ensures l.next <= i < LogRun(l, es).next <==> i in NormalIndices(Outputs(l, es)) || SummedUp(l, es, i)
    ensures !(i in NormalIndices(Outputs(l, es)) && SummedUp(l, es, i))
    decreases |es|
  {
    hide LogStep, Outputs, NormalIndices, Delivers, SumsUp;
    if es == [] {
      NothingDelivered(l);
    } else {
      StepPasses(l, es[0], i);
      DeliveredFirst(l, es, i);
      GapsAreSummedUp(LogStep(l, es[0]), es[1..], i);
    }
  }

  lemma NothingDelivered(l: Log)
    requires Sound(l)
    ensures NormalIndices(Outputs(l, [])) == []
  {
  }

  /** Without compactions normal messages are delivered without gaps. */
  lemma {:induction false} NoGapsWithoutCompaction(l: Log, es: seq<Event>)
    requires Sound(l) && forall i | 0 <= i < |es| :: !es[i].CompactBox?
    ensures var out, l' := NormalIndices(Outputs(l, es)), LogRun(l, es);
            Consecutive(out, l.next) && l'.next == l.next + |out|
    decreases |es|
  {
    hide SummaryOf, Push, Pop, Compact, View, LogStep, Step, Taken;
    if es != [] {
      var e := es[0];
      var l1 := LogStep(l, e);
      StepAdvances(l, e);
      NoGapsWithoutCompaction(l1, es[1..]);
      var rest := Outputs(l1, es[1..]);
      if e.PopMsg? && Taken(l).Some? {
        OutputsUnfold(Taken(l).value, rest);
      } else {
        assert Outputs(l, es) == rest;
      }
    }
  }

  lemma StepAdvances(l: Log, e: Event)
    requires Sound(l) && !e.CompactBox?
    ensures LogStep(l, e).next ==
            if e.PopMsg? && Taken(l).Some? && Taken(l).value.Normal? then l.next + 1 else l.next
    ensures e.PopMsg? && Taken(l).Some? && Taken(l).value.Normal? ==> Taken(l).value.i == l.next
  {
    hide SummaryOf, Push;
  }

  /** One step delivers the next steer message or the next normal one, and never moves the log back. */
  lemma StepOutputs(l: Log, e: Event)
    requires Sound(l)
    ensures var l' := LogStep(l, e);
            && l.next <= l'.next
            && (if e.PopMsg? && Taken(l).Some? then
                  match Taken(l).value
                  case Steer(i) => i == l.steerOut && l'.steerOut == l.steerOut + 1 && l'.next == l.next
                  case Normal(i) => i == l.next && l'.next == l.next + 1 && l'.steerOut == l.steerOut
                  case Summary(_) => l'.steerOut == l.steerOut && l'.next == l.next
                else l'.steerOut == l.steerOut)
  {
    hide SummaryOf, Push;
  }

  lemma OutputsUnfold(s: Source, rest: seq<Source>)
    ensures SteerIndices([s] + rest) == (if s.Steer? then [s.i] else []) + SteerIndices(rest)
    ensures NormalIndices([s] + rest) == (if s.Normal? then [s.i] else []) + NormalIndices(rest)
  {
    assert ([s] + rest)[1..] == rest;
  }

  // ---------------------------------------------------------------- compaction

  /** A queue of more than `keep` messages, cut to 0 to 16, becomes one summary and its last `keep` messages. */
  lemma CompactShape(b: Box, keep: int)
    requires Valid(b)
    ensures var b' := Compact(b, keep);
            var k := if keep < 0 then 0 else if keep > 16 then 16 else keep;
            && Valid(b') && b'.steer == b.steer && |b'.normal| <= MSG_CAPACITY
            && (|b.normal| <= k ==> b' == b)
            && (|b.normal| > k ==>
                  && |b'.normal| == k + 1 && b'.normal[1..] == b.normal[|b.normal| - k..]
                  && b'.normal[0].kind == MSG_SUMMARY
                  && ReadSummary(b'.normal[0].payload) == Some((|b.normal| - k, Kinds(b.normal[..|b.normal| - k]))))
  {
    hide SummaryText, PrintSummary, Padded, ReadSummary;
    var k := ClampKeep(keep);
    if |b.normal| > k {
      SummaryReadsBack(b.normal[..|b.normal| - k]);
    }
  }

  // ---------------------------------------------------------------- a receive that faults

  function Holds(b: Box): multiset<Msg> {
    multiset(b.steer) + multiset(b.normal)
  }

  function PushAll(b: Box, ms: seq<Msg>): Box
    decreases |ms|
  {
    if ms == [] then b else PushAll(Push(b, ms[0]).0, ms[1..])
  }

  /** The ring a message belongs in has no free slot. */
  predicate Full(b: Box, m: Msg) {
    if m.kind == MSG_STEER then |b.steer| >= MSG_STEER_CAPACITY else |b.normal| >= MSG_CAPACITY
  }

  lemma PushHolds(b: Box, m: Msg)
    ensures Push(b, m).1 == 0 <==> !Full(b, m)
    ensures Holds(Push(b, m).0) == Holds(b) + (if Full(b, m) then multiset{} else multiset{m})
    ensures Full(b, m) ==> Push(b, m).0 == b
  {
  }

  /**
   `agent_recv` whose copy to user space faults pushes the message back.  With other messages arriving in
   between, the mailbox keeps everything it held exactly when they have not filled the ring meanwhile.
   */
  lemma FaultingRecvConserves(b: Box, arriving: seq<Msg>)
    requires Pop(b).1.Some?
    ensures var m := Pop(b).1.value;
            var middle := PushAll(Pop(b).0, arriving);
            var after := Push(middle, m).0;
            Holds(after) == Holds(middle) + multiset{m} <==> !Full(middle, m)
    ensures Valid(b) && arriving == [] ==> Holds(Push(Pop(b).0, Pop(b).1.value).0) == Holds(b)
  {
    hide PushAll, Push, Holds;
    var m := Pop(b).1.value;
    PushHolds(PushAll(Pop(b).0, arriving), m);
    if Valid(b) {
      PushHolds(Pop(b).0, m);
      PopHolds(b);
    }
  }

  lemma PopHolds(b: Box)
    requires Valid(b) && Pop(b).1.Some?
    ensures Holds(Pop(b).0) + multiset{Pop(b).1.value} == Holds(b) && !Full(Pop(b).0, Pop(b).1.value)
  {
    var m := Pop(b).1.value;
    if |b.steer| > 0 {
      assert b.steer == [m] + b.steer[1..];
    } else {
      assert b.normal == [m] + b.normal[1..];
    }
  }

  /** A message arriving between the two halves of a faulting receive can cost the received one its place. */
  lemma ArrivalDisplaces(m: Msg, other: Msg)
    requires m.kind == MSG_STEER && other.kind == MSG_STEER
    ensures var b := Box([m, m, m, m], []);
            var middle := PushAll(Pop(b).0, [other]);
            Valid(b) && Push(middle, m) == (middle, ENOSPC)
  {
    var b := Box([m, m, m, m], []);
    assert Pop(b).0.steer == [m, m, m];
    assert [other][1..] == [];
    assert PushAll(Push(Pop(b).0, other).0, []) == Push(Pop(b).0, other).0;
  }

  // ---------------------------------------------------------------- conservation over runs

  /** What a compaction replaces by its summary. */
  function Replaced(b: Box, keep: int): seq<Msg> {
    if |b.normal| <= ClampKeep(keep) then [] else b.normal[..|b.normal| - ClampKeep(keep)]
  }

  /** Messages an event brings in: an accepted one, or a summary. */
  function Gained(b: Box, e: Event): multiset<Msg> {
    match e
    case PushMsg(m) => if Full(b, m) then multiset{} else multiset{m}
    case PopMsg => multiset{}
    case CompactBox(keep) => if Replaced(b, keep) == [] then multiset{} else multiset{SummaryOf(Replaced(b, keep))}
  }

  /** Messages an event takes out: a delivered one, or the ones summed up. */
  function Lost(b: Box, e: Event): multiset<Msg> {
    match e
    case PushMsg(m) => multiset{}
    case PopMsg => if Pop(b).1.Some? then multiset{Pop(b).1.value} else multiset{}
    case CompactBox(keep) => multiset(Replaced(b, keep))
  }

  lemma StepConserves(b: Box, e: Event)
    requires Valid(b)
    ensures Holds(b) + Gained(b, e) == Holds(Step(b, e)) + Lost(b, e)
  {
    hide SummaryOf;
    match e
    case PushMsg(m) => PushHolds(b, m);
    case PopMsg => if Pop(b).1.Some? { PopHolds(b); }
    case CompactBox(keep) =>
      var drop := |Replaced(b, keep)|;
      assert b.normal == b.normal[..drop] + b.normal[drop..];
      if drop > 0 {
        assert Step(b, e).normal == [SummaryOf(b.normal[..drop])] + b.normal[drop..];
      }
  }

  function GainedBy(b: Box, es: seq<Event>): multiset<Msg>
    decreases |es|
  {
    if es == [] then multiset{} else Gained(b, es[0]) + GainedBy(Step(b, es[0]), es[1..])
  }

  function LostBy(b: Box, es: seq<Event>): multiset<Msg>
    decreases |es|
  {
    if es == [] then multiset{} else Lost(b, es[0]) + LostBy(Step(b, es[0]), es[1..])
  }

  /**
   Over every run each message is accounted for: what was there, was accepted or was printed as a summary
   is still there, was delivered or was summed up.
   */
  lemma {:induction false} ConservedOverRuns(b: Box, es: seq<Event>)
    requires Valid(b)
    ensures Valid(BoxRun(b, es)) && Holds(b) + GainedBy(b, es) == Holds(BoxRun(b, es)) + LostBy(b, es)
    decreases |es|
  {
    hide Valid, Step, Gained, Lost, Holds;
    if es != [] {
      var e := es[0];
      StepKeepsValid(b, e);
      StepConserves(b, e);
      ConservedOverRuns(Step(b, e), es[1..]);
      Rearranged(Holds(b), Gained(b, e), GainedBy(Step(b, e), es[1..]), Holds(Step(b, e)), Lost(b, e),
                 LostBy(Step(b, e), es[1..]), Holds(BoxRun(b, es)));
    }
  }

  lemma Rearranged(a: multiset<Msg>, g: multiset<Msg>, gs: multiset<Msg>, b: multiset<Msg>, l: multiset<Msg>,
                   ls: multiset<Msg>, c: multiset<Msg>)
    requires a + g == b + l && b + gs == c + ls
    ensures a + (g + gs) == c + (l + ls)
  {
    assert a + (g + gs) == (a + g) + gs;
    assert (b + l) + gs == (b + gs) + l;
    assert (c + ls) + l == c + (l + ls);
  }
}
