/**
 The reference machine for copy-on-write, with a state of its own: every agent has its pages, every page its
 bytes, and no frame exists.  What the kernel does in a run is read off once as a list of acts; the machine then
 runs on its own state alone and stays equal to what the agents read, on their private pages and on the pages of
 their programs.  A program page is there for all agents whose tables share its slot, so an act on it names them.
 */
module CopyMachine {
  import opened Base
  import opened PageTable
  import opened AddressSpaces
  import opened CowProofs
  import opened CowSteps
  import opened SpaceSetup
  import opened SharedPages
  import opened EagerCopy

  type Pages = map<int, seq<byte>>

  datatype Act =
    | Idle
    | Start(pages: Pages)                                        // a new agent with these pages
    | Provide(who: set<int>, v: nat, bytes: seq<byte>)           // a page these agents did not have
    | Duplicate(a: nat, dst: nat, src: nat)                      // one page becomes a copy of another
    | Write(cells: set<(int, int)>, off: nat, b: byte)           // one byte of these pages of these agents

  function Written(a: int, p: Pages, cells: set<(int, int)>, off: nat, b: byte): Pages
    requires off < PAGE_SIZE
  {
    map v | v in p :: if (a, v) in cells && |p[v]| == PAGE_SIZE then Poke(p[v], off, b) else p[v]
  }

  /** One act of the reference machine. */
  function Perform(ps: seq<Pages>, act: Act): (r: seq<Pages>)
    ensures |r| == |ps| + if act.Start? then 1 else 0
  {
    match act
    case Idle => ps
    case Start(pages) => ps + [pages]
    case Provide(who, v, bytes) =>
      seq(|ps|, a requires 0 <= a < |ps| => if a in who then ps[a][v := bytes] else ps[a])
    case Duplicate(a, dst, src) => if a < |ps| && src in ps[a] then ps[a := ps[a][dst := ps[a][src]]] else ps
    case Write(cells, off, b) =>
      if off < PAGE_SIZE then seq(|ps|, a requires 0 <= a < |ps| => Written(a, ps[a], cells, off, b)) else ps
  }

  function PerformAll(ps: seq<Pages>, acts: seq<Act>): seq<Pages>
    decreases |acts|
  {
    if acts == [] then ps else PerformAll(Perform(ps, acts[0]), acts[1..])
  }

  // ---------------------------------------------------------------- what agents read

  /** What agent a reads on page v: a private page of its own, or a common page shown to user code. */
  function Shown(s: Vm, a: nat, v: nat): Option<seq<byte>>
    requires a < |s.spaces|
  {
    if Private(s.f, v) then Content(s, a, v)
    else if Common(s.f, v) then Reading(s, s.spaces[a].root, v)
    else None
  }

  ghost function PagesOf(s: Vm, a: nat): Pages
    requires a < |s.spaces|
  {
    map v: nat | v < VPN_COUNT && Shown(s, a, v).Some? :: Shown(s, a, v).value
  }

  ghost function AllPages(s: Vm): (ps: seq<Pages>)
    ensures |ps| == |s.spaces| && forall a | 0 <= a < |ps| :: ps[a] == PagesOf(s, a)
  {
    seq(|s.spaces|, a requires 0 <= a < |s.spaces| => PagesOf(s, a))
  }

  function Get(p: Pages, v: int): Option<seq<byte>> {
    if v in p then Some(p[v]) else None
  }

  lemma GetPages(s: Vm, a: nat, v: int)
    requires a < |s.spaces|
    ensures Get(PagesOf(s, a), v) == if v >= 0 then Shown(s, a, v) else None
  {
  }

  lemma SamePages(p: Pages, q: Pages)
    requires forall v :: Get(p, v) == Get(q, v)
    ensures p == q
  {
    forall v ensures v in p <==> v in q {
      assert Get(p, v) == Get(q, v);
    }
    forall v | v in p ensures p[v] == q[v] {
      assert Get(p, v) == Get(q, v);
    }
  }

  // ---------------------------------------------------------------- the acts of a run

  /** The agents whose tables share the slot above page v with agent a's. */
  ghost function Sharers(s: Vm, a: nat, v: nat): set<int>
    requires a < |s.spaces|
  {
    set b | 0 <= b < |s.spaces| && SharesSlot(s.f, s.spaces[a].root, s.spaces[b].root, Index(v, 2))
  }

  predicate OnFrame(s: Vm, b: int, w: int, ppn: nat) {
    0 <= b < |s.spaces| && 0 <= w && Common(s.f, w) && Reading(s, s.spaces[b].root, w).Some? &&
    Lookup(s.f, s.spaces[b].root, w).value.ppn == ppn
  }

  /** The common pages, of any agent, on a frame. */
  ghost function Cells(s: Vm, ppn: nat): set<(int, int)> {
    set b: int, w: int | 0 <= b < |s.spaces| && 0 <= w < VPN_COUNT && OnFrame(s, b, w, ppn) :: (b, w)
  }

  lemma InCells(s: Vm, ppn: nat, b: int, w: int)
    ensures (b, w) in Cells(s, ppn) <==> OnFrame(s, b, w, ppn)
  {
  }

  /** What the event comes to: nothing if the kernel refuses it or no agent can see it, else one act. */
  ghost function ActOf(s: Vm, e: Event): Act
    requires Allowed(s, e)
  {
    match e
    case Grow(_) => Idle
    case NewAgent(id) =>
      if |s.spaces| < |Setup(s, id).0.spaces| then Start(PagesOf(Setup(s, id).0, |s.spaces|)) else Idle
    case MapHeap(a, va) =>
      if Private(s.f, VpnOf(va)) && Content(s, a, VpnOf(va)).None? && HeapMap(s, a, va).1 == 0
      then Provide({a}, VpnOf(va), NextPage(s)) else Idle
    case Fault(a, va, write) =>
      if Private(s.f, VpnOf(va)) && Content(s, a, VpnOf(va)).None? && HeapFault(s, a, va, write).1
      then Provide({a}, VpnOf(va), NextPage(s)) else Idle
    case AliasHeap(a, dst, src) =>
      if dst >= 0 && src >= 0 && Alias(s, a, dst, src).1 == 0
      then Duplicate(a, HeapVpn(s.spaces[a]) + dst, HeapVpn(s.spaces[a]) + src) else Idle
    case StoreByte(a, va, b) =>
      if !CanStore(s, a, va) then Idle
      else if Private(s.f, VpnOf(va)) then Write({(a, VpnOf(va))}, va % PAGE_SIZE, b)
      else Write(Cells(s, At(s, a, VpnOf(va)).value.ppn), va % PAGE_SIZE, b)
    case LoadPageAt(a, va, perm, content) =>
      if LoadPage(s, a, va, perm, content).1 != 0 then Idle
      else if Private(s.f, VpnOf(va)) then Provide({a}, VpnOf(va), content)
      else if perm.u then Provide(Sharers(s, a, VpnOf(va)), VpnOf(va), content)
      else Idle
  }

  ghost function ActsOf(s: Vm, es: seq<Event>): seq<Act>
    requires AllowedRun(s, es)
    decreases |es|
  {
    if es == [] then [] else [ActOf(s, es[0])] + ActsOf(Step(s, es[0]), es[1..])
  }

  // ---------------------------------------------------------------- refinement

  /** What agent b reads on page v after the event, step by step. */
  function Next(s: Vm, e: Event, b: nat, v: nat): Option<seq<byte>>
    requires Allowed(s, e) && b < |s.spaces|
  {
    if Private(s.f, v) then Eager(s, e, b, v)
    else if Common(s.f, v) then EagerCommon(s, e, s.spaces[b].root, v)
    else None
  }

  lemma IdleDoes(ps: seq<Pages>)
    ensures Perform(ps, Idle) == ps
  {
  }

  lemma GetProvided(ps: seq<Pages>, who: set<int>, x: nat, bytes: seq<byte>, b: nat, v: int)
    requires b < |ps|
    ensures Get(Perform(ps, Provide(who, x, bytes))[b], v) == if b in who && v == x then Some(bytes) else Get(ps[b], v)
  {
  }

  lemma GetWritten(ps: seq<Pages>, cells: set<(int, int)>, off: nat, x: byte, b: nat, v: int)
    requires b < |ps| && off < PAGE_SIZE
    ensures var now := Get(ps[b], v);
            Get(Perform(ps, Write(cells, off, x))[b], v) ==
            if now.Some? && (b, v) in cells && |now.value| == PAGE_SIZE then Some(Poke(now.value, off, x)) else now
  {
    hide Poke;
  }

  lemma StoreActs(s: Vm, a: nat, va: nat, x: byte, b: nat, v: int)
    requires AddressSpaces.Inv(s) && a < |s.spaces| && b < |s.spaces|
    ensures var e := StoreByte(a, va, x);
            Get(Perform(AllPages(s), ActOf(s, e))[b], v) == if v >= 0 then Next(s, e, b, v) else None
  {
    hide AddressSpaces.Inv, PagesOf, Content, Lookup, VpnOf, Poke, Perform, Get, Cells, Private;
    GetPages(s, b, v);
    IdleDoes(AllPages(s));
    var u := VpnOf(va);
    if CanStore(s, a, va) {
      if Private(s.f, u) {
        GetWritten(AllPages(s), {(a, u)}, va % PAGE_SIZE, x, b, v);
      } else {
        var ppn := At(s, a, u).value.ppn;
        InCells(s, ppn, b, v);
        GetWritten(AllPages(s), Cells(s, ppn), va % PAGE_SIZE, x, b, v);
      }
    }
  }

  lemma LoadActs(s: Vm, e: Event, b: nat, v: int)
    requires AddressSpaces.Inv(s) && e.LoadPageAt? && Allowed(s, e) && b < |s.spaces|
    ensures Get(Perform(AllPages(s), ActOf(s, e))[b], v) == if v >= 0 then Next(s, e, b, v) else None
  {
    hide AddressSpaces.Inv, PagesOf, Content, Lookup, VpnOf, Perform, Get, LoadPage, Private, AllRoots, Reading, Index,
         SharesSlot;
    GetPages(s, b, v);
    IdleDoes(AllPages(s));
    var u := VpnOf(e.va);
    if LoadPage(s, e.a, e.va, e.perm, e.content).1 == 0 {
      GetProvided(AllPages(s), {e.a}, u, e.content, b, v);
      GetProvided(AllPages(s), Sharers(s, e.a, u), u, e.content, b, v);
      UnshownBefore(s, e, b);
    }
  }

  /** Where a load appears, nothing was shown. */
  lemma UnshownBefore(s: Vm, e: Event, b: nat)
    requires AddressSpaces.Inv(s) && e.LoadPageAt? && Allowed(s, e) && b < |s.spaces|
    requires LoadPage(s, e.a, e.va, e.perm, e.content).1 == 0
    ensures var v := VpnOf(e.va);
            Common(s.f, v) && SharesSlot(s.f, s.spaces[e.a].root, s.spaces[b].root, Index(v, 2)) ==>
              Reading(s, s.spaces[b].root, v) == None
  {
    hide AddressSpaces.Inv, Lookup, VpnOf, LoadPage, Private, ContentChange, Index, SharesSlot;
    LoadPageKeeps(s, e.a, e.va, e.perm, e.content);
    assert s.spaces[b].root in Roots(s);
  }

  lemma OtherActs(s: Vm, e: Event, b: nat, v: int)
    requires AddressSpaces.Inv(s) && Allowed(s, e) && b < |s.spaces| && !e.StoreByte? && !e.LoadPageAt?
    ensures Get(Perform(AllPages(s), ActOf(s, e))[b], v) == if v >= 0 then Next(s, e, b, v) else None
  {
    hide AddressSpaces.Inv, PagesOf, Content, Private, VpnOf, HeapVpn, Alias, HeapMap, HeapFault, Setup, NextPage,
         Common, Reading;
    GetPages(s, b, v);
    match e
    case AliasHeap(a, dst, src) =>
      AliasKeeps(s, a, dst, src);
      if dst >= 0 && src >= 0 && Alias(s, a, dst, src).1 == 0 {
        HeapOffsets(s, a, dst, src);
        GetPages(s, a, HeapVpn(s.spaces[a]) + src);
      }
    case MapHeap(a, va) => GetProvided(AllPages(s), {a}, VpnOf(va), NextPage(s), b, v);
    case Fault(a, va, _) => GetProvided(AllPages(s), {a}, VpnOf(va), NextPage(s), b, v);
    case _ =>
  }

  lemma AgentsGrow(s: Vm, e: Event)
    requires AddressSpaces.Inv(s) && Allowed(s, e)
    ensures |Step(s, e).spaces| == |s.spaces| + if ActOf(s, e).Start? then 1 else 0
  {
    hide AddressSpaces.Inv, PagesOf, Content, Private, CanStore, VpnOf, HeapVpn, Alias, HeapMap, HeapFault, LoadPage,
         Setup, Poke, NextPage, Lookup, Cells, Sharers;
    if e.NewAgent? {
      SetupKeeps(s, e.id);
    }
  }

  /** What agents read after the event, as the step-by-step reference says. */
  lemma NextIsShown(s: Vm, e: Event, b: nat, v: nat)
    requires AddressSpaces.Inv(s) && Allowed(s, e) && b < |s.spaces|
    ensures b < |Step(s, e).spaces| && Shown(Step(s, e), b, v) == Next(s, e, b, v)
  {
    CowRefinesEagerCopy(s, e);
    RootsStay(s, e);
    hide AddressSpaces.Inv, Step, Eager, EagerCommon, Content, Reading, Private;
    assert s.spaces[b].root in Roots(s);
  }

  /** Page by page the event is the act. */
  lemma ShownIsPerformed(s: Vm, e: Event, b: nat, v: int)
    requires AddressSpaces.Inv(s) && Allowed(s, e) && b < |s.spaces| <= |Step(s, e).spaces|
    ensures |Perform(AllPages(s), ActOf(s, e))| >= |s.spaces|
    ensures Get(PagesOf(Step(s, e), b), v) == Get(Perform(AllPages(s), ActOf(s, e))[b], v)
  {
    hide AddressSpaces.Inv, Step, Content, PagesOf, Private, Get, Perform, ActOf, Shown, Next, Reading;
    GetPages(Step(s, e), b, v);
    if v >= 0 { NextIsShown(s, e, b, v); }
    if e.StoreByte? {
      StoreActs(s, e.a, e.va, e.b, b, v);
    } else if e.LoadPageAt? {
      LoadActs(s, e, b, v);
    } else {
      OtherActs(s, e, b, v);
    }
  }

  /** One event of the kernel is one act of the reference machine. */
  lemma StepPerforms(s: Vm, e: Event)
    requires AddressSpaces.Inv(s) && Allowed(s, e)
    ensures AddressSpaces.Inv(Step(s, e)) && AllPages(Step(s, e)) == Perform(AllPages(s), ActOf(s, e))
  {
    hide AddressSpaces.Inv, Step, Eager, EagerCommon, Content, PagesOf, Private, Get, Perform, ActOf, Shown, Next,
         Reading, Allowed;
    CowRefinesEagerCopy(s, e);
    AgentsGrow(s, e);
    var s', ps := Step(s, e), Perform(AllPages(s), ActOf(s, e));
    forall b | 0 <= b < |s.spaces| ensures PagesOf(s', b) == ps[b] {
      forall v ensures Get(PagesOf(s', b), v) == Get(ps[b], v) {
        ShownIsPerformed(s, e, b, v);
      }
      SamePages(PagesOf(s', b), ps[b]);
    }
    if ActOf(s, e).Start? {
      NewAgentPages(s, e);
    }
  }

  lemma NewAgentPages(s: Vm, e: Event)
    requires Allowed(s, e) && ActOf(s, e).Start?
    ensures e.NewAgent? && |s.spaces| < |Step(s, e).spaces|
    ensures Perform(AllPages(s), ActOf(s, e))[|s.spaces|] == PagesOf(Step(s, e), |s.spaces|)
  {
    hide PagesOf, Setup;
  }

  /**
   Copy-on-write refines copying at once, over whole runs: started on what the agents read, the reference
   machine performs the acts of the run on its own state and ends with what the agents read then.
   */
  lemma {:induction false} RunPerforms(s: Vm, es: seq<Event>)
    requires AddressSpaces.Inv(s) && AllowedRun(s, es)
    ensures AddressSpaces.Inv(Run(s, es))
    ensures AllPages(Run(s, es)) == PerformAll(AllPages(s), ActsOf(s, es))
    decreases |es|
  {
    hide AddressSpaces.Inv, Step, Allowed, ActOf, Perform;
    if es != [] {
      StepPerforms(s, es[0]);
      RunPerforms(Step(s, es[0]), es[1..]);
      assert ActsOf(s, es)[1..] == ActsOf(Step(s, es[0]), es[1..]);
    }
  }

  // ---------------------------------------------------------------- pages no act names

  predicate Touches(act: Act, a: nat, v: nat) {
    match act
    case Provide(who, w, _) => a in who && v == w
    case Duplicate(b, dst, _) => a == b && v == dst
    case Write(cells, _, _) => (a, v) in cells
    case _ => false
  }

  lemma {:induction false} UntouchedStays(ps: seq<Pages>, acts: seq<Act>, a: nat, v: nat)
    requires a < |ps| && forall i | 0 <= i < |acts| :: !Touches(acts[i], a, v)
    ensures a < |PerformAll(ps, acts)| && Get(PerformAll(ps, acts)[a], v) == Get(ps[a], v)
    decreases |acts|
  {
    hide Perform, Touches, Get;
    if acts != [] {
      UntouchedOnce(ps, acts[0], a, v);
      UntouchedStays(Perform(ps, acts[0]), acts[1..], a, v);
    }
  }

  lemma UntouchedOnce(ps: seq<Pages>, act: Act, a: nat, v: nat)
    requires a < |ps| && !Touches(act, a, v)
    ensures Get(Perform(ps, act)[a], v) == Get(ps[a], v)
  {
  }

  /** So the kernel's run leaves a page as it was, whatever happens elsewhere, when none of its acts names it. */
  lemma UnnamedPageStays(s: Vm, es: seq<Event>, a: nat, v: nat)
    requires AddressSpaces.Inv(s) && AllowedRun(s, es) && a < |s.spaces|
    requires forall i | 0 <= i < |ActsOf(s, es)| :: !Touches(ActsOf(s, es)[i], a, v)
    ensures a < |Run(s, es).spaces| && Shown(Run(s, es), a, v) == Shown(s, a, v)
  {
    hide AddressSpaces.Inv, Shown, PagesOf, Get, Touches, Run, AllowedRun, ActsOf, PerformAll;
    RunPerforms(s, es);
    UntouchedStays(AllPages(s), ActsOf(s, es), a, v);
    GetPages(s, a, v);
    GetPages(Run(s, es), a, v);
  }
}
