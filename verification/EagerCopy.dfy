/**
 Copy-on-write refines eager copying.

 The reference machine gives every page of every address space its own bytes: an alias copies at once, a
 store changes one page, a resolved fault changes nothing that was mapped.  Every run of the kernel's
 machine, with its shared frames, read-only entries and copies on write, reads exactly like it.
 */
module EagerCopy {
  import opened Base
  import opened PageTable
  import opened KernelHeap
  import opened AddressSpaces
  import opened CowProofs
  import opened CowSteps
  import opened SpaceSetup
  import opened SharedPages
  import opened BootMap
  import opened PageTableMachine

  datatype Event =
    | Grow(size: nat)
    | NewAgent(id: nat)
    | MapHeap(a: nat, va: nat)
    | AliasHeap(a: nat, dst: int, src: int)
    | Fault(a: nat, va: nat, write: bool)
    | StoreByte(a: nat, va: nat, b: byte)
    | LoadPageAt(a: nat, va: nat, perm: Perm, content: seq<byte>)

  /** The event names an existing address space, a real agent slot, a size that does not wrap, and a
      loaded page is a page outside the heap window. */
  predicate Allowed(s: Vm, e: Event) {
    match e
    case Grow(size) => Fits(s.heap, size)
    case NewAgent(id) => id < MAX_AGENTS
    case LoadPageAt(a, va, perm, content) =>
      a < |s.spaces| && |content| == PAGE_SIZE && !InWindow(s.spaces[a], VpnOf(va))
    case _ => e.a < |s.spaces|
  }

  function Step(s: Vm, e: Event): Vm
    requires Allowed(s, e)
  {
    match e
    case Grow(size) => s.(heap := Kalloc(s.heap, size).0)
    case NewAgent(id) => Setup(s, id).0
    case MapHeap(a, va) => HeapMap(s, a, va).0
    case AliasHeap(a, dst, src) => Alias(s, a, dst, src).0
    case Fault(a, va, write) => HeapFault(s, a, va, write).0
    case StoreByte(a, va, b) => Store(s, a, va, b)
    case LoadPageAt(a, va, perm, content) => LoadPage(s, a, va, perm, content).0
  }

  /** Bytes of the page the allocator would hand out now: nobody clears a demand-mapped heap page. */
  function NextPage(s: Vm): seq<byte> {
    if KallocPage(s.heap).1.Some? then Frame(s, KallocPage(s.heap).1.value / PAGE_SIZE) else []
  }

  /** What page w of space b reads after the event on the reference machine. */
  function Eager(s: Vm, e: Event, b: nat, w: nat): Option<seq<byte>>
    requires Allowed(s, e) && b < |s.spaces|
  {
    var now := Content(s, b, w);
    match e
    case AliasHeap(a, dst, src) =>
      if b == a && w == HeapVpn(s.spaces[a]) + dst && 0 <= src && Alias(s, a, dst, src).1 == 0
      then Content(s, a, HeapVpn(s.spaces[a]) + src) else now
    case StoreByte(a, va, x) =>
      if b == a && w == VpnOf(va) && CanStore(s, a, va) && now.Some? && |now.value| == PAGE_SIZE
      then Some(Poke(now.value, va % PAGE_SIZE, x)) else now
    case LoadPageAt(a, va, perm, content) =>
      if b == a && w == VpnOf(va) && LoadPage(s, a, va, perm, content).1 == 0 then Some(content) else now
    case MapHeap(a, va) =>
      if b == a && w == VpnOf(va) && now.None? && HeapMap(s, a, va).1 == 0 then Some(NextPage(s)) else now
    case Fault(a, va, write) =>
      if b == a && w == VpnOf(va) && now.None? && HeapFault(s, a, va, write).1 then Some(NextPage(s)) else now
    case _ => now
  }

  /**
   What table r shows on a common page after the event: a load appears in the tables that share the slot, a
   store through a common page on the common pages of its frame, and nothing else changes there.
   */
  function EagerCommon(s: Vm, e: Event, r: nat, w: nat): Option<seq<byte>>
    requires Allowed(s, e)
  {
    match e
    case StoreByte(a, va, b) => StoredReading(s, a, va, b, r, w)
    case LoadPageAt(a, va, perm, content) =>
      if LoadPage(s, a, va, perm, content).1 == 0 && w == VpnOf(va) &&
         SharesSlot(s.f, s.spaces[a].root, r, Index(w, 2))
      then (if perm.u then Some(content) else None) else Reading(s, r, w)
    case _ => Reading(s, r, w)
  }

  lemma HeapMapGivesNextPage(s: Vm, a: nat, va: nat)
    requires AddressSpaces.Inv(s) && a < |s.spaces| && At(s, a, VpnOf(va)).None? && HeapMap(s, a, va).1 == 0
    ensures Content(HeapMap(s, a, va).0, a, VpnOf(va)) == Some(NextPage(s))
  {
    hide Good, FramesInv, SharingInv, WindowInv, Lookup, Index, Entry, MapPage;
    RangeIsWindow(s, a, va);
    PageHandedOut(s.heap);
    WindowIsPrivate(s, a, VpnOf(va));
    MapEffect(s, a, RoundDown(va, PAGE_SIZE), KallocPage(s.heap).1.value, UserRW);
  }

  lemma PrivateRefines(s: Vm, e: Event)
    requires AddressSpaces.Inv(s) && Allowed(s, e)
    ensures AddressSpaces.Inv(Step(s, e)) && |s.spaces| <= |Step(s, e).spaces|
    ensures forall w: nat :: Private(Step(s, e).f, w) == Private(s.f, w)
    ensures forall b, w: nat | 0 <= b < |s.spaces| && Private(s.f, w) ::
              Content(Step(s, e), b, w) == Eager(s, e, b, w)
  {
    hide AddressSpaces.Inv, Lookup, Content, HeapMap, HeapFault, Alias, LoadPage, Setup, Index, Entry, VpnOf, HeapVpn;
    match e
    case Grow(size) =>
      GrowKeeps(s, size);
      SameRoots(s, Step(s, e));
    case NewAgent(id) => SetupKeeps(s, id);
    case MapHeap(a, va) =>
      HeapMapKeeps(s, a, va);
      SameRoots(s, Step(s, e));
      MapReadsNextPage(s, a, va);
    case AliasHeap(a, dst, src) =>
      AliasKeeps(s, a, dst, src);
      SameRoots(s, Step(s, e));
    case Fault(a, va, write) =>
      HeapFaultKeeps(s, a, va, write);
      SameRoots(s, Step(s, e));
      FaultReadsNextPage(s, a, va, write);
    case StoreByte(a, va, b) =>
      StoreReads(s, a, va, b);
    case LoadPageAt(a, va, perm, content) =>
      LoadPageKeeps(s, a, va, perm, content);
      SameRoots(s, Step(s, e));
  }

  lemma CommonRefines(s: Vm, e: Event)
    requires AddressSpaces.Inv(s) && Allowed(s, e)
    ensures forall r: nat, w: nat | r in AllRoots(s) && Common(s.f, w) ::
              Reading(Step(s, e), r, w) == EagerCommon(s, e, r, w)
    ensures forall r: nat, w: nat | r in AllRoots(s) && Common(s.f, w) && Lookup(s.f, r, w).Some? ::
              Lookup(Step(s, e).f, r, w) == Lookup(s.f, r, w)
  {
    hide AddressSpaces.Inv, Lookup, HeapMap, HeapFault, Alias, LoadPage, Setup, Store, Index, VpnOf, HeapVpn, Kept,
         ContentChange, Private, Reading, StoredReading, AllRoots;
    match e
    case Grow(size) => GrowKeeps(s, size);
    case NewAgent(id) => SetupKeeps(s, id);
    case MapHeap(a, va) => HeapMapKeeps(s, a, va);
    case AliasHeap(a, dst, src) => AliasKeeps(s, a, dst, src);
    case Fault(a, va, write) => HeapFaultKeeps(s, a, va, write);
    case StoreByte(a, va, b) => StoreKeeps(s, a, va, b);
    case LoadPageAt(a, va, perm, content) => LoadPageKeeps(s, a, va, perm, content);
  }

  /** Tables and root slots of the kernel stay. */
  lemma RootsStay(s: Vm, e: Event)
    requires AddressSpaces.Inv(s) && Allowed(s, e)
    ensures AllRoots(s) <= AllRoots(Step(s, e))
    ensures forall w: nat :: Common(Step(s, e).f, w) == Common(s.f, w)
    ensures forall b | 0 <= b < |s.spaces| :: b < |Step(s, e).spaces| && Step(s, e).spaces[b].root == s.spaces[b].root
  {
    hide AddressSpaces.Inv, Lookup, HeapMap, HeapFault, Alias, LoadPage, Setup, Index, VpnOf, HeapVpn, Content,
         CommonSame, CommonLoaded, Private;
    match e
    case Grow(size) => SameRoots(s, Step(s, e));
    case NewAgent(id) => SetupKeeps(s, id);
    case MapHeap(a, va) => HeapMapKeeps(s, a, va); SameRoots(s, Step(s, e));
    case AliasHeap(a, dst, src) => AliasKeeps(s, a, dst, src); SameRoots(s, Step(s, e));
    case Fault(a, va, write) => HeapFaultKeeps(s, a, va, write); SameRoots(s, Step(s, e));
    case StoreByte(a, va, b) =>
    case LoadPageAt(a, va, perm, content) => LoadPageKeeps(s, a, va, perm, content); SameRoots(s, Step(s, e));
  }

  /**
   One step: the invariant holds on, no page is lost, and every page an agent or the kernel shows to user code,
   private or common, reads as on the reference machine.
   */
  lemma CowRefinesEagerCopy(s: Vm, e: Event)
    requires AddressSpaces.Inv(s) && Allowed(s, e)
    ensures AddressSpaces.Inv(Step(s, e)) && |s.spaces| <= |Step(s, e).spaces|
    ensures forall w: nat :: Private(Step(s, e).f, w) == Private(s.f, w)
    ensures forall b, w: nat | 0 <= b < |s.spaces| && Private(s.f, w) ::
              Content(Step(s, e), b, w) == Eager(s, e, b, w)
    ensures forall r: nat, w: nat | r in AllRoots(s) && Common(s.f, w) ::
              Reading(Step(s, e), r, w) == EagerCommon(s, e, r, w)
  {
    hide AddressSpaces.Inv, Step, Eager, EagerCommon, Content, Private, Reading, AllRoots;
    PrivateRefines(s, e);
    CommonRefines(s, e);
  }

  lemma GrowKeeps(s: Vm, size: nat)
    requires AddressSpaces.Inv(s) && Fits(s.heap, size)
    ensures var s' := s.(heap := Kalloc(s.heap, size).0);
            AddressSpaces.Inv(s') && ContentChange(s, s', 0, 0, None, false) && CommonSame(s, s')
  {
    hide CommonSame, AddressSpaces.Inv;
    assert KernelHeap.Valid(s.heap) by { HeapIsValid(s); }
    ServeAdvances(s.heap, Bytes(size));
    HeapGrowthKeeps(s, Kalloc(s.heap, size).0);
  }

  lemma HeapIsValid(s: Vm)
    requires AddressSpaces.Inv(s)
    ensures KernelHeap.Valid(s.heap)
  {
  }

  lemma MapReadsNextPage(s: Vm, a: nat, va: nat)
    requires AddressSpaces.Inv(s) && a < |s.spaces|
    ensures HeapMap(s, a, va).1 == 0 && Content(s, a, VpnOf(va)).None? ==>
              Content(HeapMap(s, a, va).0, a, VpnOf(va)) == Some(NextPage(s))
    ensures At(s, a, VpnOf(va)).None? <==> Content(s, a, VpnOf(va)).None?
  {
    hide AddressSpaces.Inv, Lookup, HeapMap;
    if HeapMap(s, a, va).1 == 0 && At(s, a, VpnOf(va)).None? {
      HeapMapGivesNextPage(s, a, va);
    }
  }

  lemma FaultReadsNextPage(s: Vm, a: nat, va: nat, write: bool)
    requires AddressSpaces.Inv(s) && a < |s.spaces|
    ensures HeapFault(s, a, va, write).1 && Content(s, a, VpnOf(va)).None? ==>
              Content(HeapFault(s, a, va, write).0, a, VpnOf(va)) == Some(NextPage(s))
    ensures At(s, a, VpnOf(va)).None? <==> Content(s, a, VpnOf(va)).None?
  {
    hide AddressSpaces.Inv, Lookup, HeapMap, CowBreak, Content;
    MapReadsNextPage(s, a, va);
  }

  lemma StoreReads(s: Vm, a: nat, va: nat, b: byte)
    requires AddressSpaces.Inv(s) && a < |s.spaces|
    ensures var s' := Store(s, a, va, b);
            && AddressSpaces.Inv(s') && |s'.spaces| == |s.spaces| && s'.f == s.f
            && (forall c, w: nat | 0 <= c < |s.spaces| && Private(s.f, w) ::
                  Content(s', c, w) == Eager(s, StoreByte(a, va, b), c, w))
  {
    hide AddressSpaces.Inv, Lookup, VpnOf, Store, Index, Entry;
    StoreKeeps(s, a, va, b);
  }

  // ---------------------------------------------------------------- whole runs

  ghost predicate AllowedRun(s: Vm, es: seq<Event>)
    decreases |es|
  {
    es == [] || (Allowed(s, es[0]) && AllowedRun(Step(s, es[0]), es[1..]))
  }

  function Run(s: Vm, es: seq<Event>): Vm
    requires AllowedRun(s, es)
    decreases |es|
  {
    if es == [] then s else Run(Step(s, es[0]), es[1..])
  }

  lemma {:induction false} InvOverRuns(s: Vm, es: seq<Event>)
    requires AddressSpaces.Inv(s) && AllowedRun(s, es)
    ensures AddressSpaces.Inv(Run(s, es))
    decreases |es|
  {
    hide AddressSpaces.Inv, Step, Allowed, Eager, EagerCommon, Reading;
    if es != [] {
      CowRefinesEagerCopy(s, es[0]);
      InvOverRuns(Step(s, es[0]), es[1..]);
    }
  }

  /**
   Copy-on-write safety: from the kernel's boot map on, over every run of agent creations, heap mappings,
   aliases, faults, stores and loads, no page visible through any other table or at any other address shows
   the frame of a writable private page.
   */
  lemma CowSafety(kroot: nat, pages: seq<Page>, ram: map<nat, seq<byte>>, heapEnd: nat, es: seq<Event>, a: nat, v: nat)
    requires !(POOL_PPN <= kroot < POOL_PPN + PT_PAGES)
    requires forall i | 0 <= i < |pages| :: KernelPage(pages[i], heapEnd)
    requires MemoryInv(Vm(EmptyForest(kroot), Heap(HEAP_START, heapEnd), ram, []))
    requires AllowedRun(Vm(MapPages(EmptyForest(kroot), pages).0, Heap(HEAP_START, heapEnd), ram, []), es)
    ensures var s := Run(Vm(MapPages(EmptyForest(kroot), pages).0, Heap(HEAP_START, heapEnd), ram, []), es);
            && AddressSpaces.Inv(s)
            && (a < |s.spaces| && Private(s.f, v) && At(s, a, v).Some? && At(s, a, v).value.perm.w ==>
                  forall r: nat, w: nat | r in AllRoots(s) && Visible(s.f, r, w) && (r != s.spaces[a].root || w != v) ::
                    Lookup(s.f, r, w).value.ppn != At(s, a, v).value.ppn)
  {
    hide AddressSpaces.Inv, AllowedRun, Run, Lookup, Private, MapPages, KernelPage, EmptyForest, AllRoots, MemoryInv;
    BootEstablishes(kroot, pages, ram, heapEnd);
    var s0 := Vm(MapPages(EmptyForest(kroot), pages).0, Heap(HEAP_START, heapEnd), ram, []);
    InvOverRuns(s0, es);
    var s := Run(s0, es);
    if a < |s.spaces| && Private(s.f, v) && At(s, a, v).Some? && At(s, a, v).value.perm.w {
      forall r: nat, w: nat | r in AllRoots(s) && Visible(s.f, r, w) && (r != s.spaces[a].root || w != v)
        ensures Lookup(s.f, r, w).value.ppn != At(s, a, v).value.ppn
      {
        WritablePrivateIsAlone(s, a, v, r, w);
      }
    }
  }

  /** The bytes of a page with its own stores applied, and no other event looked at. */
  function Replay(s: Vm, es: seq<Event>, b: nat, w: nat, page: seq<byte>): seq<byte>
    requires AllowedRun(s, es)
    decreases |es|
  {
    if es == [] then page
    else
      var e := es[0];
      var page' :=
        if e.StoreByte? && e.a == b && VpnOf(e.va) == w && CanStore(s, b, e.va) && |page| == PAGE_SIZE
        then Poke(page, e.va % PAGE_SIZE, e.b) else page;
      Replay(Step(s, e), es[1..], b, w, page')
  }

  /**
   Over every run a mapped private page reads as its own stores left it: no store through another page,
   no alias, no fault and no loaded page ever shows through.
   */
  lemma {:induction false} PageReadsItsOwnStores(s: Vm, es: seq<Event>, b: nat, w: nat)
    requires AddressSpaces.Inv(s) && AllowedRun(s, es)
    requires b < |s.spaces| && Private(s.f, w) && Content(s, b, w).Some?
    ensures var s' := Run(s, es);
            && AddressSpaces.Inv(s') && b < |s'.spaces| && Private(s'.f, w)
            && Content(s', b, w) == Some(Replay(s, es, b, w, Content(s, b, w).value))
    decreases |es|
  {
    hide AddressSpaces.Inv, Lookup, Content, Private, VpnOf, Poke, Step, Eager, EagerCommon, Reading;
    if es != [] {
      CowRefinesEagerCopy(s, es[0]);
      EagerKeepsMapped(s, es[0], b, w);
      PageReadsItsOwnStores(Step(s, es[0]), es[1..], b, w);
    }
  }

  /** On the reference machine a mapped page changes by its own stores only. */
  lemma EagerKeepsMapped(s: Vm, e: Event, b: nat, w: nat)
    requires AddressSpaces.Inv(s) && Allowed(s, e) && b < |s.spaces| && Private(s.f, w) && Content(s, b, w).Some?
    ensures var page := Content(s, b, w).value;
            Eager(s, e, b, w) == Some(
              if e.StoreByte? && e.a == b && VpnOf(e.va) == w && CanStore(s, b, e.va) && |page| == PAGE_SIZE
              then Poke(page, e.va % PAGE_SIZE, e.b) else page)
  {
    hide AddressSpaces.Inv, Lookup, Content, VpnOf, HeapVpn, Alias, LoadPage, HeapMap, HeapFault, Private;
    match e
    case AliasHeap(a, dst, src) => AliasKeeps(s, a, dst, src);
    case LoadPageAt(a, va, perm, content) => LoadPageKeeps(s, a, va, perm, content);
    case _ =>
  }

  ghost predicate StoresTo(es: seq<Event>, b: nat, w: nat) {
    exists e :: e in es && e.StoreByte? && e.a == b && VpnOf(e.va) == w
  }

  lemma {:induction false} ReplayUntouched(s: Vm, es: seq<Event>, b: nat, w: nat, page: seq<byte>)
    requires AllowedRun(s, es) && !StoresTo(es, b, w)
    ensures Replay(s, es, b, w, page) == page
    decreases |es|
  {
    hide Step, Allowed, VpnOf;
    if es != [] {
      assert es[0] in es;
      assert forall e | e in es[1..] :: e in es;
      ReplayUntouched(Step(s, es[0]), es[1..], b, w, page);
    }
  }

  /** After a successful alias the two pages read the same until one of them is stored to. */
  lemma AliasReadsSameUntilWritten(s: Vm, a: nat, dst: int, src: int, es: seq<Event>)
    requires AddressSpaces.Inv(s) && a < |s.spaces| && Alias(s, a, dst, src).1 == 0
    requires AllowedRun(Alias(s, a, dst, src).0, es)
    ensures 0 <= src < HEAP_MAX_PAGES && 0 <= dst < HEAP_MAX_PAGES
    ensures var sv, dv := HeapVpn(s.spaces[a]) + src, HeapVpn(s.spaces[a]) + dst;
            var s' := Run(Alias(s, a, dst, src).0, es);
            a < |s'.spaces| &&
            (!StoresTo(es, a, sv) && !StoresTo(es, a, dv) ==>
               Content(s', a, dv) == Content(s', a, sv) == Content(s, a, sv))
  {
    hide AddressSpaces.Inv, Lookup, Content, Alias, Step, Allowed, Private, HeapVpn, StoresTo;
    var s1 := Alias(s, a, dst, src).0;
    AliasedPages(s, a, dst, src);
    var sv, dv := HeapVpn(s.spaces[a]) + src, HeapVpn(s.spaces[a]) + dst;
    PageReadsItsOwnStores(s1, es, a, sv);
    PageReadsItsOwnStores(s1, es, a, dv);
    if !StoresTo(es, a, sv) && !StoresTo(es, a, dv) {
      ReplayUntouched(s1, es, a, sv, Content(s1, a, sv).value);
      ReplayUntouched(s1, es, a, dv, Content(s1, a, dv).value);
    }
  }

  lemma AliasedPages(s: Vm, a: nat, dst: int, src: int)
    requires AddressSpaces.Inv(s) && a < |s.spaces| && Alias(s, a, dst, src).1 == 0
    ensures 0 <= src < HEAP_MAX_PAGES && 0 <= dst < HEAP_MAX_PAGES
    ensures var s' := Alias(s, a, dst, src).0;
            var sv, dv := HeapVpn(s.spaces[a]) + src, HeapVpn(s.spaces[a]) + dst;
            && Private(s'.f, sv) && Private(s'.f, dv) && Content(s, a, sv).Some?
            && Content(s', a, dv) == Content(s', a, sv) == Content(s, a, sv)
            && AddressSpaces.Inv(s')
  {
    hide AddressSpaces.Inv, Lookup, Content, Alias, HeapVpn, Index, Entry;
    AliasKeeps(s, a, dst, src);
    HeapOffsets(s, a, dst, src);
    SameRoots(s, Alias(s, a, dst, src).0);
  }

  lemma HeapOffsets(s: Vm, a: nat, dst: nat, src: nat)
    requires AddressSpaces.Inv(s) && a < |s.spaces| && dst < HEAP_MAX_PAGES && src < HEAP_MAX_PAGES
    ensures Private(s.f, HeapVpn(s.spaces[a]) + src) && Private(s.f, HeapVpn(s.spaces[a]) + dst)
  {
    HeapOffset(s, a, src);
    HeapOffset(s, a, dst);
    WindowIsPrivate(s, a, HeapVpn(s.spaces[a]) + src);
    WindowIsPrivate(s, a, HeapVpn(s.spaces[a]) + dst);
  }

  // ---------------------------------------------------------------- common pages over runs

  /** The bytes of a frame with the stores through common pages on it applied, and no other event looked at. */
  function ReplayFrame(s: Vm, es: seq<Event>, ppn: nat, page: seq<byte>): seq<byte>
    requires AllowedRun(s, es)
    decreases |es|
  {
    if es == [] then page
    else
      var e := es[0];
      var page' := if StoresOn(s, e, ppn) && |page| == PAGE_SIZE then Poke(page, e.va % PAGE_SIZE, e.b) else page;
      ReplayFrame(Step(s, e), es[1..], ppn, page')
  }

  /** A store through a common page on this frame. */
  predicate StoresOn(s: Vm, e: Event, ppn: nat)
    requires Allowed(s, e)
  {
    e.StoreByte? && CanStore(s, e.a, e.va) && Common(s.f, VpnOf(e.va)) && At(s, e.a, VpnOf(e.va)).value.ppn == ppn
  }

  lemma CommonStep(s: Vm, e: Event, r: nat, w: nat)
    requires AddressSpaces.Inv(s) && Allowed(s, e) && r in AllRoots(s) && Common(s.f, w) && Reading(s, r, w).Some?
    ensures Lookup(Step(s, e).f, r, w) == Lookup(s.f, r, w)
    ensures var ppn, page := Lookup(s.f, r, w).value.ppn, Reading(s, r, w).value;
            Reading(Step(s, e), r, w) ==
            Some(if StoresOn(s, e, ppn) && |page| == PAGE_SIZE then Poke(page, e.va % PAGE_SIZE, e.b) else page)
  {
    CommonRefines(s, e);
    if e.LoadPageAt? {
      LoadPageKeeps(s, e.a, e.va, e.perm, e.content);
    }
  }

  /**
   Over every run a page of a program, once shown, stays at its address on its frame in every table that shows
   it, and reads as the stores through such pages on that frame left it: no heap mapping, alias, fault, load or
   store through a private page ever shows there.
   */
  lemma {:induction false} CommonReadsItsStores(s: Vm, es: seq<Event>, r: nat, w: nat)
    requires AddressSpaces.Inv(s) && AllowedRun(s, es)
    requires r in AllRoots(s) && Common(s.f, w) && Reading(s, r, w).Some?
    ensures var s' := Run(s, es);
            && r in AllRoots(s') && Common(s'.f, w) && Lookup(s'.f, r, w) == Lookup(s.f, r, w)
            && Reading(s', r, w) ==
               Some(ReplayFrame(s, es, Lookup(s.f, r, w).value.ppn, Reading(s, r, w).value))
    decreases |es|
  {
    hide AddressSpaces.Inv, Lookup, Common, Poke, Step, StoresOn, AllRoots, Allowed;
    if es != [] {
      CowRefinesEagerCopy(s, es[0]);
      RootsStay(s, es[0]);
      CommonStep(s, es[0], r, w);
      CommonReadsItsStores(Step(s, es[0]), es[1..], r, w);
    }
  }

  // ---------------------------------------------------------------- faults and counters

  /** A resolved heap fault lets the faulting access pass `vm_user_check`'s page test. */
  lemma ResolvedFaultPasses(s: Vm, a: nat, va: nat, write: bool)
    requires AddressSpaces.Inv(s) && a < |s.spaces| && HeapFault(s, a, va, write).1
    ensures PageOk(HeapFault(s, a, va, write).0.f, s.spaces[a].root, VpnOf(va), write)
  {
    hide AddressSpaces.Inv, Lookup, HeapFault, VpnOf;
    HeapFaultKeeps(s, a, va, write);
  }

  /** `heap_mapped` counts the mapped pages of the heap window and never exceeds the window. */
  lemma HeapMappedCounts(s: Vm, a: nat)
    requires AddressSpaces.Inv(s) && a < |s.spaces|
    ensures s.spaces[a].mapped == |MappedPages(s, a)| <= HEAP_MAX_PAGES
  {
    var window := Range(HeapVpn(s.spaces[a]), HEAP_MAX_PAGES);
    SubsetSize(MappedPages(s, a), window);
  }
}
