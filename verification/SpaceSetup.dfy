/** New address spaces: `agent_setup_stack` keeps the invariant whether it succeeds or fails half-way. */
module SpaceSetup {
  import opened Base
  import opened PageTable
  import opened KernelHeap
  import opened AddressSpaces
  import opened CowProofs
  import opened CowSteps
  import opened SharedPages

  /** A larger bump pointer, and nothing else, keeps the invariant and every page's bytes. */
  lemma HeapGrowthKeeps(s: Vm, h: Heap)
    requires AddressSpaces.Inv(s) && KernelHeap.Valid(h) && h.end == s.heap.end && s.heap.ptr <= h.ptr
    ensures AddressSpaces.Inv(s.(heap := h)) && ContentChange(s, s.(heap := h), 0, 0, None, false)
    ensures CommonSame(s, s.(heap := h))
  {
    var s' := s.(heap := h);
    GrowthKeepsMemory(s, s');
    NewFrameKeepsFrames(s, s', 0, 0, EmptyPte, false);
    NewFrameKeepsSharing(s, s', 0, 0, EmptyPte, false);
    hide Good, Lookup, FramesInv, SharingInv, TablesInv;
    RamIsNotTables(s, s.(ram := s.ram));
    assert WindowInv(s') by {
      forall c | 0 <= c < |s.spaces| ensures MappedPages(s', c) == MappedPages(s, c) {}
    }
    TablesCarry(s, s');
  }

  // ---------------------------------------------------------------- adding and dropping a space

  ghost predicate Added(s: Vm, s': Vm, sp: Space) {
    && s'.spaces == s.spaces + [sp] && s'.heap == s.heap && s'.ram == s.ram
    && s'.f.kroot == s.f.kroot && sp.mapped == 0
    && sp.root !in AllRoots(s)
    && (forall i: nat :: Entry(s'.f, s.f.kroot, i) == Entry(s.f, s.f.kroot, i))
    && (forall r: nat, v: nat | r in AllRoots(s) :: Lookup(s'.f, r, v) == Lookup(s.f, r, v))
    && (forall v: nat :: Lookup(s'.f, sp.root, v) == Lookup(s.f, s.f.kroot, v))
  }

  lemma AddedAt(s: Vm, s': Vm, sp: Space)
    requires Added(s, s', sp)
    ensures AllRoots(s') == AllRoots(s) + {sp.root}
    ensures forall v: nat :: Private(s'.f, v) == Private(s.f, v)
    ensures forall b, v: nat | 0 <= b < |s.spaces| :: At(s', b, v) == At(s, b, v)
    ensures forall v: nat | Private(s.f, v) :: At(s', |s.spaces|, v).None?
  {
    forall b | 0 <= b < |s.spaces| ensures s.spaces[b].root in Roots(s) && s.spaces[b].root in Roots(s') {
      assert s'.spaces[b] == s.spaces[b];
    }
    assert s'.spaces[|s.spaces|] == sp;
    assert Roots(s') == Roots(s) + {sp.root};
    forall v: nat | Private(s.f, v) ensures At(s', |s.spaces|, v).None? {
      assert Lookup(s.f, s.f.kroot, v).None?;
    }
  }

  lemma AddedKeepsFrames(s: Vm, s': Vm, sp: Space)
    requires Added(s, s', sp) && FramesInv(s)
    ensures FramesInv(s')
  {
    hide Lookup, Index, Entry;
    AddedAt(s, s', sp);
    forall r, w: nat | r in AllRoots(s') && Visible(s'.f, r, w) ensures Taken(s', Lookup(s'.f, r, w).value.ppn) {
      var q := if r == sp.root then s.f.kroot else r;
      assert Visible(s.f, q, w) && Taken(s, Lookup(s.f, q, w).value.ppn);
    }
    forall b, w: nat | 0 <= b < |s'.spaces| && Private(s'.f, w) && At(s', b, w).Some?
      ensures HandedOut(s', At(s', b, w).value.ppn)
    {
      assert b < |s.spaces| && HandedOut(s, At(s, b, w).value.ppn);
    }
  }

  lemma AddedKeepsSharing(s: Vm, s': Vm, sp: Space)
    requires Added(s, s', sp) && SharingInv(s)
    requires forall b | 0 <= b < |s.spaces| :: s.spaces[b].root != s.f.kroot
    ensures SharingInv(s')
  {
    hide Lookup, Index, Entry;
    AddedAt(s, s', sp);
    forall b, w: nat, r, x: nat |
      && 0 <= b < |s'.spaces| && Private(s'.f, w) && At(s', b, w).Some?
      && r in AllRoots(s') && Visible(s'.f, r, x) && (r != s'.spaces[b].root || w != x)
      && At(s', b, w).value.ppn == Lookup(s'.f, r, x).value.ppn
      ensures MayShare(s', b, w, r, x)
    {
      assert b < |s.spaces| && s'.spaces[b] == s.spaces[b];
      assert r != sp.root ==> MayShare(s, b, w, r, x);
      assert Visible(s.f, if r == sp.root then s.f.kroot else r, x);
    }
  }

  lemma AddedKeepsWindow(s: Vm, s': Vm, sp: Space)
    requires Added(s, s', sp) && TablesInv(s) && MemoryInv(s) && WindowInv(s) && MemoryInv(s')
    ensures WindowInv(s')
  {
    hide Lookup, Index, Entry, Good;
    AddedAt(s, s', sp);
    forall v: nat | InWindow(sp, v) ensures At(s', |s.spaces|, v).None? {
      NewWindowIsPrivate(s, s', sp, v);
    }
    assert MappedPages(s', |s.spaces|) == {};
    forall b | 0 <= b < |s.spaces| ensures MappedPages(s', b) == MappedPages(s, b) {
      assert s'.spaces[b] == s.spaces[b];
    }
  }

  lemma NewWindowIsPrivate(s: Vm, s': Vm, sp: Space, v: nat)
    requires Added(s, s', sp) && TablesInv(s) && MemoryInv(s') && InWindow(sp, v)
    ensures Private(s.f, v)
  {
    assert s'.spaces[|s.spaces|] == sp;
  }

  predicate GoodBase(heapBase: nat) {
    && heapBase % AGENT_HEAP_SIZE == 0
    && USER_HEAP_BASE <= heapBase < USER_HEAP_BASE + MAX_AGENTS * AGENT_HEAP_SIZE
  }

  lemma AddSpaceKeeps(s: Vm, heapBase: nat)
    requires AddressSpaces.Inv(s) && CreateRoot(s.f).1.Some? && GoodBase(heapBase)
    ensures var (f, root) := CreateRoot(s.f);
            var sp := Space(root.value, heapBase, 0);
            var s' := s.(f := f, spaces := s.spaces + [sp]);
            Added(s, s', sp) && AddressSpaces.Inv(s')
  {
    hide Good, Lookup, Index, FramesInv, SharingInv, WindowInv, CreateRoot;
    var (f, root) := CreateRoot(s.f);
    var sp := Space(root.value, heapBase, 0);
    var s' := s.(f := f, spaces := s.spaces + [sp]);
    CreateRootCopies(s.f, AllRoots(s));
    assert Added(s, s', sp);
    AddedAt(s, s', sp);
    assert AllRoots(s) + {root.value} == AllRoots(s');
    AddedKeepsFrames(s, s', sp);
    AddedKeepsSharing(s, s', sp);
    AddedKeepsWindow(s, s', sp);
  }

  /** Forgetting the last address space keeps the invariant of the others. */
  lemma DropKeeps(s: Vm, s': Vm)
    requires AddressSpaces.Inv(s) && |s.spaces| > 0 && s' == s.(spaces := s.spaces[..|s.spaces| - 1])
    ensures AddressSpaces.Inv(s')
  {
    hide Lookup, Index, Entry;
    forall b | 0 <= b < |s'.spaces| ensures s'.spaces[b] == s.spaces[b] && s'.spaces[b].root in Roots(s) {}
    assert AllRoots(s') <= AllRoots(s);
    DropGood(s.f, AllRoots(s), AllRoots(s'));
    DropFrames(s, s');
    forall b | 0 <= b < |s'.spaces| ensures MappedPages(s', b) == MappedPages(s, b) {}
  }

  lemma DropGood(f: Forest, roots: set<nat>, fewer: set<nat>)
    requires Good(f, roots) && fewer <= roots
    ensures Good(f, fewer)
  {
    var own: map<nat, Owner> :| PageTable.Inv(f, own) && Owns(own, roots);
    assert Owns(own, fewer);
  }

  lemma DropFrames(s: Vm, s': Vm)
    requires FramesInv(s) && SharingInv(s) && |s.spaces| > 0 && s' == s.(spaces := s.spaces[..|s.spaces| - 1])
    requires AllRoots(s') <= AllRoots(s)
    ensures FramesInv(s') && SharingInv(s')
  {
    hide Lookup, Index, Entry;
    forall b, w: nat | 0 <= b < |s'.spaces| && Private(s'.f, w) && At(s', b, w).Some?
      ensures HandedOut(s', At(s', b, w).value.ppn)
    {
      assert HandedOut(s, At(s, b, w).value.ppn);
    }
    forall r, w: nat | r in AllRoots(s') && Visible(s'.f, r, w) ensures Taken(s', Lookup(s'.f, r, w).value.ppn) {
      assert Taken(s, Lookup(s.f, r, w).value.ppn);
    }
    forall b, w: nat, r, x: nat |
      && 0 <= b < |s'.spaces| && Private(s'.f, w) && At(s', b, w).Some?
      && r in AllRoots(s') && Visible(s'.f, r, x) && (r != s'.spaces[b].root || w != x)
      && At(s', b, w).value.ppn == Lookup(s'.f, r, x).value.ppn
      ensures MayShare(s', b, w, r, x)
    {
      assert MayShare(s, b, w, r, x);
    }
  }

  // ---------------------------------------------------------------- agent_setup_stack

  /** Mapping a page that the allocator has just handed out, outside the heap window. */
  lemma FreshPageKeeps(s: Vm, a: nat, va: nat, pa: nat, perm: Perm, h: Heap)
    requires AddressSpaces.Inv(s) && a < |s.spaces| && !InWindow(s.spaces[a], VpnOf(va))
    requires pa % PAGE_SIZE == 0 && s.heap.ptr <= pa && pa + PAGE_SIZE <= h.ptr
    requires KernelHeap.Valid(h) && h.end == s.heap.end
    ensures var (f, rc) := MapPage(s.f, s.spaces[a].root, va, pa, perm);
            var s' := s.(f := f, heap := h);
            && ContentChange(s, s', a, VpnOf(va), Some(Frame(s, pa / PAGE_SIZE)), rc == 0)
            && AddressSpaces.Inv(s')
  {
    hide Good, FramesInv, SharingInv, WindowInv, Lookup, Index, Entry, MapPage, VpnOf, InWindow;
    var (f, rc) := MapPage(s.f, s.spaces[a].root, va, pa, perm);
    var s' := s.(f := f, heap := h);
    MapEffect(s, a, va, pa, perm);
    TablesCarry(s.(f := f), s');
    var p := Leaf(pa / PAGE_SIZE, perm);
    NewFrameStepKeeps(s, s', a, VpnOf(va), p, rc == 0);
    NewFrameContent(s, s', a, VpnOf(va), p, rc == 0);
  }

  lemma StackOutsideWindow(sp: Space, id: nat)
    requires id < MAX_AGENTS && GoodBase(sp.heapBase)
    ensures !InWindow(sp, VpnOf(StackVa(id))) && !InWindow(sp, VpnOf(StackVa(id) + PAGE_SIZE))
  {
  }

  /** The first n address spaces, the kernel's slots and every private page of theirs are as before. */
  ghost predicate Kept(s: Vm, s': Vm, n: nat) {
    && n <= |s.spaces| && n <= |s'.spaces|
    && s'.f.kroot == s.f.kroot
    && (forall b | 0 <= b < n :: s'.spaces[b].root == s.spaces[b].root && s'.spaces[b].heapBase == s.spaces[b].heapBase)
    && (forall w: nat :: Private(s'.f, w) == Private(s.f, w))
    && (forall b, w: nat | 0 <= b < n && Private(s.f, w) :: Content(s', b, w) == Content(s, b, w))
  }

  lemma KeptUnder(s: Vm, s': Vm, a: nat, v: nat, c: Option<seq<byte>>, done: bool, n: nat)
    requires ContentChange(s, s', a, v, c, done) && n <= |s.spaces| && (done ==> n <= a)
    ensures Kept(s, s', n)
  {
    hide Lookup, Content;
    SameRoots(s, s');
  }

  lemma KeptThrough(s: Vm, s1: Vm, s2: Vm, n: nat)
    requires Kept(s, s1, n) && Kept(s1, s2, n)
    ensures Kept(s, s2, n)
  {
    hide Lookup, Content, Private;
  }

  lemma TwoPages(f: Forest, root: nat, va: nat, pa: nat, perm: Perm)
    ensures var (f1, rc1) := MapPage(f, root, va, pa, perm);
            var (f2, rc2) := MapPage(f1, root, va + PAGE_SIZE, pa + PAGE_SIZE, perm);
            MapRegion(f, root, va, pa, 2, perm) ==
            if rc1 != 0 then (f1, -1) else (f2, if rc2 != 0 then -1 else 0)
  {
    hide MapPage;
    var f1 := MapPage(f, root, va, pa, perm).0;
    var f2 := MapPage(f1, root, va + PAGE_SIZE, pa + PAGE_SIZE, perm).0;
    assert MapRegion(f2, root, va + PAGE_SIZE + PAGE_SIZE, pa + PAGE_SIZE + PAGE_SIZE, 0, perm) == (f2, 0);
  }

  lemma StackPageKeeps(s: Vm, a: nat, va: nat, pa: nat, h: Heap)
    requires AddressSpaces.Inv(s) && a < |s.spaces| && !InWindow(s.spaces[a], VpnOf(va))
    requires pa % PAGE_SIZE == 0 && s.heap.ptr <= pa && pa + PAGE_SIZE <= h.ptr
    requires KernelHeap.Valid(h) && h.end == s.heap.end
    ensures var s' := s.(f := MapPage(s.f, s.spaces[a].root, va, pa, UserRW).0, heap := h);
            Kept(s, s', a) && AddressSpaces.Inv(s')
  {
    hide AddressSpaces.Inv, Lookup, MapPage, VpnOf, InWindow, ContentChange, Kept;
    FreshPageKeeps(s, a, va, pa, UserRW, h);
    var (f, rc) := MapPage(s.f, s.spaces[a].root, va, pa, UserRW);
    KeptUnder(s, s.(f := f, heap := h), a, VpnOf(va), Some(Frame(s, pa / PAGE_SIZE)), rc == 0, a);
  }

  /** The two stack pages of the last address space. */
  lemma StackPagesKeep(s: Vm, id: nat, pa: nat, h: Heap)
    requires AddressSpaces.Inv(s) && |s.spaces| > 0 && id < MAX_AGENTS && GoodBase(s.spaces[|s.spaces| - 1].heapBase)
    requires pa % PAGE_SIZE == 0 && s.heap.ptr <= pa && pa + 2 * PAGE_SIZE <= h.ptr
    requires KernelHeap.Valid(h) && h.end == s.heap.end
    ensures var f := MapRegion(s.f, s.spaces[|s.spaces| - 1].root, StackVa(id), pa, 2, UserRW).0;
            var s' := s.(f := f, heap := h);
            Kept(s, s', |s.spaces| - 1) && AddressSpaces.Inv(s')
  {
    hide AddressSpaces.Inv, Lookup, MapPage, MapRegion, VpnOf, InWindow, StackVa, Kept, GoodBase;
    var a := |s.spaces| - 1;
    StackOutsideWindow(s.spaces[a], id);
    var va, root := StackVa(id), s.spaces[a].root;
    var (f1, rc1) := MapPage(s.f, root, va, pa, UserRW);
    TwoPages(s.f, root, va, pa, UserRW);
    if rc1 != 0 {
      StackPageKeeps(s, a, va, pa, h);
    } else {
      var s1 := s.(f := f1, heap := Heap(pa + PAGE_SIZE, h.end));
      StackPageKeeps(s, a, va, pa, s1.heap);
      StackPageKeeps(s1, a, va + PAGE_SIZE, pa + PAGE_SIZE, h);
      var f2 := MapPage(f1, root, va + PAGE_SIZE, pa + PAGE_SIZE, UserRW).0;
      KeptThrough(s, s1, s1.(f := f2, heap := h), a);
    }
  }

  /** The table half of the set-up, given a stack block that begins at the bump pointer. */
  lemma TableSetupKeeps(s: Vm, id: nat, h: Heap)
    requires AddressSpaces.Inv(s) && id < MAX_AGENTS && CreateRoot(s.f).1.Some?
    requires s.heap.ptr % PAGE_SIZE == 0 && s.heap.ptr + AGENT_STACK_SIZE == h.ptr
    requires KernelHeap.Valid(h) && h.end == s.heap.end
    ensures var (f1, root) := CreateRoot(s.f);
            var f2 := MapRegion(f1, root.value, StackVa(id), s.heap.ptr, 2, UserRW).0;
            var sp := Space(root.value, USER_HEAP_BASE + id * AGENT_HEAP_SIZE, 0);
            var s' := s.(heap := h, f := f2, spaces := s.spaces + [sp]);
            Kept(s, s', |s.spaces|) && AddressSpaces.Inv(s')
  {
    hide FramesInv, SharingInv, WindowInv, TablesInv, MemoryInv, Lookup, MapRegion, StackVa, CreateRoot, Entry;
    var (f1, root) := CreateRoot(s.f);
    var base := USER_HEAP_BASE + id * AGENT_HEAP_SIZE;
    var sp := Space(root.value, base, 0);
    AddSpaceKeeps(s, base);
    var s1 := s.(f := f1, spaces := s.spaces + [sp]);
    AddedAt(s, s1, sp);
    assert Kept(s, s1, |s.spaces|);
    hide Kept, Added;
    StackPagesKeep(s1, id, s.heap.ptr, h);
    var f2 := MapRegion(f1, root.value, StackVa(id), s.heap.ptr, 2, UserRW).0;
    KeptThrough(s, s1, s1.(f := f2, heap := h), |s.spaces|);
  }

  // ---------------------------------------------------------------- common pages

  lemma StackIsPrivate(s: Vm, id: nat)
    requires TablesInv(s) && id < MAX_AGENTS
    ensures Private(s.f, VpnOf(StackVa(id))) && Private(s.f, VpnOf(StackVa(id) + PAGE_SIZE))
  {
  }

  /** A private page mapped through a table leaves the common pages of these tables alone. */
  lemma PageApart(f: Forest, f0: Forest, roots: set<nat>, root: nat, va: nat, pa: nat, perm: Perm)
    requires Good(f, roots) && root in roots && Private(f0, VpnOf(va))
    ensures var f' := MapPage(f, root, va, pa, perm).0;
            Good(f', roots) &&
            forall r: nat, w: nat | r in roots && Common(f0, w) :: Lookup(f', r, w) == Lookup(f, r, w)
  {
    hide Good, Lookup, MapPage, VpnOf, Index;
    MapPageRefines(f, roots, root, va, pa, perm);
  }

  lemma StackApart(s: Vm, id: nat, pa: nat)
    requires TablesInv(s) && id < MAX_AGENTS && CreateRoot(s.f).1.Some?
    ensures var (f1, root) := CreateRoot(s.f);
            TranslationsSame(s, MapRegion(f1, root.value, StackVa(id), pa, 2, UserRW).0)
  {
    hide Lookup, MapPage, MapRegion, VpnOf, StackVa, Entry, CreateRoot, Good, Private;
    CreateRootCopies(s.f, AllRoots(s));
    StackIsPrivate(s, id);
    var (f1, root) := CreateRoot(s.f);
    var roots, va := AllRoots(s) + {root.value}, StackVa(id);
    TwoPages(f1, root.value, va, pa, UserRW);
    PageApart(f1, s.f, roots, root.value, va, pa, UserRW);
    var f2 := MapPage(f1, root.value, va, pa, UserRW).0;
    PageApart(f2, s.f, roots, root.value, va + PAGE_SIZE, pa + PAGE_SIZE, UserRW);
    assert s.f.kroot in AllRoots(s);
  }

  lemma SetupCommon(s: Vm, id: nat)
    requires AddressSpaces.Inv(s) && id < MAX_AGENTS
    ensures CommonSame(s, Setup(s, id).0)
  {
    hide TablesInv, MemoryInv, FramesInv, SharingInv, WindowInv, TranslationsSame, TakenSame, CommonSame, MapRegion,
         StackVa, CreateRoot, Kalloc, KallocPage, StackPa;
    var s' := Setup(s, id).0;
    SameRam(s, s');
    TranslationsRefl(s);
    if CreateRoot(s.f).1.Some? {
      var stack := Kalloc(KallocPage(s.heap).0, AGENT_STACK_SIZE).1;
      StackApart(s, id, if stack.Some? then StackPa(stack.value) else 0);
    } else {
      NoRootNoChange(s);
    }
    CommonFrom(s, s');
  }

  lemma TranslationsRefl(s: Vm)
    ensures TranslationsSame(s, s.f)
  {
  }

  /** Setting up an agent leaves every page of every existing address space as it was, and every common page. */
  lemma SetupKeeps(s: Vm, id: nat)
    requires AddressSpaces.Inv(s) && id < MAX_AGENTS
    ensures var (s', rc) := Setup(s, id);
            && s.spaces <= s'.spaces && |s'.spaces| == |s.spaces| + (if rc == 0 then 1 else 0)
            && Kept(s, s', |s.spaces|) && CommonSame(s, s') && AddressSpaces.Inv(s')
  {
    hide AddressSpaces.Inv, Setup, Kept, CommonSame;
    SetupPrivate(s, id);
    SetupCommon(s, id);
  }

  lemma SetupPrivate(s: Vm, id: nat)
    requires AddressSpaces.Inv(s) && id < MAX_AGENTS
    ensures var (s', rc) := Setup(s, id);
            && s.spaces <= s'.spaces && |s'.spaces| == |s.spaces| + (if rc == 0 then 1 else 0)
            && Kept(s, s', |s.spaces|) && AddressSpaces.Inv(s')
  {
    var n := |s.spaces|;
    var (h1, page) := KallocPage(s.heap);
    if page.None? { return; }
    StackInsideBlock(s.heap);
    PageHandedOut(s.heap);
    HeapGrowthKeeps(s, h1);
    var s1 := s.(heap := h1);
    hide FramesInv, SharingInv, WindowInv, TablesInv, MemoryInv, Lookup, MapRegion, StackVa, CreateRoot, ContentChange,
         Kept, Kalloc;
    KeptUnder(s, s1, 0, 0, None, false, n);
    var (h2, stack) := Kalloc(h1, AGENT_STACK_SIZE);
    if stack.None? { return; }
    ServeAdvances(h1, Bytes(AGENT_STACK_SIZE));
    HeapGrowthKeeps(s, h2);
    KeptUnder(s, s.(heap := h2), 0, 0, None, false, n);
    var (f1, root) := CreateRoot(s.f);
    if root.None? {
      NoRootNoChange(s);
      return;
    }
    TableSetupKeeps(s1, id, h2);
    var (f2, rc) := MapRegion(f1, root.value, StackVa(id), stack.value, 2, UserRW);
    var sp := Space(root.value, USER_HEAP_BASE + id * AGENT_HEAP_SIZE, 0);
    var s2 := s.(heap := h2, f := f2, spaces := s.spaces + [sp]);
    KeptThrough(s, s1, s2, n);
    assert s2.spaces[..n] == s.spaces;
    var dropped := s.(heap := h2, f := f2);
    DropKeeps(s2, dropped);
    KeptDropped(s, s2, dropped);
    ServeAdvances(h2, Bytes(TRAPFRAME_SIZE));
    var h3 := Kalloc(h2, TRAPFRAME_SIZE).0;
    HeapGrowthKeeps(s2, h3);
    KeptUnder(s2, s2.(heap := h3), 0, 0, None, false, n);
    KeptThrough(s, s2, s2.(heap := h3), n);
  }

  lemma NoRootNoChange(s: Vm)
    requires AddressSpaces.Inv(s) && CreateRoot(s.f).1.None?
    ensures CreateRoot(s.f).0 == s.f
  {
    CreateRootCopies(s.f, AllRoots(s));
  }

  lemma KeptDropped(s: Vm, s2: Vm, s3: Vm)
    requires Kept(s, s2, |s.spaces|) && s3 == s2.(spaces := s.spaces) && s.spaces <= s2.spaces
    ensures Kept(s, s3, |s.spaces|)
  {
    hide Lookup, Private;
  }
}
