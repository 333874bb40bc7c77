/**
 Exactly when the operations on an address space succeed (kernel/vm.c:104-231, kernel/agent.c:69-124), by
 the room left in the kernel's heap and in the pool of table nodes and by what is mapped already.
 */
module SpaceExact {
  import opened Base
  import opened PageTable
  import opened KernelHeap
  import opened AddressSpaces
  import opened CowProofs
  import opened CowSteps
  import opened SpaceSetup
  import opened EagerCopy

  /** The pool holds the nodes that page v still lacks in the table of space a. */
  predicate NodesFit(s: Vm, a: nat, v: nat)
    requires a < |s.spaces|
  {
    s.f.next + Missing(s.f, s.spaces[a].root, v) <= PT_PAGES
  }

  /** A page of the window that is not mapped is not counted, so the quota of sixteen never refuses it. */
  lemma UnmappedIsNotCounted(s: Vm, a: nat, v: nat)
    requires AddressSpaces.Inv(s) && a < |s.spaces| && InWindow(s.spaces[a], v) && At(s, a, v).None?
    ensures s.spaces[a].mapped < HEAP_MAX_PAGES
  {
    hide TablesInv, MemoryInv, FramesInv, SharingInv, Lookup, HeapVpn;
    var window := Range(HeapVpn(s.spaces[a]), HEAP_MAX_PAGES);
    assert MappedPages(s, a) <= window - {v};
    SubsetSize(MappedPages(s, a), window - {v});
  }

  lemma RootIsGood(s: Vm, a: nat)
    requires TablesInv(s) && a < |s.spaces|
    ensures Good(s.f, AllRoots(s)) && s.spaces[a].root in AllRoots(s)
  {
  }

  lemma MapPageExactly(s: Vm, a: nat, va: nat, pa: nat, perm: Perm)
    requires TablesInv(s) && a < |s.spaces| && pa % PAGE_SIZE == 0
    ensures MapPage(s.f, s.spaces[a].root, va, pa, perm).1 == 0 <==>
            va % PAGE_SIZE == 0 && At(s, a, VpnOf(va)).None? && NodesFit(s, a, VpnOf(va))
  {
    RootIsGood(s, a);
    hide TablesInv, Lookup, MapPage, Missing, VpnOf, Good;
    MapPageRefines(s.f, AllRoots(s), s.spaces[a].root, va, pa, perm);
  }

  lemma HeapRange(s: Vm, a: nat, va: nat)
    requires AddressSpaces.Inv(s) && a < |s.spaces| && InHeapRange(s.spaces[a], va)
    ensures InWindow(s.spaces[a], VpnOf(va)) && VpnOf(RoundDown(va, PAGE_SIZE)) == VpnOf(va)
  {
    RangeIsWindow(s, a, va);
  }

  /** `vm_heap_map_page` succeeds exactly on a mapped heap page, or where a page and the nodes for it are left. */
  lemma HeapMapExactly(s: Vm, a: nat, va: nat)
    requires AddressSpaces.Inv(s) && a < |s.spaces|
    ensures HeapMap(s, a, va).1 == 0 <==>
            && s.spaces[a].heapBase <= va < s.spaces[a].heapBase + 0x1_0000
            && (At(s, a, VpnOf(va)).Some? || (PageFits(s.heap) && NodesFit(s, a, VpnOf(va))))
    ensures HeapMap(s, a, va).1 in {0, -1}
  {
    hide TablesInv, MemoryInv, FramesInv, SharingInv, WindowInv, Lookup, MapPage, NodesFit, VpnOf;
    KallocPageExactly(s.heap);
    if InHeapRange(s.spaces[a], va) && At(s, a, VpnOf(va)).None? {
      HeapRange(s, a, va);
      UnmappedIsNotCounted(s, a, VpnOf(va));
      if PageFits(s.heap) {
        MapPageExactly(s, a, RoundDown(va, PAGE_SIZE), KallocPage(s.heap).1.value, UserRW);
      }
    }
  }

  /** `vm_cow_break` succeeds exactly on a writable page, or on a mapped one when a page is left for the copy. */
  lemma CowBreakExactly(s: Vm, a: nat, v: nat)
    requires a < |s.spaces|
    ensures CowBreak(s, a, v).1 == 0 <==>
            At(s, a, v).Some? && (At(s, a, v).value.perm.w || PageFits(s.heap))
    ensures CowBreak(s, a, v).1 in {0, -1}
  {
    hide Lookup, SetLeaf;
    KallocPageExactly(s.heap);
  }

  /**
   A heap fault is resolved exactly in two cases: a write to a page mapped without write permission while a
   page is left for the copy, and an access to an unmapped page while a page and the nodes for it are left.
   */
  lemma HeapFaultExactly(s: Vm, a: nat, va: nat, write: bool)
    requires AddressSpaces.Inv(s) && a < |s.spaces|
    ensures HeapFault(s, a, va, write).1 <==>
            && s.spaces[a].heapBase <= va < s.spaces[a].heapBase + 0x1_0000
            && PageFits(s.heap)
            && match At(s, a, VpnOf(va))
               case Some(p) => write && !p.perm.w
               case None => NodesFit(s, a, VpnOf(va))
  {
    hide AddressSpaces.Inv, Lookup, HeapMap, CowBreak, NodesFit, PageFits, VpnOf;
    HeapMapExactly(s, a, va);
    CowBreakExactly(s, a, VpnOf(va));
  }

  /**
   `vm_heap_cow_alias` succeeds exactly for two different pages of the window, the source mapped, and the
   destination either mapped to the same frame or unmapped with nodes left for it.  Only the last of these
   conditions gives ENOSPC.
   */
  lemma AliasExactly(s: Vm, a: nat, dst: int, src: int)
    requires AddressSpaces.Inv(s) && a < |s.spaces|
    ensures var rc := Alias(s, a, dst, src).1;
            var named := dst != src && 0 <= dst < 16 && 0 <= src < 16;
            var base := s.spaces[a].heapBase / 4096;
            && (named && At(s, a, base + src).Some? ==>
                  match At(s, a, base + dst)
                  case Some(p) => rc == if p.ppn == At(s, a, base + src).value.ppn then 0 else EINVAL
                  case None => rc == if NodesFit(s, a, base + dst) then 0 else ENOSPC)
            && (!(named && At(s, a, base + src).Some?) ==> rc == EINVAL)
  {
    hide TablesInv, MemoryInv, FramesInv, SharingInv, WindowInv, Lookup, AliasMap, AliasProtect, NodesFit;
    if dst != src && 0 <= dst < 16 && 0 <= src < 16 && At(s, a, HeapVpn(s.spaces[a]) + src).Some? {
      AliasMapThenProtect(s, a, dst, src);
      AliasMapExactly(s, a, dst, At(s, a, HeapVpn(s.spaces[a]) + src).value.ppn);
    }
  }

  lemma AliasMapExactly(s: Vm, a: nat, dst: nat, ppn: nat)
    requires AddressSpaces.Inv(s) && a < |s.spaces| && dst < HEAP_MAX_PAGES
    ensures var rc := AliasMap(s, a, dst, ppn).1;
            var v := s.spaces[a].heapBase / 4096 + dst;
            match At(s, a, v)
            case Some(p) => rc == if p.ppn == ppn then 0 else EINVAL
            case None => rc == if NodesFit(s, a, v) then 0 else ENOSPC
  {
    hide TablesInv, FramesInv, SharingInv, WindowInv, Lookup, MapPage, NodesFit, VpnOf;
    HeapOffset(s, a, dst);
    var v := HeapVpn(s.spaces[a]) + dst;
    if At(s, a, v).None? {
      UnmappedIsNotCounted(s, a, v);
      MapPageExactly(s, a, s.spaces[a].heapBase + dst * PAGE_SIZE, ppn * PAGE_SIZE, UserRO);
    }
  }

  /** A loaded page is mapped exactly when its address is a free page boundary and page and nodes are left. */
  lemma LoadPageExactly(s: Vm, a: nat, va: nat, perm: Perm, content: seq<byte>)
    requires TablesInv(s) && a < |s.spaces|
    ensures var rc := LoadPage(s, a, va, perm, content).1;
            && (rc == 0 <==> && va % 4096 == 0 && At(s, a, VpnOf(va)).None?
                             && PageFits(s.heap) && NodesFit(s, a, VpnOf(va)))
            && rc in {0, ENOSPC}
  {
    hide TablesInv, Lookup, MapPage, NodesFit, VpnOf;
    KallocPageExactly(s.heap);
    if PageFits(s.heap) {
      MapPageExactly(s, a, va, KallocPage(s.heap).1.value, perm);
    }
  }

  // ---------------------------------------------------------------- alias, then write

  /** Two pages of the window are mapped read-only to the frame the source had, and the allocator is as before. */
  ghost predicate ReadOnlyPair(s: Vm, s': Vm, a: nat, dst: int, src: int)
    requires a < |s.spaces| == |s'.spaces|
  {
    var base := HeapVpn(s.spaces[a]);
    && 0 <= dst < 16 && 0 <= src < 16 && dst != src
    && At(s, a, base + src).Some? && s'.heap == s.heap
    && At(s', a, base + src) == At(s', a, base + dst) ==
       Some(Leaf(At(s, a, base + src).value.ppn, Perm(true, false, false, true)))
  }

  lemma AliasIsReadOnly(s: Vm, a: nat, dst: int, src: int)
    requires AddressSpaces.Inv(s) && a < |s.spaces| && Alias(s, a, dst, src).1 == 0
    ensures ReadOnlyPair(s, Alias(s, a, dst, src).0, a, dst, src)
  {
    hide FramesInv, SharingInv, Lookup, Alias, HeapVpn, Index, Entry, Good;
    AliasSteps(s, a, dst, src);
    HeapOffset(s, a, src);
    HeapOffset(s, a, dst);
    WindowIsPrivate(s, a, HeapVpn(s.spaces[a]) + src);
    WindowIsPrivate(s, a, HeapVpn(s.spaces[a]) + dst);
  }

  /**
   Copy on write end to end: the first write to either page of an alias is resolved exactly when a page is left
   for the copy; the page written is then writable, and both pages still read as the source did.
   */
  lemma AliasThenWrite(s: Vm, a: nat, dst: int, src: int, page: nat, k: nat)
    requires AddressSpaces.Inv(s) && a < |s.spaces| && Alias(s, a, dst, src).1 == 0
    requires page == src || page == dst
    requires k < PAGE_SIZE
    ensures var s1 := Alias(s, a, dst, src).0;
            var va := s.spaces[a].heapBase + page * PAGE_SIZE + k;
            var base := HeapVpn(s.spaces[a]);
            var (s2, ok) := HeapFault(s1, a, va, true);
            && 0 <= src && 0 <= dst
            && (ok <==> PageFits(s.heap))
            && (ok ==> CanStore(s2, a, va))
            && Content(s2, a, base + dst) == Content(s2, a, base + src) == Content(s, a, base + src)
  {
    hide FramesInv, SharingInv, WindowInv, TablesInv, MemoryInv, Lookup, Alias, HeapFault, PageFits, NodesFit, Content;
    AliasIsReadOnly(s, a, dst, src);
    AliasKeeps(s, a, dst, src);
    var s1 := Alias(s, a, dst, src).0;
    var va := s.spaces[a].heapBase + page * PAGE_SIZE + k;
    HeapAddress(s, a, page, k);
    HeapFaultExactly(s1, a, va, true);
    HeapFaultKeeps(s1, a, va, true);
    HeapOffset(s, a, src);
    HeapOffset(s, a, dst);
    WindowIsPrivate(s, a, HeapVpn(s.spaces[a]) + src);
    WindowIsPrivate(s, a, HeapVpn(s.spaces[a]) + dst);
    SameRoots(s, s1);
  }

  lemma HeapAddress(s: Vm, a: nat, page: nat, k: nat)
    requires AddressSpaces.Inv(s) && a < |s.spaces| && page < HEAP_MAX_PAGES && k < PAGE_SIZE
    ensures var va := s.spaces[a].heapBase + page * PAGE_SIZE + k;
            VpnOf(va) == HeapVpn(s.spaces[a]) + page && InHeapRange(s.spaces[a], va)
  {
    hide TablesInv, FramesInv, SharingInv, WindowInv;
    HeapByte(s.spaces[a].heapBase, page, k);
  }

  lemma HeapByte(base: nat, page: nat, k: nat)
    requires base % AGENT_HEAP_SIZE == 0 && base < 0x8000_0000 && page < HEAP_MAX_PAGES && k < PAGE_SIZE
    ensures (base + page * PAGE_SIZE + k) / PAGE_SIZE == base / PAGE_SIZE + page < VPN_COUNT
  {
    var q := base / AGENT_HEAP_SIZE;
    assert base == (16 * q) * PAGE_SIZE;
    assert base / PAGE_SIZE == 16 * q;
    assert base + page * PAGE_SIZE + k == (16 * q + page) * PAGE_SIZE + k;
  }

  // ---------------------------------------------------------------- agent_setup_stack

  /** Through root r of f' every page is as through root q of f, but for two writable user pages on one stack. */
  ghost predicate StackAdded(f: Forest, q: nat, f': Forest, r: nat, v: nat, ppn: nat) {
    forall w: nat | w < VPN_COUNT ::
      Lookup(f', r, w) == if w == v then Some(Leaf(ppn, Perm(true, true, false, true)))
                          else if w == v + 1 then Some(Leaf(ppn + 1, Perm(true, true, false, true)))
                          else Lookup(f, q, w)
  }

  lemma MappedLacksNothing(f: Forest, root: nat, v: nat, w: nat)
    requires Lookup(f, root, v).Some? && Index(w, 2) == Index(v, 2) && Index(w, 1) == Index(v, 1)
    ensures Missing(f, root, w) == 0
  {
  }

  lemma EmptySlotLacksTwo(f: Forest, root: nat, v: nat)
    requires !Entry(f, root, Index(v, 2)).valid
    ensures Missing(f, root, v) == 2 && Lookup(f, root, v).None?
  {
  }

  lemma PoolBound(f: Forest, roots: set<nat>)
    requires Good(f, roots)
    ensures f.next <= PT_PAGES
  {
  }

  /** Two pages next to each other under an empty root slot need two nodes, and the tree then has exactly them more. */
  lemma TwoPagesExactly(f: Forest, roots: set<nat>, root: nat, v: nat, pa: nat)
    requires Good(f, roots) && root in roots && pa % PAGE_SIZE == 0 && v + 1 < VPN_COUNT
    requires Index(v + 1, 2) == Index(v, 2) && Index(v + 1, 1) == Index(v, 1) && !Entry(f, root, Index(v, 2)).valid
    ensures var (f', rc) := MapRegion(f, root, v * PAGE_SIZE, pa, 2, UserRW);
            && (rc == 0 <==> f.next + 2 <= PT_PAGES)
            && (rc == 0 ==> StackAdded(f, root, f', root, v, pa / PAGE_SIZE))
  {
    hide Good, Lookup, MapPage, Index, Missing, MapRegion, Entry;
    EmptySlotLacksTwo(f, root, v);
    EmptySlotLacksTwo(f, root, v + 1);
    var va := v * PAGE_SIZE;
    assert VpnOf(va) == v && VpnOf(va + PAGE_SIZE) == v + 1;
    TwoPages(f, root, va, pa, UserRW);
    MapPageRefines(f, roots, root, va, pa, UserRW);
    var (f1, rc1) := MapPage(f, root, va, pa, UserRW);
    if rc1 == 0 {
      MappedLacksNothing(f1, root, v, v + 1);
      PoolBound(f1, roots);
      MapPageRefines(f1, roots, root, va + PAGE_SIZE, pa + PAGE_SIZE, UserRW);
      assert (pa + PAGE_SIZE) / PAGE_SIZE == pa / PAGE_SIZE + 1;
    }
  }

  /** The stack pages of slot id: above its guard page, below the next slot's. */
  function StackVpn(id: nat): nat {
    0x4_0000 + 3 * id + 1
  }

  lemma StackVpnIs(id: nat)
    requires id < MAX_AGENTS
    ensures StackVa(id) == StackVpn(id) * PAGE_SIZE && StackVpn(id) + 1 < VPN_COUNT
    ensures Index(StackVpn(id), 2) == Index(StackVpn(id) + 1, 2) == 1
    ensures Index(StackVpn(id), 1) == Index(StackVpn(id) + 1, 1) == 0
  {
  }

  /** What the new space of a successful set-up shows: the kernel's map and two writable user pages. */
  ghost predicate NewSpace(s: Vm, id: nat, s': Vm, stack: nat) {
    && |s'.spaces| == |s.spaces| + 1
    && var n := |s.spaces|;
    && s'.spaces[n].heapBase == 0x6000_0000 + 0x1_0000 * id && s'.spaces[n].mapped == 0
    && StackAdded(s.f, s.f.kroot, s'.f, s'.spaces[n].root, StackVpn(id), stack / 4096)
  }

  /** The table half: a root and two nodes. */
  lemma TableExactly(s: Vm, id: nat, pa: nat)
    requires AddressSpaces.Inv(s) && id < MAX_AGENTS && pa % PAGE_SIZE == 0
    ensures var (f1, root) := CreateRoot(s.f);
            && (root.None? ==> s.f.next + 3 > PT_PAGES)
            && (!root.None? ==>
                  var (f2, rc) := MapRegion(f1, root.value, StackVa(id), pa, 2, UserRW);
                  && (rc == 0 <==> s.f.next + 3 <= PT_PAGES)
                  && (rc == 0 ==> StackAdded(s.f, s.f.kroot, f2, root.value, StackVpn(id), pa / PAGE_SIZE)))
  {
    CreateRootTakesOne(s.f);
    hide MemoryInv, FramesInv, SharingInv, WindowInv, Good, Lookup, CreateRoot, MapRegion, Index, StackVpn, Entry;
    CreateRootCopies(s.f, AllRoots(s));
    StackVpnIs(id);
    var (f1, root) := CreateRoot(s.f);
    if root.Some? {
      TwoPagesExactly(f1, AllRoots(s) + {root.value}, root.value, StackVpn(id), pa);
    }
  }

  lemma CreateRootTakesOne(f: Forest)
    ensures CreateRoot(f).1.Some? ==> CreateRoot(f).0.next == f.next + 1
  {
  }

  /**
   `agent_setup_stack` succeeds exactly when the heap still holds a page, the stack block and the trap frame from
   the next page boundary on, and the pool a root and two nodes.  The new space then has its two stack pages
   mapped to the block, readable and writable by the user, above an unmapped guard page, and otherwise the
   kernel's map.
   */
  lemma SetupExactly(s: Vm, id: nat)
    requires AddressSpaces.Inv(s) && id < MAX_AGENTS
    ensures var (s', rc) := Setup(s, id);
            var page := (s.heap.ptr + 4095) / 4096 * 4096;
            && (rc == 0 <==> page + 4096 + 8192 + 272 <= s.heap.end && s.f.next + 3 <= 64)
            && (rc == 0 ==> NewSpace(s, id, s', page + 4096) && s'.heap == Heap(page + 4096 + 8192 + 272, s.heap.end))
            && rc in {0, ENOSPC}
  {
    hide AddressSpaces.Inv, KernelHeap.Valid, Setup, HeapServes, NewSpace;
    HeapIsValid(s);
    SetupHeap(s.heap);
    PageMultiple(s.heap.ptr + 4095);
    SetupFrom(s, id, (s.heap.ptr + 4095) / 4096 * 4096);
  }

  /** The heap half: the page, the stack block behind it, the trap frame behind that. */
  ghost predicate HeapServes(h: Heap, page: nat) {
    var (h1, p) := KallocPage(h);
    var (h2, stack) := Kalloc(h1, AGENT_STACK_SIZE);
    var (h3, tf) := Kalloc(h2, TRAPFRAME_SIZE);
    && (p.None? <==> h.end < page + 4096)
    && (!p.None? ==> (stack.None? <==> h.end < page + 4096 + 8192))
    && (!p.None? && !stack.None? ==>
          && StackPa(stack.value) == page + 4096
          && (tf.None? <==> h.end < page + 4096 + 8192 + 272)
          && (!tf.None? ==> h3 == Heap(page + 4096 + 8192 + 272, h.end)))
  }

  lemma SetupHeap(h: Heap)
    requires KernelHeap.Valid(h)
    ensures HeapServes(h, (h.ptr + 4095) / 4096 * 4096)
  {
    hide Kalloc, StackPa;
    KallocPageExactly(h);
    var page := (h.ptr + 4095) / 4096 * 4096;
    PageMultiple(h.ptr + 4095);
    if page + 4096 <= h.end {
      hide KallocPage, HeapServes;
      BlocksServed(h, page);
    }
  }

  lemma PageMultiple(x: nat)
    ensures x / 4096 * 4096 % 4096 == 0
  {
  }

  lemma BlocksServed(h: Heap, page: nat)
    requires KernelHeap.Valid(h) && page % 4096 == 0 && page + 4096 <= h.end
    requires KallocPage(h) == (Heap(page + 4096, h.end), Some(page))
    ensures HeapServes(h, page)
  {
    hide KallocPage;
    KallocExactly(Heap(page + 4096, h.end), AGENT_STACK_SIZE);
    KallocExactly(Heap(page + 4096 + 8192, h.end), TRAPFRAME_SIZE);
  }

  lemma SetupFrom(s: Vm, id: nat, page: nat)
    requires AddressSpaces.Inv(s) && id < MAX_AGENTS && HeapServes(s.heap, page) && page % 4096 == 0
    ensures var (s', rc) := Setup(s, id);
            && (rc == 0 <==> page + 4096 + 8192 + 272 <= s.heap.end && s.f.next + 3 <= 64)
            && (rc == 0 ==> NewSpace(s, id, s', page + 4096) && s'.heap == Heap(page + 4096 + 8192 + 272, s.heap.end))
            && rc in {0, ENOSPC}
  {
    hide AddressSpaces.Inv, Lookup, CreateRoot, MapRegion, StackVa, StackVpn, Kalloc, KallocPage, StackPa, StackAdded;
    if page + 4096 + 8192 <= s.heap.end {
      TableExactly(s, id, page + 4096);
    }
  }

  /** The guard page below the stack and the page above it stay unmapped. */
  lemma GuardUnmapped(s: Vm, id: nat)
    requires AddressSpaces.Inv(s) && id < MAX_AGENTS && Setup(s, id).1 == 0
    ensures var (s', n) := (Setup(s, id).0, |s.spaces|);
            && |s'.spaces| == n + 1
            && At(s', n, StackVpn(id) - 1).None? && At(s', n, StackVpn(id) + 2).None?
  {
    StackSlotEmpty(s, StackVpn(id) - 1);
    StackSlotEmpty(s, StackVpn(id) + 2);
    hide AddressSpaces.Inv, Setup, Lookup;
    SetupExactly(s, id);
  }

  lemma StackSlotEmpty(s: Vm, v: nat)
    requires AddressSpaces.Inv(s) && 0x4_0000 <= v < 0x8_0000
    ensures Lookup(s.f, s.f.kroot, v).None?
  {
    hide MemoryInv, FramesInv, SharingInv, WindowInv, Good;
    assert Index(v, 2) == 1;
  }
}
