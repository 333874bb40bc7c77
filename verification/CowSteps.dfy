/** Each operation on address spaces keeps the invariant, and what it does to the contents of pages. */
module CowSteps {
  import opened Base
  import opened PageTable
  import opened KernelHeap
  import opened AddressSpaces
  import opened CowProofs
  import opened SharedPages

  /** Among private pages, exactly page v of space a changes what it reads, to c (if `done`). */
  ghost predicate ContentChange(s: Vm, s': Vm, a: nat, v: nat, c: Option<seq<byte>>, done: bool) {
    && SameSpaces(s, s')
    && (forall b, w: nat | 0 <= b < |s.spaces| && Private(s.f, w) :: Content(s', b, w) ==
          if done && b == a && w == v then c else Content(s, b, w))
  }

  /** A step that maps or remaps page v of space a to a frame that was not handed out before. */
  ghost predicate NewFrameStep(s: Vm, s': Vm, a: nat, v: nat, p: Pte, done: bool) {
    && a < |s.spaces|
    && LeafChange(s, s', a, v, p, done) && OnlyLeaf(s, s', v, p, done) && MemoryGrows(s, s')
    && (done ==> IsNew(s, s', p.ppn))
    && CountsLeaf(s, s', a, v, done)
    && (done && InWindow(s.spaces[a], v) ==> p.perm.u && p.perm.r)
  }

  lemma NewFrameStepKeeps(s: Vm, s': Vm, a: nat, v: nat, p: Pte, done: bool)
    requires AddressSpaces.Inv(s) && TablesInv(s') && NewFrameStep(s, s', a, v, p, done)
    ensures AddressSpaces.Inv(s')
  {
    GrowthKeepsMemory(s, s');
    NewFrameKeepsFrames(s, s', a, v, p, done);
    NewFrameKeepsSharing(s, s', a, v, p, done);
    LeafKeepsWindow(s, s', a, v, p, done);
  }

  /** Pages mapped before keep their bytes when only new frames are written. */
  lemma NewFrameContent(s: Vm, s': Vm, a: nat, v: nat, p: Pte, done: bool)
    requires AddressSpaces.Inv(s) && NewFrameStep(s, s', a, v, p, done)
    requires forall q | q in s.ram && HandedOut(s, q) :: s'.ram[q] == s.ram[q]
    ensures ContentChange(s, s', a, v, Some(Frame(s', p.ppn)), done)
  {
    forall b, w: nat | 0 <= b < |s.spaces| && Private(s.f, w)
      ensures Content(s', b, w) == if done && b == a && w == v then Some(Frame(s', p.ppn)) else Content(s, b, w)
    {
      if At(s, b, w).Some? {
        assert HandedOut(s, At(s, b, w).value.ppn);
      }
    }
  }

  lemma TablesCarry(s: Vm, s': Vm)
    requires TablesInv(s) && s'.f == s.f && SameSpaces(s, s')
    ensures TablesInv(s')
  {
    SameRoots(s, s');
  }

  lemma MemoryCarry(s: Vm, s': Vm)
    requires MemoryInv(s) && s'.heap == s.heap && s'.ram == s.ram && SameSpaces(s, s')
    ensures MemoryInv(s')
  {
  }

  // ---------------------------------------------------------------- vm_heap_map_page

  lemma HeapMapPrivate(s: Vm, a: nat, va: nat)
    requires AddressSpaces.Inv(s) && a < |s.spaces|
    ensures var (s', rc) := HeapMap(s, a, va);
            var v := VpnOf(va);
            && ContentChange(s, s', a, v, Content(s', a, v), rc == 0 && At(s, a, v).None?)
            && (rc == 0 ==> InHeapRange(s.spaces[a], va) && At(s', a, v).Some?)
            && (rc == 0 && At(s, a, v).None? ==> At(s', a, v).value.perm == UserRW)
            && AddressSpaces.Inv(s')
  {
    hide Good, FramesInv, SharingInv, WindowInv, Lookup, Index, Entry;
    var sp, v := s.spaces[a], VpnOf(va);
    var (s', rc) := HeapMap(s, a, va);
    RangeIsWindow(s, a, va);
    PageHandedOut(s.heap);
    if InHeapRange(sp, va) && At(s, a, v).None? && sp.mapped < HEAP_MAX_PAGES && KallocPage(s.heap).1.Some? {
      WindowIsPrivate(s, a, v);
      var pa := KallocPage(s.heap).1.value;
      MapEffect(s, a, RoundDown(va, PAGE_SIZE), pa, UserRW);
      TablesCarry(s.(f := s'.f), s');
      var p := Leaf(pa / PAGE_SIZE, UserRW);
      NewFrameStepKeeps(s, s', a, v, p, rc == 0);
      NewFrameContent(s, s', a, v, p, rc == 0);
    }
  }

  /** A heap mapping changes one unmapped private page at most, and nothing on common pages. */
  lemma HeapMapKeeps(s: Vm, a: nat, va: nat)
    requires AddressSpaces.Inv(s) && a < |s.spaces|
    ensures var (s', rc) := HeapMap(s, a, va);
            var v := VpnOf(va);
            && ContentChange(s, s', a, v, Content(s', a, v), rc == 0 && At(s, a, v).None?)
            && (rc == 0 ==> InHeapRange(s.spaces[a], va) && At(s', a, v).Some?)
            && (rc == 0 && At(s, a, v).None? ==> At(s', a, v).value.perm == UserRW)
            && CommonSame(s, s')
            && AddressSpaces.Inv(s')
  {
    hide AddressSpaces.Inv, ContentChange, CommonSame, HeapMap, Lookup;
    HeapMapPrivate(s, a, va);
    HeapMapCommon(s, a, va);
  }

  // ---------------------------------------------------------------- vm_cow_break

  /** The write fault takes the copying path. */
  predicate CowCopies(s: Vm, a: nat, v: nat)
    requires a < |s.spaces|
  {
    At(s, a, v).Some? && !At(s, a, v).value.perm.w && KallocPage(s.heap).1.Some?
  }

  lemma CowBreakStep(s: Vm, a: nat, v: nat)
    requires TablesInv(s) && MemoryInv(s) && FramesInv(s) && a < |s.spaces| && InWindow(s.spaces[a], v)
    requires CowCopies(s, a, v)
    ensures var (s', rc) := CowBreak(s, a, v);
            var p := Leaf(KallocPage(s.heap).1.value / PAGE_SIZE, UserRW);
            && rc == 0 && NewFrameStep(s, s', a, v, p, true)
            && Frame(s', p.ppn) == Frame(s, At(s, a, v).value.ppn)
            && (forall q | q in s.ram && HandedOut(s, q) :: s'.ram[q] == s.ram[q])
            && TablesInv(s')
  {
    WindowIsPrivate(s, a, v);
    PageHandedOut(s.heap);
    assert HandedOut(s, At(s, a, v).value.ppn);
    hide Good, Lookup, Index, Entry, InWindow, FramesInv, KallocPage;
    var copy := KallocPage(s.heap).1.value / PAGE_SIZE;
    RewriteEffect(s, a, v, Leaf(copy, UserRW));
    var s' := CowBreak(s, a, v).0;
    TablesCarry(s.(f := s'.f), s');
  }

  lemma CowBreakKeeps(s: Vm, a: nat, v: nat)
    requires AddressSpaces.Inv(s) && a < |s.spaces| && InWindow(s.spaces[a], v)
    ensures var (s', rc) := CowBreak(s, a, v);
            && ContentChange(s, s', a, v, None, false)
            && (rc == 0 ==> At(s', a, v).Some? && At(s', a, v).value.perm.u && At(s', a, v).value.perm.r &&
                            At(s', a, v).value.perm.w)
            && CommonSame(s, s')
            && AddressSpaces.Inv(s')
  {
    hide CommonSame;
    CowBreakCommon(s, a, v);
    assert At(s, a, v).Some? ==> At(s, a, v).value.perm.u && At(s, a, v).value.perm.r;
    WindowIsPrivate(s, a, v);
    hide Good, FramesInv, SharingInv, WindowInv, MemoryInv, TablesInv, Lookup, Private;
    if CowCopies(s, a, v) {
      var p := Leaf(KallocPage(s.heap).1.value / PAGE_SIZE, UserRW);
      CowBreakStep(s, a, v);
      var s' := CowBreak(s, a, v).0;
      NewFrameStepKeeps(s, s', a, v, p, true);
      NewFrameContent(s, s', a, v, p, true);
    }
  }

  // ---------------------------------------------------------------- vm_heap_fault

  /**
   A resolved fault is invisible and sufficient: no mapped page reads differently, and the access that
   faulted now passes the page check.
   */
  lemma HeapFaultKeeps(s: Vm, a: nat, va: nat, write: bool)
    requires AddressSpaces.Inv(s) && a < |s.spaces|
    ensures var (s', ok) := HeapFault(s, a, va, write);
            var v := VpnOf(va);
            && AddressSpaces.Inv(s')
            && ContentChange(s, s', a, v, Content(s', a, v), ok && At(s, a, v).None?)
            && (ok ==> At(s', a, v).Some? && At(s', a, v).value.perm.u && At(s', a, v).value.perm.r)
            && (ok && write ==> At(s', a, v).value.perm.w)
            && CommonSame(s, s')
  {
    hide CommonSame;
    HeapFaultCommon(s, a, va, write);
    var v := VpnOf(va);
    RangeIsWindow(s, a, va);
    if InHeapRange(s.spaces[a], va) {
      if At(s, a, v).Some? {
        if write && !At(s, a, v).value.perm.w {
          CowBreakKeeps(s, a, v);
        }
      } else {
        HeapMapKeeps(s, a, va);
      }
    }
  }

  // ---------------------------------------------------------------- user stores

  /** A store through a common page shows on the common pages on its frame; a store through a private one on none. */
  function StoredReading(s: Vm, a: nat, va: nat, b: byte, r: nat, w: nat): Option<seq<byte>>
    requires a < |s.spaces|
  {
    var now := Reading(s, r, w);
    if now.Some? && CanStore(s, a, va) && Common(s.f, VpnOf(va)) && |now.value| == PAGE_SIZE &&
       Lookup(s.f, r, w).value.ppn == At(s, a, VpnOf(va)).value.ppn
    then Some(Poke(now.value, va % PAGE_SIZE, b)) else now
  }

  ghost predicate CommonStored(s: Vm, s': Vm, a: nat, va: nat, b: byte)
    requires a < |s.spaces|
  {
    && (forall r: nat, w: nat | r in AllRoots(s) && Common(s.f, w) :: Lookup(s'.f, r, w) == Lookup(s.f, r, w))
    && (forall r: nat, w: nat | r in AllRoots(s) && Common(s.f, w) ::
          Reading(s', r, w) == StoredReading(s, a, va, b, r, w))
  }

  lemma StoreCommon(s: Vm, a: nat, va: nat, b: byte)
    requires AddressSpaces.Inv(s) && a < |s.spaces|
    ensures CommonStored(s, Store(s, a, va, b), a, va, b)
  {
    hide Lookup, AddressSpaces.Inv, Private, Poke, VpnOf;
    var s', v := Store(s, a, va, b), VpnOf(va);
    forall r: nat, w: nat | r in AllRoots(s) && Common(s.f, w)
      ensures Reading(s', r, w) == StoredReading(s, a, va, b, r, w)
    {
      if Reading(s, r, w).Some? && CanStore(s, a, va) && Private(s.f, v) {
        WritablePrivateIsAlone(s, a, v, r, w);
      }
    }
  }

  lemma StorePrivate(s: Vm, a: nat, va: nat, b: byte)
    requires AddressSpaces.Inv(s) && a < |s.spaces|
    ensures var s' := Store(s, a, va, b);
            var v := VpnOf(va);
            && AddressSpaces.Inv(s')
            && s'.f == s.f
            && (Private(s.f, v) && CanStore(s, a, va) ==>
                  |Content(s, a, v).value| == PAGE_SIZE &&
                  ContentChange(s, s', a, v, Some(Poke(Content(s, a, v).value, va % PAGE_SIZE, b)), true))
            && (!(Private(s.f, v) && CanStore(s, a, va)) ==> ContentChange(s, s', a, v, None, false))
  {
    hide Good, Lookup, MappedPages;
    var s', v := Store(s, a, va, b), VpnOf(va);
    if CanStore(s, a, va) {
      var p := At(s, a, v).value;
      WritableIsAlone(s, a, v);
      if Private(s.f, v) {
        assert HandedOut(s, p.ppn);
      }
      RamChangeKeeps(s, s');
    }
  }

  /**
   A store changes one private page at most, since a writable private page shares its frame with no visible
   page; through a common page it changes the common pages on its frame.
   */
  lemma StoreKeeps(s: Vm, a: nat, va: nat, b: byte)
    requires AddressSpaces.Inv(s) && a < |s.spaces|
    ensures var s' := Store(s, a, va, b);
            var v := VpnOf(va);
            && AddressSpaces.Inv(s')
            && s'.f == s.f
            && (Private(s.f, v) && CanStore(s, a, va) ==>
                  |Content(s, a, v).value| == PAGE_SIZE &&
                  ContentChange(s, s', a, v, Some(Poke(Content(s, a, v).value, va % PAGE_SIZE, b)), true))
            && (!(Private(s.f, v) && CanStore(s, a, va)) ==> ContentChange(s, s', a, v, None, false))
            && CommonStored(s, s', a, va, b)
  {
    hide AddressSpaces.Inv, ContentChange, CommonStored, Store, Lookup, Private, VpnOf, Poke;
    StorePrivate(s, a, va, b);
    StoreCommon(s, a, va, b);
  }

  /** No private page other than (a, v) itself is on the frame of a writable visible page (a, v). */
  lemma WritableIsAlone(s: Vm, a: nat, v: nat)
    requires AddressSpaces.Inv(s) && a < |s.spaces| && Visible(s.f, s.spaces[a].root, v) && At(s, a, v).value.perm.w
    ensures forall c, w: nat | 0 <= c < |s.spaces| && Private(s.f, w) && At(s, c, w).Some? && (c != a || w != v) ::
              At(s, c, w).value.ppn != At(s, a, v).value.ppn
  {
    hide Good, Lookup, MappedPages, WindowInv, FramesInv;
    assert s.spaces[a].root in Roots(s);
    forall c, w: nat | 0 <= c < |s.spaces| && Private(s.f, w) && At(s, c, w).Some? && (c != a || w != v)
      ensures At(s, c, w).value.ppn != At(s, a, v).value.ppn
    {
      assert Lookup(s.f, s.spaces[a].root, v).value.perm.w;
    }
  }

  /** Nothing visible elsewhere, the kernel's user pages included, is on the frame of a writable private page. */
  lemma WritablePrivateIsAlone(s: Vm, a: nat, v: nat, r: nat, w: nat)
    requires AddressSpaces.Inv(s) && a < |s.spaces| && Private(s.f, v) && At(s, a, v).Some? && At(s, a, v).value.perm.w
    requires r in AllRoots(s) && Visible(s.f, r, w) && (r != s.spaces[a].root || w != v)
    ensures Lookup(s.f, r, w).value.ppn != At(s, a, v).value.ppn
  {
    hide Good, Lookup, MappedPages, WindowInv, FramesInv, TablesInv, MemoryInv;
  }

  /** New bytes in a page frame, and nothing else, keep the invariant. */
  lemma RamChangeKeeps(s: Vm, s': Vm)
    requires AddressSpaces.Inv(s) && s' == s.(ram := s'.ram) && MemoryGrows(s, s')
    ensures AddressSpaces.Inv(s')
  {
    hide Good, Lookup, FramesInv, SharingInv, WindowInv;
    GrowthKeepsMemory(s, s');
    TablesCarry(s, s');
    RamIsNotTables(s, s');
  }

  lemma RamIsNotTables(s: Vm, s': Vm)
    requires s' == s.(ram := s'.ram)
    ensures FramesInv(s) ==> FramesInv(s')
    ensures SharingInv(s) ==> SharingInv(s')
    ensures WindowInv(s) ==> WindowInv(s')
  {
    hide Lookup;
    assert Roots(s') == Roots(s);
    forall c | 0 <= c < |s.spaces| ensures MappedPages(s', c) == MappedPages(s, c) {}
    if FramesInv(s) {
      forall r, w: nat | r in AllRoots(s') && Visible(s'.f, r, w) ensures Taken(s', Lookup(s'.f, r, w).value.ppn) {
        assert Taken(s, Lookup(s.f, r, w).value.ppn);
      }
      forall c, w: nat | 0 <= c < |s'.spaces| && Private(s'.f, w) && At(s', c, w).Some?
        ensures HandedOut(s', At(s', c, w).value.ppn)
      {
        assert HandedOut(s, At(s, c, w).value.ppn);
      }
    }
    if SharingInv(s) {
      forall c, x: nat, r, y: nat |
        && 0 <= c < |s'.spaces| && Private(s'.f, x) && At(s', c, x).Some?
        && r in AllRoots(s') && Visible(s'.f, r, y) && (r != s'.spaces[c].root || x != y)
        && At(s', c, x).value.ppn == Lookup(s'.f, r, y).value.ppn
        ensures MayShare(s', c, x, r, y)
      {
        assert MayShare(s, c, x, r, y);
      }
    }
  }

  // ---------------------------------------------------------------- vm_heap_cow_alias

  /** After a successful alias the two pages are read-only on one frame, and nothing else has moved. */
  ghost predicate Aliased(s: Vm, s': Vm, a: nat, src: nat, dst: nat, p: Pte) {
    && SameSpaces(s, s')
    && (forall b, w: nat | 0 <= b < |s.spaces| && Private(s.f, w) :: At(s', b, w) ==
          if b == a && (w == src || w == dst) then Some(p) else At(s, b, w))
    && (forall r, w: nat | r in AllRoots(s) && w < VPN_COUNT ::
          || Lookup(s'.f, r, w) == Lookup(s.f, r, w)
          || ((w == src || w == dst) && Lookup(s'.f, r, w) == Some(p)))
  }

  lemma AliasMapKeeps(s: Vm, a: nat, dst: nat, ppn: nat)
    requires TablesInv(s) && MemoryInv(s) && WindowInv(s) && a < |s.spaces| && dst < HEAP_MAX_PAGES
    ensures var (s', rc) := AliasMap(s, a, dst, ppn);
            var v := HeapVpn(s.spaces[a]) + dst;
            && TablesInv(s') && MemoryInv(s') && WindowInv(s') && s'.heap == s.heap && s'.ram == s.ram
            && LeafChange(s, s', a, v, Leaf(ppn, UserRO), rc == 0 && At(s, a, v).None?)
            && OnlyLeaf(s, s', v, Leaf(ppn, UserRO), rc == 0 && At(s, a, v).None?)
            && (rc == 0 && At(s, a, v).Some? ==> At(s, a, v).value.ppn == ppn)
  {
    hide Good, Lookup, MappedPages, WindowInv, HeapVpn, VpnOf, Index, Entry, MapPage, MemoryInv, InWindow;
    var sp := s.spaces[a];
    var v := HeapVpn(sp) + dst;
    if At(s, a, v).None? && sp.mapped < HEAP_MAX_PAGES {
      HeapOffset(s, a, dst);
      WindowIsPrivate(s, a, v);
      var va := sp.heapBase + dst * PAGE_SIZE;
      MapEffect(s, a, va, ppn * PAGE_SIZE, UserRO);
      var (s', rc) := AliasMap(s, a, dst, ppn);
      TablesCarry(s.(f := s'.f), s');
      MemoryCarry(s, s');
      LeafKeepsWindow(s, s', a, v, Leaf(ppn, UserRO), rc == 0);
    }
  }

  lemma AliasProtectKeeps(s: Vm, a: nat, src: nat, dst: nat, ppn: nat)
    requires TablesInv(s) && MemoryInv(s) && WindowInv(s) && a < |s.spaces|
    requires InWindow(s.spaces[a], src) && InWindow(s.spaces[a], dst) && At(s, a, src).Some? && At(s, a, dst).Some?
    ensures var (s', rc) := AliasProtect(s, a, src, dst, ppn);
            && rc == 0 && TablesInv(s') && WindowInv(s') && s'.heap == s.heap && s'.ram == s.ram
            && Aliased(s, s', a, src, dst, Leaf(ppn, UserRO))
  {
    hide Good, Lookup, MappedPages, WindowInv, InWindow;
    var ro := Leaf(ppn, UserRO);
    WindowIsPrivate(s, a, src);
    WindowIsPrivate(s, a, dst);
    RewriteEffect(s, a, src, ro);
    var s1 := SetLeaf(s, a, src, ro);
    LeafKeepsWindow(s, s1, a, src, ro, true);
    SameRoots(s, s1);
    RewriteEffect(s1, a, dst, ro);
    LeafKeepsWindow(s1, SetLeaf(s1, a, dst, ro), a, dst, ro, true);
  }

  lemma AliasCompose(s: Vm, s1: Vm, s2: Vm, a: nat, src: nat, dst: nat, p: Pte, done: bool)
    requires a < |s.spaces|
    requires LeafChange(s, s1, a, dst, p, done) && OnlyLeaf(s, s1, dst, p, done)
    requires Aliased(s1, s2, a, src, dst, p)
    ensures Aliased(s, s2, a, src, dst, p)
  {
    hide Lookup;
    SameRoots(s, s1);
  }

  /** The same facts step by step: map the destination if needed, then rewrite both entries. */
  lemma AliasSteps(s: Vm, a: nat, dst: int, src: int)
    requires TablesInv(s) && MemoryInv(s) && WindowInv(s) && a < |s.spaces|
    ensures var (s', rc) := Alias(s, a, dst, src);
            && TablesInv(s') && WindowInv(s') && s'.heap == s.heap && s'.ram == s.ram
            && (rc == 0 ==>
                  && 0 <= src < HEAP_MAX_PAGES && 0 <= dst < HEAP_MAX_PAGES && src != dst
                  && var sv, dv := HeapVpn(s.spaces[a]) + src, HeapVpn(s.spaces[a]) + dst;
                  && At(s, a, sv).Some?
                  && (At(s, a, dv).Some? ==> At(s, a, dv).value.ppn == At(s, a, sv).value.ppn)
                  && Aliased(s, s', a, sv, dv, Leaf(At(s, a, sv).value.ppn, UserRO)))
            && (rc != 0 ==> LeafChange(s, s', a, 0, EmptyPte, false) && OnlyLeaf(s, s', 0, EmptyPte, false))
  {
    hide Lookup, WindowInv, TablesInv, MemoryInv, SameSpaces, HeapVpn, InWindow, LeafChange, OnlyLeaf, Aliased,
         AliasMap, AliasProtect;
    if dst == src || src < 0 || src >= HEAP_MAX_PAGES || dst < 0 || dst >= HEAP_MAX_PAGES {
      NothingChanged(s, a);
      return;
    }
    var sv, dv := HeapVpn(s.spaces[a]) + src, HeapVpn(s.spaces[a]) + dst;
    if At(s, a, sv).None? {
      NothingChanged(s, a);
      return;
    }
    AliasMapThenProtect(s, a, dst, src);
  }

  lemma NothingChanged(s: Vm, a: nat)
    ensures LeafChange(s, s, a, 0, EmptyPte, false) && OnlyLeaf(s, s, 0, EmptyPte, false)
  {
  }

  lemma AliasMapThenProtect(s: Vm, a: nat, dst: nat, src: nat)
    requires TablesInv(s) && MemoryInv(s) && WindowInv(s) && a < |s.spaces|
    requires src < HEAP_MAX_PAGES && dst < HEAP_MAX_PAGES && At(s, a, HeapVpn(s.spaces[a]) + src).Some?
    ensures var sv, dv := HeapVpn(s.spaces[a]) + src, HeapVpn(s.spaces[a]) + dst;
            var p := Leaf(At(s, a, sv).value.ppn, UserRO);
            var (s1, rc) := AliasMap(s, a, dst, p.ppn);
            && (rc == 0 ==>
                  var (s2, rc2) := AliasProtect(s1, a, sv, dv, p.ppn);
                  && (At(s, a, dv).Some? ==> At(s, a, dv).value.ppn == p.ppn)
                  && rc2 == 0 && s2.heap == s.heap && s2.ram == s.ram
                  && Aliased(s, s2, a, sv, dv, p) && TablesInv(s2) && WindowInv(s2))
            && (rc != 0 ==> LeafChange(s, s1, a, 0, EmptyPte, false) && OnlyLeaf(s, s1, 0, EmptyPte, false))
            && TablesInv(s1) && WindowInv(s1) && s1.heap == s.heap && s1.ram == s.ram
  {
    hide Good, Lookup, WindowInv, TablesInv, AliasMap, AliasProtect, Aliased;
    var sv, dv := HeapVpn(s.spaces[a]) + src, HeapVpn(s.spaces[a]) + dst;
    var ppn := At(s, a, sv).value.ppn;
    WindowIsPrivate(s, a, sv);
    WindowIsPrivate(s, a, dv);
    AliasMapKeeps(s, a, dst, ppn);
    var (s1, rc) := AliasMap(s, a, dst, ppn);
    assert HeapVpn(s1.spaces[a]) == HeapVpn(s.spaces[a]);
    hide MemoryInv, HeapVpn, VpnOf, Index, OnlyLeaf;
    if rc == 0 {
      AliasProtectKeeps(s1, a, sv, dv, ppn);
      AliasCompose(s, s1, AliasProtect(s1, a, sv, dv, ppn).0, a, sv, dv, Leaf(ppn, UserRO), At(s, a, dv).None?);
    }
  }

  /** For every other root, private pages translate as before the alias. */
  lemma AliasOthersSame(s: Vm, s': Vm, a: nat, src: nat, dst: nat, p: Pte, r: nat, x: nat)
    requires Aliased(s, s', a, src, dst, p) && a < |s.spaces|
    requires r in AllRoots(s) && r != s.spaces[a].root && Private(s.f, x)
    ensures Lookup(s'.f, r, x) == Lookup(s.f, r, x)
  {
    if r != s.f.kroot {
      var b :| 0 <= b < |s.spaces| && s.spaces[b].root == r;
      assert At(s', b, x) == At(s, b, x);
    }
  }

  lemma AliasKeepsFrames(s: Vm, s': Vm, a: nat, src: nat, dst: nat, p: Pte)
    requires FramesInv(s) && a < |s.spaces| && Private(s.f, src) && Private(s.f, dst)
    requires s'.heap == s.heap && Aliased(s, s', a, src, dst, p)
    requires At(s, a, src).Some? && p.ppn == At(s, a, src).value.ppn
    ensures FramesInv(s')
  {
    hide Lookup;
    SameRoots(s, s');
    assert HandedOut(s, p.ppn);
    forall b, w: nat | 0 <= b < |s'.spaces| && Private(s'.f, w) && At(s', b, w).Some?
      ensures HandedOut(s', At(s', b, w).value.ppn)
    {
      if !(b == a && (w == src || w == dst)) {
        assert HandedOut(s, At(s, b, w).value.ppn);
      }
    }
    forall r, w: nat | r in AllRoots(s') && Visible(s'.f, r, w) ensures Taken(s', Lookup(s'.f, r, w).value.ppn) {
      if Lookup(s'.f, r, w) == Lookup(s.f, r, w) {
        assert Taken(s, Lookup(s.f, r, w).value.ppn);
      }
    }
  }

  lemma AliasKeepsSharing(s: Vm, s': Vm, a: nat, src: nat, dst: nat, p: Pte)
    requires SharingInv(s) && a < |s.spaces| && Private(s.f, src) && Private(s.f, dst)
    requires InWindow(s.spaces[a], src) && InWindow(s.spaces[a], dst)
    requires forall b | 0 <= b < |s.spaces| && b != a :: s.spaces[b].root != s.spaces[a].root
    requires Aliased(s, s', a, src, dst, p) && !p.perm.w
    requires At(s, a, src).Some? && p.ppn == At(s, a, src).value.ppn
    ensures SharingInv(s')
  {
    hide Lookup, Index, Entry;
    SameRoots(s, s');
    var root := s.spaces[a].root;
    assert root in Roots(s);
    assert Visible(s.f, root, src);
    forall b, w: nat, r, x: nat |
      && 0 <= b < |s'.spaces| && Private(s'.f, w) && At(s', b, w).Some?
      && r in AllRoots(s') && Visible(s'.f, r, x) && (r != s'.spaces[b].root || w != x)
      && At(s', b, w).value.ppn == Lookup(s'.f, r, x).value.ppn
      ensures MayShare(s', b, w, r, x)
    {
      var left := b == a && (w == src || w == dst);
      var right := r == root && (x == src || x == dst);
      if r != root && Private(s.f, x) { AliasOthersSame(s, s', a, src, dst, p, r, x); }
      assert right || Lookup(s'.f, r, x) == Lookup(s.f, r, x);
      if left && !right {
        assert MayShare(s, a, src, r, x);
      } else if !left && right {
        assert MayShare(s, b, w, root, src);
      } else if !left && !right {
        assert MayShare(s, b, w, r, x);
      }
    }
  }

  lemma AliasCommon(s: Vm, a: nat, dst: int, src: int)
    requires AddressSpaces.Inv(s) && a < |s.spaces|
    ensures CommonSame(s, Alias(s, a, dst, src).0)
  {
    hide Good, FramesInv, SharingInv, WindowInv, Lookup, HeapVpn, Index, Entry, Alias, InWindow, CommonSame, TakenSame;
    AliasSteps(s, a, dst, src);
    var (s', rc) := Alias(s, a, dst, src);
    if rc == 0 {
      HeapOffset(s, a, src);
      HeapOffset(s, a, dst);
      WindowIsPrivate(s, a, HeapVpn(s.spaces[a]) + src);
      WindowIsPrivate(s, a, HeapVpn(s.spaces[a]) + dst);
    }
    SameRam(s, s');
    CommonFrom(s, s');
  }

  lemma AliasPrivate(s: Vm, a: nat, dst: int, src: int)
    requires AddressSpaces.Inv(s) && a < |s.spaces|
    ensures var (s', rc) := Alias(s, a, dst, src);
            && (rc == 0 ==>
                  && 0 <= src < HEAP_MAX_PAGES && 0 <= dst < HEAP_MAX_PAGES
                  && var sv, dv := HeapVpn(s.spaces[a]) + src, HeapVpn(s.spaces[a]) + dst;
                  && Content(s, a, sv).Some? && (Content(s, a, dv).Some? ==> Content(s, a, dv) == Content(s, a, sv))
                  && ContentChange(s, s', a, dv, Content(s, a, sv), true))
            && (rc != 0 ==> ContentChange(s, s', a, 0, None, false))
            && AddressSpaces.Inv(s')
  {
    hide Good, FramesInv, SharingInv, WindowInv, Lookup, HeapVpn, Index, Entry, Alias, InWindow;
    AliasSteps(s, a, dst, src);
    var (s', rc) := Alias(s, a, dst, src);
    if rc == 0 {
      var sv, dv := HeapVpn(s.spaces[a]) + src, HeapVpn(s.spaces[a]) + dst;
      HeapOffset(s, a, src);
      HeapOffset(s, a, dst);
      WindowIsPrivate(s, a, sv);
      WindowIsPrivate(s, a, dv);
      var p := Leaf(At(s, a, sv).value.ppn, UserRO);
      MemoryCarry(s, s');
      AliasKeepsFrames(s, s', a, sv, dv, p);
      AliasKeepsSharing(s, s', a, sv, dv, p);
    } else {
      MemoryCarry(s, s');
      NewFrameKeepsFrames(s, s', a, 0, EmptyPte, false);
      NewFrameKeepsSharing(s, s', a, 0, EmptyPte, false);
    }
  }

  /** A successful alias makes the destination read what the source reads, and changes nothing else. */
  lemma AliasKeeps(s: Vm, a: nat, dst: int, src: int)
    requires AddressSpaces.Inv(s) && a < |s.spaces|
    ensures var (s', rc) := Alias(s, a, dst, src);
            && (rc == 0 ==>
                  && 0 <= src < HEAP_MAX_PAGES && 0 <= dst < HEAP_MAX_PAGES
                  && var sv, dv := HeapVpn(s.spaces[a]) + src, HeapVpn(s.spaces[a]) + dst;
                  && Content(s, a, sv).Some? && (Content(s, a, dv).Some? ==> Content(s, a, dv) == Content(s, a, sv))
                  && ContentChange(s, s', a, dv, Content(s, a, sv), true))
            && (rc != 0 ==> ContentChange(s, s', a, 0, None, false))
            && CommonSame(s, s')
            && AddressSpaces.Inv(s')
  {
    hide AddressSpaces.Inv, ContentChange, CommonSame, Alias, Lookup, HeapVpn, Content;
    AliasPrivate(s, a, dst, src);
    AliasCommon(s, a, dst, src);
  }

  // ---------------------------------------------------------------- loaded pages

  /**
   A page loaded at a common page number (if `done`) appears in exactly the tables that share the slot above it;
   nothing else changes on common pages.
   */
  ghost predicate CommonLoaded(s: Vm, s': Vm, a: nat, v: nat, perm: Perm, content: seq<byte>, done: bool)
    requires a < |s.spaces|
  {
    && (forall r: nat, w: nat | r in AllRoots(s) && Common(s.f, w) && Lookup(s.f, r, w).Some? ::
          Lookup(s'.f, r, w) == Lookup(s.f, r, w))
    && (forall r: nat, w: nat | r in AllRoots(s) && Common(s.f, w) :: Reading(s', r, w) ==
          if done && w == v && SharesSlot(s.f, s.spaces[a].root, r, Index(w, 2))
          then (if perm.u then Some(content) else None) else Reading(s, r, w))
    && (forall r: nat | done && r in AllRoots(s) && Common(s.f, v) &&
                        SharesSlot(s.f, s.spaces[a].root, r, Index(v, 2)) :: Lookup(s.f, r, v).None?)
  }

  lemma LoadPageCommon(s: Vm, a: nat, va: nat, perm: Perm, content: seq<byte>)
    requires AddressSpaces.Inv(s) && a < |s.spaces|
    ensures var (s', rc) := LoadPage(s, a, va, perm, content);
            CommonLoaded(s, s', a, VpnOf(va), perm, content, rc == 0)
  {
    hide Good, SharingInv, WindowInv, MapPage, VpnOf, Index, FramesInv, MemoryInv;
    var root := s.spaces[a].root;
    if KallocPage(s.heap).1.Some? {
      var pa := KallocPage(s.heap).1.value;
      NextNotTaken(s);
      assert root in Roots(s);
      MapPageRefines(s.f, AllRoots(s), root, va, pa, perm);
      var (s', rc) := LoadPage(s, a, va, perm, content);
      hide Lookup, LoadPage;
      forall r: nat, w: nat | r in AllRoots(s) && Common(s.f, w)
        ensures Lookup(s.f, r, w).Some? ==> Lookup(s'.f, r, w) == Lookup(s.f, r, w)
        ensures rc == 0 && w == VpnOf(va) && SharesSlot(s.f, root, r, Index(w, 2)) ==> Lookup(s.f, r, w).None?
        ensures Reading(s', r, w) ==
                if rc == 0 && w == VpnOf(va) && SharesSlot(s.f, root, r, Index(w, 2))
                then (if perm.u then Some(content) else None) else Reading(s, r, w)
      {
        if rc == 0 && w == VpnOf(va) && SharesSlot(s.f, root, r, Index(w, 2)) {
          SharedLookup(s.f, root, r, w);
        } else if Lookup(s.f, r, w).Some? && Lookup(s.f, r, w).value.perm.u {
          VisibleTaken(s, r, w);
        }
      }
    }
  }

  lemma VisibleTaken(s: Vm, r: nat, w: nat)
    requires FramesInv(s) && r in AllRoots(s) && Visible(s.f, r, w)
    ensures Taken(s, Lookup(s.f, r, w).value.ppn)
  {
  }

  lemma LoadPagePrivate(s: Vm, a: nat, va: nat, perm: Perm, content: seq<byte>)
    requires AddressSpaces.Inv(s) && a < |s.spaces| && |content| == PAGE_SIZE
    requires !InWindow(s.spaces[a], VpnOf(va))
    ensures var (s', rc) := LoadPage(s, a, va, perm, content);
            && (rc == 0 ==> Content(s, a, VpnOf(va)).None?)
            && ContentChange(s, s', a, VpnOf(va), Some(content), rc == 0)
            && AddressSpaces.Inv(s')
  {
    hide Good, FramesInv, SharingInv, WindowInv, Lookup, Index, Entry, MapPage, VpnOf, InWindow;
    PageHandedOut(s.heap);
    var (s', rc) := LoadPage(s, a, va, perm, content);
    if KallocPage(s.heap).1.Some? {
      var pa := KallocPage(s.heap).1.value;
      MapEffect(s, a, va, pa, perm);
      TablesCarry(s.(f := s'.f), s');
      var p := Leaf(pa / PAGE_SIZE, perm);
      NewFrameStepKeeps(s, s', a, VpnOf(va), p, rc == 0);
      NewFrameContent(s, s', a, VpnOf(va), p, rc == 0);
    }
  }

  /** A page loaded outside the heap window of its address space. */
  lemma LoadPageKeeps(s: Vm, a: nat, va: nat, perm: Perm, content: seq<byte>)
    requires AddressSpaces.Inv(s) && a < |s.spaces| && |content| == PAGE_SIZE
    requires !InWindow(s.spaces[a], VpnOf(va))
    ensures var (s', rc) := LoadPage(s, a, va, perm, content);
            && (rc == 0 ==> Content(s, a, VpnOf(va)).None?)
            && ContentChange(s, s', a, VpnOf(va), Some(content), rc == 0)
            && CommonLoaded(s, s', a, VpnOf(va), perm, content, rc == 0)
            && AddressSpaces.Inv(s')
  {
    hide AddressSpaces.Inv, ContentChange, CommonLoaded, LoadPage, Lookup, Content, VpnOf, InWindow;
    LoadPagePrivate(s, a, va, perm, content);
    LoadPageCommon(s, a, va, perm, content);
  }
}
