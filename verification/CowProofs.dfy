/** What every operation on address spaces keeps. */
module CowProofs {
  import opened Base
  import opened PageTable
  import opened KernelHeap
  import opened AddressSpaces

  // ---------------------------------------------------------------- effects on the tables

  /** The same address spaces, up to their heap counters, over a forest with the same kernel root slots. */
  ghost predicate SameSpaces(s: Vm, s': Vm) {
    && |s'.spaces| == |s.spaces|
    && (forall b | 0 <= b < |s.spaces| ::
          s'.spaces[b].root == s.spaces[b].root && s'.spaces[b].heapBase == s.spaces[b].heapBase)
    && s'.f.kroot == s.f.kroot
    && (forall i: nat :: Entry(s'.f, s.f.kroot, i) == Entry(s.f, s.f.kroot, i))
  }

  /** Among private pages, exactly page v of space a changes its translation, to p (if `done`). */
  ghost predicate LeafChange(s: Vm, s': Vm, a: nat, v: nat, p: Pte, done: bool) {
    && SameSpaces(s, s')
    && (forall b, w: nat | 0 <= b < |s.spaces| && Private(s.f, w) :: At(s', b, w) ==
          if done && b == a && w == v then Some(p) else At(s, b, w))
  }

  /** No root at all sees any other change. */
  ghost predicate OnlyLeaf(s: Vm, s': Vm, v: nat, p: Pte, done: bool) {
    forall r, w: nat | r in AllRoots(s) && w < VPN_COUNT ::
          || Lookup(s'.f, r, w) == Lookup(s.f, r, w)
          || (done && w == v && Lookup(s'.f, r, w) == Some(p))
  }

  lemma MapEffect(s: Vm, a: nat, va: nat, pa: nat, perm: Perm)
    requires TablesInv(s) && a < |s.spaces|
    ensures var (f', rc) := MapPage(s.f, s.spaces[a].root, va, pa, perm);
            && TablesInv(s.(f := f'))
            && LeafChange(s, s.(f := f'), a, VpnOf(va), Leaf(pa / PAGE_SIZE, perm), rc == 0)
            && OnlyLeaf(s, s.(f := f'), VpnOf(va), Leaf(pa / PAGE_SIZE, perm), rc == 0)
            && (rc == 0 ==> At(s, a, VpnOf(va)).None? && pa % PAGE_SIZE == 0)
  {
    hide Good, Lookup, MapPage, Index, VpnOf, Entry;
    var root, roots := s.spaces[a].root, AllRoots(s);
    assert forall b | 0 <= b < |s.spaces| :: s.spaces[b].root in Roots(s);
    MapPageRefines(s.f, roots, root, va, pa, perm);
    var s' := s.(f := MapPage(s.f, root, va, pa, perm).0);
    forall b, w: nat | 0 <= b < |s.spaces| && Private(s.f, w) && b != a ensures At(s', b, w) == At(s, b, w) {
      if w == VpnOf(va) {
        EmptyKernelSlotIsPrivate(s.f, roots, root, s.spaces[b].root, Index(w, 2));
      }
    }
  }

  lemma RewriteEffect(s: Vm, a: nat, v: nat, p: Pte)
    requires TablesInv(s) && a < |s.spaces| && Private(s.f, v) && At(s, a, v).Some? && p.valid
    ensures TablesInv(SetLeaf(s, a, v, p)) && LeafChange(s, SetLeaf(s, a, v, p), a, v, p, true)
    ensures OnlyLeaf(s, SetLeaf(s, a, v, p), v, p, true)
  {
    hide Good, Index, VpnOf, Entry, SetEntry, LowNode;
    var root, roots := s.spaces[a].root, AllRoots(s);
    assert forall b | 0 <= b < |s.spaces| :: s.spaces[b].root in Roots(s);
    RewriteLeaf(s.f, roots, root, v, p);
    var s' := SetLeaf(s, a, v, p);
    forall b, w: nat | 0 <= b < |s.spaces| && Private(s.f, w) && b != a ensures At(s', b, w) == At(s, b, w) {
      if w == v {
        EmptyKernelSlotIsPrivate(s.f, roots, root, s.spaces[b].root, Index(v, 2));
      }
    }
  }

  // ---------------------------------------------------------------- windows and pages

  lemma WindowIsPrivate(s: Vm, a: nat, v: nat)
    requires TablesInv(s) && MemoryInv(s) && a < |s.spaces| && InWindow(s.spaces[a], v)
    ensures Private(s.f, v)
  {
  }

  lemma RangeIsWindow(s: Vm, a: nat, va: nat)
    requires MemoryInv(s) && a < |s.spaces|
    ensures InHeapRange(s.spaces[a], va) ==>
              && InWindow(s.spaces[a], VpnOf(va)) && VpnOf(RoundDown(va, PAGE_SIZE)) == VpnOf(va)
  {
  }

  lemma HeapOffset(s: Vm, a: nat, k: nat)
    requires MemoryInv(s) && a < |s.spaces| && k < HEAP_MAX_PAGES
    ensures InWindow(s.spaces[a], HeapVpn(s.spaces[a]) + k)
    ensures VpnOf(s.spaces[a].heapBase + k * PAGE_SIZE) == HeapVpn(s.spaces[a]) + k
  {
  }

  lemma PageHandedOut(h: Heap)
    requires KernelHeap.Valid(h) && HEAP_START <= h.ptr
    ensures var (h', pa) := KallocPage(h);
            && KernelHeap.Valid(h') && h'.end == h.end && h.ptr <= h'.ptr
            && (pa.Some? ==> var p := pa.value / PAGE_SIZE;
                             && p * PAGE_SIZE == pa.value && HEAP_START <= h.ptr <= pa.value
                             && (p + 1) * PAGE_SIZE == h'.ptr <= h.end)
  {
    ServeAdvances(h, Page);
  }

  // ---------------------------------------------------------------- keeping the invariant

  /** The memory parts of the invariant survive any growth of the heap pointer and any page contents. */
  ghost predicate MemoryGrows(s: Vm, s': Vm) {
    && KernelHeap.Valid(s'.heap) && s'.heap.end == s.heap.end && s.heap.ptr <= s'.heap.ptr
    && s.ram.Keys <= s'.ram.Keys
    && (forall p | p in s.ram && |s.ram[p]| == PAGE_SIZE :: |s'.ram[p]| == PAGE_SIZE)
  }

  lemma GrowthKeepsMemory(s: Vm, s': Vm)
    requires MemoryInv(s) && SameSpaces(s, s') && MemoryGrows(s, s')
    ensures MemoryInv(s')
  {
  }

  ghost predicate IsNew(s: Vm, s': Vm, ppn: nat) {
    s.heap.ptr <= ppn * PAGE_SIZE && HandedOut(s', ppn)
  }

  lemma SameRoots(s: Vm, s': Vm)
    requires SameSpaces(s, s')
    ensures AllRoots(s') == AllRoots(s) && (forall v: nat :: Private(s'.f, v) == Private(s.f, v))
  {
    forall b | 0 <= b < |s.spaces| ensures s'.spaces[b].root == s.spaces[b].root {}
    assert Roots(s') == Roots(s);
  }

  /** A change of one leaf to a frame nobody else maps keeps frames as they must be. */
  lemma NewFrameKeepsFrames(s: Vm, s': Vm, a: nat, v: nat, p: Pte, done: bool)
    requires FramesInv(s) && MemoryInv(s)
    requires LeafChange(s, s', a, v, p, done) && OnlyLeaf(s, s', v, p, done) && MemoryGrows(s, s')
    requires done ==> IsNew(s, s', p.ppn)
    ensures FramesInv(s')
  {
    SameRoots(s, s');
    forall b, w: nat | 0 <= b < |s'.spaces| && Private(s'.f, w) && At(s', b, w).Some?
      ensures HandedOut(s', At(s', b, w).value.ppn)
    {
      if !(done && b == a && w == v) {
        assert HandedOut(s, At(s, b, w).value.ppn);
      }
    }
    forall r, w: nat | r in AllRoots(s') && Visible(s'.f, r, w) ensures Taken(s', Lookup(s'.f, r, w).value.ppn) {
      if Lookup(s'.f, r, w) == Lookup(s.f, r, w) {
        assert Taken(s, Lookup(s.f, r, w).value.ppn);
      }
    }
  }

  lemma OthersSame(s: Vm, s': Vm, a: nat, v: nat, p: Pte, done: bool, r: nat, x: nat)
    requires LeafChange(s, s', a, v, p, done) && a < |s.spaces|
    requires r in AllRoots(s) && r != s.spaces[a].root && Private(s.f, x)
    ensures Lookup(s'.f, r, x) == Lookup(s.f, r, x)
  {
    if r != s.f.kroot {
      var b :| 0 <= b < |s.spaces| && s.spaces[b].root == r;
      assert At(s', b, x) == At(s, b, x);
    }
  }

  lemma NewFrameKeepsSharing(s: Vm, s': Vm, a: nat, v: nat, p: Pte, done: bool)
    requires FramesInv(s) && SharingInv(s) && MemoryInv(s)
    requires LeafChange(s, s', a, v, p, done) && OnlyLeaf(s, s', v, p, done) && MemoryGrows(s, s')
    requires done ==> IsNew(s, s', p.ppn)
    ensures SharingInv(s')
  {
    SameRoots(s, s');
    forall b, w: nat, r, x: nat |
      && 0 <= b < |s'.spaces| && Private(s'.f, w) && At(s', b, w).Some?
      && r in AllRoots(s') && Visible(s'.f, r, x) && (r != s'.spaces[b].root || w != x)
      && At(s', b, w).value.ppn == Lookup(s'.f, r, x).value.ppn
      ensures MayShare(s', b, w, r, x)
    {
      var bNew := done && b == a && w == v;
      var rSame := Lookup(s'.f, r, x) == Lookup(s.f, r, x);
      if !bNew { assert HandedOut(s, At(s, b, w).value.ppn); }
      if rSame { assert Taken(s, Lookup(s.f, r, x).value.ppn); }
      if !bNew && rSame { assert MayShare(s, b, w, r, x); }
      if Private(s.f, x) && r != s.spaces[b].root && b == a {
        OthersSame(s, s', a, v, p, done, r, x);
      }
    }
  }

  /** The counters: one more exactly when an unmapped heap page became mapped. */
  ghost predicate CountsLeaf(s: Vm, s': Vm, a: nat, v: nat, done: bool)
    requires a < |s.spaces| <= |s'.spaces|
  {
    forall b | 0 <= b < |s.spaces| :: s'.spaces[b].mapped == s.spaces[b].mapped +
      (if done && b == a && InWindow(s.spaces[a], v) && At(s, a, v).None? then 1 else 0)
  }

  lemma MappedAfter(s: Vm, s': Vm, a: nat, v: nat, p: Pte, done: bool, b: nat)
    requires TablesInv(s) && MemoryInv(s) && a < |s.spaces| && b < |s.spaces|
    requires LeafChange(s, s', a, v, p, done)
    ensures MappedPages(s', b) ==
            if done && b == a && InWindow(s.spaces[a], v) then MappedPages(s, b) + {v} else MappedPages(s, b)
  {
    var grown := if done && b == a && InWindow(s.spaces[a], v) then MappedPages(s, b) + {v} else MappedPages(s, b);
    forall w: nat ensures w in MappedPages(s', b) <==> w in grown {
      if InWindow(s.spaces[b], w) {
        WindowIsPrivate(s, b, w);
      }
    }
  }

  lemma LeafKeepsCounts(s: Vm, s': Vm, a: nat, v: nat, p: Pte, done: bool)
    requires TablesInv(s) && MemoryInv(s) && WindowInv(s) && a < |s.spaces|
    requires LeafChange(s, s', a, v, p, done) && CountsLeaf(s, s', a, v, done)
    ensures forall b | 0 <= b < |s'.spaces| :: s'.spaces[b].mapped == |MappedPages(s', b)|
  {
    hide Lookup, Index, Entry, TablesInv, MemoryInv;
    forall b | 0 <= b < |s'.spaces| ensures s'.spaces[b].mapped == |MappedPages(s', b)| {
      MappedAfter(s, s', a, v, p, done, b);
      assert s.spaces[b].mapped == |MappedPages(s, b)|;
      assert v in MappedPages(s, a) <==> InWindow(s.spaces[a], v) && At(s, a, v).Some?;
      WithOne(MappedPages(s, b), v);
    }
  }

  lemma WithOne(pages: set<nat>, v: nat)
    ensures |pages + {v}| == |pages| + if v in pages then 0 else 1
  {
    if v in pages {
      assert pages + {v} == pages;
    }
  }

  lemma LeafKeepsWindow(s: Vm, s': Vm, a: nat, v: nat, p: Pte, done: bool)
    requires TablesInv(s) && MemoryInv(s) && WindowInv(s) && a < |s.spaces|
    requires LeafChange(s, s', a, v, p, done) && CountsLeaf(s, s', a, v, done)
    requires done && InWindow(s.spaces[a], v) ==> p.perm.u && p.perm.r
    ensures WindowInv(s')
  {
    LeafKeepsCounts(s, s', a, v, p, done);
    forall b, w: nat | 0 <= b < |s'.spaces| && InWindow(s'.spaces[b], w) && At(s', b, w).Some?
      ensures At(s', b, w).value.perm.u && At(s', b, w).value.perm.r
    {
      WindowIsPrivate(s, b, w);
    }
  }
}
