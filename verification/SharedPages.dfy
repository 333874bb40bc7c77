/**
 Pages under root slots that the kernel's table fills.  Agents' programs lie there: their tables share the
 kernel's nodes, so these pages are not private to anyone.
 */
module SharedPages {
  import opened Base
  import opened PageTable
  import opened KernelHeap
  import opened AddressSpaces
  import opened CowProofs

  /** A page number under a root slot of the kernel. */
  predicate Common(f: Forest, w: nat) {
    w < VPN_COUNT && !Private(f, w)
  }

  /** What table r shows to user code on such a page. */
  function Reading(s: Vm, r: nat, w: nat): Option<seq<byte>> {
    var p := Lookup(s.f, r, w);
    if p.Some? && p.value.perm.u then Some(Frame(s, p.value.ppn)) else None
  }

  /** No table sees any change on these pages, and no user page among them has other bytes. */
  ghost predicate CommonSame(s: Vm, s': Vm) {
    && (forall r: nat, w: nat | r in AllRoots(s) && Common(s.f, w) :: Lookup(s'.f, r, w) == Lookup(s.f, r, w))
    && (forall r: nat, w: nat | r in AllRoots(s) && Common(s.f, w) :: Reading(s', r, w) == Reading(s, r, w))
  }

  /** Frames that cannot be handed out keep their bytes. */
  ghost predicate TakenSame(s: Vm, s': Vm) {
    forall p: nat | Taken(s, p) :: Frame(s', p) == Frame(s, p)
  }

  ghost predicate TranslationsSame(s: Vm, f': Forest) {
    forall r: nat, w: nat | r in AllRoots(s) && Common(s.f, w) :: Lookup(f', r, w) == Lookup(s.f, r, w)
  }

  lemma CommonFrom(s: Vm, s': Vm)
    requires FramesInv(s) && TakenSame(s, s') && TranslationsSame(s, s'.f)
    ensures CommonSame(s, s')
  {
    hide Lookup, Private, Frame, Taken;
    forall r: nat, w: nat | r in AllRoots(s) && Common(s.f, w) ensures Reading(s', r, w) == Reading(s, r, w) {
      if Lookup(s.f, r, w).Some? && Lookup(s.f, r, w).value.perm.u {
        assert Visible(s.f, r, w);
      }
    }
  }

  lemma CommonRefl(s: Vm)
    ensures CommonSame(s, s)
  {
  }

  /** The page the allocator hands out next is not taken. */
  lemma NextNotTaken(s: Vm)
    requires MemoryInv(s) && KallocPage(s.heap).1.Some?
    ensures !Taken(s, KallocPage(s.heap).1.value / PAGE_SIZE)
  {
    PageHandedOut(s.heap);
  }

  /** Tables that share the slot above a page translate it alike. */
  lemma SharedLookup(f: Forest, r: nat, s: nat, w: nat)
    requires SharesSlot(f, r, s, Index(w, 2))
    ensures Lookup(f, r, w) == Lookup(f, s, w)
  {
  }

  // ---------------------------------------------------------------- the operations

  /** Mapping a private page through an agent's table. */
  lemma PrivateMapKeeps(s: Vm, a: nat, va: nat, pa: nat, perm: Perm)
    requires TablesInv(s) && a < |s.spaces| && Private(s.f, VpnOf(va))
    ensures TranslationsSame(s, MapPage(s.f, s.spaces[a].root, va, pa, perm).0)
  {
    hide Good, Lookup, MapPage, VpnOf, Index;
    assert s.spaces[a].root in Roots(s);
    MapPageRefines(s.f, AllRoots(s), s.spaces[a].root, va, pa, perm);
  }

  /** Rewriting the leaf of a private page. */
  lemma PrivateRewriteKeeps(s: Vm, a: nat, v: nat, p: Pte)
    requires TablesInv(s) && a < |s.spaces| && Private(s.f, v) && At(s, a, v).Some? && p.valid
    ensures TranslationsSame(s, SetLeaf(s, a, v, p).f)
  {
    hide Good, Lookup, SetLeaf;
    RewriteEffect(s, a, v, p);
  }

  lemma HeapMapCommon(s: Vm, a: nat, va: nat)
    requires AddressSpaces.Inv(s) && a < |s.spaces|
    ensures CommonSame(s, HeapMap(s, a, va).0)
  {
    hide SharingInv, WindowInv, FramesInv, Lookup, Index, Entry, MapPage, TranslationsSame, TakenSame, CommonSame, Good;
    CommonRefl(s);
    RangeIsWindow(s, a, va);
    var s' := HeapMap(s, a, va).0;
    if InHeapRange(s.spaces[a], va) && At(s, a, VpnOf(va)).None? && KallocPage(s.heap).1.Some? {
      WindowIsPrivate(s, a, VpnOf(va));
      PrivateMapKeeps(s, a, RoundDown(va, PAGE_SIZE), KallocPage(s.heap).1.value, UserRW);
      SameRam(s, s');
      if s.spaces[a].mapped < HEAP_MAX_PAGES {
        CommonFrom(s, s');
      }
    }
  }

  lemma SameRam(s: Vm, s': Vm)
    ensures s'.ram == s.ram ==> TakenSame(s, s')
  {
  }

  lemma CowBreakCommon(s: Vm, a: nat, v: nat)
    requires AddressSpaces.Inv(s) && a < |s.spaces| && InWindow(s.spaces[a], v)
    ensures CommonSame(s, CowBreak(s, a, v).0)
  {
    WindowIsPrivate(s, a, v);
    hide SharingInv, WindowInv, FramesInv, Lookup, Index, Entry, TranslationsSame, CommonSame, Good, MemoryInv,
         TablesInv;
    CommonRefl(s);
    if At(s, a, v).Some? && !At(s, a, v).value.perm.w && KallocPage(s.heap).1.Some? {
      var copy := KallocPage(s.heap).1.value / PAGE_SIZE;
      NextNotTaken(s);
      PrivateRewriteKeeps(s, a, v, Leaf(copy, UserRW));
      CommonFrom(s, CowBreak(s, a, v).0);
    }
  }

  lemma HeapFaultCommon(s: Vm, a: nat, va: nat, write: bool)
    requires AddressSpaces.Inv(s) && a < |s.spaces|
    ensures CommonSame(s, HeapFault(s, a, va, write).0)
  {
    hide SharingInv, WindowInv, FramesInv, Lookup, CommonSame, HeapMap, CowBreak, TablesInv;
    CommonRefl(s);
    RangeIsWindow(s, a, va);
    HeapMapCommon(s, a, va);
    if InHeapRange(s.spaces[a], va) {
      CowBreakCommon(s, a, VpnOf(va));
    }
  }
}
