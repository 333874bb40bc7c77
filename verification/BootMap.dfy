/** The kernel's own map (kernel/vm.c: `map_kernel`, `vm_init`) leaves the address spaces' invariants in place. */
module BootMap {
  import opened Base
  import opened PageTable
  import opened KernelHeap
  import opened AddressSpaces

  /** One page of the kernel's regions. */
  datatype Page = Page(va: nat, pa: nat, perm: Perm)

  /** The empty root table and the untouched pool. */
  function EmptyForest(kroot: nat): Forest {
    Forest(map[kroot := EmptyNode()], 0, kroot)
  }

  /** The pages of all regions in turn; the first that fails ends the mapping. */
  function MapPages(f: Forest, pages: seq<Page>): (Forest, int)
    decreases |pages|
  {
    if pages == [] then (f, 0)
    else
      var (f', rc) := MapPage(f, f.kroot, pages[0].va, pages[0].pa, pages[0].perm);
      if rc != 0 then (f', -1) else MapPages(f', pages[1..])
  }

  /** Not in the users' root slot, and in the kernel heap only without user access. */
  predicate KernelPage(p: Page, heapEnd: nat) {
    var frame := p.pa / PAGE_SIZE * PAGE_SIZE;
    Index(VpnOf(p.va), 2) != 1 && (p.perm.u ==> frame < HEAP_START || heapEnd <= frame)
  }

  ghost predicate KernelMap(f: Forest, heapEnd: nat) {
    && Good(f, {f.kroot}) && !Entry(f, f.kroot, 1).valid
    && forall w: nat | w < VPN_COUNT && Lookup(f, f.kroot, w).Some? && Lookup(f, f.kroot, w).value.perm.u ::
         var pa := Lookup(f, f.kroot, w).value.ppn * PAGE_SIZE; pa < HEAP_START || heapEnd <= pa
  }

  lemma EmptyIsKernelMap(kroot: nat, heapEnd: nat)
    requires !(POOL_PPN <= kroot < POOL_PPN + PT_PAGES)
    ensures KernelMap(EmptyForest(kroot), heapEnd)
  {
    var f := EmptyForest(kroot);
    var own := map[kroot := Root];
    forall i | 0 <= i < ENTRIES ensures !Entry(f, kroot, i).valid {}
    assert PageTable.Inv(f, own) && Owns(own, {kroot});
  }

  lemma OnePageKeeps(f: Forest, p: Page, heapEnd: nat)
    requires KernelMap(f, heapEnd) && KernelPage(p, heapEnd)
    ensures var f' := MapPage(f, f.kroot, p.va, p.pa, p.perm).0;
            f'.kroot == f.kroot && KernelMap(f', heapEnd)
  {
    hide Lookup, Index, VpnOf, MapPage, Good;
    MapPageRefines(f, {f.kroot}, f.kroot, p.va, p.pa, p.perm);
    var f' := MapPage(f, f.kroot, p.va, p.pa, p.perm).0;
    assert Entry(f', f.kroot, 1) == Entry(f, f.kroot, 1);
  }

  lemma {:induction false} MapPagesKeep(f: Forest, pages: seq<Page>, heapEnd: nat)
    requires KernelMap(f, heapEnd) && forall i | 0 <= i < |pages| :: KernelPage(pages[i], heapEnd)
    ensures KernelMap(MapPages(f, pages).0, heapEnd)
    decreases |pages|
  {
    hide KernelMap, KernelPage, MapPage;
    if pages != [] {
      OnePageKeeps(f, pages[0], heapEnd);
      var (f', rc) := MapPage(f, f.kroot, pages[0].va, pages[0].pa, pages[0].perm);
      if rc == 0 {
        MapPagesKeep(f', pages[1..], heapEnd);
      }
    }
  }

  /** Whatever pages the kernel maps for itself at boot, even partly, agents start from the invariant. */
  lemma BootEstablishes(kroot: nat, pages: seq<Page>, ram: map<nat, seq<byte>>, heapEnd: nat)
    requires !(POOL_PPN <= kroot < POOL_PPN + PT_PAGES)
    requires forall i | 0 <= i < |pages| :: KernelPage(pages[i], heapEnd)
    requires MemoryInv(Vm(EmptyForest(kroot), Heap(HEAP_START, heapEnd), ram, []))
    ensures AddressSpaces.Inv(Vm(MapPages(EmptyForest(kroot), pages).0, Heap(HEAP_START, heapEnd), ram, []))
  {
    hide KernelMap, KernelPage, MapPages, EmptyForest, AddressSpaces.Inv;
    EmptyIsKernelMap(kroot, heapEnd);
    MapPagesKeep(EmptyForest(kroot), pages, heapEnd);
    NoAgentsInv(MapPages(EmptyForest(kroot), pages).0, ram, heapEnd);
  }

  lemma NoAgentsInv(f: Forest, ram: map<nat, seq<byte>>, heapEnd: nat)
    requires KernelMap(f, heapEnd) && MemoryInv(Vm(f, Heap(HEAP_START, heapEnd), ram, []))
    ensures AddressSpaces.Inv(Vm(f, Heap(HEAP_START, heapEnd), ram, []))
  {
    hide Good;
    var s := Vm(f, Heap(HEAP_START, heapEnd), ram, []);
    assert AllRoots(s) == {f.kroot};
    forall r, w: nat | r in AllRoots(s) && Visible(f, r, w) ensures Taken(s, Lookup(f, r, w).value.ppn) {
    }
  }
}
