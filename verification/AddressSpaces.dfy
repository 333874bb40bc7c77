/**
 Agents' address spaces: demand-mapped heaps and copy-on-write aliases (kernel/vm.c:104-231), agent
 set-up (kernel/agent.c:69-124) and loaded pages (kernel/elfload.c:94-112), over physical memory.
 */
module AddressSpaces {
  import opened Base
  import opened PageTable
  import opened KernelHeap

  const HEAP_START := 0x8060_0000
  const USER_STACK_BASE := 0x4000_0000
  const USER_STACK_SLOT := 12288
  const USER_HEAP_BASE := 0x6000_0000
  const AGENT_HEAP_SIZE := 0x1_0000
  const HEAP_MAX_PAGES := 16
  const MAX_AGENTS := 12
  const TRAPFRAME_SIZE := 264

  const UserRW := Perm(true, true, false, true)
  const UserRO := Perm(true, false, false, true)

  /** The fields of `struct agent` that describe its memory. */
  datatype Space = Space(root: nat, heapBase: nat, mapped: nat)

  /** `ram` holds the bytes of physical pages, by page number. */
  datatype Vm = Vm(f: Forest, heap: Heap, ram: map<nat, seq<byte>>, spaces: seq<Space>)

  // ---------------------------------------------------------------- observations

  /** The translation of page v in address space a. */
  function At(s: Vm, a: nat, v: nat): Option<Pte>
    requires a < |s.spaces|
  {
    Lookup(s.f, s.spaces[a].root, v)
  }

  function Frame(s: Vm, ppn: nat): seq<byte> {
    if ppn in s.ram then s.ram[ppn] else []
  }

  /** What address space a reads on page v. */
  function Content(s: Vm, a: nat, v: nat): Option<seq<byte>>
    requires a < |s.spaces|
  {
    if At(s, a, v).Some? then Some(Frame(s, At(s, a, v).value.ppn)) else None
  }

  /** The root slot above page v is empty in the kernel's table. */
  predicate Private(f: Forest, v: nat) {
    v < VPN_COUNT && !Entry(f, f.kroot, Index(v, 2)).valid
  }

  function HeapVpn(sp: Space): nat {
    sp.heapBase / PAGE_SIZE
  }

  predicate InWindow(sp: Space, v: nat) {
    HeapVpn(sp) <= v < HeapVpn(sp) + HEAP_MAX_PAGES
  }

  predicate InHeapRange(sp: Space, va: nat) {
    sp.heapBase <= va < sp.heapBase + HEAP_MAX_PAGES * PAGE_SIZE
  }

  function Poke(page: seq<byte>, at: nat, b: byte): (r: seq<byte>)
    requires at < |page|
    ensures |r| == |page| && r[at] == b && forall k | 0 <= k < |page| && k != at :: r[k] == page[k]
  {
    page[..at] + [b] + page[at + 1..]
  }

  // ---------------------------------------------------------------- operations

  /** `vm_heap_map_page` */
  function HeapMap(s: Vm, a: nat, va: nat): (r: (Vm, int))
    requires a < |s.spaces|
    ensures |r.0.spaces| == |s.spaces|
  {
    var sp := s.spaces[a];
    if !InHeapRange(sp, va) then (s, -1)
    else if At(s, a, VpnOf(va)).Some? then (s, 0)
    else if sp.mapped >= HEAP_MAX_PAGES then (s, -1)
    else
      var (heap, pa) := KallocPage(s.heap);
      if pa.None? then (s, -1)
      else
        var (f, rc) := MapPage(s.f, sp.root, RoundDown(va, PAGE_SIZE), pa.value, UserRW);
        if rc != 0 then (s.(f := f, heap := heap), -1)
        else (s.(f := f, heap := heap, spaces := s.spaces[a := sp.(mapped := sp.mapped + 1)]), 0)
  }

  /** Store through a pointer to the leaf entry of page v. */
  function SetLeaf(s: Vm, a: nat, v: nat, p: Pte): Vm
    requires a < |s.spaces| && At(s, a, v).Some?
  {
    s.(f := SetEntry(s.f, LowNode(s.f, s.spaces[a].root, v).value, Index(v, 0), p))
  }

  /** `vm_cow_break` */
  function CowBreak(s: Vm, a: nat, v: nat): (r: (Vm, int))
    requires a < |s.spaces|
    ensures |r.0.spaces| == |s.spaces|
  {
    if At(s, a, v).None? then (s, -1)
    else if At(s, a, v).value.perm.w then (s, 0)
    else
      var (heap, pa) := KallocPage(s.heap);
      if pa.None? then (s, -1)
      else
        var copy := pa.value / PAGE_SIZE;
        var copied := s.(heap := heap, ram := s.ram[copy := Frame(s, At(s, a, v).value.ppn)]);
        (SetLeaf(copied, a, v, Leaf(copy, UserRW)), 0)
  }

  /** `vm_heap_cow_alias`, second half: the destination page, mapped to the source's frame. */
  function AliasMap(s: Vm, a: nat, dst: nat, ppn: nat): (r: (Vm, int))
    requires a < |s.spaces|
    ensures |r.0.spaces| == |s.spaces|
  {
    var sp := s.spaces[a];
    var v := HeapVpn(sp) + dst;
    if At(s, a, v).Some? then (s, if At(s, a, v).value.ppn != ppn then EINVAL else 0)
    else if sp.mapped >= HEAP_MAX_PAGES then (s, ENOSPC)
    else
      var (f, rc) := MapPage(s.f, sp.root, sp.heapBase + dst * PAGE_SIZE, ppn * PAGE_SIZE, UserRO);
      if rc != 0 then (s.(f := f), ENOSPC)
      else (s.(f := f, spaces := s.spaces[a := sp.(mapped := sp.mapped + 1)]), 0)
  }

  /** `vm_heap_cow_alias`, last part: both entries become read-only. */
  function AliasProtect(s: Vm, a: nat, src: nat, dst: nat, ppn: nat): (r: (Vm, int))
    requires a < |s.spaces|
    ensures |r.0.spaces| == |s.spaces|
  {
    if At(s, a, src).None? then (s, EINVAL)
    else
      var s' := SetLeaf(s, a, src, Leaf(ppn, UserRO));
      if At(s', a, dst).None? then (s', EINVAL) else (SetLeaf(s', a, dst, Leaf(ppn, UserRO)), 0)
  }

  /** `vm_heap_cow_alias`, with 0 in place of the destination address it returns on success. */
  function Alias(s: Vm, a: nat, dst: int, src: int): (r: (Vm, int))
    requires a < |s.spaces|
    ensures |r.0.spaces| == |s.spaces|
  {
    if dst == src || src < 0 || src >= HEAP_MAX_PAGES || dst < 0 || dst >= HEAP_MAX_PAGES then (s, EINVAL)
    else
      var sv, dv := HeapVpn(s.spaces[a]) + src, HeapVpn(s.spaces[a]) + dst;
      if At(s, a, sv).None? then (s, EINVAL)
      else
        var ppn := At(s, a, sv).value.ppn;
        var (s1, rc) := AliasMap(s, a, dst, ppn);
        if rc != 0 then (s1, rc) else AliasProtect(s1, a, sv, dv, ppn)
  }

  /** `vm_heap_fault` */
  function HeapFault(s: Vm, a: nat, va: nat, write: bool): (r: (Vm, bool))
    requires a < |s.spaces|
    ensures |r.0.spaces| == |s.spaces|
  {
    if !InHeapRange(s.spaces[a], va) then (s, false)
    else if At(s, a, VpnOf(va)).Some? then
      if write && !At(s, a, VpnOf(va)).value.perm.w then
        var (s', rc) := CowBreak(s, a, VpnOf(va));
        (s', rc == 0)
      else (s, false)
    else
      var (s', rc) := HeapMap(s, a, va);
      (s', rc == 0)
  }

  /** A byte store by the agent: it takes effect exactly on a writable user page. */
  predicate CanStore(s: Vm, a: nat, va: nat)
    requires a < |s.spaces|
  {
    At(s, a, VpnOf(va)).Some? && At(s, a, VpnOf(va)).value.perm.u && At(s, a, VpnOf(va)).value.perm.w
  }

  function Store(s: Vm, a: nat, va: nat, b: byte): Vm
    requires a < |s.spaces|
  {
    if !CanStore(s, a, va) then s
    else
      var ppn := At(s, a, VpnOf(va)).value.ppn;
      if |Frame(s, ppn)| != PAGE_SIZE then s
      else s.(ram := s.ram[ppn := Poke(s.ram[ppn], va % PAGE_SIZE, b)])
  }

  /** One page of `elf_map_segment`: allocate, fill, map. */
  function LoadPage(s: Vm, a: nat, va: nat, perm: Perm, content: seq<byte>): (r: (Vm, int))
    requires a < |s.spaces|
    ensures |r.0.spaces| == |s.spaces|
  {
    var (heap, pa) := KallocPage(s.heap);
    if pa.None? then (s, ENOSPC)
    else
      var filled := s.(heap := heap, ram := s.ram[pa.value / PAGE_SIZE := content]);
      var (f, rc) := MapPage(s.f, s.spaces[a].root, va, pa.value, perm);
      (filled.(f := f), if rc == 0 then 0 else ENOSPC)
  }

  /** `vm_map_region` from a page boundary on, for `n` pages: it stops at the first page that fails. */
  function MapRegion(f: Forest, root: nat, va: nat, pa: nat, n: nat, perm: Perm): (Forest, int)
    decreases n
  {
    if n == 0 then (f, 0)
    else
      var (f', rc) := MapPage(f, root, va, pa, perm);
      if rc != 0 then (f', -1) else MapRegion(f', root, va + PAGE_SIZE, pa + PAGE_SIZE, n - 1, perm)
  }

  function StackVa(id: nat): nat {
    USER_STACK_BASE + id * USER_STACK_SLOT + PAGE_SIZE
  }

  /**
   `agent_setup_stack`: a spare page, the stack block, the table, the two stack pages, the trap frame.
   A failing step leaves what it already took; the new table is then in nobody's hands.
   */
  function Setup(s: Vm, id: nat): (Vm, int) {
    var (h1, page) := KallocPage(s.heap);
    if page.None? then (s, ENOSPC)
    else
      var (h2, stack) := Kalloc(h1, AGENT_STACK_SIZE);
      if stack.None? then (s.(heap := h1), ENOSPC)
      else
        var (f1, root) := CreateRoot(s.f);
        if root.None? then (s.(heap := h2, f := f1), ENOSPC)
        else
          var (f2, rc) := MapRegion(f1, root.value, StackVa(id), StackPa(stack.value), 2, UserRW);
          if rc != 0 then (s.(heap := h2, f := f2), ENOSPC)
          else
            var (h3, tf) := Kalloc(h2, TRAPFRAME_SIZE);
            if tf.None? then (s.(heap := h3, f := f2), ENOSPC)
            else
              var space := Space(root.value, USER_HEAP_BASE + id * AGENT_HEAP_SIZE, 0);
              (s.(heap := h3, f := f2, spaces := s.spaces + [space]), 0)
  }

  // ---------------------------------------------------------------- the invariant

  ghost function Roots(s: Vm): set<nat> {
    set a | 0 <= a < |s.spaces| :: s.spaces[a].root
  }

  ghost predicate TablesInv(s: Vm) {
    && Good(s.f, AllRoots(s))
    && (forall a, b | 0 <= a < b < |s.spaces| :: s.spaces[a].root != s.spaces[b].root)
    && (forall a | 0 <= a < |s.spaces| :: s.spaces[a].root != s.f.kroot)
    && !Entry(s.f, s.f.kroot, 1).valid
  }

  ghost predicate MemoryInv(s: Vm) {
    && KernelHeap.Valid(s.heap) && HEAP_START <= s.heap.ptr
    && (forall p: nat | HEAP_START <= p * PAGE_SIZE && (p + 1) * PAGE_SIZE <= s.heap.end ::
          p in s.ram && |s.ram[p]| == PAGE_SIZE)
    && (forall a | 0 <= a < |s.spaces| ::
          && s.spaces[a].heapBase % AGENT_HEAP_SIZE == 0
          && USER_HEAP_BASE <= s.spaces[a].heapBase < USER_HEAP_BASE + MAX_AGENTS * AGENT_HEAP_SIZE)
  }

  /** A page the allocator has handed out. */
  predicate HandedOut(s: Vm, ppn: nat) {
    HEAP_START <= ppn * PAGE_SIZE && (ppn + 1) * PAGE_SIZE <= s.heap.ptr
  }

  /** A page the allocator can no longer hand out. */
  predicate Taken(s: Vm, ppn: nat) {
    ppn * PAGE_SIZE < s.heap.ptr || s.heap.end <= ppn * PAGE_SIZE
  }

  ghost function AllRoots(s: Vm): set<nat> {
    Roots(s) + {s.f.kroot}
  }

  /** Page w is visible to an agent through root r, privately or in a part shared with the kernel. */
  predicate Visible(f: Forest, r: nat, w: nat) {
    w < VPN_COUNT && Lookup(f, r, w).Some? && (Private(f, w) || Lookup(f, r, w).value.perm.u)
  }

  ghost predicate FramesInv(s: Vm) {
    && (forall a, v: nat | 0 <= a < |s.spaces| && Private(s.f, v) && At(s, a, v).Some? ::
          HandedOut(s, At(s, a, v).value.ppn))
    && (forall r, w: nat | r in AllRoots(s) && Visible(s.f, r, w) :: Taken(s, Lookup(s.f, r, w).value.ppn))
  }

  /** Two pages on one frame are read-only heap pages of one address space. */
  predicate MayShare(s: Vm, a: nat, v: nat, r: nat, w: nat)
    requires a < |s.spaces| && At(s, a, v).Some? && Lookup(s.f, r, w).Some?
  {
    && r == s.spaces[a].root && InWindow(s.spaces[a], v) && InWindow(s.spaces[a], w)
    && !At(s, a, v).value.perm.w && !Lookup(s.f, r, w).value.perm.w
  }

  /** A private page shares its frame with another visible page only as a copy-on-write alias. */
  ghost predicate SharingInv(s: Vm) {
    forall a, v: nat, r, w: nat |
      && 0 <= a < |s.spaces| && Private(s.f, v) && At(s, a, v).Some?
      && r in AllRoots(s) && Visible(s.f, r, w) && (r != s.spaces[a].root || v != w)
      && At(s, a, v).value.ppn == Lookup(s.f, r, w).value.ppn ::
      MayShare(s, a, v, r, w)
  }

  ghost function MappedPages(s: Vm, a: nat): set<nat>
    requires a < |s.spaces|
  {
    set v: nat | v < HeapVpn(s.spaces[a]) + HEAP_MAX_PAGES && InWindow(s.spaces[a], v) && At(s, a, v).Some?
  }

  ghost predicate WindowInv(s: Vm) {
    && (forall a, v: nat | 0 <= a < |s.spaces| && InWindow(s.spaces[a], v) && At(s, a, v).Some? ::
          At(s, a, v).value.perm.u && At(s, a, v).value.perm.r)
    && (forall a | 0 <= a < |s.spaces| :: s.spaces[a].mapped == |MappedPages(s, a)|)
  }

  ghost predicate Inv(s: Vm) {
    TablesInv(s) && MemoryInv(s) && FramesInv(s) && SharingInv(s) && WindowInv(s)
  }
}
