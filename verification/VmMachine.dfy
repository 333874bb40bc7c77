/**
 kernel/vm.c's heap code and kernel/elfload.c's loader as they run, over the page tables of
 PageTableMachine, proved against AddressSpaces and Loader.
 */
module VmMachine {
  import opened Base
  import opened PageTable
  import opened PageTableMachine
  import opened KernelHeap
  import opened AddressSpaces
  import opened CowProofs
  import opened CowSteps
  import opened Loader

  lemma AliasCodes(s: Vm, a: nat, dst: int, src: int)
    requires a < |s.spaces|
    ensures Alias(s, a, dst, src).1 <= 0 && (Alias(s, a, dst, src).1 == 0 ==> 0 <= dst < HEAP_MAX_PAGES)
  {
    hide MapPage, Lookup, SetLeaf;
  }

  class Kernel {
    const tables: Tables
    const alloc: Allocator
    var ram: map<nat, seq<byte>>
    var spaces: seq<Space>

    constructor (tables: Tables, alloc: Allocator, ram: map<nat, seq<byte>>)
      requires tables.Valid() && KernelHeap.Valid(alloc.State()) && HEAP_START <= alloc.State().ptr
      requires forall p: nat | HEAP_START <= p * PAGE_SIZE && (p + 1) * PAGE_SIZE <= alloc.heapEnd ::
                 p in ram && |ram[p]| == PAGE_SIZE
      ensures Valid() && State() == Vm(tables.State(), alloc.State(), ram, [])
      ensures this.tables == tables && this.alloc == alloc
    {
      this.tables := tables;
      this.alloc := alloc;
      this.ram := ram;
      spaces := [];
    }

    ghost function State(): Vm
      reads this, tables, alloc
    {
      Vm(tables.State(), alloc.State(), ram, spaces)
    }

    ghost predicate Valid()
      reads this, tables, alloc
    {
      && tables.Valid() && MemoryInv(State())
      && forall a | 0 <= a < |spaces| :: tables.IsRoot(spaces[a].root)
    }

    /** `kalloc_page` */
    method AllocPage() returns (p: Option<nat>)
      requires Valid()
      modifies alloc
      ensures Valid()
      ensures (State().heap, p) == KallocPage(old(State().heap)) && State() == old(State()).(heap := State().heap)
      ensures p.None? ==> State() == old(State())
    {
      PageHandedOut(State().heap);
      p := alloc.AllocPage();
    }

    /** `kalloc`; a size that does not wrap leaves the heap in order. */
    method AllocBlock(size: nat) returns (p: Option<nat>)
      requires Valid() && size < TWO_64
      modifies alloc
      ensures (State().heap, p) == Kalloc(old(State().heap), size) && State() == old(State()).(heap := State().heap)
      ensures p.None? ==> State() == old(State())
      ensures Fits(old(State().heap), size) ==> Valid()
    {
      p := alloc.Alloc(size);
    }

    /** `vm_map_region` from a page boundary on. */
    method MapPagesAt(root: nat, va: nat, pa: nat, n: nat, perm: Perm) returns (rc: int)
      requires Valid() && tables.IsRoot(root)
      modifies tables
      ensures Valid() && tables.IsRoot(root)
      ensures (State().f, rc) == MapRegion(old(State().f), root, va, pa, n, perm)
      ensures State() == old(State()).(f := State().f)
    {
      hide PageTable.Inv, PageTable.MapPage;
      ghost var f0 := State().f;
      var i: nat, a: nat, p: nat := 0, va, pa;
      while i < n
        invariant i <= n && Valid() && tables.IsRoot(root) && State() == old(State()).(f := State().f)
        invariant MapRegion(f0, root, va, pa, n, perm) == MapRegion(State().f, root, a, p, n - i, perm)
      {
        var rc1 := tables.MapPage(root, a, p, perm);
        if rc1 != 0 {
          return -1;
        }
        i, a, p := i + 1, a + PAGE_SIZE, p + PAGE_SIZE;
      }
      rc := 0;
    }

    /** The table with the two stack pages, for `agent_setup_stack`. */
    method MapStack(id: nat, pa: nat) returns (root: Option<nat>)
      requires Valid()
      modifies tables
      ensures Valid() && State() == old(State()).(f := State().f) && (root.Some? ==> tables.IsRoot(root.value))
      ensures var (f1, r) := CreateRoot(old(State().f));
              if r.None? then root == None && State().f == f1
              else
                var (f2, rc) := MapRegion(f1, r.value, StackVa(id), pa, 2, UserRW);
                State().f == f2 && root == if rc == 0 then r else None
    {
      hide PageTable.Inv, MapRegion, CreateRoot;
      root := tables.CreateAgentPt();
      if root.Some? {
        var rc := MapPagesAt(root.value, StackVa(id), pa, 2, UserRW);
        if rc != 0 {
          root := None;
        }
      }
    }

    /** `agent_setup_stack` */
    method SetupAgent(id: nat) returns (rc: int)
      requires Valid() && id < MAX_AGENTS
      modifies this, tables, alloc
      ensures Valid() && (State(), rc) == Setup(old(State()), id)
    {
      hide PageTable.Inv, MapRegion, CreateRoot, Kalloc, KallocPage, StackPa;
      var spare := AllocPage();
      if spare.None? {
        return ENOSPC;
      }
      var stack := AllocBlock(AGENT_STACK_SIZE);
      if stack.None? {
        return ENOSPC;
      }
      var root := MapStack(id, StackPa(stack.value));
      if root.None? {
        return ENOSPC;
      }
      var tf := AllocBlock(TRAPFRAME_SIZE);
      if tf.None? {
        return ENOSPC;
      }
      spaces := spaces + [Space(root.value, USER_HEAP_BASE + id * AGENT_HEAP_SIZE, 0)];
      rc := 0;
    }

    /** `vm_heap_map_page` */
    method HeapMapPage(a: nat, va: nat) returns (rc: int)
      requires Valid() && a < |spaces|
      modifies this, tables, alloc
      ensures Valid() && (State(), rc) == HeapMap(old(State()), a, va)
    {
      hide PageTable.Inv, Lookup, KallocPage, PageTable.MapPage, VpnOf;
      var sp := spaces[a];
      if va < sp.heapBase || va >= sp.heapBase + HEAP_MAX_PAGES * PAGE_SIZE {
        return -1;
      }
      var mapped := tables.PageMapped(sp.root, va);
      if mapped {
        return 0;
      }
      if sp.mapped >= HEAP_MAX_PAGES {
        return -1;
      }
      var pa := AllocPage();
      if pa.None? {
        return -1;
      }
      rc := tables.MapPage(sp.root, va - va % PAGE_SIZE, pa.value, UserRW);
      if rc != 0 {
        return -1;
      }
      spaces := spaces[a := sp.(mapped := sp.mapped + 1)];
    }

    /** The byte loop of `vm_cow_break`. */
    method CopyPage(dst: nat, src: nat)
      requires dst in ram && src in ram && |ram[dst]| == PAGE_SIZE && |ram[src]| == PAGE_SIZE
      modifies this`ram
      ensures ram == old(ram)[dst := old(ram)[src]]
    {
      ghost var before := ram;
      for i := 0 to PAGE_SIZE
        invariant ram.Keys == before.Keys && (forall p | p in before && p != dst :: ram[p] == before[p])
        invariant |ram[dst]| == PAGE_SIZE && ram[dst][..i] == before[src][..i]
        invariant dst == src ==> ram[dst] == before[dst]
      {
        ram := ram[dst := ram[dst][i := ram[src][i]]];
      }
      assert ram[dst] == before[src];
      assert ram == before[dst := before[src]];
    }

    /** `vm_cow_break` */
    method CowBreakPage(a: nat, va: nat) returns (rc: int)
      requires Valid() && a < |spaces|
      requires At(State(), a, VpnOf(va)).Some? ==>
                 var ppn := At(State(), a, VpnOf(va)).value.ppn; ppn in ram && |ram[ppn]| == PAGE_SIZE
      modifies this, tables, alloc
      ensures Valid() && (State(), rc) == CowBreak(old(State()), a, VpnOf(va))
    {
      hide PageTable.Inv, Lookup, KallocPage, VpnOf, LowNode, Index, SetEntry;
      ghost var s := State();
      var root := spaces[a].root;
      var p := tables.ReadLeaf(root, va);
      if p.None? {
        return -1;
      }
      if p.value.perm.w {
        return 0;
      }
      PageHandedOut(s.heap);
      var pa := AllocPage();
      if pa.None? {
        return -1;
      }
      CopyPage(pa.value / PAGE_SIZE, p.value.ppn);
      tables.WriteLeaf(root, va, Leaf(pa.value / PAGE_SIZE, UserRW));
      rc := 0;
    }

    /** `vm_heap_fault` */
    method Fault(a: nat, va: nat, write: bool) returns (ok: bool)
      requires Valid() && AddressSpaces.Inv(State()) && a < |spaces|
      modifies this, tables, alloc
      ensures Valid() && (State(), ok) == HeapFault(old(State()), a, va, write)
    {
      ghost var s := State();
      var sp := spaces[a];
      if va < sp.heapBase || va >= sp.heapBase + HEAP_MAX_PAGES * PAGE_SIZE {
        return false;
      }
      RangeIsWindow(s, a, va);
      WindowIsPrivate(s, a, VpnOf(va));
      var mapped := tables.PageMapped(sp.root, va);
      if mapped {
        if !write {
          return false;
        }
        var p := tables.ReadLeaf(sp.root, va);
        if p.Some? && !p.value.perm.w {
          var rc := CowBreakPage(a, va);
          return rc == 0;
        }
        return false;
      }
      var rc := HeapMapPage(a, va);
      ok := rc == 0;
    }
  
    /** Adds one to `heap_mapped`. */
    method CountPage(a: nat)
      requires Valid() && a < |spaces|
      modifies this`spaces
      ensures Valid()
      ensures State() == old(State()).(spaces := old(spaces)[a := old(spaces)[a].(mapped := old(spaces)[a].mapped + 1)])
    {
      spaces := spaces[a := spaces[a].(mapped := spaces[a].mapped + 1)];
    }

    /** `vm_map_user_page` through the table of address space a. */
    method MapUserPage(a: nat, va: nat, pa: nat, perm: Perm) returns (rc: int)
      requires Valid() && a < |spaces|
      modifies tables
      ensures Valid() && State() == old(State()).(f := State().f)
      ensures (State().f, rc) == PageTable.MapPage(old(State().f), spaces[a].root, va, pa, perm)
    {
      hide PageTable.Inv, PageTable.MapPage;
      rc := tables.MapPage(spaces[a].root, va, pa, perm);
    }

    /** `vm_heap_cow_alias`, lines 159-171: the destination page, mapped to the source's frame. */
    method MapAlias(a: nat, dstOff: nat, ppn: nat) returns (rc: int)
      requires Valid() && a < |spaces| && dstOff < HEAP_MAX_PAGES
      modifies this, tables
      ensures Valid() && (State(), rc) == AliasMap(old(State()), a, dstOff, ppn)
    {
      ghost var s := State();
      HeapOffset(s, a, dstOff);
      hide PageTable.Inv, Lookup, PageTable.MapPage, VpnOf, HeapVpn, MemoryInv;
      var root := spaces[a].root;
      var dstVa := spaces[a].heapBase + dstOff * PAGE_SIZE;
      var dst := tables.ReadLeaf(root, dstVa);
      if dst.Some? {
        if dst.value.ppn != ppn {
          return EINVAL;
        }
        return 0;
      }
      if spaces[a].mapped >= HEAP_MAX_PAGES {
        return ENOSPC;
      }
      rc := MapUserPage(a, dstVa, ppn * PAGE_SIZE, UserRO);
      if rc != 0 {
        return ENOSPC;
      }
      CountPage(a);
    }

    /** `vm_heap_cow_alias`, lines 173-177: both entries become read-only. */
    method ProtectAlias(a: nat, srcVa: nat, dstVa: nat, ppn: nat) returns (rc: int)
      requires Valid() && a < |spaces|
      modifies this, tables
      ensures Valid() && (State(), rc) == AliasProtect(old(State()), a, VpnOf(srcVa), VpnOf(dstVa), ppn)
    {
      hide PageTable.Inv, Lookup, VpnOf, LowNode, Index, SetEntry;
      var root := spaces[a].root;
      var src := tables.ReadLeaf(root, srcVa);
      if src.None? {
        return EINVAL;
      }
      tables.WriteLeaf(root, srcVa, Leaf(ppn, UserRO));
      var dst := tables.ReadLeaf(root, dstVa);
      if dst.None? {
        return EINVAL;
      }
      tables.WriteLeaf(root, dstVa, Leaf(ppn, UserRO));
      rc := 0;
    }

    /** The body of `vm_heap_cow_alias`, with 0 for success. */
    method AliasPages(a: nat, dstOff: int, srcOff: int) returns (rc: int)
      requires Valid() && a < |spaces|
      modifies this, tables
      ensures Valid() && (State(), rc) == Alias(old(State()), a, dstOff, srcOff)
    {
      hide PageTable.Inv, MemoryInv, Lookup, VpnOf, HeapVpn, AliasMap, AliasProtect;
      if dstOff == srcOff {
        return EINVAL;
      }
      if srcOff < 0 || srcOff >= HEAP_MAX_PAGES {
        return EINVAL;
      }
      if dstOff < 0 || dstOff >= HEAP_MAX_PAGES {
        return EINVAL;
      }
      HeapOffset(State(), a, srcOff);
      HeapOffset(State(), a, dstOff);
      var srcVa := spaces[a].heapBase + srcOff * PAGE_SIZE;
      var dstVa := spaces[a].heapBase + dstOff * PAGE_SIZE;
      var src := tables.ReadLeaf(spaces[a].root, srcVa);
      if src.None? {
        return EINVAL;
      }
      rc := MapAlias(a, dstOff, src.value.ppn);
      if rc == 0 {
        rc := ProtectAlias(a, srcVa, dstVa, src.value.ppn);
      }
    }

    /** `vm_heap_cow_alias`: success returns the destination address, which is positive and below 2^31. */
    method HeapCowAlias(a: nat, dstOff: int, srcOff: int) returns (rc: int)
      requires Valid() && a < |spaces|
      modifies this, tables
      ensures Valid() && State() == Alias(old(State()), a, dstOff, srcOff).0
      ensures rc > 0 <==> Alias(old(State()), a, dstOff, srcOff).1 == 0
      ensures rc > 0 ==> rc == old(spaces)[a].heapBase + dstOff * PAGE_SIZE < 0x8000_0000
      ensures rc <= 0 ==> rc == Alias(old(State()), a, dstOff, srcOff).1
    {
      var base := spaces[a].heapBase;
      AliasCodes(State(), a, dstOff, srcOff);
      hide PageTable.Inv, Alias, Lookup;
      rc := AliasPages(a, dstOff, srcOff);
      if rc == 0 {
        rc := base + dstOff * PAGE_SIZE;
      }
    }

    /** The two byte loops of `elf_map_segment`: clear the page, then copy the file's part of it. */
    method FillPage(page: nat, image: seq<byte>, ph: Phdr, va: nat)
      requires page in ram && |ram[page]| == PAGE_SIZE && InImage(image, ph) && ph.vaddr < va + PAGE_SIZE
      modifies this`ram
      ensures ram == old(ram)[page := PageBytes(image, ph, va)]
    {
      ghost var before := ram;
      for i := 0 to PAGE_SIZE
        invariant page in ram && ram == before[page := ram[page]] && |ram[page]| == PAGE_SIZE
        invariant forall j | 0 <= j < i :: ram[page][j] == 0
      {
        ram := ram[page := ram[page][i := 0]];
      }
      var pageOff := if ph.vaddr > va then ph.vaddr - va else 0;
      var foff := va + pageOff - ph.vaddr;
      var copyLen := PAGE_SIZE - pageOff;
      if foff < ph.filesz {
        var remain := ph.filesz - foff;
        if copyLen > remain {
          copyLen := remain;
        }
        for i := 0 to copyLen
          invariant page in ram && ram == before[page := ram[page]] && |ram[page]| == PAGE_SIZE
          invariant forall j | 0 <= j < PAGE_SIZE ::
                      ram[page][j] == if pageOff <= j < pageOff + i then image[ph.offset + foff + (j - pageOff)] else 0
        {
          ram := ram[page := ram[page][pageOff + i := image[ph.offset + foff + i]]];
        }
      }
      assert ram[page] == PageBytes(image, ph, va);
    }

    /** One iteration of `elf_map_segment`. */
    method LoadSegmentPage(a: nat, image: seq<byte>, ph: Phdr, va: nat) returns (rc: int)
      requires Valid() && a < |spaces| && InImage(image, ph) && ph.vaddr < va + PAGE_SIZE
      modifies this, tables, alloc
      ensures Valid() && (State(), rc) == LoadPage(old(State()), a, va, SegPerm(ph.flags), PageBytes(image, ph, va))
    {
      hide PageTable.Inv, Lookup, KallocPage, PageTable.MapPage, PageBytes, SegPerm;
      PageHandedOut(State().heap);
      var pa := AllocPage();
      if pa.None? {
        return ENOSPC;
      }
      FillPage(pa.value / PAGE_SIZE, image, ph, va);
      rc := tables.MapPage(spaces[a].root, va, pa.value, SegPerm(ph.flags));
      if rc != 0 {
        rc := ENOSPC;
      }
    }

    /** `elf_map_segment` */
    method LoadSegment(a: nat, image: seq<byte>, ph: Phdr) returns (rc: int)
      requires Valid() && a < |spaces| && InImage(image, ph)
      modifies this, tables, alloc
      ensures Valid() && |spaces| == |old(spaces)|
      ensures (State(), rc) == MapSegment(old(State()), a, image, ph, RoundDown(ph.vaddr, PAGE_SIZE))
    {
      hide PageTable.Inv, MemoryInv, LoadPage, PageBytes, SegPerm;
      var va := RoundDown(ph.vaddr, PAGE_SIZE);
      while va < SegEnd(ph)
        invariant Valid() && |spaces| == |old(spaces)| && ph.vaddr < va + PAGE_SIZE
        invariant MapSegment(old(State()), a, image, ph, RoundDown(ph.vaddr, PAGE_SIZE)) ==
                  MapSegment(State(), a, image, ph, va)
        decreases SegEnd(ph) - va
      {
        rc := LoadSegmentPage(a, image, ph, va);
        if rc != 0 {
          return ENOSPC;
        }
        va := va + PAGE_SIZE;
      }
      rc := 0;
    }

    /** One iteration of `elf_load_into_agent`; `None` when the loop goes on. */
    method LoadOneHeader(a: nat, image: seq<byte>, i: nat) returns (o: Option<Outcome>)
      requires Valid() && a < |spaces| && HeaderOk(image)
      modifies this, tables, alloc
      ensures Valid() && |spaces| == |old(spaces)| && (State(), o) == LoadHeader(old(State()), a, image, i)
    {
      hide PageTable.Inv, MemoryInv, MapSegment, PhdrAt, HeaderOffset;
      var off := HeaderOffset(image, i);
      if off + PHDR_SIZE >= TWO_64 {
        return Some(Undefined);
      }
      if off + PHDR_SIZE > |image| {
        return Some(Failed(EINVAL));
      }
      var ph := PhdrAt(image, off);
      if ph.kind != PT_LOAD {
        return None;
      }
      if Wrap(ph.offset + ph.filesz) > |image| {
        return Some(Failed(EINVAL));
      }
      if ph.offset + ph.filesz >= TWO_64 {
        return Some(Undefined);
      }
      var rc := LoadSegment(a, image, ph);
      o := if rc != 0 then Some(Failed(ENOSPC)) else None;
    }

    /** `elf_load_into_agent` */
    method LoadImage(a: nat, image: seq<byte>) returns (o: Outcome)
      requires Valid() && a < |spaces|
      modifies this, tables, alloc
      ensures Valid() && |spaces| == |old(spaces)| && (State(), o) == LoadElf(old(State()), a, image)
    {
      if !HeaderOk(image) {
        return Failed(EINVAL);
      }
      hide PageTable.Inv, MemoryInv, LoadHeader, PhNum, EntryPoint;
      var i := 0;
      while i < PhNum(image)
        invariant Valid() && |spaces| == |old(spaces)|
        invariant LoadHeaders(old(State()), a, image, 0) == LoadHeaders(State(), a, image, i)
      {
        var stop := LoadOneHeader(a, image, i);
        if stop.Some? {
          return stop.value;
        }
        i := i + 1;
      }
      o := Loaded(EntryPoint(image));
    }
  }
}
