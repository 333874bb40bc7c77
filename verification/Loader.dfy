/**
 The ELF loader of kernel/elfload.c: program headers of an image, one freshly filled page per page of
 every loadable segment.
 */
module Loader {
  import opened Base
  import opened PageTable
  import opened KernelHeap
  import opened AddressSpaces
  import opened CowProofs
  import opened CowSteps
  import opened SharedPages

  const EHDR_SIZE := 64
  const PHDR_SIZE := 56
  const ELF_MAGIC := 0x464c_457f
  const EM_RISCV := 243
  const PT_LOAD := 1
  const PF_X := 1
  const PF_W := 2
  const PF_R := 4

  // ---------------------------------------------------------------- little-endian fields

  function Le(image: seq<byte>, off: nat, n: nat): nat
    requires off + n <= |image|
    decreases n
  {
    if n == 0 then 0 else image[off] as nat + 256 * Le(image, off + 1, n - 1)
  }

  datatype Phdr = Phdr(kind: nat, flags: nat, offset: nat, vaddr: nat, filesz: nat, memsz: nat)

  function PhdrAt(image: seq<byte>, off: nat): Phdr
    requires off + PHDR_SIZE <= |image|
  {
    Phdr(Le(image, off, 4), Le(image, off + 4, 4), Le(image, off + 8, 8), Le(image, off + 16, 8),
         Le(image, off + 32, 8), Le(image, off + 40, 8))
  }

  predicate HeaderOk(image: seq<byte>) {
    && |image| >= EHDR_SIZE
    && Le(image, 0, 4) == ELF_MAGIC && image[4] == 2 && image[5] == 1
    && Le(image, 18, 2) == EM_RISCV && Le(image, 54, 2) == PHDR_SIZE
  }

  function PhOff(image: seq<byte>): nat
    requires |image| >= EHDR_SIZE
  {
    Le(image, 32, 8)
  }

  function PhNum(image: seq<byte>): nat
    requires |image| >= EHDR_SIZE
  {
    Le(image, 56, 2)
  }

  function EntryPoint(image: seq<byte>): nat
    requires |image| >= EHDR_SIZE
  {
    Le(image, 24, 8)
  }

  // ---------------------------------------------------------------- one segment

  /** Readable always; writable and executable as the segment's flags ask. */
  function SegPerm(flags: nat): Perm {
    Perm(true, flags / PF_W % 2 == 1, flags / PF_X % 2 == 1, true)
  }

  /** What the flags ask for. */
  function Requested(flags: nat): Perm {
    Perm(flags / PF_R % 2 == 1, flags / PF_W % 2 == 1, flags / PF_X % 2 == 1, true)
  }

  /** A segment gets the permissions it asks for exactly when it asks to be readable. */
  lemma GrantedExactly(flags: nat)
    ensures SegPerm(flags) == Requested(flags) <==> flags / PF_R % 2 == 1
  {
  }

  /** An execute-only segment is mapped readable as well. */
  lemma ExecuteOnlyIsReadable()
    ensures SegPerm(PF_X) == Perm(true, false, true, true) && Requested(PF_X) == Perm(false, false, true, true)
  {
  }

  predicate InImage(image: seq<byte>, ph: Phdr) {
    ph.offset + ph.filesz <= |image|
  }

  /** The byte at address x of the segment: from the file where the file has it, zero elsewhere. */
  function SegByte(image: seq<byte>, ph: Phdr, x: nat): byte
    requires InImage(image, ph)
  {
    if ph.vaddr <= x && x - ph.vaddr < ph.filesz then image[ph.offset + (x - ph.vaddr)] else 0
  }

  function PageBytes(image: seq<byte>, ph: Phdr, va: nat): (page: seq<byte>)
    requires InImage(image, ph)
    ensures |page| == PAGE_SIZE && forall j | 0 <= j < PAGE_SIZE :: page[j] == SegByte(image, ph, va + j)
  {
    seq(PAGE_SIZE, (j: nat) => SegByte(image, ph, va + j))
  }

  /** One past the last page of the segment; both sums are modulo 2^64. */
  function SegEnd(ph: Phdr): nat {
    RoundDown(Wrap(Wrap(ph.vaddr + ph.memsz) + PAGE_SIZE - 1), PAGE_SIZE)
  }

  /** `elf_map_segment` from page `va` on. */
  function MapSegment(s: Vm, a: nat, image: seq<byte>, ph: Phdr, va: nat): (r: (Vm, int))
    requires a < |s.spaces| && InImage(image, ph)
    ensures |r.0.spaces| == |s.spaces|
    decreases SegEnd(ph) - va
  {
    if va >= SegEnd(ph) then (s, 0)
    else
      var (s1, rc) := LoadPage(s, a, va, SegPerm(ph.flags), PageBytes(image, ph, va));
      if rc != 0 then (s1, ENOSPC) else MapSegment(s1, a, image, ph, va + PAGE_SIZE)
  }

  // ---------------------------------------------------------------- the image

  /** `Undefined` marks images on which the source reads outside its buffer because a sum wraps. */
  datatype Outcome = Loaded(entry: nat) | Failed(rc: int) | Undefined

  /** File offset of program header i, modulo 2^64. */
  function HeaderOffset(image: seq<byte>, i: nat): nat
    requires |image| >= EHDR_SIZE
  {
    Wrap(PhOff(image) + i * PHDR_SIZE)
  }

  /** One iteration of `elf_load_into_agent`; `None` when the loop goes on. */
  function LoadHeader(s: Vm, a: nat, image: seq<byte>, i: nat): (r: (Vm, Option<Outcome>))
    requires a < |s.spaces| && HeaderOk(image)
    ensures |r.0.spaces| == |s.spaces| && (r.1.Some? ==> !r.1.value.Loaded?)
  {
    var off := HeaderOffset(image, i);
    if off + PHDR_SIZE >= TWO_64 then (s, Some(Undefined))
    else if off + PHDR_SIZE > |image| then (s, Some(Failed(EINVAL)))
    else
      var ph := PhdrAt(image, off);
      if ph.kind != PT_LOAD then (s, None)
      else if Wrap(ph.offset + ph.filesz) > |image| then (s, Some(Failed(EINVAL)))
      else if ph.offset + ph.filesz >= TWO_64 then (s, Some(Undefined))
      else
        var (s1, rc) := MapSegment(s, a, image, ph, RoundDown(ph.vaddr, PAGE_SIZE));
        (s1, if rc != 0 then Some(Failed(ENOSPC)) else None)
  }

  /** `elf_load_into_agent` from program header i on. */
  function LoadHeaders(s: Vm, a: nat, image: seq<byte>, i: nat): (r: (Vm, Outcome))
    requires a < |s.spaces| && HeaderOk(image)
    ensures |r.0.spaces| == |s.spaces|
    decreases PhNum(image) - i
  {
    if i >= PhNum(image) then (s, Loaded(EntryPoint(image)))
    else
      var (s1, o) := LoadHeader(s, a, image, i);
      if o.Some? then (s1, o.value) else LoadHeaders(s1, a, image, i + 1)
  }

  function LoadElf(s: Vm, a: nat, image: seq<byte>): (r: (Vm, Outcome))
    requires a < |s.spaces|
    ensures |r.0.spaces| == |s.spaces|
  {
    if !HeaderOk(image) then (s, Failed(EINVAL)) else LoadHeaders(s, a, image, 0)
  }

  // ---------------------------------------------------------------- what loading keeps

  /**
   Every translation there was, in this table, in every other agent's and in the kernel's, and every page
   taken before are as they were.
   */
  ghost predicate Extends(s: Vm, s': Vm, a: nat) {
    && s'.spaces == s.spaces && s'.f.kroot == s.f.kroot
    && a < |s.spaces|
    && s'.heap.end == s.heap.end && s.heap.ptr <= s'.heap.ptr
    && (forall r: nat, w: nat | r in AllRoots(s) && w < VPN_COUNT && Lookup(s.f, r, w).Some? ::
          Lookup(s'.f, r, w) == Lookup(s.f, r, w))
    && s.ram.Keys <= s'.ram.Keys
    && (forall p | p in s.ram && Taken(s, p) :: s'.ram[p] == s.ram[p])
  }

  /** Page v holds these bytes with these permissions, in a frame that cannot be handed out again. */
  ghost predicate Holds(s: Vm, a: nat, v: nat, perm: Perm, page: seq<byte>)
    requires a < |s.spaces|
  {
    && v < VPN_COUNT && At(s, a, v).Some? && At(s, a, v).value.perm == perm
    && At(s, a, v).value.ppn in s.ram && Taken(s, At(s, a, v).value.ppn)
    && s.ram[At(s, a, v).value.ppn] == page
  }

  lemma ExtendsThrough(s: Vm, s1: Vm, s2: Vm, a: nat)
    requires Extends(s, s1, a) && Extends(s1, s2, a)
    ensures Extends(s, s2, a)
  {
    hide Lookup;
    assert AllRoots(s1) == AllRoots(s);
  }

  lemma HoldsOn(s: Vm, s': Vm, a: nat, v: nat, perm: Perm, page: seq<byte>)
    requires Extends(s, s', a) && Holds(s, a, v, perm, page)
    ensures Holds(s', a, v, perm, page)
  {
    hide Lookup;
    assert s.spaces[a].root in Roots(s);
  }

  lemma LoadPageExtends(s: Vm, a: nat, va: nat, perm: Perm, content: seq<byte>)
    requires TablesInv(s) && MemoryInv(s) && a < |s.spaces| && |content| == PAGE_SIZE
    ensures var (s', rc) := LoadPage(s, a, va, perm, content);
            && Extends(s, s', a) && (rc == 0 ==> Holds(s', a, VpnOf(va), perm, content))
            && TablesInv(s') && MemoryInv(s')
  {
    hide Good, Lookup, Index, Entry, MapPage, VpnOf;
    PageHandedOut(s.heap);
    var (s', rc) := LoadPage(s, a, va, perm, content);
    if KallocPage(s.heap).1.Some? {
      var pa := KallocPage(s.heap).1.value;
      MapEffect(s, a, va, pa, perm);
      TablesCarry(s.(f := s'.f), s');
      GrowthKeepsMemory(s, s');
      MappingAdds(s, a, va, pa, perm);
    }
  }

  /** A mapping is seen at its own page of its table, and replaces no translation of any table. */
  lemma MappingAdds(s: Vm, a: nat, va: nat, pa: nat, perm: Perm)
    requires TablesInv(s) && a < |s.spaces|
    ensures var (f', rc) := MapPage(s.f, s.spaces[a].root, va, pa, perm);
            && f'.kroot == s.f.kroot
            && (rc == 0 ==> Lookup(f', s.spaces[a].root, VpnOf(va)) == Some(Leaf(pa / PAGE_SIZE, perm)))
            && (forall r: nat, w: nat | r in AllRoots(s) && w < VPN_COUNT && Lookup(s.f, r, w).Some? ::
                  Lookup(f', r, w) == Lookup(s.f, r, w))
  {
    hide Good, MapPage, VpnOf, Index;
    var root := s.spaces[a].root;
    assert root in Roots(s);
    MapPageRefines(s.f, AllRoots(s), root, va, pa, perm);
    var (f', rc) := MapPage(s.f, root, va, pa, perm);
    forall r: nat, w: nat | r in AllRoots(s) && w < VPN_COUNT && Lookup(s.f, r, w).Some?
      ensures Lookup(f', r, w) == Lookup(s.f, r, w)
    {
      if rc == 0 && w == VpnOf(va) && SharesSlot(s.f, root, r, Index(w, 2)) {
        SharedLookup(s.f, root, r, w);
      }
    }
  }

  // ---------------------------------------------------------------- segments and images

  ghost predicate SegmentLoaded(s: Vm, a: nat, image: seq<byte>, ph: Phdr, from: nat)
    requires a < |s.spaces| && InImage(image, ph)
  {
    forall va: nat | from <= va < SegEnd(ph) && va % PAGE_SIZE == 0 ::
      Holds(s, a, VpnOf(va), SegPerm(ph.flags), PageBytes(image, ph, va))
  }

  lemma SegmentLoadedOn(s: Vm, s': Vm, a: nat, image: seq<byte>, ph: Phdr, from: nat)
    requires Extends(s, s', a) && InImage(image, ph) && SegmentLoaded(s, a, image, ph, from)
    ensures SegmentLoaded(s', a, image, ph, from)
  {
    hide Holds, Extends, VpnOf, PageBytes, SegPerm;
    assert a < |s.spaces| == |s'.spaces| by { HoldsSize(s, s', a); }
    forall va: nat | from <= va < SegEnd(ph) && va % PAGE_SIZE == 0
      ensures Holds(s', a, VpnOf(va), SegPerm(ph.flags), PageBytes(image, ph, va))
    {
      HoldsOn(s, s', a, VpnOf(va), SegPerm(ph.flags), PageBytes(image, ph, va));
    }
  }

  lemma HoldsSize(s: Vm, s': Vm, a: nat)
    requires Extends(s, s', a)
    ensures a < |s.spaces| == |s'.spaces|
  {
  }

  lemma {:induction false} MapSegmentLoads(s: Vm, a: nat, image: seq<byte>, ph: Phdr, va: nat)
    requires TablesInv(s) && MemoryInv(s) && a < |s.spaces| && InImage(image, ph) && va % PAGE_SIZE == 0
    ensures var (s', rc) := MapSegment(s, a, image, ph, va);
            && Extends(s, s', a) && (rc == 0 ==> SegmentLoaded(s', a, image, ph, va))
            && TablesInv(s') && MemoryInv(s')
    decreases SegEnd(ph) - va
  {
    hide TablesInv, MemoryInv, LoadPage, Holds, Lookup, VpnOf, PageBytes, SegPerm;
    if va < SegEnd(ph) {
      var page := PageBytes(image, ph, va);
      LoadPageExtends(s, a, va, SegPerm(ph.flags), page);
      var (s1, rc) := LoadPage(s, a, va, SegPerm(ph.flags), page);
      if rc == 0 {
        MapSegmentLoads(s1, a, image, ph, va + PAGE_SIZE);
        var s2 := MapSegment(s1, a, image, ph, va + PAGE_SIZE).0;
        ExtendsThrough(s, s1, s2, a);
        HoldsOn(s1, s2, a, VpnOf(va), SegPerm(ph.flags), page);
        if MapSegment(s1, a, image, ph, va + PAGE_SIZE).1 == 0 {
          forall x: nat | va <= x < SegEnd(ph) && x % PAGE_SIZE == 0
            ensures Holds(s2, a, VpnOf(x), SegPerm(ph.flags), PageBytes(image, ph, x))
          {
            assert x == va || va + PAGE_SIZE <= x;
          }
        }
      }
    }
  }

  /** Program header i is a loadable segment inside the image. */
  predicate Loadable(image: seq<byte>, i: nat)
    requires HeaderOk(image)
  {
    && i < PhNum(image) && HeaderOffset(image, i) + PHDR_SIZE <= |image|
    && PhdrAt(image, HeaderOffset(image, i)).kind == PT_LOAD
    && InImage(image, PhdrAt(image, HeaderOffset(image, i)))
  }

  /** From header i on, every header lies in the image and every loadable segment's bytes do. */
  predicate AllLoadable(image: seq<byte>, from: nat)
    requires HeaderOk(image)
  {
    forall i: nat | from <= i < PhNum(image) ::
      && HeaderOffset(image, i) + PHDR_SIZE <= |image|
      && (PhdrAt(image, HeaderOffset(image, i)).kind == PT_LOAD ==> Loadable(image, i))
  }

  ghost predicate SegmentsLoaded(s: Vm, a: nat, image: seq<byte>, from: nat)
    requires a < |s.spaces| && HeaderOk(image)
  {
    forall i: nat | from <= i && Loadable(image, i) ::
      var ph := PhdrAt(image, HeaderOffset(image, i));
      SegmentLoaded(s, a, image, ph, RoundDown(ph.vaddr, PAGE_SIZE))
  }

  lemma LoadHeaderLoads(s: Vm, a: nat, image: seq<byte>, i: nat)
    requires TablesInv(s) && MemoryInv(s) && a < |s.spaces| && HeaderOk(image) && i < PhNum(image)
    ensures var (s', o) := LoadHeader(s, a, image, i);
            && Extends(s, s', a)
            && (o.None? ==> HeaderOffset(image, i) + PHDR_SIZE <= |image|)
            && (o.None? && PhdrAt(image, HeaderOffset(image, i)).kind == PT_LOAD ==> Loadable(image, i))
            && (o.None? && Loadable(image, i) ==>
                  var ph := PhdrAt(image, HeaderOffset(image, i));
                  SegmentLoaded(s', a, image, ph, RoundDown(ph.vaddr, PAGE_SIZE)))
            && TablesInv(s') && MemoryInv(s')
  {
    hide TablesInv, MemoryInv, MapSegment, SegmentLoaded, Extends, PhdrAt, PhOff, PhNum, HeaderOffset;
    ExtendsRefl(s, a);
    var off := HeaderOffset(image, i);
    if off + PHDR_SIZE < TWO_64 && off + PHDR_SIZE <= |image| {
      var ph := PhdrAt(image, off);
      if ph.kind == PT_LOAD && Wrap(ph.offset + ph.filesz) <= |image| && ph.offset + ph.filesz < TWO_64 {
        MapSegmentLoads(s, a, image, ph, RoundDown(ph.vaddr, PAGE_SIZE));
      }
    }
  }

  lemma {:induction false} LoadHeadersLoads(s: Vm, a: nat, image: seq<byte>, i: nat)
    requires TablesInv(s) && MemoryInv(s) && a < |s.spaces| && HeaderOk(image)
    ensures var (s', o) := LoadHeaders(s, a, image, i);
            && Extends(s, s', a) && (o.Loaded? ==> AllLoadable(image, i) && SegmentsLoaded(s', a, image, i))
            && TablesInv(s') && MemoryInv(s')
    decreases PhNum(image) - i
  {
    hide TablesInv, MemoryInv, LoadHeader, SegmentLoaded, Extends, PhdrAt, PhOff, PhNum, EntryPoint, HeaderOffset;
    ExtendsRefl(s, a);
    if i < PhNum(image) {
      LoadHeaderLoads(s, a, image, i);
      var (s1, o1) := LoadHeader(s, a, image, i);
      if o1.None? {
        LoadHeadersLoads(s1, a, image, i + 1);
        var s2 := LoadHeaders(s1, a, image, i + 1).0;
        ExtendsThrough(s, s1, s2, a);
        if Loadable(image, i) {
          var ph := PhdrAt(image, HeaderOffset(image, i));
          SegmentLoadedOn(s1, s2, a, image, ph, RoundDown(ph.vaddr, PAGE_SIZE));
        }
      }
    }
  }

  lemma ExtendsRefl(s: Vm, a: nat)
    requires a < |s.spaces|
    ensures Extends(s, s, a)
  {
  }

  /**
   Under a root slot that two tables share, an address can be loaded once only: agents are linked at one
   address of the kernel's own slot (linker-agent.ld), so a second load through another table fails.
   */
  lemma SharedAddressLoadsOnce(s: Vm, a: nat, b: nat, va: nat, perm: Perm, x: seq<byte>, y: seq<byte>)
    requires TablesInv(s) && MemoryInv(s) && a < |s.spaces| && b < |s.spaces| && a != b && |x| == PAGE_SIZE
    requires SharesSlot(s.f, s.spaces[a].root, s.spaces[b].root, Index(VpnOf(va), 2))
    requires LoadPage(s, a, va, perm, x).1 == 0
    ensures LoadPage(LoadPage(s, a, va, perm, x).0, b, va, perm, y).1 == ENOSPC
  {
    hide Good, Lookup, MapPage, VpnOf, Index, Entry;
    var s1 := LoadPage(s, a, va, perm, x).0;
    PageHandedOut(s.heap);
    assert s.spaces[a].root in Roots(s) && s.spaces[b].root in Roots(s);
    if KallocPage(s1.heap).1.Some? {
      SharedSlotCollides(s.f, AllRoots(s), s.spaces[a].root, s.spaces[b].root, va,
                         KallocPage(s.heap).1.value, perm, KallocPage(s1.heap).1.value, perm);
    }
  }

  // ---------------------------------------------------------------- which segments are covered

  /** The segment's end, rounded up to a page, does not wrap at 2^64. */
  predicate EndFits(ph: Phdr) {
    ph.vaddr + ph.memsz + PAGE_SIZE - 1 < TWO_64
  }

  /** The mapping loop reaches the page of byte k. */
  predicate Covered(ph: Phdr, k: nat) {
    RoundDown(ph.vaddr + k, PAGE_SIZE) < SegEnd(ph)
  }

  lemma SegmentCovers(ph: Phdr, k: nat)
    requires EndFits(ph) && k < ph.memsz
    ensures var base := RoundDown(ph.vaddr + k, PAGE_SIZE);
            && RoundDown(ph.vaddr, PAGE_SIZE) <= base && Covered(ph, k) && base % PAGE_SIZE == 0
            && VpnOf(base) == VpnOf(ph.vaddr + k)
  {
  }

  /** The last byte of a segment whose rounded end wraps is beyond the loop's reach. */
  lemma LastByteMissed(ph: Phdr)
    requires ph.vaddr < TWO_64 && 0 < ph.memsz < TWO_64 && !EndFits(ph)
    ensures !Covered(ph, ph.memsz - 1)
  {
    var end := ph.vaddr + ph.memsz;
    if end < TWO_64 {
      assert Wrap(Wrap(end) + PAGE_SIZE - 1) < PAGE_SIZE;
    } else {
      assert SegEnd(ph) <= TWO_64 - PAGE_SIZE;
      assert RoundDown(end - 1, PAGE_SIZE) >= TWO_64 - PAGE_SIZE;
    }
  }

  /** The loop reaches every byte of a segment exactly when its rounded end does not wrap. */
  lemma CoveredExactly(ph: Phdr)
    requires ph.vaddr < TWO_64 && 0 < ph.memsz < TWO_64
    ensures (forall k: nat | k < ph.memsz :: Covered(ph, k)) <==> EndFits(ph)
  {
    hide Covered;
    if EndFits(ph) {
      forall k: nat | k < ph.memsz ensures Covered(ph, k) {
        SegmentCovers(ph, k);
      }
    } else {
      LastByteMissed(ph);
    }
  }

  /** A segment that starts on a page and whose rounded end wraps is accepted without any page being mapped. */
  lemma WrappingSegmentSkipped(s: Vm, a: nat, image: seq<byte>, ph: Phdr)
    requires a < |s.spaces| && InImage(image, ph)
    requires ph.vaddr < TWO_64 && ph.memsz < TWO_64 && ph.vaddr % PAGE_SIZE == 0 && !EndFits(ph)
    ensures MapSegment(s, a, image, ph, RoundDown(ph.vaddr, PAGE_SIZE)) == (s, 0)
  {
    SkippedEnd(ph);
  }

  lemma SkippedEnd(ph: Phdr)
    requires ph.vaddr < TWO_64 && ph.memsz < TWO_64 && ph.vaddr % PAGE_SIZE == 0 && !EndFits(ph)
    ensures SegEnd(ph) <= RoundDown(ph.vaddr, PAGE_SIZE)
  {
    var end := ph.vaddr + ph.memsz;
    if end < TWO_64 {
      assert Wrap(Wrap(end) + PAGE_SIZE - 1) < PAGE_SIZE;
    } else {
      assert Wrap(end) + PAGE_SIZE - 1 < ph.vaddr + PAGE_SIZE;
    }
  }

  /** Such an input: one page at the top of the 64-bit space. */
  lemma TopPageSkipped(s: Vm, a: nat, image: seq<byte>)
    requires a < |s.spaces|
    ensures var ph := Phdr(PT_LOAD, PF_R, 0, 0xffff_ffff_ffff_f000, 0, PAGE_SIZE);
            InImage(image, ph) && MapSegment(s, a, image, ph, ph.vaddr) == (s, 0)
  {
    var ph := Phdr(PT_LOAD, PF_R, 0, 0xffff_ffff_ffff_f000, 0, PAGE_SIZE);
    WrappingSegmentSkipped(s, a, image, ph);
  }

  // ---------------------------------------------------------------- main result

  /**
   Loader correctness.  After a successful load every program header was in the image.  Byte k of every
   loadable segment whose rounded end does not wrap reads as file byte k, or as zero past the file's part,
   with the permissions of the segment and reading.  No translation of any table, the kernel's included, is
   changed or lost, and no page taken before has other bytes.
   */
  lemma LoaderCorrect(s: Vm, a: nat, image: seq<byte>, i: nat, k: nat)
    requires TablesInv(s) && MemoryInv(s) && a < |s.spaces| && LoadElf(s, a, image).1.Loaded?
    ensures HeaderOk(image) && AllLoadable(image, 0) && Extends(s, LoadElf(s, a, image).0, a)
    ensures Loadable(image, i) ==>
              var ph := PhdrAt(image, HeaderOffset(image, i));
              EndFits(ph) && k < ph.memsz ==>
                var s' := LoadElf(s, a, image).0;
                var va := ph.vaddr + k;
                && At(s', a, VpnOf(va)).Some? && At(s', a, VpnOf(va)).value.perm == SegPerm(ph.flags)
                && var page := Frame(s', At(s', a, VpnOf(va)).value.ppn);
                && |page| == PAGE_SIZE
                && page[va % PAGE_SIZE] == if k < ph.filesz then image[ph.offset + k] else 0
  {
    hide TablesInv, MemoryInv, LoadHeaders, Extends, Lookup, PhdrAt, PhNum, HeaderOffset, AllLoadable;
    LoadHeadersLoads(s, a, image, 0);
    var s' := LoadElf(s, a, image).0;
    if Loadable(image, i) {
      var ph := PhdrAt(image, HeaderOffset(image, i));
      if EndFits(ph) && k < ph.memsz {
        var va := ph.vaddr + k;
        var base := RoundDown(va, PAGE_SIZE);
        SegmentCovers(ph, k);
        assert Holds(s', a, VpnOf(base), SegPerm(ph.flags), PageBytes(image, ph, base));
        assert base + va % PAGE_SIZE == va;
      }
    }
  }

  /** So in a kernel that keeps its invariant no page that any table shows reads differently after a load. */
  lemma LoadDisturbsNone(s: Vm, a: nat, image: seq<byte>, r: nat, w: nat)
    requires AddressSpaces.Inv(s) && a < |s.spaces| && r in AllRoots(s) && Visible(s.f, r, w)
    ensures var s' := LoadElf(s, a, image).0;
            && Lookup(s'.f, r, w) == Lookup(s.f, r, w)
            && (Lookup(s.f, r, w).value.ppn in s.ram ==>
                  Frame(s', Lookup(s'.f, r, w).value.ppn) == Frame(s, Lookup(s.f, r, w).value.ppn))
  {
    hide TablesInv, MemoryInv, SharingInv, WindowInv, LoadHeaders, Lookup, HeaderOk;
    if HeaderOk(image) {
      LoadHeadersLoads(s, a, image, 0);
    } else {
      ExtendsRefl(s, a);
    }
  }
}
