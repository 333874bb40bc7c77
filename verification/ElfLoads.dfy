/**
 Loading an image given by its fields (kernel/elfload.c:78-153): exactly which images are loaded into which
 address space, and what the space then shows.
 */
module ElfLoads {
  import opened Base
  import opened PageTable
  import opened KernelHeap
  import opened AddressSpaces
  import opened Loader
  import opened NodeNeed
  import opened SpaceExact
  import opened ElfImage

  // ---------------------------------------------------------------- images by their fields

  /** The image has this ELF header, and these program headers where the ELF header says they are. */
  ghost predicate IsImage(image: seq<byte>, h: Ehdr, ps: seq<Segment>) {
    && |image| < 0x8000_0000 && HoldsEhdr(image, h) && |ps| == h.phnum
    && (forall i | 0 <= i < |ps| :: HoldsFields(image, h.phoff + 56 * i, SegmentFields(ps[i])))
  }

  predicate GoodHeader(h: Ehdr) {
    GoodIdent(h.ident) && h.machine == 243 && h.phentsize == 56
  }

  /** The bytes of every loadable segment lie in the file. */
  predicate SegmentsInFile(len: nat, ps: seq<Segment>) {
    forall i | 0 <= i < |ps| && ps[i].kind == 1 :: ps[i].offset + ps[i].filesz <= len
  }

  /** Header i is read as the values it was given. */
  lemma HeaderIs(image: seq<byte>, h: Ehdr, ps: seq<Segment>, i: nat)
    requires IsImage(image, h, ps) && i < |ps|
    ensures |image| >= EHDR_SIZE && HeaderOffset(image, i) == h.phoff + 56 * i
    ensures HeaderOffset(image, i) + PHDR_SIZE <= |image| && PhdrAt(image, HeaderOffset(image, i)) == PhdrOf(ps[i])
  {
    hide HoldsFields, HoldsEhdr, PhdrAt, HeaderOk;
    EhdrReadsBack(image, h);
    PhdrReadsBack(image, h.phoff + 56 * i, ps[i]);
  }

  /**
   Loader correctness for an image given by its fields: it reports the entry point, every loadable segment was
   in the file, and byte k of each reads as file byte k or as zero behind the file's part, on a user page that
   is readable, writable for flag 2 and executable for flag 1.
   */
  lemma LoadedByFields(s: Vm, a: nat, image: seq<byte>, h: Ehdr, ps: seq<Segment>, i: nat, k: nat)
    requires TablesInv(s) && MemoryInv(s) && a < |s.spaces| && IsImage(image, h, ps)
    requires LoadElf(s, a, image).1.Loaded?
    ensures LoadElf(s, a, image).1 == Loaded(h.entry) && GoodHeader(h) && SegmentsInFile(|image|, ps)
    ensures i < |ps| && ps[i].kind == 1 && k < ps[i].memsz && ps[i].vaddr + ps[i].memsz + 4095 < TWO_64 ==>
              var p, s' := ps[i], LoadElf(s, a, image).0;
              var va := p.vaddr + k;
              && At(s', a, VpnOf(va)).Some?
              && At(s', a, VpnOf(va)).value.perm == Perm(true, p.flags / 2 % 2 == 1, p.flags % 2 == 1, true)
              && var page := Frame(s', At(s', a, VpnOf(va)).value.ppn);
              && |page| == PAGE_SIZE
              && page[va % PAGE_SIZE] == if k < p.filesz then image[p.offset + k] else 0
  {
    hide TablesInv, MemoryInv, LoadHeaders, Loader.Extends, Lookup, PhdrAt, HoldsEhdr, HeaderOffset, VpnOf, GoodIdent;
    LoadedEntry(s, a, image, h);
    forall j | 0 <= j < |ps| && ps[j].kind == 1 ensures ps[j].offset + ps[j].filesz <= |image| {
      LoaderCorrect(s, a, image, j, 0);
      HeaderIs(image, h, ps, j);
      assert Loadable(image, j);
    }
    if i < |ps| && ps[i].kind == 1 && k < ps[i].memsz && ps[i].vaddr + ps[i].memsz + 4095 < TWO_64 {
      HeaderIs(image, h, ps, i);
      EhdrReadsBack(image, h);
      LoaderCorrect(s, a, image, i, k);
      assert SegPerm(ps[i].flags) == Perm(true, ps[i].flags / 2 % 2 == 1, ps[i].flags % 2 == 1, true);
    }
  }

  lemma LoadedEntry(s: Vm, a: nat, image: seq<byte>, h: Ehdr)
    requires a < |s.spaces| && HoldsEhdr(image, h) && LoadElf(s, a, image).1.Loaded?
    ensures LoadElf(s, a, image).1 == Loaded(h.entry) && GoodHeader(h) && HeaderOk(image) && PhNum(image) == h.phnum
  {
    hide LoadHeaders, HeaderOk, GoodIdent, HoldsEhdr, EntryPoint, PhNum;
    EhdrReadsBack(image, h);
    EntryReported(s, a, image, 0);
  }

  lemma {:induction false} EntryReported(s: Vm, a: nat, image: seq<byte>, i: nat)
    requires a < |s.spaces| && HeaderOk(image)
    ensures LoadHeaders(s, a, image, i).1.Loaded? ==> LoadHeaders(s, a, image, i).1.entry == EntryPoint(image)
    decreases PhNum(image) - i
  {
    hide LoadHeader, EntryPoint, PhNum;
    if i < PhNum(image) && LoadHeader(s, a, image, i).1.None? {
      EntryReported(LoadHeader(s, a, image, i).0, a, image, i + 1);
    }
  }

  // ---------------------------------------------------------------- loading as a list of pages

  /** A page to load. */
  datatype Request = Request(va: nat, perm: Perm, content: seq<byte>)

  /** Load pages one after the other until one fails. */
  function LoadAll(s: Vm, a: nat, rs: seq<Request>): (r: (Vm, bool))
    requires a < |s.spaces|
    ensures |r.0.spaces| == |s.spaces|
    decreases |rs|
  {
    if rs == [] then (s, true)
    else
      var (s1, rc) := LoadPage(s, a, rs[0].va, rs[0].perm, rs[0].content);
      if rc != 0 then (s1, false) else LoadAll(s1, a, rs[1..])
  }

  lemma {:induction false} LoadAllJoined(s: Vm, a: nat, x: seq<Request>, y: seq<Request>)
    requires a < |s.spaces|
    ensures LoadAll(s, a, x + y) ==
            if LoadAll(s, a, x).1 then LoadAll(LoadAll(s, a, x).0, a, y) else LoadAll(s, a, x)
    decreases |x|
  {
    hide LoadPage;
    if x == [] {
      assert x + y == y;
    } else {
      assert (x + y)[1..] == x[1..] + y;
      var (s1, rc) := LoadPage(s, a, x[0].va, x[0].perm, x[0].content);
      if rc == 0 {
        LoadAllJoined(s1, a, x[1..], y);
      }
    }
  }

  /** Pages of a segment, from its address rounded down to its end rounded up, in 64-bit arithmetic. */
  function PageCount(p: Segment): nat {
    var top := ((p.vaddr + p.memsz) % TWO_64 + 4095) % TWO_64 / 4096;
    if top <= p.vaddr / 4096 then 0 else top - p.vaddr / 4096
  }

  function PageRequest(image: seq<byte>, p: Segment, va: nat): Request
    requires p.offset + p.filesz <= |image|
  {
    Request(va, SegPerm(p.flags), PageBytes(image, PhdrOf(p), va))
  }

  /** n pages of the segment from `va` on. */
  function PagesFrom(image: seq<byte>, p: Segment, va: nat, n: nat): (rs: seq<Request>)
    requires p.offset + p.filesz <= |image|
    ensures |rs| == n && forall j: nat | j < n :: rs[j].va == va + 4096 * j && |rs[j].content| == PAGE_SIZE
    decreases n
  {
    if n == 0 then [] else [PageRequest(image, p, va)] + PagesFrom(image, p, va + 4096, n - 1)
  }

  function SegmentPages(image: seq<byte>, p: Segment): seq<Request> {
    if p.kind == 1 && p.offset + p.filesz <= |image|
    then PagesFrom(image, p, p.vaddr / 4096 * 4096, PageCount(p)) else []
  }

  function AllPages(image: seq<byte>, ps: seq<Segment>): seq<Request> {
    if ps == [] then [] else SegmentPages(image, ps[0]) + AllPages(image, ps[1..])
  }

  lemma {:induction false} MapSegmentIsPages(s: Vm, a: nat, image: seq<byte>, p: Segment, va: nat, n: nat)
    requires a < |s.spaces| && p.offset + p.filesz <= |image| && va % 4096 == 0
    requires if n == 0 then SegEnd(PhdrOf(p)) <= va else SegEnd(PhdrOf(p)) == va + 4096 * n
    ensures MapSegment(s, a, image, PhdrOf(p), va) ==
            var (s', ok) := LoadAll(s, a, PagesFrom(image, p, va, n)); (s', if ok then 0 else ENOSPC)
    decreases n
  {
    hide LoadPage, SegEnd, PageBytes, SegPerm;
    if n > 0 {
      var r := PageRequest(image, p, va);
      var (s1, rc) := LoadPage(s, a, va, r.perm, r.content);
      assert PagesFrom(image, p, va, n)[1..] == PagesFrom(image, p, va + 4096, n - 1);
      if rc == 0 {
        MapSegmentIsPages(s1, a, image, p, va + 4096, n - 1);
      }
    }
  }

  lemma SegEndIs(p: Segment)
    requires p.vaddr < TWO_64 && p.memsz < TWO_64
    ensures var (n, base) := (PageCount(p), p.vaddr / 4096 * 4096);
            if n == 0 then SegEnd(PhdrOf(p)) <= base else SegEnd(PhdrOf(p)) == base + 4096 * n
    ensures RoundDown(p.vaddr, PAGE_SIZE) == p.vaddr / 4096 * 4096
  {
    var end := (p.vaddr + p.memsz) % TWO_64;
    assert end == Wrap(p.vaddr + p.memsz);
    assert (end + 4095) % TWO_64 == Wrap(end + 4095);
    assert SegEnd(PhdrOf(p)) == (end + 4095) % TWO_64 / 4096 * 4096;
  }

  lemma EightByteFields(p: Segment, image: seq<byte>, off: nat)
    requires HoldsFields(image, off, SegmentFields(p))
    ensures p.vaddr < TWO_64 && p.memsz < TWO_64
  {
    hide ElfImage.Bytes;
    var fs := SegmentFields(p);
    assert fs[3] == Field(p.vaddr, 8) && fs[6] == Field(p.memsz, 8);
    assert Pow256(4) == 0x1_0000_0000;
    assert Pow256(8) == TWO_64 by {
      assert Pow256(6) == 0x1_0000_0000_0000;
    }
  }

  /** One program header: its pages, if it is loadable. */
  lemma LoadHeaderIsPages(s: Vm, a: nat, image: seq<byte>, h: Ehdr, ps: seq<Segment>, i: nat)
    requires a < |s.spaces| && IsImage(image, h, ps) && i < |ps| && HeaderOk(image)
    requires ps[i].kind == 1 ==> ps[i].offset + ps[i].filesz <= |image|
    ensures LoadHeader(s, a, image, i) ==
            var (s', ok) := LoadAll(s, a, SegmentPages(image, ps[i])); (s', if ok then None else Some(Failed(ENOSPC)))
  {
    hide LoadAll, MapSegment, PagesFrom, HoldsFields, HoldsEhdr, HeaderOk, PhdrAt, HeaderOffset, SegEnd, PageCount;
    HeaderIs(image, h, ps, i);
    if ps[i].kind == 1 {
      EightByteFields(ps[i], image, h.phoff + 56 * i);
      SegEndIs(ps[i]);
      MapSegmentIsPages(s, a, image, ps[i], ps[i].vaddr / 4096 * 4096, PageCount(ps[i]));
    } else {
      NothingToLoad(s, a);
    }
  }

  lemma NothingToLoad(s: Vm, a: nat)
    requires a < |s.spaces|
    ensures LoadAll(s, a, []) == (s, true)
  {
  }

  /** The program headers from i up to k, when their bytes are in the file: their pages, then what is behind them. */
  lemma {:induction false} HeadersUpTo(s: Vm, a: nat, image: seq<byte>, h: Ehdr, ps: seq<Segment>, i: nat, k: nat)
    requires a < |s.spaces| && IsImage(image, h, ps) && i <= k <= |ps| && HeaderOk(image)
    requires SegmentsInFile(|image|, ps[..k])
    ensures LoadHeaders(s, a, image, i) ==
            var (s', ok) := LoadAll(s, a, AllPages(image, ps[i..k]));
            if ok then LoadHeaders(s', a, image, k) else (s', Failed(ENOSPC))
    decreases k - i
  {
    hide LoadAll, LoadHeader, SegmentPages, HoldsFields, HoldsEhdr, HeaderOk, EntryPoint, PhNum;
    EhdrReadsBack(image, h);
    NothingToLoad(s, a);
    if i < k {
      assert ps[i] == ps[..k][i];
      LoadHeaderIsPages(s, a, image, h, ps, i);
      var (s1, ok) := LoadAll(s, a, SegmentPages(image, ps[i]));
      HeadersUpTo(s1, a, image, h, ps, i + 1, k);
      LoadAllJoined(s, a, SegmentPages(image, ps[i]), AllPages(image, ps[i + 1..k]));
      assert ps[i..k][1..] == ps[i + 1..k];
    }
  }

  /** All program headers, when their bytes are in the file. */
  lemma LoadHeadersIsPages(s: Vm, a: nat, image: seq<byte>, h: Ehdr, ps: seq<Segment>)
    requires a < |s.spaces| && IsImage(image, h, ps) && HeaderOk(image) && SegmentsInFile(|image|, ps)
    ensures LoadHeaders(s, a, image, 0) ==
            var (s', ok) := LoadAll(s, a, AllPages(image, ps));
            (s', if ok then Loaded(h.entry) else Failed(ENOSPC))
  {
    hide LoadAll, LoadHeader, AllPages, HoldsFields, HoldsEhdr, HeaderOk, EntryPoint, PhNum;
    assert ps[..|ps|] == ps && ps[0..|ps|] == ps;
    HeadersUpTo(s, a, image, h, ps, 0, |ps|);
    EhdrReadsBack(image, h);
  }

  // ---------------------------------------------------------------- exactly when the pages fit

  ghost function PageNumbers(vas: seq<nat>): set<nat> {
    set va | va in vas :: VpnOf(va)
  }

  /** n whole pages are left from the next page boundary on. */
  predicate HeapRoom(h: Heap, n: nat) {
    n == 0 || (h.ptr + 4095) / 4096 * 4096 + 4096 * n <= h.end
  }

  /** The pages fall on different unmapped pages, and the heap and the pool have room for them. */
  ghost predicate Room(s: Vm, a: nat, vas: seq<nat>)
    requires a < |s.spaces|
  {
    && HeapRoom(s.heap, |vas|)
    && (forall i | 0 <= i < |vas| :: At(s, a, VpnOf(vas[i])).None?)
    && (forall i, j | 0 <= i < j < |vas| :: VpnOf(vas[i]) != VpnOf(vas[j]))
    && s.f.next + Need(s.f, s.spaces[a].root, PageNumbers(vas)) <= PT_PAGES
  }

  /** What one loaded page does to the room left. */
  ghost predicate PageTaken(s: Vm, a: nat, v: nat, s': Vm)
    requires a < |s.spaces|
  {
    && s'.spaces == s.spaces
    && s'.heap == Heap((s.heap.ptr + 4095) / 4096 * 4096 + 4096, s.heap.end)
    && Linked(s.f, s.spaces[a].root, v, s'.f)
    && (forall w: nat | w < VPN_COUNT :: At(s', a, w).Some? == (w == v || At(s, a, w).Some?))
  }

  lemma LoadPageTakes(s: Vm, a: nat, va: nat, perm: Perm, content: seq<byte>)
    requires TablesInv(s) && a < |s.spaces| && LoadPage(s, a, va, perm, content).1 == 0
    ensures PageTaken(s, a, VpnOf(va), LoadPage(s, a, va, perm, content).0)
  {
    RootIsGood(s, a);
    hide TablesInv, Good, Lookup, MapPage, Linked, VpnOf, Index, Missing;
    KallocPageExactly(s.heap);
    var root, pa := s.spaces[a].root, KallocPage(s.heap).1.value;
    MapPageRefines(s.f, AllRoots(s), root, va, pa, perm);
    MapPageLinks(s.f, AllRoots(s), root, va, pa, perm);
  }

  lemma HeapRoomAfter(h: Heap, h': Heap, n: nat)
    requires h' == Heap((h.ptr + 4095) / 4096 * 4096 + 4096, h.end) && h'.ptr <= h.end
    ensures HeapRoom(h, n + 1) <==> HeapRoom(h', n)
  {
  }

  lemma PageNumbersOf(va: nat, rest: seq<nat>)
    ensures PageNumbers([va] + rest) == {VpnOf(va)} + PageNumbers(rest)
    ensures forall v | v in PageNumbers(rest) :: v < VPN_COUNT
    ensures VpnOf(va) in PageNumbers(rest) <==> exists i :: 0 <= i < |rest| && VpnOf(rest[i]) == VpnOf(va)
  {
    hide VpnOf;
    var all := [va] + rest;
    forall v | v in {VpnOf(va)} + PageNumbers(rest) ensures v in PageNumbers(all) {
      if v == VpnOf(va) {
        assert va in all;
      } else {
        var x :| x in rest && VpnOf(x) == v;
        assert x in all;
      }
    }
    forall v | v in PageNumbers(rest) ensures v < VPN_COUNT {
      var x :| x in rest && VpnOf(x) == v;
    }
    if VpnOf(va) in PageNumbers(rest) {
      var x :| x in rest && VpnOf(x) == VpnOf(va);
      var i :| 0 <= i < |rest| && rest[i] == x;
      assert VpnOf(rest[i]) == VpnOf(va);
    }
  }

  lemma RoomAfter(s: Vm, a: nat, va: nat, rest: seq<nat>, s': Vm)
    requires a < |s.spaces| && PageTaken(s, a, VpnOf(va), s') && At(s, a, VpnOf(va)).None? && PageFits(s.heap)
    ensures Room(s, a, [va] + rest) <==> Room(s', a, rest)
  {
    hide Lookup, Linked, VpnOf, Need, PageNumbers, HeapRoom;
    var all := [va] + rest;
    var v, root := VpnOf(va), s.spaces[a].root;
    HeapRoomAfter(s.heap, s'.heap, |rest|);
    PageNumbersOf(va, rest);
    assert all[0] == va;
    assert forall i | 0 <= i < |rest| :: all[i + 1] == rest[i];
    if v !in PageNumbers(rest) {
      NeedAfter(s.f, root, v, PageNumbers(rest), s'.f);
      if Room(s', a, rest) {
        forall i | 0 <= i < |all| ensures At(s, a, VpnOf(all[i])).None? {
          assert i == 0 || all[i] == rest[i - 1];
        }
        forall i, j | 0 <= i < j < |all| ensures VpnOf(all[i]) != VpnOf(all[j]) {
          assert all[j] == rest[j - 1] && (i == 0 || all[i] == rest[i - 1]);
        }
      }
    }
  }

  lemma NoRoom(s: Vm, a: nat, va: nat, rest: seq<nat>)
    requires TablesInv(s) && a < |s.spaces| && va % 4096 == 0
    requires !(At(s, a, VpnOf(va)).None? && PageFits(s.heap) && NodesFit(s, a, VpnOf(va)))
    ensures !Room(s, a, [va] + rest)
  {
    hide Lookup, VpnOf, Need, Missing, TablesInv;
    var all := [va] + rest;
    assert all[0] == va && va in all;
    NeedAtLeast(s.f, s.spaces[a].root, VpnOf(va), PageNumbers(all));
  }

  function Addresses(rs: seq<Request>): (vas: seq<nat>)
    ensures |vas| == |rs| && forall i | 0 <= i < |rs| :: vas[i] == rs[i].va
  {
    seq(|rs|, (i: nat) requires i < |rs| => rs[i].va)
  }

  /** A list of pages is loaded to its end exactly when there is room for it. */
  lemma {:induction false} LoadAllExactly(s: Vm, a: nat, rs: seq<Request>)
    requires TablesInv(s) && MemoryInv(s) && a < |s.spaces|
    requires forall i | 0 <= i < |rs| :: rs[i].va % 4096 == 0 && |rs[i].content| == PAGE_SIZE
    ensures LoadAll(s, a, rs).1 <==> Room(s, a, Addresses(rs))
    decreases |rs|
  {
    hide TablesInv, MemoryInv, Lookup, VpnOf, Room, LoadPage, NodesFit, PageFits, PageTaken, Loader.Extends, Holds;
    if rs == [] {
      EmptyRoom(s, a);
    } else {
      var r := rs[0];
      var (s1, rc) := LoadPage(s, a, r.va, r.perm, r.content);
      LoadPageExactly(s, a, r.va, r.perm, r.content);
      assert Addresses(rs) == [r.va] + Addresses(rs[1..]);
      if rc == 0 {
        LoadPageTakes(s, a, r.va, r.perm, r.content);
        LoadPageExtends(s, a, r.va, r.perm, r.content);
        LoadAllExactly(s1, a, rs[1..]);
        RoomAfter(s, a, r.va, Addresses(rs[1..]), s1);
      } else {
        NoRoom(s, a, r.va, Addresses(rs[1..]));
      }
    }
  }

  lemma EmptyRoom(s: Vm, a: nat)
    requires TablesInv(s) && a < |s.spaces|
    ensures Room(s, a, [])
  {
    assert PageNumbers([]) == {};
    EmptySetNeedsNothing(s.f, s.spaces[a].root);
    PoolBound(s.f, AllRoots(s));
  }

  // ---------------------------------------------------------------- main result

  /** Page addresses of all loadable segments, in the order of the program headers. */
  function Footprint(ps: seq<Segment>): seq<nat> {
    if ps == [] then []
    else
      (if ps[0].kind == 1 then seq(PageCount(ps[0]), (j: nat) => ps[0].vaddr / 4096 * 4096 + 4096 * j) else []) +
      Footprint(ps[1..])
  }

  lemma {:induction false} AllPagesAre(image: seq<byte>, ps: seq<Segment>)
    requires SegmentsInFile(|image|, ps)
    ensures Addresses(AllPages(image, ps)) == Footprint(ps)
    ensures forall r | r in AllPages(image, ps) :: r.va % 4096 == 0 && |r.content| == PAGE_SIZE
    decreases |ps|
  {
    hide PagesFrom, PageCount;
    if ps != [] {
      AllPagesAre(image, ps[1..]);
      var first, rest := SegmentPages(image, ps[0]), AllPages(image, ps[1..]);
      assert Addresses(first + rest) == Addresses(first) + Addresses(rest);
      assert Addresses(first) == if ps[0].kind == 1
        then seq(PageCount(ps[0]), (j: nat) => ps[0].vaddr / 4096 * 4096 + 4096 * j) else [];
    }
  }

  /**
   An image is loaded exactly when its header is one the loader takes, every loadable segment lies in the file,
   and the address space has room for all their pages.  With header and segments in order, running out of room
   is the only failure.
   */
  lemma LoadsExactly(s: Vm, a: nat, image: seq<byte>, h: Ehdr, ps: seq<Segment>)
    requires TablesInv(s) && MemoryInv(s) && a < |s.spaces| && IsImage(image, h, ps)
    ensures LoadElf(s, a, image).1.Loaded? <==>
            GoodHeader(h) && SegmentsInFile(|image|, ps) && Room(s, a, Footprint(ps))
    ensures !GoodHeader(h) ==> LoadElf(s, a, image) == (s, Failed(EINVAL))
    ensures GoodHeader(h) && SegmentsInFile(|image|, ps) && !Room(s, a, Footprint(ps)) ==>
              LoadElf(s, a, image).1 == Failed(ENOSPC)
  {
    hide TablesInv, MemoryInv, LoadHeaders, LoadAll, AllPages, Room, HeaderOk, GoodIdent, HoldsEhdr, Footprint;
    EhdrReadsBack(image, h);
    if GoodHeader(h) && SegmentsInFile(|image|, ps) {
      LoadHeadersIsPages(s, a, image, h, ps);
      AllPagesAre(image, ps);
      LoadAllExactly(s, a, AllPages(image, ps));
    } else if LoadElf(s, a, image).1.Loaded? {
      LoadedByFields(s, a, image, h, ps, 0, 0);
    }
  }

  /** The first loadable segment that reaches past the end of the file refuses the image, given room up to it. */
  lemma SegmentOutsideFile(s: Vm, a: nat, image: seq<byte>, h: Ehdr, ps: seq<Segment>, k: nat)
    requires TablesInv(s) && MemoryInv(s) && a < |s.spaces| && IsImage(image, h, ps) && GoodHeader(h)
    requires k < |ps| && SegmentsInFile(|image|, ps[..k]) && Room(s, a, Footprint(ps[..k]))
    requires ps[k].kind == 1 && |image| < ps[k].offset + ps[k].filesz < TWO_64
    ensures LoadElf(s, a, image).1 == Failed(EINVAL)
  {
    hide TablesInv, MemoryInv, LoadAll, AllPages, Room, HeaderOk, GoodIdent, HoldsEhdr, Footprint, HeaderOffset, PhdrAt,
         HoldsFields, PhNum;
    EhdrReadsBack(image, h);
    HeadersUpTo(s, a, image, h, ps, 0, k);
    assert ps[0..k] == ps[..k];
    AllPagesAre(image, ps[..k]);
    LoadAllExactly(s, a, AllPages(image, ps[..k]));
    HeaderIs(image, h, ps, k);
  }
}
