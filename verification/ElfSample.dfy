/** A concrete image, loaded into the first agent of a kernel that has just booted. */
module ElfSample {
  import opened Base
  import opened PageTable
  import opened KernelHeap
  import opened AddressSpaces
  import opened SpaceSetup
  import opened BootMap
  import opened Loader
  import opened NodeNeed
  import opened SpaceExact
  import opened ElfImage
  import opened ElfLoads

  const SampleEhdr := Ehdr([0x7f, 0x45, 0x4c, 0x46, 2, 1, 1, 0, 0, 0, 0, 0, 0, 0, 0, 0], 2, 243, 1, 0x1_0000, 64, 0,
                           0, 64, 56, 1, 0, 0, 0)

  /** Four bytes of the file and zeros up to two pages, readable and writable. */
  const SampleSegment := Segment(1, 6, 120, 0x1_0000, 0x1_0000, 4, 0x2000, 0x1000)

  function SampleImage(): seq<byte> {
    SampleEhdr.ident + ElfImage.Bytes(EhdrFields(SampleEhdr)) +
    ElfImage.Bytes(SegmentFields(SampleSegment)) + [1, 2, 3, 4]
  }

  lemma {:induction false} BytesSize(fields: seq<Field>)
    ensures |ElfImage.Bytes(fields)| == Size(fields)
  {
    if fields != [] {
      BytesSize(fields[1..]);
    }
  }

  lemma Powers()
    ensures Pow256(2) == 0x1_0000 && Pow256(4) == 0x1_0000_0000 && Pow256(8) == TWO_64
  {
    assert Pow256(4) == 0x1_0000_0000;
    assert Pow256(6) == 0x1_0000_0000_0000;
  }

  lemma SampleSizes()
    ensures |ElfImage.Bytes(EhdrFields(SampleEhdr))| == 48 && |ElfImage.Bytes(SegmentFields(SampleSegment))| == 56
  {
    hide Size, ElfImage.Bytes;
    var fs, gs := EhdrFields(SampleEhdr), SegmentFields(SampleSegment);
    EhdrOffsets(SampleEhdr);
    SizeOfMore(fs, 12);
    assert fs[..13] == fs;
    SegmentOffsets(SampleSegment);
    SizeOfMore(gs, 7);
    assert gs[..8] == gs;
    BytesSize(fs);
    BytesSize(gs);
  }

  lemma SampleIsImage()
    ensures IsImage(SampleImage(), SampleEhdr, [SampleSegment]) && GoodHeader(SampleEhdr) && |SampleImage()| == 124
  {
    hide ElfImage.Bytes, Pow256;
    Powers();
    SampleSizes();
    var image := SampleImage();
    assert image[..16] == SampleEhdr.ident;
    assert image[16..64] == ElfImage.Bytes(EhdrFields(SampleEhdr));
    assert image[64..120] == ElfImage.Bytes(SegmentFields(SampleSegment));
  }

  lemma SampleFootprint()
    ensures Footprint([SampleSegment]) == [0x1_0000, 0x1_1000] && SegmentsInFile(124, [SampleSegment])
  {
    assert PageCount(SampleSegment) == 2;
    assert [SampleSegment][1..] == [];
    assert seq(2, (j: nat) => SampleSegment.vaddr / 4096 * 4096 + 4096 * j) == [0x1_0000, 0x1_1000];
  }

  // ---------------------------------------------------------------- a freshly booted kernel with one agent

  const KROOT := 0x8_0100

  function Booted(ram: map<nat, seq<byte>>): Vm {
    Vm(EmptyForest(KROOT), Heap(HEAP_START, HEAP_START + HEAP_SIZE), ram, [])
  }

  lemma BootedInv(ram: map<nat, seq<byte>>)
    requires MemoryInv(Booted(ram))
    ensures AddressSpaces.Inv(Booted(ram))
  {
    hide MemoryInv, AddressSpaces.Inv, EmptyForest;
    BootEstablishes(KROOT, [], ram, HEAP_START + HEAP_SIZE);
    assert MapPages(EmptyForest(KROOT), []).0 == EmptyForest(KROOT);
  }

  lemma MapPageNext(f: Forest, root: nat, va: nat, pa: nat, perm: Perm)
    ensures MapPage(f, root, va, pa, perm).0.next <= f.next + 2
  {
  }

  lemma SetupNext(s: Vm, id: nat)
    ensures Setup(s, id).0.f.next <= s.f.next + 5
  {
    hide MapPage, KallocPage, Kalloc;
    if CreateRoot(s.f).1.Some? {
      CreateRootTakesOne(s.f);
      forall root, va, pa, g: Forest ensures MapPage(g, root, va, pa, UserRW).0.next <= g.next + 2 {
        MapPageNext(g, root, va, pa, UserRW);
      }
      forall root, va, pa ensures MapRegion(CreateRoot(s.f).0, root, va, pa, 2, UserRW).0.next <= s.f.next + 5 {
        TwoPages(CreateRoot(s.f).0, root, va, pa, UserRW);
      }
    }
  }

  lemma NothingMapped(v: nat)
    ensures Lookup(EmptyForest(KROOT), KROOT, v).None?
  {
  }

  lemma PairNeedsFour(f: Forest, root: nat, v: nat, w: nat)
    ensures Need(f, root, {v, w}) <= 4
  {
    hide Entry, LowNode, Index, Region;
    assert EmptySlots(f, root, {v, w}) <= {Index(v, 2), Index(w, 2)};
    SubsetSize(EmptySlots(f, root, {v, w}), {Index(v, 2), Index(w, 2)});
    assert EmptyRegions(f, root, {v, w}) <= {Region(v), Region(w)};
    SubsetSize(EmptyRegions(f, root, {v, w}), {Region(v), Region(w)});
  }

  /** The first agent of a fresh kernel has room for the sample. */
  lemma RoomForSample(ram: map<nat, seq<byte>>)
    requires MemoryInv(Booted(ram))
    ensures var (s, rc) := Setup(Booted(ram), 0);
            rc == 0 && |s.spaces| == 1 && AddressSpaces.Inv(s) && Room(s, 0, [0x1_0000, 0x1_1000])
  {
    hide MemoryInv, AddressSpaces.Inv, Setup, Lookup, Need, EmptyForest;
    BootedInv(ram);
    var s0 := Booted(ram);
    EmptyForestNext();
    SetupExactly(s0, 0);
    SetupKeeps(s0, 0);
    SetupNext(s0, 0);
    var s := Setup(s0, 0).0;
    assert VpnOf(0x1_0000) == 16 && VpnOf(0x1_1000) == 17;
    assert PageNumbers([0x1_0000, 0x1_1000]) == {16, 17} by {
      assert 0x1_0000 in [0x1_0000, 0x1_1000] && 0x1_1000 in [0x1_0000, 0x1_1000];
    }
    NothingMapped(16);
    NothingMapped(17);
    PairNeedsFour(s.f, s.spaces[0].root, 16, 17);
  }

  lemma EmptyForestNext()
    ensures EmptyForest(KROOT).next == 0 && EmptyForest(KROOT).kroot == KROOT
  {
  }

  /** An image of one writable segment, loaded where there is room for it. */
  lemma OneSegmentLoads(s: Vm, a: nat, image: seq<byte>, h: Ehdr, p: Segment, k: nat)
    requires TablesInv(s) && MemoryInv(s) && a < |s.spaces| && IsImage(image, h, [p]) && GoodHeader(h)
    requires p.kind == 1 && p.flags == 6 && p.offset + p.filesz <= |image| && Room(s, a, Footprint([p]))
    requires k < p.memsz && p.vaddr + p.memsz + 4095 < TWO_64
    ensures LoadElf(s, a, image).1 == Loaded(h.entry) && ReadsByte(LoadElf(s, a, image).0, a, p.vaddr + k,
              if k < p.filesz then image[p.offset + k] else 0)
  {
    hide MemoryInv, TablesInv, Lookup, LoadElf, IsImage, GoodHeader, Room, Footprint, VpnOf;
    LoadsExactly(s, a, image, h, [p]);
    LoadedByFields(s, a, image, h, [p], 0, k);
  }

  /** The agent reads this byte there, on a page that is readable and writable. */
  ghost predicate ReadsByte(s: Vm, a: nat, va: nat, b: byte)
    requires a < |s.spaces|
  {
    && At(s, a, VpnOf(va)).Some? && At(s, a, VpnOf(va)).value.perm == Perm(true, true, false, true)
    && var page := Frame(s, At(s, a, VpnOf(va)).value.ppn);
    && |page| == PAGE_SIZE && page[va % PAGE_SIZE] == b
  }

  /** The sample is loaded, starts at its entry point, and reads as its four bytes with zeros behind them. */
  lemma SampleLoads(ram: map<nat, seq<byte>>, k: nat)
    requires MemoryInv(Booted(ram)) && k < 0x2000
    ensures var s := Setup(Booted(ram), 0).0;
            && |s.spaces| == 1 && LoadElf(s, 0, SampleImage()).1 == Loaded(0x1_0000)
            && ReadsByte(LoadElf(s, 0, SampleImage()).0, 0, 0x1_0000 + k, if k < 4 then (k + 1) as byte else 0)
  {
    hide MemoryInv, TablesInv, FramesInv, SharingInv, WindowInv, Setup, LoadElf, IsImage, GoodHeader, Room,
         Footprint, ReadsByte, SampleImage;
    RoomForSample(ram);
    SampleIsImage();
    SampleFootprint();
    SampleData(k);
    OneSegmentLoads(Setup(Booted(ram), 0).0, 0, SampleImage(), SampleEhdr, SampleSegment, k);
  }

  lemma SampleData(k: nat)
    ensures |SampleImage()| == 124 && (k < 4 ==> SampleImage()[120 + k] == (k + 1) as byte)
  {
    hide ElfImage.Bytes;
    SampleSizes();
  }
}
