/** What `persist_sync` writes, `persist_load` reads back. */
module PersistProofs {
  import opened Base
  import opened Ramfs
  import opened Persist

  // ---------------------------------------------------------------- sectors

  /** The disks agree outside sectors lo to hi - 1. */
  ghost predicate SameOutside(d: Disk, d': Disk, lo: nat, hi: nat) {
    && |d'.sectors| == |d.sectors| && d'.bad == d.bad
    && forall i | 0 <= i < |d.sectors| && !(lo <= i < hi) :: d'.sectors[i] == d.sectors[i]
  }

  /** The disks agree on sectors lo to hi - 1. */
  ghost predicate SameInside(d: Disk, d': Disk, lo: nat, hi: nat) {
    && |d'.sectors| == |d.sectors| && d'.bad == d.bad
    && forall i | lo <= i < hi && i < |d.sectors| :: d'.sectors[i] == d.sectors[i]
  }

  ghost predicate AllUsable(d: Disk, lo: nat, hi: nat) {
    forall i | lo <= i < hi :: Usable(d, i)
  }

  lemma OneMoreSector(size: nat)
    requires size > 0
    ensures FileSectors(size) == 1 + FileSectors(size - Min(size, SECTOR))
  {
  }

  lemma {:induction false} WriteDataReads(d: Disk, sector: nat, data: string)
    ensures var (d', rc) := WriteData(d, sector, data);
            && SameOutside(d, d', sector, sector + FileSectors(|data|))
            && (rc == 0 <==> AllUsable(d, sector, sector + FileSectors(|data|)))
            && (rc == 0 || rc == EIO)
            && (rc == 0 ==> ReadData(d', sector, |data|) == Some(data))
    decreases |data|
  {
    hide FileSectors, Zeros;
    if data == [] {
      NoSectors();
    } else {
      OneMoreSector(|data|);
      var chunk := Min(|data|, SECTOR);
      var buf := Pad(data[..chunk]);
      var (d1, rc) := WriteSector(d, sector, buf);
      if rc == 0 {
        var rest := data[chunk..];
        WriteDataReads(d1, sector + 1, rest);
        var d2 := WriteData(d1, sector + 1, rest).0;
        assert ReadSector(d2, sector) == Some(buf);
        assert buf[..chunk] == data[..chunk];
        assert data == data[..chunk] + rest;
        assert forall i :: Usable(d1, i) == Usable(d, i);
      }
    }
  }

  lemma NoSectors()
    ensures FileSectors(0) == 0
  {
  }

  lemma {:induction false} ReadDataSame(d: Disk, d': Disk, sector: nat, size: nat)
    requires SameInside(d, d', sector, sector + FileSectors(size))
    ensures ReadData(d', sector, size) == ReadData(d, sector, size)
    decreases size
  {
    hide FileSectors;
    if size > 0 {
      OneMoreSector(size);
      ReadDataSame(d, d', sector + 1, size - Min(size, SECTOR));
    }
  }

  // ---------------------------------------------------------------- files

  function Span(f: File): nat {
    1 + FileSectors(|Content(f)|)
  }

  /** The image of a file starts at this sector: its name, size, checksum and bytes. */
  ghost predicate StoredFile(d: Disk, f: File, sector: nat) {
    var meta := ReadSector(d, sector);
    && meta.Some? && |meta.value| == SECTOR
    && CStr(meta.value[..META_SIZE]) == Name(f)
    && FromLe(meta.value[64..68]) == |Content(f)| && FromLe(meta.value[68..72]) == Crc32(Content(f))
    && ReadData(d, sector + 1, |Content(f)|) == Some(Content(f))
  }

  lemma MetaReadsBack(name: string, size: nat, crc: nat, junk: string)
    requires |junk| == RAMFS_PATH_MAX && NoNul(name) && |name| < RAMFS_PATH_MAX && size < TWO_32 && crc < TWO_32
    ensures var s := MetaSector(name, size, crc, junk);
            CStr(s[..META_SIZE]) == name && FromLe(s[64..68]) == size && FromLe(s[68..72]) == crc
  {
    var s := MetaSector(name, size, crc, junk);
    var numbers := ToLe(size) + ToLe(crc);
    LeRoundTrip(size);
    LeRoundTrip(crc);
    hide ToLe, FromLe, Zeros;
    assert s[..META_SIZE] == StrCopy(junk, name) + numbers;
    assert s[64..68] == ToLe(size) && s[68..72] == ToLe(crc);
    assert StrCopy(junk, name) + numbers == name + (['\0'] + junk[|name| + 1..] + numbers);
    CStrOf(name, ['\0'] + junk[|name| + 1..] + numbers);
  }

  lemma SaveFileStores(d: Disk, f: File, junk: string, sector: nat)
    requires GoodFile(f) && |junk| == RAMFS_PATH_MAX
    ensures var (d', rc) := SaveFile(d, f, junk, sector);
            && SameOutside(d, d', sector, sector + Span(f))
            && (rc == 0 <==> AllUsable(d, sector, sector + Span(f)))
            && (rc == 0 ==> StoredFile(d', f, sector))
  {
    var data := Content(f);
    hide FileSectors, MetaSector, Crc32, ReadData, WriteData, FromLe, CStr;
    var meta := MetaSector(Name(f), |data|, Crc32(data), junk);
    MetaReadsBack(Name(f), |data|, Crc32(data), junk);
    var (d1, rc) := WriteSector(d, sector, meta);
    assert forall i :: Usable(d1, i) == Usable(d, i);
    if rc == 0 {
      WriteDataReads(d1, sector + 1, data);
      var d2 := WriteData(d1, sector + 1, data).0;
      assert ReadSector(d2, sector) == Some(meta);
    }
  }

  lemma StoredFileSame(d: Disk, d': Disk, f: File, sector: nat)
    requires StoredFile(d, f, sector) && SameInside(d, d', sector, sector + Span(f))
    ensures StoredFile(d', f, sector)
  {
    hide FileSectors, ReadData, FromLe, CStr;
    ReadDataSame(d, d', sector + 1, |Content(f)|);
  }

  // ---------------------------------------------------------------- the whole image

  ghost predicate Stored(d: Disk, fs: seq<File>, sector: nat)
    decreases |fs|
  {
    fs == [] || (StoredFile(d, fs[0], sector) && Stored(d, fs[1..], sector + Span(fs[0])))
  }

  function TotalSpan(fs: seq<File>): nat {
    if fs == [] then 0 else Span(fs[0]) + TotalSpan(fs[1..])
  }

  lemma {:induction false} StoredSame(d: Disk, d': Disk, fs: seq<File>, sector: nat)
    requires Stored(d, fs, sector) && SameInside(d, d', sector, sector + TotalSpan(fs))
    ensures Stored(d', fs, sector)
    decreases |fs|
  {
    hide Span, StoredFile;
    if fs != [] {
      StoredFileSame(d, d', fs[0], sector);
      StoredSame(d, d', fs[1..], sector + Span(fs[0]));
    }
  }

  /** Saving succeeds exactly when every sector of the image can be written. */
  lemma {:induction false} SaveFilesStores(d: Disk, fs: seq<File>, junk: seq<string>, sector: nat)
    requires GoodFiles(fs) && GoodJunk(junk, |fs|)
    ensures var (d', rc) := SaveFiles(d, fs, junk, sector);
            && SameOutside(d, d', sector, sector + TotalSpan(fs))
            && (rc == 0 <==> AllUsable(d, sector, sector + TotalSpan(fs)))
            && (rc == 0 ==> Stored(d', fs, sector))
    decreases |fs|
  {
    hide StoredFile, FileSectors, SaveFile, Content;
    if fs != [] {
      SaveFileStores(d, fs[0], junk[0], sector);
      var (d1, rc) := SaveFile(d, fs[0], junk[0], sector);
      assert forall i :: Usable(d1, i) == Usable(d, i);
      if rc == 0 {
        var next := sector + Span(fs[0]);
        SaveFilesStores(d1, fs[1..], junk[1..], next);
        var d2 := SaveFiles(d1, fs[1..], junk[1..], next).0;
        StoredFileSame(d1, d2, fs[0], sector);
      }
    }
  }
}
