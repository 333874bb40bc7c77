/** Damaged images are refused, and what a load leaves in the table (kernel/persist.c:153-252). */
module PersistDamage {
  import opened Base
  import opened Ramfs
  import opened Persist
  import opened PersistProofs
  import opened CrcProofs
  import opened PersistExact

  // ---------------------------------------------------------------- no AOS2 image

  /** Without a device or a magic number there is nothing to load; an unreadable or unknown superblock is an error. */
  lemma NoImage(t: seq<File>, d: Disk, ready: bool, junk: seq<string>, magic: nat, version: nat, n: nat, sum: nat)
    requires Sized(t) && GoodJunk(junk, RAMFS_MAX_FILES)
    ensures !ready ==> Load(t, d, ready, junk) == (t, d, 0)
    ensures ready && !(Usable(d, 0) && |d.sectors[0]| == 512) ==> Load(t, d, ready, junk) == (t, d, EIO)
    ensures ready && HasSuper(d, magic, version, n, sum) && magic != 0x3149_5641 ==>
              Load(t, d, ready, junk) == (t, d, 0)
    ensures ready && HasSuper(d, 0x3149_5641, version, n, sum) && version != 1 && version != 2 ==>
              Load(t, d, ready, junk) == (t, d, EIO)
  {
    hide Sized, LoadFiles, Sync, ClearUser, FromLe, LoopCount;
  }

  /** The superblock begins with the letters AVI1, the version and the number of files, low bytes first. */
  lemma SuperBytes(count: nat, checksum: nat)
    requires count < 256
    ensures SuperSector(AOS2, count, checksum)[..12] ==
            "AVI1" + [2 as char, '\0', '\0', '\0'] + [count as char, '\0', '\0', '\0']
  {
    var s := SuperSector(AOS2, count, checksum);
    assert ToLe(MAGIC) == "AVI1";
    assert s[..12] == ToLe(MAGIC) + ToLe(AOS2) + ToLe(count);
  }

  // ---------------------------------------------------------------- the loaded table

  /** The map with these files put into it, one after the other. */
  function Overlay(m: map<string, string>, es: seq<Entry>): map<string, string>
    decreases |es|
  {
    if es == [] then m else Overlay(m[es[0].path := es[0].data], es[1..])
  }

  predicate Terminated(es: seq<Entry>) {
    forall i | 0 <= i < |es| :: |es[i].path| < 64
  }

  /** Files whose paths end inside their 64 bytes are in the table with their bytes, the later one of two winning. */
  lemma {:induction false} LoadedView(t: seq<File>, es: seq<Entry>)
    requires Ramfs.Valid(t) && EntryPaths(es) && Terminated(es) && AllAcceptable(es, true)
    requires HasRoom(Paths(t), UsedCount(t), PathsOf(es))
    ensures Ramfs.Valid(PutEntries(t, es)) && View(PutEntries(t, es)) == Overlay(View(t), es)
    decreases |es|
  {
    hide View, Put, Paths, UsedCount, Acceptable;
    if es != [] {
      var e, rest := es[0], es[1..];
      AcceptableSize(e, true);
      PutExactly(t, e.path, e.data);
      PutRefines(t, e.path, e.data);
      assert forall i | 0 <= i < |rest| :: rest[i] == es[i + 1];
      LoadedView(Put(t, e.path, e.data).0, rest);
    }
  }

  // ---------------------------------------------------------------- damage

  function EntryOf(f: File): Entry {
    Entry(Name(f), Crc32(Content(f)), Content(f))
  }

  function EntriesOf(fs: seq<File>): (es: seq<Entry>)
    ensures |es| == |fs| && forall i | 0 <= i < |fs| :: es[i] == EntryOf(fs[i])
  {
    seq(|fs|, i requires 0 <= i < |fs| => EntryOf(fs[i]))
  }

  /** A stored image holds its files. */
  lemma {:induction false} StoredStands(d: Disk, fs: seq<File>, sector: nat)
    requires Stored(d, fs, sector)
    ensures HoldsAll(d, sector, EntriesOf(fs))
    decreases |fs|
  {
    hide StoredFile, HoldsEntry, Crc32, Content, CStr;
    if fs != [] {
      StoredEntry(d, fs[0], sector);
      StoredStands(d, fs[1..], sector + Span(fs[0]));
      assert EntriesOf(fs)[1..] == EntriesOf(fs[1..]);
    }
  }

  lemma StoredEntry(d: Disk, f: File, sector: nat)
    requires StoredFile(d, f, sector)
    ensures HoldsEntry(d, sector, EntryOf(f)) && SectorsOf(EntryOf(f)) == Span(f)
  {
    hide Crc32, Content, CStr, FromLe, ReadData, HoldsData;
    ReadDataExactly(d, sector + 1, Content(f));
  }

  /** Sectors of the first k entries. */
  function SectorsBefore(es: seq<Entry>, k: nat): nat
    requires k <= |es|
  {
    if k == 0 then 0 else SectorsOf(es[0]) + SectorsBefore(es[1..], k - 1)
  }

  lemma EntrySame(d: Disk, d': Disk, sector: nat, e: Entry)
    requires HoldsEntry(d, sector, e) && SameInside(d, d', sector, sector + SectorsOf(e))
    ensures HoldsEntry(d', sector, e)
  {
    hide CStr, FromLe;
    forall i: nat | i < |e.data|
      ensures Usable(d', sector + 1 + i / 512) && d'.sectors[sector + 1 + i / 512] == d.sectors[sector + 1 + i / 512]
    {
      assert Usable(d, sector + 1 + i / 512);
      assert i / 512 < (|e.data| + 511) / 512;
    }
  }

  lemma {:induction false} AllSame(d: Disk, d': Disk, sector: nat, es: seq<Entry>, lo: nat, hi: nat)
    requires HoldsAll(d, sector, es) && SameOutside(d, d', lo, hi) && hi <= sector
    ensures HoldsAll(d', sector, es)
    decreases |es|
  {
    hide HoldsEntry;
    if es != [] {
      EntrySame(d, d', sector, es[0]);
      AllSame(d, d', sector + SectorsOf(es[0]), es[1..], lo, hi);
    }
  }

  lemma EntryChanged(d: Disk, d': Disk, sector: nat, e: Entry, data: string)
    requires HoldsEntry(d, sector, e) && SameOutside(d, d', sector + 1, sector + SectorsOf(e))
    requires |data| == |e.data| && HoldsData(d', sector + 1, data)
    ensures HoldsEntry(d', sector, e.(data := data))
  {
    hide CStr, FromLe, HoldsData;
  }

  /** With other bytes in the data sectors of file k, the disk holds the same files but for those bytes. */
  lemma {:induction false} ChangedStands(d: Disk, d': Disk, sector: nat, es: seq<Entry>, k: nat, data: string)
    requires HoldsAll(d, sector, es) && k < |es| && |data| == |es[k].data|
    requires var at := sector + SectorsBefore(es, k);
             SameOutside(d, d', at + 1, at + SectorsOf(es[k])) && HoldsData(d', at + 1, data)
    ensures HoldsAll(d', sector, es[k := es[k].(data := data)])
    decreases |es|
  {
    hide HoldsEntry, HoldsData, SectorsOf;
    var es' := es[k := es[k].(data := data)];
    SameSectors(es[k], data);
    if k == 0 {
      EntryChanged(d, d', sector, es[0], data);
      assert es'[1..] == es[1..];
      AllSame(d, d', sector + SectorsOf(es[0]), es[1..], sector + 1, sector + SectorsOf(es[0]));
    } else {
      assert es'[1..] == es[1..][k - 1 := es[k].(data := data)];
      EntrySame(d, d', sector, es[0]);
      ChangedStands(d, d', sector + SectorsOf(es[0]), es[1..], k - 1, data);
    }
  }

  lemma SameSectors(e: Entry, data: string)
    requires |data| == |e.data|
    ensures SectorsOf(e.(data := data)) == SectorsOf(e)
  {
  }

  /** Files that stand on the disk with a CRC that is not that of their bytes are refused. */
  lemma BadCrcRefused(t: seq<File>, d: Disk, junk: seq<string>, checksum: nat, es: seq<Entry>, k: nat)
    requires Sized(t) && GoodJunk(junk, RAMFS_MAX_FILES) && |es| < 0x8000_0000
    requires HasSuper(d, MAGIC, AOS2, |es|, checksum) && HoldsAll(d, 1, es) && k < |es|
    requires Crc32(es[k].data) != es[k].crc
    ensures Load(t, d, true, junk).2 == EIO
  {
    hide Sized, Load, LoadFiles, HoldsAll, HasSuper, Crc32, HasRoom, MixAll, PutEntries, ClearUser;
    LoadIs(t, d, junk, |es|, checksum);
    LoadFilesExactly(d, ClearUser(t), 1, 0, true, es);
    assert !Acceptable(es[k], true);
  }

  /**
   A stored image whose file k has other bytes in its data sectors, with another CRC, is refused, whatever the
   table and whatever the superblock's checksum.
   */
  lemma DamagedDataRefused(t: seq<File>, d: Disk, d': Disk, junk: seq<string>, checksum: nat, fs: seq<File>, k: nat,
                           data: string)
    requires Sized(t) && GoodJunk(junk, RAMFS_MAX_FILES) && |fs| < 0x8000_0000 && k < |fs| && Stored(d, fs, 1)
    requires HasSuper(d', MAGIC, AOS2, |fs|, checksum)
    requires var at := 1 + SectorsBefore(EntriesOf(fs), k);
             SameOutside(d, d', at + 1, at + Span(fs[k])) && HoldsData(d', at + 1, data)
    requires |data| == |Content(fs[k])| && Crc32(data) != Crc32(Content(fs[k]))
    ensures Load(t, d', true, junk).2 == EIO
  {
    hide Sized, Load, Stored, HoldsAll, HasSuper, Crc32, Content, Name, HoldsData;
    var es := EntriesOf(fs);
    StoredStands(d, fs, 1);
    ChangedStands(d, d', 1, es, k, data);
    BadCrcRefused(t, d', junk, checksum, es[k := es[k].(data := data)], k);
  }

  /** One byte of one sector changed. */
  function PokeSector(d: Disk, sector: nat, off: nat, c: char): Disk
    requires sector < |d.sectors| && off < |d.sectors[sector]|
  {
    d.(sectors := d.sectors[sector := d.sectors[sector][off := c]])
  }

  lemma PokedHolds(d: Disk, sector: nat, data: string, j: nat, c: char)
    requires HoldsData(d, sector, data) && j < |data|
    ensures var at := sector + j / 512;
            && at < |d.sectors| && j % 512 < |d.sectors[at]|
            && HoldsData(PokeSector(d, at, j % 512, c), sector, data[j := c])
  {
    var at := sector + j / 512;
    var d' := PokeSector(d, at, j % 512, c);
    forall i: nat | i < |data|
      ensures Usable(d', sector + i / 512) && |d'.sectors[sector + i / 512]| == 512
      ensures d'.sectors[sector + i / 512][i % 512] == data[j := c][i]
    {
      assert Usable(d, sector + i / 512);
      assert i / 512 == j / 512 && i % 512 == j % 512 ==> i == j;
    }
  }

  lemma {:induction false} EntryStands(d: Disk, sector: nat, es: seq<Entry>, k: nat)
    requires HoldsAll(d, sector, es) && k < |es|
    ensures HoldsEntry(d, sector + SectorsBefore(es, k), es[k])
    decreases |es|
  {
    hide HoldsEntry, SectorsOf;
    if k > 0 {
      EntryStands(d, sector + SectorsOf(es[0]), es[1..], k - 1);
    }
  }

  /** Where byte j of file k stands in an image. */
  function ByteSector(fs: seq<File>, k: nat, j: nat): nat
    requires k < |fs|
  {
    2 + SectorsBefore(EntriesOf(fs), k) + j / 512
  }

  /** Any one byte of any file changed on the disk is noticed: the load fails with EIO. */
  lemma OneByteRefused(t: seq<File>, d: Disk, junk: seq<string>, checksum: nat, fs: seq<File>, k: nat, j: nat, c: char)
    requires Sized(t) && GoodJunk(junk, RAMFS_MAX_FILES) && |fs| < 0x8000_0000 && k < |fs| && Stored(d, fs, 1)
    requires HasSuper(d, MAGIC, AOS2, |fs|, checksum)
    requires j < |Content(fs[k])| && Content(fs[k])[j] != c && Content(fs[k])[j] as nat < 256 && c as nat < 256
    ensures var at := ByteSector(fs, k, j);
            && at < |d.sectors| && j % 512 < |d.sectors[at]|
            && Load(t, PokeSector(d, at, j % 512, c), true, junk).2 == EIO
  {
    hide Sized, Load, Stored, HoldsAll, Crc32, Content, Name, HoldsData, FromLe, SectorsBefore;
    var es, data := EntriesOf(fs), Content(fs[k]);
    StoredStands(d, fs, 1);
    EntryStands(d, 1, es, k);
    var start := 2 + SectorsBefore(es, k);
    PokedHolds(d, start, data, j, c);
    var d' := PokeSector(d, start + j / 512, j % 512, c);
    OneByteDetected(data, j, c);
    assert j / 512 < (|data| + 511) / 512;
    assert HasSuper(d', MAGIC, AOS2, |fs|, checksum);
    DamagedDataRefused(t, d, d', junk, checksum, fs, k, data[j := c]);
  }

  /** A stored image whose superblock has another checksum than its files is refused. */
  lemma WrongChecksumRefused(t: seq<File>, d: Disk, junk: seq<string>, checksum: nat, fs: seq<File>)
    requires Sized(t) && GoodJunk(junk, RAMFS_MAX_FILES) && |fs| < 0x8000_0000 && GoodFiles(fs) && Stored(d, fs, 1)
    requires HasSuper(d, MAGIC, AOS2, |fs|, checksum) && checksum != Rolling(fs, 0)
    ensures Load(t, d, true, junk).2 == EIO
  {
    hide Sized, Load, LoadFiles, Stored, HoldsAll, HasSuper, Crc32, HasRoom, PutEntries, ClearUser, Rolling, MixAll;
    var es := EntriesOf(fs);
    StoredStands(d, fs, 1);
    LoadIs(t, d, junk, |fs|, checksum);
    LoadFilesExactly(d, ClearUser(t), 1, 0, true, es);
    RollingIsMix(fs, 0);
  }

  lemma {:induction false} RollingIsMix(fs: seq<File>, rolling: nat)
    requires GoodFiles(fs) && rolling < TWO_32
    ensures forall i | 0 <= i < |fs| :: |EntriesOf(fs)[i].data| < TWO_32 && EntriesOf(fs)[i].crc < TWO_32
    ensures MixAll(EntriesOf(fs), rolling) == Rolling(fs, rolling)
    decreases |fs|
  {
    hide Crc32, Mix, CStr;
    if fs != [] {
      var f := fs[0];
      RollingIsMix(fs[1..], Mix(rolling, Crc32(Content(f)), |Content(f)|));
      assert EntriesOf(fs)[1..] == EntriesOf(fs[1..]);
    }
  }
}
