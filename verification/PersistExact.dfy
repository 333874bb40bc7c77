/** Exactly which images `persist_load` takes (kernel/persist.c:126-195, 217-252), and what it refuses. */
module PersistExact {
  import opened Base
  import opened Ramfs
  import opened Persist
  import opened PersistRuns
  import opened CrcProofs

  // ---------------------------------------------------------------- what the disk holds

  /** A file of an image: path and CRC as its metadata sector has them, and the bytes behind it. */
  datatype Entry = Entry(path: string, crc: nat, data: string)

  /** These bytes stand on the disk from this sector on, 512 in each. */
  ghost predicate HoldsData(d: Disk, sector: nat, data: string) {
    forall i: nat | i < |data| ::
      && Usable(d, sector + i / 512) && |d.sectors[sector + i / 512]| == 512
      && d.sectors[sector + i / 512][i % 512] == data[i]
  }

  ghost predicate HoldsEntry(d: Disk, sector: nat, e: Entry) {
    && Usable(d, sector) && |d.sectors[sector]| == 512
    && CStr(d.sectors[sector][..72]) == e.path
    && FromLe(d.sectors[sector][64..68]) == |e.data|
    && FromLe(d.sectors[sector][68..72]) % TWO_32 == e.crc
    && HoldsData(d, sector + 1, e.data)
  }

  /** The metadata sector and the data sectors of an entry. */
  function SectorsOf(e: Entry): nat {
    1 + (|e.data| + 511) / 512
  }

  ghost predicate HoldsAll(d: Disk, sector: nat, es: seq<Entry>)
    decreases |es|
  {
    es == [] || (HoldsEntry(d, sector, es[0]) && HoldsAll(d, sector + SectorsOf(es[0]), es[1..]))
  }

  /** A whole number of bytes up to what a put takes and, where it is checked, with the stored CRC. */
  predicate Acceptable(e: Entry, checked: bool) {
    1 <= |e.data| <= 8191 && (checked ==> Crc32(e.data) == e.crc)
  }

  predicate AllAcceptable(es: seq<Entry>, checked: bool) {
    forall i | 0 <= i < |es| :: Acceptable(es[i], checked)
  }

  // ---------------------------------------------------------------- reading data

  lemma HoldsDataSplit(d: Disk, sector: nat, data: string)
    requires |data| > 512
    ensures HoldsData(d, sector, data) <==> HoldsData(d, sector, data[..512]) && HoldsData(d, sector + 1, data[512..])
  {
    var rest := data[512..];
    if HoldsData(d, sector, data) {
      forall i: nat | i < |rest|
        ensures Usable(d, sector + 1 + i / 512) && |d.sectors[sector + 1 + i / 512]| == 512
        ensures d.sectors[sector + 1 + i / 512][i % 512] == rest[i]
      {
        assert rest[i] == data[i + 512] && (i + 512) / 512 == i / 512 + 1 && (i + 512) % 512 == i % 512;
      }
    }
    if HoldsData(d, sector, data[..512]) && HoldsData(d, sector + 1, rest) {
      forall i: nat | i < |data|
        ensures Usable(d, sector + i / 512) && |d.sectors[sector + i / 512]| == 512
        ensures d.sectors[sector + i / 512][i % 512] == data[i]
      {
        if i < 512 {
          assert data[..512][i] == data[i];
        } else {
          assert rest[i - 512] == data[i] && i / 512 == (i - 512) / 512 + 1 && i % 512 == (i - 512) % 512;
        }
      }
    }
  }

  lemma HoldsChunk(d: Disk, sector: nat, data: string)
    requires 0 < |data| <= 512
    ensures HoldsData(d, sector, data) <==>
            Usable(d, sector) && |d.sectors[sector]| == 512 && d.sectors[sector][..|data|] == data
  {
    if HoldsData(d, sector, data) {
      assert 0 / 512 == 0;
      forall i: nat | i < |data| ensures d.sectors[sector][..|data|][i] == data[i] {
        assert i / 512 == 0 && i % 512 == i;
      }
    }
  }

  /** Reading gives exactly the bytes that stand there. */
  lemma {:induction false} ReadDataExactly(d: Disk, sector: nat, data: string)
    ensures ReadData(d, sector, |data|) == Some(data) <==> HoldsData(d, sector, data)
    decreases |data|
  {
    if 0 < |data| <= 512 {
      HoldsChunk(d, sector, data);
      if Usable(d, sector) && |d.sectors[sector]| == 512 {
        assert d.sectors[sector][..|data|] + "" == d.sectors[sector][..|data|];
      }
    } else if |data| > 512 {
      HoldsDataSplit(d, sector, data);
      HoldsChunk(d, sector, data[..512]);
      ReadDataExactly(d, sector + 1, data[512..]);
      assert data == data[..512] + data[512..];
    }
  }

  lemma {:induction false} ReadDataSize(d: Disk, sector: nat, size: nat)
    ensures ReadData(d, sector, size).Some? ==> |ReadData(d, sector, size).value| == size
    decreases size
  {
    if size > 0 {
      ReadDataSize(d, sector + 1, size - Min(size, SECTOR));
    }
  }

  // ---------------------------------------------------------------- room in the table

  /** A path as a slot keeps it. */
  function Cut(path: string): string {
    if |path| < 64 then path else path[..63]
  }

  /** Files with these paths find a slot each, in this order, in a table with these paths and this many used slots. */
  ghost predicate HasRoom(known: set<string>, used: nat, paths: seq<string>)
    decreases |paths|
  {
    paths == [] ||
    if paths[0] in known then HasRoom(known, used, paths[1..])
    else used < 64 && HasRoom(known + {Cut(paths[0])}, used + 1, paths[1..])
  }

  function PathsOf(es: seq<Entry>): (ps: seq<string>)
    ensures |ps| == |es|
  {
    if es == [] then [] else [es[0].path] + PathsOf(es[1..])
  }

  /** Paths that end inside their 64 bytes have room exactly when the table then holds at most 64 paths. */
  lemma {:induction false} HasRoomExactly(known: set<string>, paths: seq<string>)
    requires |known| <= 64 && forall p | p in paths :: |p| < 64
    ensures HasRoom(known, |known|, paths) <==> |known + set p | p in paths| <= 64
    decreases |paths|
  {
    if paths == [] {
      assert known + (set p | p in paths) == known;
    } else {
      var rest := paths[1..];
      assert forall p :: p in paths <==> p == paths[0] || p in rest;
      var all := known + set p | p in paths;
      if paths[0] in known {
        HasRoomExactly(known, rest);
        assert all == known + set p | p in rest;
      } else {
        var more := known + {paths[0]};
        assert all == more + set p | p in rest;
        SubsetSize(more, all);
        if |known| < 64 {
          HasRoomExactly(more, rest);
        }
      }
    }
  }

  lemma {:induction false} UsedBelow(t: seq<File>)
    ensures UsedCount(t) <= |t| && (UsedCount(t) == |t| <==> forall i | 0 <= i < |t| :: t[i].used)
  {
    if t != [] {
      UsedBelow(t[1..]);
      assert forall i | 0 <= i < |t[1..]| :: t[1..][i] == t[i + 1];
    }
  }

  lemma {:induction false} UsedOneMore(t: seq<File>, i: nat, f: File)
    requires i < |t| && f.used
    ensures UsedCount(t[i := f]) == UsedCount(t) + if t[i].used then 0 else 1
  {
    if i == 0 {
      assert t[i := f][1..] == t[1..];
    } else {
      UsedOneMore(t[1..], i - 1, f);
      assert t[i := f][1..] == t[1..][i - 1 := f];
    }
  }

  lemma CutCopied(dst: string, path: string)
    requires |dst| == 64 && NoNul(path)
    ensures CStr(StrCopy(dst, path)) == Cut(path)
  {
    var s := Cut(path);
    assert NoNul(s) by { assert forall c | c in s :: c in path; }
    assert StrCopy(dst, path) == s + (['\0'] + dst[|s| + 1..]);
    CStrOf(s, ['\0'] + dst[|s| + 1..]);
  }

  lemma PathsAfter(t: seq<File>, i: nat, f: File)
    requires i < |t| && f.used && (t[i].used ==> Name(f) == Name(t[i]))
    ensures Paths(t[i := f]) == Paths(t) + {Name(f)}
  {
    hide CStr;
    var t' := t[i := f];
    forall p | p in Paths(t') ensures p in Paths(t) + {Name(f)} {
      var j :| 0 <= j < |t'| && t'[j].used && Name(t'[j]) == p;
      assert j == i || t'[j] == t[j];
    }
    forall p | p in Paths(t) + {Name(f)} ensures p in Paths(t') {
      if p == Name(f) {
        assert t'[i] == f;
      } else {
        var j :| 0 <= j < |t| && t[j].used && Name(t[j]) == p;
        assert t'[j] == t[j];
      }
    }
  }

  /** A put takes a content of 1 to 8191 bytes exactly when the path is known or a slot is free. */
  lemma PutExactly(t: seq<File>, path: string, data: string)
    requires Sized(t) && NoNul(path)
    ensures var (t', rc) := Put(t, path, data);
            && (rc == 0 <==> 1 <= |data| <= 8191 && (path in Paths(t) || UsedCount(t) < 64))
            && (rc == 0 ==> Sized(t'))
            && (rc == 0 && path in Paths(t) ==> Paths(t') == Paths(t) && UsedCount(t') == UsedCount(t))
            && (rc == 0 && path !in Paths(t) ==>
                  Paths(t') == Paths(t) + {Cut(path)} && UsedCount(t') == UsedCount(t) + 1)
  {
    FindFinds(t, path, 0);
    FindFreeFinds(t, 0);
    UsedBelow(t);
    PutSized(t, path, data);
    hide Find, FindFree, UsedCount, CStr, Sized;
    var (t', rc) := Put(t, path, data);
    if rc == 0 {
      PutSlot(t, path, data);
    }
  }

  /** The slot a put ends in. */
  lemma PutSlot(t: seq<File>, path: string, data: string)
    requires Sized(t) && NoNul(path) && Put(t, path, data).1 == 0
    ensures var t' := Put(t, path, data).0;
            && (path in Paths(t) ==> Paths(t') == Paths(t) && UsedCount(t') == UsedCount(t))
            && (path !in Paths(t) ==> Paths(t') == Paths(t) + {Cut(path)} && UsedCount(t') == UsedCount(t) + 1)
  {
    FindFinds(t, path, 0);
    FindFreeFinds(t, 0);
    LookupGood(t, path);
    hide Find, FindFree, UsedCount, CStr;
    var i := Lookup(t, path).1.value;
    var t' := Put(t, path, data).0;
    var f := t'[i];
    assert t' == t[i := f];
    if Find(t, path, 0).None? {
      CutCopied(t[i].path, path);
    }
    UsedOneMore(t, i, f);
    PathsAfter(t, i, f);
  }

  // ---------------------------------------------------------------- the loading loops

  function Word(n: nat): bv32
    requires n < TWO_32
  {
    n as bv32
  }

  /** The exclusive or of all stored CRCs and sizes. */
  function XorOf(es: seq<Entry>): bv32
    requires forall i | 0 <= i < |es| :: es[i].crc < TWO_32 && |es[i].data| < TWO_32
  {
    if es == [] then 0 else Word(es[0].crc) ^ Word(|es[0].data|) ^ XorOf(es[1..])
  }

  function MixAll(es: seq<Entry>, rolling: nat): (r: nat)
    requires rolling < TWO_32 && forall i | 0 <= i < |es| :: es[i].crc < TWO_32 && |es[i].data| < TWO_32
    ensures r < TWO_32
    decreases |es|
  {
    if es == [] then rolling else MixAll(es[1..], Mix(rolling, es[0].crc, |es[0].data|))
  }

  lemma MixIs(x: bv32, crc: nat, size: nat)
    requires crc < TWO_32 && size < TWO_32
    ensures x as nat < TWO_32 && Mix(x as nat, crc, size) == (x ^ Word(crc) ^ Word(size)) as nat
  {
    WordBack(x);
  }

  lemma XorRegroup(a: bv32, b: bv32, c: bv32, rest: bv32)
    ensures (a ^ b ^ c) ^ rest == a ^ (b ^ c ^ rest)
  {
  }

  /** The rolling checksum is that exclusive or. */
  lemma {:induction false} MixAllIsXor(es: seq<Entry>, x: bv32)
    requires forall i | 0 <= i < |es| :: es[i].crc < TWO_32 && |es[i].data| < TWO_32
    ensures x as nat < TWO_32 && MixAll(es, x as nat) == (x ^ XorOf(es)) as nat
    decreases |es|
  {
    hide Mix, Word;
    if es == [] {
      XorZero(x);
    } else {
      var crc, size := es[0].crc, |es[0].data|;
      MixIs(x, crc, size);
      MixAllIsXor(es[1..], x ^ Word(crc) ^ Word(size));
      XorRegroup(x, Word(crc), Word(size), XorOf(es[1..]));
    }
  }

  lemma XorZero(x: bv32)
    ensures x ^ 0 == x && 0 ^ x == x
  {
  }

  function PutEntries(t: seq<File>, es: seq<Entry>): seq<File>
    requires Sized(t) && EntryPaths(es)
    decreases |es|
  {
    if es == [] then t
    else
      PutSized(t, es[0].path, es[0].data);
      PutEntries(Put(t, es[0].path, es[0].data).0, es[1..])
  }

  lemma {:induction false} EntriesGood(d: Disk, sector: nat, es: seq<Entry>)
    requires HoldsAll(d, sector, es)
    ensures forall i | 0 <= i < |es| :: NoNul(es[i].path) && es[i].crc < TWO_32
    decreases |es|
  {
    hide HoldsData, FromLe;
    if es != [] {
      EntriesGood(d, sector + SectorsOf(es[0]), es[1..]);
    }
  }

  /** One file of the loop, as the disk holds it. */
  lemma LoadEntry(d: Disk, t: seq<File>, n: nat, sector: nat, rolling: nat, checked: bool, e: Entry)
    requires Sized(t) && rolling < TWO_32 && HoldsEntry(d, sector, e) && n > 0
    ensures e.crc < TWO_32 && NoNul(e.path)
    ensures var r := LoadFiles(d, t, n, sector, rolling, checked);
            var (t1, rc) := Put(t, e.path, e.data);
            if Acceptable(e, checked) && rc == 0
            then Sized(t1) &&
                 r == LoadFiles(d, t1, n - 1, sector + SectorsOf(e), Mix(rolling, e.crc, |e.data|), checked)
            else r.1 == EIO
  {
    hide HoldsData, FromLe, Crc32, Mix, Put, CStr, Sized, ReadData;
    ReadDataExactly(d, sector + 1, e.data);
    PutSized(t, e.path, e.data);
    PutExactly(t, e.path, e.data);
  }

  /**
   Loading the files that the disk holds succeeds exactly when each has an acceptable size and, where it is
   checked, the stored CRC, and the table has room; the only error is EIO.
   */
  lemma {:induction false} LoadFilesExactly(d: Disk, t: seq<File>, sector: nat, rolling: nat, checked: bool,
                                            es: seq<Entry>)
    requires Sized(t) && rolling < TWO_32 && HoldsAll(d, sector, es)
    ensures forall i | 0 <= i < |es| :: NoNul(es[i].path) && es[i].crc < TWO_32
    ensures var r := LoadFiles(d, t, |es|, sector, rolling, checked);
            && (r.1 == 0 <==> AllAcceptable(es, checked) && HasRoom(Paths(t), UsedCount(t), PathsOf(es)))
            && (r.1 != 0 ==> r.1 == EIO)
            && (r.1 == 0 ==> r.0 == PutEntries(t, es) && r.2 == MixAll(es, rolling))
    decreases |es|
  {
    hide HoldsEntry, LoadFiles, Crc32, Mix, Put, Paths, UsedCount, Sized, Acceptable;
    EntriesGood(d, sector, es);
    if es == [] {
      LoadNone(d, t, sector, rolling, checked);
    } else {
      var e, rest := es[0], es[1..];
      LoadEntry(d, t, |es|, sector, rolling, checked, e);
      PutExactly(t, e.path, e.data);
      AcceptableSize(e, checked);
      assert forall i | 0 <= i < |rest| :: rest[i] == es[i + 1];
      if Acceptable(e, checked) && Put(t, e.path, e.data).1 == 0 {
        var t1, mixed := Put(t, e.path, e.data).0, Mix(rolling, e.crc, |e.data|);
        LoadFilesExactly(d, t1, sector + SectorsOf(e), mixed, checked, rest);
        assert AllAcceptable(es, checked) <==> AllAcceptable(rest, checked);
      }
    }
  }

  lemma AcceptableSize(e: Entry, checked: bool)
    ensures Acceptable(e, checked) ==> 1 <= |e.data| <= 8191
  {
  }

  /** What was loaded without error stands on the disk. */
  lemma {:induction false} LoadedStands(d: Disk, t: seq<File>, n: nat, sector: nat, rolling: nat, checked: bool)
    returns (es: seq<Entry>)
    requires Sized(t) && rolling < TWO_32 && LoadFiles(d, t, n, sector, rolling, checked).1 == 0
    ensures |es| == n && HoldsAll(d, sector, es)
    decreases n
  {
    hide LoadFiles, HoldsEntry, Sized, Put, Mix, Acceptable, SectorsOf;
    if n == 0 {
      es := [];
    } else {
      var e := FirstStands(d, t, n, sector, rolling, checked);
      LoadEntry(d, t, n, sector, rolling, checked, e);
      var t1 := Put(t, e.path, e.data).0;
      AcceptableSize(e, checked);
      var rest := LoadedStands(d, t1, n - 1, sector + SectorsOf(e), Mix(rolling, e.crc, |e.data|), checked);
      es := [e] + rest;
      assert es[1..] == rest;
    }
  }

  lemma FirstStands(d: Disk, t: seq<File>, n: nat, sector: nat, rolling: nat, checked: bool) returns (e: Entry)
    requires Sized(t) && rolling < TWO_32 && n > 0 && LoadFiles(d, t, n, sector, rolling, checked).1 == 0
    ensures HoldsEntry(d, sector, e)
  {
    hide FromLe, Crc32, Mix, Put, CStr, Sized, ReadData, HoldsData;
    var meta := d.sectors[sector];
    var size := FromLe(meta[64..68]);
    var data := ReadData(d, sector + 1, size).value;
    ReadDataSize(d, sector + 1, size);
    ReadDataExactly(d, sector + 1, data);
    e := Entry(CStr(meta[..72]), FromLe(meta[68..72]) % TWO_32, data);
  }

  // ---------------------------------------------------------------- main results

  /** The superblock on this disk. */
  ghost predicate HasSuper(d: Disk, magic: nat, version: nat, count: nat, checksum: nat) {
    && Usable(d, 0) && |d.sectors[0]| == 512
    && FromLe(d.sectors[0][0..4]) == magic && FromLe(d.sectors[0][4..8]) == version
    && FromLe(d.sectors[0][8..12]) == count && FromLe(d.sectors[0][12..16]) == checksum
  }

  /** The files behind the superblock pass every check of an AOS2 image. */
  ghost predicate GoodImage(d: Disk, t: seq<File>, count: nat, checksum: nat, es: seq<Entry>) {
    && |es| == LoopCount(count) && HoldsAll(d, 1, es) && AllAcceptable(es, true)
    && (forall i | 0 <= i < |es| :: es[i].crc < TWO_32 && |es[i].data| < TWO_32)
    && HasRoom(Paths(t), UsedCount(t), PathsOf(es))
    && XorOf(es) as nat == checksum
  }

  lemma XorIsChecksum(es: seq<Entry>)
    requires forall i | 0 <= i < |es| :: es[i].crc < TWO_32 && |es[i].data| < TWO_32
    ensures MixAll(es, 0) == XorOf(es) as nat
  {
    hide MixAll, XorOf;
    MixAllIsXor(es, 0);
    XorZero(XorOf(es));
  }

  lemma SmallEntries(es: seq<Entry>, checked: bool)
    requires AllAcceptable(es, checked)
    ensures forall i | 0 <= i < |es| :: |es[i].data| < TWO_32
  {
  }

  /**
   An AOS2 image is loaded exactly when the files its superblock counts stand behind it, each of 1 to 8191 bytes
   with the stored CRC, the table has room for them besides the system files, and the exclusive or of the stored
   CRCs and sizes is the superblock's checksum.  Everything else is EIO; the disk stays as it is.
   */
  lemma LoadExactly(t: seq<File>, d: Disk, junk: seq<string>, count: nat, checksum: nat)
    requires Sized(t) && GoodJunk(junk, RAMFS_MAX_FILES) && HasSuper(d, MAGIC, AOS2, count, checksum)
    ensures var (t', d', rc) := Load(t, d, true, junk);
            && d' == d && (rc == 0 || rc == EIO)
            && (rc == 0 <==> exists es :: GoodImage(d, ClearUser(t), count, checksum, es))
            && (forall es | rc == 0 && GoodImage(d, ClearUser(t), count, checksum, es) ::
                  Sized(ClearUser(t)) && EntryPaths(es) && t' == PutEntries(ClearUser(t), es))
  {
    hide Sized, LoadFiles, Load, LoopCount, ClearUser, HasSuper, GoodImage, EntryPaths, PutEntries;
    ClearedSized(t);
    LoadIs(t, d, junk, count, checksum);
    FilesExactly(d, ClearUser(t), count, checksum);
  }

  /** `persist_load` on an AOS2 image is its loop and the comparison of the checksum. */
  lemma LoadIs(t: seq<File>, d: Disk, junk: seq<string>, count: nat, checksum: nat)
    requires Sized(t) && GoodJunk(junk, RAMFS_MAX_FILES) && HasSuper(d, MAGIC, AOS2, count, checksum)
    ensures Sized(ClearUser(t))
    ensures var (files, rc, rolling) := LoadFiles(d, ClearUser(t), LoopCount(count), 1, 0, true);
            Load(t, d, true, junk) == (files, d, if rc != 0 then rc else if rolling != checksum then EIO else 0)
  {
    ClearedSized(t);
    hide Sized, LoadFiles, LoopCount, ClearUser, FromLe;
  }

  lemma FilesExactly(d: Disk, t: seq<File>, count: nat, checksum: nat)
    requires Sized(t)
    ensures var (files, rc, rolling) := LoadFiles(d, t, LoopCount(count), 1, 0, true);
            && (rc != 0 ==> rc == EIO)
            && (rc == 0 && rolling == checksum <==> exists es :: GoodImage(d, t, count, checksum, es))
            && (forall es | rc == 0 && GoodImage(d, t, count, checksum, es) ::
                  EntryPaths(es) && files == PutEntries(t, es))
  {
    hide Sized, LoadFiles, LoopCount, GoodImage, EntryPaths, PutEntries;
    forall es | GoodImage(d, t, count, checksum, es) ensures LoadedAs(d, t, count, checksum, es) {
      GoodStands(d, t, count, checksum, es);
      LoadOf(d, t, count, checksum, es);
    }
    FilesError(d, t, LoopCount(count), 1, 0, true);
    if LoadFiles(d, t, LoopCount(count), 1, 0, true).1 == 0 {
      var es := LoadedStands(d, t, LoopCount(count), 1, 0, true);
      LoadOf(d, t, count, checksum, es);
    }
  }

  lemma GoodStands(d: Disk, t: seq<File>, count: nat, checksum: nat, es: seq<Entry>)
    requires GoodImage(d, t, count, checksum, es)
    ensures |es| == LoopCount(count) && HoldsAll(d, 1, es)
  {
  }

  lemma {:induction false} FilesError(d: Disk, t: seq<File>, n: nat, sector: nat, rolling: nat, checked: bool)
    requires Sized(t) && rolling < TWO_32
    ensures LoadFiles(d, t, n, sector, rolling, checked).1 in {0, EIO}
    decreases n
  {
    hide Sized, ReadData, FromLe, Crc32, Put, Mix, FileSectors, CStr;
    if n > 0 && ReadSector(d, sector).Some? && |ReadSector(d, sector).value| == SECTOR {
      var meta := ReadSector(d, sector).value;
      var size, crc := FromLe(meta[64..68]), FromLe(meta[68..72]) % TWO_32;
      if 0 < size <= RAMFS_FILE_SIZE && ReadData(d, sector + 1, size).Some? {
        var t1 := Put(t, CStr(meta[..META_SIZE]), ReadData(d, sector + 1, size).value).0;
        PutSized(t, CStr(meta[..META_SIZE]), ReadData(d, sector + 1, size).value);
        FilesError(d, t1, n - 1, sector + 1 + FileSectors(size), Mix(rolling, crc, size), checked);
      }
    }
  }

  predicate EntryPaths(es: seq<Entry>) {
    forall i | 0 <= i < |es| :: NoNul(es[i].path)
  }

  lemma ClearedSized(t: seq<File>)
    requires Sized(t)
    ensures Sized(ClearUser(t))
  {
    ClearSized(t);
  }

  /** The verdict on files that stand on the disk. */
  ghost predicate LoadedAs(d: Disk, t: seq<File>, count: nat, checksum: nat, es: seq<Entry>)
    requires Sized(t)
  {
    var r := LoadFiles(d, t, LoopCount(count), 1, 0, true);
    && (r.1 != 0 ==> r.1 == EIO)
    && (r.1 == 0 && r.2 == checksum <==> GoodImage(d, t, count, checksum, es))
    && (r.1 == 0 ==> EntryPaths(es) && r.0 == PutEntries(t, es))
  }

  lemma LoadOf(d: Disk, t: seq<File>, count: nat, checksum: nat, es: seq<Entry>)
    requires Sized(t) && |es| == LoopCount(count) && HoldsAll(d, 1, es)
    ensures LoadedAs(d, t, count, checksum, es)
  {
    hide Sized, HoldsAll, LoadFiles, AllAcceptable, HasRoom, Paths, UsedCount, XorOf, PutEntries, MixAll, LoopCount;
    LoadFilesExactly(d, t, 1, 0, true, es);
    if AllAcceptable(es, true) {
      SmallEntries(es, true);
      XorIsChecksum(es);
    }
  }
}
