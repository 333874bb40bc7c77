/** The persistence round trip, when it fails, and the migration of old images. */
module PersistRuns {
  import opened Base
  import opened Ramfs
  import opened Persist
  import opened PersistProofs

  // ---------------------------------------------------------------- putting files back

  function PutAll(t: seq<File>, fs: seq<File>): seq<File>
    requires Sized(t) && GoodFiles(fs)
    decreases |fs|
  {
    if fs == [] then t
    else
      PutSized(t, Name(fs[0]), Content(fs[0]));
      PutAll(Put(t, Name(fs[0]), Content(fs[0])).0, fs[1..])
  }

  /** Files as a map from paths to contents; of two with one path the later counts. */
  function FileMap(fs: seq<File>): map<string, string> {
    if fs == [] then map[] else map[Name(fs[0]) := Content(fs[0])] + FileMap(fs[1..])
  }

  predicate NonEmpty(fs: seq<File>) {
    forall i | 0 <= i < |fs| :: |Content(fs[i])| > 0
  }

  lemma PutOne(t: seq<File>, f: File)
    requires Ramfs.Valid(t) && GoodFile(f) && |Content(f)| > 0 && |View(t)| < RAMFS_MAX_FILES
    ensures var (t', rc) := Put(t, Name(f), Content(f));
            rc == 0 && Ramfs.Valid(t') && View(t') == View(t)[Name(f) := Content(f)] && |View(t')| <= |View(t)| + 1
  {
    hide View, CStr;
    PutRefines(t, Name(f), Content(f));
    var m := View(t);
    assert m[Name(f) := Content(f)].Keys == m.Keys + {Name(f)};
  }

  lemma {:induction false} PutAllView(t: seq<File>, fs: seq<File>)
    requires Ramfs.Valid(t) && GoodFiles(fs) && NonEmpty(fs) && |View(t)| + |fs| <= RAMFS_MAX_FILES
    ensures Ramfs.Valid(PutAll(t, fs)) && View(PutAll(t, fs)) == View(t) + FileMap(fs)
    decreases |fs|
  {
    hide View, Content, Name, Put, Sized;
    if fs != [] {
      var f := fs[0];
      PutOne(t, f);
      PutAllView(Put(t, Name(f), Content(f)).0, fs[1..]);
      UpdateThenAdd(View(t), Name(f), Content(f), FileMap(fs[1..]));
    } else {
      assert View(t) + map[] == View(t);
    }
  }

  lemma UpdateThenAdd<K, V>(m: map<K, V>, k: K, v: V, rest: map<K, V>)
    ensures m[k := v] + rest == m + (map[k := v] + rest)
  {
  }

  /** One stored file passes every check of the loading loop. */
  lemma LoadOne(d: Disk, t: seq<File>, f: File, n: nat, sector: nat, rolling: nat)
    requires Ramfs.Valid(t) && GoodFile(f) && |Content(f)| > 0 && |View(t)| < RAMFS_MAX_FILES
    requires StoredFile(d, f, sector) && rolling < TWO_32 && n > 0
    ensures |Content(f)| < RAMFS_FILE_SIZE && Sized(Put(t, Name(f), Content(f)).0)
    ensures LoadFiles(d, t, n, sector, rolling, true) ==
            LoadFiles(d, Put(t, Name(f), Content(f)).0, n - 1, sector + Span(f),
                      Mix(rolling, Crc32(Content(f)), |Content(f)|), true)
  {
    hide View, Content, CStr, Put, Crc32, Mix, ReadData, FromLe, FileSectors;
    PutOne(t, f);
    ContentSize(f);
    PutSized(t, Name(f), Content(f));
  }

  /** A stored image with room for its files loads back, file by file, with every check passing. */
  lemma {:induction false} LoadStored(d: Disk, t: seq<File>, fs: seq<File>, sector: nat, rolling: nat)
    requires Ramfs.Valid(t) && GoodFiles(fs) && NonEmpty(fs) && Stored(d, fs, sector) && rolling < TWO_32
    requires |View(t)| + |fs| <= RAMFS_MAX_FILES
    ensures LoadFiles(d, t, |fs|, sector, rolling, true) == (PutAll(t, fs), 0, Rolling(fs, rolling))
    decreases |fs|
  {
    hide View, Content, Name, Put, Crc32, Mix, LoadFiles, StoredFile, Span, Sized;
    if fs != [] {
      var f := fs[0];
      PutOne(t, f);
      LoadOne(d, t, f, |fs|, sector, rolling);
      LoadStored(d, Put(t, Name(f), Content(f)).0, fs[1..], sector + Span(f),
                 Mix(rolling, Crc32(Content(f)), |Content(f)|));
    } else {
      LoadNone(d, t, sector, rolling, true);
    }
  }

  lemma LoadNone(d: Disk, t: seq<File>, sector: nat, rolling: nat, checked: bool)
    requires Sized(t) && rolling < TWO_32
    ensures LoadFiles(d, t, 0, sector, rolling, checked) == (t, 0, rolling)
  {
  }

  lemma ContentSize(f: File)
    requires GoodFile(f)
    ensures |Content(f)| < RAMFS_FILE_SIZE
  {
  }

  /** An empty file in the image makes the load fail at that file. */
  lemma {:induction false} LoadStopsAtEmpty(d: Disk, t: seq<File>, fs: seq<File>, sector: nat, rolling: nat)
    requires Ramfs.Valid(t) && GoodFiles(fs) && !NonEmpty(fs) && Stored(d, fs, sector) && rolling < TWO_32
    requires |View(t)| + |fs| <= RAMFS_MAX_FILES
    ensures LoadFiles(d, t, |fs|, sector, rolling, true).1 == EIO
    decreases |fs|
  {
    hide View, Content, CStr, Put, Crc32, Mix, ReadData, FromLe, FileSectors;
    var f := fs[0];
    ContentSize(f);
    if |Content(f)| > 0 {
      PutOne(t, f);
      LoadStopsAtEmpty(d, Put(t, Name(f), Content(f)).0, fs[1..], sector + Span(f),
                       Mix(rolling, Crc32(Content(f)), |Content(f)|));
    }
  }

  // ---------------------------------------------------------------- the table at start-up

  function FreeAll(t: seq<File>): (r: seq<File>)
    ensures |r| == |t| && forall i | 0 <= i < |t| :: r[i] == t[i].(used := false)
  {
    seq(|t|, i requires 0 <= i < |t| => t[i].(used := false))
  }

  const VERSION_PATH := "/sys/version"
  const VERSION_TEXT := "OpenAgentOS v1.0"
  const TICK_PATH := "/sys/tick_hz"
  const TICK_TEXT := "10000000"

  function Seeds(): map<string, string> {
    map[VERSION_PATH := VERSION_TEXT, TICK_PATH := TICK_TEXT]
  }

  /** `ramfs_init`: every slot free, then the two seeded files. */
  function Init(t: seq<File>): seq<File>
    requires Sized(t)
  {
    PutSized(FreeAll(t), VERSION_PATH, VERSION_TEXT);
    Put(Put(FreeAll(t), VERSION_PATH, VERSION_TEXT).0, TICK_PATH, TICK_TEXT).0
  }

  lemma InitView(t: seq<File>)
    requires Sized(t)
    ensures Ramfs.Valid(Init(t)) && View(Init(t)) == Seeds()
  {
    var t0 := FreeAll(t);
    assert View(t0) == map[] by { assert Paths(t0) == {}; }
    hide View, Put;
    assert |VERSION_PATH| == 12 && |TICK_PATH| == 12 && |VERSION_TEXT| == 16 && |TICK_TEXT| == 8;
    PutRefines(t0, VERSION_PATH, VERSION_TEXT);
    var t1 := Put(t0, VERSION_PATH, VERSION_TEXT).0;
    PutRefines(t1, TICK_PATH, TICK_TEXT);
    assert |map[VERSION_PATH := VERSION_TEXT]| == 1;
  }

  // ---------------------------------------------------------------- user files

  lemma {:induction false} UserFilesAre(t: seq<File>, f: File)
    ensures f in UserFiles(t) <==> f in t && IsUser(f)
  {
    if t != [] {
      UserFilesAre(t[1..], f);
    }
  }

  lemma {:induction false} FileMapHolds(fs: seq<File>)
    requires forall i, j | 0 <= i < j < |fs| :: Name(fs[i]) != Name(fs[j])
    ensures forall p :: p in FileMap(fs) <==> exists f :: f in fs && Name(f) == p
    ensures forall f | f in fs :: Name(f) in FileMap(fs) && FileMap(fs)[Name(f)] == Content(f)
  {
    hide CStr, Content;
    if fs != [] {
      var rest := fs[1..];
      assert forall i | 0 <= i < |rest| :: rest[i] == fs[i + 1];
      FileMapHolds(rest);
      assert forall f :: f in fs <==> f == fs[0] || f in rest;
      assert Name(fs[0]) !in FileMap(rest);
    }
  }

  /** User files keep the slot order, so distinct slots give distinct entries. */
  lemma {:induction false} UserFilesDistinct(t: seq<File>)
    requires Unique(t)
    ensures forall i, j | 0 <= i < j < |UserFiles(t)| :: Name(UserFiles(t)[i]) != Name(UserFiles(t)[j])
  {
    hide CStr;
    if t != [] {
      var rest := t[1..];
      assert Unique(rest);
      UserFilesDistinct(rest);
      if IsUser(t[0]) {
        forall j | 0 <= j < |UserFiles(rest)| ensures Name(UserFiles(rest)[j]) != Name(t[0]) {
          UserFilesAre(rest, UserFiles(rest)[j]);
        }
      }
    }
  }

  function SysCount(t: seq<File>): nat {
    if t == [] then 0 else (if t[0].used && !IsUser(t[0]) then 1 else 0) + SysCount(t[1..])
  }

  lemma {:induction false} CountsAdd(t: seq<File>)
    ensures |UserFiles(t)| + SysCount(t) == UsedCount(t)
  {
    if t != [] {
      CountsAdd(t[1..]);
    }
  }

  lemma {:induction false} SysCountAt(t: seq<File>, i: nat)
    requires i < |t| && t[i].used && !IsUser(t[i])
    ensures SysCount(t) >= 1
    ensures forall j | i < j < |t| && t[j].used && !IsUser(t[j]) :: SysCount(t) >= 2
  {
    if i == 0 {
      forall j | 0 < j < |t| && t[j].used && !IsUser(t[j]) ensures SysCount(t) >= 2 {
        SysCountAt(t[1..], j - 1);
      }
    } else {
      SysCountAt(t[1..], i - 1);
      assert forall j | 0 < j < |t| :: t[j] == t[1..][j - 1];
    }
  }

  /** The seeded files hold two slots for good, so user files always fit behind them again. */
  lemma UserFilesFit(t: seq<File>)
    requires Ramfs.Valid(t) && VERSION_PATH in View(t) && TICK_PATH in View(t)
    ensures |UserFiles(t)| <= RAMFS_MAX_FILES - 2
  {
    var i := InViewUsed(t, VERSION_PATH);
    var j := InViewUsed(t, TICK_PATH);
    hide View, UsedCount, SysCount;
    IsSysByName(t[i]);
    IsSysByName(t[j]);
    assert VERSION_PATH[1..4] == "sys" && TICK_PATH[1..4] == "sys";
    assert VERSION_PATH[5] != TICK_PATH[5];
    SysCountAt(t, if i < j then i else j);
    CountsAdd(t);
    CountUsed(t);
  }

  // ---------------------------------------------------------------- main results

  lemma SuperReadsBack(version: nat, count: nat, checksum: nat)
    requires version < TWO_32 && count < TWO_32 && checksum < TWO_32
    ensures var s := SuperSector(version, count, checksum);
            && FromLe(s[0..4]) == MAGIC && FromLe(s[4..8]) == version
            && FromLe(s[8..12]) == count && FromLe(s[12..16]) == checksum
  {
    var s := SuperSector(version, count, checksum);
    LeRoundTrip(MAGIC);
    LeRoundTrip(version);
    LeRoundTrip(count);
    LeRoundTrip(checksum);
    hide ToLe, FromLe, Zeros;
    assert s[0..4] == ToLe(MAGIC) && s[4..8] == ToLe(version);
    assert s[8..12] == ToLe(count) && s[12..16] == ToLe(checksum);
  }

  /**
   What a successful `persist_sync` leaves on the disk: the superblock of these files and, behind it,
   every file.  It succeeds exactly when there is a block device and every sector it needs is usable.
   */
  lemma SyncStores(t: seq<File>, d: Disk, ready: bool, junk: seq<string>)
    requires Ramfs.Valid(t) && GoodJunk(junk, |UserFiles(t)|)
    ensures GoodFiles(UserFiles(t))
    ensures var (d', rc) := Sync(t, d, ready, junk);
            var fs := UserFiles(t);
            && (rc == 0 <==> ready && Usable(d, 0) && AllUsable(d, 1, 1 + TotalSpan(fs)))
            && (rc == 0 ==>
                  && ReadSector(d', 0) == Some(SuperSector(AOS2, |fs|, Rolling(fs, 0)))
                  && Stored(d', fs, 1))
  {
    hide UserFiles, StoredFile, SaveFiles, Rolling, SuperSector, Span, AllUsable, Stored, TotalSpan;
    UserFilesGood(t);
    var fs := UserFiles(t);
    SaveFilesStores(d, fs, junk, 1);
    var (d1, rc) := SaveFiles(d, fs, junk, 1);
    if ready && rc == 0 {
      var d2 := WriteSector(d1, 0, SuperSector(AOS2, |fs|, Rolling(fs, 0))).0;
      StoredSame(d1, d2, fs, 1);
    }
  }

  lemma {:induction false} NothingToClear(t: seq<File>)
    requires forall i | 0 <= i < |t| :: !IsUser(t[i])
    ensures ClearUser(t) == t
  {
    if t != [] {
      NothingToClear(t[1..]);
    }
  }

  lemma InitHasNoUsers(t: seq<File>)
    requires Sized(t)
    ensures ClearUser(Init(t)) == Init(t)
  {
    InitView(t);
    var t0 := Init(t);
    forall i | 0 <= i < |t0| ensures !IsUser(t0[i]) {
      if t0[i].used {
        UsedInView(t0, i);
        SeedNames(Name(t0[i]));
        IsSysByName(t0[i]);
      }
    }
    NothingToClear(t0);
  }

  lemma SeedNames(p: string)
    requires p in Seeds()
    ensures SysName(p)
  {
    assert VERSION_PATH[1..4] == "sys" && TICK_PATH[1..4] == "sys";
  }

  /** The user files of a table as a map. */
  function UserMap(t: seq<File>): map<string, string> {
    FileMap(UserFiles(t))
  }

  /** The loading half: an image of these files, read into a freshly initialised table. */
  lemma LoadImage(d: Disk, fs: seq<File>, before: seq<File>, junk: seq<string>)
    requires Sized(before) && GoodJunk(junk, RAMFS_MAX_FILES)
    requires GoodFiles(fs) && |fs| <= RAMFS_MAX_FILES - 2 && Stored(d, fs, 1)
    requires ReadSector(d, 0) == Some(SuperSector(AOS2, |fs|, Rolling(fs, 0)))
    ensures Sized(Init(before))
    ensures var (t', d', rc) := Load(Init(before), d, true, junk);
            && d' == d
            && (rc == 0 <==> NonEmpty(fs))
            && (rc == 0 ==> Ramfs.Valid(t') && View(t') == Seeds() + FileMap(fs))
  {
    hide View, Rolling, SuperSector, LoadFiles, Init, ClearUser, FromLe, Stored, FileMap, Seeds, PutAll, NonEmpty;
    var t0 := Init(before);
    InitView(before);
    InitHasNoUsers(before);
    SuperReadsBack(AOS2, |fs|, Rolling(fs, 0));
    TwoSeeds();
    if NonEmpty(fs) {
      LoadStored(d, t0, fs, 1, 0);
      PutAllView(t0, fs);
    } else {
      LoadStopsAtEmpty(d, t0, fs, 1, 0);
    }
  }

  lemma TwoSeeds()
    ensures |Seeds()| == 2
  {
    assert VERSION_PATH[5] != TICK_PATH[5];
    assert Seeds().Keys == {VERSION_PATH, TICK_PATH};
  }

  /**
   The round trip.  After an error-free sync of a table that still holds the two seeded files, start-up
   and load return 0 exactly when no user file is empty; the table then holds the seeded files and every
   user file with its bytes, and nothing else.  No check fails and no slot is missing on the way.  So the whole
   file map comes back exactly when the table held no system file but the seeded ones, as seeded.
   */
  lemma RoundTrip(t: seq<File>, d: Disk, junk: seq<string>, before: seq<File>)
    requires Ramfs.Valid(t) && VERSION_PATH in View(t) && TICK_PATH in View(t)
    requires Sized(before) && GoodJunk(junk, RAMFS_MAX_FILES)
    ensures |UserFiles(t)| <= RAMFS_MAX_FILES && Sized(Init(before))
    ensures var (d1, rc1) := Sync(t, d, true, junk);
            var (t2, d2, rc2) := Load(Init(before), d1, true, junk);
            rc1 == 0 ==>
              && (rc2 == 0 <==> NonEmpty(UserFiles(t)))
              && (rc2 == 0 ==> d2 == d1 && Ramfs.Valid(t2) && View(t2) == Seeds() + UserMap(t))
              && (rc2 == 0 ==> (View(t2) == View(t) <==> OnlySeedsBesides(t)))
  {
    WholeMapExactly(t);
    hide View, Rolling, SuperSector, Stored, Load, Init, FileMap, Seeds, UserFiles, Sync, OnlySeedsBesides;
    UserFilesFit(t);
    SyncStores(t, d, true, junk);
    InitView(before);
    if Sync(t, d, true, junk).1 == 0 {
      LoadImage(Sync(t, d, true, junk).0, UserFiles(t), before, junk);
    }
  }

  // ---------------------------------------------------------------- user files in the map

  /** `UserMap` is the part of the map that user slots hold. */
  lemma UserMapIsView(t: seq<File>)
    requires Ramfs.Valid(t)
    ensures forall p :: p in UserMap(t) <==> exists i :: 0 <= i < |t| && IsUser(t[i]) && Name(t[i]) == p
    ensures forall p | p in UserMap(t) :: p in View(t) && UserMap(t)[p] == View(t)[p]
  {
    hide CStr, Content, View, FileMap, UserFiles;
    var fs := UserFiles(t);
    UserFilesDistinct(t);
    FileMapHolds(fs);
    forall p ensures p in UserMap(t) <==> exists i :: 0 <= i < |t| && IsUser(t[i]) && Name(t[i]) == p {
      if p in UserMap(t) {
        var f :| f in fs && Name(f) == p;
        UserFilesAre(t, f);
      }
      if i :| 0 <= i < |t| && IsUser(t[i]) && Name(t[i]) == p {
        UserFilesAre(t, t[i]);
      }
    }
    forall p | p in UserMap(t) ensures p in View(t) && UserMap(t)[p] == View(t)[p] {
      var f :| f in fs && Name(f) == p;
      UserFilesAre(t, f);
      var i :| 0 <= i < |t| && t[i] == f;
      UsedInView(t, i);
    }
  }

  function NonSys(m: map<string, string>): map<string, string> {
    map p | p in m && !SysName(p) :: m[p]
  }

  /** Without an empty path, the user files are the files whose path is not under the system prefix. */
  lemma UserMapByName(t: seq<File>)
    requires Ramfs.Valid(t) && "" !in View(t)
    ensures UserMap(t) == NonSys(View(t))
  {
    hide CStr, Content, View, FileMap, UserFiles;
    UserMapIsView(t);
    forall p ensures p in UserMap(t) <==> p in View(t) && !SysName(p) {
      if p in UserMap(t) {
        var i :| 0 <= i < |t| && IsUser(t[i]) && Name(t[i]) == p;
        UsedInView(t, i);
        IsSysByName(t[i]);
      }
      if p in View(t) && !SysName(p) {
        var i := InViewUsed(t, p);
        IsSysByName(t[i]);
      }
    }
  }

  /** The user's part of the map survives the round trip unchanged. */
  lemma UserFilesSurvive(t: seq<File>, t2: seq<File>)
    requires Ramfs.Valid(t) && Ramfs.Valid(t2) && "" !in View(t) && View(t2) == Seeds() + UserMap(t)
    ensures UserMap(t2) == UserMap(t) == NonSys(View(t))
  {
    hide View, FileMap, UserFiles;
    UserMapByName(t);
    assert "" !in Seeds();
    UserMapByName(t2);
    forall p | p in Seeds() ensures SysName(p) {
      SeedNames(p);
    }
    hide Seeds;
    assert NonSys(Seeds() + UserMap(t)) == UserMap(t);
  }

  /** Outside the user files there are the seeded files only, as seeded. */
  ghost predicate OnlySeedsBesides(t: seq<File>) {
    forall p | p in View(t) && p !in UserMap(t) :: p in Seeds() && Seeds()[p] == View(t)[p]
  }

  /** The seeds and the user files are the whole map exactly then. */
  lemma WholeMapExactly(t: seq<File>)
    requires Ramfs.Valid(t) && VERSION_PATH in View(t) && TICK_PATH in View(t)
    ensures Seeds() + UserMap(t) == View(t) <==> OnlySeedsBesides(t)
  {
    UserMapIsView(t);
    assert forall p | p in Seeds() :: p in View(t);
    hide View, FileMap, UserFiles, Seeds;
    UnionIsWhole(Seeds(), UserMap(t), View(t));
  }

  lemma UnionIsWhole(a: map<string, string>, b: map<string, string>, whole: map<string, string>)
    requires forall p | p in a :: p in whole
    requires forall p | p in b :: p in whole && b[p] == whole[p]
    ensures a + b == whole <==> forall p | p in whole && p !in b :: p in a && a[p] == whole[p]
  {
    if forall p | p in whole && p !in b :: p in a && a[p] == whole[p] {
      assert (a + b).Keys == whole.Keys;
    } else {
      var p :| p in whole && p !in b && !(p in a && a[p] == whole[p]);
      assert p !in a + b || (a + b)[p] != whole[p];
    }
  }

  const HEADLESS := "/sys/headless"
  const HEADLESS_TEXT := "1\0"

  lemma HeadlessName()
    ensures NoNul(HEADLESS) && |HEADLESS| == 13 && SysName(HEADLESS) && HEADLESS !in Seeds() && |HEADLESS_TEXT| == 2
  {
    assert |HEADLESS| == 13 && HEADLESS[1..4] == "sys";
    assert HEADLESS[5] == 'h' && VERSION_PATH[5] == 'v' && TICK_PATH[5] == 't';
  }

  /** A table that has this system file besides the seeds loses it. */
  lemma HeadlessIsLost(t: seq<File>)
    requires Healthy(t) && HEADLESS in View(t) && "" !in View(t)
    ensures HEADLESS !in Seeds() + UserMap(t) && !OnlySeedsBesides(t)
  {
    HeadlessName();
    UserMapByName(t);
    hide View, FileMap, UserFiles, Seeds;
  }

  /** An input: the table of a headless box, whose own system file is gone after sync, start-up and load. */
  lemma SystemFileForgotten(first: seq<File>, d: Disk, junk: seq<string>, before: seq<File>)
    requires Sized(first) && Sized(before) && GoodJunk(junk, RAMFS_MAX_FILES)
    ensures Sized(Init(first))
    ensures var t := Put(Init(first), HEADLESS, HEADLESS_TEXT).0;
            && Sized(t) && HEADLESS in View(t) && |UserFiles(t)| <= RAMFS_MAX_FILES && Sized(Init(before))
            && var (d1, rc1) := Sync(t, d, true, junk);
            var (t2, _, rc2) := Load(Init(before), d1, true, junk);
            rc1 == 0 ==> rc2 == 0 && HEADLESS !in View(t2)
  {
    HeadlessTable(first);
    var t := Put(Init(first), HEADLESS, HEADLESS_TEXT).0;
    hide View, FileMap, UserFiles, Seeds, Put, Init, Sync, Load, Healthy, OnlySeedsBesides, UserMap;
    HealthyUserFiles(t);
    HealthyParts(t);
    RoundTrip(t, d, junk, before);
  }

  lemma HealthyParts(t: seq<File>)
    requires Healthy(t)
    ensures Ramfs.Valid(t) && VERSION_PATH in View(t) && TICK_PATH in View(t)
  {
  }

  // ---------------------------------------------------------------- old images

  /** The path of every file the loader meets ends inside its 64 bytes. */
  ghost predicate TerminatedPaths(d: Disk, n: nat, sector: nat)
    decreases n
  {
    n == 0 ||
    match ReadSector(d, sector)
    case None => true
    case Some(meta) =>
      |meta| == SECTOR ==>
        |CStr(meta[..META_SIZE])| < RAMFS_PATH_MAX &&
        TerminatedPaths(d, n - 1, sector + 1 + FileSectors(FromLe(meta[64..68])))
  }

  ghost predicate Healthy(t: seq<File>) {
    && Ramfs.Valid(t) && VERSION_PATH in View(t) && TICK_PATH in View(t)
    && forall p | p in View(t) :: |View(t)[p]| > 0
  }

  lemma PutKeepsHealthy(t: seq<File>, path: string, data: string)
    requires Healthy(t) && NoNul(path) && |path| < RAMFS_PATH_MAX
    ensures Healthy(Put(t, path, data).0)
  {
    hide View, Put;
    PutRefines(t, path, data);
  }

  lemma {:induction false} LoadKeepsHealthy(d: Disk, t: seq<File>, n: nat, sector: nat, rolling: nat, checked: bool)
    requires Healthy(t) && rolling < TWO_32 && TerminatedPaths(d, n, sector)
    ensures Healthy(LoadFiles(d, t, n, sector, rolling, checked).0)
    decreases n
  {
    hide Healthy, Put, CStr, FromLe, Crc32, Mix, FileSectors, ReadData, Sized;
    HealthySized(t);
    if n > 0 && ReadSector(d, sector).Some? {
      var meta := ReadSector(d, sector).value;
      if |meta| == SECTOR {
        var size, crc := FromLe(meta[64..68]), FromLe(meta[68..72]) % TWO_32;
        if 0 < size <= RAMFS_FILE_SIZE && ReadData(d, sector + 1, size).Some? {
          var data := ReadData(d, sector + 1, size).value;
          var (t1, rc) := Put(t, CStr(meta[..META_SIZE]), data);
          PutKeepsHealthy(t, CStr(meta[..META_SIZE]), data);
          if !(checked && Crc32(data) != crc) && rc == 0 {
            LoadKeepsHealthy(d, t1, n - 1, sector + 1 + FileSectors(size), Mix(rolling, crc, size), checked);
          }
        }
      }
    }
  }

  lemma HealthySized(t: seq<File>)
    requires Healthy(t)
    ensures Sized(t)
  {
  }

  lemma HealthyUserFiles(t: seq<File>)
    requires Healthy(t)
    ensures NonEmpty(UserFiles(t)) && GoodFiles(UserFiles(t)) && |UserFiles(t)| <= RAMFS_MAX_FILES - 2
  {
    UserFilesFit(t);
    UserFilesGood(t);
    hide View, UserFiles, Content, CStr;
    var fs := UserFiles(t);
    forall k | 0 <= k < |fs| ensures |Content(fs[k])| > 0 {
      UserFilesAre(t, fs[k]);
      var i :| 0 <= i < |t| && t[i] == fs[k];
      UsedInView(t, i);
    }
  }

  predicate IsAos1(sup: string)
    requires |sup| == SECTOR
  {
    FromLe(sup[0..4]) == MAGIC && FromLe(sup[4..8]) == AOS1
  }

  /**
   Migration.  When an old image with terminated paths loads, the disk it leaves is a new image: loading
   that into any freshly initialised table succeeds and gives exactly the user files the old image gave; it gives
   the whole map exactly when the old image brought no system file of its own.
   */
  lemma MigrationPreserves(d: Disk, before: seq<File>, later: seq<File>, junk: seq<string>)
    requires Sized(before) && Sized(later) && GoodJunk(junk, RAMFS_MAX_FILES)
    requires ReadSector(d, 0).Some? && |ReadSector(d, 0).value| == SECTOR && IsAos1(ReadSector(d, 0).value)
    requires TerminatedPaths(d, LoopCount(FromLe(ReadSector(d, 0).value[8..12])), 1)
    ensures Sized(Init(before)) && Sized(Init(later))
    ensures var (t1, d1, rc1) := Load(Init(before), d, true, junk);
            var (t2, d2, rc2) := Load(Init(later), d1, true, junk);
            rc1 == 0 ==>
              && Healthy(t1) && rc2 == 0 && d2 == d1
              && Ramfs.Valid(t2) && View(t2) == Seeds() + UserMap(t1)
              && (View(t2) == View(t1) <==> OnlySeedsBesides(t1))
  {
    hide View, LoadFiles, Init, ClearUser, FromLe, FileMap, Seeds, Healthy, UserFiles, Sync, TerminatedPaths, Rolling,
         SuperSector, Stored, OnlySeedsBesides;
    InitView(before);
    InitView(later);
    InitHasNoUsers(before);
    InitHealthy(before);
    var n := LoopCount(FromLe(ReadSector(d, 0).value[8..12]));
    LoadKeepsHealthy(d, Init(before), n, 1, 0, false);
    var (t1, rc, rolling) := LoadFiles(d, Init(before), n, 1, 0, false);
    HealthyUserFiles(t1);
    HealthySized(t1);
    if rc == 0 && Sync(t1, d, true, junk).1 == 0 {
      HealthyParts(t1);
      WholeMapExactly(t1);
      SyncStores(t1, d, true, junk);
      LoadImage(Sync(t1, d, true, junk).0, UserFiles(t1), later, junk);
    }
  }

  // ---------------------------------------------------------------- an old image with a system file

  /** One file of an old image is put without a check of its CRC. */
  lemma OldFileLoads(d: Disk, t: seq<File>, f: File)
    requires Healthy(t) && GoodFile(f) && |Content(f)| > 0 && |View(t)| < RAMFS_MAX_FILES && StoredFile(d, f, 1)
    ensures Sized(t) && LoadFiles(d, t, 1, 1, 0, false).0 == Put(t, Name(f), Content(f)).0
    ensures LoadFiles(d, t, 1, 1, 0, false).1 == 0 && TerminatedPaths(d, 1, 1)
  {
    hide View, Content, CStr, Put, Crc32, Mix, ReadData, FromLe, FileSectors;
    HealthyParts(t);
    PutOne(t, f);
    ContentSize(f);
    PutSized(t, Name(f), Content(f));
  }

  /** The file as a slot, and the old image that holds it alone. */
  function HeadlessFile(): File {
    File(true, StrCopy(Zeros(RAMFS_PATH_MAX), HEADLESS), HEADLESS_TEXT + Zeros(RAMFS_FILE_SIZE - 2), 2)
  }

  function OldImage(): Disk {
    WriteSector(SaveFile(BlankDisk(), HeadlessFile(), Zeros(RAMFS_PATH_MAX), 1).0, 0, SuperSector(AOS1, 1, 0)).0
  }

  lemma HeadlessFileGood()
    ensures GoodFile(HeadlessFile()) && Name(HeadlessFile()) == HEADLESS && Content(HeadlessFile()) == HEADLESS_TEXT
  {
    HeadlessName();
    CopiedString(Zeros(RAMFS_PATH_MAX), HEADLESS);
  }

  function BlankDisk(): Disk {
    Disk([Zeros(SECTOR), Zeros(SECTOR), Zeros(SECTOR)], {})
  }

  lemma BlankTakesIt()
    ensures AllUsable(BlankDisk(), 1, 1 + Span(HeadlessFile()))
  {
    HeadlessFileGood();
    HeadlessName();
    hide HeadlessFile;
    assert Span(HeadlessFile()) == 2;
  }

  /** A file saved behind an old superblock. */
  lemma AsOldImage(d: Disk, f: File, junk: string)
    requires GoodFile(f) && |junk| == RAMFS_PATH_MAX && Usable(d, 0) && AllUsable(d, 1, 1 + Span(f))
    ensures var image := WriteSector(SaveFile(d, f, junk, 1).0, 0, SuperSector(AOS1, 1, 0)).0;
            ReadSector(image, 0) == Some(SuperSector(AOS1, 1, 0)) && StoredFile(image, f, 1)
  {
    hide StoredFile, SuperSector, Span, SaveFile, AllUsable, GoodFile;
    SaveFileStores(d, f, junk, 1);
    var d1 := SaveFile(d, f, junk, 1).0;
    StoredFileSame(d1, WriteSector(d1, 0, SuperSector(AOS1, 1, 0)).0, f, 1);
  }

  lemma OldImageHolds()
    ensures ReadSector(OldImage(), 0) == Some(SuperSector(AOS1, 1, 0)) && StoredFile(OldImage(), HeadlessFile(), 1)
  {
    HeadlessFileGood();
    BlankTakesIt();
    assert Usable(BlankDisk(), 0);
    hide StoredFile, SuperSector, HeadlessFile, Span, SaveFile, BlankDisk, AllUsable, GoodFile, WriteSector, ReadSector,
         Usable;
    AsOldImage(BlankDisk(), HeadlessFile(), Zeros(RAMFS_PATH_MAX));
  }

  /** The table with the system file besides the seeds. */
  lemma HeadlessTable(first: seq<File>)
    requires Sized(first)
    ensures Healthy(Init(first)) && |View(Init(first))| < RAMFS_MAX_FILES && Sized(Init(first))
    ensures var t := Put(Init(first), HEADLESS, HEADLESS_TEXT).0;
            && Healthy(t) && HEADLESS in View(t) && UserFiles(t) == [] && HEADLESS !in Seeds() + UserMap(t)
  {
    HeadlessName();
    InitHealthy(first);
    InitView(first);
    TwoSeeds();
    assert "" !in Seeds() && SysName(VERSION_PATH) && SysName(TICK_PATH) by {
      SeedNames(VERSION_PATH);
      SeedNames(TICK_PATH);
    }
    assert forall p | p in Seeds() :: SysName(p);
    var t := Put(Init(first), HEADLESS, HEADLESS_TEXT).0;
    hide View, FileMap, UserFiles, Seeds, Put, Init, Healthy, SysName;
    PutKeepsHealthy(Init(first), HEADLESS, HEADLESS_TEXT);
    PutRefines(Init(first), HEADLESS, HEADLESS_TEXT);
    HealthyParts(t);
    NoUserFiles(t);
    HeadlessIsLost(t);
  }

  lemma OldImageLoads(d: Disk, f: File, before: seq<File>, junk: seq<string>)
    requires Sized(before) && GoodJunk(junk, RAMFS_MAX_FILES)
    requires ReadSector(d, 0) == Some(SuperSector(AOS1, 1, 0)) && StoredFile(d, f, 1) && GoodFile(f)
    requires Name(f) == HEADLESS && Content(f) == HEADLESS_TEXT
    ensures Sized(Init(before)) && TerminatedPaths(d, 1, 1)
    ensures var (t1, d1, rc1) := Load(Init(before), d, true, junk);
            rc1 == 0 && t1 == Put(Init(before), HEADLESS, HEADLESS_TEXT).0
  {
    hide View, LoadFiles, Init, ClearUser, FromLe, FileMap, Seeds, Healthy, UserFiles, TerminatedPaths, SuperSector,
         StoredFile, Put, Content, CStr, Sync, UserMap, Load, GoodFile, Sized, GoodJunk;
    HeadlessTable(before);
    HeadlessName();
    SuperReadsBack(AOS1, 1, 0);
    InitHasNoUsers(before);
    OldFileLoads(d, Init(before), f);
    var t1 := Put(Init(before), HEADLESS, HEADLESS_TEXT).0;
    HealthyParts(t1);
    SyncOfNone(t1, d, junk);
    OldLoad(d, Init(before), t1, junk);
  }

  /** `persist_load` of an old image whose one file loads and whose migration succeeds. */
  lemma OldLoad(d: Disk, t0: seq<File>, t1: seq<File>, junk: seq<string>)
    requires Sized(t0) && ClearUser(t0) == t0 && GoodJunk(junk, RAMFS_MAX_FILES)
    requires ReadSector(d, 0).Some? && |ReadSector(d, 0).value| == SECTOR && IsAos1(ReadSector(d, 0).value)
    requires FromLe(ReadSector(d, 0).value[8..12]) == 1
    requires LoadFiles(d, t0, 1, 1, 0, false).0 == t1 && LoadFiles(d, t0, 1, 1, 0, false).1 == 0
    requires Sized(t1) && |UserFiles(t1)| <= RAMFS_MAX_FILES && Sync(t1, d, true, junk).1 == 0
    ensures Load(t0, d, true, junk).0 == t1 && Load(t0, d, true, junk).2 == 0
  {
    hide LoadFiles, ClearUser, FromLe, Sync, UserFiles, GoodFile;
  }

  lemma SyncOfNone(t: seq<File>, d: Disk, junk: seq<string>)
    requires Ramfs.Valid(t) && UserFiles(t) == [] && GoodJunk(junk, RAMFS_MAX_FILES) && Usable(d, 0)
    ensures Sync(t, d, true, junk).1 == 0
  {
    SyncStores(t, d, true, junk);
  }

  /** An input: the system file of this image is there after the migrating load and gone after the next. */
  lemma OldSystemFileForgotten(before: seq<File>, later: seq<File>, junk: seq<string>)
    requires Sized(before) && Sized(later) && GoodJunk(junk, RAMFS_MAX_FILES)
    ensures Sized(Init(before)) && Sized(Init(later))
    ensures var (t1, d1, rc1) := Load(Init(before), OldImage(), true, junk);
            var (t2, _, rc2) := Load(Init(later), d1, true, junk);
            rc1 == 0 && rc2 == 0 && HEADLESS in View(t1) && HEADLESS !in View(t2)
  {
    OldImageHolds();
    SuperReadsBack(AOS1, 1, 0);
    HeadlessTable(before);
    HeadlessFileGood();
    OldImageLoads(OldImage(), HeadlessFile(), before, junk);
    hide View, Init, FromLe, Seeds, Healthy, UserFiles, TerminatedPaths, SuperSector, StoredFile, OldImage, Put, Load,
         OnlySeedsBesides, UserMap, HeadlessFile;
    MigrationPreserves(OldImage(), before, later, junk);
  }

  lemma NoUserFiles(t: seq<File>)
    requires Ramfs.Valid(t) && "" !in View(t) && forall p | p in View(t) :: SysName(p)
    ensures UserFiles(t) == []
  {
    UserMapByName(t);
    hide View;
    if UserFiles(t) != [] {
      assert Name(UserFiles(t)[0]) in UserMap(t);
    }
  }

  lemma InitHealthy(t: seq<File>)
    requires Sized(t)
    ensures Healthy(Init(t))
  {
    InitView(t);
    hide View, Init;
    assert |VERSION_TEXT| == 16 && |TICK_TEXT| == 8;
  }
}
