/**
 The on-disk image of the RAM file system (kernel/persist.c): a superblock, then for every user file a
 metadata sector and its data sectors.
 */
module Persist {
  import opened Base
  import opened ByteBits
  import opened Ramfs

  const SECTOR := 512
  const MAGIC := 0x3149_5641
  const AOS1 := 1
  const AOS2 := 2
  const META_SIZE := 72

  // ---------------------------------------------------------------- bytes

  /** An unsigned 32-bit number, little-endian. */
  function ToLe(n: nat): (s: string)
    ensures |s| == 4
  {
    [(n % 256) as char, (n / 256 % 256) as char, (n / 0x1_0000 % 256) as char, (n / 0x100_0000 % 256) as char]
  }

  function FromLe(s: string): nat
    requires |s| == 4
  {
    s[0] as nat + 256 * (s[1] as nat) + 0x1_0000 * (s[2] as nat) + 0x100_0000 * (s[3] as nat)
  }

  lemma LeRoundTrip(n: nat)
    requires n < TWO_32
    ensures FromLe(ToLe(n)) == n
  {
    FourDigits(n);
  }

  lemma FourDigits(n: nat)
    requires n < TWO_32
    ensures n % 256 + 256 * (n / 256 % 256) + 0x1_0000 * (n / 0x1_0000 % 256) + 0x100_0000 * (n / 0x100_0000 % 256) == n
  {
    var a, b, c := n / 256, n / 0x1_0000, n / 0x100_0000;
    assert b == a / 256 && c == b / 256;
    assert c < 256;
  }

  function CrcBit(crc: bv32): bv32 {
    if crc & 1 == 1 then (crc >> 1) ^ 0xedb8_8320 else crc >> 1
  }

  function CrcBits(crc: bv32, n: nat): bv32
    decreases n
  {
    if n == 0 then crc else CrcBits(CrcBit(crc), n - 1)
  }

  /** The next byte goes into the low eight bits. */
  function Feed(crc: bv32, b: bv8): bv32 {
    crc ^ (b as bv32)
  }

  function CrcByte(crc: bv32, c: char): bv32 {
    CrcBits(Feed(crc, ByteOf(c)), 8)
  }

  function CrcFrom(crc: bv32, data: string): bv32
    decreases |data|
  {
    if data == [] then crc else CrcFrom(CrcByte(crc, data[0]), data[1..])
  }

  function Inverted(x: bv32): (n: nat)
    ensures n < TWO_32
  {
    !x as nat
  }

  /** `persist_crc32` */
  function Crc32(data: string): (c: nat)
    ensures c < TWO_32
  {
    Inverted(CrcFrom(0xffff_ffff, data))
  }

  /** The rolling checksum takes in one file's CRC and size. */
  function Mix(rolling: nat, crc: nat, size: nat): (r: nat)
    requires rolling < TWO_32 && crc < TWO_32 && size < TWO_32
    ensures r < TWO_32
  {
    ((rolling as bv32) ^ (crc as bv32) ^ (size as bv32)) as nat
  }

  // ---------------------------------------------------------------- the disk

  /** A block device; reading or writing a bad or missing sector is an error. */
  datatype Disk = Disk(sectors: seq<string>, bad: set<nat>)

  predicate GoodDisk(d: Disk) {
    forall i | 0 <= i < |d.sectors| :: |d.sectors[i]| == SECTOR
  }

  predicate Usable(d: Disk, n: nat) {
    n < |d.sectors| && n !in d.bad
  }

  function ReadSector(d: Disk, n: nat): Option<string> {
    if Usable(d, n) then Some(d.sectors[n]) else None
  }

  function WriteSector(d: Disk, n: nat, buf: string): (Disk, int) {
    if Usable(d, n) then (d.(sectors := d.sectors[n := buf]), 0) else (d, EIO)
  }

  function Pad(s: string): (r: string)
    requires |s| <= SECTOR
    ensures |r| == SECTOR
  {
    s + Zeros(SECTOR - |s|)
  }

  function Min(a: nat, b: nat): nat {
    if a < b then a else b
  }

  /** `persist_file_sectors` */
  function FileSectors(size: nat): nat {
    (size + SECTOR - 1) / SECTOR
  }

  /** `persist_write_file_data` */
  function WriteData(d: Disk, sector: nat, data: string): (Disk, int)
    decreases |data|
  {
    if data == [] then (d, 0)
    else
      var chunk := Min(|data|, SECTOR);
      var (d1, rc) := WriteSector(d, sector, Pad(data[..chunk]));
      if rc != 0 then (d1, EIO) else WriteData(d1, sector + 1, data[chunk..])
  }

  /** `persist_read_file_data` */
  function ReadData(d: Disk, sector: nat, size: nat): Option<string>
    decreases size
  {
    if size == 0 then Some("")
    else
      var chunk := Min(size, SECTOR);
      match ReadSector(d, sector)
      case None => None
      case Some(buf) =>
        if |buf| != SECTOR then None
        else
          match ReadData(d, sector + 1, size - chunk)
          case None => None
          case Some(rest) => Some(buf[..chunk] + rest)
  }

  // ---------------------------------------------------------------- saving

  /** A metadata sector; `junk` is what the uninitialised path buffer held. */
  function MetaSector(name: string, size: nat, crc: nat, junk: string): (s: string)
    requires |junk| == RAMFS_PATH_MAX
    ensures |s| == SECTOR
  {
    Pad(StrCopy(junk, name) + ToLe(size) + ToLe(crc))
  }

  function SaveFile(d: Disk, f: File, junk: string, sector: nat): (Disk, int)
    requires |junk| == RAMFS_PATH_MAX
  {
    var data := Content(f);
    var (d1, rc) := WriteSector(d, sector, MetaSector(Name(f), |data|, Crc32(data), junk));
    if rc != 0 then (d1, EIO) else WriteData(d1, sector + 1, data)
  }

  predicate GoodFiles(fs: seq<File>) {
    forall i | 0 <= i < |fs| :: GoodFile(fs[i])
  }

  predicate GoodJunk(junk: seq<string>, n: nat) {
    |junk| >= n && forall i | 0 <= i < |junk| :: |junk[i]| == RAMFS_PATH_MAX
  }

  /** The loop of `persist_sync`. */
  function SaveFiles(d: Disk, fs: seq<File>, junk: seq<string>, sector: nat): (Disk, int)
    requires GoodJunk(junk, |fs|)
    decreases |fs|
  {
    if fs == [] then (d, 0)
    else
      var (d1, rc) := SaveFile(d, fs[0], junk[0], sector);
      if rc != 0 then (d1, EIO)
      else SaveFiles(d1, fs[1..], junk[1..], sector + 1 + FileSectors(|Content(fs[0])|))
  }

  function Rolling(fs: seq<File>, rolling: nat): (r: nat)
    requires GoodFiles(fs) && rolling < TWO_32
    ensures r < TWO_32
    decreases |fs|
  {
    if fs == [] then rolling
    else Rolling(fs[1..], Mix(rolling, Crc32(Content(fs[0])), |Content(fs[0])|))
  }

  function SuperSector(version: nat, count: nat, checksum: nat): (s: string)
    ensures |s| == SECTOR
  {
    Pad(ToLe(MAGIC) + ToLe(version) + ToLe(count) + ToLe(checksum))
  }

  /** `persist_sync` */
  function Sync(t: seq<File>, d: Disk, ready: bool, junk: seq<string>): (Disk, int)
    requires Sized(t) && GoodJunk(junk, |UserFiles(t)|)
  {
    if !ready then (d, ENODEV)
    else
      var fs := UserFiles(t);
      UserFilesGood(t);
      var (d1, rc) := SaveFiles(d, fs, junk, 1);
      if rc != 0 then (d1, EIO)
      else
        var (d2, rc2) := WriteSector(d1, 0, SuperSector(AOS2, |fs|, Rolling(fs, 0)));
        (d2, if rc2 != 0 then EIO else 0)
  }

  // ---------------------------------------------------------------- loading

  /** The loops of `persist_load_v1` and, with `checked`, `persist_load_v2`. */
  function LoadFiles(d: Disk, t: seq<File>, n: nat, sector: nat, rolling: nat, checked: bool)
    : (r: (seq<File>, int, nat))
    requires Sized(t) && rolling < TWO_32
    ensures Sized(r.0)
    decreases n
  {
    if n == 0 then (t, 0, rolling)
    else
      match ReadSector(d, sector)
      case None => (t, EIO, rolling)
      case Some(meta) =>
        if |meta| != SECTOR then (t, EIO, rolling)
        else
          var size, crc := FromLe(meta[64..68]), FromLe(meta[68..72]) % TWO_32;
          if size == 0 || size > RAMFS_FILE_SIZE then (t, EIO, rolling)
          else
            match ReadData(d, sector + 1, size)
            case None => (t, EIO, rolling)
            case Some(data) =>
              if checked && Crc32(data) != crc then (t, EIO, rolling)
              else
                var (t1, rc) := Put(t, CStr(meta[..META_SIZE]), data);
                PutSized(t, CStr(meta[..META_SIZE]), data);
                if rc != 0 then (t1, EIO, rolling)
                else LoadFiles(d, t1, n - 1, sector + 1 + FileSectors(size), Mix(rolling, crc, size), checked)
  }

  /** The loop bound is the file count converted to a signed 32-bit number. */
  function LoopCount(count: nat): nat {
    if count < 0x8000_0000 then count else 0
  }

  /** `persist_load` */
  function Load(t: seq<File>, d: Disk, ready: bool, junk: seq<string>): (seq<File>, Disk, int)
    requires Sized(t) && GoodJunk(junk, RAMFS_MAX_FILES)
  {
    if !ready then (t, d, 0)
    else
      match ReadSector(d, 0)
      case None => (t, d, EIO)
      case Some(sup) =>
        if |sup| != SECTOR then (t, d, EIO)
        else
          var magic, version := FromLe(sup[0..4]), FromLe(sup[4..8]);
          var count, checksum := FromLe(sup[8..12]), FromLe(sup[12..16]);
          if magic != MAGIC then (t, d, 0)
          else if version != AOS1 && version != AOS2 then (t, d, EIO)
          else
            ClearSized(t);
            var (t1, rc, rolling) := LoadFiles(d, ClearUser(t), LoopCount(count), 1, 0, version == AOS2);
            if rc != 0 then (t1, d, rc)
            else if version == AOS1 then
              UserFilesGood(t1);
              var (d1, rc1) := Sync(t1, d, ready, junk);
              (t1, d1, rc1)
            else (t1, d, if rolling != checksum then EIO else 0)
  }

  // ---------------------------------------------------------------- sizes

  lemma PutSized(t: seq<File>, path: string, data: string)
    requires Sized(t) && NoNul(path)
    ensures Sized(Put(t, path, data).0)
  {
    FindFinds(t, path, 0);
    FindFreeFinds(t, 0);
    if Find(t, path, 0).None? && FindFree(t, 0).Some? {
      CopiedString(t[FindFree(t, 0).value].path, path);
    }
    LookupGood(t, path);
  }

  lemma {:induction false} ClearSized(t: seq<File>)
    requires forall i | 0 <= i < |t| :: GoodFile(t[i])
    ensures forall i | 0 <= i < |t| :: GoodFile(ClearUser(t)[i])
    ensures forall i | 0 <= i < |t| :: ClearUser(t)[i] == if IsUser(t[i]) then t[i].(used := false) else t[i]
  {
    if t != [] {
      ClearSized(t[1..]);
    }
  }

  lemma {:induction false} UserFilesGood(t: seq<File>)
    requires forall i | 0 <= i < |t| :: GoodFile(t[i])
    ensures GoodFiles(UserFiles(t)) && |UserFiles(t)| <= |t|
  {
    if t != [] {
      UserFilesGood(t[1..]);
    }
  }
}
