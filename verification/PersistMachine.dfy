/** kernel/persist.c as the code runs: loops over sectors with running sector and checksum variables. */
module PersistMachine {
  import opened Base
  import opened ByteBits
  import opened Ramfs
  import opened Persist
  import opened RamfsMachine
  import PersistRuns

  /** The inner loop of `persist_crc32`. */
  method CrcStep(before: bv32, c: char) returns (crc: bv32)
    ensures crc == CrcByte(before, c)
  {
    hide CrcBit;
    crc := Feed(before, ByteOf(c));
    for bit := 0 to 8
      invariant CrcBits(crc, 8 - bit) == CrcByte(before, c)
    {
      crc := CrcBit(crc);
    }
  }

  /** `persist_crc32` */
  method ComputeCrc(data: string) returns (crc: nat)
    ensures crc == Crc32(data)
  {
    hide CrcByte;
    var c: bv32 := 0xffff_ffff;
    assert data[0..] == data;
    for i := 0 to |data|
      invariant CrcFrom(0xffff_ffff, data) == CrcFrom(c, data[i..])
    {
      assert data[i..][0] == data[i] && data[i..][1..] == data[i + 1..];
      c := CrcStep(c, data[i]);
    }
    crc := !c as nat;
  }

  /** A zeroed sector buffer with `s` copied to its front. */
  method FillSector(s: string) returns (buf: string)
    requires |s| <= SECTOR
    ensures buf == Pad(s)
  {
    buf := "";
    for j := 0 to SECTOR
      invariant buf == Zeros(j)
    {
      buf := buf + ['\0'];
    }
    buf := CopyInto(buf, 0, s);
  }

  /** The block device: 512-byte sectors, any of which may be bad. */
  class Device {
    var sectors: seq<string>
    const bad: set<nat>

    constructor (sectors: seq<string>, bad: set<nat>)
      ensures Image() == Disk(sectors, bad)
    {
      this.sectors, this.bad := sectors, bad;
    }

    function Image(): Disk
      reads this
    {
      Disk(sectors, bad)
    }

    method ReadBlock(n: nat) returns (rc: int, buf: string)
      requires GoodDisk(Image())
      ensures rc == 0 <==> ReadSector(Image(), n).Some?
      ensures rc == 0 ==> ReadSector(Image(), n) == Some(buf) && |buf| == SECTOR
    {
      if n < |sectors| && n !in bad {
        rc, buf := 0, sectors[n];
      } else {
        rc, buf := EIO, "";
      }
    }

    method WriteBlock(n: nat, buf: string) returns (rc: int)
      requires GoodDisk(Image()) && |buf| == SECTOR
      modifies this
      ensures (Image(), rc) == WriteSector(old(Image()), n, buf)
      ensures GoodDisk(Image())
    {
      if n < |sectors| && n !in bad {
        sectors := sectors[n := buf];
        rc := 0;
      } else {
        rc := EIO;
      }
    }

    /** `persist_read_file_data` */
    method ReadFileData(first: nat, size: nat) returns (rc: int, data: string)
      requires GoodDisk(Image())
      ensures rc == if ReadData(Image(), first, size).Some? then 0 else EIO
      ensures rc == 0 ==> ReadData(Image(), first, size) == Some(data)
    {
      data := "";
      var sector := first;
      ReadDataShape(Image(), first, size);
      while |data| < size
        invariant |data| <= size
        invariant ReadData(Image(), first, size) == Joined(data, ReadData(Image(), sector, size - |data|))
        decreases size - |data|
      {
        var rc1, buf := ReadBlock(sector);
        if rc1 != 0 {
          return EIO, data;
        }
        var chunk := Min(size - |data|, SECTOR);
        JoinedTwice(data, buf[..chunk], ReadData(Image(), sector + 1, size - |data| - chunk));
        data := data + buf[..chunk];
        sector := sector + 1;
      }
      assert data + "" == data;
      rc := 0;
    }

    /** `persist_write_file_data` */
    method WriteFileData(first: nat, data: string) returns (rc: int)
      requires GoodDisk(Image())
      modifies this
      ensures (Image(), rc) == WriteData(old(Image()), first, data)
      ensures GoodDisk(Image())
    {
      hide Pad, GoodDisk;
      var copied, sector := 0, first;
      assert data[0..] == data;
      while copied < |data|
        invariant copied <= |data| && GoodDisk(Image())
        invariant WriteData(old(Image()), first, data) == WriteData(Image(), sector, data[copied..])
      {
        var chunk := Min(|data| - copied, SECTOR);
        assert data[copied..][..chunk] == data[copied..copied + chunk];
        assert data[copied..][chunk..] == data[copied + chunk..];
        var buf := FillSector(data[copied..copied + chunk]);
        var rc1 := WriteBlock(sector, buf);
        if rc1 != 0 {
          return EIO;
        }
        sector := sector + 1;
        copied := copied + chunk;
      }
      rc := 0;
    }
  }

  function Joined(a: string, b: Option<string>): Option<string> {
    match b case None => None case Some(s) => Some(a + s)
  }

  lemma JoinedTwice(a: string, b: string, c: Option<string>)
    ensures Joined(a, Joined(b, c)) == Joined(a + b, c)
  {
    if c.Some? {
      assert a + (b + c.value) == a + b + c.value;
    }
  }

  lemma ReadDataShape(d: Disk, sector: nat, size: nat)
    ensures ReadData(d, sector, size) == Joined("", ReadData(d, sector, size))
  {
    if ReadData(d, sector, size).Some? {
      assert "" + ReadData(d, sector, size).value == ReadData(d, sector, size).value;
    }
  }

  class Store {
    const table: FileTable
    const device: Device
    var ready: bool

    constructor (table: FileTable, device: Device, ready: bool)
      ensures this.table == table && this.device == device && this.ready == ready
    {
      this.table, this.device, this.ready := table, device, ready;
    }

    ghost predicate Ok()
      reads device, table.files
    {
      table.Ok() && GoodDisk(device.Image())
    }

    /** One round of the loop in `persist_sync`: metadata sector, then data sectors. */
    method SaveOne(idx: nat, junk: string, sector: nat) returns (rc: int, size: nat, crc: nat)
      requires Ok() && |junk| == RAMFS_PATH_MAX && idx < |UserFiles(table.files[..])|
      modifies device
      ensures Ok()
      ensures var f := UserFiles(table.files[..])[idx];
              && (device.Image(), rc) == SaveFile(old(device.Image()), f, junk, sector)
              && size == |Content(f)| && crc == Crc32(Content(f))
    {
      hide UserFiles, Find, StrCopy, CStr, Crc32, ToLe, Pad, Sized, GoodDisk, WriteData;
      ghost var f := UserFiles(table.files[..])[idx];
      UserFileGood(table.files[..], idx);
      var size0, path, data := table.UserGet(idx, junk, RAMFS_FILE_SIZE);
      size := size0;
      crc := ComputeCrc(data);
      assert path == StrCopy(junk, Name(f)) && data == Content(f) && size == |data|;
      var buf := FillSector(path + ToLe(size) + ToLe(crc));
      assert buf == MetaSector(Name(f), size, crc, junk);
      rc := device.WriteBlock(sector, buf);
      if rc != 0 {
        return EIO, size, crc;
      }
      rc := device.WriteFileData(sector + 1, data);
    }

    /** `persist_sync`; `junk` is what the local metadata buffer held on each round. */
    method SyncAll(junk: seq<string>) returns (rc: int)
      requires Ok() && GoodJunk(junk, RAMFS_MAX_FILES)
      modifies device
      ensures |UserFiles(table.files[..])| <= RAMFS_MAX_FILES
      ensures (device.Image(), rc) == Sync(table.files[..], old(device.Image()), ready, junk)
      ensures Ok()
    {
      hide UserFiles, SaveFile, Content, CStr, Mix, Crc32, SuperSector, GoodDisk, FileSectors;
      ghost var fs := UserFiles(table.files[..]);
      UserFilesGood(table.files[..]);
      hide GoodFile;
      var count := table.UserCount();
      if !ready {
        return ENODEV;
      }
      var sector: nat, rolling: nat := 1, 0;
      assert fs[0..] == fs && junk[0..] == junk;
      for idx := 0 to count
        invariant Ok() && rolling < TWO_32
        invariant SaveFiles(old(device.Image()), fs, junk, 1) ==
                  SaveFiles(device.Image(), fs[idx..], junk[idx..], sector)
        invariant GoodFiles(fs[idx..]) && Rolling(fs, 0) == Rolling(fs[idx..], rolling)
      {
        SplitAt(fs, idx);
        SplitAt(junk, idx);
        PersistRuns.ContentSize(fs[idx]);
        var rc1, size, crc := SaveOne(idx, junk[idx], sector);
        if rc1 != 0 {
          return EIO;
        }
        rolling := Mix(rolling, crc, size);
        sector := sector + 1 + FileSectors(size);
      }
      rc := WriteSuper(count, rolling);
    }

    /** One round of the loops in `persist_load_v1` and, with `checked`, `persist_load_v2`. */
    method LoadOne(sector: nat, checked: bool, ghost n: nat, rolling: nat) returns (rc: int, next: nat, mixed: nat)
      requires Ok() && n > 0 && rolling < TWO_32
      modifies table.files
      ensures Ok() && mixed < TWO_32
      ensures LoadFiles(device.Image(), old(table.files[..]), n, sector, rolling, checked) ==
              if rc != 0 then (table.files[..], EIO, rolling)
              else LoadFiles(device.Image(), table.files[..], n - 1, next, mixed, checked)
    {
      hide GoodFile, CStr, Crc32, Mix, FromLe, Put, ReadData, FileSectors;
      next, mixed := sector, rolling;
      var rc1, meta := device.ReadBlock(sector);
      if rc1 != 0 {
        return EIO, next, mixed;
      }
      var size, crc := FromLe(meta[64..68]), FromLe(meta[68..72]) % TWO_32;
      if size == 0 || size > RAMFS_FILE_SIZE {
        return EIO, next, mixed;
      }
      next, mixed := sector + 1 + FileSectors(size), Mix(rolling, crc, size);
      var rc2, data := device.ReadFileData(sector + 1, size);
      if rc2 != 0 {
        return EIO, next, mixed;
      }
      if checked {
        var actual := ComputeCrc(data);
        if actual != crc {
          return EIO, next, mixed;
        }
      }
      PutSized(table.files[..], CStr(meta[..META_SIZE]), data);
      rc := table.PutFile(CStr(meta[..META_SIZE]), data);
    }

    /** The loops of `persist_load_v1` and `persist_load_v2`. */
    method LoadAll(count: nat, checked: bool) returns (rc: int, rolling: nat)
      requires Ok()
      modifies table.files
      ensures Ok() && rolling < TWO_32
      ensures var (t, code, sum) := LoadFiles(device.Image(), old(table.files[..]), LoopCount(count), 1, 0, checked);
              table.files[..] == t && rc == code && (rc == 0 ==> rolling == sum)
    {
      hide LoadFiles, Sized;
      ghost var d, t0, n := device.Image(), table.files[..], LoopCount(count);
      rolling := 0;
      var sector, i := 1, 0;
      while i < LoopCount(count)
        invariant Ok() && i <= n && rolling < TWO_32 && device.Image() == d
        invariant LoadFiles(d, t0, n, 1, 0, checked) == LoadFiles(d, table.files[..], n - i, sector, rolling, checked)
      {
        var rc1, next, mixed := LoadOne(sector, checked, n - i, rolling);
        if rc1 != 0 {
          return EIO, rolling;
        }
        sector, rolling, i := next, mixed, i + 1;
      }
      PersistRuns.LoadNone(d, table.files[..], sector, rolling, checked);
      rc := 0;
    }

    /** `persist_load` */
    method LoadStore(junk: seq<string>) returns (rc: int)
      requires Ok() && GoodJunk(junk, RAMFS_MAX_FILES)
      modifies table.files, device
      ensures (table.files[..], device.Image(), rc) ==
              Load(old(table.files[..]), old(device.Image()), ready, junk)
      ensures Ok()
    {
      hide LoadFiles, FromLe, Sync, ClearUser, CStr, UserFiles;
      ghost var t0 := table.files[..];
      if !ready {
        return 0;
      }
      var rc1, sup := device.ReadBlock(0);
      if rc1 != 0 {
        return EIO;
      }
      if FromLe(sup[0..4]) != MAGIC {
        return 0;
      }
      var version := FromLe(sup[4..8]);
      if version != AOS1 && version != AOS2 {
        return EIO;
      }
      table.ClearUserFiles();
      var rc2, rolling := LoadAll(FromLe(sup[8..12]), version == AOS2);
      ghost var n := LoopCount(FromLe(sup[8..12]));
      assert LoadFiles(device.Image(), ClearUser(t0), n, 1, 0, version == AOS2).0 == table.files[..];
      if rc2 != 0 {
        return rc2;
      }
      if version == AOS1 {
        rc := SyncAll(junk);
      } else if rolling != FromLe(sup[12..16]) {
        rc := EIO;
      } else {
        rc := 0;
      }
    }

    /** `persist_write_super` */
    method WriteSuper(count: nat, rolling: nat) returns (rc: int)
      requires Ok()
      modifies device
      ensures Ok()
      ensures (device.Image(), rc) == WriteSector(old(device.Image()), 0, SuperSector(AOS2, count, rolling))
    {
      hide Pad, ToLe, Sized;
      var buf := FillSector(ToLe(MAGIC) + ToLe(AOS2) + ToLe(count) + ToLe(rolling));
      rc := device.WriteBlock(0, buf);
    }
  }

  lemma SplitAt<T>(s: seq<T>, i: nat)
    requires i < |s|
    ensures s[i..][0] == s[i] && s[i..][1..] == s[i + 1..]
  {
  }

  lemma UserFileGood(t: seq<File>, idx: nat)
    requires Sized(t) && idx < |UserFiles(t)|
    ensures GoodFile(UserFiles(t)[idx]) && |Content(UserFiles(t)[idx])| == UserFiles(t)[idx].size < RAMFS_FILE_SIZE
  {
    UserFilesGood(t);
  }
}
