/** Reading sizes and putting files through the file table, stated on the map it stands for. */
module FilesMachine {
  import opened Base
  import opened Files
  import opened RamfsMachine
  import Ramfs

  ghost predicate Good(fs: FileTable)
    reads fs.files
  {
    fs.files.Length == Ramfs.RAMFS_MAX_FILES && Ramfs.Valid(fs.files[..])
  }

  ghost function Map(fs: FileTable): Fs
    reads fs.files
  {
    Ramfs.View(fs.files[..])
  }

  lemma FilesFit(t: seq<Ramfs.File>, p: string)
    requires Ramfs.Valid(t) && p in Ramfs.View(t)
    ensures |Ramfs.View(t)[p]| < Ramfs.RAMFS_FILE_SIZE
  {
    var i := Ramfs.InViewUsed(t, p);
    Ramfs.UsedInView(t, i);
    assert Ramfs.GoodFile(t[i]);
  }

  /** `ramfs_put` updates the map. */
  method Store(fs: FileTable, path: string, data: string) returns (rc: int)
    requires Good(fs) && Ramfs.NoNul(path) && |path| < Ramfs.RAMFS_PATH_MAX
    modifies fs.files
    ensures Good(fs) && (Map(fs), rc) == PutFile(old(Map(fs)), path, data)
  {
    hide Ramfs.View, Ramfs.Put;
    Ramfs.PutRefines(fs.files[..], path, data);
    rc := fs.PutFile(path, data);
  }

  /** Reads a prefix of a file. */
  method Fetch(fs: FileTable, path: string, len: int) returns (n: int, buf: string)
    requires Good(fs) && Ramfs.NoNul(path) && len > 0
    ensures path !in Map(fs) ==> n == ENOENT
    ensures path in Map(fs) ==>
              && n == (if len < |Map(fs)[path]| then len else |Map(fs)[path]|)
              && buf == Map(fs)[path][..n]
  {
    hide Ramfs.View, Ramfs.Read;
    Ramfs.ReadRefines(fs.files[..], path, 0, len);
    n, buf := fs.ReadFile(path, 0, len);
  }

  /** The loops of `audit_usage` and `catalog_file_size`. */
  method ProbeSize(fs: FileTable, path: string) returns (size: int)
    requires Good(fs) && Ramfs.NoNul(path)
    ensures size == Probe(Map(fs), path)
  {
    hide Ramfs.View, Ramfs.Read;
    var n, _ := Fetch(fs, path, 1);
    if n < 0 {
      return n;
    }
    FilesFit(fs.files[..], path);
    size := 1;
    var more := true;
    while size < Ramfs.RAMFS_FILE_SIZE && more
      invariant size == 1 || size <= |Map(fs)[path]|
      invariant more || size >= |Map(fs)[path]|
      invariant 1 <= size <= Ramfs.RAMFS_FILE_SIZE
      decreases Ramfs.RAMFS_FILE_SIZE - size, more
    {
      Ramfs.ReadRefines(fs.files[..], path, size, 1);
      var got, _ := fs.ReadFile(path, size, 1);
      if got <= 0 {
        more := false;
      } else {
        size := size + 1;
      }
    }
  }
}
