/** The file table of kernel/ramfs.c as the code changes it: an array of slots, searched and copied by loops. */
module RamfsMachine {
  import opened Base
  import opened Ramfs
  import Persist
  import PersistRuns

  // ---------------------------------------------------------------- bytes

  /** The character a C string shows at an index; behind the sequence stands the terminator. */
  function CharAt(s: string, i: nat): char {
    if i < |s| then s[i] else '\0'
  }

  lemma {:induction false} CStrFrom(buf: string, n: nat)
    requires n <= |buf| && NoNul(buf[..n]) && CharAt(buf, n) == '\0'
    ensures CStr(buf) == buf[..n]
  {
    assert buf == buf[..n] + buf[n..];
    CStrOf(buf[..n], buf[n..]);
  }

  /** `str_eq` decides equality of the two C strings. */
  method StrEq(a: string, b: string) returns (eq: bool)
    ensures eq == (CStr(a) == CStr(b))
  {
    var i := 0;
    while CharAt(a, i) != '\0' && CharAt(b, i) != '\0'
      invariant i <= |a| && i <= |b| && a[..i] == b[..i] && NoNul(a[..i])
      decreases |a| - i
    {
      if CharAt(a, i) != CharAt(b, i) {
        Differ(a, b, i);
        return false;
      }
      assert a[..i + 1] == a[..i] + [a[i]] && b[..i + 1] == b[..i] + [b[i]];
      i := i + 1;
    }
    eq := CharAt(a, i) == CharAt(b, i);
    if eq {
      CStrFrom(a, i);
      CStrFrom(b, i);
    } else {
      Differ(a, b, i);
    }
  }

  lemma Differ(a: string, b: string, i: nat)
    requires i <= |a| && i <= |b| && a[..i] == b[..i] && NoNul(a[..i]) && CharAt(a, i) != CharAt(b, i)
    ensures CStr(a) != CStr(b)
  {
    CStrShows(a, i);
    CStrShows(b, i);
  }

  /** Up to its end a C string shows what its buffer holds. */
  lemma {:induction false} CStrShows(buf: string, i: nat)
    requires i <= |buf| && NoNul(buf[..i])
    ensures |CStr(buf)| >= i && CharAt(CStr(buf), i) == CharAt(buf, i)
    decreases i
  {
    if i > 0 {
      assert buf[0] in buf[..i];
      assert buf[1..][..i - 1] == buf[..i][1..];
      assert forall c | c in buf[..i][1..] :: c in buf[..i];
      CStrShows(buf[1..], i - 1);
    }
  }

  /** `str_copy` into a buffer. */
  method StrCopyInto(dst: string, src: string) returns (r: string)
    requires |dst| > 0 && NoNul(src)
    ensures r == StrCopy(dst, src)
  {
    var i := 0;
    r := dst;
    while i < |dst| - 1 && CharAt(src, i) != '\0'
      invariant i <= |src| && i <= |dst| - 1 && |r| == |dst|
      invariant forall k | 0 <= k < i :: r[k] == src[k]
      invariant forall k | i <= k < |dst| :: r[k] == dst[k]
    {
      r := r[i := src[i]];
      i := i + 1;
    }
    assert i < |src| ==> src[i] in src;
    assert i == if |src| < |dst| - 1 then |src| else |dst| - 1;
    r := r[i := '\0'];
  }

  /** The byte loops that overlay `src` on a buffer from an offset on. */
  method CopyInto(dst: string, offset: nat, src: string) returns (r: string)
    requires offset + |src| <= |dst|
    ensures r == dst[..offset] + src + dst[offset + |src|..]
  {
    r := dst;
    for i := 0 to |src|
      invariant r == dst[..offset] + src[..i] + dst[offset + i..]
    {
      r := r[offset + i := src[i]];
    }
  }

  method CopyOut(src: string, offset: nat, len: nat) returns (r: string)
    requires offset + len <= |src|
    ensures r == src[offset..offset + len]
  {
    r := "";
    for i := 0 to len
      invariant r == src[offset..offset + i]
    {
      r := r + [src[offset + i]];
    }
  }

  // ---------------------------------------------------------------- the table

  lemma LookupSized(t: seq<File>, path: string)
    requires Sized(t) && NoNul(path)
    ensures Sized(Lookup(t, path).0)
  {
    FindFinds(t, path, 0);
    FindFreeFinds(t, 0);
    if FindFree(t, 0).Some? {
      CopiedString(t[FindFree(t, 0).value].path, path);
    }
  }

  lemma WriteSized(t: seq<File>, path: string, offset: nat, data: string)
    requires Sized(t) && NoNul(path)
    ensures Write(t, path, offset, data).Some? ==> Sized(Write(t, path, offset, data).value.0)
  {
    hide Lookup, CStr;
    LookupSized(t, path);
    LookupGood(t, path);
  }

  lemma SeedSized(t: seq<File>, path: string, content: string)
    requires Sized(t) && NoNul(path)
    ensures Sized(Seed(t, path, content))
  {
    hide Lookup, CStr;
    LookupSized(t, path);
    LookupGood(t, path);
  }

  class FileTable {
    const files: array<File>

    /** The zeroed table before `ramfs_init`. */
    constructor ()
      ensures Ok() && fresh(files) && UserFiles(files[..]) == []
    {
      hide CStr;
      var blank := File(false, Zeros(RAMFS_PATH_MAX), Zeros(RAMFS_FILE_SIZE), 0);
      assert GoodFile(blank) by { BlankGood(blank); }
      files := new File[RAMFS_MAX_FILES](_ => blank);
      new;
      NoUsers(files[..]);
    }

    ghost predicate Ok()
      reads files
    {
      files.Length == RAMFS_MAX_FILES && Sized(files[..])
    }

    /** The first loop of `lookup`. */
    method FindPath(path: string) returns (slot: Option<nat>)
      requires Ok() && NoNul(path)
      ensures slot == Find(files[..], path, 0)
    {
      CStrWhole(path);
      for i := 0 to files.Length
        invariant Find(files[..], path, 0) == Find(files[..], path, i)
      {
        if files[i].used {
          var eq := StrEq(files[i].path, path);
          if eq {
            return Some(i);
          }
        }
      }
      slot := None;
    }

    /** `lookup` */
    method LookupPath(path: string, create: bool) returns (slot: Option<nat>)
      requires Ok() && NoNul(path)
      modifies files
      ensures !create ==> files[..] == old(files[..]) && slot == Find(old(files[..]), path, 0)
      ensures create ==> (files[..], slot) == Lookup(old(files[..]), path)
      ensures slot.Some? ==> slot.value < files.Length
      ensures Ok()
    {
      hide Sized, StrCopy, Name;
      ghost var t := files[..];
      LookupSized(t, path);
      LookupGood(t, path);
      FindFinds(t, path, 0);
      slot := FindPath(path);
      if slot.Some? || !create {
        return;
      }
      for i := 0 to files.Length
        invariant files[..] == t && FindFree(t, 0) == FindFree(t, i)
      {
        if !files[i].used {
          Claim(i, path);
          return Some(i);
        }
      }
    }

    /** A free slot becomes an empty file. */
    method Claim(i: nat, path: string)
      requires Ok() && i < files.Length && NoNul(path)
      modifies files
      ensures var f := old(files[i]);
              files[..] == old(files[..])[i := f.(used := true, size := 0, path := StrCopy(f.path, path))]
    {
      hide StrCopy;
      files[i] := files[i].(used := true, size := 0);
      var p := StrCopyInto(files[i].path, path);
      files[i] := files[i].(path := p);
    }

    /** `ramfs_seed` */
    method SeedFile(path: string, content: string)
      requires Ok() && NoNul(path) && NoNul(content)
      modifies files
      ensures files[..] == Seed(old(files[..]), path, content)
      ensures Ok()
    {
      hide Lookup, Name, Sized;
      ghost var t := files[..];
      LookupGood(t, path);
      SeedSized(t, path, content);
      var slot := LookupPath(path, true);
      if slot.None? {
        assert files[..] == t by { LookupNone(t, path); }
        return;
      }
      var f := files[slot.value];
      ghost var c := if |content| < RAMFS_FILE_SIZE then content else content[..RAMFS_FILE_SIZE - 1];
      var d, i := f.data, 0;
      while CharAt(content, i) != '\0' && i < RAMFS_FILE_SIZE - 1
        decreases |content| - i
        invariant i <= |c| && |d| == RAMFS_FILE_SIZE && d == c[..i] + f.data[i..]
      {
        d := d[i := content[i]];
        i := i + 1;
      }
      assert i == |c|;
      d := d[i := '\0'];
      assert d == c + ['\0'] + f.data[|c| + 1..];
      files[slot.value] := f.(data := d, size := i);
    }

    /** `ramfs_init` */
    method Initialise()
      requires Ok()
      modifies files
      ensures files[..] == PersistRuns.Init(old(files[..]))
      ensures Ok()
    {
      hide Name, Put, Seed;
      ghost var t := files[..];
      for i := 0 to files.Length
        invariant forall k | 0 <= k < i :: files[k] == t[k].(used := false)
        invariant forall k | i <= k < files.Length :: files[k] == t[k]
      {
        files[i] := files[i].(used := false);
      }
      assert files[..] == PersistRuns.FreeAll(t);
      FreeSized(t);
      SeedsFit();
      SeedIsPut(files[..], PersistRuns.VERSION_PATH, PersistRuns.VERSION_TEXT);
      SeedFile(PersistRuns.VERSION_PATH, PersistRuns.VERSION_TEXT);
      SeedIsPut(files[..], PersistRuns.TICK_PATH, PersistRuns.TICK_TEXT);
      SeedFile(PersistRuns.TICK_PATH, PersistRuns.TICK_TEXT);
    }

    /** `ramfs_put` */
    method PutFile(path: string, data: string) returns (rc: int)
      requires Ok() && NoNul(path)
      modifies files
      ensures (files[..], rc) == Put(old(files[..]), path, data)
      ensures Ok()
    {
      hide Lookup, Name, Sized;
      Persist.PutSized(files[..], path, data);
      if |data| == 0 || |data| >= RAMFS_FILE_SIZE {
        return EINVAL;
      }
      ghost var t := files[..];
      LookupGood(t, path);
      var slot := LookupPath(path, true);
      if slot.None? {
        assert files[..] == t by { LookupNone(t, path); }
        return ENOSPC;
      }
      var f := files[slot.value];
      var d := CopyInto(f.data, 0, data);
      d := d[|data| := '\0'];
      assert d == data + ['\0'] + f.data[|data| + 1..];
      files[slot.value] := f.(data := d, size := |data|);
      rc := 0;
    }

    /** `ramfs_write`; `None` stands for a write outside the buffer, whose effect is not defined. */
    method WriteFile(path: string, offset: nat, data: string) returns (rc: Option<int>)
      requires Ok() && NoNul(path)
      modifies files
      ensures Write(old(files[..]), path, offset, data) == if rc.Some? then Some((files[..], rc.value)) else None
      ensures Ok()
    {
      hide Lookup, Name, Sized;
      WriteSized(files[..], path, offset, data);
      LookupSized(files[..], path);
      if |data| == 0 {
        return Some(EINVAL);
      }
      ghost var t := files[..];
      LookupGood(t, path);
      var slot := LookupPath(path, true);
      if slot.None? {
        assert files[..] == t by { LookupNone(t, path); }
        return Some(ENOSPC);
      }
      if Wrap(offset + |data|) >= RAMFS_FILE_SIZE {
        return Some(EINVAL);
      }
      if offset + |data| >= TWO_64 {
        return None;
      }
      var f := files[slot.value];
      var d := CopyInto(f.data, offset, data);
      var end := offset + |data|;
      files[slot.value] := f.(data := d, size := if end > f.size then end else f.size);
      rc := Some(|data|);
    }

    /** `ramfs_read` */
    method ReadFile(path: string, offset: nat, len: int) returns (rc: int, out: string)
      requires Ok() && NoNul(path)
      ensures (rc, out) == Read(files[..], path, offset, len)
    {
      if len <= 0 {
        return EINVAL, "";
      }
      var slot := FindPath(path);
      FindFinds(files[..], path, 0);
      if slot.None? {
        return ENOENT, "";
      }
      var f := files[slot.value];
      assert GoodFile(files[..][slot.value]);
      if offset >= f.size {
        return 0, "";
      }
      rc := len;
      if offset + len > f.size {
        rc := f.size - offset;
      }
      out := CopyOut(f.data, offset, rc);
    }

    /** `ramfs_clear_user` */
    method ClearUserFiles()
      requires Ok()
      modifies files
      ensures files[..] == ClearUser(old(files[..]))
      ensures Ok()
    {
      hide Name;
      ghost var t := files[..];
      Persist.ClearSized(t);
      for i := 0 to files.Length
        invariant forall k | 0 <= k < i :: files[k] == ClearUser(t)[k]
        invariant forall k | i <= k < files.Length :: files[k] == t[k]
      {
        assert GoodFile(t[i]);
        if files[i].used && !IsSys(files[i].path) {
          files[i] := files[i].(used := false);
        }
      }
      assert files[..] == ClearUser(t);
    }

    /** `ramfs_user_count` */
    method UserCount() returns (n: nat)
      requires Ok()
      ensures n == |UserFiles(files[..])|
    {
      hide Name;
      n := 0;
      assert files[..][..0] == [];
      for i := 0 to files.Length
        invariant n == |UserFiles(files[..][..i])|
      {
        UserFilesGrow(files[..], i);
        assert GoodFile(files[..][i]);
        if files[i].used && !IsSys(files[i].path) {
          n := n + 1;
        }
      }
      assert files[..][..files.Length] == files[..];
    }

    /** `ramfs_user_get`: the path buffer is filled even when the content does not fit. */
    method UserGet(idx: nat, path: string, cap: int) returns (rc: int, name: string, data: string)
      requires Ok() && |path| == RAMFS_PATH_MAX
      ensures cap <= 0 ==> rc == EINVAL
      ensures cap > 0 && idx >= |UserFiles(files[..])| ==> rc == ENOENT
      ensures cap > 0 && idx < |UserFiles(files[..])| ==>
                var f := UserFiles(files[..])[idx];
                && name == StrCopy(path, Name(f))
                && (f.size >= cap ==> rc == EINVAL)
                && (f.size < cap ==> rc == f.size && data == Content(f))
    {
      hide StrCopy, CStr, Find;
      name, data := path, "";
      if cap <= 0 {
        return EINVAL, name, data;
      }
      var seen := 0;
      assert files[..][..0] == [];
      for i := 0 to files.Length
        invariant seen == |UserFiles(files[..][..i])| <= idx
      {
        UserFilesGrow(files[..], i);
        assert GoodFile(files[..][i]);
        if files[i].used && !IsSys(files[i].path) {
          if seen == idx {
            UserFilesPrefix(files[..], i + 1);
            assert UserFiles(files[..])[idx] == files[i];
            name := StrCopyInto(path, CStr(files[i].path));
            if files[i].size >= cap {
              return EINVAL, name, data;
            }
            data := CopyOut(files[i].data, 0, files[i].size);
            return files[i].size, name, data;
          }
          seen := seen + 1;
        }
      }
      assert files[..][..files.Length] == files[..];
      rc := ENOENT;
    }
  }

  lemma BlankGood(f: File)
    requires f == File(false, Zeros(RAMFS_PATH_MAX), Zeros(RAMFS_FILE_SIZE), 0)
    ensures GoodFile(f)
  {
  }

  lemma {:induction false} NoUsers(t: seq<File>)
    requires forall i | 0 <= i < |t| :: !t[i].used
    ensures UserFiles(t) == []
  {
    if t != [] {
      NoUsers(t[1..]);
    }
  }

  lemma FreeSized(t: seq<File>)
    requires Sized(t)
    ensures Sized(PersistRuns.FreeAll(t))
  {
    forall i | 0 <= i < |t| ensures GoodFile(PersistRuns.FreeAll(t)[i]) {
      ClearedGood(t[i]);
    }
  }

  lemma SeedsFit()
    ensures NoNul(PersistRuns.VERSION_PATH) && NoNul(PersistRuns.TICK_PATH)
    ensures NoNul(PersistRuns.VERSION_TEXT) && 0 < |PersistRuns.VERSION_TEXT| < RAMFS_FILE_SIZE
    ensures NoNul(PersistRuns.TICK_TEXT) && 0 < |PersistRuns.TICK_TEXT| < RAMFS_FILE_SIZE
  {
    assert |PersistRuns.VERSION_TEXT| == 16 && |PersistRuns.TICK_TEXT| == 8;
  }

  lemma LookupNone(t: seq<File>, path: string)
    requires Sized(t) && Lookup(t, path).1.None?
    ensures Lookup(t, path).0 == t
  {
  }

  lemma ClearedGood(f: File)
    requires GoodFile(f)
    ensures GoodFile(f.(used := false))
  {
  }

  lemma SeqAssociates<T>(a: seq<T>, b: seq<T>, c: seq<T>)
    ensures a + (b + c) == a + b + c
  {
  }

  lemma {:induction false} UserFilesConcat(a: seq<File>, b: seq<File>)
    ensures UserFiles(a + b) == UserFiles(a) + UserFiles(b)
  {
    hide IsUser;
    if a == [] {
      assert a + b == b;
    } else {
      assert (a + b)[0] == a[0] && (a + b)[1..] == a[1..] + b;
      UserFilesConcat(a[1..], b);
      var first := if IsUser(a[0]) then [a[0]] else [];
      SeqAssociates(first, UserFiles(a[1..]), UserFiles(b));
    }
  }

  lemma UserFilesGrow(t: seq<File>, i: nat)
    requires i < |t|
    ensures UserFiles(t[..i + 1]) == UserFiles(t[..i]) + if IsUser(t[i]) then [t[i]] else []
  {
    assert t[..i + 1] == t[..i] + [t[i]];
    UserFilesConcat(t[..i], [t[i]]);
  }

  lemma UserFilesPrefix(t: seq<File>, i: nat)
    requires i <= |t|
    ensures UserFiles(t[..i]) <= UserFiles(t)
  {
    assert t == t[..i] + t[i..];
    UserFilesConcat(t[..i], t[i..]);
  }
}
