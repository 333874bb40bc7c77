/**
 The RAM file system (kernel/ramfs.c): a fixed table of 64 slots that behaves as a map from paths to
 contents.  A `char` stands for one byte; a C string is a sequence without '\0'.
 */
module Ramfs {
  import opened Base

  const RAMFS_PATH_MAX := 64
  const RAMFS_FILE_SIZE := 8192
  const RAMFS_MAX_FILES := 64

  /** `struct ramfs_file`: fixed buffers, of which the C string in `path` and `data[..size]` count. */
  datatype File = File(used: bool, path: string, data: string, size: nat)

  // ---------------------------------------------------------------- C strings

  predicate NoNul(s: string) {
    '\0' !in s
  }

  /** The C string at the start of a buffer. */
  function CStr(buf: string): (s: string)
    ensures NoNul(s) && |s| <= |buf| && s == buf[..|s|]
  {
    if buf == [] || buf[0] == '\0' then [] else [buf[0]] + CStr(buf[1..])
  }

  /** `str_copy`: at most cap - 1 characters and a terminator; bytes behind it stay. */
  function StrCopy(dst: string, src: string): (r: string)
    requires |dst| > 0
    ensures |r| == |dst|
  {
    var n := if |src| < |dst| - 1 then |src| else |dst| - 1;
    src[..n] + ['\0'] + dst[n + 1..]
  }

  lemma {:induction false} CStrOf(s: string, rest: string)
    requires NoNul(s) && (rest == [] || rest[0] == '\0')
    ensures CStr(s + rest) == s
  {
    if s == [] {
      assert s + rest == rest;
    } else {
      assert s[0] in s && (s + rest)[1..] == s[1..] + rest;
      assert NoNul(s[1..]) by { assert forall c | c in s[1..] :: c in s; }
      CStrOf(s[1..], rest);
    }
  }

  lemma CStrWhole(s: string)
    requires NoNul(s)
    ensures CStr(s) == s
  {
    CStrOf(s, "");
    assert s + "" == s;
  }

  /** A copied string that fits reads back as itself. */
  lemma CopiedString(dst: string, src: string)
    requires |dst| > 0 && NoNul(src)
    ensures |src| < |dst| ==> CStr(StrCopy(dst, src)) == src
    ensures |CStr(StrCopy(dst, src))| < |dst|
  {
    var n := if |src| < |dst| - 1 then |src| else |dst| - 1;
    var s := src[..n];
    assert NoNul(s) by { assert forall c | c in s :: c in src; }
    assert StrCopy(dst, src) == s + (['\0'] + dst[n + 1..]);
    CStrOf(s, ['\0'] + dst[n + 1..]);
  }

  // ---------------------------------------------------------------- the table

  function Name(f: File): string {
    CStr(f.path)
  }

  predicate GoodFile(f: File) {
    && |f.path| == RAMFS_PATH_MAX && |f.data| == RAMFS_FILE_SIZE && f.size < RAMFS_FILE_SIZE
    && |Name(f)| < RAMFS_PATH_MAX
  }

  function Content(f: File): string {
    if f.size <= |f.data| then f.data[..f.size] else f.data
  }

  predicate Sized(t: seq<File>) {
    |t| == RAMFS_MAX_FILES && forall i | 0 <= i < |t| :: GoodFile(t[i])
  }

  /** No two used slots carry the same path. */
  predicate Unique(t: seq<File>) {
    forall i, j | 0 <= i < j < |t| && t[i].used && t[j].used :: Name(t[i]) != Name(t[j])
  }

  ghost predicate Valid(t: seq<File>) {
    Sized(t) && Unique(t)
  }

  /** The first used slot with this path, from slot i on. */
  function Find(t: seq<File>, path: string, i: nat): Option<nat>
    requires i <= |t|
    decreases |t| - i
  {
    if i == |t| then None
    else if t[i].used && Name(t[i]) == path then Some(i)
    else Find(t, path, i + 1)
  }

  function FindFree(t: seq<File>, i: nat): Option<nat>
    requires i <= |t|
    decreases |t| - i
  {
    if i == |t| then None else if !t[i].used then Some(i) else FindFree(t, i + 1)
  }

  /** `lookup` with `create`: an existing slot, or a free one claimed as an empty file. */
  function Lookup(t: seq<File>, path: string): (seq<File>, Option<nat>)
    requires Sized(t)
  {
    match Find(t, path, 0)
    case Some(i) => (t, Some(i))
    case None =>
      match FindFree(t, 0)
      case None => (t, None)
      case Some(i) =>
        FindFreeFinds(t, 0);
        (t[i := t[i].(used := true, size := 0, path := StrCopy(t[i].path, path))], Some(i))
  }

  lemma FindFinds(t: seq<File>, path: string, i: nat)
    requires i <= |t|
    ensures var r := Find(t, path, i);
            && (r.Some? ==> i <= r.value < |t| && t[r.value].used && Name(t[r.value]) == path)
            && (r.None? ==> forall k | i <= k < |t| :: !(t[k].used && Name(t[k]) == path))
    decreases |t| - i
  {
  }

  lemma FindFreeFinds(t: seq<File>, i: nat)
    requires i <= |t|
    ensures var r := FindFree(t, i);
            && (r.Some? ==> i <= r.value < |t| && !t[r.value].used)
            && (r.None? ==> forall k | i <= k < |t| :: t[k].used)
    decreases |t| - i
  {
  }

  // ---------------------------------------------------------------- operations

  /** `ramfs_put` */
  function Put(t: seq<File>, path: string, data: string): (seq<File>, int)
    requires Sized(t)
  {
    if |data| == 0 || |data| >= RAMFS_FILE_SIZE then (t, EINVAL)
    else
      var (t1, slot) := Lookup(t, path);
      if slot.None? then (t, ENOSPC)
      else
        LookupGood(t, path);
        var f := t1[slot.value];
        (t1[slot.value := f.(data := data + ['\0'] + f.data[|data| + 1..], size := |data|)], 0)
  }

  /** `ramfs_seed`: a content that does not fit is cut; an empty one leaves an empty file. */
  function Seed(t: seq<File>, path: string, content: string): seq<File>
    requires Sized(t)
  {
    var (t1, slot) := Lookup(t, path);
    if slot.None? then t
    else
      LookupGood(t, path);
      var f := t1[slot.value];
      var c := if |content| < RAMFS_FILE_SIZE then content else content[..RAMFS_FILE_SIZE - 1];
      t1[slot.value := f.(data := c + ['\0'] + f.data[|c| + 1..], size := |c|)]
  }

  /** For a content that fits and is not empty it is a put. */
  lemma SeedIsPut(t: seq<File>, path: string, content: string)
    requires Sized(t) && 0 < |content| < RAMFS_FILE_SIZE
    ensures Seed(t, path, content) == Put(t, path, content).0
  {
  }

  /**
   `ramfs_write`: the file is created before the bounds are checked.  `None` when the sum of offset and length
   wraps to a value in bounds: the source then writes outside the file's buffer.
   */
  function Write(t: seq<File>, path: string, offset: nat, data: string): Option<(seq<File>, int)>
    requires Sized(t)
  {
    if |data| == 0 then Some((t, EINVAL))
    else
      var (t1, slot) := Lookup(t, path);
      if slot.None? then Some((t, ENOSPC))
      else if Wrap(offset + |data|) >= RAMFS_FILE_SIZE then Some((t1, EINVAL))
      else if offset + |data| >= TWO_64 then None
      else
        LookupGood(t, path);
        var f := t1[slot.value];
        var end := offset + |data|;
        Some((t1[slot.value := f.(data := f.data[..offset] + data + f.data[end..],
                                  size := if end > f.size then end else f.size)], |data|))
  }

  /** `ramfs_read`: at most `len` bytes from `offset`, or an error code. */
  function Read(t: seq<File>, path: string, offset: nat, len: int): (int, string)
    requires Sized(t)
  {
    if len <= 0 then (EINVAL, "")
    else
      match Find(t, path, 0)
      case None => (ENOENT, "")
      case Some(i) =>
        FindFinds(t, path, 0);
        if offset >= t[i].size then (0, "")
        else
          var n := if offset + len > t[i].size then t[i].size - offset else len;
          (n, t[i].data[offset..offset + n])
  }

  lemma LookupGood(t: seq<File>, path: string)
    requires Sized(t)
    ensures var (t1, slot) := Lookup(t, path);
            |t1| == |t| && (slot.Some? ==> slot.value < |t| && |t1[slot.value].data| == RAMFS_FILE_SIZE)
  {
    FindFinds(t, path, 0);
    FindFreeFinds(t, 0);
  }

  // ---------------------------------------------------------------- the map it stands for

  /** Paths of the used slots from slot i on. */
  function Paths(t: seq<File>): set<string> {
    set i | 0 <= i < |t| && t[i].used :: Name(t[i])
  }

  /** The content of a path, for tables in which it is used. */
  function ContentAt(t: seq<File>, path: string): string {
    match Find(t, path, 0)
    case None => ""
    case Some(i) => FindFinds(t, path, 0); Content(t[i])
  }

  /** The file system as a map from paths to contents. */
  function View(t: seq<File>): map<string, string> {
    map p | p in Paths(t) :: ContentAt(t, p)
  }

  lemma UsedInView(t: seq<File>, i: nat)
    requires Unique(t) && i < |t| && t[i].used
    ensures Name(t[i]) in View(t) && View(t)[Name(t[i])] == Content(t[i])
  {
    FindFinds(t, Name(t[i]), 0);
  }

  lemma InViewUsed(t: seq<File>, p: string) returns (i: nat)
    requires p in View(t)
    ensures i < |t| && t[i].used && Name(t[i]) == p && Find(t, p, 0) == Some(i)
  {
    FindFinds(t, p, 0);
    i := Find(t, p, 0).value;
  }

  lemma FindIsView(t: seq<File>, p: string)
    ensures Find(t, p, 0).Some? <==> p in View(t)
  {
    FindFinds(t, p, 0);
  }

  /** The map does not depend on anything but the used slots' paths and contents. */
  lemma ViewUpdate(t: seq<File>, i: nat, f: File)
    requires Unique(t) && i < |t| && f.used
    requires !t[i].used || Name(f) == Name(t[i])
    requires !t[i].used ==> Name(f) !in View(t)
    ensures Unique(t[i := f]) && View(t[i := f]) == View(t)[Name(f) := Content(f)]
  {
    var t' := t[i := f];
    forall j, k | 0 <= j < k < |t'| && t'[j].used && t'[k].used ensures Name(t'[j]) != Name(t'[k]) {
      if j != i && !t[i].used { UsedInView(t, j); }
      if k != i && !t[i].used { UsedInView(t, k); }
    }
    var m := View(t)[Name(f) := Content(f)];
    forall p ensures p in View(t') <==> p in m {
      if p in View(t') {
        var j := InViewUsed(t', p);
        if j != i { UsedInView(t, j); }
      }
      if p in m {
        if p == Name(f) {
          UsedInView(t', i);
        } else {
          var j := InViewUsed(t, p);
          assert t'[j] == t[j];
          UsedInView(t', j);
        }
      }
    }
    forall p | p in View(t') ensures View(t')[p] == m[p] {
      var j := InViewUsed(t', p);
      UsedInView(t', j);
      if j != i { UsedInView(t, j); }
    }
  }

  // ---------------------------------------------------------------- counting

  function UsedCount(t: seq<File>): nat {
    if t == [] then 0 else (if t[0].used then 1 else 0) + UsedCount(t[1..])
  }

  /** A full table is a map of 64 paths. */
  lemma {:induction false} ViewSize(t: seq<File>)
    requires Unique(t)
    ensures |View(t)| == UsedCount(t)
  {
    if t == [] {
      assert View(t) == map[];
    } else {
      var rest := t[1..];
      assert Unique(rest);
      ViewSize(rest);
      TailView(t);
      if t[0].used {
        assert View(t).Keys == View(rest).Keys + {Name(t[0])};
      } else {
        assert View(t).Keys == View(rest).Keys;
      }
    }
  }

  lemma TailView(t: seq<File>)
    requires Unique(t) && |t| > 0
    ensures forall p :: p in View(t) <==> p in View(t[1..]) || (t[0].used && p == Name(t[0]))
    ensures t[0].used ==> Name(t[0]) !in View(t[1..])
  {
    var rest := t[1..];
    forall p ensures p in View(t) <==> p in View(rest) || (t[0].used && p == Name(t[0])) {
      if p in View(t) {
        var i := InViewUsed(t, p);
        if i > 0 { assert rest[i - 1] == t[i]; UsedInView(rest, i - 1); }
      }
      if p in View(rest) {
        var i := InViewUsed(rest, p);
        assert t[i + 1] == rest[i];
        UsedInView(t, i + 1);
      }
      if t[0].used && p == Name(t[0]) { UsedInView(t, 0); }
    }
    if t[0].used && Name(t[0]) in View(rest) {
      var i := InViewUsed(rest, Name(t[0]));
      assert false;
    }
  }

  lemma {:induction false} CountUsed(t: seq<File>)
    ensures UsedCount(t) <= |t|
    ensures UsedCount(t) == |t| <==> forall i | 0 <= i < |t| :: t[i].used
  {
    if t != [] {
      CountUsed(t[1..]);
      assert forall i | 0 < i < |t| :: t[i] == t[1..][i - 1];
    }
  }

  lemma RoomExactly(t: seq<File>)
    requires Valid(t)
    ensures FindFree(t, 0).Some? <==> |View(t)| < RAMFS_MAX_FILES
    ensures |View(t)| <= RAMFS_MAX_FILES
  {
    ViewSize(t);
    CountUsed(t);
    FindFreeFinds(t, 0);
  }

  // ---------------------------------------------------------------- refinement

  /**
   `lookup` with `create` on a path that fits: the map gains the path as an empty file, unless it is
   there already or the table is full.
   */
  lemma LookupRefines(t: seq<File>, path: string)
    requires Valid(t) && NoNul(path) && |path| < RAMFS_PATH_MAX
    ensures var (t1, slot) := Lookup(t, path);
            && Valid(t1)
            && (slot.Some? <==> path in View(t) || |View(t)| < RAMFS_MAX_FILES)
            && (slot.Some? ==> slot.value < |t1| && t1[slot.value].used && Name(t1[slot.value]) == path)
            && View(t1) == (if path in View(t) || slot.None? then View(t) else View(t)[path := ""])
            && (slot.Some? && path !in View(t) ==> t1[slot.value].size == 0)
  {
    hide View, UsedCount;
    FindFinds(t, path, 0);
    FindIsView(t, path);
    RoomExactly(t);
    FindFreeFinds(t, 0);
    if Find(t, path, 0).None? && FindFree(t, 0).Some? {
      var i := FindFree(t, 0).value;
      CopiedString(t[i].path, path);
      ViewUpdate(t, i, t[i].(used := true, size := 0, path := StrCopy(t[i].path, path)));
    }
  }

  /** `ramfs_put` refines one update of the map, and its return code says exactly when. */
  lemma PutRefines(t: seq<File>, path: string, data: string)
    requires Valid(t) && NoNul(path) && |path| < RAMFS_PATH_MAX
    ensures var (t', rc) := Put(t, path, data);
            && Valid(t')
            && View(t') == (if rc == 0 then View(t)[path := data] else View(t))
            && rc == (if |data| == 0 || |data| >= RAMFS_FILE_SIZE then EINVAL
                      else if path in View(t) || |View(t)| < RAMFS_MAX_FILES then 0 else ENOSPC)
  {
    hide View, Find, FindFree;
    LookupRefines(t, path);
    if 0 < |data| < RAMFS_FILE_SIZE {
      LookupGood(t, path);
      var (t1, slot) := Lookup(t, path);
      if slot.Some? {
        var f := t1[slot.value];
        var g := f.(data := data + ['\0'] + f.data[|data| + 1..], size := |data|);
        assert Content(g) == data;
        ViewUpdate(t1, slot.value, g);
        assert GoodFile(t1[slot.value]);
      }
    }
  }

  /**
   `ramfs_write` on a path that fits, for offsets of 64 bits and lengths of 31.  Success overlays the data; the gap
   behind a shorter old content is whatever the slot's buffer held.  A write beyond the file size limit fails but
   leaves the path behind as an empty file if it was absent.  There is no defined result exactly when the end wraps
   to less than the limit.
   */
  lemma WriteRefines(t: seq<File>, path: string, offset: nat, data: string)
    requires Valid(t) && NoNul(path) && |path| < RAMFS_PATH_MAX && offset < TWO_64 && |data| < 0x8000_0000
    ensures var room := path in View(t) || |View(t)| < RAMFS_MAX_FILES;
            Write(t, path, offset, data).None? <==>
            |data| > 0 && room && TWO_64 <= offset + |data| < TWO_64 + RAMFS_FILE_SIZE
    ensures Write(t, path, offset, data).Some? ==>
            var (t', rc) := Write(t, path, offset, data).value;
            var old_ := if path in View(t) then View(t)[path] else "";
            var room := path in View(t) || |View(t)| < RAMFS_MAX_FILES;
            && Valid(t')
            && rc == (if |data| == 0 then EINVAL else if !room then ENOSPC
                      else if offset + |data| >= RAMFS_FILE_SIZE then EINVAL else |data|)
            && (|data| == 0 || !room ==> View(t') == View(t))
            && (|data| > 0 && room && rc < 0 ==> View(t') == View(t)[path := old_])
            && (rc > 0 ==>
                  && path in View(t')
                  && View(t') == View(t)[path := View(t')[path]]
                  && var now := View(t')[path];
                  && |now| == (if offset + |data| > |old_| then offset + |data| else |old_|)
                  && now[offset..offset + |data|] == data
                  && (forall k | 0 <= k < |old_| && !(offset <= k < offset + |data|) :: now[k] == old_[k]))
  {
    hide View, Find, FindFree;
    LookupRefines(t, path);
    if |data| > 0 {
      LookupGood(t, path);
      var (t1, slot) := Lookup(t, path);
      if slot.Some? && offset + |data| < RAMFS_FILE_SIZE {
        var f := t1[slot.value];
        assert GoodFile(f);
        var end := offset + |data|;
        var g := f.(data := f.data[..offset] + data + f.data[end..], size := if end > f.size then end else f.size);
        ViewUpdate(t1, slot.value, g);
        UsedInView(t1, slot.value);
        OverlayContent(f, g, offset, data);
      }
    }
  }

  lemma OverlayContent(f: File, g: File, offset: nat, data: string)
    requires GoodFile(f) && offset + |data| < RAMFS_FILE_SIZE
    requires g == f.(data := f.data[..offset] + data + f.data[offset + |data|..],
                     size := if offset + |data| > f.size then offset + |data| else f.size)
    ensures GoodFile(g)
    ensures Content(g)[offset..offset + |data|] == data
    ensures forall k | 0 <= k < f.size && !(offset <= k < offset + |data|) :: Content(g)[k] == Content(f)[k]
  {
    hide CStr;
    var end := offset + |data|;
    assert |g.data| == |f.data| && end <= g.size;
    assert g.data[offset..end] == data;
    assert Content(g)[offset..end] == g.data[offset..end];
    forall k | 0 <= k < f.size && !(offset <= k < end) ensures Content(g)[k] == Content(f)[k] {
      assert g.data[k] == f.data[k];
    }
  }

  /** `ramfs_read` reads the map. */
  lemma ReadRefines(t: seq<File>, path: string, offset: nat, len: int)
    requires Valid(t)
    ensures Read(t, path, offset, len) ==
            if len <= 0 then (EINVAL, "")
            else if path !in View(t) then (ENOENT, "")
            else if offset >= |View(t)[path]| then (0, "")
            else
              var n := if offset + len > |View(t)[path]| then |View(t)[path]| - offset else len;
              (n, View(t)[path][offset..offset + n])
  {
    FindIsView(t, path);
    if Find(t, path, 0).Some? {
      FindFinds(t, path, 0);
      UsedInView(t, Find(t, path, 0).value);
      var f := t[Find(t, path, 0).value];
      assert GoodFile(f);
      if len > 0 && offset < f.size {
        var n := if offset + len > f.size then f.size - offset else len;
        assert f.data[..f.size][offset..offset + n] == f.data[offset..offset + n];
      }
    }
  }

  /**
   The limit on the path is exact: a path that does not fit is stored cut short and never found again,
   so putting it twice leaves two slots with one name.
   */
  lemma LongPathDuplicates(t: seq<File>, path: string, data: string)
    requires Valid(t) && NoNul(path) && |path| >= RAMFS_PATH_MAX
    ensures Find(t, path, 0).None?
    ensures var (t1, rc1) := Put(t, path, data);
            Sized(t1) && var (t2, rc2) := Put(t1, path, data);
            rc1 == 0 && rc2 == 0 ==> !Unique(t2)
  {
    LongPathPut(t, path, data);
    var (t1, rc1) := Put(t, path, data);
    LongPathPut(t1, path, data);
    if rc1 == 0 && Put(t1, path, data).1 == 0 {
      var i, j := FindFree(t, 0).value, FindFree(t1, 0).value;
      var t2 := Put(t1, path, data).0;
      assert t2[i].used && t2[j].used && Name(t2[i]) == Name(t2[j]) && i != j;
    }
  }

  lemma LongPathPut(t: seq<File>, path: string, data: string)
    requires Sized(t) && NoNul(path) && |path| >= RAMFS_PATH_MAX
    ensures Find(t, path, 0).None?
    ensures var (t', rc) := Put(t, path, data);
            && Sized(t')
            && (rc == 0 ==>
                  && FindFree(t, 0).Some? && FindFree(t, 0).value < |t|
                  && var i := FindFree(t, 0).value;
                  && !t[i].used && t'[i].used && Name(t'[i]) == path[..RAMFS_PATH_MAX - 1]
                  && forall k | 0 <= k < |t| && k != i :: t'[k] == t[k])
  {
    FindFinds(t, path, 0);
    FindFreeFinds(t, 0);
    if FindFree(t, 0).Some? {
      var i := FindFree(t, 0).value;
      assert GoodFile(t[i]);
      var cut := path[..RAMFS_PATH_MAX - 1];
      assert NoNul(cut) by { assert forall c | c in cut :: c in path; }
      assert StrCopy(t[i].path, path) == cut + (['\0'] + t[i].path[RAMFS_PATH_MAX..]);
      CStrOf(cut, ['\0'] + t[i].path[RAMFS_PATH_MAX..]);
    }
  }

  // ---------------------------------------------------------------- user files

  /** `is_sys_path`, on the buffer as the code reads it. */
  predicate IsSys(path: string)
    requires |path| >= 4
  {
    path[1] == 's' && path[2] == 'y' && path[3] == 's'
  }

  predicate IsUser(f: File) {
    f.used && !(|f.path| >= 4 && IsSys(f.path))
  }

  predicate SysName(name: string) {
    |name| >= 4 && name[1..4] == "sys"
  }

  /** For a nonempty path the test looks at the path alone, not at stale bytes behind it. */
  lemma IsSysByName(f: File)
    requires GoodFile(f) && Name(f) != ""
    ensures IsSys(f.path) <==> SysName(Name(f))
  {
    var n := |Name(f)|;
    assert Name(f) == f.path[..n] && f.path[n] == '\0' by { CStrEnds(f.path); }
  }

  lemma {:induction false} CStrEnds(buf: string)
    ensures |CStr(buf)| < |buf| ==> buf[|CStr(buf)|] == '\0'
  {
    if buf != [] && buf[0] != '\0' {
      CStrEnds(buf[1..]);
    }
  }

  /** `ramfs_clear_user` */
  function ClearUser(t: seq<File>): (r: seq<File>)
    ensures |r| == |t|
  {
    if t == [] then [] else [if IsUser(t[0]) then t[0].(used := false) else t[0]] + ClearUser(t[1..])
  }

  /** The user files in slot order, as `ramfs_user_get` hands them out. */
  function UserFiles(t: seq<File>): seq<File> {
    if t == [] then [] else (if IsUser(t[0]) then [t[0]] else []) + UserFiles(t[1..])
  }
}
