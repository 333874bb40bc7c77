/** kernel/catalog.c as the code runs it: scanners over text buffers and updates of the file table. */
module CatalogMachine {
  import opened Base
  import opened Decimal
  import opened Files
  import opened FilesMachine
  import opened RamfsMachine
  import opened Catalog
  import Ramfs

  // ---------------------------------------------------------------- scanners

  lemma FieldAt(line: string, walk: nat, k: nat)
    requires walk < |line|
    ensures line[walk] != '|' ==> (k > 0 ==> Field(line[walk..], k) == Field(line[walk + 1..], k))
    ensures line[walk] == '|' && k > 0 ==> Field(line[walk..], k) == Field(line[walk + 1..], k - 1)
  {
    var s := line[walk..];
    assert s[0] == line[walk] && s[1..] == line[walk + 1..];
    var i := IndexOf(s[1..], '|');
    if line[walk] != '|' && i < |s[1..]| {
      assert s[i + 2..] == s[1..][i + 1..];
    }
  }

  /** `split_field` */
  method SplitFieldInto(line: string, k: nat, buf: string, cap: nat) returns (ok: bool, out: string)
    requires Ramfs.NoNul(line) && cap > 1
    ensures (ok, out) == SplitField(line, k, buf, cap)
  {
    hide Field;
    var idx, walk := 0, 0;
    assert line[0..] == line;
    while walk < |line| && idx < k
      invariant walk <= |line| && idx <= k
      invariant Field(line, k) == Field(line[walk..], k - idx)
    {
      FieldAt(line, walk, k - idx);
      if line[walk] == '|' {
        idx := idx + 1;
      }
      walk := walk + 1;
    }
    if idx != k {
      NoMoreFields(line[walk..], k - idx);
      return false, buf;
    }
    FirstField(line[walk..]);
    ok, out := CopyField(line[walk..], cap);
  }

  lemma NoMoreFields(s: string, k: nat)
    requires s == "" && k > 0
    ensures Field(s, k) == None
  {
  }

  lemma FirstField(s: string)
    ensures Field(s, 0) == Some(s[..IndexOf(s, '|')])
  {
  }

  /** The copy up to the next bar, as far as the buffer goes. */
  method CopyField(s: string, cap: nat) returns (ok: bool, out: string)
    requires cap > 1
    ensures var f := s[..IndexOf(s, '|')]; out == CutTo(f, cap) && ok == (f != "")
  {
    out := "";
    ghost var end := IndexOf(s, '|');
    while |out| < |s| && s[|out|] != '|' && |out| < cap - 1
      invariant |out| <= end && |out| < cap && out == s[..|out|]
    {
      out := out + [s[|out|]];
    }
    assert |out| == end || |out| == cap - 1;
    assert s[..end][..|out|] == out;
    ok := |out| > 0;
  }

  /** `parse_version` */
  method ScanVersion(s: string) returns (v: Option<Version>)
    ensures v == ParseVersion(s, 0, Version(0, 0, 0))
  {
    hide AddDigit;
    var part, i, acc := 0, 0, Version(0, 0, 0);
    assert s[0..] == s;
    while i < |s|
      invariant i <= |s| && ParseVersion(s, 0, Version(0, 0, 0)) == ParseVersion(s[i..], part, acc)
    {
      assert s[i..][0] == s[i] && s[i..][1..] == s[i + 1..];
      if IsDigit(s[i]) {
        acc := AddDigit(acc, part, s[i]);
      } else if s[i] == '.' {
        if part + 1 > 2 {
          return None;
        }
        part := part + 1;
      } else {
        break;
      }
      i := i + 1;
    }
    v := Some(acc);
  }

  /** `version_ge` */
  method CompareVersions(a: string, b: string) returns (ge: bool)
    ensures ge == VersionGe(a, b)
  {
    var x := ScanVersion(a);
    if x.None? {
      return false;
    }
    var y := ScanVersion(b);
    if y.None? {
      return true;
    }
    ge := Ge(x.value, y.value);
  }

  // ---------------------------------------------------------------- lines

  /** One line of the scan. */
  lemma LineOfStep(text: string, i: nat, j: nat, name: string)
    requires i < |text| && i <= j <= |text| && IndexOf(text[i..], '\n') == j - i
    ensures LineOf(text[i..], name) ==
            if Matches(Ramfs.CStr(text[i..j]), name) then Some(Ramfs.CStr(text[i..j]))
            else if j == |text| then None else LineOf(text[j + 1..], name)
  {
    hide Matches, IndexOf, Ramfs.CStr;
    assert text[i..][..j - i] == text[i..j];
    if j < |text| {
      assert text[i..][j - i + 1..] == text[j + 1..];
    }
  }

  /** The loop over lines in `catalog_find_entry`, `catalog_active_line` and `catalog_read_rollback`. */
  method FindLine(text: string, name: string) returns (found: Option<string>)
    requires Ramfs.NoNul(name)
    ensures found == LineOf(text, name)
  {
    hide Matches, LineOf, IndexOf, Ramfs.CStr;
    var i := 0;
    assert text[0..] == text;
    EmptyHasNoLine(name);
    while i < |text|
      invariant LineOf(text, name) == if i <= |text| then LineOf(text[i..], name) else None
      decreases |text| - i
    {
      var j := LineEnd(text, i);
      LineOfStep(text, i, j, name);
      var line := Ramfs.CStr(text[i..j]);
      var hit := LineMatches(line, name);
      if hit {
        return Some(line);
      }
      i := j + 1;
    }
    assert i == |text| ==> text[i..] == "";
    found := None;
  }

  method LineEnd(text: string, i: nat) returns (j: nat)
    requires i <= |text|
    ensures i <= j <= |text| && IndexOf(text[i..], '\n') == j - i
  {
    j := i;
    ghost var end := IndexOf(text[i..], '\n');
    while j < |text| && text[j] != '\n'
      invariant i <= j <= i + end
    {
      assert text[j] == text[i..][j - i];
      j := j + 1;
    }
  }

  method LineMatches(line: string, name: string) returns (hit: bool)
    requires Ramfs.NoNul(line) && Ramfs.NoNul(name)
    ensures hit == Matches(line, name)
  {
    hide Field;
    var ok, entry := SplitFieldInto(line, 0, "", NAME_CAP);
    hit := ok;
    if ok {
      assert Ramfs.NoNul(entry) by { FieldNoNul(line, 0); }
      Ramfs.CStrWhole(entry);
      Ramfs.CStrWhole(name);
      hit := StrEq(entry, name);
    }
  }

  lemma {:induction false} FieldNoNul(line: string, k: nat)
    requires Ramfs.NoNul(line) && Field(line, k).Some?
    ensures Ramfs.NoNul(Field(line, k).value)
    ensures forall cap | cap > 0 :: Ramfs.NoNul(CutTo(Field(line, k).value, cap))
    decreases k
  {
    var i := IndexOf(line, '|');
    if k == 0 {
      assert forall c | c in line[..i] :: c in line;
    } else {
      assert forall c | c in line[i + 1..] :: c in line;
      FieldNoNul(line[i + 1..], k - 1);
    }
    var f := Field(line, k).value;
    forall cap | cap > 0 ensures Ramfs.NoNul(CutTo(f, cap)) {
      assert forall c | c in CutTo(f, cap) :: c in f;
    }
  }

  /** A buffer that was split into holds a string that fits it. */
  lemma SplitFits(line: string, k: nat, buf: string, cap: nat)
    requires Ramfs.NoNul(line) && cap > 1 && Ramfs.NoNul(buf) && |buf| < cap
    ensures var s := SplitField(line, k, buf, cap).1; Ramfs.NoNul(s) && |s| < cap
  {
    hide Field;
    if Field(line, k).Some? {
      FieldNoNul(line, k);
    }
  }

  // ---------------------------------------------------------------- files

  /** `catalog_read_file` into a buffer of the file size, which no file fills. */
  method ReadTextFile(fs: FileTable, path: string) returns (len: int, text: string)
    requires Good(fs) && Ramfs.NoNul(path)
    ensures (len, text) == ReadText(Map(fs), path)
  {
    hide Ramfs.View;
    var size := ProbeSize(fs, path);
    if size < 0 {
      return size, "";
    }
    var n, buf := Fetch(fs, path, size);
    if n != size {
      return EIO, "";
    }
    assert buf == Map(fs)[path];
    len, text := n, buf;
  }

  /** `catalog_copy_file` */
  method CopyFileTo(fs: FileTable, src: string, dst: string) returns (rc: int)
    requires Good(fs) && Ramfs.NoNul(src) && Ramfs.NoNul(dst) && |dst| < Ramfs.RAMFS_PATH_MAX
    modifies fs.files
    ensures Good(fs) && (Map(fs), rc) == CopyFile(old(Map(fs)), src, dst)
  {
    hide Ramfs.View;
    var size := ProbeSize(fs, src);
    if size < 0 {
      return size;
    }
    var n, buf := Fetch(fs, src, size);
    if n != size {
      return EIO;
    }
    assert buf == Map(fs)[src];
    var put := Store(fs, dst, buf);
    rc := if put != 0 then ENOSPC else 0;
  }

  /** The copying loops of `catalog_set_active`: they stop before the end of the line buffer. */
  method AppendText(line: string, s: string) returns (out: string)
    requires |line| + |s| < LINE_CAP
    ensures out == line + s
  {
    out := line;
    var i := 0;
    while i < |s| && |out| < LINE_CAP - 1
      invariant i <= |s| && out == line + s[..i]
    {
      out := out + [s[i]];
      i := i + 1;
    }
    assert s[..|s|] == s;
  }

  /** `catalog_set_active` and `catalog_set_rollback`; strings from the catalog's buffers always fit the line. */
  method WriteRecord(fs: FileTable, file: string, name: string, version: string, path: string) returns (rc: int)
    requires Good(fs) && Ramfs.NoNul(file) && |file| < Ramfs.RAMFS_PATH_MAX
    requires |name| < NAME_CAP && |version| < VERSION_CAP && |path| < BACKUP_CAP
    modifies fs.files
    ensures Good(fs) && (Map(fs), rc) == SetRecord(old(Map(fs)), file, name, version, path)
  {
    hide Ramfs.View;
    var line := AppendText("", name);
    line := line + ['|'];
    line := AppendText(line, version);
    line := line + ['|'];
    line := AppendText(line, path);
    assert line == Record(name, version, path);
    var put := Store(fs, file, line);
    rc := if put != 0 then ENOSPC else 0;
  }

  lemma FilePaths()
    ensures Ramfs.NoNul(INDEX) && Ramfs.NoNul(ACTIVE) && Ramfs.NoNul(ROLLBACK)
    ensures |INDEX| < Ramfs.RAMFS_PATH_MAX && |ACTIVE| < Ramfs.RAMFS_PATH_MAX && |ROLLBACK| < Ramfs.RAMFS_PATH_MAX
  {
    assert |INDEX| == 22 && |ACTIVE| == 23 && |ROLLBACK| == 25;
  }

  /** `catalog_active_line` with `catalog_active_version` or `catalog_active_install` on top. */
  method LookUpActive(fs: FileTable, name: string, k: nat, buf: string, cap: nat) returns (rc: int, out: string)
    requires Good(fs) && Ramfs.NoNul(name) && cap > 1 && Ramfs.NoNul(buf) && |buf| < cap
    ensures (rc, out) == ActiveField(Map(fs), name, k, buf, cap)
    ensures Ramfs.NoNul(out) && |out| < cap
  {
    hide Ramfs.View, LineOf, SplitField, ReadText;
    FilePaths();
    var len, text := ReadTextFile(fs, ACTIVE);
    if len < 0 {
      ReadCodes(Map(fs), ACTIVE);
      return ENOENT, buf;
    }
    var found := FindLine(text, name);
    if found.None? {
      return ENOENT, buf;
    }
    LineOfClean(text, name);
    var line := CutTo(found.value, LINE_CAP);
    assert Ramfs.NoNul(line) by { assert forall c | c in line :: c in found.value; }
    SplitFits(line, k, buf, cap);
    var ok, s := SplitFieldInto(line, k, buf, cap);
    rc, out := if ok then 0 else ENOENT, s;
  }

  lemma ReadCodes(m: Fs, path: string)
    ensures ReadText(m, path).0 != 0
  {
  }

  /** `catalog_read_rollback` */
  method ReadRollbackPoint(fs: FileTable, name: string, version: string, backup: string)
    returns (rc: int, prev: string, saved: string)
    requires Good(fs) && Ramfs.NoNul(name)
    requires Ramfs.NoNul(version) && |version| < VERSION_CAP && Ramfs.NoNul(backup) && |backup| < BACKUP_CAP
    ensures (rc, prev, saved) == ReadRollback(Map(fs), name, version, backup)
    ensures Ramfs.NoNul(prev) && |prev| < VERSION_CAP && Ramfs.NoNul(saved) && |saved| < BACKUP_CAP
  {
    hide Ramfs.View, LineOf, SplitField, ReadText;
    FilePaths();
    var len, text := ReadTextFile(fs, ROLLBACK);
    if len < 0 {
      return len, version, backup;
    }
    var found := FindLine(text, name);
    if found.None? {
      return ENOENT, version, backup;
    }
    LineOfClean(text, name);
    SplitFits(found.value, 1, version, VERSION_CAP);
    SplitFits(found.value, 2, backup, BACKUP_CAP);
    var _, v := SplitFieldInto(found.value, 1, version, VERSION_CAP);
    var _, b := SplitFieldInto(found.value, 2, backup, BACKUP_CAP);
    rc, prev, saved := 0, v, b;
  }

  /** Every buffer of an entry holds a string that fits it. */
  predicate EntryFits(e: Entry) {
    && Ramfs.NoNul(e.version) && |e.version| < VERSION_CAP && Ramfs.NoNul(e.pkg) && |e.pkg| < PATH_CAP
    && Ramfs.NoNul(e.install) && |e.install| < PATH_CAP && Ramfs.NoNul(e.minVersion) && |e.minVersion| < VERSION_CAP
  }

  /** `catalog_find_entry` */
  method LookUpEntry(fs: FileTable, name: string, junk: Entry) returns (rc: int, e: Entry)
    requires Good(fs) && Ramfs.NoNul(name) && EntryFits(junk)
    ensures (rc, e) == FindEntry(Map(fs), name, junk) && EntryFits(e)
  {
    hide Ramfs.View, LineOf, SplitField, ReadText;
    FilePaths();
    var len, text := ReadTextFile(fs, INDEX);
    if len < 0 {
      return len, junk;
    }
    var found := FindLine(text, name);
    if found.None? {
      return ENOENT, junk;
    }
    var line := found.value;
    LineOfClean(text, name);
    SplitFits(line, 1, junk.version, VERSION_CAP);
    SplitFits(line, 2, junk.pkg, PATH_CAP);
    SplitFits(line, 3, junk.install, PATH_CAP);
    SplitFits(line, 5, junk.minVersion, VERSION_CAP);
    var _, version := SplitFieldInto(line, 1, junk.version, VERSION_CAP);
    var _, pkg := SplitFieldInto(line, 2, junk.pkg, PATH_CAP);
    var _, install := SplitFieldInto(line, 3, junk.install, PATH_CAP);
    var _, minVersion := SplitFieldInto(line, 5, junk.minVersion, VERSION_CAP);
    rc, e := 0, Entry(version, pkg, install, minVersion);
  }

  // ---------------------------------------------------------------- install and rollback

  method CheckVersion(fs: FileTable, name: string, minVersion: string, buf: string) returns (ok: bool)
    requires Good(fs) && Ramfs.NoNul(name) && Ramfs.NoNul(buf) && |buf| < VERSION_CAP
    ensures ok == VersionAllowed(Map(fs), name, minVersion, buf)
  {
    hide Ramfs.View, ActiveField, VersionGe;
    var rc, cur := LookUpActive(fs, name, 1, buf, VERSION_CAP);
    if rc == 0 {
      ok := CompareVersions(cur, minVersion);
    } else {
      ok := minVersion != "" && minVersion[0] == '0';
    }
  }

  /** The part of `catalog_install` that keeps the installed file. */
  method KeepBackup(fs: FileTable, name: string, install: string, buf: string) returns (rc: int)
    requires Good(fs) && Ramfs.NoNul(name) && |name| < NAME_CAP && Ramfs.NoNul(buf) && |buf| < VERSION_CAP
    requires Ramfs.NoNul(install) && |install| < PATH_CAP
    modifies fs.files
    ensures Good(fs) && (Map(fs), rc) == MakeBackup(old(Map(fs)), name, install, buf)
  {
    hide Ramfs.View, ActiveField, SetRecord, CopyFile;
    FilePaths();
    var backup := install + ".prev";
    assert |".prev"| == 5 && Ramfs.NoNul(".prev");
    assert Ramfs.NoNul(backup) && backup == BackupOf(install);
    var size := ProbeSize(fs, install);
    if size <= 0 {
      return 0;
    }
    var rc1, cur := LookUpActive(fs, name, 1, buf, VERSION_CAP);
    if rc1 == 0 {
      rc := WriteRecord(fs, ROLLBACK, name, cur, backup);
      if rc != 0 {
        return;
      }
    }
    rc := CopyFileTo(fs, install, backup);
  }

  /** `ota_apply_package_kpath` for a package already parsed. */
  method ApplyPackage(fs: FileTable, pkg: Package) returns (rc: int)
    requires Good(fs) && Ramfs.NoNul(pkg.path) && |pkg.path| < Ramfs.RAMFS_PATH_MAX
    modifies fs.files
    ensures Good(fs) && (Map(fs), rc) == Apply(old(Map(fs)), pkg)
  {
    hide Ramfs.View;
    if pkg.parsed != 0 {
      return pkg.parsed;
    }
    var put := Store(fs, pkg.path, pkg.elf);
    rc := if put != 0 then ENOSPC else 0;
  }

  /** `catalog_install` */
  method InstallPackage(fs: FileTable, name: string, pkg: Package, junk: Entry, buf: string) returns (rc: int)
    requires Good(fs) && Ramfs.NoNul(name) && |name| < NAME_CAP && Ramfs.NoNul(buf) && |buf| < VERSION_CAP
    requires EntryFits(junk) && Ramfs.NoNul(pkg.path) && |pkg.path| < Ramfs.RAMFS_PATH_MAX
    modifies fs.files
    ensures Good(fs) && (Map(fs), rc) == Install(old(Map(fs)), name, pkg, junk, buf)
  {
    hide Ramfs.View, FindEntry, VersionAllowed, MakeBackup, Apply, SetRecord;
    FilePaths();
    var rc1, e := LookUpEntry(fs, name, junk);
    if rc1 != 0 {
      return rc1;
    }
    var ok := CheckVersion(fs, name, e.minVersion, buf);
    if !ok {
      return EPERM;
    }
    if pkg.verified != 0 {
      return pkg.verified;
    }
    rc := KeepBackup(fs, name, e.install, buf);
    if rc != 0 {
      return;
    }
    rc := ApplyPackage(fs, pkg);
    if rc != 0 {
      return;
    }
    rc := WriteRecord(fs, ACTIVE, name, e.version, e.install);
  }

  /** `catalog_rollback` */
  method RollbackPackage(fs: FileTable, name: string, version: string, backup: string, install: string)
    returns (rc: int)
    requires Good(fs) && Ramfs.NoNul(name) && |name| < NAME_CAP && Ramfs.NoNul(install) && |install| < BACKUP_CAP
    requires Ramfs.NoNul(version) && |version| < VERSION_CAP && Ramfs.NoNul(backup) && |backup| < BACKUP_CAP
    modifies fs.files
    ensures Good(fs) && (Map(fs), rc) == Rollback(old(Map(fs)), name, version, backup, install)
  {
    hide Ramfs.View, ReadRollback, ActiveField, CopyFile, SetRecord;
    FilePaths();
    var rc1, prev, saved := ReadRollbackPoint(fs, name, version, backup);
    if rc1 != 0 {
      return rc1;
    }
    var size := ProbeSize(fs, saved);
    if size <= 0 {
      return ENOENT;
    }
    var rc2, target := LookUpActive(fs, name, 2, install, BACKUP_CAP);
    if rc2 != 0 {
      target := saved;
    }
    rc := CopyFileTo(fs, saved, target);
    if rc != 0 {
      return;
    }
    rc := WriteRecord(fs, ACTIVE, name, prev, target);
    if rc != 0 {
      return;
    }
    var _ := Store(fs, ROLLBACK, "");
  }
}
