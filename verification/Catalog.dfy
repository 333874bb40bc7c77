/**
 The package catalog (kernel/catalog.c): text records in three files, installation with a backup, and
 rollback.  Buffers are given by the C string they hold; one that the code never initialised holds a
 string the caller supplies.
 */
module Catalog {
  import opened Base
  import opened Decimal
  import opened Files
  import opened Ramfs

  const INDEX := "/agent/1/catalog/index"
  const ACTIVE := "/agent/1/catalog/active"
  const ROLLBACK := "/agent/1/catalog/rollback"
  const NAME_CAP := 32
  const VERSION_CAP := 16
  const PATH_CAP := 48
  const LINE_CAP := 128
  const BACKUP_CAP := 64

  // ---------------------------------------------------------------- fields

  function IndexOf(s: string, c: char): (i: nat)
    ensures i <= |s| && c !in s[..i] && (i < |s| ==> s[i] == c)
  {
    if s == [] || s[0] == c then 0
    else
      var i := IndexOf(s[1..], c);
      assert s[..i + 1] == [s[0]] + s[1..][..i];
      i + 1
  }

  /** The k-th of the fields that '|' separates. */
  function Field(line: string, k: nat): Option<string>
    decreases k
  {
    var i := IndexOf(line, '|');
    if k == 0 then Some(line[..i]) else if i == |line| then None else Field(line[i + 1..], k - 1)
  }

  function CutTo(s: string, cap: nat): (r: string)
    requires cap > 0
    ensures |r| < cap && r <= s && (|s| < cap ==> r == s)
  {
    if |s| < cap then s else s[..cap - 1]
  }

  /** `split_field`: a missing field leaves the buffer as it was. */
  function SplitField(line: string, k: nat, buf: string, cap: nat): (bool, string)
    requires cap > 1
  {
    match Field(line, k)
    case None => (false, buf)
    case Some(f) => (f != "", CutTo(f, cap))
  }

  /** What a record may contain without breaking its line or its fields. */
  predicate Plain(s: string) {
    '|' !in s && '\n' !in s && '\0' !in s
  }

  lemma PlainParts(a: string, b: string)
    requires Plain(a) && Plain(b)
    ensures Plain(a + b)
  {
  }

  lemma {:induction false} IndexFound(a: string, c: char, rest: string)
    requires c !in a
    ensures IndexOf(a + [c] + rest, c) == |a| && IndexOf(a, c) == |a|
  {
    if a != [] {
      assert a[0] in a && (a + [c] + rest)[1..] == a[1..] + [c] + rest;
      assert forall x | x in a[1..] :: x in a;
      IndexFound(a[1..], c, rest);
    }
  }

  /** A field is plain when its line has no newline. */
  lemma {:induction false} FieldPlain(line: string, k: nat)
    requires '\n' !in line && '\0' !in line && Field(line, k).Some?
    ensures Plain(Field(line, k).value)
    decreases k
  {
    var i := IndexOf(line, '|');
    if k == 0 {
      assert forall c | c in line[..i] :: c in line;
    } else {
      assert forall c | c in line[i + 1..] :: c in line;
      FieldPlain(line[i + 1..], k - 1);
    }
  }

  lemma {:induction false} EarlierFields(line: string, k: nat, j: nat)
    requires Field(line, k).Some? && j <= k
    ensures Field(line, j).Some?
    decreases k
  {
    if j > 0 {
      EarlierFields(line[IndexOf(line, '|') + 1..], k - 1, j - 1);
    }
  }

  // ---------------------------------------------------------------- records

  /** The line `catalog_set_active` and `catalog_set_rollback` write. */
  function Record(name: string, version: string, path: string): string {
    name + ['|'] + (version + ['|'] + path)
  }

  lemma RecordExample()
    ensures Record("p", "1.0.2", "/bin/p") == "p|1.0.2|/bin/p"
  {
  }

  /** A record of plain parts gives its parts back. */
  lemma RecordReadsBack(name: string, version: string, path: string)
    requires Plain(name) && Plain(version) && Plain(path)
    ensures var r := Record(name, version, path);
            && '\n' !in r && '\0' !in r && r != ""
            && Field(r, 0) == Some(name) && Field(r, 1) == Some(version) && Field(r, 2) == Some(path)
  {
    hide IndexOf;
    var rest := version + ['|'] + path;
    var r := Record(name, version, path);
    IndexFound(name, '|', rest);
    IndexFound(version, '|', path);
    IndexFound(path, '|', "");
    assert r[..|name|] == name && r[|name| + 1..] == rest;
    assert rest[..|version|] == version && rest[|version| + 1..] == path;
    assert path[..|path|] == path;
    FieldTwo(name, version, path);
  }

  lemma FieldTwo(name: string, version: string, path: string)
    requires Plain(name) && Plain(version) && Plain(path)
    ensures Field(Record(name, version, path), 1) == Some(version)
    ensures Field(Record(name, version, path), 2) == Some(path)
  {
    hide IndexOf;
    var rest := version + ['|'] + path;
    IndexFound(name, '|', rest);
    IndexFound(version, '|', path);
    IndexFound(path, '|', "");
    assert Record(name, version, path)[|name| + 1..] == rest;
    assert rest[..|version|] == version && rest[|version| + 1..] == path;
    assert path[..|path|] == path;
    assert Field(path, 0) == Some(path);
    assert Field(rest, 0) == Some(version) && Field(rest, 1) == Field(path, 0);
  }

  // ---------------------------------------------------------------- lines

  predicate Matches(line: string, name: string) {
    SplitField(line, 0, "", NAME_CAP) == (true, name)
  }

  /** The first line of a text whose first field is the name. */
  function LineOf(text: string, name: string): Option<string>
    decreases |text|
  {
    if text == "" then None
    else
      var j := IndexOf(text, '\n');
      var line := CStr(text[..j]);
      if Matches(line, name) then Some(line) else if j == |text| then None else LineOf(text[j + 1..], name)
  }

  lemma EmptyHasNoLine(name: string)
    ensures LineOf("", name) == None
  {
  }

  lemma LineOfSingle(text: string, name: string)
    requires text != "" && '\n' !in text && '\0' !in text
    ensures LineOf(text, name) == if Matches(text, name) then Some(text) else None
  {
    hide Matches;
    IndexFound(text, '\n', "");
    CStrWhole(text);
    assert text[..|text|] == text;
  }

  lemma {:induction false} LineOfClean(text: string, name: string)
    requires LineOf(text, name).Some?
    ensures var line := LineOf(text, name).value;
            '\n' !in line && '\0' !in line && Matches(line, name)
    decreases |text|
  {
    hide Matches;
    var j := IndexOf(text, '\n');
    var line := CStr(text[..j]);
    assert forall c | c in line :: c in text[..j];
    if !Matches(line, name) {
      LineOfClean(text[j + 1..], name);
    }
  }

  /** A name that matches a line is plain and fits its buffer. */
  lemma MatchPlain(line: string, name: string)
    requires '\n' !in line && '\0' !in line && Matches(line, name)
    ensures Plain(name) && 0 < |name| < NAME_CAP
  {
    FieldPlain(line, 0);
    var f := Field(line, 0).value;
    assert name <= f;
    CutPlain(f, name);
  }

  lemma CutPlain(f: string, r: string)
    requires Plain(f) && r <= f
    ensures Plain(r)
  {
    assert forall c | c in r :: c in f;
  }

  // ---------------------------------------------------------------- files

  /** `catalog_read_file`: an empty file cannot be read. */
  function ReadText(m: Fs, path: string): (int, string) {
    if path !in m then (ENOENT, "") else if m[path] == "" then (EIO, "") else (|m[path]|, m[path])
  }

  /** `catalog_copy_file` */
  function CopyFile(m: Fs, src: string, dst: string): (Fs, int) {
    if src !in m then (m, ENOENT)
    else if m[src] == "" then (m, EIO)
    else
      var (m1, rc) := PutFile(m, dst, m[src]);
      (m1, if rc != 0 then ENOSPC else 0)
  }

  /** `catalog_set_active` and `catalog_set_rollback` */
  function SetRecord(m: Fs, file: string, name: string, version: string, path: string): (Fs, int) {
    var (m1, rc) := PutFile(m, file, Record(name, version, path));
    (m1, if rc != 0 then ENOSPC else 0)
  }

  /** `catalog_active_line` */
  function ActiveLine(m: Fs, name: string): (int, string) {
    var (len, text) := ReadText(m, ACTIVE);
    if len < 0 then (len, "")
    else
      match LineOf(text, name)
      case None => (ENOENT, "")
      case Some(line) => (0, CutTo(line, LINE_CAP))
  }

  /** `catalog_active_version` and `catalog_active_install` */
  function ActiveField(m: Fs, name: string, k: nat, buf: string, cap: nat): (int, string)
    requires cap > 1
  {
    var (rc, line) := ActiveLine(m, name);
    if rc != 0 then (ENOENT, buf)
    else
      var (ok, s) := SplitField(line, k, buf, cap);
      (if ok then 0 else ENOENT, s)
  }

  /** `catalog_read_rollback` */
  function ReadRollback(m: Fs, name: string, version: string, backup: string): (int, string, string) {
    var (len, text) := ReadText(m, ROLLBACK);
    if len < 0 then (len, version, backup)
    else
      match LineOf(text, name)
      case None => (ENOENT, version, backup)
      case Some(line) =>
        (0, SplitField(line, 1, version, VERSION_CAP).1, SplitField(line, 2, backup, BACKUP_CAP).1)
  }

  datatype Entry = Entry(version: string, pkg: string, install: string, minVersion: string)

  /** `catalog_find_entry`; the channel field plays no part in what follows. */
  function FindEntry(m: Fs, name: string, junk: Entry): (int, Entry) {
    var (len, text) := ReadText(m, INDEX);
    if len < 0 then (len, junk)
    else
      match LineOf(text, name)
      case None => (ENOENT, junk)
      case Some(line) =>
        (0, Entry(SplitField(line, 1, junk.version, VERSION_CAP).1, SplitField(line, 2, junk.pkg, PATH_CAP).1,
                  SplitField(line, 3, junk.install, PATH_CAP).1, SplitField(line, 5, junk.minVersion, VERSION_CAP).1))
  }

  // ---------------------------------------------------------------- versions

  datatype Version = Version(major: nat, minor: nat, patch: nat)

  function AddDigit(v: Version, part: nat, c: char): Version
    requires IsDigit(c)
  {
    var d := ValueOf(c);
    if part == 0 then v.(major := v.major * 10 + d)
    else if part == 1 then v.(minor := v.minor * 10 + d)
    else v.(patch := v.patch * 10 + d)
  }

  /** `parse_version`: up to three numbers; a third dot is an error, any other character ends the scan. */
  function ParseVersion(s: string, part: nat, v: Version): Option<Version>
    decreases |s|
  {
    if s == "" then Some(v)
    else if IsDigit(s[0]) then ParseVersion(s[1..], part, AddDigit(v, part, s[0]))
    else if s[0] == '.' then if part >= 2 then None else ParseVersion(s[1..], part + 1, v)
    else Some(v)
  }

  predicate Ge(a: Version, b: Version) {
    if a.major != b.major then a.major > b.major
    else if a.minor != b.minor then a.minor > b.minor
    else a.patch >= b.patch
  }

  /** `version_ge` */
  predicate VersionGe(a: string, b: string) {
    var x, y := ParseVersion(a, 0, Version(0, 0, 0)), ParseVersion(b, 0, Version(0, 0, 0));
    x.Some? && (y.None? || Ge(x.value, y.value))
  }

  // ---------------------------------------------------------------- install and rollback

  /** What verifying and then parsing the package for application came to. */
  datatype Package = Package(verified: int, parsed: int, path: string, elf: string)

  function BackupOf(install: string): string {
    install + ".prev"
  }

  /** The check of the minimum version. */
  predicate VersionAllowed(m: Fs, name: string, minVersion: string, buf: string) {
    var (rc, cur) := ActiveField(m, name, 1, buf, VERSION_CAP);
    if rc == 0 then VersionGe(cur, minVersion) else minVersion != "" && minVersion[0] == '0'
  }

  /** Record the rollback point if a version is active, then copy the installed file aside. */
  function MakeBackup(m: Fs, name: string, install: string, buf: string): (Fs, int) {
    if install !in m then (m, 0)
    else
      var (rc, cur) := ActiveField(m, name, 1, buf, VERSION_CAP);
      if rc != 0 then CopyFile(m, install, BackupOf(install))
      else
        var (m1, rc1) := SetRecord(m, ROLLBACK, name, cur, BackupOf(install));
        if rc1 != 0 then (m1, rc1) else CopyFile(m1, install, BackupOf(install))
  }

  /** `ota_apply_package_kpath` */
  function Apply(m: Fs, pkg: Package): (Fs, int) {
    if pkg.parsed != 0 then (m, pkg.parsed)
    else
      var (m1, rc) := PutFile(m, pkg.path, pkg.elf);
      (m1, if rc != 0 then ENOSPC else 0)
  }

  /** `catalog_install` for a caller with the capability and a name that was copied in. */
  function Install(m: Fs, name: string, pkg: Package, junk: Entry, buf: string): (Fs, int) {
    var (rc, e) := FindEntry(m, name, junk);
    if rc != 0 then (m, rc)
    else if !VersionAllowed(m, name, e.minVersion, buf) then (m, EPERM)
    else if pkg.verified != 0 then (m, pkg.verified)
    else
      var (m1, rc1) := MakeBackup(m, name, e.install, buf);
      if rc1 != 0 then (m1, rc1)
      else
        var (m2, rc2) := Apply(m1, pkg);
        if rc2 != 0 then (m2, rc2) else SetRecord(m2, ACTIVE, name, e.version, e.install)
  }

  /** `catalog_rollback`; its last write has no data, so the rollback point stays. */
  function Rollback(m: Fs, name: string, version: string, backup: string, install: string): (Fs, int) {
    var (rc, prev, saved) := ReadRollback(m, name, version, backup);
    if rc != 0 then (m, rc)
    else if saved !in m then (m, ENOENT)
    else
      var (rc1, active) := ActiveField(m, name, 2, install, BACKUP_CAP);
      var target := if rc1 != 0 then saved else active;
      var (m1, rc2) := CopyFile(m, saved, target);
      if rc2 != 0 then (m1, rc2)
      else
        var (m2, rc3) := SetRecord(m1, ACTIVE, name, prev, target);
        if rc3 != 0 then (m2, rc3) else (PutFile(m2, ROLLBACK, "").0, 0)
  }
}
