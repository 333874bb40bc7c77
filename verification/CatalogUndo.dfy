/** Installing a package and rolling back: what is restored, and what the text records keep. */
module CatalogUndo {
  import opened Base
  import opened Files
  import opened Ramfs
  import opened Catalog

  // ---------------------------------------------------------------- records read back

  lemma OneRecord(name: string, version: string, path: string)
    requires Plain(name) && Plain(version) && Plain(path) && 0 < |name| < NAME_CAP
    ensures var r := Record(name, version, path);
            && r != "" && LineOf(r, name) == Some(r)
            && forall other | other != name :: LineOf(r, other) == None
  {
    hide Field, LineOf;
    var r := Record(name, version, path);
    RecordReadsBack(name, version, path);
    forall other ensures LineOf(r, other) == if other == name then Some(r) else None {
      LineOfSingle(r, other);
    }
  }

  /** After a record is written as the active file, it is what the lookups find. */
  lemma ActiveReadsBack(m: Fs, name: string, version: string, path: string, buf: string)
    requires Plain(name) && Plain(version) && Plain(path)
    requires 0 < |name| < NAME_CAP && |version| < VERSION_CAP && |path| < BACKUP_CAP
    requires ACTIVE in m && m[ACTIVE] == Record(name, version, path)
    ensures ActiveField(m, name, 1, buf, VERSION_CAP) == (if version != "" then 0 else ENOENT, version)
    ensures ActiveField(m, name, 2, buf, BACKUP_CAP) == (if path != "" then 0 else ENOENT, path)
    ensures forall other, k, cap | other != name && cap > 1 :: ActiveField(m, other, k, buf, cap) == (ENOENT, buf)
  {
    hide Field, LineOf;
    OneRecord(name, version, path);
    RecordReadsBack(name, version, path);
    var r := Record(name, version, path);
    assert |r| == |name| + |version| + |path| + 2 < LINE_CAP;
  }

  lemma RollbackReadsBack(m: Fs, name: string, version: string, path: string, b1: string, b2: string)
    requires Plain(name) && Plain(version) && Plain(path)
    requires 0 < |name| < NAME_CAP && |version| < VERSION_CAP && |path| < BACKUP_CAP
    requires ROLLBACK in m && m[ROLLBACK] == Record(name, version, path)
    ensures ReadRollback(m, name, b1, b2) == (0, version, path)
  {
    hide Field, LineOf;
    OneRecord(name, version, path);
    RecordReadsBack(name, version, path);
  }

  /** A field the active file yields is plain, and so is the name it is found under. */
  lemma ActivePlain(m: Fs, name: string, k: nat, buf: string, cap: nat)
    requires cap > 1 && ActiveField(m, name, k, buf, cap).0 == 0
    ensures var s := ActiveField(m, name, k, buf, cap).1;
            Plain(s) && 0 < |s| < cap && Plain(name) && 0 < |name| < NAME_CAP
  {
    hide Field, LineOf, Matches;
    var text := m[ACTIVE];
    LineOfClean(text, name);
    var full := LineOf(text, name).value;
    MatchPlain(full, name);
    var line := CutTo(full, LINE_CAP);
    assert forall c | c in line :: c in full;
    FieldPlain(line, k);
    var f := Field(line, k).value;
    CutPlain(f, CutTo(f, cap));
  }

  /** The index line of the package has its first four fields. */
  predicate Catalogued(m: Fs, name: string) {
    INDEX in m && match LineOf(m[INDEX], name) case None => false case Some(line) => Field(line, 3).Some?
  }

  lemma CataloguedEntry(m: Fs, name: string, junk: Entry)
    requires Catalogued(m, name)
    ensures var (rc, e) := FindEntry(m, name, junk);
            && rc == 0 && Plain(e.version) && |e.version| < VERSION_CAP && Plain(e.install) && |e.install| < PATH_CAP
            && Plain(name) && 0 < |name| < NAME_CAP
  {
    hide Field, LineOf, Matches;
    assert m[INDEX] != "" by { EmptyHasNoLine(name); }
    LineOfClean(m[INDEX], name);
    var line := LineOf(m[INDEX], name).value;
    MatchPlain(line, name);
    EarlierFields(line, 3, 1);
    FieldPlain(line, 1);
    FieldPlain(line, 3);
    var v, p := Field(line, 1).value, Field(line, 3).value;
    CutPlain(v, CutTo(v, VERSION_CAP));
    CutPlain(p, CutTo(p, PATH_CAP));
  }

  // ---------------------------------------------------------------- paths

  lemma BackupIsApart(install: string)
    requires Plain(install) && |install| < PATH_CAP
    ensures var b := BackupOf(install);
            b != install && b != ACTIVE && b != ROLLBACK && Plain(b) && |b| < BACKUP_CAP
  {
    var b := BackupOf(install);
    assert |".prev"| == 5 && b[|b| - 1] == 'v';
    assert ACTIVE[|ACTIVE| - 1] == 'e' && ROLLBACK[|ROLLBACK| - 1] == 'k';
    assert Plain(".prev");
    PlainParts(install, ".prev");
  }

  // ---------------------------------------------------------------- the undo

  /** An install over an existing copy of a catalogued package, to the catalogued path. */
  predicate OverCopy(m: Fs, name: string, pkg: Package, junk: Entry) {
    && Catalogued(m, name)
    && var install := FindEntry(m, name, junk).1.install;
    && install != "" && install in m && pkg.path == install
  }

  predicate IsActive(m: Fs, name: string, buf: string) {
    ActiveField(m, name, 1, buf, VERSION_CAP).0 == 0
  }

  /** The same when the package is the active one, which is when the install records a rollback point. */
  predicate Upgrade(m: Fs, name: string, pkg: Package, junk: Entry, buf: string) {
    OverCopy(m, name, pkg, junk) && IsActive(m, name, buf)
  }

  /** The file system after a successful upgrade. */
  function Upgraded(m: Fs, name: string, cur: string, e: Entry, elf: string): Fs
    requires e.install in m
  {
    m[ROLLBACK := Record(name, cur, BackupOf(e.install))][BackupOf(e.install) := m[e.install]]
     [e.install := elf][ACTIVE := Record(name, e.version, e.install)]
  }

  /** And after the rollback: the installed file is as before. */
  function Restored(m: Fs, name: string, cur: string, e: Entry): Fs
    requires e.install in m
  {
    m[ROLLBACK := Record(name, cur, BackupOf(e.install))][BackupOf(e.install) := m[e.install]]
     [ACTIVE := Record(name, cur, e.install)]
  }

  lemma PutResult(m: Fs, path: string, data: string)
    ensures PutFile(m, path, data).1 == 0 ==> PutFile(m, path, data).0 == m[path := data]
    ensures path in m && 0 < |data| < RAMFS_FILE_SIZE ==> PutFile(m, path, data) == (m[path := data], 0)
  {
  }

  lemma BackedUp(m: Fs, name: string, install: string, buf: string)
    requires install in m && install != ROLLBACK && ActiveField(m, name, 1, buf, VERSION_CAP).0 == 0
    ensures var (m1, rc) := MakeBackup(m, name, install, buf);
            var cur := ActiveField(m, name, 1, buf, VERSION_CAP).1;
            rc == 0 ==>
              && 0 < |m[install]| < RAMFS_FILE_SIZE
              && m1 == m[ROLLBACK := Record(name, cur, BackupOf(install))][BackupOf(install) := m[install]]
  {
    hide ActiveField, Record;
    var cur := ActiveField(m, name, 1, buf, VERSION_CAP).1;
    PutResult(m, ROLLBACK, Record(name, cur, BackupOf(install)));
    var m1 := SetRecord(m, ROLLBACK, name, cur, BackupOf(install)).0;
    if install in m1 {
      PutResult(m1, BackupOf(install), m1[install]);
    }
  }

  lemma InstallResult(m: Fs, name: string, pkg: Package, junk: Entry, buf: string)
    requires Upgrade(m, name, pkg, junk, buf) && FindEntry(m, name, junk).1.install != ROLLBACK
    ensures var (m1, rc) := Install(m, name, pkg, junk, buf);
            var e := FindEntry(m, name, junk).1;
            rc == 0 ==>
              && 0 < |m[e.install]| < RAMFS_FILE_SIZE
              && m1 == Upgraded(m, name, ActiveField(m, name, 1, buf, VERSION_CAP).1, e, pkg.elf)
  {
    hide ActiveField, Record, FindEntry, MakeBackup, PutFile, Catalogued, VersionAllowed;
    CataloguedEntry(m, name, junk);
    var e := FindEntry(m, name, junk).1;
    BackedUp(m, name, e.install, buf);
    var m1 := MakeBackup(m, name, e.install, buf).0;
    PutResult(m1, pkg.path, pkg.elf);
    var m2 := Apply(m1, pkg).0;
    PutResult(m2, ACTIVE, Record(name, e.version, e.install));
  }

  lemma RecordFits(name: string, version: string, path: string)
    requires |name| < NAME_CAP && |version| < VERSION_CAP && |path| < BACKUP_CAP
    ensures 0 < |Record(name, version, path)| < LINE_CAP
  {
  }

  /** A rollback whose records and backup are in place restores the backup to the active path. */
  lemma RollbackResult(m: Fs, name: string, prev: string, version: string, install: string, b1: string, b2: string,
                       b3: string)
    requires Plain(name) && 0 < |name| < NAME_CAP && Plain(prev) && |prev| < VERSION_CAP
    requires Plain(version) && |version| < VERSION_CAP && Plain(install) && 0 < |install| < PATH_CAP
    requires ROLLBACK in m && m[ROLLBACK] == Record(name, prev, BackupOf(install))
    requires ACTIVE in m && m[ACTIVE] == Record(name, version, install)
    requires install in m && BackupOf(install) in m && 0 < |m[BackupOf(install)]| < RAMFS_FILE_SIZE
    ensures Rollback(m, name, b1, b2, b3) ==
            (m[install := m[BackupOf(install)]][ACTIVE := Record(name, prev, install)], 0)
  {
    hide Record, PutFile, BackupOf, ReadRollback, ActiveField;
    BackupIsApart(install);
    var saved := BackupOf(install);
    RollbackReadsBack(m, name, prev, saved, b1, b2);
    ActiveReadsBack(m, name, version, install, b3);
    PutResult(m, install, m[saved]);
    var m1 := m[install := m[saved]];
    RecordFits(name, prev, install);
    PutResult(m1, ACTIVE, Record(name, prev, install));
    EmptyPut(m1[ACTIVE := Record(name, prev, install)], ROLLBACK);
  }

  /** Writing no data is refused, so it clears nothing. */
  lemma EmptyPut(m: Fs, path: string)
    ensures PutFile(m, path, "") == (m, EINVAL)
  {
  }

  /**
   Undo.  After a successful install over an existing copy, rollback always succeeds and restores the exact
   bytes and the version that was active; all that is left of the install is the backup, the rollback point
   and an active file with this one record.  A package catalogued at the active file itself is restored
   exactly when that file already was this one record.
   */
  lemma InstallThenRollback(m: Fs, name: string, pkg: Package, junk: Entry, buf: string, b1: string, b2: string,
                            b3: string)
    requires Upgrade(m, name, pkg, junk, buf) && FindEntry(m, name, junk).1.install != ROLLBACK
    ensures var e := FindEntry(m, name, junk).1;
            var cur := ActiveField(m, name, 1, buf, VERSION_CAP).1;
            var (m1, rc1) := Install(m, name, pkg, junk, buf);
            var (m2, rc2) := Rollback(m1, name, b1, b2, b3);
            rc1 == 0 ==>
              && m1 == Upgraded(m, name, cur, e, pkg.elf)
              && rc2 == 0 && m2 == Restored(m, name, cur, e)
              && (m2[e.install] == m[e.install] <==> e.install != ACTIVE || m[ACTIVE] == Record(name, cur, ACTIVE))
              && ActiveField(m2, name, 1, buf, VERSION_CAP) == (0, cur)
  {
    hide ActiveField, Record, FindEntry, BackupOf, Install, Rollback, Catalogued;
    var e := FindEntry(m, name, junk).1;
    var cur := ActiveField(m, name, 1, buf, VERSION_CAP).1;
    CataloguedEntry(m, name, junk);
    ActivePlain(m, name, 1, buf, VERSION_CAP);
    InstallResult(m, name, pkg, junk, buf);
    BackupIsApart(e.install);
    if Install(m, name, pkg, junk, buf).1 == 0 {
      var m1 := Upgraded(m, name, cur, e, pkg.elf);
      ActiveIsNotRollback();
      RollbackResult(m1, name, cur, e.version, e.install, b1, b2, b3);
      assert m1[e.install := m[e.install]][ACTIVE := Record(name, cur, e.install)] == Restored(m, name, cur, e);
      ActiveReadsBack(Restored(m, name, cur, e), name, cur, e.install, buf);
    }
  }

  /** The file system after a successful upgrade of a package catalogued at the rollback file. */
  function OverRollback(m: Fs, name: string, cur: string, e: Entry, elf: string): Fs {
    var saved := BackupOf(ROLLBACK);
    m[ROLLBACK := Record(name, cur, saved)][saved := Record(name, cur, saved)]
     [ROLLBACK := elf][ACTIVE := Record(name, e.version, e.install)]
  }

  /** The backup is then the install's own record, and the package lies where rollback looks for the point. */
  lemma InstalledOverRollback(m: Fs, name: string, pkg: Package, junk: Entry, buf: string)
    requires Upgrade(m, name, pkg, junk, buf) && FindEntry(m, name, junk).1.install == ROLLBACK
    ensures var cur := ActiveField(m, name, 1, buf, VERSION_CAP).1;
            var (m1, rc) := Install(m, name, pkg, junk, buf);
            rc == 0 ==> m1 == OverRollback(m, name, cur, FindEntry(m, name, junk).1, pkg.elf) && pkg.elf != ""
  {
    hide ActiveField, Record, FindEntry, Catalogued, VersionAllowed;
    CataloguedEntry(m, name, junk);
    var e := FindEntry(m, name, junk).1;
    BackupIsApart(e.install);
    ActiveIsNotRollback();
    var cur, saved := ActiveField(m, name, 1, buf, VERSION_CAP).1, BackupOf(ROLLBACK);
    hide PutFile;
    PutResult(m, ROLLBACK, Record(name, cur, saved));
    var m1 := SetRecord(m, ROLLBACK, name, cur, saved).0;
    PutResult(m1, saved, Record(name, cur, saved));
    var m2 := MakeBackup(m, name, ROLLBACK, buf).0;
    PutResult(m2, pkg.path, pkg.elf);
    EmptyPut(m2, pkg.path);
    var m3 := Apply(m2, pkg).0;
    PutResult(m3, ACTIVE, Record(name, e.version, e.install));
  }

  /** What rollback does with this text for the record and this path for the active package. */
  function RollbackFrom(m1: Fs, name: string, text: string, target: string, b1: string, b2: string): (Fs, int) {
    match LineOf(text, name)
    case None => (m1, ENOENT)
    case Some(line) =>
      var prev, src := SplitField(line, 1, b1, VERSION_CAP).1, SplitField(line, 2, b2, BACKUP_CAP).1;
      if src !in m1 then (m1, ENOENT)
      else if m1[src] == "" then (m1, EIO)
      else if |m1[src]| >= RAMFS_FILE_SIZE then (m1, ENOSPC)
      else (m1[target := m1[src]][ACTIVE := Record(name, prev, target)], 0)
  }

  lemma RollbackReads(m1: Fs, name: string, version: string, text: string, target: string, b1: string, b2: string,
                      b3: string)
    requires Plain(name) && 0 < |name| < NAME_CAP && Plain(version) && |version| < VERSION_CAP
    requires Plain(target) && 0 < |target| < BACKUP_CAP && target in m1 && |b1| < VERSION_CAP && text != ""
    requires ROLLBACK in m1 && m1[ROLLBACK] == text && ACTIVE in m1 && m1[ACTIVE] == Record(name, version, target)
    ensures Rollback(m1, name, b1, b2, b3) == RollbackFrom(m1, name, text, target, b1, b2)
  {
    hide Record, LineOf, PutFile, ActiveField, Field;
    ActiveReadsBack(m1, name, version, target, b3);
    if LineOf(text, name).Some? {
      var line := LineOf(text, name).value;
      var prev, src := SplitField(line, 1, b1, VERSION_CAP).1, SplitField(line, 2, b2, BACKUP_CAP).1;
      if src in m1 && m1[src] != "" {
        PutRefused(m1, target, m1[src]);
        PutResult(m1, target, m1[src]);
        var m2 := m1[target := m1[src]];
        RecordFits(name, prev, target);
        PutResult(m2, ACTIVE, Record(name, prev, target));
        EmptyPut(m2[ACTIVE := Record(name, prev, target)], ROLLBACK);
      }
    }
  }

  lemma RollbackIsPath()
    ensures Plain(ROLLBACK) && 0 < |ROLLBACK| < BACKUP_CAP
  {
    assert |ROLLBACK| == 25;
  }

  lemma PutRefused(m: Fs, path: string, data: string)
    ensures |data| >= RAMFS_FILE_SIZE ==> PutFile(m, path, data) == (m, EINVAL)
  {
  }

  predicate SameFile(m: Fs, m': Fs, path: string) {
    path in m && path in m' && m'[path] == m[path]
  }

  /** The text has a record line for the name that names a file with these bytes. */
  predicate NamesBytes(m1: Fs, name: string, text: string, b2: string, bytes: string) {
    match LineOf(text, name)
    case None => false
    case Some(line) =>
      var src := SplitField(line, 2, b2, BACKUP_CAP).1;
      src in m1 && m1[src] == bytes && 0 < |bytes| < RAMFS_FILE_SIZE
  }

  /**
   A package catalogued at the rollback file: rollback restores the previous bytes exactly when the package's
   own bytes contain a record line for it that names a file which holds them.
   */
  lemma UndoneOverRollbackExactly(m: Fs, name: string, pkg: Package, junk: Entry, buf: string, b1: string, b2: string,
                                  b3: string)
    requires Upgrade(m, name, pkg, junk, buf) && FindEntry(m, name, junk).1.install == ROLLBACK && |b1| < VERSION_CAP
    ensures var (m1, rc1) := Install(m, name, pkg, junk, buf);
            var (m2, rc2) := Rollback(m1, name, b1, b2, b3);
            rc1 == 0 ==>
              && (m2, rc2) == RollbackFrom(m1, name, pkg.elf, ROLLBACK, b1, b2)
              && (rc2 != 0 ==> m2 == m1)
              && (rc2 == 0 && SameFile(m, m2, ROLLBACK) <==> NamesBytes(m1, name, pkg.elf, b2, m[ROLLBACK]))
  {
    hide ActiveField, Record, FindEntry, Install, Rollback, Catalogued, LineOf, SplitField;
    InstalledOverRollback(m, name, pkg, junk, buf);
    CataloguedEntry(m, name, junk);
    ActiveIsNotRollback();
    BackupIsApart(ROLLBACK);
    if Install(m, name, pkg, junk, buf).1 == 0 {
      var e := FindEntry(m, name, junk).1;
      RollbackIsPath();
      RollbackReads(Install(m, name, pkg, junk, buf).0, name, e.version, pkg.elf, ROLLBACK, b1, b2, b3);
    }
  }

  /** In particular a package without such a line is never undone, and the failed rollback changes nothing. */
  lemma PackageWithoutRecord(m: Fs, name: string, pkg: Package, junk: Entry, buf: string, b1: string, b2: string,
                             b3: string)
    requires Upgrade(m, name, pkg, junk, buf) && FindEntry(m, name, junk).1.install == ROLLBACK && |b1| < VERSION_CAP
    requires Install(m, name, pkg, junk, buf).1 == 0 && LineOf(pkg.elf, name) == None
    ensures var m1 := Install(m, name, pkg, junk, buf).0; Rollback(m1, name, b1, b2, b3) == (m1, ENOENT)
  {
    UndoneOverRollbackExactly(m, name, pkg, junk, buf, b1, b2, b3);
  }

  // ---------------------------------------------------------------- packages that are not active

  /** The file system after a successful install over a copy of a package that is not active: no point is recorded. */
  function Replaced(m: Fs, name: string, e: Entry, elf: string): Fs
    requires e.install in m
  {
    m[BackupOf(e.install) := m[e.install]][e.install := elf][ACTIVE := Record(name, e.version, e.install)]
  }

  lemma InactiveInstall(m: Fs, name: string, pkg: Package, junk: Entry, buf: string)
    requires OverCopy(m, name, pkg, junk) && !IsActive(m, name, buf)
    ensures var (m1, rc) := Install(m, name, pkg, junk, buf);
            rc == 0 ==> m1 == Replaced(m, name, FindEntry(m, name, junk).1, pkg.elf) && pkg.elf != ""
  {
    hide ActiveField, Record, FindEntry, PutFile, Catalogued, VersionAllowed;
    CataloguedEntry(m, name, junk);
    var e := FindEntry(m, name, junk).1;
    PutResult(m, BackupOf(e.install), m[e.install]);
    var m1 := MakeBackup(m, name, e.install, buf).0;
    PutResult(m1, pkg.path, pkg.elf);
    EmptyPut(m1, pkg.path);
    var m2 := Apply(m1, pkg).0;
    PutResult(m2, ACTIVE, Record(name, e.version, e.install));
  }

  /**
   A package that is not active: rollback then follows whatever rollback file there is.  It restores the previous
   bytes exactly when that file has a line for the package that names a file which holds them.
   */
  lemma InactiveThenRollback(m: Fs, name: string, pkg: Package, junk: Entry, buf: string, b1: string, b2: string,
                             b3: string)
    requires OverCopy(m, name, pkg, junk) && !IsActive(m, name, buf) && |b1| < VERSION_CAP
    ensures var install := FindEntry(m, name, junk).1.install;
            var (m1, rc1) := Install(m, name, pkg, junk, buf);
            var (m2, rc2) := Rollback(m1, name, b1, b2, b3);
            rc1 == 0 ==>
              && (ROLLBACK !in m1 ==> (m2, rc2) == (m1, ENOENT))
              && (ROLLBACK in m1 && m1[ROLLBACK] == "" ==> (m2, rc2) == (m1, EIO))
              && (ROLLBACK in m1 && m1[ROLLBACK] != "" ==>
                    (m2, rc2) == RollbackFrom(m1, name, m1[ROLLBACK], install, b1, b2))
              && (install != ROLLBACK && install != ACTIVE ==>
                    (rc2 == 0 && SameFile(m, m2, install) <==>
                       ROLLBACK in m && NamesBytes(m1, name, m[ROLLBACK], b2, m[install])))
  {
    hide ActiveField, Record, FindEntry, Install, Catalogued, LineOf, SplitField, IsActive, BackupOf;
    InactiveInstall(m, name, pkg, junk, buf);
    CataloguedEntry(m, name, junk);
    EmptyHasNoLine(name);
    ActiveIsNotRollback();
    var e := FindEntry(m, name, junk).1;
    BackupIsApart(e.install);
    var m1 := Install(m, name, pkg, junk, buf).0;
    if Install(m, name, pkg, junk, buf).1 == 0 {
      if ROLLBACK in m1 && m1[ROLLBACK] != "" {
        hide Rollback;
        RollbackReads(m1, name, e.version, m1[ROLLBACK], e.install, b1, b2, b3);
      }
    }
  }

  /** A line of the index. */
  function Joined(fields: seq<string>): string {
    if fields == [] then "" else if |fields| == 1 then fields[0] else fields[0] + ['|'] + Joined(fields[1..])
  }

  /** A line of plain fields gives every field back. */
  lemma {:induction false} JoinedFields(fields: seq<string>, k: nat)
    requires k < |fields| && forall i | 0 <= i < |fields| :: Plain(fields[i])
    ensures Field(Joined(fields), k) == Some(fields[k]) && '\n' !in Joined(fields) && '\0' !in Joined(fields)
    decreases |fields|
  {
    hide IndexOf;
    var line := Joined(fields);
    if |fields| == 1 {
      IndexFound(fields[0], '|', "");
      assert line[..|line|] == line;
    } else {
      var rest := Joined(fields[1..]);
      IndexFound(fields[0], '|', rest);
      assert line[..|fields[0]|] == fields[0] && line[|fields[0]| + 1..] == rest;
      JoinedFields(fields[1..], if k > 0 then k - 1 else 0);
    }
  }

  /** The fields of an index line, in its order, each fitting its buffer. */
  predicate GoodLine(fields: seq<string>) {
    && |fields| == 6 && (forall i | 0 <= i < 6 :: Plain(fields[i])) && 0 < |fields[0]| < NAME_CAP
    && |fields[1]| < VERSION_CAP && |fields[2]| < PATH_CAP && 0 < |fields[3]| < PATH_CAP && |fields[5]| < VERSION_CAP
  }

  /** An index of one line. */
  lemma OneLineIndex(m: Fs, fields: seq<string>, junk: Entry)
    requires GoodLine(fields) && INDEX in m && m[INDEX] == Joined(fields)
    ensures Catalogued(m, fields[0])
    ensures FindEntry(m, fields[0], junk) == (0, Entry(fields[1], fields[2], fields[3], fields[5]))
  {
    hide Field, LineOf, Joined;
    forall k | 0 <= k < 6 ensures Field(m[INDEX], k) == Some(fields[k]) && '\n' !in m[INDEX] && '\0' !in m[INDEX] {
      JoinedFields(fields, k);
    }
    assert Field(m[INDEX], 0) == Some(fields[0]) && Field(m[INDEX], 3) == Some(fields[3]);
    assert m[INDEX] != "" by { EmptyField(); }
    LineOfSingle(m[INDEX], fields[0]);
  }

  lemma EmptyField()
    ensures Field("", 0) == Some("")
  {
  }

  /** With nothing active, room for two more files and a minimum version of 0, the install succeeds. */
  lemma FirstInstall(m: Fs, fields: seq<string>, pkg: Package, junk: Entry)
    requires GoodLine(fields) && INDEX in m && m[INDEX] == Joined(fields) && fields[5] == "0"
    requires ACTIVE !in m && |m| + 2 <= RAMFS_MAX_FILES && fields[3] in m && 0 < |m[fields[3]]| < RAMFS_FILE_SIZE
    requires pkg.verified == 0 && pkg.parsed == 0 && pkg.path == fields[3] && 0 < |pkg.elf| < RAMFS_FILE_SIZE
    ensures OverCopy(m, fields[0], pkg, junk) && !IsActive(m, fields[0], "")
    ensures Install(m, fields[0], pkg, junk, "").1 == 0
  {
    OneLineIndex(m, fields, junk);
    assert ActiveField(m, fields[0], 1, "", VERSION_CAP) == (ENOENT, "");
    var name, version, install := fields[0], fields[1], fields[3];
    RecordFits(name, version, install);
    hide FindEntry, Catalogued, Joined, ActiveField, Record, PutFile, BackupOf, GoodLine;
    PutRoom(m, BackupOf(install), m[install]);
    var m1 := m[BackupOf(install) := m[install]];
    PutRoom(m1, install, pkg.elf);
    var m2 := m1[install := pkg.elf];
    assert m2.Keys == m1.Keys;
    PutRoom(m2, ACTIVE, Record(name, version, install));
  }

  /** A put of data that fits succeeds where there is room, and takes one slot at most. */
  lemma PutRoom(m: Fs, path: string, data: string)
    requires 0 < |data| < RAMFS_FILE_SIZE && (path in m || |m| < RAMFS_MAX_FILES)
    ensures PutFile(m, path, data) == (m[path := data], 0) && |m[path := data]| <= |m| + 1
  {
    assert m[path := data].Keys == m.Keys + {path};
  }

  /** Such an install cannot be rolled back when there is no rollback file. */
  lemma FirstInstallStays(m: Fs, fields: seq<string>, pkg: Package, junk: Entry)
    requires GoodLine(fields) && INDEX in m && m[INDEX] == Joined(fields) && fields[5] == "0"
    requires ACTIVE !in m && |m| + 2 <= RAMFS_MAX_FILES && fields[3] in m && 0 < |m[fields[3]]| < RAMFS_FILE_SIZE
    requires pkg.verified == 0 && pkg.parsed == 0 && pkg.path == fields[3] && 0 < |pkg.elf| < RAMFS_FILE_SIZE
    requires ROLLBACK !in m
    ensures var (m1, rc1) := Install(m, fields[0], pkg, junk, "");
            && OverCopy(m, fields[0], pkg, junk) && !IsActive(m, fields[0], "") && rc1 == 0
            && Rollback(m1, fields[0], "", "", "") == (m1, ENOENT)
            && fields[3] in m1 && m1[fields[3]] == pkg.elf
  {
    assert |fields| == 6;
    hide Joined, GoodLine, Install, Rollback, OverCopy, IsActive, FindEntry, BackupOf;
    FirstInstall(m, fields, pkg, junk);
    OneLineIndex(m, fields, junk);
    InactiveInstall(m, fields[0], pkg, junk, "");
    InactiveThenRollback(m, fields[0], pkg, junk, "", "", "", "");
    BackupNotRollback(fields[3]);
    ActiveIsNotRollback();
  }

  function SampleLine(): seq<string> {
    ["p", "2", "/k", "/b", "c", "0"]
  }

  function SampleFs(): Fs {
    map[INDEX := Joined(SampleLine()), "/b" := "old"]
  }

  lemma SampleIsGood()
    ensures GoodLine(SampleLine()) && SampleLine()[5] == "0" && SampleLine()[3] == "/b" && SampleLine()[0] == "p"
  {
  }

  lemma SampleFiles()
    ensures INDEX in SampleFs() && SampleFs()[INDEX] == Joined(SampleLine()) && |SampleFs()| == 2
    ensures ACTIVE !in SampleFs() && ROLLBACK !in SampleFs() && "/b" in SampleFs() && SampleFs()["/b"] == "old"
  {
    assert |INDEX| == 22 && |ACTIVE| == 23 && |ROLLBACK| == 25 && |"/b"| == 2;
    hide Joined, SampleLine;
    assert SampleFs().Keys == {INDEX, "/b"};
  }

  /** An input: a package installed over a copy that was never active cannot be rolled back. */
  lemma NeverActiveInput()
    ensures var junk, pkg := Entry("", "", "", ""), Package(0, 0, "/b", "new");
            var (m1, rc1) := Install(SampleFs(), "p", pkg, junk, "");
            && OverCopy(SampleFs(), "p", pkg, junk) && !IsActive(SampleFs(), "p", "") && rc1 == 0
            && Rollback(m1, "p", "", "", "") == (m1, ENOENT)
            && "/b" in SampleFs() && SampleFs()["/b"] == "old" && "/b" in m1 && m1["/b"] == "new"
  {
    SampleIsGood();
    SampleFiles();
    assert |"old"| == 3 && |"new"| == 3;
    hide Joined, GoodLine, Install, Rollback, OverCopy, IsActive, SampleLine, SampleFs;
    FirstInstallStays(SampleFs(), SampleLine(), Package(0, 0, "/b", "new"), Entry("", "", "", ""));
  }

  lemma BackupNotRollback(install: string)
    ensures BackupOf(install) != ROLLBACK && BackupOf(install) != install && BackupOf(install) != ACTIVE
  {
    var b := BackupOf(install);
    assert |".prev"| == 5 && b[|b| - 1] == 'v';
    assert ACTIVE[|ACTIVE| - 1] == 'e' && ROLLBACK[|ROLLBACK| - 1] == 'k';
  }

  lemma ActiveIsNotRollback()
    ensures ACTIVE != ROLLBACK
  {
    assert |ACTIVE| == 23 && |ROLLBACK| == 25;
  }

  /** The rollback point survives: rolling back again succeeds and changes nothing more. */
  lemma RollbackRepeats(m: Fs, name: string, prev: string, version: string, install: string, b1: string, b2: string,
                        b3: string)
    requires Plain(name) && 0 < |name| < NAME_CAP && Plain(prev) && |prev| < VERSION_CAP
    requires Plain(version) && |version| < VERSION_CAP && Plain(install) && 0 < |install| < PATH_CAP
    requires install != ACTIVE && install != ROLLBACK
    requires ROLLBACK in m && m[ROLLBACK] == Record(name, prev, BackupOf(install))
    requires ACTIVE in m && m[ACTIVE] == Record(name, version, install)
    requires install in m && BackupOf(install) in m && 0 < |m[BackupOf(install)]| < RAMFS_FILE_SIZE
    ensures var m1 := Rollback(m, name, b1, b2, b3).0;
            Rollback(m1, name, b1, b2, b3) == (m1, 0)
  {
    hide Record, BackupOf, Rollback;
    BackupIsApart(install);
    ActiveIsNotRollback();
    RollbackResult(m, name, prev, version, install, b1, b2, b3);
    var m1 := m[install := m[BackupOf(install)]][ACTIVE := Record(name, prev, install)];
    RollbackResult(m1, name, prev, prev, install, b1, b2, b3);
    assert m1[install := m1[BackupOf(install)]][ACTIVE := Record(name, prev, install)] == m1;
  }

  /** The active file keeps one package only: after any install every other one stops being active. */
  lemma OthersForgotten(m: Fs, name: string, pkg: Package, junk: Entry, buf: string, other: string)
    requires Catalogued(m, name) && other != name
    ensures var (m1, rc) := Install(m, name, pkg, junk, buf);
            rc == 0 ==> ActiveField(m1, other, 1, buf, VERSION_CAP) == (ENOENT, buf)
  {
    hide ActiveField, Record, FindEntry, MakeBackup, Apply, PutFile, Catalogued, VersionAllowed;
    CataloguedEntry(m, name, junk);
    var e := FindEntry(m, name, junk).1;
    var m2 := Apply(MakeBackup(m, name, e.install, buf).0, pkg).0;
    PutResult(m2, ACTIVE, Record(name, e.version, e.install));
    var (m1, rc) := Install(m, name, pkg, junk, buf);
    if rc == 0 {
      ActiveReadsBack(m1, name, e.version, e.install, buf);
    }
  }
}
