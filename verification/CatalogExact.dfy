/** Exactly when `catalog_install` succeeds, and what versions and lines of the index mean (kernel/catalog.c). */
module CatalogExact {
  import opened Base
  import opened Decimal
  import opened Files
  import opened Ramfs
  import opened Catalog
  import opened CatalogUndo

  // ---------------------------------------------------------------- versions

  /** Three numbers separated by dots. */
  function Dotted(a: nat, b: nat, c: nat): string {
    Digits(a) + "." + Digits(b) + "." + Digits(c)
  }

  function Part(v: Version, part: nat): nat {
    if part == 0 then v.major else if part == 1 then v.minor else v.patch
  }

  function WithPart(v: Version, part: nat, n: nat): Version {
    if part == 0 then v.(major := n) else if part == 1 then v.(minor := n) else v.(patch := n)
  }

  /** A printed number is read into its part. */
  lemma {:induction false} ParseDigits(n: nat, rest: string, part: nat, v: Version)
    requires Part(v, part) == 0
    ensures ParseVersion(Digits(n) + rest, part, v) == ParseVersion(rest, part, WithPart(v, part, n))
    decreases n
  {
    if n < 10 {
      assert (Digits(n) + rest)[1..] == rest;
    } else {
      var last := [Digit(n % 10)];
      assert Digits(n) + rest == Digits(n / 10) + (last + rest);
      ParseDigits(n / 10, last + rest, part, v);
      assert (last + rest)[1..] == rest;
    }
  }

  lemma ParseDot(rest: string, part: nat, v: Version)
    ensures ParseVersion("." + rest, part, v) == if part >= 2 then None else ParseVersion(rest, part + 1, v)
  {
    assert ("." + rest)[1..] == rest;
  }

  /** Dotted versions are read as their three numbers; a third dot makes a version unreadable. */
  lemma ParseDotted(a: nat, b: nat, c: nat, more: string)
    ensures ParseVersion(Dotted(a, b, c), 0, Version(0, 0, 0)) == Some(Version(a, b, c))
    ensures ParseVersion(Dotted(a, b, c) + "." + more, 0, Version(0, 0, 0)) == None
  {
    ParseTail(a, b, c, "");
    assert Dotted(a, b, c) + "" == Dotted(a, b, c);
    ParseTail(a, b, c, "." + more);
    assert Dotted(a, b, c) + "." + more == Dotted(a, b, c) + ("." + more);
    ParseDot(more, 2, Version(a, b, c));
  }

  lemma ParseTail(a: nat, b: nat, c: nat, tail: string)
    ensures ParseVersion(Dotted(a, b, c) + tail, 0, Version(0, 0, 0)) == ParseVersion(tail, 2, Version(a, b, c))
  {
    hide ParseVersion, Digits;
    var t2 := Digits(c) + tail;
    var t1 := Digits(b) + ("." + t2);
    assert Dotted(a, b, c) + tail == Digits(a) + ("." + t1);
    ParseDigits(a, "." + t1, 0, Version(0, 0, 0));
    ParseDot(t1, 0, Version(a, 0, 0));
    ParseDigits(b, "." + t2, 1, Version(a, 0, 0));
    ParseDot(t2, 1, Version(a, b, 0));
    ParseDigits(c, tail, 2, Version(a, b, 0));
  }

  /** Versions are compared number by number; an unreadable one is below every bound and bounds nothing. */
  lemma VersionOrder(a: nat, b: nat, c: nat, x: nat, y: nat, z: nat, more: string)
    ensures VersionGe(Dotted(a, b, c), Dotted(x, y, z)) <==> a > x || (a == x && (b > y || (b == y && c >= z)))
    ensures !VersionGe(Dotted(a, b, c) + "." + more, Dotted(x, y, z))
    ensures VersionGe(Dotted(a, b, c), Dotted(x, y, z) + "." + more)
  {
    hide ParseVersion, Dotted;
    ParseDotted(a, b, c, more);
    ParseDotted(x, y, z, more);
  }

  // ---------------------------------------------------------------- an index of several lines

  function Text(lines: seq<string>): string {
    if lines == [] then "" else if |lines| == 1 then lines[0] else lines[0] + ['\n'] + Text(lines[1..])
  }

  predicate CleanLines(lines: seq<string>) {
    forall i | 0 <= i < |lines| :: lines[i] != "" && '\n' !in lines[i] && '\0' !in lines[i]
  }

  /** The lookup finds the first line of the text whose first field is the name. */
  lemma {:induction false} LineAmong(lines: seq<string>, name: string, k: nat)
    requires CleanLines(lines) && k < |lines| && Matches(lines[k], name)
    requires forall i | 0 <= i < k :: !Matches(lines[i], name)
    ensures LineOf(Text(lines), name) == Some(lines[k])
    decreases |lines|
  {
    hide Matches;
    var text, line := Text(lines), lines[0];
    CStrWhole(line);
    if |lines| == 1 {
      LineOfSingle(text, name);
    } else {
      var rest := Text(lines[1..]);
      IndexFound(line, '\n', rest);
      assert text[..|line|] == line && text[|line| + 1..] == rest;
      if k > 0 {
        LineAmong(lines[1..], name, k - 1);
      }
    }
  }

  // ---------------------------------------------------------------- a list of puts

  datatype Write = Write(path: string, data: string)

  function WrittenPaths(ws: seq<Write>): set<string> {
    set w | w in ws :: w.path
  }

  predicate SizesFit(ws: seq<Write>) {
    forall i | 0 <= i < |ws| :: 0 < |ws[i].data| < 8192
  }

  /** There is a slot for every new path. */
  predicate SlotsFit(known: set<string>, paths: set<string>) {
    paths <= known || |known + paths| <= 64
  }

  /** The writes fit a file each, and the file system has a slot for every new path. */
  predicate Takes(m: Fs, ws: seq<Write>) {
    SizesFit(ws) && SlotsFit(m.Keys, WrittenPaths(ws))
  }

  function Written(m: Fs, ws: seq<Write>): Fs
    decreases |ws|
  {
    if ws == [] then m else Written(m[ws[0].path := ws[0].data], ws[1..])
  }

  lemma SlotsFirst(known: set<string>, p: string, rest: set<string>)
    ensures SlotsFit(known, {p} + rest) <==> (p in known || |known| < 64) && SlotsFit(known + {p}, rest)
  {
    var all := known + ({p} + rest);
    assert all == known + {p} + rest;
    if p in known {
      assert known + {p} == known;
    } else {
      SubsetSize(known + {p}, all);
      if rest <= known + {p} {
        assert all == known + {p};
      }
    }
  }

  lemma SizesFirst(w: Write, rest: seq<Write>)
    ensures SizesFit([w] + rest) <==> 0 < |w.data| < 8192 && SizesFit(rest)
    ensures WrittenPaths([w] + rest) == {w.path} + WrittenPaths(rest)
  {
    var ws := [w] + rest;
    assert ws[0] == w && forall i | 0 <= i < |rest| :: ws[i + 1] == rest[i];
    assert forall x :: x in ws <==> x == w || x in rest;
  }

  /** One write after the other succeeds exactly when the list as a whole fits. */
  lemma TakesFirst(m: Fs, w: Write, rest: seq<Write>)
    ensures Takes(m, [w] + rest) <==> PutFile(m, w.path, w.data).1 == 0 && Takes(m[w.path := w.data], rest)
    ensures PutFile(m, w.path, w.data).1 == 0 ==> PutFile(m, w.path, w.data).0 == m[w.path := w.data]
    ensures Written(m, [w] + rest) == Written(m[w.path := w.data], rest)
  {
    hide SlotsFit, SizesFit, WrittenPaths;
    SizesFirst(w, rest);
    SlotsFirst(m.Keys, w.path, WrittenPaths(rest));
    assert m[w.path := w.data].Keys == m.Keys + {w.path};
    assert ([w] + rest)[1..] == rest;
  }

  lemma TakesNone(m: Fs)
    ensures Takes(m, []) && Written(m, []) == m
  {
    assert WrittenPaths([]) == {};
  }

  // ---------------------------------------------------------------- the install

  /** The version gate: the active version against the minimum, or a minimum that begins with 0. */
  predicate GateOpen(m: Fs, name: string, minVersion: string, buf: string) {
    if IsActive(m, name, buf) then VersionGe(ActiveField(m, name, 1, buf, VERSION_CAP).1, minVersion)
    else minVersion != "" && minVersion[0] == '0'
  }

  /** What the backup of an existing copy writes: the rollback point of an active package, then the copy. */
  function BackupWrites(m: Fs, name: string, install: string, buf: string): seq<Write> {
    if install !in m then []
    else if !IsActive(m, name, buf) then [Write(install + ".prev", m[install])]
    else
      var point := Record(name, ActiveField(m, name, 1, buf, VERSION_CAP).1, install + ".prev");
      [Write(ROLLBACK, point), Write(install + ".prev", if install == ROLLBACK then point else m[install])]
  }

  /** Everything an install writes, in order. */
  function InstallWrites(m: Fs, name: string, pkg: Package, e: Entry, buf: string): seq<Write> {
    BackupWrites(m, name, e.install, buf) + LastWrites(name, pkg, e)
  }

  /** The package, then the active record. */
  function LastWrites(name: string, pkg: Package, e: Entry): seq<Write> {
    [Write(pkg.path, pkg.elf), Write(ACTIVE, Record(name, e.version, e.install))]
  }

  /**
   An install of a catalogued package succeeds exactly when the version gate is open, the package verifies and
   parses, and everything the install writes fits; those writes are then all it does.
   */
  lemma InstallExactly(m: Fs, name: string, pkg: Package, junk: Entry, buf: string)
    requires Catalogued(m, name)
    ensures var e := FindEntry(m, name, junk).1;
            var (m', rc) := Install(m, name, pkg, junk, buf);
            && (rc == 0 <==> && GateOpen(m, name, e.minVersion, buf) && pkg.verified == 0 && pkg.parsed == 0
                             && Takes(m, InstallWrites(m, name, pkg, e, buf)))
            && (rc == 0 ==> m' == Written(m, InstallWrites(m, name, pkg, e, buf)))
            && (!GateOpen(m, name, e.minVersion, buf) ==> (m', rc) == (m, EPERM))
  {
    hide FindEntry, ActiveField, VersionGe, Takes, Written, Catalogued, Record, PutFile, BackupWrites, MakeBackup;
    CataloguedEntry(m, name, junk);
    var e := FindEntry(m, name, junk).1;
    BackupExactly(m, name, e.install, buf, LastWrites(name, pkg, e));
    ApplyExactly(MakeBackup(m, name, e.install, buf).0, name, pkg, e);
  }

  lemma ApplyExactly(m: Fs, name: string, pkg: Package, e: Entry)
    ensures var (m1, rc1) := Apply(m, pkg);
            var (m2, rc2) := SetRecord(m1, ACTIVE, name, e.version, e.install);
            && (rc1 == 0 && rc2 == 0 <==> pkg.parsed == 0 && Takes(m, LastWrites(name, pkg, e)))
            && (rc1 == 0 && rc2 == 0 ==> m2 == Written(m, LastWrites(name, pkg, e)))
  {
    hide Record, PutFile, Takes, Written;
    var w1, w2 := Write(pkg.path, pkg.elf), Write(ACTIVE, Record(name, e.version, e.install));
    assert LastWrites(name, pkg, e) == [w1] + ([w2] + []);
    TakesFirst(m, w1, [w2] + []);
    TakesFirst(m[w1.path := w1.data], w2, []);
    TakesNone(m[w1.path := w1.data][w2.path := w2.data]);
  }

  /** The backup succeeds, and leaves room for what follows, exactly when the whole list fits. */
  lemma BackupExactly(m: Fs, name: string, install: string, buf: string, rest: seq<Write>)
    ensures var (m1, rc) := MakeBackup(m, name, install, buf);
            && (Takes(m, BackupWrites(m, name, install, buf) + rest) <==> rc == 0 && Takes(m1, rest))
            && (rc == 0 ==> Written(m, BackupWrites(m, name, install, buf) + rest) == Written(m1, rest))
  {
    hide ActiveField, Record, Takes, Written, PutFile;
    var ws := BackupWrites(m, name, install, buf);
    if install !in m {
      assert ws + rest == rest;
    } else if !IsActive(m, name, buf) {
      assert ws + rest == [ws[0]] + rest;
      CopyExactly(m, install, install + ".prev", rest);
    } else {
      assert ws + rest == [ws[0]] + ([ws[1]] + rest);
      TakesFirst(m, ws[0], [ws[1]] + rest);
      var m1 := m[ROLLBACK := ws[0].data];
      CopyExactly(m1, install, install + ".prev", rest);
    }
  }

  lemma CopyExactly(m: Fs, src: string, dst: string, rest: seq<Write>)
    requires src in m
    ensures var (m1, rc) := CopyFile(m, src, dst);
            && (Takes(m, [Write(dst, m[src])] + rest) <==> rc == 0 && Takes(m1, rest))
            && (rc == 0 ==> Written(m, [Write(dst, m[src])] + rest) == Written(m1, rest))
  {
    hide Takes, Written;
    TakesFirst(m, Write(dst, m[src]), rest);
  }
}
