/**
 The per-agent audit log (kernel/audit.c and `tool_audit_log` in kernel/tool.c), over the file system as a
 map from paths to contents.
 */
module Audit {
  import opened Base
  import opened Decimal
  import opened Files
  import Ramfs

  const QUOTA := 512
  const MAX_STARTS := 255
  const MAX_ID := 100_000_000

  // ---------------------------------------------------------------- paths

  const PATH_HEAD := "/audit/agent/"
  const PATH_TAIL := "/tool.log"

  /** `audit_path_for` */
  function LogPath(id: nat): string {
    PATH_HEAD + Digits(id) + PATH_TAIL
  }

  /** Agents never share a log. */
  lemma LogPathInjective(a: nat, b: nat)
    requires LogPath(a) == LogPath(b)
    ensures a == b
  {
    assert forall id :: LogPath(id)[|PATH_HEAD|..] == Digits(id) + PATH_TAIL;
    ScanDigits(a, PATH_TAIL);
    ScanDigits(b, PATH_TAIL);
  }

  lemma LogPathFits(id: nat)
    requires id < MAX_ID
    ensures |LogPath(id)| <= 30 && Ramfs.NoNul(LogPath(id))
  {
    assert Pow10(8) == MAX_ID by {
      assert Pow10(4) == 10_000;
      assert Pow10(8) == 10 * Pow10(7) && Pow10(7) == 10 * Pow10(6) && Pow10(6) == 10 * Pow10(5);
    }
    DigitsLength(id, 8);
    assert |PATH_HEAD| == 13 && |PATH_TAIL| == 9;
    assert Ramfs.NoNul(PATH_HEAD) && Ramfs.NoNul(PATH_TAIL);
    assert forall c | c in LogPath(id) :: c in PATH_HEAD || c in Digits(id) || c in PATH_TAIL;
  }

  // ---------------------------------------------------------------- one call as a line

  datatype Call = Call(tool: int, rc: int)

  predicate Int32(v: int) {
    -0x8000_0000 <= v < 0x8000_0000
  }

  predicate GoodCall(c: Call) {
    Int32(c.tool) && Int32(c.rc)
  }

  /** `append_int`, when there is room. */
  function IntText(v: int): string {
    if v < 0 then "-" + Digits(-v) else Digits(v)
  }

  function CallText(c: Call): string {
    "tool=" + IntText(c.tool) + " rc=" + IntText(c.rc) + "\n"
  }

  /** A line of the log, and whose log it is in. */
  lemma TextExamples()
    ensures CallText(Call(3, -2)) == "tool=3 rc=-2\n" && LogPath(7) == "/audit/agent/7/tool.log"
  {
    assert IntText(3) == "3" && IntText(-2) == "-2";
    assert Digits(7) == "7";
  }

  predicate Line(l: string) {
    |l| > 0 && l[|l| - 1] == '\n' && '\n' !in l[..|l| - 1]
  }

  lemma IntTextFits(v: int)
    requires Int32(v)
    ensures 1 <= |IntText(v)| <= 11 && '\n' !in IntText(v)
  {
    DigitsOf32(if v < 0 then -v else v);
  }

  /** Every line fits the 32-byte buffer, the newline included, and is one line. */
  lemma CallTextFits(c: Call)
    requires GoodCall(c)
    ensures 12 <= |CallText(c)| <= 32 && Line(CallText(c))
  {
    IntTextFits(c.tool);
    IntTextFits(c.rc);
    var l := CallText(c);
    assert |"tool="| == 5 && |" rc="| == 4 && |"\n"| == 1;
    assert l[..|l| - 1] == "tool=" + IntText(c.tool) + " rc=" + IntText(c.rc);
    assert '\n' !in "tool=" && '\n' !in " rc=";
  }

  function ScanInt(s: string): (r: (int, string)) {
    if s != [] && s[0] == '-' then
      var (n, rest) := Scan(s[1..], 0);
      (-(n as int), rest)
    else
      var (n, rest) := Scan(s, 0);
      (n as int, rest)
  }

  lemma ScanIntText(v: int, rest: string)
    requires EndsNumber(rest)
    ensures ScanInt(IntText(v) + rest) == (v, rest)
  {
    hide Digits, Scan;
    if v < 0 {
      assert (IntText(v) + rest)[1..] == Digits(-v) + rest;
      ScanDigits(-v, rest);
    } else {
      assert IntText(v)[0] in IntText(v) && IsDigit(IntText(v)[0]);
      ScanDigits(v, rest);
    }
  }

  function ReadCall(l: string): Option<Call> {
    if |l| < 5 then None
    else
      var (tool, rest) := ScanInt(l[5..]);
      if |rest| < 4 then None else Some(Call(tool, ScanInt(rest[4..]).0))
  }

  /** A line reads back as the call it records. */
  lemma CallTextReadsBack(c: Call)
    ensures ReadCall(CallText(c)) == Some(c)
  {
    hide IntText, ScanInt;
    var tail := " rc=" + IntText(c.rc) + "\n";
    assert |"tool="| == 5 && |" rc="| == 4;
    assert CallText(c)[5..] == IntText(c.tool) + tail;
    ScanIntText(c.tool, tail);
    assert tail[4..] == IntText(c.rc) + "\n";
    ScanIntText(c.rc, "\n");
  }

  // ---------------------------------------------------------------- writing

  /** `audit_usage`: an empty log counts as one byte. */
  function Usage(m: Fs, id: nat): nat {
    if LogPath(id) !in m then 0 else Probe(m, LogPath(id))
  }

  /** `audit_write` */
  function AuditWrite(m: Fs, id: nat, data: string): (Fs, int) {
    if |data| == 0 then (m, EINVAL)
    else if Usage(m, id) + |data| > QUOTA then (m, ENOSPC)
    else if Usage(m, id) == 0 then PutFile(m, LogPath(id), data)
    else PutFile(m, LogPath(id), m[LogPath(id)] + data)
  }

  // ---------------------------------------------------------------- compaction

  function Clamp(keep: int): (k: nat)
    ensures 1 <= k <= 32
  {
    if keep < 1 then 1 else if keep > 32 then 32 else keep
  }

  function Header(k: nat): string
    requires k <= 32
  {
    "compact: " + (if k >= 10 then [Digit(k / 10)] else []) + [Digit(k % 10)] + "\n"
  }

  lemma HeaderFits(k: nat)
    requires k <= 32
    ensures |Header(k)| == (if k >= 10 then 12 else 11) && Line(Header(k))
  {
    var h := Header(k);
    var digits := (if k >= 10 then [Digit(k / 10)] else []) + [Digit(k % 10)];
    assert |"compact: "| == 9 && |"\n"| == 1;
    assert h[..|h| - 1] == "compact: " + digits;
    assert '\n' !in "compact: " && '\n' !in digits;
  }

  /** The header prints the number of lines kept. */
  lemma HeaderText(k: nat)
    requires k <= 32
    ensures Header(k) == "compact: " + Digits(k) + "\n"
  {
    if k >= 10 {
      assert Digits(k / 10) == [Digit(k / 10)];
      assert Digits(k) == [Digit(k / 10)] + [Digit(k % 10)];
    }
  }

  /** `line_starts` after scanning i characters: every newline but the last opens a line. */
  function Starts(s: string, i: nat): (r: seq<nat>)
    requires i <= |s|
    ensures 1 <= |r| && forall j | 0 <= j < |r| :: r[j] <= i
    decreases i
  {
    if i == 0 then [0]
    else
      var r := Starts(s, i - 1);
      if s[i - 1] == '\n' && i < |s| && |r| < MAX_STARTS then r + [i] else r
  }

  function Cut(s: string): string {
    if |s| < Ramfs.RAMFS_FILE_SIZE then s else s[..Ramfs.RAMFS_FILE_SIZE - 1]
  }

  /** What `audit_compact` makes of a log. */
  function Compacted(log: string, k: nat): string
    requires 1 <= k <= 32
  {
    var starts := Starts(log, |log|);
    if |starts| <= k then log else Cut(Header(k) + log[starts[|starts| - k]..])
  }

  /** `audit_compact` */
  function Compact(m: Fs, id: nat, keep: int): (Fs, int) {
    var path := LogPath(id);
    if path !in m || m[path] == "" then (m, 0)
    else
      var out := Compacted(m[path], Clamp(keep));
      if |Starts(m[path], |m[path]|)| <= Clamp(keep) then (m, Usage(m, id)) else (PutFile(m, path, out).0, |out|)
  }

  /** `tool_audit_log`: a refused write is retried once after compaction to eight lines. */
  function LogCall(m: Fs, id: nat, c: Call): (Fs, int) {
    var (m1, rc) := AuditWrite(m, id, CallText(c));
    if rc != ENOSPC then (m1, rc) else AuditWrite(Compact(m1, id, 8).0, id, CallText(c))
  }

  // ---------------------------------------------------------------- logs as lines

  function Flat(ls: seq<string>): string {
    if ls == [] then "" else ls[0] + Flat(ls[1..])
  }

  predicate Lines(ls: seq<string>) {
    forall i | 0 <= i < |ls| :: Line(ls[i])
  }

  lemma {:induction false} FlatConcat(a: seq<string>, b: seq<string>)
    ensures Flat(a + b) == Flat(a) + Flat(b)
  {
    if a == [] {
      assert a + b == b;
    } else {
      assert (a + b)[1..] == a[1..] + b;
      FlatConcat(a[1..], b);
    }
  }

  lemma FlatSplit(ls: seq<string>, j: nat)
    requires j <= |ls|
    ensures Flat(ls) == Flat(ls[..j]) + Flat(ls[j..])
  {
    assert ls == ls[..j] + ls[j..];
    FlatConcat(ls[..j], ls[j..]);
  }

  lemma Succ(a: nat, n: nat)
    ensures a * (n + 1) == a + a * n
  {
  }

  lemma {:induction false} FlatBounds(ls: seq<string>, lo: nat, hi: nat)
    requires forall i | 0 <= i < |ls| :: lo <= |ls[i]| <= hi
    ensures lo * |ls| <= |Flat(ls)| <= hi * |ls|
  {
    if ls != [] {
      var rest := ls[1..];
      FlatBounds(rest, lo, hi);
      Succ(lo, |rest|);
      Succ(hi, |rest|);
      assert lo <= |ls[0]| <= hi;
    }
  }

  /** Characters that are not newlines open no line. */
  lemma {:induction false} NoStarts(s: string, a: nat, b: nat)
    requires a <= b <= |s| && '\n' !in s[a..b]
    ensures Starts(s, b) == Starts(s, a)
    decreases b
  {
    if a < b {
      assert s[b - 1] == s[a..b][b - 1 - a];
      assert forall c | c in s[a..b - 1] :: c in s[a..b];
      NoStarts(s, a, b - 1);
    }
  }

  predicate StartsAre(starts: seq<nat>, ls: seq<string>, j: nat)
    requires j <= |ls|
  {
    |starts| == j + 1 && forall q | 0 <= q <= j :: starts[q] == |Flat(ls[..q])|
  }

  /** The scan finds the beginning of every line. */
  lemma {:induction false} StartsFound(ls: seq<string>, j: nat)
    requires Lines(ls) && j < |ls| <= MAX_STARTS
    ensures |Flat(ls[..j])| <= |Flat(ls)| && StartsAre(Starts(Flat(ls), |Flat(ls[..j])|), ls, j)
    decreases j
  {
    hide Line;
    var s := Flat(ls);
    FlatSplit(ls, j);
    if j > 0 {
      StartsFound(ls, j - 1);
      LineScanned(ls, j - 1);
    } else {
      assert ls[..0] == [];
    }
  }

  /** Scanning one line that is not the last finds the beginning of the next. */
  lemma LineScanned(ls: seq<string>, j: nat)
    requires Lines(ls) && j + 1 < |ls| <= MAX_STARTS
    requires |Flat(ls[..j])| <= |Flat(ls)| && StartsAre(Starts(Flat(ls), |Flat(ls[..j])|), ls, j)
    ensures |Flat(ls[..j + 1])| <= |Flat(ls)| && StartsAre(Starts(Flat(ls), |Flat(ls[..j + 1])|), ls, j + 1)
  {
    var s, a := Flat(ls), |Flat(ls[..j])|;
    var b := a + |ls[j]|;
    LineAt(ls, j);
    assert Line(ls[j]) && Line(ls[j + 1]);
    assert s[a..b - 1] == ls[j][..|ls[j]| - 1];
    NoStarts(s, a, b - 1);
    assert s[b - 1] == ls[j][|ls[j]| - 1];
  }

  lemma LineAt(ls: seq<string>, j: nat)
    requires j < |ls|
    ensures |Flat(ls[..j + 1])| == |Flat(ls[..j])| + |ls[j]| <= |Flat(ls)|
    ensures Flat(ls)[|Flat(ls[..j])|..|Flat(ls[..j + 1])|] == ls[j]
    ensures j + 1 < |ls| ==> |Flat(ls[..j + 1])| + |ls[j + 1]| <= |Flat(ls)|
  {
    assert ls[..j + 1] == ls[..j] + [ls[j]];
    FlatConcat(ls[..j], [ls[j]]);
    assert Flat([ls[j]]) == ls[j] + Flat([]);
    FlatSplit(ls, j + 1);
    if j + 1 < |ls| {
      assert ls[j + 1..][0] == ls[j + 1];
    }
  }

  lemma AllStarts(ls: seq<string>)
    requires Lines(ls) && 1 <= |ls| <= MAX_STARTS
    ensures StartsAre(Starts(Flat(ls), |Flat(ls)|), ls, |ls| - 1)
  {
    hide Flat;
    var j := |ls| - 1;
    var log, a := Flat(ls), |Flat(ls[..j])|;
    StartsFound(ls, j);
    LineAt(ls, j);
    assert ls[..j + 1] == ls && Line(ls[j]);
    assert log[a..|log| - 1] == ls[j][..|ls[j]| - 1];
    NoStarts(log, a, |log| - 1);
  }

  /** Compaction keeps the last k lines behind a header, or does nothing when there are no more than k. */
  lemma CompactedLines(ls: seq<string>, k: nat)
    requires Lines(ls) && 1 <= |ls| <= MAX_STARTS && 1 <= k <= 32 && |Flat(ls)| < 4096
    ensures var log := Flat(ls);
            && |Starts(log, |log|)| == |ls|
            && Compacted(log, k) == if |ls| <= k then log else Header(k) + Flat(ls[|ls| - k..])
  {
    hide Flat, Starts, Header, Lines;
    AllStarts(ls);
    if |ls| > k {
      var j := |ls| - k;
      FlatSplit(ls, j);
      HeaderFits(k);
      assert Flat(ls)[|Flat(ls[..j])|..] == Flat(ls[j..]);
    }
  }
}
