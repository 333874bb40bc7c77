/** Audit logs over whole runs: each log is a suffix of its agent's call history, and no new call is lost. */
module AuditRuns {
  import opened Base
  import opened Audit
  import opened Decimal
  import opened Files
  import Ramfs

  // ---------------------------------------------------------------- what a log records

  predicate GoodCalls(h: seq<Call>) {
    forall i | 0 <= i < |h| :: GoodCall(h[i])
  }

  function CallLines(h: seq<Call>): (ls: seq<string>)
    ensures |ls| == |h| && forall i | 0 <= i < |h| :: ls[i] == CallText(h[i])
  {
    seq(|h|, i requires 0 <= i < |h| => CallText(h[i]))
  }

  /** k is what the header says, 0 for a log that was never compacted. */
  function HeadLines(k: nat): seq<string>
    requires k <= 32
  {
    if k == 0 then [] else [Header(k)]
  }

  function LogLines(h: seq<Call>, n: nat, k: nat): seq<string>
    requires n <= |h| && k <= 32
  {
    HeadLines(k) + CallLines(h[n..])
  }

  predicate Bounded(size: nat, k: nat) {
    size <= QUOTA || (size == QUOTA + 1 && k >= 10)
  }

  /**
   The log holds the calls from the n-th on, in order, behind a header exactly when older ones were
   dropped; it exceeds the quota by at most one byte, and only behind a two-digit header.
   */
  predicate RecordsFrom(log: string, h: seq<Call>, n: nat, k: nat) {
    && GoodCalls(h) && n < |h| && k <= 32 && (k == 0 <==> n == 0)
    && log == Flat(LogLines(h, n, k))
    && Bounded(|log|, k)
  }

  ghost predicate Records(log: string, h: seq<Call>) {
    exists n: nat, k: nat :: RecordsFrom(log, h, n, k)
  }

  lemma LinesGood(h: seq<Call>, n: nat, k: nat)
    requires GoodCalls(h) && n <= |h| && k <= 32
    ensures Lines(LogLines(h, n, k)) && |LogLines(h, n, k)| == |h| - n + if k == 0 then 0 else 1
    ensures forall i | 0 <= i < |LogLines(h, n, k)| :: 11 <= |LogLines(h, n, k)[i]| <= 32
  {
    hide CallText, Header, Line;
    var ls := LogLines(h, n, k);
    HeaderFits(k);
    forall i | 0 <= i < |ls| ensures 11 <= |ls[i]| <= 32 && Line(ls[i]) {
      var off := |HeadLines(k)|;
      if i >= off {
        CallTextFits(h[n + i - off]);
      }
    }
  }

  /** Line lengths bound the number of lines and the other way round. */
  lemma SizesOf(h: seq<Call>, n: nat, k: nat)
    requires GoodCalls(h) && n <= |h| && k <= 32
    ensures var ls := LogLines(h, n, k);
            11 * |ls| <= |Flat(ls)| <= 32 * |ls|
  {
    LinesGood(h, n, k);
    FlatBounds(LogLines(h, n, k), 11, 32);
  }

  lemma HeadSplit(h: seq<Call>, n: nat, k: nat)
    requires n <= |h| && k <= 32
    ensures Flat(LogLines(h, n, k)) == (if k == 0 then "" else Header(k)) + Flat(CallLines(h[n..]))
  {
    FlatConcat(HeadLines(k), CallLines(h[n..]));
    if k > 0 {
      assert Flat([Header(k)]) == Header(k) + Flat([]);
    }
  }

  // ---------------------------------------------------------------- appending

  lemma AppendRecords(log: string, h: seq<Call>, n: nat, k: nat, c: Call)
    requires RecordsFrom(log, h, n, k) && GoodCall(c) && |log| + |CallText(c)| <= QUOTA
    ensures RecordsFrom(log + CallText(c), h + [c], n, k)
  {
    hide CallText, Flat;
    var l := LogLines(h, n, k);
    assert LogLines(h + [c], n, k) == l + [CallText(c)];
    FlatConcat(l, [CallText(c)]);
    FlatOne(CallText(c));
  }

  lemma FlatOne(l: string)
    ensures Flat([l]) == l
  {
    assert Flat([l]) == l + Flat([]);
  }

  // ---------------------------------------------------------------- compacting

  /** Compaction of a log with more than `keep` lines drops the old header and keeps the last calls. */
  lemma CompactRecords(log: string, h: seq<Call>, n: nat, k: nat, keep: nat)
    requires RecordsFrom(log, h, n, k) && 1 <= keep <= 32
    ensures |Starts(log, |log|)| == |LogLines(h, n, k)|
    ensures |LogLines(h, n, k)| <= keep ==> Compacted(log, keep) == log
    ensures |LogLines(h, n, k)| > keep ==>
              && |h| - keep >= n && RecordsFrom(Compacted(log, keep), h, |h| - keep, keep)
              && 0 < |Compacted(log, keep)| <= 12 + 32 * keep
  {
    hide CallText, Flat, Header, Compacted, Lines, Starts;
    var ls := LogLines(h, n, k);
    LinesGood(h, n, k);
    SizesOf(h, n, k);
    CompactedLines(ls, keep);
    if |ls| > keep {
      var j := |ls| - keep;
      var calls := CallLines(h[|h| - keep..]);
      assert ls[j..] == calls;
      HeadSplit(h, |h| - keep, keep);
      assert Compacted(log, keep) == Flat(LogLines(h, |h| - keep, keep));
      DroppedSize(h, n, k, j);
      FlatSplit(ls, j);
      HeaderFits(keep);
      SizesOf(h, |h| - keep, keep);
      CallsAtMost(h[|h| - keep..]);
    }
  }

  lemma CallsAtMost(h: seq<Call>)
    requires GoodCalls(h)
    ensures |Flat(CallLines(h))| <= 32 * |h|
  {
    hide CallText, Flat;
    forall i | 0 <= i < |h| ensures 0 <= |CallLines(h)[i]| <= 32 {
      CallTextFits(h[i]);
    }
    FlatBounds(CallLines(h), 0, 32);
  }

  /** What compaction drops is at least the old header, or else at least one call. */
  lemma DroppedSize(h: seq<Call>, n: nat, k: nat, j: nat)
    requires GoodCalls(h) && n <= |h| && k <= 32 && 1 <= j <= |LogLines(h, n, k)|
    ensures |Flat(LogLines(h, n, k)[..j])| >= if 0 < k < 10 then 11 else 12
  {
    hide CallText, Header, Flat;
    var ls := LogLines(h, n, k);
    FirstLine(ls[..j]);
    if k > 0 {
      HeaderFits(k);
    } else {
      assert ls[0] == CallText(h[n]);
      CallTextFits(h[n]);
    }
  }

  lemma FirstLine(ls: seq<string>)
    requires |ls| > 0
    ensures |Flat(ls)| >= |ls[0]|
  {
  }

  // ---------------------------------------------------------------- one audited call

  /** A write to an existing log that fits the quota succeeds and appends. */
  lemma WriteAppends(m: Fs, id: nat, log: string, data: string)
    requires LogPath(id) in m && m[LogPath(id)] == log && |log| > 1 && 0 < |data| <= 32
    ensures AuditWrite(m, id, data) ==
            if |log| + |data| > QUOTA then (m, ENOSPC) else (m[LogPath(id) := log + data], 0)
  {
    hide LogPath;
  }

  /** How many lines the automatic compaction keeps. */
  const AUTO_KEEP := 8

  /**
   An audited call on an existing log always succeeds: the call becomes the last line, and older calls are
   dropped only by the automatic compaction, which keeps eight of them.
   */
  lemma LoggedCall(m: Fs, id: nat, h: seq<Call>, n: nat, k: nat, c: Call)
    requires LogPath(id) in m && RecordsFrom(m[LogPath(id)], h, n, k) && GoodCall(c)
    ensures var (m', rc) := LogCall(m, id, c);
            && rc == 0 && LogPath(id) in m'
            && m' == m[LogPath(id) := m'[LogPath(id)]]
            && (RecordsFrom(m'[LogPath(id)], h + [c], n, k) ||
                (|h| >= n + AUTO_KEEP && RecordsFrom(m'[LogPath(id)], h + [c], |h| - AUTO_KEEP, AUTO_KEEP)))
  {
    hide LogPath, CallText, Flat, Compacted, Starts, RecordsFrom, AuditWrite;
    var path := LogPath(id);
    var log, line := m[path], CallText(c);
    CallTextFits(c);
    RecordedSize(log, h, n, k);
    WriteAppends(m, id, log, line);
    if |log| + |line| <= QUOTA {
      AppendRecords(log, h, n, k, c);
    } else {
      CompactRecords(log, h, n, k, AUTO_KEEP);
      var log1 := Compacted(log, AUTO_KEEP);
      var m1 := m[path := log1];
      assert Compact(m, id, 8).0 == m1;
      RecordedSize(log1, h, |h| - AUTO_KEEP, AUTO_KEEP);
      WriteAppends(m1, id, log1, line);
      AppendRecords(log1, h, |h| - AUTO_KEEP, AUTO_KEEP, c);
      assert m1[path := log1 + line] == m[path := log1 + line];
    }
  }

  lemma RecordedSize(log: string, h: seq<Call>, n: nat, k: nat)
    requires RecordsFrom(log, h, n, k)
    ensures 11 <= |log| <= QUOTA + 1 && n <= |h| && k <= 32
    ensures |log| <= 32 * |LogLines(h, n, k)|
  {
    SizesOf(h, n, k);
    LinesGood(h, n, k);
  }

  /** Creating the log is the one write that can fail, exactly when the table is full. */
  lemma FirstCall(m: Fs, id: nat, c: Call)
    requires LogPath(id) !in m && GoodCall(c)
    ensures var (m', rc) := LogCall(m, id, c);
            && (rc == 0 <==> |m| < Ramfs.RAMFS_MAX_FILES)
            && (rc == 0 ==> m' == m[LogPath(id) := CallText(c)] && RecordsFrom(CallText(c), [c], 0, 0))
            && (rc != 0 ==> rc == ENOSPC && m' == m)
  {
    CallTextFits(c);
    hide LogPath, CallText, Starts, Flat;
    assert [c][0..] == [c];
    assert LogLines([c], 0, 0) == [CallText(c)];
    FlatOne(CallText(c));
  }

  /** A compaction with any argument keeps the log a suffix of the history. */
  lemma CompactKeeps(m: Fs, id: nat, h: seq<Call>, keep: int)
    requires LogPath(id) in m && Records(m[LogPath(id)], h)
    ensures var (m', r) := Compact(m, id, keep);
            && LogPath(id) in m' && Records(m'[LogPath(id)], h)
            && m' == m[LogPath(id) := m'[LogPath(id)]]
            && r == |m'[LogPath(id)]|
  {
    hide LogPath, CallText, Flat, Compacted, Starts, RecordsFrom;
    var log := m[LogPath(id)];
    var n: nat, k: nat :| RecordsFrom(log, h, n, k);
    RecordedSize(log, h, n, k);
    CompactRecords(log, h, n, k, Clamp(keep));
    if |LogLines(h, n, k)| <= Clamp(keep) {
      assert m == m[LogPath(id) := m[LogPath(id)]];
    } else {
      var log1 := Compacted(log, Clamp(keep));
      assert Compact(m, id, keep) == (m[LogPath(id) := log1], |log1|);
    }
  }

  /**
   A compaction keeps the last `keep` calls, cut to 1 to 32, behind a header that says so, and leaves a log of no
   more lines alone.
   */
  lemma CompactExactly(m: Fs, id: nat, h: seq<Call>, n: nat, k: nat, keep: int)
    requires LogPath(id) in m && RecordsFrom(m[LogPath(id)], h, n, k)
    ensures var (m', r) := Compact(m, id, keep);
            var kept := if keep < 1 then 1 else if keep > 32 then 32 else keep;
            if |LogLines(h, n, k)| <= kept then m' == m
            else
              && LogPath(id) in m' && m' == m[LogPath(id) := m'[LogPath(id)]]
              && |h| - kept >= n && RecordsFrom(m'[LogPath(id)], h, |h| - kept, kept)
  {
    hide LogPath, CallText, Flat, Compacted, Starts, RecordsFrom;
    var log := m[LogPath(id)];
    RecordedSize(log, h, n, k);
    CompactRecords(log, h, n, k, Clamp(keep));
    if |LogLines(h, n, k)| > Clamp(keep) {
      var log1 := Compacted(log, Clamp(keep));
      assert Compact(m, id, keep) == (m[LogPath(id) := log1], |log1|);
    }
  }

  // ---------------------------------------------------------------- runs

  /** Audited calls and compactions by any agents, and anything else that leaves the logs alone. */
  datatype Event = Called(id: nat, call: Call) | Compaction(id: nat, keep: int) | Other(fs: Fs)

  /** The file system and, for every agent, the calls made since its log was created. */
  datatype State = State(fs: Fs, hist: map<nat, seq<Call>>)

  function History(s: State, id: nat): seq<Call> {
    if id in s.hist then s.hist[id] else []
  }

  predicate SameFile(m: Fs, m': Fs, path: string) {
    (path in m <==> path in m') && (path in m ==> m[path] == m'[path])
  }

  ghost predicate Allowed(s: State, e: Event) {
    match e
    case Called(id, c) => GoodCall(c)
    case Compaction(_, _) => true
    case Other(fs) => forall id: nat :: SameFile(s.fs, fs, LogPath(id))
  }

  function Step(s: State, e: Event): State {
    match e
    case Called(id, c) =>
      var fs := LogCall(s.fs, id, c).0;
      State(fs, if LogPath(id) in fs then s.hist[id := History(s, id) + [c]] else s.hist)
    case Compaction(id, keep) => s.(fs := Compact(s.fs, id, keep).0)
    case Other(fs) => s.(fs := fs)
  }

  function Run(s: State, es: seq<Event>): State {
    if es == [] then s else Step(Run(s, es[..|es| - 1]), es[|es| - 1])
  }

  ghost predicate AllowedRun(s: State, es: seq<Event>) {
    es == [] || (AllowedRun(s, es[..|es| - 1]) && Allowed(Run(s, es[..|es| - 1]), es[|es| - 1]))
  }

  ghost predicate LogInv(fs: Fs, id: nat, h: seq<Call>) {
    if LogPath(id) in fs then Records(fs[LogPath(id)], h) else h == []
  }

  ghost predicate Inv(s: State) {
    forall id: nat :: LogInv(s.fs, id, History(s, id))
  }

  lemma LogInvSame(m: Fs, m': Fs, id: nat, h: seq<Call>)
    requires LogInv(m, id, h) && SameFile(m, m', LogPath(id))
    ensures LogInv(m', id, h)
  {
  }

  lemma StepKeepsOthers(s: State, e: Event, id: nat)
    requires Inv(s) && Allowed(s, e) && (e.Called? || e.Compaction?) && e.id != id
    ensures LogInv(Step(s, e).fs, id, History(Step(s, e), id))
  {
    hide LogPath, Records, CallText, Compacted, Starts;
    if LogPath(e.id) == LogPath(id) {
      LogPathInjective(e.id, id);
    }
    assert LogInv(s.fs, id, History(s, id));
    LogInvSame(s.fs, Step(s, e).fs, id, History(s, id));
  }

  lemma StepKeeps(s: State, e: Event)
    requires Inv(s) && Allowed(s, e)
    ensures Inv(Step(s, e))
  {
    hide LogPath, Records, LogCall, Compact;
    var s' := Step(s, e);
    forall id: nat ensures LogInv(s'.fs, id, History(s', id)) {
      assert LogInv(s.fs, id, History(s, id));
      match e
      case Other(fs) =>
        LogInvSame(s.fs, fs, id, History(s, id));
      case Called(i, c) =>
        if i == id { CallKeepsOwn(s.fs, id, History(s, id), c); } else { StepKeepsOthers(s, e, id); }
      case Compaction(i, keep) =>
        if i == id {
          if LogPath(id) in s.fs {
            CompactKeeps(s.fs, id, History(s, id), keep);
          } else {
            CompactAbsent(s.fs, id, keep);
          }
        } else {
          StepKeepsOthers(s, e, id);
        }
    }
  }

  lemma CompactAbsent(m: Fs, id: nat, keep: int)
    requires LogPath(id) !in m
    ensures Compact(m, id, keep) == (m, 0)
  {
  }

  lemma CallKeepsOwn(m: Fs, id: nat, h: seq<Call>, c: Call)
    requires LogInv(m, id, h) && GoodCall(c)
    ensures var m' := LogCall(m, id, c).0;
            LogInv(m', id, if LogPath(id) in m' then h + [c] else h)
  {
    hide LogPath, RecordsFrom, LogCall;
    if LogPath(id) in m {
      var n: nat, k: nat :| RecordsFrom(m[LogPath(id)], h, n, k);
      LoggedCall(m, id, h, n, k, c);
    } else {
      FirstCall(m, id, c);
      assert h + [c] == [c];
    }
  }

  /**
   In every run every log is at all times the record of a suffix of its agent's calls.
   */
  lemma {:induction false} LogsOverRuns(s: State, es: seq<Event>)
    requires Inv(s) && AllowedRun(s, es)
    ensures Inv(Run(s, es))
  {
    if es != [] {
      LogsOverRuns(s, es[..|es| - 1]);
      StepKeeps(Run(s, es[..|es| - 1]), es[|es| - 1]);
    }
  }

  lemma NoLogsAtFirst(fs: Fs)
    requires forall id: nat :: LogPath(id) !in fs
    ensures Inv(State(fs, map[]))
  {
  }

  /** A recorded log ends with its newest call and stays within one byte of the quota. */
  lemma NewestIsLast(log: string, h: seq<Call>)
    requires Records(log, h)
    ensures |h| > 0 && |log| <= QUOTA + 1
    ensures var last := CallText(h[|h| - 1]); |log| >= |last| && log[|log| - |last|..] == last
  {
    hide CallText, Flat;
    var n: nat, k: nat :| RecordsFrom(log, h, n, k);
    var ls := LogLines(h, n, k);
    assert ls[|ls| - 1..] == [CallText(h[|h| - 1])];
    FlatSplit(ls, |ls| - 1);
    FlatOne(CallText(h[|h| - 1]));
  }

  /**
   No call is lost once the log exists: whatever happened before, the call is accepted, it is the last line
   of the log right after, and the log is at most 513 bytes.
   */
  lemma CallNeverLost(s: State, es: seq<Event>, id: nat, c: Call)
    requires Inv(s) && AllowedRun(s, es) && GoodCall(c) && LogPath(id) in Run(s, es).fs
    ensures var (fs, rc) := LogCall(Run(s, es).fs, id, c);
            && rc == 0 && LogPath(id) in fs
            && var log, line := fs[LogPath(id)], CallText(c);
            |line| <= |log| <= QUOTA + 1 && log[|log| - |line|..] == line
  {
    hide LogPath, CallText, LogCall, RecordsFrom;
    LogsOverRuns(s, es);
    var s1 := Run(s, es);
    var h := History(s1, id);
    assert LogInv(s1.fs, id, h);
    var n: nat, k: nat :| RecordsFrom(s1.fs[LogPath(id)], h, n, k);
    LoggedCall(s1.fs, id, h, n, k, c);
    NewestIsLast(LogCall(s1.fs, id, c).0[LogPath(id)], h + [c]);
  }

  // ---------------------------------------------------------------- when the quota is exceeded

  /** Dropping one line costs exactly that line and gains the new header. */
  lemma OneLineDropped(log: string, h: seq<Call>, n: nat, k: nat, keep: nat)
    requires RecordsFrom(log, h, n, k) && 1 <= keep <= 32 && |LogLines(h, n, k)| == keep + 1
    ensures |Compacted(log, keep)| == |log| - |LogLines(h, n, k)[0]| + |Header(keep)|
  {
    hide CallText, Flat, Header, Compacted, Lines, Starts;
    var ls := LogLines(h, n, k);
    LinesGood(h, n, k);
    SizesOf(h, n, k);
    CompactedLines(ls, keep);
    FlatSplit(ls, 1);
    assert ls[..1] == [ls[0]];
    FlatOne(ls[0]);
  }

  /** Dropping more behind a header costs at least the header and one call. */
  lemma TwoLinesDropped(h: seq<Call>, n: nat, k: nat, j: nat)
    requires GoodCalls(h) && n <= |h| && 0 < k <= 32 && 2 <= j <= |LogLines(h, n, k)|
    ensures |Flat(LogLines(h, n, k)[..j])| >= |Header(k)| + 12
  {
    hide CallText, Header, Flat;
    var ls := LogLines(h, n, k);
    FlatSplit(ls[..j], 1);
    assert ls[..j][..1] == [ls[0]];
    FlatOne(ls[0]);
    FirstLine(ls[..j][1..]);
    assert ls[..j][1..][0] == CallText(h[n]);
    CallTextFits(h[n]);
  }

  /**
   The compacted log exceeds the quota: it already did and is left alone, or only its header is replaced, by
   one of two digits, and the log was that full.
   */
  predicate Exceeds(log: string, h: seq<Call>, n: nat, k: nat, keep: nat)
    requires n <= |h| && k <= 32
  {
    || (|log| == QUOTA + 1 && |LogLines(h, n, k)| <= keep)
    || (0 < k && keep == |h| - n >= 10 && (|log| == QUOTA + 1 || (|log| == QUOTA && k < 10)))
  }

  /** Exactly then. */
  lemma OverQuotaExactly(log: string, h: seq<Call>, n: nat, k: nat, keep: nat)
    requires RecordsFrom(log, h, n, k) && 1 <= keep <= 32
    ensures |Compacted(log, keep)| > QUOTA <==> Exceeds(log, h, n, k, keep)
  {
    hide CallText, Flat, Header, Compacted, Lines, Starts;
    var ls := LogLines(h, n, k);
    LinesGood(h, n, k);
    SizesOf(h, n, k);
    CompactedLines(ls, keep);
    HeaderFits(keep);
    HeaderFits(k);
    if |ls| == keep + 1 {
      OneLineDropped(log, h, n, k, keep);
      if k == 0 { CallTextFits(h[n]); }
    } else if |ls| > keep {
      var j := |ls| - keep;
      FlatSplit(ls, j);
      DroppedSize(h, n, k, j);
      if k > 0 { TwoLinesDropped(h, n, k, j); }
    }
  }

  // ---------------------------------------------------------------- a run that gets there

  const LONG := Call(-1_000_000_000, -1_000_000_000)
  const SHORT := Call(1_000_000_000, 0)

  lemma TenTimes(n: nat)
    requires n > 0
    ensures |Digits(10 * n)| == |Digits(n)| + 1
  {
  }

  lemma TenDigits()
    ensures |Digits(1_000_000_000)| == 10 && |Digits(0)| == 1 == |Digits(1)|
  {
    assert |Digits(0)| == 1 == |Digits(1)|;
    hide Digits;
    TenTimes(1);
    TenTimes(10);
    TenTimes(100);
    TenTimes(1_000);
    TenTimes(10_000);
    TenTimes(100_000);
    TenTimes(1_000_000);
    TenTimes(10_000_000);
    TenTimes(100_000_000);
  }

  lemma LineLengths()
    ensures |CallText(LONG)| == 32 && |CallText(SHORT)| == 21
  {
    TenDigits();
    hide Digits;
    assert |"tool="| == 5 && |" rc="| == 4 && |"\n"| == 1 && |"-"| == 1;
  }

  function Copies(c: Call, j: nat): (h: seq<Call>)
    ensures |h| == j && forall i | 0 <= i < j :: h[i] == c
  {
    seq(j, _ => c)
  }

  function Calls(c: Call, j: nat): seq<Event> {
    if j == 0 then [] else Calls(c, j - 1) + [Called(0, c)]
  }

  /** The log of agent 0 records h from n on behind header k, in this many bytes. */
  predicate Stands(s: State, h: seq<Call>, n: nat, k: nat, size: nat) {
    LogPath(0) in s.fs && RecordsFrom(s.fs[LogPath(0)], h, n, k) && |s.fs[LogPath(0)]| == size
  }

  lemma OneMore(s: State, es: seq<Event>, e: Event)
    requires AllowedRun(s, es) && Allowed(Run(s, es), e)
    ensures AllowedRun(s, es + [e]) && Run(s, es + [e]) == Step(Run(s, es), e)
  {
    hide Step, Allowed;
    assert (es + [e])[..|es|] == es;
  }

  lemma CallStands(s: State, h: seq<Call>, n: nat, k: nat, size: nat, c: Call)
    requires Stands(s, h, n, k, size) && GoodCall(c) && size + |CallText(c)| <= QUOTA
    ensures Stands(Step(s, Called(0, c)), h + [c], n, k, size + |CallText(c)|)
  {
    hide LogPath, CallText, RecordsFrom, AuditWrite;
    var log := s.fs[LogPath(0)];
    CallTextFits(c);
    RecordedSize(log, h, n, k);
    WriteAppends(s.fs, 0, log, CallText(c));
    AppendRecords(log, h, n, k, c);
  }

  lemma {:induction false} CallsStand(s: State, es: seq<Event>, h: seq<Call>, n: nat, k: nat, size: nat, c: Call,
                                      j: nat, total: nat)
    requires AllowedRun(s, es) && Stands(Run(s, es), h, n, k, size) && GoodCall(c)
    requires size + j * |CallText(c)| == total <= QUOTA
    ensures AllowedRun(s, es + Calls(c, j)) && Stands(Run(s, es + Calls(c, j)), h + Copies(c, j), n, k, total)
    decreases j
  {
    CallsGrow(es, h, c, j);
    hide Stands, Step, CallText, Run, AllowedRun, Calls, Copies, GoodCall;
    if j > 0 {
      Succ(|CallText(c)|, j - 1);
      var less := total - |CallText(c)|;
      CallsStand(s, es, h, n, k, size, c, j - 1, less);
      var before := es + Calls(c, j - 1);
      CallStands(Run(s, before), h + Copies(c, j - 1), n, k, less, c);
      OneMore(s, before, Called(0, c));
    }
  }

  lemma CallsGrow(es: seq<Event>, h: seq<Call>, c: Call, j: nat)
    ensures j == 0 ==> es + Calls(c, j) == es && h + Copies(c, j) == h
    ensures j > 0 ==> es + Calls(c, j) == es + Calls(c, j - 1) + [Called(0, c)]
    ensures j > 0 ==> h + Copies(c, j) == h + Copies(c, j - 1) + [c]
  {
  }

  lemma CompactionStands(s: State, h: seq<Call>, n: nat, k: nat, size: nat, keep: nat)
    requires Stands(s, h, n, k, size) && 1 <= keep <= 32 && |LogLines(h, n, k)| == keep + 1
    ensures keep <= |h|
    ensures var s' := Step(s, Compaction(0, keep));
            && LogPath(0) in s'.fs
            && RecordsFrom(s'.fs[LogPath(0)], h, |h| - keep, keep)
            && |s'.fs[LogPath(0)]| == size - |LogLines(h, n, k)[0]| + |Header(keep)|
  {
    hide LogPath, CallText, Flat, Compacted, Starts, RecordsFrom, Header, LogLines;
    var log := s.fs[LogPath(0)];
    RecordedSize(log, h, n, k);
    CompactRecords(log, h, n, k, keep);
    OneLineDropped(log, h, n, k, keep);
    assert Clamp(keep) == keep;
  }

  /** Ten long calls, a compaction to nine lines, six more long calls and a short one. */
  function FillingRun(): seq<Event> {
    [Called(0, LONG)] + Calls(LONG, 9) + [Compaction(0, 9)] + Calls(LONG, 6) + [Called(0, SHORT)]
  }

  lemma TenLongCalls()
    ensures var s, es := State(map[], map[]), [Called(0, LONG)] + Calls(LONG, 9);
            AllowedRun(s, es) && Stands(Run(s, es), Copies(LONG, 10), 0, 0, 320)
  {
    LineLengths();
    var s := State(map[], map[]);
    hide LogPath, CallText, LogCall, RecordsFrom, Calls;
    FirstCall(s.fs, 0, LONG);
    OneMore(s, [], Called(0, LONG));
    assert [] + [Called(0, LONG)] == [Called(0, LONG)];
    assert Stands(Run(s, [Called(0, LONG)]), [LONG], 0, 0, 32);
    CallsStand(s, [Called(0, LONG)], [LONG], 0, 0, 32, LONG, 9, 320);
    assert [LONG] + Copies(LONG, 9) == Copies(LONG, 10);
  }

  lemma NineLinesKept()
    ensures var s, es := State(map[], map[]), [Called(0, LONG)] + Calls(LONG, 9) + [Compaction(0, 9)];
            AllowedRun(s, es) && Stands(Run(s, es), Copies(LONG, 10), 1, 9, 299)
  {
    LineLengths();
    HeaderFits(9);
    TenLongCalls();
    var s := State(map[], map[]);
    var es := [Called(0, LONG)] + Calls(LONG, 9);
    hide LogPath, CallText, Header, LogCall, RecordsFrom, Calls, Step;
    CompactionStands(Run(s, es), Copies(LONG, 10), 0, 0, 320, 9);
    OneMore(s, es, Compaction(0, 9));
  }

  lemma FilledLog()
    ensures var s := State(map[], map[]);
            && AllowedRun(s, FillingRun())
            && Stands(Run(s, FillingRun()), Copies(LONG, 16) + [SHORT], 1, 9, QUOTA)
  {
    LineLengths();
    NineLinesKept();
    var s := State(map[], map[]);
    var es := [Called(0, LONG)] + Calls(LONG, 9) + [Compaction(0, 9)];
    hide CallText, Stands, Calls, Step, Run, AllowedRun;
    CallsStand(s, es, Copies(LONG, 10), 1, 9, 299, LONG, 6, 491);
    assert Copies(LONG, 10) + Copies(LONG, 6) == Copies(LONG, 16);
    CallStands(Run(s, es + Calls(LONG, 6)), Copies(LONG, 16), 1, 9, 491, SHORT);
    OneMore(s, es + Calls(LONG, 6), Called(0, SHORT));
  }

  /** The quota is exceeded: that run fills the log to 512 bytes, and a compaction to 16 lines makes it 513. */
  lemma OneByteOver()
    ensures var s, es := State(map[], map[]), FillingRun() + [Compaction(0, 16)];
            && AllowedRun(s, FillingRun()) && Stands(Run(s, FillingRun()), Copies(LONG, 16) + [SHORT], 1, 9, QUOTA)
            && AllowedRun(s, es) && LogPath(0) in Run(s, es).fs && |Run(s, es).fs[LogPath(0)]| == QUOTA + 1
  {
    HeaderFits(9);
    HeaderFits(16);
    FilledLog();
    var s := State(map[], map[]);
    hide LogPath, CallText, Header, RecordsFrom, FillingRun, Step;
    CompactionStands(Run(s, FillingRun()), Copies(LONG, 16) + [SHORT], 1, 9, QUOTA, 16);
    OneMore(s, FillingRun(), Compaction(0, 16));
  }
}
