/** kernel/audit.c and `tool_audit_log` as the code runs them, on the file table. */
module AuditMachine {
  import opened Base
  import opened Decimal
  import opened Audit
  import opened Files
  import opened FilesMachine
  import opened RamfsMachine
  import Ramfs

  // ---------------------------------------------------------------- building lines

  /** `append_int`: fails exactly when the text and a spare byte do not fit behind `buf`. */
  method AppendInt(buf: string, cap: nat, val: int) returns (ok: bool, out: string)
    requires Int32(val)
    ensures ok <==> |buf| + |IntText(val)| < cap
    ensures ok ==> out == buf + IntText(val)
  {
    out := buf;
    var n: nat := if val < 0 then -val else val;
    if val < 0 {
      if |out| >= cap - 1 {
        return false, out;
      }
      out := out + ['-'];
    }
    ghost var front := out;
    assert IntText(val) == (if val < 0 then "-" else "") + Digits(n);
    if n == 0 {
      if |out| >= cap - 1 {
        return false, out;
      }
      return true, out + ['0'];
    }
    var tmp := ReverseDigits(n);
    var i := |tmp|;
    assert tmp[..i] == tmp;
    while i > 0
      invariant i <= |tmp| && out + Reverse(tmp[..i]) == front + Digits(n)
      invariant i > 0 || |out| < cap
    {
      ReverseStep(tmp, i);
      if |out| >= cap - 1 {
        assert |out + Reverse(tmp[..i])| >= cap;
        return false, out;
      }
      i := i - 1;
      out := out + [tmp[i]];
    }
    assert out == front + Digits(n);
    ok := true;
  }

  lemma ReverseStep(tmp: string, i: nat)
    requires 0 < i <= |tmp|
    ensures Reverse(tmp[..i]) == [tmp[i - 1]] + Reverse(tmp[..i - 1])
  {
    assert tmp[..i][..i - 1] == tmp[..i - 1];
  }

  /** The line `tool_audit_log` builds: neither number hits the end of the 32-byte buffer. */
  method BuildLine(c: Call) returns (line: string)
    requires GoodCall(c)
    ensures line == CallText(c)
  {
    hide IntText;
    IntTextFits(c.tool);
    IntTextFits(c.rc);
    var ok1, text := AppendInt("tool=", 32, c.tool);
    assert ok1;
    text := text + " rc=";
    var ok2, text2 := AppendInt(text, 32, c.rc);
    assert ok2;
    line := text2 + "\n";
  }

  /** `audit_path_for` */
  method BuildPath(id: nat) returns (path: string)
    ensures path == LogPath(id)
  {
    path := PATH_HEAD;
    if id == 0 {
      path := path + "0";
    } else {
      var tmp := ReverseDigits(id);
      var nd := |tmp|;
      assert tmp[..nd] == tmp;
      while nd > 0
        invariant nd <= |tmp| && path + Reverse(tmp[..nd]) == PATH_HEAD + Digits(id)
      {
        ReverseStep(tmp, nd);
        nd := nd - 1;
        path := path + [tmp[nd]];
      }
      assert path == PATH_HEAD + Digits(id);
    }
    path := path + PATH_TAIL;
  }

  // ---------------------------------------------------------------- the log file

  /** `audit_usage` */
  method MeasureUsage(fs: FileTable, id: nat) returns (used: nat)
    requires Good(fs) && id < MAX_ID
    ensures used == Usage(Map(fs), id)
  {
    hide Ramfs.View, LogPath;
    var path := BuildPath(id);
    LogPathFits(id);
    var n := ProbeSize(fs, path);
    used := if n < 0 then 0 else n;
  }

  /** `audit_write`; the quota makes its test against the file size redundant. */
  method WriteLog(fs: FileTable, id: nat, data: string) returns (rc: int)
    requires Good(fs) && id < MAX_ID
    modifies fs.files
    ensures Good(fs) && (Map(fs), rc) == AuditWrite(old(Map(fs)), id, data)
  {
    hide Ramfs.View, LogPath;
    if |data| == 0 {
      return EINVAL;
    }
    var used := MeasureUsage(fs, id);
    if used + |data| > QUOTA {
      return ENOSPC;
    }
    var path := BuildPath(id);
    LogPathFits(id);
    if used == 0 {
      rc := Store(fs, path, data);
      return;
    }
    var n, buf := Fetch(fs, path, used);
    assert buf == Map(fs)[path];
    ghost var log := buf;
    for i := 0 to |data|
      invariant buf == log + data[..i]
    {
      buf := buf + [data[i]];
    }
    assert data[..|data|] == data;
    rc := Store(fs, path, buf);
  }

  // ---------------------------------------------------------------- compaction

  /** The scan for line starts. */
  method FindStarts(buf: string) returns (starts: seq<nat>)
    ensures starts == Starts(buf, |buf|)
  {
    starts := [0];
    for i := 0 to |buf|
      invariant starts == Starts(buf, i)
    {
      if buf[i] == '\n' && i + 1 < |buf| {
        if |starts| < MAX_STARTS {
          starts := starts + [i + 1];
        }
      }
    }
  }

  /** The copy of a log's tail behind a header, as far as the buffer goes. */
  method CopyTail(front: string, buf: string, start: nat) returns (out: string)
    requires start <= |buf| && |front| < Ramfs.RAMFS_FILE_SIZE
    ensures out == Cut(front + buf[start..])
  {
    out := front;
    ghost var whole := front + buf[start..];
    var i := start;
    assert whole[..|front|] == front;
    while i < |buf| && |out| < Ramfs.RAMFS_FILE_SIZE - 1
      invariant start <= i <= |buf| && |out| == |front| + i - start < Ramfs.RAMFS_FILE_SIZE
      invariant out == whole[..|out|]
    {
      assert whole[|out|] == buf[i] && whole[..|out| + 1] == whole[..|out|] + [whole[|out|]];
      out := out + [buf[i]];
      i := i + 1;
    }
    assert |whole| == |front| + |buf| - start;
    assert whole[..|whole|] == whole;
  }

  /** `audit_compact` */
  method CompactLog(fs: FileTable, id: nat, keep: int) returns (r: int)
    requires Good(fs) && id < MAX_ID
    modifies fs.files
    ensures Good(fs) && (Map(fs), r) == Compact(old(Map(fs)), id, keep)
  {
    hide Ramfs.View, LogPath, Starts, Cut, Usage;
    var k := keep;
    if k < 1 {
      k := 1;
    }
    if k > 32 {
      k := 32;
    }
    var path := BuildPath(id);
    LogPathFits(id);
    var n, buf := Fetch(fs, path, Ramfs.RAMFS_FILE_SIZE);
    if n <= 0 {
      return 0;
    }
    FilesFit(fs.files[..], path);
    assert buf == Map(fs)[path] && k == Clamp(keep);
    var starts := FindStarts(buf);
    if |starts| <= k {
      r := MeasureUsage(fs, id);
      return;
    }
    var front := "compact: ";
    if k >= 10 {
      front := front + [Digit(k / 10)];
    }
    front := front + [Digit(k % 10)];
    front := front + "\n";
    assert front == Header(k);
    HeaderFits(k);
    var out := CopyTail(front, buf, starts[|starts| - k]);
    assert out == Compacted(buf, k);
    var _ := Store(fs, path, out);
    r := |out|;
  }

  /** `tool_audit_log` */
  method LogToolCall(fs: FileTable, id: nat, tool: int, rc: int) returns (wrc: int)
    requires Good(fs) && id < MAX_ID && Int32(tool) && Int32(rc)
    modifies fs.files
    ensures Good(fs) && (Map(fs), wrc) == LogCall(old(Map(fs)), id, Call(tool, rc))
  {
    hide Ramfs.View, LogPath, CallText, AuditWrite, Compact;
    var line := BuildLine(Call(tool, rc));
    wrc := WriteLog(fs, id, line);
    if wrc == ENOSPC {
      var _ := CompactLog(fs, id, 8);
      wrc := WriteLog(fs, id, line);
    }
  }
}
