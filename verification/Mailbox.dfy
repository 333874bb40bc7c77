/** Agents' mailboxes (kernel/ipc.c): a priority queue of steer messages over a queue of normal ones. */
module Mailbox {
  import opened Base
  import opened Decimal

  const MSG_CAPACITY := 16
  const MSG_STEER_CAPACITY := 4
  const MSG_PAYLOAD_SIZE := 224
  const MSG_STEER := 0x8001
  const MSG_SUMMARY := 0x8003

  type int32 = n: int | -0x8000_0000 <= n < 0x8000_0000

  /** `struct agent_msg`; a payload is MSG_PAYLOAD_SIZE characters, one per byte. */
  datatype Msg = Msg(sender: int32, kind: int32, payload: string)

  /** What a mailbox holds, oldest message first. */
  datatype Box = Box(steer: seq<Msg>, normal: seq<Msg>)

  ghost predicate Valid(b: Box) {
    && |b.steer| <= MSG_STEER_CAPACITY && |b.normal| <= MSG_CAPACITY
    && (forall m | m in b.steer :: m.kind == MSG_STEER) && (forall m | m in b.normal :: m.kind != MSG_STEER)
  }

  // ---------------------------------------------------------------- operations

  /** `msgbox_push` */
  function Push(b: Box, m: Msg): (Box, int) {
    if m.kind == MSG_STEER then
      if |b.steer| >= MSG_STEER_CAPACITY then (b, ENOSPC) else (b.(steer := b.steer + [m]), 0)
    else
      if |b.normal| >= MSG_CAPACITY then (b, ENOSPC) else (b.(normal := b.normal + [m]), 0)
  }

  /** `msgbox_pop` */
  function Pop(b: Box): (Box, Option<Msg>) {
    if |b.steer| > 0 then (b.(steer := b.steer[1..]), Some(b.steer[0]))
    else if |b.normal| == 0 then (b, None)
    else (b.(normal := b.normal[1..]), Some(b.normal[0]))
  }

  /** The conversion of a message type to `unsigned int`. */
  function Unsigned(n: int32): (u: nat)
    ensures u < TWO_32
  {
    if n < 0 then n + TWO_32 else n
  }

  function Kinds(ms: seq<Msg>): (ks: seq<nat>)
    ensures |ks| == |ms| && forall i | 0 <= i < |ms| :: ks[i] == Unsigned(ms[i].kind)
  {
    seq(|ms|, i requires 0 <= i < |ms| => Unsigned(ms[i].kind))
  }

  function ClampKeep(keep: int): nat {
    if keep < 0 then 0 else if keep > MSG_CAPACITY then MSG_CAPACITY else keep
  }

  /** `msgbox_compact`: the oldest normal messages give way to one summary of their types. */
  function Compact(b: Box, keep: int): Box {
    var k := ClampKeep(keep);
    if |b.normal| <= k then b
    else
      var drop := |b.normal| - k;
      b.(normal := [SummaryOf(b.normal[..drop])] + b.normal[drop..])
  }

  // ---------------------------------------------------------------- the printed summary

  /** `payload_putc`: the last byte of the payload is never written. */
  function Putc(text: string, c: char): string {
    if |text| < MSG_PAYLOAD_SIZE - 1 then text + [c] else text
  }

  function Puts(text: string, s: string): string
    decreases |s|
  {
    if s == [] then text else Puts(Putc(text, s[0]), s[1..])
  }

  /** The loop of `msgbox_compact` over the dropped messages, from message i on. */
  function PutKinds(text: string, kinds: seq<nat>, i: nat): string
    requires i <= |kinds|
    decreases |kinds| - i
  {
    if i < |kinds| && |text| < MSG_PAYLOAD_SIZE - 8 then
      var t1 := if i > 0 then Putc(text, ',') else text;
      PutKinds(Puts(Putc(t1, 't'), Digits(kinds[i])), kinds, i + 1)
    else text
  }

  /** The text that ends up in the payload, with the truncation the code would apply. */
  function PrintSummary(kinds: seq<nat>): string {
    PutKinds(Puts(Puts(Puts("", "compact:"), Digits(|kinds|)), ";"), kinds, 0)
  }

  /** A text in a zeroed payload. */
  function Padded(text: string): string {
    if |text| <= MSG_PAYLOAD_SIZE then text + Zeros(MSG_PAYLOAD_SIZE - |text|) else text[..MSG_PAYLOAD_SIZE]
  }

  function SummaryOf(dropped: seq<Msg>): Msg {
    Msg(0, MSG_SUMMARY, Padded(PrintSummary(Kinds(dropped))))
  }

  // ---------------------------------------------------------------- what the summary says

  /** "t" and the type for each dropped message, separated by commas. */
  function KindList(kinds: seq<nat>): string {
    if kinds == [] then ""
    else "t" + Digits(kinds[0]) + (if |kinds| == 1 then "" else "," + KindList(kinds[1..]))
  }

  function SummaryText(kinds: seq<nat>): string {
    "compact:" + Digits(|kinds|) + ";" + KindList(kinds)
  }

  lemma SummaryExample()
    ensures SummaryText([5, 7]) == "compact:2;t5,t7"
  {
    assert Digits(2) == "2" && Digits(5) == "5" && Digits(7) == "7";
    assert [5, 7][1..] == [7];
  }

  lemma {:induction false} PutsFits(text: string, s: string)
    requires |text| + |s| < MSG_PAYLOAD_SIZE
    ensures Puts(text, s) == text + s
    decreases |s|
  {
    if s != [] {
      PutsFits(Putc(text, s[0]), s[1..]);
    } else {
      assert text + s == text;
    }
  }

  lemma {:induction false} KindListLength(kinds: seq<nat>)
    requires forall j | 0 <= j < |kinds| :: kinds[j] < TWO_32
    ensures |KindList(kinds)| <= 12 * |kinds|
    ensures |kinds| > 0 ==> |KindList(kinds)| <= 12 * |kinds| - 1
  {
    if kinds != [] {
      DigitsOf32(kinds[0]);
      KindListLength(kinds[1..]);
    }
  }

  /** The rest of the list as it is printed behind what is already there. */
  function Remaining(kinds: seq<nat>, i: nat): string
    requires i <= |kinds|
  {
    if i < |kinds| && i > 0 then "," + KindList(kinds[i..]) else KindList(kinds[i..])
  }

  /** One item of the list, with the comma that separates it from the one before. */
  function Item(kinds: seq<nat>, i: nat): string
    requires i < |kinds|
  {
    (if i > 0 then ",t" else "t") + Digits(kinds[i])
  }

  lemma PutItem(text: string, kinds: seq<nat>, i: nat)
    requires i < |kinds| && |text| + |Item(kinds, i)| < MSG_PAYLOAD_SIZE
    ensures Puts(Putc(if i > 0 then Putc(text, ',') else text, 't'), Digits(kinds[i])) == text + Item(kinds, i)
  {
    hide Digits, Puts;
    var t := Putc(if i > 0 then Putc(text, ',') else text, 't');
    assert t == text + (if i > 0 then ",t" else "t");
    PutsFits(t, Digits(kinds[i]));
  }

  lemma RemainingUnfolds(kinds: seq<nat>, i: nat)
    requires i < |kinds|
    ensures Remaining(kinds, i) == Item(kinds, i) + Remaining(kinds, i + 1)
  {
    hide Digits;
    assert kinds[i..][0] == kinds[i] && kinds[i..][1..] == kinds[i + 1..];
    var rest := if |kinds[i..]| == 1 then "" else "," + KindList(kinds[i + 1..]);
    assert Remaining(kinds, i + 1) == rest;
    assert KindList(kinds[i..]) == "t" + Digits(kinds[i]) + rest;
    if i > 0 {
      assert "," + ("t" + Digits(kinds[i]) + rest) == ",t" + Digits(kinds[i]) + rest;
    }
  }

  lemma {:induction false} PutKindsComplete(text: string, kinds: seq<nat>, i: nat)
    requires i <= |kinds| <= MSG_CAPACITY && forall j | 0 <= j < |kinds| :: kinds[j] < TWO_32
    requires |text| + 12 * (|kinds| - i) <= MSG_PAYLOAD_SIZE - 8
    ensures PutKinds(text, kinds, i) == text + Remaining(kinds, i)
    decreases |kinds| - i
  {
    hide PutKinds, Remaining, Item;
    if i < |kinds| {
      ItemLength(kinds, i);
      PutKindsStep(text, kinds, i);
      RemainingUnfolds(kinds, i);
      PutKindsComplete(text + Item(kinds, i), kinds, i + 1);
      Assoc(text, Item(kinds, i), Remaining(kinds, i + 1));
    } else {
      PutKindsEnd(text, kinds);
    }
  }

  lemma Assoc(a: string, b: string, c: string)
    ensures a + (b + c) == a + b + c
  {
  }

  lemma PutKindsStep(text: string, kinds: seq<nat>, i: nat)
    requires i < |kinds| && |text| < MSG_PAYLOAD_SIZE - 8 && |text| + |Item(kinds, i)| < MSG_PAYLOAD_SIZE
    ensures PutKinds(text, kinds, i) == PutKinds(text + Item(kinds, i), kinds, i + 1)
  {
    hide Digits, Puts, Putc, Item;
    PutItem(text, kinds, i);
  }

  lemma PutKindsEnd(text: string, kinds: seq<nat>)
    ensures PutKinds(text, kinds, |kinds|) == text + Remaining(kinds, |kinds|)
  {
    assert kinds[|kinds|..] == [] && Remaining(kinds, |kinds|) == "";
    assert text + "" == text;
  }

  lemma ItemLength(kinds: seq<nat>, i: nat)
    requires i < |kinds| && kinds[i] < TWO_32
    ensures |Item(kinds, i)| <= 12
  {
    DigitsOf32(kinds[i]);
  }

  function Header(n: nat): string {
    "compact:" + Digits(n) + ";"
  }

  lemma PutHeader(n: nat)
    requires n <= MSG_CAPACITY
    ensures Puts(Puts(Puts("", "compact:"), Digits(n)), ";") == Header(n) && |Header(n)| <= 11
  {
    assert Pow10(2) == 10 * Pow10(1) && Pow10(1) == 10 * Pow10(0);
    DigitsLength(n, 2);
    hide Digits, Puts, Putc, Pow10;
    PutsFits("", "compact:");
    PutsFits("compact:", Digits(n));
    PutsFits("compact:" + Digits(n), ";");
    assert "" + "compact:" == "compact:";
  }

  /** For every possible set of dropped messages the text fits: no guard ever cuts it short. */
  lemma SummaryNeverTruncated(kinds: seq<nat>)
    requires |kinds| <= MSG_CAPACITY && forall j | 0 <= j < |kinds| :: kinds[j] < TWO_32
    ensures PrintSummary(kinds) == SummaryText(kinds) && |SummaryText(kinds)| <= 202
  {
    hide Digits, Puts, PutKinds, KindList;
    PutHeader(|kinds|);
    PutKindsComplete(Header(|kinds|), kinds, 0);
    assert kinds[0..] == kinds;
    KindListLength(kinds);
    if kinds == [] {
      EmptyKindList();
    }
  }

  lemma EmptyKindList()
    ensures KindList([]) == ""
  {
  }

  // ---------------------------------------------------------------- reading it back

  function ReadKinds(s: string): seq<nat>
    decreases |s|
  {
    if s == [] || s[0] != 't' then []
    else
      var (k, rest) := Scan(s[1..], 0);
      ScanShrinks(s[1..], 0);
      if rest != [] && rest[0] == ',' then [k] + ReadKinds(rest[1..]) else [k]
  }

  lemma ScanShrinks(s: string, v: nat)
    ensures |Scan(s, v).1| <= |s|
  {
  }

  /** A reader of summaries: the number of dropped messages and their types. */
  function ReadSummary(payload: string): Option<(nat, seq<nat>)> {
    if |payload| < 8 || payload[..8] != "compact:" then None
    else
      var (n, rest) := Scan(payload[8..], 0);
      if rest == [] || rest[0] != ';' then None else Some((n, ReadKinds(rest[1..])))
  }

  /** The reader takes one item and, behind a comma, goes on. */
  lemma ReadOneKind(k: nat, tail: string)
    requires EndsNumber(tail)
    ensures ReadKinds("t" + Digits(k) + tail) ==
            if tail != [] && tail[0] == ',' then [k] + ReadKinds(tail[1..]) else [k]
  {
    var s := "t" + Digits(k) + tail;
    assert s[0] == 't' && s[1..] == Digits(k) + tail;
    ScanDigits(k, tail);
    hide Digits, Scan;
  }

  lemma {:induction false} ReadKindsBack(kinds: seq<nat>, rest: string)
    requires rest == [] || (!IsDigit(rest[0]) && rest[0] != ',' && rest[0] != 't')
    ensures ReadKinds(KindList(kinds) + rest) == kinds
  {
    hide Digits, Scan, ReadKinds;
    if kinds == [] {
      assert KindList(kinds) + rest == rest;
      ReadNothing(rest);
    } else {
      var tail := (if |kinds| == 1 then "" else "," + KindList(kinds[1..])) + rest;
      assert KindList(kinds) + rest == "t" + Digits(kinds[0]) + tail;
      ReadOneKind(kinds[0], tail);
      if |kinds| > 1 {
        assert tail[1..] == KindList(kinds[1..]) + rest;
        ReadKindsBack(kinds[1..], rest);
      } else {
        assert tail == rest;
      }
    }
  }

  lemma ReadNothing(rest: string)
    requires rest == [] || rest[0] != 't'
    ensures ReadKinds(rest) == []
  {
  }

  /**
   The summary loses nothing about types: its payload reads back, uniquely, as the number of dropped
   messages and the exact sequence of their types as unsigned 32-bit numbers.
   */
  lemma SummaryReadsBack(dropped: seq<Msg>)
    requires |dropped| <= MSG_CAPACITY
    ensures |SummaryOf(dropped).payload| == MSG_PAYLOAD_SIZE
    ensures ReadSummary(SummaryOf(dropped).payload) == Some((|dropped|, Kinds(dropped)))
  {
    hide Digits, Scan, ReadKinds, PrintSummary, KindList;
    var kinds := Kinds(dropped);
    SummaryNeverTruncated(kinds);
    var zeros := Zeros(MSG_PAYLOAD_SIZE - |SummaryText(kinds)|);
    ReadText(kinds, zeros);
  }

  lemma ReadText(kinds: seq<nat>, rest: string)
    requires rest == [] || (!IsDigit(rest[0]) && rest[0] != ',' && rest[0] != 't')
    ensures ReadSummary(SummaryText(kinds) + rest) == Some((|kinds|, kinds))
  {
    hide Digits, Scan, ReadKinds, KindList;
    var payload := SummaryText(kinds) + rest;
    var list := ";" + KindList(kinds) + rest;
    assert payload[..8] == "compact:";
    assert payload[8..] == Digits(|kinds|) + list;
    ScanDigits(|kinds|, list);
    assert list[1..] == KindList(kinds) + rest;
    ReadKindsBack(kinds, rest);
  }
}
