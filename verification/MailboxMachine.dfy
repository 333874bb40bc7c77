/** kernel/ipc.c as it runs: two ring buffers and a compaction that prints into a fixed-size payload. */
module MailboxMachine {
  import opened Base
  import opened Decimal
  import opened Mailbox
  import MailboxRuns

  // ---------------------------------------------------------------- rings

  /** An index taken round a ring. */
  function Round(i: nat, cap: nat): (r: nat)
    requires cap > 0
    ensures r < cap
  {
    i % cap
  }

  lemma RoundOnce(i: nat, cap: nat)
    requires cap > 0 && i < 2 * cap
    ensures Round(i, cap) == if i < cap then i else i - cap
  {
    if i >= cap {
      assert i == cap * 1 + (i - cap);
    }
  }

  /** The messages of a ring: `count` slots from `head` on, wrapping round. */
  function RingSeq(data: seq<Msg>, head: nat, count: nat): seq<Msg>
    requires head < |data| && count <= |data|
  {
    if head + count <= |data| then data[head..head + count] else data[head..] + data[..head + count - |data|]
  }

  lemma RingAt(data: seq<Msg>, head: nat, count: nat)
    requires head < |data| && count <= |data|
    ensures |RingSeq(data, head, count)| == count
    ensures forall k | 0 <= k < count :: RingSeq(data, head, count)[k] == data[Round(head + k, |data|)]
  {
    hide Round;
    forall k | 0 <= k < count ensures RingSeq(data, head, count)[k] == data[Round(head + k, |data|)] {
      RoundOnce(head + k, |data|);
    }
  }

  /** Dropping the first message moves the head on, and the tail stays. */
  lemma RingPops(data: seq<Msg>, head: nat, count: nat)
    requires head < |data| && 0 < count <= |data|
    ensures var h := Round(head + 1, |data|);
            && [data[head]] + RingSeq(data, h, count - 1) == RingSeq(data, head, count)
            && Round(h + (count - 1), |data|) == Round(head + count, |data|)
  {
    hide Round, RingSeq;
    RoundOnce(head + 1, |data|);
    var h := Round(head + 1, |data|);
    RoundOnce(head, |data|);
    RoundOnce(head + count, |data|);
    RoundOnce(h + (count - 1), |data|);
    RingAt(data, head, count);
    RingAt(data, h, count - 1);
    var all, rest := RingSeq(data, head, count), RingSeq(data, h, count - 1);
    forall k | 0 <= k < count - 1 ensures rest[k] == all[k + 1] {
      RoundOnce(h + k, |data|);
      RoundOnce(head + (k + 1), |data|);
    }
    assert all[0] == data[Round(head + 0, |data|)];
  }

  /** Writing behind the last message adds it and moves the tail on. */
  lemma RingPushes(data: seq<Msg>, head: nat, count: nat, m: Msg)
    requires head < |data| && count < |data|
    ensures var t := Round(head + count, |data|);
            && RingSeq(data[t := m], head, count + 1) == RingSeq(data, head, count) + [m]
            && Round(t + 1, |data|) == Round(head + (count + 1), |data|)
  {
    hide Round, RingSeq;
    var t := Round(head + count, |data|);
    RoundOnce(head + count, |data|);
    RoundOnce(t + 1, |data|);
    RoundOnce(head + (count + 1), |data|);
    RingAt(data, head, count);
    RingAt(data[t := m], head, count + 1);
    var all, more := RingSeq(data, head, count), RingSeq(data[t := m], head, count + 1);
    forall k | 0 <= k < count ensures more[k] == all[k] {
      RoundOnce(head + k, |data|);
    }
  }

  class Ring {
    const slots: array<Msg>
    var head: nat
    var tail: nat
    var count: nat

    ghost predicate Valid()
      reads this
    {
      && 0 < slots.Length && head < slots.Length && count <= slots.Length
      && tail == Round(head + count, slots.Length)
    }

    ghost function Contents(): seq<Msg>
      requires Valid()
      reads this, slots
    {
      RingSeq(slots[..], head, count)
    }

    constructor (cap: nat, blank: Msg)
      requires cap > 0
      ensures Valid() && slots.Length == cap && Contents() == [] && fresh(slots)
    {
      slots := new Msg[cap](_ => blank);
      head, tail, count := 0, 0, 0;
    }

    method Push(m: Msg)
      requires Valid() && count < slots.Length
      modifies this, slots
      ensures Valid() && Contents() == old(Contents()) + [m]
    {
      hide Round, RingSeq;
      RingPushes(slots[..], head, count, m);
      ghost var data := slots[..];
      slots[tail] := m;
      assert slots[..] == data[tail := m];
      tail := Round(tail + 1, slots.Length);
      count := count + 1;
    }

    method Pop() returns (m: Msg)
      requires Valid() && count > 0
      modifies this
      ensures Valid() && [m] + Contents() == old(Contents())
    {
      hide Round, RingSeq;
      RingPops(slots[..], head, count);
      m := slots[head];
      head := Round(head + 1, slots.Length);
      count := count - 1;
    }

    /** Message i from the head, as the copying loop of `msgbox_compact` finds it. */
    method Get(i: nat) returns (m: Msg)
      requires Valid() && i < count
      ensures m == Contents()[i]
    {
      hide Round, RingSeq;
      RingAt(slots[..], head, count);
      m := slots[Round(head + i, slots.Length)];
    }

    /** The end of `msgbox_compact`: the ring restarts at slot 0 with these messages. */
    method Refill(ms: seq<Msg>)
      requires Valid() && |ms| <= slots.Length
      modifies this, slots
      ensures Valid() && Contents() == ms
    {
      var end := Round(|ms|, slots.Length);
      head, tail, count := 0, end, |ms|;
      for i := 0 to |ms|
        invariant head == 0 && tail == end && count == |ms| && slots[..i] == ms[..i]
      {
        slots[i] := ms[i];
      }
    }
  }

  // ---------------------------------------------------------------- printing into a payload

  /** The payload holds this text followed by zeros. */
  ghost predicate Shows(dst: array<char>, pos: nat, text: string)
    reads dst
  {
    && dst.Length == MSG_PAYLOAD_SIZE && pos == |text| < MSG_PAYLOAD_SIZE
    && dst[..] == text + Zeros(MSG_PAYLOAD_SIZE - |text|)
  }

  /** `payload_putc` */
  method PayloadPutc(dst: array<char>, pos: nat, c: char, ghost text: string) returns (pos': nat)
    requires Shows(dst, pos, text)
    modifies dst
    ensures pos' == |Putc(text, c)| && Shows(dst, pos', Putc(text, c))
  {
    pos' := pos;
    if pos < MSG_PAYLOAD_SIZE - 1 {
      dst[pos] := c;
      pos' := pos + 1;
    }
  }

  /** `payload_puts` */
  method PayloadPuts(dst: array<char>, pos: nat, s: string, ghost text: string) returns (pos': nat)
    requires Shows(dst, pos, text)
    modifies dst
    ensures pos' == |Puts(text, s)| && Shows(dst, pos', Puts(text, s))
  {
    assert pos == |text|;
    hide Shows, Putc;
    pos' := pos;
    ghost var now := text;
    var i := 0;
    while i < |s|
      invariant i <= |s| && pos' == |now| && Shows(dst, pos', now) && Puts(text, s) == Puts(now, s[i..])
    {
      assert s[i..][1..] == s[i + 1..];
      pos' := PayloadPutc(dst, pos', s[i], now);
      now := Putc(now, s[i]);
      i := i + 1;
    }
  }

  /** `payload_put_uint` */
  method PayloadPutUint(dst: array<char>, pos: nat, n: nat, ghost text: string) returns (pos': nat)
    requires Shows(dst, pos, text)
    modifies dst
    ensures pos' == |Puts(text, Digits(n))| && Shows(dst, pos', Puts(text, Digits(n)))
  {
    assert pos == |text|;
    hide Shows, Putc;
    if n == 0 {
      pos' := PayloadPutc(dst, pos, '0', text);
      assert Digits(0) == "0" && "0"[1..] == "";
      assert Puts(Putc(text, '0'), "") == Putc(text, '0');
      return;
    }
    var tmp := ReverseDigits(n);
    assert tmp[..|tmp|] == tmp;
    pos' := pos;
    ghost var now := text;
    var i := |tmp|;
    while i > 0
      invariant 0 <= i <= |tmp| && pos' == |now| && Shows(dst, pos', now)
      invariant Puts(text, Digits(n)) == Puts(now, Reverse(tmp[..i]))
    {
      i := i - 1;
      assert tmp[..i + 1][..i] == tmp[..i];
      assert Reverse(tmp[..i + 1])[1..] == Reverse(tmp[..i]);
      pos' := PayloadPutc(dst, pos', tmp[i], now);
      now := Putc(now, tmp[i]);
    }
  }

  /** A cleared payload with the summary's header in it. */
  method PrintHeader(n: nat) returns (dst: array<char>, pos: nat)
    ensures fresh(dst) && pos == |Puts(Puts(Puts("", "compact:"), Digits(n)), ";")|
    ensures Shows(dst, pos, Puts(Puts(Puts("", "compact:"), Digits(n)), ";"))
  {
    dst := new char[MSG_PAYLOAD_SIZE](_ => '\0');
    assert dst[..] == "" + Zeros(MSG_PAYLOAD_SIZE);
    assert Shows(dst, 0, "");
    hide Puts, Putc, Digits, Shows, Zeros;
    pos := PayloadPuts(dst, 0, "compact:", "");
    ghost var text := Puts("", "compact:");
    pos := PayloadPutUint(dst, pos, n, text);
    pos := PayloadPuts(dst, pos, ";", Puts(text, Digits(n)));
  }

  /** One dropped message in the list. */
  method PrintKind(dst: array<char>, pos: nat, i: nat, kind: nat, ghost text: string) returns (pos': nat)
    requires pos == |text| && Shows(dst, pos, text)
    modifies dst
    ensures var t := Puts(Putc(if i > 0 then Putc(text, ',') else text, 't'), Digits(kind));
            pos' == |t| && Shows(dst, pos', t)
  {
    hide Puts, Putc, Digits, Shows;
    ghost var now := text;
    pos' := pos;
    if i > 0 {
      pos' := PayloadPutc(dst, pos', ',', now);
      now := Putc(now, ',');
    }
    pos' := PayloadPutc(dst, pos', 't', now);
    pos' := PayloadPutUint(dst, pos', kind, Putc(now, 't'));
  }

  /** The summary part of `msgbox_compact`. */
  method PrintInto(kinds: seq<nat>) returns (payload: string)
    ensures payload == Padded(PrintSummary(kinds))
  {
    hide Puts, Putc, Digits, Shows, Padded;
    var dst, pos := PrintHeader(|kinds|);
    ghost var text := Puts(Puts(Puts("", "compact:"), Digits(|kinds|)), ";");
    var i := 0;
    while i < |kinds| && pos < MSG_PAYLOAD_SIZE - 8
      invariant 0 <= i <= |kinds| && pos == |text| && Shows(dst, pos, text)
      invariant PrintSummary(kinds) == PutKinds(text, kinds, i)
    {
      pos := PrintKind(dst, pos, i, kinds[i], text);
      text := Puts(Putc(if i > 0 then Putc(text, ',') else text, 't'), Digits(kinds[i]));
      i := i + 1;
    }
    ShownPayload(dst, pos, text);
    payload := dst[..];
  }

  lemma ShownPayload(dst: array<char>, pos: nat, text: string)
    requires Shows(dst, pos, text)
    ensures dst[..] == Padded(text) && pos == |text|
  {
  }

  // ---------------------------------------------------------------- the mailbox

  class MsgBox {
    const normal: Ring
    const steer: Ring

    ghost predicate Valid()
      reads this, normal, steer
    {
      && normal != steer && normal.slots != steer.slots
      && normal.Valid() && steer.Valid()
      && normal.slots.Length == MSG_CAPACITY && steer.slots.Length == MSG_STEER_CAPACITY
    }

    ghost function View(): Box
      requires Valid()
      reads this, normal, steer, normal.slots, steer.slots
    {
      Box(steer.Contents(), normal.Contents())
    }

    /** `msgbox_init` */
    constructor (blank: Msg)
      ensures Valid() && View() == Box([], [])
      ensures fresh(normal) && fresh(steer) && fresh(normal.slots) && fresh(steer.slots)
    {
      normal := new Ring(MSG_CAPACITY, blank);
      steer := new Ring(MSG_STEER_CAPACITY, blank);
    }

    /** `msgbox_push` */
    method Push(m: Msg) returns (rc: int)
      requires Valid()
      modifies normal, steer, normal.slots, steer.slots
      ensures Valid() && (View(), rc) == Mailbox.Push(old(View()), m)
    {
      if m.kind == MSG_STEER {
        if steer.count >= MSG_STEER_CAPACITY {
          return ENOSPC;
        }
        steer.Push(m);
        return 0;
      }
      if normal.count >= MSG_CAPACITY {
        return ENOSPC;
      }
      normal.Push(m);
      rc := 0;
    }

    /** `msgbox_pop` */
    method Pop() returns (m: Option<Msg>)
      requires Valid()
      modifies normal, steer
      ensures Valid() && (View(), m) == Mailbox.Pop(old(View()))
    {
      if steer.count > 0 {
        var x := steer.Pop();
        return Some(x);
      }
      if normal.count == 0 {
        return None;
      }
      var x := normal.Pop();
      m := Some(x);
    }

    /** `agent_recv` on a nonempty or empty inbox; `copied` says whether the copy to user space succeeds. */
    method Receive(copied: bool) returns (rc: int, m: Option<Msg>)
      requires Valid()
      modifies normal, steer, normal.slots, steer.slots
      ensures Valid()
      ensures m == Mailbox.Pop(old(View())).1
      ensures m.None? ==> rc == EAGAIN && View() == old(View())
      ensures m.Some? && copied ==> rc == m.value.kind && View() == Mailbox.Pop(old(View())).0
      ensures m.Some? && !copied ==>
                rc == EFAULT && View() == Mailbox.Push(Mailbox.Pop(old(View())).0, m.value).0
      ensures m.Some? && !copied && Mailbox.Valid(old(View())) ==>
                MailboxRuns.Holds(View()) == MailboxRuns.Holds(old(View()))
    {
      hide RingSeq;
      RingAt(normal.slots[..], normal.head, normal.count);
      RingAt(steer.slots[..], steer.head, steer.count);
      if normal.count == 0 && steer.count == 0 {
        return EAGAIN, None;
      }
      ghost var before := View();
      m := Pop();
      if m.None? {
        return EAGAIN, m;
      }
      if !copied {
        MailboxRuns.FaultingRecvConserves(before, []);
        var _ := Push(m.value);
        return EFAULT, m;
      }
      rc := m.value.kind;
    }

    /** The copying loop of `msgbox_compact`: normal messages in order, with their types as printed. */
    method Ordered() returns (ordered: seq<Msg>, kinds: seq<nat>)
      requires Valid()
      ensures ordered == View().normal && kinds == Kinds(ordered)
    {
      hide RingSeq;
      RingAt(normal.slots[..], normal.head, normal.count);
      ordered, kinds := [], [];
      for i := 0 to normal.count
        invariant ordered == View().normal[..i]
        invariant |kinds| == i && forall j | 0 <= j < i :: kinds[j] == Unsigned(ordered[j].kind)
      {
        var m := normal.Get(i);
        ordered := ordered + [m];
        kinds := kinds + [Unsigned(m.kind)];
      }
    }

    /** `msgbox_compact` */
    method Compact(keep: int)
      requires Valid()
      modifies normal, normal.slots
      ensures Valid() && View() == Mailbox.Compact(old(View()), keep)
    {
      hide Padded, PrintSummary, RingSeq;
      var total := normal.count;
      var k := if keep < 0 then 0 else if keep > MSG_CAPACITY then MSG_CAPACITY else keep;
      ghost var before := View();
      assert |before.normal| == total by { RingAt(normal.slots[..], normal.head, total); }
      if total <= k {
        return;
      }
      var drop := total - k;
      var ordered, kinds := Ordered();
      assert kinds[..drop] == Kinds(ordered[..drop]);
      var payload := PrintInto(kinds[..drop]);
      normal.Refill([Msg(0, MSG_SUMMARY, payload)] + ordered[drop..]);
    }
  }
}
