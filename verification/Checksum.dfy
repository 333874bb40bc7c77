/** Internet checksums (kernel/netstack.c:143-177, RFC 1071) over a 32-bit accumulator. */
module Checksum {
  import opened Base

  const IP_PROTO_TCP := 6
  const NET_FRAME_MAX := 1500 + 64

  function Word(hi: byte, lo: byte): nat {
    hi as nat * 256 + lo as nat
  }

  /** Sum of the big-endian 16-bit words; an odd last byte counts as the high half of a word. */
  function WordSum(d: seq<byte>): nat {
    if |d| == 0 then 0 else if |d| == 1 then Word(d[0], 0) else Word(d[0], d[1]) + WordSum(d[2..])
  }

  /** `csum_fold` before the complement: carries are added back until sixteen bits are left. */
  function Fold(sum: nat): nat
    decreases sum
  {
    if sum < 0x1_0000 then sum else Fold(sum % 0x1_0000 + sum / 0x1_0000)
  }

  function Complement(w: nat): nat {
    if w <= 0xffff then 0xffff - w else 0
  }

  /** The checksum of a 32-bit sum. */
  function Finish(sum: nat): nat {
    Complement(Fold(sum))
  }

  /** `csum16` */
  function Csum16(d: seq<byte>): nat {
    Finish(WordSum(d) % TWO_32)
  }

  function PseudoSum(src: nat, dst: nat, len: nat): nat {
    src / 0x1_0000 + src % 0x1_0000 + dst / 0x1_0000 + dst % 0x1_0000 + IP_PROTO_TCP + len % 0x1_0000
  }

  /** `tcp_csum` over a segment and its pseudo-header (section 3.1 of RFC 9293). */
  function TcpCsum(src: nat, dst: nat, seg: seq<byte>): nat {
    Finish((PseudoSum(src, dst, |seg|) + WordSum(seg)) % TWO_32)
  }

  // ---------------------------------------------------------------- folding

  /** Folding keeps the sum modulo 65535, fits sixteen bits, and is zero only for zero. */
  lemma {:induction false} FoldKeepsResidue(sum: nat)
    ensures Fold(sum) <= 0xffff && Fold(sum) % 0xffff == sum % 0xffff && (Fold(sum) == 0 <==> sum == 0)
    decreases sum
  {
    if sum >= 0x1_0000 {
      var hi, lo := sum / 0x1_0000, sum % 0x1_0000;
      FoldKeepsResidue(lo + hi);
      assert sum == (lo + hi) + hi * 0xffff;
      ModShift(lo + hi, hi);
    }
  }

  lemma ModShift(x: nat, k: nat)
    ensures (x + k * 0xffff) % 0xffff == x % 0xffff
  {
    var q, r := x / 0xffff, x % 0xffff;
    assert x + k * 0xffff == (q + k) * 0xffff + r;
  }

  /** A sum completed by its own checksum has checksum zero. */
  lemma CompletedSum(sum: nat)
    ensures Finish(sum + Finish(sum)) == 0
  {
    hide Fold;
    FoldKeepsResidue(sum);
    var f := Fold(sum);
    var total := sum + (0xffff - f);
    FoldKeepsResidue(total);
    var k := sum / 0xffff - f / 0xffff + 1;
    assert total == k * 0xffff;
    ModShift(0, k);
  }

  // ---------------------------------------------------------------- sums over bytes

  lemma {:induction false} WordSumBound(d: seq<byte>)
    ensures WordSum(d) <= 0xffff * ((|d| + 1) / 2)
  {
    if |d| >= 2 {
      WordSumBound(d[2..]);
    }
  }

  /** The 32-bit accumulator cannot overflow on up to 65537 words, and 65537 words of ones just fit. */
  lemma AccumulatorFits(d: seq<byte>)
    requires |d| <= 2 * 0x1_0001
    ensures WordSum(d) < TWO_32
  {
    WordSumBound(d);
    assert (|d| + 1) / 2 <= 0x1_0001;
  }

  /** A 16-bit value stored big-endian at an even offset that held zero. */
  function StoreWord(d: seq<byte>, off: nat, w: nat): (r: seq<byte>)
    requires off + 2 <= |d| && w <= 0xffff
    ensures |r| == |d|
  {
    d[off := (w / 256) as byte][off + 1 := (w % 256) as byte]
  }

  lemma {:induction false} StoreAdds(d: seq<byte>, off: nat, w: nat)
    requires off % 2 == 0 && off + 2 <= |d| && w <= 0xffff && d[off] == 0 && d[off + 1] == 0
    ensures WordSum(StoreWord(d, off, w)) == WordSum(d) + w
  {
    var r := StoreWord(d, off, w);
    if off == 0 {
      assert r[2..] == d[2..];
    } else {
      StoreAdds(d[2..], off - 2, w);
      assert r[2..] == StoreWord(d[2..], off - 2, w);
    }
  }

  /** Storing the checksum at its place makes the checksum of the whole zero. */
  lemma SelfVerifies(base: nat, d: seq<byte>, off: nat)
    requires off % 2 == 0 && off + 2 <= |d| && d[off] == 0 && d[off + 1] == 0
    requires base + WordSum(d) + 0xffff < TWO_32
    ensures var c := Finish((base + WordSum(d)) % TWO_32);
            c <= 0xffff && Finish((base + WordSum(StoreWord(d, off, c))) % TWO_32) == 0
  {
    hide Fold, WordSum, StoreWord;
    FoldKeepsResidue(base + WordSum(d));
    var c := Finish(base + WordSum(d));
    StoreAdds(d, off, c);
    CompletedSum(base + WordSum(d));
  }

  /** A receiver's test: the checksum of a sum is zero exactly for the nonzero multiples of 65535. */
  lemma VerifiesExactly(sum: nat)
    ensures Finish(sum) == 0 <==> sum > 0 && sum % 0xffff == 0
  {
    hide Fold;
    FoldKeepsResidue(sum);
  }

  // ---------------------------------------------------------------- headers

  function Be16(w: nat): seq<byte>
    requires w <= 0xffff
  {
    [(w / 256) as byte, (w % 256) as byte]
  }

  function Be32(w: nat): seq<byte>
    requires w < TWO_32
  {
    Be16(w / 0x1_0000) + Be16(w % 0x1_0000)
  }

  /** The header `ip_send` writes, checksum field still zero (section 3.1 of RFC 791). */
  function IpHeader(iplen: nat, proto: byte, src: nat, dst: nat): (h: seq<byte>)
    requires iplen <= 0xffff && src < TWO_32 && dst < TWO_32
    ensures |h| == 20 && h[10] == 0 && h[11] == 0
  {
    [0x45, 0] + Be16(iplen) + [0, 1, 0, 0, 64, proto, 0, 0] + Be32(src) + Be32(dst)
  }

  /** The segment `tcp_send_raw` writes, checksum field still zero. */
  function TcpSegment(sport: nat, dport: nat, seqno: nat, ack: nat, flags: byte, data: seq<byte>): (s: seq<byte>)
    requires sport <= 0xffff && dport <= 0xffff && seqno < TWO_32 && ack < TWO_32
    ensures |s| == 20 + |data| && s[16] == 0 && s[17] == 0
  {
    Be16(sport) + Be16(dport) + Be32(seqno) + Be32(ack) + [0x50, flags, 0x20, 0, 0, 0, 0, 0] + data
  }

  /** Every IPv4 header the kernel sends verifies: its checksum, recomputed with the field in place, is 0. */
  lemma IpHeaderVerifies(iplen: nat, proto: byte, src: nat, dst: nat)
    requires iplen <= 0xffff && src < TWO_32 && dst < TWO_32
    ensures var h := IpHeader(iplen, proto, src, dst);
            Csum16(h) <= 0xffff && Csum16(StoreWord(h, 10, Csum16(h))) == 0
  {
    hide Fold, WordSum, StoreWord;
    var h := IpHeader(iplen, proto, src, dst);
    WordSumBound(h);
    SelfVerifies(0, h, 10);
  }

  /** So does every TCP segment that fits a frame, odd lengths included. */
  lemma TcpSegmentVerifies(src: nat, dst: nat, seg: seq<byte>)
    requires src < TWO_32 && dst < TWO_32 && 20 <= |seg| <= NET_FRAME_MAX && seg[16] == 0 && seg[17] == 0
    ensures TcpCsum(src, dst, seg) <= 0xffff
    ensures TcpCsum(src, dst, StoreWord(seg, 16, TcpCsum(src, dst, seg))) == 0
  {
    hide Fold, WordSum, StoreWord;
    WordSumBound(seg);
    SelfVerifies(PseudoSum(src, dst, |seg|), seg, 16);
  }

  // ---------------------------------------------------------------- what the bytes mean

  /** A big-endian number. */
  function BigEndian(d: seq<byte>): nat {
    if d == [] then 0 else 256 * BigEndian(d[..|d| - 1]) + d[|d| - 1] as nat
  }

  lemma TwoBytes(d: seq<byte>)
    requires |d| == 2
    ensures BigEndian(d) == 256 * (d[0] as nat) + d[1] as nat
  {
    assert d[..1][..0] == [];
    assert BigEndian(d[..1]) == d[0] as nat;
  }

  lemma FourBytes(d: seq<byte>)
    requires |d| == 4
    ensures BigEndian(d) == 0x100_0000 * (d[0] as nat) + 0x1_0000 * (d[1] as nat) + 256 * (d[2] as nat) + d[3] as nat
  {
    assert d[..3][..2] == d[..2];
    TwoBytes(d[..2]);
  }

  lemma Be16Reads(w: nat)
    requires w <= 0xffff
    ensures BigEndian(Be16(w)) == w
  {
    TwoBytes(Be16(w));
  }

  lemma Be32Reads(w: nat)
    requires w < TWO_32
    ensures |Be32(w)| == 4 && BigEndian(Be32(w)) == w
  {
    FourBytes(Be32(w));
  }

  /** Every field of the IPv4 header stands where section 3.1 of RFC 791 puts it, with the checksum in place. */
  lemma IpFields(iplen: nat, proto: byte, src: nat, dst: nat)
    requires iplen <= 0xffff && src < TWO_32 && dst < TWO_32
    ensures var h0 := IpHeader(iplen, proto, src, dst);
            && Csum16(h0) <= 0xffff
            && var h := StoreWord(h0, 10, Csum16(h0));
            && |h| == 20 && h[0] == 0x45 && h[1] == 0 && BigEndian(h[2..4]) == iplen
            && BigEndian(h[4..6]) == 1 && BigEndian(h[6..8]) == 0 && h[8] == 64 && h[9] == proto
            && BigEndian(h[10..12]) == Csum16(h0) && BigEndian(h[12..16]) == src && BigEndian(h[16..20]) == dst
  {
    IpHeaderVerifies(iplen, proto, src, dst);
    var h0 := IpHeader(iplen, proto, src, dst);
    Be16Reads(iplen);
    Be32Reads(src);
    Be32Reads(dst);
    Be16Reads(Csum16(h0));
    Be16Reads(1);
    Be16Reads(0);
    hide BigEndian, Csum16;
    var h := StoreWord(h0, 10, Csum16(h0));
    assert h[2..4] == Be16(iplen) && h[12..16] == Be32(src) && h[16..20] == Be32(dst);
    assert h[4..6] == Be16(1) && h[6..8] == Be16(0) && h[10..12] == Be16(Csum16(h0));
  }

  /** Every field of the TCP header stands where section 3.1 of RFC 9293 puts it, and the data behind it. */
  lemma TcpFields(sport: nat, dport: nat, seqno: nat, ack: nat, flags: byte, data: seq<byte>, csum: nat)
    requires sport <= 0xffff && dport <= 0xffff && seqno < TWO_32 && ack < TWO_32 && csum <= 0xffff
    ensures var s := StoreWord(TcpSegment(sport, dport, seqno, ack, flags, data), 16, csum);
            && |s| == 20 + |data| && BigEndian(s[0..2]) == sport && BigEndian(s[2..4]) == dport
            && BigEndian(s[4..8]) == seqno && BigEndian(s[8..12]) == ack && s[12] == 0x50 && s[13] == flags
            && BigEndian(s[14..16]) == 8192 && BigEndian(s[16..18]) == csum && BigEndian(s[18..20]) == 0
            && s[20..] == data
  {
    Be16Reads(sport);
    Be16Reads(dport);
    Be32Reads(seqno);
    Be32Reads(ack);
    Be16Reads(8192);
    Be16Reads(csum);
    Be16Reads(0);
    hide BigEndian;
    var s := StoreWord(TcpSegment(sport, dport, seqno, ack, flags, data), 16, csum);
    assert s[0..2] == Be16(sport) && s[2..4] == Be16(dport) && s[4..8] == Be32(seqno) && s[8..12] == Be32(ack);
    assert s[14..16] == Be16(8192) && s[16..18] == Be16(csum) && s[18..20] == Be16(0) && s[20..] == data;
  }

  /** The sum takes the words one by one, as big-endian numbers. */
  lemma WordSumTakes(d: seq<byte>, rest: seq<byte>)
    requires |d| == 2
    ensures WordSum(d + rest) == BigEndian(d) + WordSum(rest)
  {
    TwoBytes(d);
    assert (d + rest)[2..] == rest;
  }

  /** An odd last byte counts as if a zero byte followed it. */
  lemma {:induction false} OddIsPadded(d: seq<byte>)
    ensures |d| % 2 == 1 ==> WordSum(d) == WordSum(d + [0])
  {
    if |d| >= 2 {
      OddIsPadded(d[2..]);
      assert (d + [0])[2..] == d[2..] + [0];
    } else if |d| == 1 {
      assert (d + [0])[2..] == [];
    }
  }

  lemma {:induction false} WordSumConcat(a: seq<byte>, b: seq<byte>)
    requires |a| % 2 == 0
    ensures WordSum(a + b) == WordSum(a) + WordSum(b)
  {
    if a == [] {
      assert a + b == b;
    } else {
      WordSumConcat(a[2..], b);
      assert (a + b)[2..] == a[2..] + b;
    }
  }

  /** An address in network order. */
  function AddressBytes(w: nat): (d: seq<byte>)
    requires w < TWO_32
    ensures |d| == 4
  {
    [(w / 0x100_0000) as byte, (w / 0x1_0000 % 256) as byte, (w / 256 % 256) as byte, (w % 256) as byte]
  }

  /** The twelve bytes of the pseudo-header of section 3.1 of RFC 9293: addresses, a zero, the protocol, the length. */
  function PseudoHeader(src: nat, dst: nat, len: nat): (h: seq<byte>)
    requires src < TWO_32 && dst < TWO_32 && len <= 0xffff
    ensures |h| == 12
  {
    AddressBytes(src) + (AddressBytes(dst) + [0, 6, (len / 256) as byte, (len % 256) as byte])
  }

  lemma AddressWords(w: nat)
    requires w < TWO_32
    ensures 256 * (w / 0x100_0000) + w / 0x1_0000 % 256 == w / 0x1_0000
    ensures 256 * (w / 256 % 256) + w % 256 == w % 0x1_0000
  {
    var hi, lo := w / 0x1_0000, w % 0x1_0000;
    assert w == 0x1_0000 * hi + lo;
    assert w / 0x100_0000 == hi / 256;
    assert w / 256 == 256 * hi + lo / 256;
  }

  /** The four bytes of an address are the two words of its sum. */
  lemma AddressSum(w: nat)
    requires w < TWO_32
    ensures WordSum(AddressBytes(w)) == w / 0x1_0000 + w % 0x1_0000
  {
    AddressWords(w);
    var d := AddressBytes(w);
    assert d[2..][2..] == [];
    assert WordSum(d[2..]) == w % 0x1_0000;
  }

  /** Zero, protocol and length. */
  lemma TailSum(len: nat)
    requires len <= 0xffff
    ensures WordSum([0, 6, (len / 256) as byte, (len % 256) as byte]) == 6 + len
  {
    var d: seq<byte> := [0, 6, (len / 256) as byte, (len % 256) as byte];
    assert d[2..][2..] == [];
    assert WordSum(d[2..]) == len;
  }

  lemma PseudoHeaderSum(src: nat, dst: nat, len: nat)
    requires src < TWO_32 && dst < TWO_32 && len <= 0xffff
    ensures WordSum(PseudoHeader(src, dst, len)) == PseudoSum(src, dst, len)
  {
    hide WordSum, AddressBytes;
    var tail: seq<byte> := [0, 6, (len / 256) as byte, (len % 256) as byte];
    AddressSum(src);
    AddressSum(dst);
    TailSum(len);
    WordSumConcat(AddressBytes(dst), tail);
    WordSumConcat(AddressBytes(src), AddressBytes(dst) + tail);
  }

  /** `tcp_csum` is the checksum of the pseudo-header with the segment behind it. */
  lemma TcpCsumIsPseudoHeader(src: nat, dst: nat, seg: seq<byte>)
    requires src < TWO_32 && dst < TWO_32 && |seg| <= NET_FRAME_MAX
    ensures TcpCsum(src, dst, seg) == Csum16(PseudoHeader(src, dst, |seg|) + seg)
  {
    hide Fold, WordSum, PseudoHeader, PseudoSum;
    PseudoHeaderSum(src, dst, |seg|);
    WordSumConcat(PseudoHeader(src, dst, |seg|), seg);
  }

  /** So a receiver that sums pseudo-header and segment as sent finds zero. */
  lemma ReceiverAccepts(src: nat, dst: nat, seg: seq<byte>)
    requires src < TWO_32 && dst < TWO_32 && 20 <= |seg| <= NET_FRAME_MAX && seg[16] == 0 && seg[17] == 0
    ensures TcpCsum(src, dst, seg) <= 0xffff
    ensures Csum16(PseudoHeader(src, dst, |seg|) + StoreWord(seg, 16, TcpCsum(src, dst, seg))) == 0
  {
    hide Fold, WordSum, PseudoHeader, PseudoSum, TcpCsum, Csum16, StoreWord;
    TcpSegmentVerifies(src, dst, seg);
    TcpCsumIsPseudoHeader(src, dst, StoreWord(seg, 16, TcpCsum(src, dst, seg)));
  }

  /** The numerical example of section 3 of RFC 1071. */
  lemma Rfc1071Example()
    ensures Fold(WordSum([0x00, 0x01, 0xf2, 0x03, 0xf4, 0xf5, 0xf6, 0xf7])) == 0xddf2
    ensures Csum16([0x00, 0x01, 0xf2, 0x03, 0xf4, 0xf5, 0xf6, 0xf7]) == 0x220d
  {
    var d: seq<byte> := [0x00, 0x01, 0xf2, 0x03, 0xf4, 0xf5, 0xf6, 0xf7];
    assert d[2..][2..][2..][2..] == [];
    assert WordSum(d[2..][2..][2..]) == 0xf6f7 && WordSum(d[2..][2..]) == 0x1_ebec;
    assert WordSum(d) == 0x2_ddf0;
    assert Fold(0x2_ddf0) == Fold(0xddf2) == 0xddf2;
  }

  /** A segment of 20 zero bytes between zero addresses. */
  lemma ZeroSegmentExample()
    ensures TcpCsum(0, 0, seq(20, _ => 0)) == 0xffe5
  {
    var z: seq<byte> := seq(20, _ => 0);
    ZeroSum(z);
    assert PseudoSum(0, 0, 20) == 26 && Fold(26) == 26;
  }

  lemma {:induction false} ZeroSum(d: seq<byte>)
    requires forall i | 0 <= i < |d| :: d[i] == 0
    ensures WordSum(d) == 0
  {
    if |d| >= 2 {
      ZeroSum(d[2..]);
    }
  }

  // ---------------------------------------------------------------- the loops

  /** `csum_fold` */
  method CsumFold(sum: nat) returns (c: nat)
    requires sum < TWO_32
    ensures c == Finish(sum)
  {
    var s := sum;
    while s / 0x1_0000 != 0
      invariant Fold(s) == Fold(sum)
      decreases s
    {
      s := s % 0x1_0000 + s / 0x1_0000;
    }
    c := 0xffff - s;
  }

  /** The word loop both checksums share, with its 32-bit accumulator. */
  method SumWords(start: nat, d: seq<byte>) returns (sum: nat)
    requires start < TWO_32
    ensures sum == (start + WordSum(d)) % TWO_32
  {
    sum := start;
    var i := 0;
    while i + 1 < |d|
      invariant 0 <= i <= |d| && i % 2 == 0 && sum < TWO_32
      invariant (start + WordSum(d)) % TWO_32 == (sum + WordSum(d[i..])) % TWO_32
    {
      assert d[i..][2..] == d[i + 2..];
      AddThenWrap(sum + Word(d[i], d[i + 1]), WordSum(d[i + 2..]));
      sum := (sum + Word(d[i], d[i + 1])) % TWO_32;
      i := i + 2;
    }
    if i < |d| {
      assert d[i..] == [d[i]];
      sum := (sum + Word(d[i], 0)) % TWO_32;
    } else {
      assert d[i..] == [];
    }
  }

  lemma AddThenWrap(x: nat, y: nat)
    ensures (x + y) % TWO_32 == (x % TWO_32 + y) % TWO_32
  {
    var q, r := x / TWO_32, x % TWO_32;
    assert x + y == q * TWO_32 + (r + y);
    var p, t := (r + y) / TWO_32, (r + y) % TWO_32;
    assert x + y == (q + p) * TWO_32 + t;
  }

  /** `csum16` */
  method ComputeCsum16(d: seq<byte>) returns (c: nat)
    ensures c == Csum16(d)
  {
    var sum := SumWords(0, d);
    c := CsumFold(sum);
  }

  /** `tcp_csum` */
  method ComputeTcpCsum(src: nat, dst: nat, seg: seq<byte>) returns (c: nat)
    requires src < TWO_32 && dst < TWO_32
    ensures c == TcpCsum(src, dst, seg)
  {
    var sum := src / 0x1_0000 + src % 0x1_0000;
    sum := sum + dst / 0x1_0000 + dst % 0x1_0000;
    sum := sum + IP_PROTO_TCP;
    sum := sum + |seg| % 0x1_0000;
    sum := SumWords(sum, seg);
    c := CsumFold(sum);
  }

  /** The link addresses the stack knows: of one peer, with its IP address, and of the gateway. */
  datatype Neighbours = Neighbours(peer: Option<nat>, gateway: bool)

  /** A packet can go out: as a broadcast, to the known peer on the own network, or through a known gateway. */
  predicate Reachable(src: nat, dst: nat, n: Neighbours) {
    dst == 0xffff_ffff || (if dst / 256 == src / 256 then n.peer == Some(dst) else n.gateway)
  }

  /** `ip_send` up to the hand-over to Ethernet: the packet is built in the transmit buffer. */
  method BuildIp(buf: array<byte>, src: nat, dst: nat, proto: byte, payload: seq<byte>, n: Neighbours)
    returns (rc: int)
    requires buf.Length == NET_FRAME_MAX && src < TWO_32 && dst < TWO_32
    modifies buf
    ensures rc == (if 20 + |payload| > NET_FRAME_MAX || !Reachable(src, dst, n) then EINVAL else 0)
    ensures rc != 0 ==> buf[..] == old(buf[..])
    ensures rc == 0 ==>
              var h := IpHeader(20 + |payload|, proto, src, dst);
              Csum16(h) <= 0xffff && buf[..20 + |payload|] == StoreWord(h, 10, Csum16(h)) + payload
  {
    hide Csum16, StoreWord, IpHeader;
    var iplen := 20 + |payload|;
    if iplen > NET_FRAME_MAX {
      return EINVAL;
    }
    if dst != 0xffff_ffff {
      if dst / 256 == src / 256 {
        if n.peer != Some(dst) {
          return EINVAL;
        }
      } else if !n.gateway {
        return EINVAL;
      }
    }
    FillIp(buf, src, dst, proto, payload);
    rc := 0;
  }

  /** The packet's bytes: the header with its checksum, then the payload. */
  method FillIp(buf: array<byte>, src: nat, dst: nat, proto: byte, payload: seq<byte>)
    requires buf.Length == NET_FRAME_MAX && src < TWO_32 && dst < TWO_32 && 20 + |payload| <= NET_FRAME_MAX
    modifies buf
    ensures var h := IpHeader(20 + |payload|, proto, src, dst);
            Csum16(h) <= 0xffff && buf[..20 + |payload|] == StoreWord(h, 10, Csum16(h)) + payload
  {
    hide Fold, WordSum, StoreWord, IpHeader;
    var iplen := 20 + |payload|;
    var h := IpHeader(iplen, proto, src, dst);
    var c := ComputeCsum16(h);
    IpHeaderVerifies(iplen, proto, src, dst);
    h := StoreWord(h, 10, c);
    for i := 0 to 20
      invariant buf[..i] == h[..i]
    {
      buf[i] := h[i];
    }
    for i := 0 to |payload|
      invariant buf[..20] == h && buf[20..20 + i] == payload[..i]
    {
      buf[20 + i] := payload[i];
    }
    assert buf[..iplen] == buf[..20] + buf[20..iplen];
  }

  /** `tcp_send_raw` up to the hand-over to IP. */
  method BuildTcp(src: nat, dst: nat, sport: nat, dport: nat, seqno: nat, ack: nat, flags: byte, data: seq<byte>)
    returns (seg: Option<seq<byte>>)
    requires src < TWO_32 && dst < TWO_32 && sport <= 0xffff && dport <= 0xffff && seqno < TWO_32 && ack < TWO_32
    ensures seg.None? <==> 20 + |data| > NET_FRAME_MAX
    ensures seg.Some? ==>
              var zeroed := TcpSegment(sport, dport, seqno, ack, flags, data);
              && TcpCsum(src, dst, zeroed) <= 0xffff && seg.value == StoreWord(zeroed, 16, TcpCsum(src, dst, zeroed))
              && TcpCsum(src, dst, seg.value) == 0
  {
    if 20 + |data| > NET_FRAME_MAX {
      return None;
    }
    hide Fold, WordSum, TcpCsum, StoreWord;
    var s := TcpSegment(sport, dport, seqno, ack, flags, data);
    var c := ComputeTcpCsum(src, dst, s);
    TcpSegmentVerifies(src, dst, s);
    seg := Some(StoreWord(s, 16, c));
  }
}
