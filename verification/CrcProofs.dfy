/** What the CRC of kernel/persist.c:37-52 detects. */
module CrcProofs {
  import opened ByteBits
  import opened Persist

  // ---------------------------------------------------------------- one-to-one

  lemma BitInjective(a: bv32, b: bv32)
    requires CrcBit(a) == CrcBit(b)
    ensures a == b
  {
  }

  lemma {:induction false} BitsInjective(a: bv32, b: bv32, n: nat)
    requires CrcBits(a, n) == CrcBits(b, n)
    ensures a == b
    decreases n
  {
    hide CrcBit;
    if n > 0 {
      BitsInjective(CrcBit(a), CrcBit(b), n - 1);
      BitInjective(a, b);
    }
  }

  lemma FeedInjective(x: bv32, y: bv32, a: bv8, b: bv8)
    ensures Feed(x, a) == Feed(x, b) ==> a == b
    ensures Feed(x, a) == Feed(y, a) ==> x == y
  {
  }

  /** From one state, different bytes lead to different states. */
  lemma ByteInjective(crc: bv32, a: char, b: char)
    requires a as nat < 256 && b as nat < 256 && CrcByte(crc, a) == CrcByte(crc, b)
    ensures a == b
  {
    hide CrcBits, ByteOf, Feed;
    BitsInjective(Feed(crc, ByteOf(a)), Feed(crc, ByteOf(b)), 8);
    FeedInjective(crc, crc, ByteOf(a), ByteOf(b));
    ByteOfInjective(a, b);
  }

  /** Different states stay different whatever follows. */
  lemma {:induction false} FromInjective(x: bv32, y: bv32, data: string)
    requires CrcFrom(x, data) == CrcFrom(y, data)
    ensures x == y
    decreases |data|
  {
    hide CrcBits, ByteOf, Feed;
    if data != [] {
      var b := ByteOf(data[0]);
      FromInjective(CrcByte(x, data[0]), CrcByte(y, data[0]), data[1..]);
      BitsInjective(Feed(x, b), Feed(y, b), 8);
      FeedInjective(x, y, b, b);
    }
  }

  lemma {:induction false} OneByteState(crc: bv32, data: string, k: nat, c: char)
    requires k < |data| && data[k] != c && data[k] as nat < 256 && c as nat < 256
    ensures CrcFrom(crc, data[k := c]) != CrcFrom(crc, data)
    decreases |data|
  {
    hide CrcByte;
    var other := data[k := c];
    if k == 0 {
      assert other[1..] == data[1..];
      if CrcFrom(crc, other) == CrcFrom(crc, data) {
        FromInjective(CrcByte(crc, c), CrcByte(crc, data[0]), data[1..]);
        ByteInjective(crc, c, data[0]);
        assert false;
      }
    } else {
      assert other[1..] == data[1..][k - 1 := c];
      OneByteState(CrcByte(crc, data[0]), data[1..], k - 1, c);
    }
  }

  lemma WordBack(x: bv32)
    ensures (x as nat) as bv32 == x
  {
  }

  lemma WordInjective(x: bv32, y: bv32)
    requires x as nat == y as nat
    ensures x == y
  {
    WordBack(x);
    WordBack(y);
  }

  lemma NotInjective(x: bv32, y: bv32)
    requires !x == !y
    ensures x == y
  {
  }

  lemma InvertedInjective(x: bv32, y: bv32)
    requires Inverted(x) == Inverted(y)
    ensures x == y
  {
    WordInjective(!x, !y);
    NotInjective(x, y);
  }

  /** Changing any one byte of the data changes its CRC. */
  lemma OneByteDetected(data: string, k: nat, c: char)
    requires k < |data| && data[k] != c && data[k] as nat < 256 && c as nat < 256
    ensures Crc32(data[k := c]) != Crc32(data)
  {
    hide CrcFrom, Inverted;
    OneByteState(0xffff_ffff, data, k, c);
    if Crc32(data[k := c]) == Crc32(data) {
      InvertedInjective(CrcFrom(0xffff_ffff, data[k := c]), CrcFrom(0xffff_ffff, data));
      assert false;
    }
  }

  // ---------------------------------------------------------------- known answers

  lemma EightBits(x: bv32)
    ensures CrcBits(x, 8) == CrcBit(CrcBit(CrcBit(CrcBit(CrcBit(CrcBit(CrcBit(CrcBit(x))))))))
  {
    hide CrcBit;
    var y := CrcBit(CrcBit(CrcBit(CrcBit(x))));
    assert CrcBits(y, 4) == CrcBit(CrcBit(CrcBit(CrcBit(y))));
  }

  /** The check value of CRC-32: the CRC of the nine digits. */
  lemma CheckValue()
    ensures Crc32("123456789") == 0xcbf4_3926
  {
    hide CrcByte;
    var s := "123456789";
    Digit(0xffff_ffff, '1', 0x31, 0x7c23_1048);
    Digit(0x7c23_1048, '2', 0x32, 0xb0ac_bb32);
    Digit(0xb0ac_bb32, '3', 0x33, 0x77b7_9c2d);
    Digit(0x77b7_9c2d, '4', 0x34, 0x641c_1f5c);
    Digit(0x641c_1f5c, '5', 0x35, 0x340a_c5e3);
    Digit(0x340a_c5e3, '6', 0x36, 0xf68d_2c9e);
    Digit(0xf68d_2c9e, '7', 0x37, 0xaffc_9660);
    Digit(0xaffc_9660, '8', 0x38, 0x651f_2550);
    Digit(0x651f_2550, '9', 0x39, 0x340b_c6d9);
    assert s[8..][0] == '9' && s[8..][1..] == s[9..];
    assert s[7..][0] == '8' && s[7..][1..] == s[8..];
    assert s[6..][0] == '7' && s[6..][1..] == s[7..];
    assert s[5..][0] == '6' && s[5..][1..] == s[6..];
    assert s[4..][0] == '5' && s[4..][1..] == s[5..];
    assert s[3..][0] == '4' && s[3..][1..] == s[4..];
    assert s[2..][0] == '3' && s[2..][1..] == s[3..];
    assert s[1..][0] == '2' && s[1..][1..] == s[2..];
    assert s[9..] == [];
    assert CrcFrom(0x651f_2550, s[8..]) == 0x340b_c6d9;
    assert CrcFrom(0xaffc_9660, s[7..]) == 0x340b_c6d9;
    assert CrcFrom(0xf68d_2c9e, s[6..]) == 0x340b_c6d9;
    assert CrcFrom(0x340a_c5e3, s[5..]) == 0x340b_c6d9;
    assert CrcFrom(0x641c_1f5c, s[4..]) == 0x340b_c6d9;
    assert CrcFrom(0x77b7_9c2d, s[3..]) == 0x340b_c6d9;
    assert CrcFrom(0xb0ac_bb32, s[2..]) == 0x340b_c6d9;
    assert CrcFrom(0x7c23_1048, s[1..]) == 0x340b_c6d9;
    assert CrcFrom(0xffff_ffff, s) == 0x340b_c6d9;
  }

  lemma Digit(crc: bv32, c: char, b: bv8, after: bv32)
    requires c as nat < 256 && c as nat as bv8 == b
    requires CrcBit(CrcBit(CrcBit(CrcBit(CrcBit(CrcBit(CrcBit(CrcBit(Feed(crc, b))))))))) == after
    ensures CrcByte(crc, c) == after
  {
    hide CrcBit, CrcBits, ByteOf, Feed;
    ByteOfSmall(c);
    EightBits(Feed(crc, b));
  }
}
