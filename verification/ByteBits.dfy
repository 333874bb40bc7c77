/** Bytes as bit vectors. */
module ByteBits {

  /** A character as the byte it stands for. */
  function ByteOf(c: char): bv8 {
    (c as int % 256) as bv8
  }

  lemma BitsBack(x: bv8)
    ensures (x as nat) as bv8 == x
  {
  }

  lemma NextByte(x: bv8)
    requires x < 255
    ensures (x + 1) as nat == x as nat + 1
  {
  }

  lemma BelowTop(x: bv8)
    requires x as nat < 255
    ensures x < 255
  {
  }

  /** Every number below 256 is the value of a byte, counting up from zero. */
  lemma {:induction false} ByteFor(a: nat) returns (x: bv8)
    requires a < 256
    ensures x as nat == a
  {
    if a == 0 {
      x := 0;
    } else {
      var y := ByteFor(a - 1);
      BelowTop(y);
      NextByte(y);
      x := y + 1;
    }
  }

  lemma ByteBack(a: nat)
    requires a < 256
    ensures (a as bv8) as nat == a
  {
    var x := ByteFor(a);
    BitsBack(x);
  }

  lemma ByteOfInjective(a: char, b: char)
    requires a as nat < 256 && b as nat < 256 && ByteOf(a) == ByteOf(b)
    ensures a == b
  {
    ByteBack(a as nat);
    ByteBack(b as nat);
  }

  lemma ByteOfSmall(c: char)
    requires c as nat < 256
    ensures ByteOf(c) == c as nat as bv8
  {
  }
}
