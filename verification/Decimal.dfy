/**
 Decimal numbers as the kernel prints them: `payload_put_uint` (kernel/ipc.c), `append_int`
 (kernel/tool.c) and `audit_path_for` (kernel/audit.c) share this format.
 */
module Decimal {
  import opened Base

  function Digit(d: nat): char
    requires d < 10
  {
    '0' + d as char
  }

  predicate IsDigit(c: char) {
    '0' <= c <= '9'
  }

  function ValueOf(c: char): nat
    requires IsDigit(c)
  {
    (c - '0') as nat
  }

  /** Without leading zeros; zero is "0". */
  function Digits(n: nat): (s: string)
    ensures |s| > 0 && forall c | c in s :: IsDigit(c)
  {
    if n < 10 then [Digit(n)] else Digits(n / 10) + [Digit(n % 10)]
  }

  lemma DigitsExamples()
    ensures Digits(0) == "0" && Digits(1907) == "1907"
  {
    assert Digits(19) == Digits(1) + ['9'];
    assert Digits(190) == Digits(19) + ['0'];
  }

  function Pow10(k: nat): nat {
    if k == 0 then 1 else 10 * Pow10(k - 1)
  }

  lemma {:induction false} DigitsLength(n: nat, k: nat)
    requires k > 0 && n < Pow10(k)
    ensures |Digits(n)| <= k
  {
    if n >= 10 {
      DigitsLength(n / 10, k - 1);
    }
  }

  /** 32-bit numbers take at most ten digits. */
  lemma DigitsOf32(n: nat)
    requires n < TWO_32
    ensures |Digits(n)| <= 10
  {
    assert Pow10(5) == 100000;
    assert Pow10(10) == 100000 * Pow10(5) by {
      assert Pow10(10) == 10 * Pow10(9) && Pow10(9) == 10 * Pow10(8) && Pow10(8) == 10 * Pow10(7);
      assert Pow10(7) == 10 * Pow10(6) && Pow10(6) == 10 * Pow10(5);
    }
    DigitsLength(n, 10);
  }

  // ---------------------------------------------------------------- reading back

  /** Reads digits as a scanner does, on top of the value already read. */
  function Scan(s: string, value: nat): (nat, string) {
    if s == [] || !IsDigit(s[0]) then (value, s) else Scan(s[1..], 10 * value + ValueOf(s[0]))
  }

  predicate EndsNumber(rest: string) {
    rest == [] || !IsDigit(rest[0])
  }

  /** Scanning what was printed gives the number and stops right behind it. */
  lemma ScanDigits(n: nat, rest: string)
    requires EndsNumber(rest)
    ensures Scan(Digits(n) + rest, 0) == (n, rest)
  {
    ScanPrefix(n, rest);
  }

  lemma {:induction false} ScanPrefix(n: nat, rest: string)
    ensures Scan(Digits(n) + rest, 0) == Scan(rest, n)
  {
    if n < 10 {
      assert (Digits(n) + rest)[1..] == rest;
    } else {
      var last := [Digit(n % 10)];
      assert Digits(n) + rest == Digits(n / 10) + (last + rest);
      ScanPrefix(n / 10, last + rest);
      assert (last + rest)[1..] == rest;
    }
  }

  // ---------------------------------------------------------------- the printing loop

  function Reverse(s: string): string {
    if s == [] then [] else [s[|s| - 1]] + Reverse(s[..|s| - 1])
  }

  /** The loop all printers use: digits of n > 0, least significant first, into `tmp`. */
  method ReverseDigits(n: nat) returns (tmp: string)
    requires n > 0
    ensures Reverse(tmp) == Digits(n)
  {
    hide Digits, Reverse;
    tmp := [];
    var m := n;
    ReverseEmpty(n);
    while m > 0
      invariant Digits(n) == Front(m) + Reverse(tmp)
    {
      ReverseGrows(tmp, m);
      tmp := tmp + [Digit(m % 10)];
      m := m / 10;
    }
  }

  lemma ReverseEmpty(n: nat)
    requires n > 0
    ensures Digits(n) == Front(n) + Reverse("")
    ensures forall s: string :: Front(0) + s == s
  {
  }

  /** The digits still to come. */
  function Front(m: nat): string {
    if m > 0 then Digits(m) else ""
  }

  lemma ReverseGrows(tmp: string, m: nat)
    requires m > 0
    ensures Front(m) + Reverse(tmp) == Front(m / 10) + Reverse(tmp + [Digit(m % 10)])
  {
    var c := Digit(m % 10);
    ReverseSnoc(tmp, c);
    FrontSplits(m);
    hide Front, Reverse;
    assert Front(m / 10) + [c] + Reverse(tmp) == Front(m / 10) + ([c] + Reverse(tmp));
  }

  lemma ReverseSnoc(s: string, c: char)
    ensures Reverse(s + [c]) == [c] + Reverse(s)
  {
    assert (s + [c])[..|s|] == s;
  }

  lemma FrontSplits(m: nat)
    requires m > 0
    ensures Front(m) == Front(m / 10) + [Digit(m % 10)]
  {
    if m < 10 {
      assert m / 10 == 0;
    }
  }
}
