/** Types shared by every part of the model. */
module Base {

  datatype Option<+T> = None | Some(value: T)

  newtype byte = b: int | 0 <= b < 256

  const PAGE_SIZE := 4096
  const TWO_32 := 0x1_0000_0000
  const TWO_64 := 0x1_0000_0000_0000_0000

  /** Unsigned 64-bit addition, given the exact sum of two machine words. */
  function Wrap(x: nat): nat {
    if x >= TWO_64 then x - TWO_64 else x
  }

  // Return codes of include/agentos.h.
  const EPERM := -1
  const EINVAL := -2
  const ENOENT := -3
  const ENOSPC := -4
  const EAGAIN := -5
  const ENODEV := -6
  const EIO := -7
  const EFAULT := -9

  /** A zeroed buffer. */
  function Zeros(n: nat): string {
    seq(n, _ => '\0')
  }

  // ---------------------------------------------------------------- counting

  predicate Distinct<T(==)>(s: seq<T>) {
    forall i, j | 0 <= i < j < |s| :: s[i] != s[j]
  }

  function Range(lo: nat, n: nat): (r: set<nat>)
    ensures |r| == n && forall x: nat :: x in r <==> lo <= x < lo + n
  {
    if n == 0 then {} else Range(lo, n - 1) + {lo + n - 1}
  }

  lemma {:induction false} DistinctSize<T>(s: seq<T>)
    requires Distinct(s)
    ensures |set x | x in s| == |s|
  {
    if s == [] {
      assert (set x | x in s) == {};
    } else {
      DistinctSize(s[1..]);
      assert (set x | x in s) == {s[0]} + (set x | x in s[1..]);
    }
  }

  lemma SubsetSize<T>(a: set<T>, b: set<T>)
    requires a <= b
    ensures |a| <= |b|
  {
    assert b == a + (b - a);
  }

  /** The pigeonhole principle: distinct numbers out of n consecutive ones are at most n. */
  lemma Pigeonhole(s: seq<nat>, lo: nat, n: nat)
    requires Distinct(s) && forall x | x in s :: lo <= x < lo + n
    ensures |s| <= n
  {
    DistinctSize(s);
    SubsetSize((set x | x in s), Range(lo, n));
  }
}
