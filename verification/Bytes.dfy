/** Bytes, machine-style shifts on non-negative integers, and optional values. */
module Bytes {

  type byte = x: int | 0 <= x < 256

  datatype Option<+T> = None | Some(value: T)

  function Pow2(n: nat): (p: nat)
    ensures p > 0
  {
    if n == 0 then 1 else 2 * Pow2(n - 1)
  }

  function Shl(x: nat, n: nat): nat {
    x * Pow2(n)
  }

  lemma QuotientNonNegative(x: nat, d: nat)
    requires d > 0
    ensures x / d >= 0
  {
  }

  function Shr(x: nat, n: nat): nat {
    QuotientNonNegative(x, Pow2(n));
    x / Pow2(n)
  }

  lemma ShrEven(x: nat)
    ensures Shr(x, 0) == x && Shr(x, 2) == x / 4 && Shr(x, 4) == x / 16 && Shr(x, 6) == x / 64
  {
  }

  /** Bitwise or of two non-negative integers, one binary digit at a time. */
  function BitOr(x: nat, y: nat): nat {
    if x == 0 && y == 0 then 0
    else 2 * BitOr(x / 2, y / 2) + (if x % 2 == 1 || y % 2 == 1 then 1 else 0)
  }

  /** Or is addition when the right operand fits below the lowest set bit of the left one. */
  lemma {:induction false} BitOrDisjoint(m: nat, y: nat, k: nat)
    requires y < Pow2(k)
    ensures BitOr(Shl(m, k), y) == Shl(m, k) + y
    decreases k, m
  {
    if k == 0 {
      if m > 0 {
        BitOrDisjoint(m / 2, 0, 0);
      }
    } else {
      assert Shl(m, k) == 2 * Shl(m, k - 1);
      BitOrDisjoint(m, y / 2, k - 1);
    }
  }

  /** `m << k | y` for a y of at most k bits. */
  function ShlOr(m: nat, k: nat, y: nat): nat
    requires y < Pow2(k)
  {
    m * Pow2(k) + y
  }

  lemma ShlOrIsBitwise(m: nat, k: nat, y: nat)
    requires y < Pow2(k)
    ensures ShlOr(m, k, y) == BitOr(Shl(m, k), y)
  {
    BitOrDisjoint(m, y, k);
  }

  lemma PowersOfTwo()
    ensures Pow2(0) == 1 && Pow2(2) == 4 && Pow2(4) == 16 && Pow2(6) == 64
  {
    assert Pow2(2) == 4 && Pow2(4) == 16 && Pow2(6) == 64;
  }

  /** Truncation to an unsigned 8-bit integer. */
  function ToByte(x: nat): byte {
    x % 256
  }

  /** A sequence with a stretch of it replaced. */
  function Patch(s: seq<byte>, bytes: seq<byte>, at: nat): (r: seq<byte>)
    requires at + |bytes| <= |s|
    ensures |r| == |s|
  {
    s[..at] + bytes + s[at + |bytes|..]
  }

  lemma SliceOfSlice(s: seq<byte>, first: nat, last: nat, i: nat, j: nat)
    requires first <= last <= |s| && i <= j <= last - first
    ensures s[first..last][i..j] == s[first + i..first + j]
  {
    var (x, y) := (s[first..last][i..j], s[first + i..first + j]);
    assert forall k :: 0 <= k < j - i ==> x[k] == s[first + i + k];
    assert forall k :: 0 <= k < j - i ==> y[k] == s[first + i + k];
    assert x == y;
  }
}
