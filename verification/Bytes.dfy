/** Bytes, and numbers as big-endian bytes. */
module Bytes {
  type byte = x: int | 0 <= x < 256

  /** The last `count` bytes of a number, the most significant first. */
  function BytesOf(x: nat, count: nat): (b: seq<byte>)
    ensures |b| == count
  {
    if count == 0 then [] else BytesOf(x / 256, count - 1) + [x % 256]
  }

  /** The number that bytes stand for, the most significant first. */
  function NumberOf(b: seq<byte>): nat {
    if b == [] then 0 else NumberOf(b[..|b| - 1]) * 256 + b[|b| - 1]
  }

  function Power256(k: nat): (p: nat)
    ensures p > 0
  {
    if k == 0 then 1 else 256 * Power256(k - 1)
  }

  lemma {:induction false} NumberOfBytesOf(x: nat, count: nat)
    requires x < Power256(count)
    ensures NumberOf(BytesOf(x, count)) == x
    decreases count
  {
    if count > 0 {
      NumberOfBytesOf(x / 256, count - 1);
      assert BytesOf(x, count)[..count - 1] == BytesOf(x / 256, count - 1);
    }
  }

  lemma {:induction false} NumberOfBound(b: seq<byte>)
    ensures NumberOf(b) < Power256(|b|)
  {
    if b != [] { NumberOfBound(b[..|b| - 1]); }
  }
}
