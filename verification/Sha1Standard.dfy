/**
 SHA-1 as the Secure Hash Standard, FIPS 180-4, defines it: the functions of section
 4.1.1, the constants of 4.2.1, the padding of 5.1.1, the initial value of 5.3.1 and
 the computation of 6.1.2. Messages are whole bytes.
 */
module Sha1Standard {
  import opened Bytes

  type Word = bv32

  /** The five working variables, or the five words of a hash value. */
  datatype Regs = Regs(a: Word, b: Word, c: Word, d: Word, e: Word)

  function Rotl(x: Word, n: nat): Word
    requires 0 < n < 32
  {
    (x << n) | (x >> (32 - n))
  }

  /** Bit i of a word, as a word. */
  function Bit(x: Word, i: Word): Word
    requires i < 32
  {
    (x >> i) & 1
  }

  lemma UnfoldRotl(x: Word)
    ensures Rotl(x, 1) == (x << 1) | (x >> 31) && Rotl(x, 5) == (x << 5) | (x >> 27)
    ensures Rotl(x, 30) == (x << 30) | (x >> 2)
  {
  }

  lemma RotationBits(x: Word, i: Word)
    requires i < 32
    ensures Bit((x << 1) | (x >> 31), (i + 1) & 31) == Bit(x, i)
    ensures Bit((x << 5) | (x >> 27), (i + 5) & 31) == Bit(x, i)
    ensures Bit((x << 30) | (x >> 2), (i + 30) & 31) == Bit(x, i)
  {
  }

  /** Each bit moves up by the amount, and from the end of the word to its start. */
  lemma RotlMovesBits(x: Word, i: Word)
    requires i < 32
    ensures Bit(Rotl(x, 1), (i + 1) & 31) == Bit(x, i)
    ensures Bit(Rotl(x, 5), (i + 5) & 31) == Bit(x, i)
    ensures Bit(Rotl(x, 30), (i + 30) & 31) == Bit(x, i)
  {
    UnfoldRotl(x);
    RotationBits(x, i);
    hide Rotl, Bit;
  }

  function Ch(x: Word, y: Word, z: Word): Word { (x & y) ^ (!x & z) }
  function Parity(x: Word, y: Word, z: Word): Word { x ^ y ^ z }
  function Maj(x: Word, y: Word, z: Word): Word { (x & y) ^ (x & z) ^ (y & z) }

  function F(t: nat, x: Word, y: Word, z: Word): Word {
    if t < 20 then Ch(x, y, z) else if t < 40 then Parity(x, y, z) else if t < 60 then Maj(x, y, z) else Parity(x, y, z)
  }

  function K(t: nat): Word {
    if t < 20 then 0x5a827999 else if t < 40 then 0x6ed9eba1 else if t < 60 then 0x8f1bbcdc else 0xca62c1d6
  }

  function Mix(x: Word, y: Word, z: Word, w: Word): Word { Rotl(x ^ y ^ z ^ w, 1) }

  /** Addition modulo 2^32. */
  function Plus(x: Word, y: Word): Word { x + y }

  /** The sum that makes the new first working variable. */
  function RoundSum(rotated: Word, f: Word, e: Word, k: Word, w: Word): Word {
    rotated + f + e + k + w
  }

  /** The message schedule of a block of 16 words. */
  function W(m: seq<Word>, t: nat): Word
    requires |m| == 16
  {
    if t < 16 then m[t] else Mix(W(m, t - 3), W(m, t - 8), W(m, t - 14), W(m, t - 16))
  }

  function Round(t: nat, r: Regs, w: Word): Regs {
    Regs(RoundSum(Rotl(r.a, 5), F(t, r.b, r.c, r.d), r.e, K(t), w), r.a, Rotl(r.b, 30), r.c, r.d)
  }

  /** The working variables after the first t rounds. */
  function Rounds(h: Regs, m: seq<Word>, t: nat): Regs
    requires |m| == 16
  {
    if t == 0 then h else Round(t - 1, Rounds(h, m, t - 1), W(m, t - 1))
  }

  function Add(x: Regs, y: Regs): Regs {
    Regs(Plus(x.a, y.a), Plus(x.b, y.b), Plus(x.c, y.c), Plus(x.d, y.d), Plus(x.e, y.e))
  }

  function Compress(h: Regs, m: seq<Word>): Regs
    requires |m| == 16
  {
    Add(h, Rounds(h, m, 80))
  }

  const INITIAL_HASH := Regs(0x67452301, 0xefcdab89, 0x98badcfe, 0x10325476, 0xc3d2e1f0)

  function ToWord(x: nat): Word
    requires x < 0x1_0000_0000
  {
    x as Word
  }

  /** A word from four bytes, the most significant first. */
  function WordOf(b0: byte, b1: byte, b2: byte, b3: byte): Word {
    ToWord(b0 as int * 0x100_0000 + b1 as int * 0x1_0000 + b2 as int * 0x100 + b3 as int)
  }

  function Words(block: seq<byte>): (m: seq<Word>)
    requires |block| == 64
    ensures |m| == 16
  {
    seq(16, i requires 0 <= i < 16 => WordOf(block[4 * i], block[4 * i + 1], block[4 * i + 2], block[4 * i + 3]))
  }

  /** The hash value after all whole blocks of `data`. */
  function HashBlocks(data: seq<byte>): Regs
    requires |data| % 64 == 0
    decreases |data|
  {
    if |data| == 0 then INITIAL_HASH
    else Compress(HashBlocks(data[..|data| - 64]), Words(data[|data| - 64..]))
  }

  /** The number of zero bytes after the byte 0x80: the least that makes whole blocks. */
  function ZeroCount(length: nat): (z: nat)
    ensures z < 64 && (length + 1 + z + 8) % 64 == 0
  {
    (119 - length % 64) % 64
  }

  const TWO_TO_64: nat := 0x1_0000_0000_0000_0000

  /** The length in bits; the standard asks for less than 2^64. */
  function BitLength(length: nat): (b: nat)
    ensures b < TWO_TO_64
  {
    length * 8 % TWO_TO_64
  }

  /** The bit length in eight bytes. */
  function LengthBytes(length: nat): (b: seq<byte>)
    ensures |b| == 8
  {
    BytesOf(BitLength(length), 8)
  }

  lemma EightPowers()
    ensures Power256(8) == 0x1_0000_0000_0000_0000
  {
    assert Power256(2) == 0x1_0000;
    assert Power256(4) == 0x1_0000_0000;
    assert Power256(6) == 0x1_0000_0000_0000;
  }

  /** The length of every message that the standard allows is written in full. */
  lemma LengthIsWritten(length: nat)
    requires length < 0x2000_0000_0000_0000
    ensures NumberOf(LengthBytes(length)) == 8 * length
  {
    EightPowers();
    hide BytesOf, NumberOf, Power256;
    NumberOfBytesOf(8 * length, 8);
  }

  function Padded(message: seq<byte>): (p: seq<byte>)
    ensures |p| % 64 == 0 && message <= p
  {
    message + [0x80] + seq(ZeroCount(|message|), _ => 0) + LengthBytes(|message|)
  }

  function Hash(message: seq<byte>): Regs {
    HashBlocks(Padded(message))
  }

  /** The bytes of a word and of a hash value. */
  function WordBytes(w: Word): (b: seq<byte>)
    ensures |b| == 4
  {
    BytesOf(w as int, 4)
  }

  function HashBytes(h: Regs): (b: seq<byte>)
    ensures |b| == 20
  {
    WordBytes(h.a) + WordBytes(h.b) + WordBytes(h.c) + WordBytes(h.d) + WordBytes(h.e)
  }
}
