/** Hexadecimal text of bytes, as the streams and parsers of the standard library write and read it. */
module Hex {
  import opened Bytes
  import opened Sequences
  import opened Sha1Standard

  function Digit(d: nat): (c: char)
    requires d < 16
  {
    if d < 10 then '0' + d as char else 'a' + (d - 10) as char
  }

  function HexByte(b: byte): (s: string)
    ensures |s| == 2
  {
    [Digit(b / 16), Digit(b % 16)]
  }

  /** Two lower-case digits for each byte. */
  function HexOf(bytes: seq<byte>): (s: string)
    ensures |s| == 2 * |bytes|
  {
    if bytes == [] then [] else HexByte(bytes[0]) + HexOf(bytes[1..])
  }

  lemma {:induction false} HexOfConcat(a: seq<byte>, b: seq<byte>)
    ensures HexOf(a + b) == HexOf(a) + HexOf(b)
  {
    if a == [] {
      assert a + b == b;
    } else {
      hide HexByte;
      HexOfConcat(a[1..], b);
      assert (a + b)[0] == a[0] && (a + b)[1..] == a[1..] + b;
      Regroup(HexByte(a[0]), HexOf(a[1..]), HexOf(b));
    }
  }

  lemma {:induction false} HexOfAt(bytes: seq<byte>, i: nat)
    requires i < |bytes|
    ensures HexOf(bytes)[2 * i..2 * i + 2] == HexByte(bytes[i])
  {
    var first, rest := HexByte(bytes[0]), HexOf(bytes[1..]);
    assert HexOf(bytes) == first + rest;
    if i > 0 {
      HexOfAt(bytes[1..], i - 1);
      assert HexOf(bytes)[2 * i..2 * i + 2] == rest[2 * (i - 1)..2 * (i - 1) + 2];
    }
  }

  /** The last `count` hexadecimal digits of a number, with leading zeros. */
  function Digits(x: nat, count: nat): (s: string)
    ensures |s| == count
  {
    if count == 0 then [] else Digits(x / 16, count - 1) + [Digit(x % 16)]
  }

  /** A 32-bit number in hexadecimal, filled with zeros to eight digits. */
  function HexWord(w: Word): string {
    Digits(w as int, 8)
  }

  /** The last two digits are those of the last byte. */
  lemma LastByte(x: nat, count: nat)
    ensures Digits(x, count + 2) == Digits(x / 256, count) + HexByte(x % 256)
  {
    hide Digit;
    assert Digits(x, count + 2) == Digits(x / 16, count + 1) + [Digit(x % 16)];
    assert Digits(x / 16, count + 1) == Digits(x / 16 / 16, count) + [Digit(x / 16 % 16)];
    assert x / 16 / 16 == x / 256 && x / 16 % 16 == x % 256 / 16 && x % 16 == x % 256 % 16;
  }

  lemma HexOfOne(b: byte)
    ensures HexOf([b]) == HexByte(b)
  {
    assert HexOf([b]) == HexByte(b) + HexOf([]);
  }

  lemma {:induction false} DigitsAreBytes(x: nat, count: nat)
    ensures Digits(x, 2 * count) == HexOf(BytesOf(x, count))
    decreases count
  {
    if count > 0 {
      DigitsAreBytes(x / 256, count - 1);
      assert BytesOf(x, count) == BytesOf(x / 256, count - 1) + [x % 256];
      hide *;
      LastByte(x, 2 * count - 2);
      HexOfConcat(BytesOf(x / 256, count - 1), [x % 256]);
      HexOfOne(x % 256);
    }
  }
}
