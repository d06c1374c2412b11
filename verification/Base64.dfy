/** Base 64 of RFC 4648, section 4, and the two conversions of the source. */
module Base64 {
  import opened Arithmetic
  import opened Bytes
  import opened Hex

  /** Table 1 of section 4. */
  function Alphabet(i: nat): char
    requires i < 64
  {
    if i < 26 then 'A' + i as char
    else if i < 52 then 'a' + (i - 26) as char
    else if i < 62 then '0' + (i - 52) as char
    else if i == 62 then '+' else '/'
  }

  datatype Sextet = NotInAlphabet | Value(v: nat)

  function Lookup(c: char): (s: Sextet)
    ensures s.Value? ==> s.v < 64
  {
    if 'A' <= c <= 'Z' then Value((c - 'A') as int)
    else if 'a' <= c <= 'z' then Value((c - 'a') as int + 26)
    else if '0' <= c <= '9' then Value((c - '0') as int + 52)
    else if c == '+' then Value(62) else if c == '/' then Value(63) else NotInAlphabet
  }

  lemma LookupInvertsAlphabet(i: nat)
    requires i < 64
    ensures Lookup(Alphabet(i)) == Value(i) && Alphabet(i) != '='
  {
  }

  const TABLE: string := "ABCDEFGHIJKLM" + "NOPQRSTUVWXYZ" + "abcdefghijklm" + "nopqrstuvwxyz" + "0123456789+/"

  lemma TableIsAlphabet(i: nat)
    requires i < 64
    ensures |TABLE| == 64 && TABLE[i] == Alphabet(i)
  {
  }

  /** Powers of two for the shifts of the source. */
  function Two(k: nat): (p: nat)
    requires k <= 6
    ensures p > 0
  {
    if k == 0 then 1 else if k == 1 then 2 else if k == 2 then 4 else if k == 3 then 8
    else if k == 4 then 16 else if k == 5 then 32 else 64
  }

  /** How many bits are pending after a sextet. */
  function NextBits(bits: nat): (next: nat)
    requires bits == 0 || bits == 2 || bits == 4 || bits == 6
    ensures next == 0 || next == 2 || next == 4 || next == 6
  {
    if bits == 0 then 6 else bits - 2
  }

  /** The byte that a sextet completes. */
  function JoinedByte(bits: nat, v: nat, x: nat): byte
    requires (bits == 2 || bits == 4 || bits == 6) && v < Two(bits) && x < 64
  {
    if bits == 2 then v * 64 + x else if bits == 4 then v * 16 + x / 4 else v * 4 + x / 16
  }

  /**
   The bytes for `bits` pending bits `v` and the characters after them. A character
   outside the alphabet is skipped, and '=' ends the text.
   */
  function Decoded(bits: nat, v: nat, s: string): seq<byte>
    requires (bits == 0 || bits == 2 || bits == 4 || bits == 6) && v < Two(bits)
    decreases |s|
  {
    if s == [] || s[0] == '=' then []
    else if Lookup(s[0]).NotInAlphabet? then Decoded(bits, v, s[1..])
    else if bits == 0 then Decoded(6, Lookup(s[0]).v, s[1..])
    else
      [JoinedByte(bits, v, Lookup(s[0]).v)] + Decoded(bits - 2, Lookup(s[0]).v % Two(bits - 2), s[1..])
  }

  lemma DecodedTail(bits: nat, v: nat, c: char, s: string)
    requires (bits == 0 || bits == 2 || bits == 4 || bits == 6) && v < Two(bits)
    ensures c == '=' ==> Decoded(bits, v, [c] + s) == []
    ensures c != '=' && Lookup(c).NotInAlphabet? ==> Decoded(bits, v, [c] + s) == Decoded(bits, v, s)
    ensures c != '=' && Lookup(c).Value? ==>
      var x, byte := Lookup(c).v, if bits == 0 then [] else [JoinedByte(bits, v, Lookup(c).v)];
      Decoded(bits, v, [c] + s) == byte + Decoded(NextBits(bits), x % Two(NextBits(bits)), s)
  {
    hide JoinedByte;
    assert ([c] + s)[1..] == s;
  }

  function EncodeOne(x: byte): string { [Alphabet(x / 4), Alphabet(x % 4 * 16), '=', '='] }

  function EncodeTwo(x: byte, y: byte): string {
    [Alphabet(x / 4), Alphabet(x % 4 * 16 + y / 16), Alphabet(y % 16 * 4), '=']
  }

  function EncodeThree(x: byte, y: byte, z: byte): string {
    [Alphabet(x / 4), Alphabet(x % 4 * 16 + y / 16), Alphabet(y % 16 * 4 + z / 64), Alphabet(z % 64)]
  }

  /** The encoding of section 4: three bytes make four characters, a shorter end is padded. */
  function Encode(b: seq<byte>): string {
    if |b| == 0 then ""
    else if |b| == 1 then EncodeOne(b[0])
    else if |b| == 2 then EncodeTwo(b[0], b[1])
    else EncodeThree(b[0], b[1], b[2]) + Encode(b[3..])
  }

  predicate IsHexDigit(c: char) { '0' <= c <= '9' || 'a' <= c <= 'f' || 'A' <= c <= 'F' }

  function HexValue(c: char): (v: nat)
    requires IsHexDigit(c)
    ensures v < 16
  {
    if '0' <= c <= '9' then (c - '0') as int
    else if 'a' <= c <= 'f' then (c - 'a') as int + 10
    else (c - 'A') as int + 10
  }

  predicate AllHex(s: string) { forall i :: 0 <= i < |s| ==> IsHexDigit(s[i]) }

  /** The number that one or two hexadecimal digits stand for. */
  function ParseHex(s: string): (b: byte)
    requires 1 <= |s| <= 2 && AllHex(s)
  {
    if |s| == 1 then HexValue(s[0]) else HexValue(s[0]) * 16 + HexValue(s[1])
  }

  /** The bytes that pairs of digits stand for; a last single digit is a byte too. */
  function Parsed(s: string): seq<byte>
    requires AllHex(s)
  {
    if s == [] then [] else if |s| == 1 then [ParseHex(s)] else [ParseHex(s[..2])] + Parsed(s[2..])
  }

  lemma {:induction false} ParsedHexOf(b: seq<byte>)
    ensures AllHex(HexOf(b)) && Parsed(HexOf(b)) == b
  {
    if b != [] {
      ParsedHexOf(b[1..]);
      var s := HexOf(b);
      assert s[..2] == HexByte(b[0]) && s[2..] == HexOf(b[1..]);
    }
  }

  /** The characters that a byte completes after `bits` pending bits `v`. */
  function Emitted(bits: nat, v: nat, c: byte): string
    requires (bits == 0 || bits == 2 || bits == 4) && v < Two(bits)
  {
    if bits == 0 then [Alphabet(c / 4)]
    else if bits == 2 then [Alphabet(v * 16 + c / 16)]
    else [Alphabet(v * 4 + c / 64), Alphabet(c % 64)]
  }

  /** The characters for `bits` pending bits `v` and the bytes after them, without padding. */
  function Sextets(bits: nat, v: nat, b: seq<byte>): string
    requires (bits == 0 || bits == 2 || bits == 4) && v < Two(bits)
    decreases |b|
  {
    if b == [] then
      if bits == 0 then [] else [Alphabet(v * Two(6 - bits))]
    else Emitted(bits, v, b[0]) + Sextets((bits + 2) % 6, b[0] % Two((bits + 2) % 6), b[1..])
  }

  function Pad(s: string): string {
    s + seq((4 - |s| % 4) % 4, _ => '=')
  }

  lemma Tail(bits: nat, v: nat)
    requires (bits == 2 || bits == 4) && v < Two(bits)
    ensures Sextets(bits, v, []) == [Alphabet(v * (if bits == 2 then 16 else 4))]
  {
    hide Alphabet;
  }

  lemma Pads(s: string)
    ensures |s| == 2 ==> Pad(s) == s + ['=', '=']
    ensures |s| == 3 ==> Pad(s) == s + ['=']
  {
  }

  lemma Step0(b: seq<byte>)
    requires b != []
    ensures Sextets(0, 0, b) == [Alphabet(b[0] / 4)] + Sextets(2, b[0] % 4, b[1..])
  {
    hide Alphabet;
  }

  lemma OneByte(b: seq<byte>)
    requires |b| == 1
    ensures Pad(Sextets(0, 0, b)) == EncodeOne(b[0])
  {
    hide Alphabet, Sextets, Pad;
    Step0(b);
    Tail(2, b[0] % 4);
    assert b[1..] == [];
    Pads(Sextets(0, 0, b));
  }

  lemma Step2(v: nat, b: seq<byte>)
    requires v < 4 && b != []
    ensures Sextets(2, v, b) == [Alphabet(v * 16 + b[0] / 16)] + Sextets(4, b[0] % 16, b[1..])
  {
    hide Alphabet;
  }

  lemma TwoBytes(b: seq<byte>)
    requires |b| == 2
    ensures Pad(Sextets(0, 0, b)) == EncodeTwo(b[0], b[1])
  {
    hide Alphabet, Sextets, Pad;
    Step0(b);
    Step2(b[0] % 4, b[1..]);
    Tail(4, b[1] % 16);
    assert b[1..][1..] == [];
    Pads(Sextets(0, 0, b));
  }

  lemma Step4(v: nat, b: seq<byte>)
    requires v < 16 && b != []
    ensures Sextets(4, v, b) == [Alphabet(v * 4 + b[0] / 64), Alphabet(b[0] % 64)] + Sextets(0, 0, b[1..])
  {
    hide Alphabet;
    assert b[0] % Two(0) == 0;
  }

  lemma ThreeBytes(b: seq<byte>)
    requires |b| >= 3
    ensures Sextets(0, 0, b) == EncodeThree(b[0], b[1], b[2]) + Sextets(0, 0, b[3..])
    ensures |EncodeThree(b[0], b[1], b[2])| == 4
  {
    hide Alphabet, Sextets;
    assert b[1..][1..] == b[2..] && b[2..][1..] == b[3..];
    Step0(b);
    Step2(b[0] % 4, b[1..]);
    Step4(b[1] % 16, b[2..]);
  }

  lemma PadAfterQuad(quad: string, rest: string)
    requires |quad| == 4
    ensures Pad(quad + rest) == quad + Pad(rest)
  {
  }

  lemma {:induction false} SextetsAreEncoding(b: seq<byte>)
    ensures Pad(Sextets(0, 0, b)) == Encode(b)
    decreases |b|
  {
    hide Alphabet, Emitted, EncodeOne, EncodeTwo, EncodeThree;
    if |b| == 0 {
    } else if |b| == 1 {
      OneByte(b);
    } else if |b| == 2 {
      TwoBytes(b);
    } else {
      SextetsAreEncoding(b[3..]);
      ThreeBytes(b);
      PadAfterQuad(EncodeThree(b[0], b[1], b[2]), Sextets(0, 0, b[3..]));
    }
  }

  lemma Select(y: int, q: int, r: nat)
    requires y == 64 * q + r && r < 64
    ensures y % 64 == r
  {
  }

  /** The bits that a shift and a mask select, of a number with low bits `a` and byte `c`. */
  lemma LowBits(h: nat, a: nat, c: byte, y: nat)
    requires a < 16 && y == 4096 * h + 256 * a + c
    ensures y / 4 % 64 == c / 4 && y / 16 % 64 == a % 4 * 16 + c / 16
    ensures y / 64 % 64 == a * 4 + c / 64 && y % 64 == c % 64
    ensures y % 4 == c % 4 && y % 16 == c % 16
  {
    assert y / 4 == 1024 * h + 64 * a + c / 4;
    Select(y / 4, 16 * h + a, c / 4);
    assert y / 16 == 256 * h + 16 * a + c / 16;
    Select(y / 16, 4 * h + a / 4, a % 4 * 16 + c / 16);
    assert y / 64 == 64 * h + 4 * a + c / 64;
    Select(y / 64, h, a * 4 + c / 64);
    Select(y, 64 * h + 4 * a + c / 64, c % 64);
  }

  lemma HighBitsGo(high: nat, h: nat, low: nat, c: byte)
    requires h < 0x10_0000 && low < 16
    ensures ((16 * (0x10_0000 * high + h) + low) * 256 + c) % 0x1_0000_0000 == 4096 * h + 256 * low + c
  {
    RemainderUnique((16 * (0x10_0000 * high + h) + low) * 256 + c, 0x1_0000_0000, high, 4096 * h + 256 * low + c);
  }

  /** The loss of high bits does not reach the low twelve. */
  lemma LowBitsStay(val: nat, c: byte) returns (h: nat)
    ensures (val * 256 + c) % 0x1_0000_0000 == 4096 * h + 256 * (val % 16) + c
    ensures val % 16 % 4 == val % 4
  {
    NestedRemainder(val, 4, 4);
    var upper := val / 16;
    h := upper % 0x10_0000;
    HighBitsGo(upper / 0x10_0000, h, val % 16, c);
  }

  /** The bits of the buffer that no character has taken yet. */
  function Low(val: nat, valb: int): (v: nat)
    requires valb == -6 || valb == -4 || valb == -2
    ensures v < Two(valb + 6)
  {
    val % Two(valb + 6)
  }

  /** The characters still to come, from the bit buffer and the bytes ahead. */
  ghost function Ahead(val: nat, valb: int, b: seq<byte>): string
    requires valb == -6 || valb == -4 || valb == -2
  {
    Sextets(valb + 6, Low(val, valb), b)
  }

  lemma ShiftedBits(val: nat, valb: int, c: byte, val': nat)
    requires (valb == -6 || valb == -4 || valb == -2) && val' == (val * 256 + c) % 0x1_0000_0000
    ensures var next := (valb + 8) % 6 - 6;
      && (next == -6 || next == -4 || next == -2) && Low(val', next) == c % Two(next + 6)
    ensures Emitted(valb + 6, Low(val, valb), c)
      == [Alphabet(val' / Two(valb + 8) % 64)] + (if valb == -2 then [Alphabet(val' % 64)] else [])
  {
    var h := LowBitsStay(val, c);
    LowBits(h, val % 16, c, val');
    hide Alphabet, TABLE;
  }

  /** The inner loop of to_base_64: characters leave while six bits are pending. */
  method EmitSextets(val: nat, valb: int) returns (valb': int, emitted: string)
    requires valb == 2 || valb == 4 || valb == 6
    ensures valb' == if valb == 6 then -6 else valb - 6
    ensures emitted == [Alphabet(val / Two(valb) % 64)] + (if valb == 6 then [Alphabet(val % 64)] else [])
  {
    hide Alphabet, TABLE;
    valb', emitted := valb, [];
    while valb' >= 0
      invariant valb' == valb || valb' == valb - 6 || (valb == 6 && valb' == -6)
      invariant valb' == valb ==> emitted == []
      invariant valb' == valb - 6 ==> emitted == [Alphabet(val / Two(valb) % 64)]
      invariant valb' == valb - 12 ==> emitted == [Alphabet(val / Two(valb) % 64), Alphabet(val % 64)]
      decreases valb' + 6
    {
      TableIsAlphabet(val / Two(valb') % 64);
      emitted := emitted + [TABLE[val / Two(valb') % 64]];
      valb' := valb' - 6;
    }
  }

  method ShiftByte(val: nat, valb: int, c: byte) returns (val': nat, valb': int, emitted: string)
    requires valb == -6 || valb == -4 || valb == -2
    ensures valb' == (valb + 8) % 6 - 6
    ensures emitted == Emitted(valb + 6, Low(val, valb), c)
    ensures Low(val', valb') == c % Two(valb' + 6)
  {
    val' := (val * 256 + c) % 0x1_0000_0000;
    ShiftedBits(val, valb, c, val');
    hide *;
    valb', emitted := EmitSextets(val', valb + 8);
  }

  lemma SextetsUnfold(bits: nat, v: nat, b: seq<byte>)
    requires (bits == 0 || bits == 2 || bits == 4) && v < Two(bits) && b != []
    ensures Sextets(bits, v, b)
         == Emitted(bits, v, b[0]) + Sextets((bits + 2) % 6, b[0] % Two((bits + 2) % 6), b[1..])
  {
  }

  /** One byte enters the bit buffer and completed characters leave it. */
  method PushByte(val: nat, valb: int, c: byte, ghost rest: seq<byte>) returns (val': nat, valb': int, emitted: string)
    requires valb == -6 || valb == -4 || valb == -2
    ensures valb' == -6 || valb' == -4 || valb' == -2
    ensures Ahead(val, valb, [c] + rest) == emitted + Ahead(val', valb', rest)
  {
    hide Emitted, Two, Low;
    val', valb', emitted := ShiftByte(val, valb, c);
    SextetsUnfold(valb + 6, Low(val, valb), [c] + rest);
  }

  /** The characters for the bits still pending when the input ends. */
  method Flush(val: nat, valb: int) returns (emitted: string)
    requires (valb == -6 || valb == -4 || valb == -2)
    ensures emitted == Ahead(val, valb, [])
  {
    emitted := [];
    if valb > -6 {
      var shifted := val * 256 % 0x1_0000_0000;
      ghost var h := LowBitsStay(val, 0);
      LowBits(h, val % 16, 0, shifted);
      TableIsAlphabet(shifted / Two(valb + 8) % 64);
      emitted := [TABLE[shifted / Two(valb + 8) % 64]];
    }
  }

  /** The input from position i on, empty past its end. */
  function Rest(input: string, i: nat): (rest: string)
    ensures AllHex(input) ==> AllHex(rest)
  {
    if i <= |input| then input[i..] else []
  }

  lemma ParsedStep(input: string, i: nat)
    requires AllHex(input) && i < |input|
    ensures var pair := if i + 2 <= |input| then input[i..i + 2] else input[i..];
      Parsed(Rest(input, i)) == [ParseHex(pair)] + Parsed(Rest(input, i + 2))
  {
    hide ParseHex;
    if i + 2 <= |input| {
      assert input[i..][..2] == input[i..i + 2] && input[i..][2..] == input[i + 2..];
    }
  }

  /** The two hexadecimal digits at place i, or the last one, enter the bit buffer as one byte. */
  method PushPair(input: string, i: nat, val: nat, valb: int) returns (val': nat, valb': int, emitted: string)
    requires AllHex(input) && i < |input| && (valb == -6 || valb == -4 || valb == -2)
    ensures valb' == -6 || valb' == -4 || valb' == -2
    ensures Ahead(val, valb, Parsed(Rest(input, i))) == emitted + Ahead(val', valb', Parsed(Rest(input, i + 2)))
  {
    hide Ahead, Parsed;
    var pair := if i + 2 <= |input| then input[i..i + 2] else input[i..];
    ParsedStep(input, i);
    val', valb', emitted := PushByte(val, valb, ParseHex(pair), Parsed(Rest(input, i + 2)));
  }

  lemma StartAndEnd(input: string)
    requires AllHex(input)
    ensures Ahead(0, -6, Parsed(Rest(input, 0))) == Sextets(0, 0, Parsed(input))
    ensures forall i: nat :: i >= |input| ==> Parsed(Rest(input, i)) == []
  {
    assert Rest(input, 0) == input && Two(0) == 1;
  }

  lemma PadOnce(s: string)
    requires |s| % 4 != 0
    ensures Pad(s + "=") == Pad(s)
  {
  }

  /** The padding loop at the end of to_base_64. */
  method PadWithEquals(s: string) returns (result: string)
    ensures result == Pad(s)
  {
    result := s;
    while |result| % 4 != 0
      invariant Pad(result) == Pad(s)
      decreases (4 - |result| % 4) % 4
    {
      PadOnce(result);
      result := result + "=";
    }
  }

  /** Conversion of hexadecimal text. The bit buffer has 32 bits and loses its high bits. */
  method ToBase64(input: string) returns (result: string)
    requires AllHex(input)
    ensures result == Encode(Parsed(input))
  {
    hide *;
    StartAndEnd(input);
    result := "";
    var val: nat := 0;
    var valb := -6;
    var i := 0;
    while i < |input|
      invariant 0 <= i && (valb == -6 || valb == -4 || valb == -2)
      invariant result + Ahead(val, valb, Parsed(Rest(input, i))) == Sextets(0, 0, Parsed(input))
    {
      var emitted;
      val, valb, emitted := PushPair(input, i, val, valb);
      result := result + emitted;
      i := i + 2;
    }
    var last := Flush(val, valb);
    result := PadWithEquals(result + last);
    SextetsAreEncoding(Parsed(input));
  }

  lemma DecodedStep(bits: nat, v: nat, x: nat, s: string)
    requires (bits == 0 || bits == 2 || bits == 4 || bits == 6) && v < Two(bits) && x < 64
    ensures Decoded(bits, v, [Alphabet(x)] + s)
      == if bits == 0 then Decoded(6, x, s) else [JoinedByte(bits, v, x)] + Decoded(bits - 2, x % Two(bits - 2), s)
  {
    LookupInvertsAlphabet(x);
    hide Alphabet, Lookup, JoinedByte;
    assert ([Alphabet(x)] + s)[1..] == s;
  }

  lemma DecodedEnd(bits: nat, v: nat, s: string)
    requires (bits == 0 || bits == 2 || bits == 4 || bits == 6) && v < Two(bits)
    requires s == [] || s[0] == '='
    ensures Decoded(bits, v, s) == []
  {
  }

  /** Joining the sextets of a byte gives the byte; `y` and `z` are the bytes after it. */
  lemma JoinFirst(x: byte, y: byte)
    ensures JoinedByte(6, x / 4, x % 4 * 16 + y / 16) == x && (x % 4 * 16 + y / 16) % 16 == y / 16
  {
  }

  lemma DecodeOne(x: byte)
    ensures Decoded(0, 0, EncodeOne(x)) == [x]
  {
    hide Alphabet, Decoded, JoinedByte;
    var s1 := x % 4 * 16;
    assert EncodeOne(x) == [Alphabet(x / 4)] + ([Alphabet(s1)] + ['=', '=']);
    DecodedStep(0, 0, x / 4, [Alphabet(s1)] + ['=', '=']);
    DecodedStep(6, x / 4, s1, ['=', '=']);
    JoinFirst(x, 0);
    DecodedEnd(4, 0, ['=', '=']);
  }

  lemma JoinSecond(y: byte, z: byte)
    ensures JoinedByte(4, y / 16, y % 16 * 4 + z / 64) == y && (y % 16 * 4 + z / 64) % 4 == z / 64
  {
  }

  lemma DecodeTwo(x: byte, y: byte)
    ensures Decoded(0, 0, EncodeTwo(x, y)) == [x, y]
  {
    hide Alphabet, Decoded, JoinedByte;
    var s1, s2 := x % 4 * 16 + y / 16, y % 16 * 4;
    assert EncodeTwo(x, y) == [Alphabet(x / 4)] + ([Alphabet(s1)] + ([Alphabet(s2)] + ['=']));
    DecodedStep(0, 0, x / 4, [Alphabet(s1)] + ([Alphabet(s2)] + ['=']));
    DecodedStep(6, x / 4, s1, [Alphabet(s2)] + ['=']);
    JoinFirst(x, y);
    DecodedStep(4, y / 16, s2, ['=']);
    JoinSecond(y, 0);
    DecodedEnd(2, 0, ['=']);
  }

  lemma JoinThird(z: byte)
    ensures JoinedByte(2, z / 64, z % 64) == z
  {
  }

  lemma DecodeLastTwo(y: byte, z: byte, rest: string)
    ensures Decoded(4, y / 16, [Alphabet(y % 16 * 4 + z / 64)] + ([Alphabet(z % 64)] + rest))
      == [y, z] + Decoded(0, 0, rest)
  {
    hide Alphabet, Decoded, JoinedByte;
    DecodedStep(4, y / 16, y % 16 * 4 + z / 64, [Alphabet(z % 64)] + rest);
    JoinSecond(y, z);
    DecodedStep(2, z / 64, z % 64, rest);
    JoinThird(z);
  }

  lemma DecodeThree(x: byte, y: byte, z: byte, rest: string)
    ensures Decoded(0, 0, EncodeThree(x, y, z) + rest) == [x, y, z] + Decoded(0, 0, rest)
  {
    hide Alphabet, Decoded, JoinedByte;
    var s1, s2, s3 := x % 4 * 16 + y / 16, y % 16 * 4 + z / 64, z % 64;
    assert EncodeThree(x, y, z) + rest
        == [Alphabet(x / 4)] + ([Alphabet(s1)] + ([Alphabet(s2)] + ([Alphabet(s3)] + rest)));
    DecodedStep(0, 0, x / 4, [Alphabet(s1)] + ([Alphabet(s2)] + ([Alphabet(s3)] + rest)));
    DecodedStep(6, x / 4, s1, [Alphabet(s2)] + ([Alphabet(s3)] + rest));
    JoinFirst(x, y);
    DecodeLastTwo(y, z, rest);
  }

  /** Decoding an encoding gives back every byte sequence. */
  lemma {:induction false} DecodeEncode(b: seq<byte>)
    ensures Decoded(0, 0, Encode(b)) == b
    decreases |b|
  {
    hide Decoded, EncodeOne, EncodeTwo, EncodeThree;
    if |b| == 0 {
      DecodedEnd(0, 0, []);
    } else if |b| == 1 {
      DecodeOne(b[0]);
    } else if |b| == 2 {
      DecodeTwo(b[0], b[1]);
    } else {
      DecodeEncode(b[3..]);
      DecodeThree(b[0], b[1], b[2], Encode(b[3..]));
    }
  }

  lemma AlphabetInvertsLookup(c: char)
    requires Lookup(c).Value?
    ensures Alphabet(Lookup(c).v) == c
  {
  }

  /** The table as the map the source builds on first use. */
  method BuildIndex() returns (index: map<char, nat>)
    ensures forall c :: c in index <==> Lookup(c).Value?
    ensures forall c :: c in index ==> Lookup(c) == Value(index[c])
  {
    hide TABLE;
    index := map[];
    TableIsAlphabet(0);
    for i := 0 to 64
      invariant forall c :: c in index <==> Lookup(c).Value? && Lookup(c).v < i
      invariant forall c :: c in index ==> Lookup(c) == Value(index[c])
    {
      TableIsAlphabet(i);
      LookupInvertsAlphabet(i);
      forall c | Lookup(c) == Value(i) ensures c == Alphabet(i) {
        AlphabetInvertsLookup(c);
      }
      index := index[TABLE[i] := i];
    }
  }

  lemma WrapDropsMultiples(x: int) returns (high: int)
    ensures ToInt32(x) == x - 0x1_0000_0000 * high
  {
    high := (x + 0x8000_0000) / 0x1_0000_0000;
  }

  lemma WrapKeepsLowBits(val: int, x: nat) returns (h: int)
    requires x < 64
    ensures ToInt32(val * 64 + x) == 4096 * h + 64 * (val % 64) + x
  {
    hide ToInt32;
    var high := WrapDropsMultiples(val * 64 + x);
    h := val / 64 - 0x10_0000 * high;
  }

  lemma SelectByte(y: int, q: int, r: nat)
    requires y == 256 * q + r && r < 256
    ensures y % 256 == r
  {
  }

  lemma JoinedBits(h: int, a: nat, x: nat, y: int)
    requires a < 64 && x < 64 && y == 4096 * h + 64 * a + x
    ensures y / 16 % 256 == a * 4 + x / 16
    ensures y / 4 % 256 == a % 16 * 16 + x / 4
    ensures y % 256 == a % 4 * 64 + x
  {
    assert y / 16 == 256 * h + 4 * a + x / 16;
    SelectByte(y / 16, h, a * 4 + x / 16);
    assert y / 4 == 1024 * h + 16 * a + x / 4;
    SelectByte(y / 4, 4 * h + a / 16, a % 16 * 16 + x / 4);
    SelectByte(y, 16 * h + a / 4, a % 4 * 64 + x);
  }

  lemma JoinedRest(h: int, a: nat, x: nat, y: int)
    requires a < 64 && x < 64 && y == 4096 * h + 64 * a + x
    ensures y % 64 == x && y % 16 == x % 16 && y % 4 == x % 4
  {
    Select(y, 64 * h + a, x);
    NestedRemainder(y, 16, 4);
    NestedRemainder(y, 4, 16);
  }

  lemma JoinedIsByte(val: int, bits: nat, x: nat, y: int)
    requires x < 64 && y == ToInt32(val * 64 + x)
    requires bits == 0 || bits == 2 || bits == 4 || bits == 6
    ensures bits > 0 ==> y / Two(bits - 2) % 256 == JoinedByte(bits, val % Two(bits), x)
    ensures y % Two(if bits == 0 then 6 else bits - 2) == x % Two(if bits == 0 then 6 else bits - 2)
  {
    hide ToInt32;
    var h := WrapKeepsLowBits(val, x);
    JoinedBits(h, val % 64, x, y);
    JoinedRest(h, val % 64, x, y);
    if bits == 2 { NestedRemainder(val, 4, 16); }
    if bits == 4 { NestedRemainder(val, 16, 4); }
  }

  /** One sextet enters the bit buffer, and a byte leaves it if one is complete. */
  method PushSextet(val: int, valb: int, x: nat) returns (val': int, valb': int, bytes: seq<byte>)
    requires (valb == -8 || valb == -6 || valb == -4 || valb == -2) && x < 64
    ensures valb' == if valb == -8 then -2 else valb - 2
    ensures bytes == if valb == -8 then [] else [JoinedByte(valb + 8, val % Two(valb + 8), x)]
    ensures val' % Two(valb' + 8) == x % Two(valb' + 8)
  {
    hide ToInt32, JoinedByte, Two;
    val' := ToInt32(val * 64 + x);
    JoinedIsByte(val, valb + 8, x, val');
    valb', bytes := valb + 6, [];
    if valb' >= 0 {
      bytes := [val' / Two(valb') % 256];
      valb' := valb' - 8;
    }
  }

  /** The bytes still to come, from the bit buffer and the characters ahead. */
  ghost function BytesAhead(val: int, valb: int, s: string): seq<byte>
    requires valb == -8 || valb == -6 || valb == -4 || valb == -2
  {
    Decoded(valb + 8, val % Two(valb + 8), s)
  }

  /** One character of the text, other than '='. */
  method PushChar(val: int, valb: int, c: char, index: map<char, nat>, ghost rest: string)
      returns (val': int, valb': int, bytes: seq<byte>)
    requires (valb == -8 || valb == -6 || valb == -4 || valb == -2) && c != '='
    requires c in index <==> Lookup(c).Value?
    requires c in index ==> Lookup(c) == Value(index[c])
    ensures valb' == -8 || valb' == -6 || valb' == -4 || valb' == -2
    ensures BytesAhead(val, valb, [c] + rest) == bytes + BytesAhead(val', valb', rest)
  {
    hide Lookup, JoinedByte;
    assert ([c] + rest)[1..] == rest;
    val', valb', bytes := val, valb, [];
    if c in index {
      val', valb', bytes := PushSextet(val, valb, index[c]);
    }
  }

  lemma NothingAhead(val: int, valb: int, s: string)
    requires (valb == -8 || valb == -6 || valb == -4 || valb == -2) && (s == [] || s[0] == '=')
    ensures BytesAhead(val, valb, s) == []
  {
  }

  method FromBase64(input: string) returns (result: seq<byte>)
    ensures result == Decoded(0, 0, input)
  {
    var index := BuildIndex();
    assert BytesAhead(0, -8, input) == Decoded(0, 0, input);
    hide Lookup, JoinedByte, Decoded, BytesAhead, Two;
    result := [];
    var val, valb, i := 0, -8, 0;
    assert input[0..] == input;
    while i < |input|
      invariant 0 <= i <= |input| && (valb == -8 || valb == -6 || valb == -4 || valb == -2)
      invariant result + BytesAhead(val, valb, input[i..]) == Decoded(0, 0, input)
    {
      var c := input[i];
      assert input[i..] == [c] + input[i + 1..];
      if c == '=' {
        break;
      }
      var bytes;
      val, valb, bytes := PushChar(val, valb, c, index, input[i + 1..]);
      result := result + bytes;
      i := i + 1;
    }
    NothingAhead(val, valb, input[i..]);
  }

  /** What from_base64 gives for the result of to_base_64 on the hexadecimal text of any bytes. */
  lemma RoundTrip(b: seq<byte>)
    ensures AllHex(HexOf(b)) && Decoded(0, 0, Encode(Parsed(HexOf(b)))) == b
  {
    ParsedHexOf(b);
    DecodeEncode(b);
  }

  lemma Foobar()
    ensures EncodeOne(0x66) == "Zg==" && EncodeOne(0x62) == "Yg=="
    ensures EncodeTwo(0x66, 0x6f) == "Zm8=" && EncodeTwo(0x62, 0x61) == "YmE="
    ensures EncodeThree(0x66, 0x6f, 0x6f) == "Zm9v" && EncodeThree(0x62, 0x61, 0x72) == "YmFy"
  {
  }

  lemma EncodeAfterThree(x: byte, y: byte, z: byte, b: seq<byte>)
    ensures Encode([x, y, z] + b) == EncodeThree(x, y, z) + Encode(b)
  {
    hide EncodeThree;
    assert ([x, y, z] + b)[3..] == b;
  }

  /** The test vectors of section 10. */
  lemma TestVectors()
    ensures Encode([]) == "" && Encode([0x66]) == "Zg==" && Encode([0x66, 0x6f]) == "Zm8="
    ensures Encode([0x66, 0x6f, 0x6f] + []) == "Zm9v"
    ensures Encode([0x66, 0x6f, 0x6f] + [0x62]) == "Zm9v" + "Yg=="
    ensures Encode([0x66, 0x6f, 0x6f] + [0x62, 0x61]) == "Zm9v" + "YmE="
    ensures Encode([0x66, 0x6f, 0x6f] + ([0x62, 0x61, 0x72] + [])) == "Zm9v" + "YmFy"
  {
    Foobar();
    hide EncodeOne, EncodeTwo, EncodeThree;
    EncodeAfterThree(0x66, 0x6f, 0x6f, []);
    EncodeAfterThree(0x66, 0x6f, 0x6f, [0x62]);
    EncodeAfterThree(0x66, 0x6f, 0x6f, [0x62, 0x61]);
    EncodeAfterThree(0x66, 0x6f, 0x6f, [0x62, 0x61, 0x72] + []);
    EncodeAfterThree(0x62, 0x61, 0x72, []);
  }

  /** Every character of table 1, in order. */
  lemma AllCharacters()
    ensures EncodeThree(0x00, 0x10, 0x83) == "ABCD"
    ensures EncodeThree(0x10, 0x51, 0x87) == "EFGH"
    ensures EncodeThree(0x20, 0x92, 0x8b) == "IJKL"
    ensures EncodeThree(0x30, 0xd3, 0x8f) == "MNOP"
    ensures EncodeThree(0x41, 0x14, 0x93) == "QRST"
    ensures EncodeThree(0x51, 0x55, 0x97) == "UVWX"
    ensures EncodeThree(0x61, 0x96, 0x9b) == "YZab"
    ensures EncodeThree(0x71, 0xd7, 0x9f) == "cdef"
    ensures EncodeThree(0x82, 0x18, 0xa3) == "ghij"
    ensures EncodeThree(0x92, 0x59, 0xa7) == "klmn"
    ensures EncodeThree(0xa2, 0x9a, 0xab) == "opqr"
    ensures EncodeThree(0xb2, 0xdb, 0xaf) == "stuv"
    ensures EncodeThree(0xc3, 0x1c, 0xb3) == "wxyz"
    ensures EncodeThree(0xd3, 0x5d, 0xb7) == "0123"
    ensures EncodeThree(0xe3, 0x9e, 0xbb) == "4567"
    ensures EncodeThree(0xf3, 0xdf, 0xbf) == "89+/"
  {
  }

  /** Characters outside the alphabet are skipped, wherever they are. */
  lemma {:induction false} OthersAreSkipped(bits: nat, v: nat, before: string, c: char, after: string)
    requires (bits == 0 || bits == 2 || bits == 4 || bits == 6) && v < Two(bits)
    requires c != '=' && forall i :: 0 <= i < 64 ==> Alphabet(i) != c
    ensures Decoded(bits, v, before + [c] + after) == Decoded(bits, v, before + after)
    decreases |before|
  {
    if Lookup(c).Value? { AlphabetInvertsLookup(c); }
    hide Alphabet, JoinedByte;
    if before == [] {
      assert before + [c] + after == [c] + after && before + after == after && ([c] + after)[1..] == after;
    } else {
      var rest := before[1..];
      assert before + [c] + after == [before[0]] + (rest + [c] + after);
      assert before + after == [before[0]] + (rest + after);
      DecodedTail(bits, v, before[0], rest + [c] + after);
      DecodedTail(bits, v, before[0], rest + after);
      if before[0] != '=' {
        var x := Lookup(before[0]);
        hide Lookup, Decoded, Two;
        if x.NotInAlphabet? {
          OthersAreSkipped(bits, v, rest, c, after);
        } else {
          OthersAreSkipped(NextBits(bits), x.v % Two(NextBits(bits)), rest, c, after);
        }
      }
    }
  }

  /** Nothing from the first '=' on matters. */
  lemma {:induction false} PadEnds(bits: nat, v: nat, before: string, after: string)
    requires (bits == 0 || bits == 2 || bits == 4 || bits == 6) && v < Two(bits)
    ensures Decoded(bits, v, before + ['='] + after) == Decoded(bits, v, before)
    decreases |before|
  {
    hide JoinedByte;
    if before == [] {
      assert before + ['='] + after == ['='] + after;
    } else {
      var rest := before[1..];
      assert before + ['='] + after == [before[0]] + (rest + ['='] + after);
      assert before == [before[0]] + rest;
      DecodedTail(bits, v, before[0], rest + ['='] + after);
      DecodedTail(bits, v, before[0], rest);
      if before[0] != '=' {
        var x := Lookup(before[0]);
        hide Lookup, Decoded, Two;
        if x.NotInAlphabet? {
          PadEnds(bits, v, rest, after);
        } else {
          PadEnds(NextBits(bits), x.v % Two(NextBits(bits)), rest, after);
        }
      }
    }
  }

  /** Text that ends within four characters: only whole bytes come out, and bits left over are dropped. */
  lemma PartialEnds(x: nat, y: nat, z: nat)
    requires x < 64 && y < 64 && z < 64
    ensures Decoded(0, 0, [Alphabet(x)]) == []
    ensures Decoded(0, 0, [Alphabet(x), Alphabet(y)]) == [x * 4 + y / 16]
    ensures Decoded(0, 0, [Alphabet(x), Alphabet(y), Alphabet(z)]) == [x * 4 + y / 16, y % 16 * 16 + z / 4]
  {
    var one, two, three := [Alphabet(x)], [Alphabet(x), Alphabet(y)], [Alphabet(x), Alphabet(y), Alphabet(z)];
    assert one == [Alphabet(x)] + [] && two == [Alphabet(x)] + ([Alphabet(y)] + []);
    assert three == [Alphabet(x)] + ([Alphabet(y)] + ([Alphabet(z)] + []));
    hide Decoded, Alphabet;
    DecodedStep(0, 0, x, []);
    DecodedStep(0, 0, x, [Alphabet(y)] + []);
    DecodedStep(0, 0, x, [Alphabet(y)] + ([Alphabet(z)] + []));
    DecodedStep(6, x, y, []);
    DecodedStep(6, x, y, [Alphabet(z)] + []);
    DecodedStep(4, y % 16, z, []);
    DecodedEnd(6, x, []);
    DecodedEnd(4, y % 16, []);
    DecodedEnd(2, z % 4, []);
  }

  lemma DigitRead(c: char, d: nat)
    requires d < 16 && (c == "0123456789abcdef"[d] || c == "0123456789ABCDEF"[d])
    ensures IsHexDigit(c) && HexValue(c) == d
  {
  }

  lemma {:induction false} ParsedAppend(b: seq<byte>, c: char)
    requires IsHexDigit(c) && AllHex(HexOf(b))
    ensures AllHex(HexOf(b) + [c]) && Parsed(HexOf(b) + [c]) == Parsed(HexOf(b)) + [HexValue(c)]
  {
    if b != [] {
      var s := HexOf(b);
      ParsedHexOf(b[1..]);
      ParsedAppend(b[1..], c);
      assert s[2..] == HexOf(b[1..]) && (s + [c])[..2] == s[..2] && (s + [c])[2..] == HexOf(b[1..]) + [c];
      hide HexOf, HexValue, ParseHex;
    }
  }

  /** The digits of either case, and a last single digit, are read as the numbers that they stand for. */
  lemma DigitsRead(b: seq<byte>, c: char, d: nat)
    requires d < 16 && (c == "0123456789abcdef"[d] || c == "0123456789ABCDEF"[d])
    ensures AllHex(HexOf(b) + [c]) && Parsed(HexOf(b) + [c]) == b + [d]
  {
    DigitRead(c, d);
    ParsedHexOf(b);
    ParsedAppend(b, c);
  }
}
