/**
 The WebSocket frames of the session: what it writes, and what it makes of the
 bytes of one read. Frames are those of RFC 6455, sections 5.2 and 5.3.
 */
module WebSocketFrame {
  import Arithmetic
  import opened Bits
  import opened Bytes

  const MAX_REASONABLE_PAYLOAD: nat := 1024 * 1024 * 100

  /** Section 5.2: the length in one byte, or a marker and the length in two or eight bytes. */
  function LengthField(n: nat, masked: bool): (f: seq<byte>)
    requires n < Power256(8)
    ensures |f| == if n <= 125 then 1 else if n <= 65535 then 3 else 9
  {
    var bit := if masked then 128 else 0;
    if n <= 125 then [bit + n]
    else if n <= 65535 then [bit + 126] + BytesOf(n, 2)
    else [bit + 127] + BytesOf(n, 8)
  }

  function MaskByte(b: byte, k: byte): byte {
    XorBound(b, k, 8);
    assert Pow2(8) == 2 * Pow2(7) && Pow2(7) == 2 * Pow2(6) && Pow2(6) == 2 * Pow2(5) && Pow2(5) == 2 * Pow2(4)
      && Pow2(4) == 16;
    Xor(b, k)
  }

  /** Section 5.3: byte i of the payload is combined with byte i modulo 4 of the key. */
  function Masked(payload: seq<byte>, key: seq<byte>): (r: seq<byte>)
    requires |key| == 4
    ensures |r| == |payload|
  {
    seq(|payload|, i requires 0 <= i < |payload| => MaskByte(payload[i], key[i % 4]))
  }

  lemma MaskByteTwice(b: byte, k: byte)
    ensures MaskByte(MaskByte(b, k), k) == b
  {
    XorTwice(b, k);
  }

  /** Masking inverts the bits of a byte where the key has a bit. */
  lemma MaskByteBits(b: byte, k: byte, j: nat)
    ensures And(MaskByte(b, k), Pow2(j)) != 0 <==> (And(b, Pow2(j)) != 0) != (And(k, Pow2(j)) != 0)
  {
    XorBits(b, k, j);
  }

  lemma MaskTwice(payload: seq<byte>, key: seq<byte>)
    requires |key| == 4
    ensures Masked(Masked(payload, key), key) == payload
  {
    forall i | 0 <= i < |payload| ensures MaskByte(MaskByte(payload[i], key[i % 4]), key[i % 4]) == payload[i] {
      MaskByteTwice(payload[i], key[i % 4]);
    }
    hide MaskByte;
  }

  /** A final frame with the given opcode; a client's frame has a masking key of four bytes. */
  function Frame(opcode: nat, key: seq<byte>, payload: seq<byte>): (f: seq<byte>)
    requires opcode < 16 && (key == [] || |key| == 4) && |payload| < Power256(8)
  {
    [128 + opcode] + LengthField(|payload|, key != []) + key + (if key == [] then payload else Masked(payload, key))
  }

  /** Where the key or, without one, the payload of a frame starts. */
  function HeaderLength(n: nat): nat {
    if n <= 125 then 2 else if n <= 65535 then 4 else 10
  }

  /** A shift to the right by whole bytes. */
  function Shifted(x: nat, bytes: nat): nat {
    Arithmetic.Quotient(x, Power256(bytes))
  }

  lemma NoBytes(x: nat)
    ensures BytesOf(x, 0) == []
  {
  }

  lemma NoShift(x: nat)
    ensures Shifted(x, 0) == x
  {
  }

  lemma DivideTwice(x: nat, p: nat)
    requires p > 0
    ensures x / p / 256 == x / (256 * p)
  {
    var q, r := x / p / 256, x / p % 256;
    var y := x / p;
    assert x == y * p + x % p && y == 256 * q + r;
    Arithmetic.Distribute(256 * q, r, p);
    Arithmetic.Associate(256, q, p);
    Arithmetic.Associate(q, 256, p);
    Arithmetic.MulMonotone(0, r, p);
    Arithmetic.MulMonotone(r, 255, p);
    assert 255 * p + p == 256 * p;
    Arithmetic.RemainderUnique(x, 256 * p, q, r * p + x % p);
  }

  /** Shifting by i bytes is shifting by i + 1 bytes and one byte less. */
  lemma NextByte(x: nat, i: nat)
    requires i <= 7
    ensures BytesOf(Shifted(x, i), 8 - i) == BytesOf(Shifted(x, i + 1), 7 - i) + [Shifted(x, i) % 256]
  {
    DivideTwice(x, Power256(i));
  }

  /** The header of a received frame: its fields and where it ends. */
  datatype Header = Incomplete | Header(opcode: nat, masked: bool, payloadLength: nat, length: nat)

  function ParseHeader(buffer: seq<byte>, length: nat): (h: Header)
    requires length <= |buffer|
    ensures h.Header? ==> h.opcode < 16 && 2 <= h.length <= length && h.length <= 10
  {
    if length < 2 then Incomplete
    else
      var opcode, masked, short := buffer[0] % 16, buffer[1] >= 128, buffer[1] % 128;
      if short == 126 then
        if length < 4 then Incomplete else Header(opcode, masked, NumberOf(buffer[2..4]), 4)
      else if short == 127 then
        if length < 10 then Incomplete else Header(opcode, masked, NumberOf(buffer[2..10]), 10)
      else Header(opcode, masked, short, 2)
  }

  /** What the handler does: nothing, a call of the message handler, or a read past the buffer. */
  datatype Outcome = Ignored | Delivered(opcode: nat, payload: seq<byte>) | PastBuffer

  /** The handler's result for the first `length` bytes of the buffer. */
  function Handle(buffer: seq<byte>, length: nat): Outcome
    requires length <= |buffer|
  {
    var h := ParseHeader(buffer, length);
    if h.Incomplete? then Ignored
    else if h.payloadLength > MAX_REASONABLE_PAYLOAD || length < h.length + h.payloadLength then Ignored
    else if !h.masked then Delivered(h.opcode, buffer[h.length..h.length + h.payloadLength])
    else if length < h.length + 4 then Ignored
    else if |buffer| < h.length + 4 + h.payloadLength then PastBuffer
    else
      var key := buffer[h.length..h.length + 4];
      Delivered(h.opcode, Masked(buffer[h.length + 4..h.length + 4 + h.payloadLength], key))
  }

  /** The first byte of a length field, and the bytes after it. */
  lemma FieldBytes(n: nat, masked: bool)
    requires n < Power256(8)
    ensures var field := LengthField(n, masked);
      && |field| == HeaderLength(n) - 1 && (field[0] >= 128 <==> masked)
      && field[0] % 128 == (if n <= 125 then n else if n <= 65535 then 126 else 127)
      && field[1..] == (if n <= 125 then [] else if n <= 65535 then BytesOf(n, 2) else BytesOf(n, 8))
  {
    hide Power256, BytesOf;
  }

  /** What the bytes of a length field say. */
  lemma FieldRead(n: nat, masked: bool, field: seq<byte>)
    requires n < Power256(8) && field == LengthField(n, masked)
    ensures |field| == HeaderLength(n) - 1
    ensures field[0] >= 128 <==> masked
    ensures n <= 125 ==> field[0] % 128 == n
    ensures 125 < n <= 65535 ==> field[0] % 128 == 126 && NumberOf(field[1..]) == n
    ensures 65535 < n ==> field[0] % 128 == 127 && NumberOf(field[1..]) == n
  {
    FieldBytes(n, masked);
    assert n <= 65535 ==> n < Power256(2) by { assert Power256(2) == 256 * Power256(1) && Power256(1) == 256; }
    hide *;
    if n > 65535 {
      NumberOfBytesOf(n, 8);
    } else if n > 125 {
      NumberOfBytesOf(n, 2);
    }
  }

  lemma SamePrefix(a: seq<byte>, b: seq<byte>, length: nat, h: nat)
    requires h <= length <= |a| && length <= |b| && a[..length] == b[..length]
    ensures a[..h] == b[..h]
  {
    assert a[..h] == a[..length][..h] && b[..h] == b[..length][..h];
  }

  lemma NoMask(payload: seq<byte>)
    ensures Masked(payload, [0, 0, 0, 0]) == payload
  {
  }

  lemma PowerGrows(k: nat)
    requires k > 0
    ensures Power256(k) >= 256
  {
  }

  /** From any part of a frame that has its header, the header is read as it was written. */
  lemma HeaderRead(buffer: seq<byte>, length: nat, opcode: nat, key: seq<byte>, payload: seq<byte>)
    requires opcode < 16 && (key == [] || |key| == 4) && |payload| < Power256(8)
    requires Holds(buffer, length, Frame(opcode, key, payload))
    ensures ParseHeader(buffer, length)
      == if length < HeaderLength(|payload|) then Incomplete
         else Header(opcode, key != [], |payload|, HeaderLength(|payload|))
  {
    hide Masked, BytesOf, NumberOf, LengthField;
    var n, frame := |payload|, Frame(opcode, key, payload);
    var field := LengthField(n, key != []);
    var rest := key + (if key == [] then payload else Masked(payload, key));
    assert frame == [128 + opcode] + field + rest;
    FieldRead(n, key != [], field);
    if length >= 2 {
      SamePrefix(buffer, frame, length, 2);
      assert buffer[0] == buffer[..2][0] == 128 + opcode && buffer[1] == buffer[..2][1] == field[0];
      if length >= HeaderLength(n) {
        var h := HeaderLength(n);
        SamePrefix(buffer, frame, length, h);
        assert frame[..h] == [128 + opcode] + field;
        assert buffer[2..h] == buffer[..h][2..] == field[1..];
      }
    }
  }

  lemma SmallFrame() returns (frame: seq<byte>)
    ensures Power256(8) > 5 && frame == Frame(2, [0, 0, 0, 0], [1, 2, 3, 4, 5])
    ensures frame == [130, 133, 0, 0, 0, 0, 1, 2, 3, 4, 5]
  {
    PowerGrows(8);
    frame := Frame(2, [0, 0, 0, 0], [1, 2, 3, 4, 5]);
    NoMask([1, 2, 3, 4, 5]);
  }

  /** A frame of five payload bytes that misses its last byte is delivered with a byte of the buffer instead. */
  lemma TruncatedMaskedFrame()
    ensures var key: seq<byte> := [0, 0, 0, 0];
      var frame := Frame(2, key, [1, 2, 3, 4, 5]);
      |frame| == 11 && Handle(frame[..10] + [9], 10) == Delivered(2, [1, 2, 3, 4, 9])
  {
    var key: seq<byte> := [0, 0, 0, 0];
    PowerGrows(8);
    var frame := SmallFrame();
    var buffer: seq<byte> := frame[..10] + [9];
    HeaderRead(buffer, 10, 2, key, [1, 2, 3, 4, 5]);
    hide ParseHeader, Frame;
    assert buffer == [130, 133, 0, 0, 0, 0, 1, 2, 3, 4, 9];
    assert buffer[2..6] == key && buffer[6..11] == [1, 2, 3, 4, 9];
    NoMask(buffer[6..11]);
  }

  /** The buffer starts with the first `length` bytes of a frame. */
  ghost predicate Holds(buffer: seq<byte>, length: nat, frame: seq<byte>) {
    length <= |buffer| && length <= |frame| && buffer[..length] == frame[..length]
  }

  method AppendEightBytes(start: seq<byte>, size: nat) returns (frame: seq<byte>)
    ensures frame == start + BytesOf(size, 8)
  {
    hide BytesOf, Shifted;
    frame := start;
    var i := 7;
    NoBytes(Shifted(size, 8));
    while i >= 0
      invariant -1 <= i <= 7
      invariant frame == start + BytesOf(Shifted(size, i + 1), 7 - i)
    {
      NextByte(size, i);
      frame := frame + [Shifted(size, i) % 256];
      i := i - 1;
    }
    NoShift(size);
  }

  lemma TwoBytes(x: nat)
    ensures BytesOf(x, 2) == [x / 256 % 256, x % 256]
  {
    assert BytesOf(x / 256, 1) == BytesOf(x / 256 / 256, 0) + [x / 256 % 256];
  }

  lemma UnmaskedFrame(opcode: nat, message: seq<byte>)
    requires opcode < 16 && |message| < Power256(8)
    ensures Frame(opcode, [], message) == [128 + opcode] + LengthField(|message|, false) + message
  {
    hide LengthField;
  }

  /** What the session writes for a message. */
  method CreateFrame(message: seq<byte>, opcode: nat) returns (frame: seq<byte>)
    requires opcode < 16 && |message| < Power256(8)
    ensures frame == Frame(opcode, [], message)
  {
    hide BytesOf, Power256;
    frame := [128 + opcode];
    var size := |message|;
    if size <= 125 {
      frame := frame + [size];
    } else if size <= 65535 {
      frame := frame + [126];
      frame := frame + [size / 256 % 256];
      frame := frame + [size % 256];
      TwoBytes(size);
    } else {
      frame := frame + [127];
      frame := AppendEightBytes(frame, size);
    }
    assert frame == [128 + opcode] + LengthField(size, false);
    hide *;
    frame := frame + message;
    UnmaskedFrame(opcode, message);
  }

  lemma FlagBits(b: byte)
    ensures And(b, 0x0F) == b % 16 && And(b, 0x7F) == b % 128
    ensures And(b, 0x80) != 0 <==> b >= 128
  {
    assert Pow2(4) == 16 && Pow2(5) == 32 && Pow2(6) == 2 * Pow2(5) && Pow2(7) == 2 * Pow2(6);
    MaskIsRemainder(b, 4);
    MaskIsRemainder(b, 7);
    BitTest(b, 7);
  }

  method ReadEightBytes(buffer: seq<byte>) returns (number: nat)
    requires |buffer| >= 10
    ensures number == NumberOf(buffer[2..10])
  {
    number := 0;
    assert buffer[2..2] == [];
    for i := 0 to 8
      invariant number == NumberOf(buffer[2..2 + i])
    {
      number := number * 256 + buffer[2 + i];
      assert buffer[2..2 + i + 1][..i] == buffer[2..2 + i];
    }
  }

  lemma NumberOfTwo(buffer: seq<byte>)
    requires |buffer| >= 4
    ensures NumberOf(buffer[2..4]) == buffer[2] as int * 256 + buffer[3] as int
  {
    var t := buffer[2..4];
    assert t[..1] == [buffer[2]];
    assert NumberOf([buffer[2]]) == NumberOf([buffer[2]][..0]) * 256 + buffer[2] as int;
  }

  /** The part of the handler that reads the header; a length of 2^63 or more is refused here. */
  method ReadHeader(buffer: seq<byte>, length: nat) returns (h: Header)
    requires length <= |buffer|
    ensures h == ParseHeader(buffer, length)
         || (h.Incomplete? && ParseHeader(buffer, length).Header?
           && ParseHeader(buffer, length).payloadLength >= 0x8000_0000_0000_0000)
  {
    if length < 2 {
      return Incomplete;
    }
    FlagBits(buffer[0]);
    FlagBits(buffer[1]);
    hide And, NumberOf;
    var opcode := And(buffer[0], 0x0F);
    var masked := And(buffer[1], 0x80) != 0;
    var payloadLength: nat := And(buffer[1], 0x7F);
    var headerLength := 2;
    if payloadLength == 126 {
      if length < 4 {
        return Incomplete;
      }
      payloadLength := buffer[2] as int * 256 + buffer[3] as int;
      NumberOfTwo(buffer);
      headerLength := headerLength + 2;
    } else if payloadLength == 127 {
      if length < 10 {
        return Incomplete;
      }
      payloadLength := ReadEightBytes(buffer);
      headerLength := headerLength + 8;
      if payloadLength > 0x7FFF_FFFF_FFFF_FFFF {
        return Incomplete;
      }
    }
    return Header(opcode, masked, payloadLength, headerLength);
  }

  /** The payload is unmasked in place, byte by byte. */
  method Unmask(data: seq<byte>, mask: seq<byte>) returns (payload: seq<byte>)
    requires |mask| == 4
    ensures payload == Masked(data, mask)
  {
    hide MaskByte;
    payload := data;
    for i := 0 to |payload|
      invariant |payload| == |data|
      invariant forall j :: 0 <= j < i ==> payload[j] == MaskByte(data[j], mask[j % 4])
      invariant forall j :: i <= j < |data| ==> payload[j] == data[j]
    {
      payload := payload[i := MaskByte(payload[i], mask[i % 4])];
    }
  }

  method HandleFrame(buffer: seq<byte>, length: nat) returns (outcome: Outcome)
    requires length <= |buffer|
    ensures outcome == Handle(buffer, length)
  {
    hide Masked, ParseHeader;
    var h := ReadHeader(buffer, length);
    if h.Incomplete? {
      return Ignored;
    }
    var payloadLength, headerLength := h.payloadLength, h.length;
    if payloadLength > MAX_REASONABLE_PAYLOAD {
      return Ignored;
    }
    if length < headerLength + payloadLength {
      return Ignored;
    }
    if h.masked {
      if length < headerLength + 4 {
        return Ignored;
      }
      var mask := buffer[headerLength..headerLength + 4];
      headerLength := headerLength + 4;
      if |buffer| < headerLength + payloadLength {
        return PastBuffer;
      }
      var payload := Unmask(buffer[headerLength..headerLength + payloadLength], mask);
      return Delivered(h.opcode, payload);
    } else {
      return Delivered(h.opcode, buffer[headerLength..headerLength + payloadLength]);
    }
  }

  lemma SliceOfPrefix(s: seq<byte>, end: nat, i: nat, j: nat)
    requires i <= j <= end <= |s|
    ensures s[i..j] == s[..end][i..j]
  {
  }

  lemma Slices(a: seq<byte>, b: seq<byte>, c: seq<byte>, whole: seq<byte>)
    ensures whole == (a + b) + c ==> whole[|a|..|a| + |b|] == b && whole[|a| + |b|..] == c
  {
  }

  lemma BodyRead(buffer: seq<byte>, opcode: nat, key: seq<byte>, payload: seq<byte>)
    requires opcode < 16 && (key == [] || |key| == 4) && |payload| < Power256(8)
    requires Holds(buffer, |Frame(opcode, key, payload)|, Frame(opcode, key, payload))
    ensures var h := HeaderLength(|payload|) + |key|;
      && |Frame(opcode, key, payload)| == h + |payload|
      && buffer[h - |key|..h] == key
      && buffer[h..h + |payload|] == (if key == [] then payload else Masked(payload, key))
  {
    hide Masked, LengthField, BytesOf;
    var frame, h := Frame(opcode, key, payload), HeaderLength(|payload|);
    var body := if key == [] then payload else Masked(payload, key);
    var front := [128 + opcode] + LengthField(|payload|, key != []);
    assert |front| == h && |body| == |payload|;
    hide *;
    assert frame == (front + key) + body && |frame| == h + |key| + |body|;
    Slices(front, key, body, buffer[..|frame|]);
    SliceOfPrefix(buffer, |frame|, h, h + |key|);
    SliceOfPrefix(buffer, |frame|, h + |key|, |frame|);
  }

  /**
   A complete frame delivers its opcode and unmasked payload, for any opcode, any
   key and any payload up to 100 MB, whatever follows it in the buffer.
   */
  lemma RoundTrip(buffer: seq<byte>, opcode: nat, key: seq<byte>, payload: seq<byte>)
    requires opcode < 16 && (key == [] || |key| == 4) && |payload| < Power256(8)
    requires Holds(buffer, |Frame(opcode, key, payload)|, Frame(opcode, key, payload))
    ensures Handle(buffer, |Frame(opcode, key, payload)|)
      == if |payload| <= 104_857_600 then Delivered(opcode, payload) else Ignored
  {
    var frame := Frame(opcode, key, payload);
    HeaderRead(buffer, |frame|, opcode, key, payload);
    BodyRead(buffer, opcode, key, payload);
    if key != [] { MaskTwice(payload, key); }
    assert |frame| <= |buffer|;
    hide ParseHeader, Masked, Frame, Holds, HeaderLength, LengthField, Power256;
  }

  /** No strict prefix of an unmasked frame delivers anything, whatever else is in the buffer. */
  lemma PrefixIgnored(buffer: seq<byte>, length: nat, opcode: nat, payload: seq<byte>)
    requires opcode < 16 && |payload| < Power256(8)
    requires Holds(buffer, length, Frame(opcode, [], payload)) && length < |Frame(opcode, [], payload)|
    ensures Handle(buffer, length) == Ignored
  {
    HeaderRead(buffer, length, opcode, [], payload);
    hide ParseHeader;
  }

  lemma MaskedAt(payload: seq<byte>, key: seq<byte>, i: nat)
    requires |key| == 4 && i < |payload|
    ensures Masked(payload, key)[i] == MaskByte(payload[i], key[i % 4])
  {
  }

  /** The key and those bytes of a masked payload that a prefix of the frame has. */
  lemma ReceivedPart(buffer: seq<byte>, length: nat, opcode: nat, key: seq<byte>, payload: seq<byte>)
    requires opcode < 16 && |key| == 4 && |payload| < Power256(8)
    requires Holds(buffer, length, Frame(opcode, key, payload)) && HeaderLength(|payload|) + 4 <= length
    ensures var h := HeaderLength(|payload|);
      && buffer[h..h + 4] == key && length <= h + 4 + |payload|
      && forall i :: 0 <= i < |payload| && h + 4 + i < length ==> buffer[h + 4 + i] == MaskByte(payload[i], key[i % 4])
  {
    hide MaskByte, BytesOf, Masked;
    var h, frame, body := HeaderLength(|payload|), Frame(opcode, key, payload), Masked(payload, key);
    var front := [128 + opcode] + LengthField(|payload|, true);
    assert |front| == h && frame == (front + key) + body;
    hide LengthField, Frame, HeaderLength;
    SliceOfPrefix(buffer, length, h, h + 4);
    SliceOfPrefix(frame, length, h, h + 4);
    Slices(front, key, body, frame);
    forall i | 0 <= i < |payload| && h + 4 + i < length
      ensures buffer[h + 4 + i] == MaskByte(payload[i], key[i % 4])
    {
      MaskedAt(payload, key, i);
      assert buffer[h + 4 + i] == buffer[..length][h + 4 + i] == frame[..length][h + 4 + i] == body[i];
    }
  }

  /**
   What the handler makes of any prefix of a masked frame. It is ignored exactly when
   it is too short for the header with either the payload or the key: the length check
   leaves the key out. Otherwise the bytes that were received are delivered as they
   were sent, and the missing ones are made from whatever the buffer holds after them.
   */
  lemma MaskedPrefix(buffer: seq<byte>, length: nat, opcode: nat, key: seq<byte>, payload: seq<byte>)
    requires opcode < 16 && |key| == 4 && |payload| < Power256(8)
    requires Holds(buffer, length, Frame(opcode, key, payload))
    ensures var outcome, n, h := Handle(buffer, length), |payload|, HeaderLength(|payload|);
      && (outcome == Ignored <==> n > 104_857_600 || length < h + n || length < h + 4)
      && (outcome == PastBuffer <==> outcome != Ignored && |buffer| < h + 4 + n)
      && (outcome.Delivered? ==> outcome.opcode == opcode && |outcome.payload| == n)
      && (outcome.Delivered? ==> forall i :: 0 <= i < n ==>
            outcome.payload[i] == if h + 4 + i < length then payload[i] else MaskByte(buffer[h + 4 + i], key[i % 4]))
  {
    hide ParseHeader, Masked, MaskByte, BytesOf, LengthField, Holds;
    HeaderRead(buffer, length, opcode, key, payload);
    var n, h := |payload|, HeaderLength(|payload|);
    if n <= MAX_REASONABLE_PAYLOAD && h + n <= length && h + 4 <= length && h + 4 + n <= |buffer| {
      ReceivedPart(buffer, length, opcode, key, payload);
      var body := buffer[h + 4..h + 4 + n];
      assert Handle(buffer, length) == Delivered(opcode, Masked(body, key));
      forall i | 0 <= i < n
        ensures Masked(body, key)[i]
          == if h + 4 + i < length then payload[i] else MaskByte(buffer[h + 4 + i], key[i % 4])
      {
        MaskedAt(body, key, i);
        MaskByteTwice(payload[i], key[i % 4]);
      }
    }
  }

  /** A length field stands for the number n: in its first byte, or in the bytes after a marker. */
  ghost predicate StandsFor(field: seq<byte>, n: nat) {
    || (|field| == 1 && field[0] % 128 == n <= 125)
    || (|field| == 3 && field[0] % 128 == 126 && NumberOf(field[1..]) == n)
    || (|field| == 9 && field[0] % 128 == 127 && NumberOf(field[1..]) == n)
  }

  /** The length is written in the shortest form that can stand for it. */
  lemma ShortestForm(n: nat, masked: bool, field: seq<byte>)
    requires n < Power256(8) && StandsFor(field, n)
    ensures StandsFor(LengthField(n, masked), n) && |LengthField(n, masked)| <= |field|
  {
    FieldRead(n, masked, LengthField(n, masked));
    if |field| == 3 {
      NumberOfBound(field[1..]);
      assert Power256(2) == 256 * Power256(1) && Power256(1) == 256;
    }
    hide LengthField, NumberOf, Power256;
  }

  /**
   What the handler delivers, for any buffer: the opcode and the bytes after the
   header; when they are masked, bit j of byte i is inverted if bit j of byte i modulo
   4 of the key, which comes before them, is set.
   */
  lemma DeliveredBits(buffer: seq<byte>, length: nat, i: nat, j: nat)
    requires length <= |buffer| && Handle(buffer, length).Delivered? && i < |Handle(buffer, length).payload|
    ensures And(buffer[0], 0x0F) == Handle(buffer, length).opcode
    ensures var b, h := Handle(buffer, length).payload[i], ParseHeader(buffer, length).length;
      if And(buffer[1], 0x80) == 0 then h + i < length && b == buffer[h + i]
      else
        && h + 4 + i < |buffer|
        && (And(b, Pow2(j)) != 0 <==> (And(buffer[h + 4 + i], Pow2(j)) != 0) != (And(buffer[h + i % 4], Pow2(j)) != 0))
  {
    FlagBits(buffer[0]);
    FlagBits(buffer[1]);
    var h := ParseHeader(buffer, length);
    if h.masked {
      var body, key := buffer[h.length + 4..h.length + 4 + h.payloadLength], buffer[h.length..h.length + 4];
      MaskedAt(body, key, i);
      MaskByteBits(body[i], key[i % 4], j);
    }
  }

  /** The header is read as section 5.2 says from whichever form of the length the sender has used. */
  lemma HeaderOfAnyForm(buffer: seq<byte>, length: nat, field: seq<byte>, n: nat)
    requires StandsFor(field, n) && 1 + |field| <= length <= |buffer| && buffer[1..1 + |field|] == field
    ensures var h := ParseHeader(buffer, length);
      && h.Header? && h.opcode == And(buffer[0], 0x0F) && h.payloadLength == n && h.length == 1 + |field|
      && (h.masked <==> And(field[0], 0x80) != 0)
  {
    FlagBits(buffer[0]);
    FlagBits(buffer[1]);
    assert buffer[1] == buffer[1..1 + |field|][0];
    assert buffer[2..1 + |field|] == buffer[1..1 + |field|][1..];
    hide NumberOf, And;
  }

  /** The flags and the opcode of a frame, in the bits of its first two bytes. */
  lemma FrameBits(opcode: nat, key: seq<byte>, payload: seq<byte>)
    requires opcode < 16 && (key == [] || |key| == 4) && |payload| < Power256(8)
    ensures var f := Frame(opcode, key, payload);
      && |f| >= 2 && And(f[0], 0x80) != 0 && And(f[0], 0x7F) == opcode && And(f[0], 0x0F) == opcode
      && (And(f[1], 0x80) != 0 <==> key != [])
  {
    hide BytesOf, Masked;
    var f := Frame(opcode, key, payload);
    FlagBits(f[0]);
    FlagBits(f[1]);
    hide And;
  }

  /** Section 5.7: the message "Hello" in a text frame without a key. */
  lemma HelloFrame()
    ensures Power256(8) > 5
    ensures Frame(1, [], [0x48, 0x65, 0x6c, 0x6c, 0x6f]) == [0x81, 0x05, 0x48, 0x65, 0x6c, 0x6c, 0x6f]
  {
    PowerGrows(8);
  }

  /** Section 5.7: the headers of messages of 256 bytes and of 65536 bytes in binary frames. */
  lemma LongFrames(payload: seq<byte>)
    ensures Power256(8) > 65536
    ensures |payload| == 256 ==> Frame(2, [], payload) == [0x82, 0x7E, 0x01, 0x00] + payload
    ensures |payload| == 65536 ==> Frame(2, [], payload) == [0x82, 0x7F, 0, 0, 0, 0, 0, 1, 0, 0] + payload
  {
  }
}
