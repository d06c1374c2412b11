/** The answer to a WebSocket opening handshake, RFC 6455, section 4.2.2. */
module Handshake {
  import opened Base64
  import opened Bytes
  import opened Sha1
  import opened Sha1Standard

  /** The text that section 1.3 of RFC 6455 has the server append to the client's key. */
  const GUID: string := "258EAFA5-E914-47DA-95CA-C5AB0DC85B11"

  /** The bytes of ASCII text. */
  function Ascii(s: string): (b: seq<byte>)
    requires forall i :: 0 <= i < |s| ==> s[i] as int < 128
    ensures |b| == |s| && forall i :: 0 <= i < |b| ==> b[i] as char == s[i]
  {
    seq(|s|, i requires 0 <= i < |s| => s[i] as int)
  }

  lemma GuidIsAscii()
    ensures forall i :: 0 <= i < |GUID| ==> GUID[i] as int < 128
  {
  }

  lemma NothingBefore(message: seq<byte>, s: seq<byte>)
    requires message == [] + s
    ensures message == s
  {
  }

  /**
   The accept value is the base 64 encoding of the 20 bytes of the hash of the key
   and the text, although the hash reaches the encoder as hexadecimal text.
   */
  method GenerateAccept(key: seq<byte>) returns (accept: string)
    ensures accept == Encode(HashBytes(Hash(key + Ascii(GUID))))
  {
    var magicString := "258EAFA5-E914-47DA-95CA-C5AB0DC85B11";
    assert magicString == GUID;
    hide *;
    GuidIsAscii();
    var concatenated := key + Ascii(magicString);
    var sha1 := new SHA1();
    sha1.Update(concatenated);
    assert sha1.message == concatenated by { NothingBefore(sha1.message, concatenated); }
    var hash := sha1.Final();
    ParsedHexOf(HashBytes(Hash(concatenated)));
    accept := ToBase64(hash);
  }
}
