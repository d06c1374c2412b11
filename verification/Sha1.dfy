/** The SHA-1 object: 80 unrolled rounds over a circular block, and streaming updates. */
module Sha1 {
  import opened Arithmetic
  import opened Bytes
  import opened Sha1Standard
  import opened Hex
  import opened Sequences

  function Slot(s: nat): (i: nat)
    ensures i < 16
  {
    s % 16
  }

  function Oldest(t: nat): nat { if t < 16 then 0 else t - 16 }

  /** The circular block holds the 16 most recent words of the schedule when round t begins. */
  ghost predicate Window(block: seq<Word>, m: seq<Word>, t: nat)
    requires |m| == 16
  {
    && |block| == 16
    && forall s: nat :: Oldest(t) <= s < Oldest(t) + 16 ==> block[Slot(s)] == W(m, s)
  }

  /** The next word of the schedule, from the circular block. */
  function Blk(block: seq<Word>, i: nat): Word
    requires |block| == 16 && i < 16
  {
    Mix(block[(i + 13) % 16], block[(i + 8) % 16], block[(i + 2) % 16], block[i])
  }

  lemma ScheduleStep(m: seq<Word>, t: nat)
    requires |m| == 16 && t >= 16
    ensures W(m, t) == Mix(W(m, t - 3), W(m, t - 8), W(m, t - 14), W(m, t - 16))
  {
    hide Mix;
  }

  lemma SlotAhead(t: nat, ahead: nat)
    requires t >= 16
    ensures (Slot(t) + ahead) % 16 == Slot(t - 16 + ahead)
  {
    AddThenWrap(t, ahead, 16);
    AddThenWrap(t - 16 + ahead, 16, 16);
  }

  lemma WordInWindow(block: seq<Word>, m: seq<Word>, t: nat, ahead: nat)
    requires |m| == 16 && t >= 16 && Window(block, m, t) && ahead < 16
    ensures |block| == 16 && block[(Slot(t) + ahead) % 16] == W(m, t - 16 + ahead)
  {
    hide Mix, W;
    SlotAhead(t, ahead);
  }

  lemma BlkIsSchedule(block: seq<Word>, m: seq<Word>, t: nat)
    requires |m| == 16 && t >= 16 && Window(block, m, t)
    ensures Blk(block, Slot(t)) == W(m, t)
  {
    hide Mix, W, Window, Slot;
    WordInWindow(block, m, t, 13);
    WordInWindow(block, m, t, 8);
    WordInWindow(block, m, t, 2);
    WordInWindow(block, m, t, 0);
    RemainderUnique(Slot(t), 16, 0, Slot(t));
    ScheduleStep(m, t);
  }

  lemma DifferentSlots(s: nat, t: nat)
    requires s < t < s + 16
    ensures Slot(s) != Slot(t)
  {
  }

  lemma WindowMoves(block: seq<Word>, m: seq<Word>, t: nat)
    requires |m| == 16 && t >= 16 && Window(block, m, t)
    ensures Window(block[Slot(t) := W(m, t)], m, t + 1)
  {
    hide Mix, W, Slot;
    var next := block[Slot(t) := W(m, t)];
    forall s: nat | Oldest(t + 1) <= s < Oldest(t + 1) + 16 ensures next[Slot(s)] == W(m, s) {
      if s < t { DifferentSlots(s, t); }
    }
  }

  /** The rest of the message, the byte 0x80, and zeros up to a whole block. */
  function Ending(rest: seq<byte>): (b: seq<byte>)
    requires |rest| < 64
    ensures |b| == 64
  {
    rest + [0x80] + seq(63 - |rest|, _ => 0)
  }

  lemma EndingWords(rest: seq<byte>)
    requires |rest| <= 55
    ensures forall i :: 0 <= i < 14 ==>
      var f := Ending(rest)[..56];
      Words(Ending(rest))[i] == WordOf(f[4 * i], f[4 * i + 1], f[4 * i + 2], f[4 * i + 3])
  {
    hide WordOf, Ending;
  }

  /** The source's forms of two logical functions, and its order of summation. */
  function Choose(w: Word, x: Word, y: Word): Word { (w & (x ^ y)) ^ y }
  function Majority(w: Word, x: Word, y: Word): Word { ((w | x) & y) | (w & x) }
  function Increase(z: Word, f: Word, word: Word, k: Word, rotated: Word): Word { z + (f + word + k + rotated) }

  lemma ChooseBits(x: Word, y: Word, z: Word)
    ensures (x & (y ^ z)) ^ z == (x & y) ^ (!x & z)
  {
  }

  lemma ChooseIsCh(x: Word, y: Word, z: Word)
    ensures Choose(x, y, z) == Ch(x, y, z)
  {
    ChooseBits(x, y, z);
  }

  lemma MajorityBits(x: Word, y: Word, z: Word)
    ensures ((x | y) & z) | (x & y) == (x & y) ^ (x & z) ^ (y & z)
  {
  }

  lemma MajorityIsMaj(x: Word, y: Word, z: Word)
    ensures Majority(x, y, z) == Maj(x, y, z)
  {
    MajorityBits(x, y, z);
  }

  lemma SameSum(z: Word, f: Word, word: Word, k: Word, rotated: Word)
    ensures Increase(z, f, word, k, rotated) == RoundSum(rotated, f, z, k, word)
  {
  }

  lemma NextRound(h: Regs, m: seq<Word>, t: nat, v: Word, w: Word, x: Word, y: Word, z: Word, f: Word, word: Word)
    requires |m| == 16 && Regs(v, w, x, y, z) == Rounds(h, m, t)
    requires f == F(t, w, x, y) && word == W(m, t)
    ensures Regs(Increase(z, f, word, K(t), Rotl(v, 5)), v, Rotl(w, 30), x, y) == Rounds(h, m, t + 1)
  {
    hide Rotl, F, K, W, Increase, RoundSum;
    SameSum(z, f, word, K(t), Rotl(v, 5));
  }

  /** When round t begins, the registers and the circular block hold what the standard says. */
  ghost predicate AtRound(block: array<Word>, h: Regs, m: seq<Word>, t: nat, r: Regs)
    reads block
  {
    |m| == 16 && block.Length == 16 && Window(block[..], m, t) && r == Rounds(h, m, t)
  }

  method R0(block: array<Word>, v: Word, w: Word, x: Word, y: Word, z: Word, i: nat,
      ghost h: Regs, ghost m: seq<Word>, ghost t: nat)
      returns (w': Word, z': Word)
    requires i == t < 16 && AtRound(block, h, m, t, Regs(v, w, x, y, z))
    ensures AtRound(block, h, m, t + 1, Regs(z', v, w', x, y))
  {
    hide Rotl, Ch, Maj, Choose, Rounds, Increase;
    ChooseIsCh(w, x, y);
    NextRound(h, m, t, v, w, x, y, z, Ch(w, x, y), block[i]);
    z' := Increase(z, Choose(w, x, y), block[i], 0x5a827999, Rotl(v, 5));
    w' := Rotl(w, 30);
  }

  method R1(block: array<Word>, v: Word, w: Word, x: Word, y: Word, z: Word, i: nat,
      ghost h: Regs, ghost m: seq<Word>, ghost t: nat)
      returns (w': Word, z': Word)
    requires 16 <= t < 20 && i == t % 16 && AtRound(block, h, m, t, Regs(v, w, x, y, z))
    modifies block
    ensures AtRound(block, h, m, t + 1, Regs(z', v, w', x, y))
  {
    hide Rotl, Ch, Maj, Parity, Choose, Majority, Rounds, Increase, Blk, Window, W;
    BlkIsSchedule(block[..], m, t);
    WindowMoves(block[..], m, t);
    ghost var before := block[..];
    block[i] := Blk(block[..], i);
    assert block[..] == before[i := W(m, t)];
    ChooseIsCh(w, x, y);
    NextRound(h, m, t, v, w, x, y, z, Ch(w, x, y), block[i]);
    z' := Increase(z, Choose(w, x, y), block[i], 0x5a827999, Rotl(v, 5));
    w' := Rotl(w, 30);
  }

  method R2(block: array<Word>, v: Word, w: Word, x: Word, y: Word, z: Word, i: nat,
      ghost h: Regs, ghost m: seq<Word>, ghost t: nat)
      returns (w': Word, z': Word)
    requires 20 <= t < 40 && i == t % 16 && AtRound(block, h, m, t, Regs(v, w, x, y, z))
    modifies block
    ensures AtRound(block, h, m, t + 1, Regs(z', v, w', x, y))
  {
    hide Rotl, Ch, Maj, Parity, Choose, Majority, Rounds, Increase, Blk, Window, W;
    BlkIsSchedule(block[..], m, t);
    WindowMoves(block[..], m, t);
    ghost var before := block[..];
    block[i] := Blk(block[..], i);
    assert block[..] == before[i := W(m, t)];
    NextRound(h, m, t, v, w, x, y, z, Parity(w, x, y), block[i]);
    z' := Increase(z, Parity(w, x, y), block[i], 0x6ed9eba1, Rotl(v, 5));
    w' := Rotl(w, 30);
  }

  method R3(block: array<Word>, v: Word, w: Word, x: Word, y: Word, z: Word, i: nat,
      ghost h: Regs, ghost m: seq<Word>, ghost t: nat)
      returns (w': Word, z': Word)
    requires 40 <= t < 60 && i == t % 16 && AtRound(block, h, m, t, Regs(v, w, x, y, z))
    modifies block
    ensures AtRound(block, h, m, t + 1, Regs(z', v, w', x, y))
  {
    hide Rotl, Ch, Maj, Parity, Choose, Majority, Rounds, Increase, Blk, Window, W;
    BlkIsSchedule(block[..], m, t);
    WindowMoves(block[..], m, t);
    ghost var before := block[..];
    block[i] := Blk(block[..], i);
    assert block[..] == before[i := W(m, t)];
    MajorityIsMaj(w, x, y);
    NextRound(h, m, t, v, w, x, y, z, Maj(w, x, y), block[i]);
    z' := Increase(z, Majority(w, x, y), block[i], 0x8f1bbcdc, Rotl(v, 5));
    w' := Rotl(w, 30);
  }

  method R4(block: array<Word>, v: Word, w: Word, x: Word, y: Word, z: Word, i: nat,
      ghost h: Regs, ghost m: seq<Word>, ghost t: nat)
      returns (w': Word, z': Word)
    requires 60 <= t < 80 && i == t % 16 && AtRound(block, h, m, t, Regs(v, w, x, y, z))
    modifies block
    ensures AtRound(block, h, m, t + 1, Regs(z', v, w', x, y))
  {
    hide Rotl, Ch, Maj, Parity, Choose, Majority, Rounds, Increase, Blk, Window, W;
    BlkIsSchedule(block[..], m, t);
    WindowMoves(block[..], m, t);
    ghost var before := block[..];
    block[i] := Blk(block[..], i);
    assert block[..] == before[i := W(m, t)];
    NextRound(h, m, t, v, w, x, y, z, Parity(w, x, y), block[i]);
    z' := Increase(z, Parity(w, x, y), block[i], 0xca62c1d6, Rotl(v, 5));
    w' := Rotl(w, 30);
  }

  method Rounds0To19(block: array<Word>, a0: Word, b0: Word, c0: Word, d0: Word, e0: Word,
      ghost h: Regs, ghost m: seq<Word>)
      returns (a: Word, b: Word, c: Word, d: Word, e: Word)
    requires AtRound(block, h, m, 0, Regs(a0, b0, c0, d0, e0))
    modifies block
    ensures AtRound(block, h, m, 20, Regs(a, b, c, d, e))
  {
    hide *;
    a, b, c, d, e := a0, b0, c0, d0, e0;
    b, e := R0(block, a, b, c, d, e, 0, h, m, 0);
    a, d := R0(block, e, a, b, c, d, 1, h, m, 1);
    e, c := R0(block, d, e, a, b, c, 2, h, m, 2);
    d, b := R0(block, c, d, e, a, b, 3, h, m, 3);
    c, a := R0(block, b, c, d, e, a, 4, h, m, 4);
    b, e := R0(block, a, b, c, d, e, 5, h, m, 5);
    a, d := R0(block, e, a, b, c, d, 6, h, m, 6);
    e, c := R0(block, d, e, a, b, c, 7, h, m, 7);
    d, b := R0(block, c, d, e, a, b, 8, h, m, 8);
    c, a := R0(block, b, c, d, e, a, 9, h, m, 9);
    b, e := R0(block, a, b, c, d, e, 10, h, m, 10);
    a, d := R0(block, e, a, b, c, d, 11, h, m, 11);
    e, c := R0(block, d, e, a, b, c, 12, h, m, 12);
    d, b := R0(block, c, d, e, a, b, 13, h, m, 13);
    c, a := R0(block, b, c, d, e, a, 14, h, m, 14);
    b, e := R0(block, a, b, c, d, e, 15, h, m, 15);
    a, d := R1(block, e, a, b, c, d, 0, h, m, 16);
    e, c := R1(block, d, e, a, b, c, 1, h, m, 17);
    d, b := R1(block, c, d, e, a, b, 2, h, m, 18);
    c, a := R1(block, b, c, d, e, a, 3, h, m, 19);
  }

  method Rounds20To39(block: array<Word>, a0: Word, b0: Word, c0: Word, d0: Word, e0: Word,
      ghost h: Regs, ghost m: seq<Word>)
      returns (a: Word, b: Word, c: Word, d: Word, e: Word)
    requires AtRound(block, h, m, 20, Regs(a0, b0, c0, d0, e0))
    modifies block
    ensures AtRound(block, h, m, 40, Regs(a, b, c, d, e))
  {
    hide *;
    a, b, c, d, e := a0, b0, c0, d0, e0;
    b, e := R2(block, a, b, c, d, e, 4, h, m, 20);
    a, d := R2(block, e, a, b, c, d, 5, h, m, 21);
    e, c := R2(block, d, e, a, b, c, 6, h, m, 22);
    d, b := R2(block, c, d, e, a, b, 7, h, m, 23);
    c, a := R2(block, b, c, d, e, a, 8, h, m, 24);
    b, e := R2(block, a, b, c, d, e, 9, h, m, 25);
    a, d := R2(block, e, a, b, c, d, 10, h, m, 26);
    e, c := R2(block, d, e, a, b, c, 11, h, m, 27);
    d, b := R2(block, c, d, e, a, b, 12, h, m, 28);
    c, a := R2(block, b, c, d, e, a, 13, h, m, 29);
    b, e := R2(block, a, b, c, d, e, 14, h, m, 30);
    a, d := R2(block, e, a, b, c, d, 15, h, m, 31);
    e, c := R2(block, d, e, a, b, c, 0, h, m, 32);
    d, b := R2(block, c, d, e, a, b, 1, h, m, 33);
    c, a := R2(block, b, c, d, e, a, 2, h, m, 34);
    b, e := R2(block, a, b, c, d, e, 3, h, m, 35);
    a, d := R2(block, e, a, b, c, d, 4, h, m, 36);
    e, c := R2(block, d, e, a, b, c, 5, h, m, 37);
    d, b := R2(block, c, d, e, a, b, 6, h, m, 38);
    c, a := R2(block, b, c, d, e, a, 7, h, m, 39);
  }

  method Rounds40To59(block: array<Word>, a0: Word, b0: Word, c0: Word, d0: Word, e0: Word,
      ghost h: Regs, ghost m: seq<Word>)
      returns (a: Word, b: Word, c: Word, d: Word, e: Word)
    requires AtRound(block, h, m, 40, Regs(a0, b0, c0, d0, e0))
    modifies block
    ensures AtRound(block, h, m, 60, Regs(a, b, c, d, e))
  {
    hide *;
    a, b, c, d, e := a0, b0, c0, d0, e0;
    b, e := R3(block, a, b, c, d, e, 8, h, m, 40);
    a, d := R3(block, e, a, b, c, d, 9, h, m, 41);
    e, c := R3(block, d, e, a, b, c, 10, h, m, 42);
    d, b := R3(block, c, d, e, a, b, 11, h, m, 43);
    c, a := R3(block, b, c, d, e, a, 12, h, m, 44);
    b, e := R3(block, a, b, c, d, e, 13, h, m, 45);
    a, d := R3(block, e, a, b, c, d, 14, h, m, 46);
    e, c := R3(block, d, e, a, b, c, 15, h, m, 47);
    d, b := R3(block, c, d, e, a, b, 0, h, m, 48);
    c, a := R3(block, b, c, d, e, a, 1, h, m, 49);
    b, e := R3(block, a, b, c, d, e, 2, h, m, 50);
    a, d := R3(block, e, a, b, c, d, 3, h, m, 51);
    e, c := R3(block, d, e, a, b, c, 4, h, m, 52);
    d, b := R3(block, c, d, e, a, b, 5, h, m, 53);
    c, a := R3(block, b, c, d, e, a, 6, h, m, 54);
    b, e := R3(block, a, b, c, d, e, 7, h, m, 55);
    a, d := R3(block, e, a, b, c, d, 8, h, m, 56);
    e, c := R3(block, d, e, a, b, c, 9, h, m, 57);
    d, b := R3(block, c, d, e, a, b, 10, h, m, 58);
    c, a := R3(block, b, c, d, e, a, 11, h, m, 59);
  }

  method Rounds60To79(block: array<Word>, a0: Word, b0: Word, c0: Word, d0: Word, e0: Word,
      ghost h: Regs, ghost m: seq<Word>)
      returns (a: Word, b: Word, c: Word, d: Word, e: Word)
    requires AtRound(block, h, m, 60, Regs(a0, b0, c0, d0, e0))
    modifies block
    ensures AtRound(block, h, m, 80, Regs(a, b, c, d, e))
  {
    hide *;
    a, b, c, d, e := a0, b0, c0, d0, e0;
    b, e := R4(block, a, b, c, d, e, 12, h, m, 60);
    a, d := R4(block, e, a, b, c, d, 13, h, m, 61);
    e, c := R4(block, d, e, a, b, c, 14, h, m, 62);
    d, b := R4(block, c, d, e, a, b, 15, h, m, 63);
    c, a := R4(block, b, c, d, e, a, 0, h, m, 64);
    b, e := R4(block, a, b, c, d, e, 1, h, m, 65);
    a, d := R4(block, e, a, b, c, d, 2, h, m, 66);
    e, c := R4(block, d, e, a, b, c, 3, h, m, 67);
    d, b := R4(block, c, d, e, a, b, 4, h, m, 68);
    c, a := R4(block, b, c, d, e, a, 5, h, m, 69);
    b, e := R4(block, a, b, c, d, e, 6, h, m, 70);
    a, d := R4(block, e, a, b, c, d, 7, h, m, 71);
    e, c := R4(block, d, e, a, b, c, 8, h, m, 72);
    d, b := R4(block, c, d, e, a, b, 9, h, m, 73);
    c, a := R4(block, b, c, d, e, a, 10, h, m, 74);
    b, e := R4(block, a, b, c, d, e, 11, h, m, 75);
    a, d := R4(block, e, a, b, c, d, 12, h, m, 76);
    e, c := R4(block, d, e, a, b, c, 13, h, m, 77);
    d, b := R4(block, c, d, e, a, b, 14, h, m, 78);
    c, a := R4(block, b, c, d, e, a, 15, h, m, 79);
  }

  function DigestOf(digest: seq<Word>): Regs
    requires |digest| == 5
  {
    Regs(digest[0], digest[1], digest[2], digest[3], digest[4])
  }

  lemma StartOfRounds(digest: seq<Word>, block: array<Word>)
    requires block.Length == 16 && |digest| == 5
    ensures AtRound(block, DigestOf(digest), block[..], 0, Regs(digest[0], digest[1], digest[2], digest[3], digest[4]))
  {
  }

  lemma UnfoldDigest(digest: seq<Word>)
    requires |digest| == 5
    ensures DigestOf(digest) == Regs(digest[0], digest[1], digest[2], digest[3], digest[4])
  {
  }

  lemma EndOfRounds(block: array<Word>, h: Regs, m: seq<Word>, r: Regs)
    requires AtRound(block, h, m, 80, r) && |m| == 16
    ensures Compress(h, m) == Regs(Plus(h.a, r.a), Plus(h.b, r.b), Plus(h.c, r.c), Plus(h.d, r.d), Plus(h.e, r.e))
  {
    hide Rounds, Plus;
  }

  /** One block: the 80 unrolled rounds compute what section 6.1.2 of FIPS 180-4 says. */
  method Transform(digest: array<Word>, block: array<Word>)
    requires digest.Length == 5 && block.Length == 16 && digest != block
    modifies digest, block
    ensures DigestOf(digest[..]) == Compress(old(DigestOf(digest[..])), old(block[..]))
  {
    hide *;
    ghost var h, m := DigestOf(digest[..]), block[..];
    UnfoldDigest(digest[..]);
    StartOfRounds(digest[..], block);
    var a, b, c, d, e := digest[0], digest[1], digest[2], digest[3], digest[4];
    a, b, c, d, e := Rounds0To19(block, a, b, c, d, e, h, m);
    a, b, c, d, e := Rounds20To39(block, a, b, c, d, e, h, m);
    a, b, c, d, e := Rounds40To59(block, a, b, c, d, e, h, m);
    a, b, c, d, e := Rounds60To79(block, a, b, c, d, e, h, m);
    EndOfRounds(block, h, m, Regs(a, b, c, d, e));
    digest[0] := Plus(digest[0], a);
    digest[1] := Plus(digest[1], b);
    digest[2] := Plus(digest[2], c);
    digest[3] := Plus(digest[3], d);
    digest[4] := Plus(digest[4], e);
    UnfoldDigest(digest[..]);
  }

  /** The bytes of a full buffer as big-endian words. */
  method BufferToBlock(buffer: seq<byte>, block: array<Word>)
    requires |buffer| == 64 && block.Length == 16
    modifies block
    ensures block[..] == Words(buffer)
  {
    hide WordOf;
    for i := 0 to 16
      invariant forall j :: 0 <= j < i ==> block[j] == Words(buffer)[j]
    {
      block[i] := WordOf(buffer[4 * i], buffer[4 * i + 1], buffer[4 * i + 2], buffer[4 * i + 3]);
    }
  }

  ghost predicate HashedSoFar(message: seq<byte>, buffer: seq<byte>) {
    && |buffer| <= |message| && (|message| - |buffer|) % 64 == 0
    && buffer == message[|message| - |buffer|..]
  }

  lemma OneMoreBlock(hashed: seq<byte>, block: seq<byte>)
    requires |hashed| % 64 == 0 && |block| == 64
    ensures |hashed + block| % 64 == 0
    ensures HashBlocks(hashed + block) == Compress(HashBlocks(hashed), Words(block))
  {
    hide Compress, Words;
    var data := hashed + block;
    assert data[..|data| - 64] == hashed && data[|data| - 64..] == block;
  }

  lemma OneMoreCount(length: nat)
    requires length % 64 == 0
    ensures (length + 64) / 64 % TWO_TO_64 == (length / 64 % TWO_TO_64 + 1) % TWO_TO_64
  {
    AddThenWrap(length / 64, 1, TWO_TO_64);
    assert (length + 64) / 64 == length / 64 + 1;
  }

  /** A block with the two words of a bit count at its end. */
  function WithCount(m: seq<Word>, bits: nat): seq<Word>
    requires |m| == 16 && bits < TWO_TO_64
  {
    m[14 := ToWord(bits / 0x1_0000_0000)][15 := ToWord(bits % 0x1_0000_0000)]
  }

  lemma BitCount(blocks: nat, rest: nat)
    ensures (blocks % TWO_TO_64 * 64 + rest) * 8 % TWO_TO_64 == BitLength(64 * blocks + rest)
  {
    var q, r := blocks / TWO_TO_64, blocks % TWO_TO_64;
    assert (64 * blocks + rest) * 8 == (512 * q) * TWO_TO_64 + (r * 64 + rest) * 8;
  }

  lemma UnfoldWithCount(m: seq<Word>, bits: nat)
    requires |m| == 16 && bits < TWO_TO_64
    ensures WithCount(m, bits) == m[15 := ToWord(bits % 0x1_0000_0000)][14 := ToWord(bits / 0x1_0000_0000)]
  {
    hide ToWord;
  }

  lemma BytesOfStep(x: nat, count: nat)
    requires count > 0
    ensures BytesOf(x, count) == BytesOf(x / 256, count - 1) + [x % 256]
  {
  }

  lemma FourBytes(x: nat, x1: nat, x2: nat, x3: nat)
    requires x1 == x / 256 && x2 == x1 / 256 && x3 == x2 / 256
    ensures BytesOf(x, 4) == [x3 % 256, x2 % 256, x1 % 256, x % 256]
  {
    assert BytesOf(x3 / 256, 0) == [];
    hide BytesOf;
    BytesOfStep(x3, 1);
    BytesOfStep(x2, 2);
    BytesOfStep(x1, 3);
    BytesOfStep(x, 4);
  }

  lemma FourDigits(x: nat)
    requires x < 0x1_0000_0000
    ensures x / 256 / 256 / 256 % 256 * 0x100_0000 + x / 256 / 256 % 256 * 0x1_0000
          + x / 256 % 256 * 0x100 + x % 256 == x
  {
    var x1 := x / 256;
    var x2 := x1 / 256;
    var x3 := x2 / 256;
    assert x == 256 * x1 + x % 256 && x1 == 256 * x2 + x1 % 256 && x2 == 256 * x3 + x2 % 256;
    assert x3 < 256;
  }

  lemma ValueOfBytes(x: nat, b: seq<byte>)
    requires x < 0x1_0000_0000 && b == BytesOf(x, 4)
    ensures b[0] as int * 0x100_0000 + b[1] as int * 0x1_0000 + b[2] as int * 0x100 + b[3] as int == x
  {
    FourBytes(x, x / 256, x / 256 / 256, x / 256 / 256 / 256);
    hide *;
    FourDigits(x);
  }

  lemma BytesOfWord(x: nat)
    requires x < 0x1_0000_0000
    ensures WordOf(BytesOf(x, 4)[0], BytesOf(x, 4)[1], BytesOf(x, 4)[2], BytesOf(x, 4)[3]) == ToWord(x)
  {
    hide ToWord;
    ValueOfBytes(x, BytesOf(x, 4));
    hide BytesOf;
  }

  lemma {:induction false} BytesOfSplit(hi: nat, lo: nat, count: nat, power: nat)
    requires power == Power256(count) && lo < power && hi * power >= 0
    ensures BytesOf(hi * power + lo, 4 + count) == BytesOf(hi, 4) + BytesOf(lo, count)
    decreases count
  {
    if count > 0 {
      hide BytesOf;
      var smaller := Power256(count - 1);
      Associate(hi, 256, smaller);
      MulMonotone(0, hi, smaller);
      var x := hi * power + lo;
      RemainderUnique(x, 256, hi * smaller + lo / 256, lo % 256);
      BytesOfSplit(hi, lo / 256, count - 1, smaller);
      BytesOfStep(x, 4 + count);
      BytesOfStep(lo, count);
    }
  }

  lemma CountBytes(hi: nat, lo: nat)
    requires hi < 0x1_0000_0000 && lo < 0x1_0000_0000
    ensures BytesOf(hi * 0x1_0000_0000 + lo, 8) == BytesOf(hi, 4) + BytesOf(lo, 4)
  {
    assert Power256(2) == 256 * Power256(1) && Power256(3) == 256 * Power256(2);
    BytesOfSplit(hi, lo, 4, Power256(4));
  }

  lemma WordsOfParts(front: seq<byte>, a: seq<byte>, b: seq<byte>, m: seq<Word>)
    requires |front| == 56 && |a| == |b| == 4 && |m| == 16
    requires forall i :: 0 <= i < 14 ==>
      m[i] == WordOf(front[4 * i], front[4 * i + 1], front[4 * i + 2], front[4 * i + 3])
    ensures Words(front + a + b) == m[14 := WordOf(a[0], a[1], a[2], a[3])][15 := WordOf(b[0], b[1], b[2], b[3])]
  {
    hide WordOf;
    var block := front + a + b;
    assert block[56] == a[0] && block[57] == a[1] && block[58] == a[2] && block[59] == a[3];
    assert block[60] == b[0] && block[61] == b[1] && block[62] == b[2] && block[63] == b[3];
  }

  /** The length bytes at the end of a block are its last two words. */
  lemma CountWords(front: seq<byte>, bits: nat, m: seq<Word>)
    requires |front| == 56 && bits < TWO_TO_64 && |m| == 16
    requires forall i :: 0 <= i < 14 ==>
      m[i] == WordOf(front[4 * i], front[4 * i + 1], front[4 * i + 2], front[4 * i + 3])
    ensures Words(front + BytesOf(bits, 8)) == WithCount(m, bits)
  {
    var hi, lo := bits / 0x1_0000_0000, bits % 0x1_0000_0000;
    CountBytes(hi, lo);
    BytesOfWord(hi);
    BytesOfWord(lo);
    hide WordOf, BytesOf, Words, ToWord;
    WordsOfParts(front, BytesOf(hi, 4), BytesOf(lo, 4), m);
    Regroup(front, BytesOf(hi, 4), BytesOf(lo, 4));
  }

  lemma UnfoldPadded(message: seq<byte>, zeros: seq<byte>)
    requires zeros == seq(ZeroCount(|message|), _ => 0)
    ensures Padded(message) == message + [0x80] + zeros + BytesOf(BitLength(|message|), 8)
  {
    hide BytesOf, BitLength, ZeroCount;
  }

  lemma JoinEnding(a: seq<byte>, b: seq<byte>, c: seq<byte>, d: seq<byte>, e: seq<byte>)
    ensures (a + b) + c + d + e == a + ((b + c + d) + e)
  {
  }

  lemma PaddedInOneBlock(hashed: seq<byte>, rest: seq<byte>)
    requires |hashed| % 64 == 0 && |rest| <= 55
    ensures Padded(hashed + rest) == hashed + (Ending(rest)[..56] + BytesOf(BitLength(|hashed + rest|), 8))
  {
    hide BytesOf, BitLength;
    assert ZeroCount(|hashed + rest|) == 55 - |rest|;
    var zeros: seq<byte> := seq(55 - |rest|, _ => 0);
    assert Ending(rest)[..56] == rest + [0x80] + zeros;
    hide *;
    UnfoldPadded(hashed + rest, zeros);
    JoinEnding(hashed, rest, [0x80], zeros, BytesOf(BitLength(|hashed + rest|), 8));
  }

  /** A rest of at most 55 bytes ends in one block. */
  lemma OneBlockEnding(hashed: seq<byte>, rest: seq<byte>)
    requires |hashed| % 64 == 0 && |rest| <= 55
    ensures Hash(hashed + rest)
         == Compress(HashBlocks(hashed), WithCount(Words(Ending(rest)), BitLength(|hashed + rest|)))
  {
    hide Compress, BytesOf, WordOf, HashBlocks, Words, Padded, WithCount;
    var bits := BitLength(|hashed + rest|);
    var front := Ending(rest)[..56];
    EndingWords(rest);
    CountWords(front, bits, Words(Ending(rest)));
    PaddedInOneBlock(hashed, rest);
    OneMoreBlock(hashed, front + BytesOf(bits, 8));
  }

  lemma JoinEndings(a: seq<byte>, b: seq<byte>, c: seq<byte>, d: seq<byte>, e: seq<byte>, f: seq<byte>)
    ensures (a + b) + c + (d + e) + f == (a + (b + c + d)) + (e + f)
  {
  }

  lemma PaddedInTwoBlocks(hashed: seq<byte>, rest: seq<byte>)
    requires |hashed| % 64 == 0 && 56 <= |rest| < 64
    ensures Padded(hashed + rest)
         == (hashed + Ending(rest)) + (seq(56, _ => 0) + BytesOf(BitLength(|hashed + rest|), 8))
  {
    hide BytesOf, BitLength;
    assert ZeroCount(|hashed + rest|) == 119 - |rest|;
    var zeros: seq<byte>, first: seq<byte>, last: seq<byte> :=
      seq(119 - |rest|, _ => 0), seq(63 - |rest|, _ => 0), seq(56, _ => 0);
    assert zeros == first + last;
    assert Ending(rest) == rest + [0x80] + first;
    hide *;
    UnfoldPadded(hashed + rest, zeros);
    JoinEndings(hashed, rest, [0x80], first, last, BytesOf(BitLength(|hashed + rest|), 8));
  }

  /** A longer rest fills a block of its own, and the count goes in the next, after zeros. */
  lemma TwoBlockEnding(hashed: seq<byte>, rest: seq<byte>, m: seq<Word>)
    requires |hashed| % 64 == 0 && 56 <= |rest| < 64
    requires |m| == 16 && forall j :: 0 <= j < 14 ==> m[j] == 0
    ensures Hash(hashed + rest)
         == Compress(Compress(HashBlocks(hashed), Words(Ending(rest))), WithCount(m, BitLength(|hashed + rest|)))
  {
    hide Compress, BytesOf, HashBlocks, Words, Padded, WithCount, Ending;
    var bits := BitLength(|hashed + rest|);
    var front: seq<byte> := seq(56, _ => 0);
    CountWords(front, bits, m);
    PaddedInTwoBlocks(hashed, rest);
    OneMoreBlock(hashed, Ending(rest));
    OneMoreBlock(hashed + Ending(rest), front + BytesOf(bits, 8));
  }

  lemma UnfoldHexWord(w: Word)
    ensures HexWord(w) == Digits(w as int, 8)
  {
  }

  function BytesOfWords(words: seq<Word>): seq<byte> {
    if words == [] then [] else BytesOfWords(words[..|words| - 1]) + WordBytes(words[|words| - 1])
  }

  lemma DigestBytes(d: seq<Word>)
    requires |d| == 5
    ensures BytesOfWords(d[..5]) == HashBytes(DigestOf(d))
  {
    hide WordBytes;
    assert d[..5] == d;
    assert d[..4] == d[..5][..4] && d[..3] == d[..4][..3] && d[..2] == d[..3][..2] && d[..1] == d[..2][..1];
    assert BytesOfWords(d[..1]) == WordBytes(d[0]) by { assert d[..1][..0] == []; }
    assert BytesOfWords(d[..2]) == BytesOfWords(d[..1]) + WordBytes(d[1]);
    assert BytesOfWords(d[..3]) == BytesOfWords(d[..2]) + WordBytes(d[2]);
    assert BytesOfWords(d[..4]) == BytesOfWords(d[..3]) + WordBytes(d[3]);
    assert BytesOfWords(d) == BytesOfWords(d[..4]) + WordBytes(d[4]);
  }

  /** Eight hexadecimal digits for each word of the digest. */
  method HexDigest(digest: array<Word>) returns (result: string)
    requires digest.Length == 5
    ensures result == HexOf(HashBytes(DigestOf(digest[..])))
  {
    hide Digits, Digit, HexWord;
    result := [];
    ghost var d := digest[..];
    for i := 0 to 5
      invariant result == HexOf(BytesOfWords(d[..i]))
    {
      result := result + HexWord(digest[i]);
      DigitsAreBytes(digest[i] as int, 4);
      HexOfConcat(BytesOfWords(d[..i]), WordBytes(d[i]));
      assert d[..i + 1][..i] == d[..i];
      UnfoldHexWord(d[i]);
    }
    DigestBytes(d);
  }

  class SHA1 {
    const digest: array<Word>
    var buffer: seq<byte>
    // A 64-bit count of the blocks transformed.
    var transforms: nat
    // Everything passed to update since the last reset.
    ghost var message: seq<byte>

    ghost predicate Valid() reads this, digest {
      && digest.Length == 5 && |buffer| < 64
      && HashedSoFar(message, buffer) && DigestOf(digest[..]) == HashBlocks(message[..|message| - |buffer|])
      && transforms == (|message| - |buffer|) / 64 % TWO_TO_64
    }

    method Reset()
      requires digest.Length == 5
      modifies this, digest
      ensures Valid() && message == []
    {
      digest[0] := 0x67452301;
      digest[1] := 0xefcdab89;
      digest[2] := 0x98badcfe;
      digest[3] := 0x10325476;
      digest[4] := 0xc3d2e1f0;
      buffer := [];
      transforms := 0;
      message := [];
      UnfoldDigest(digest[..]);
    }

    constructor ()
      ensures Valid() && message == [] && fresh(digest)
    {
      digest := new Word[5];
      buffer, transforms, message := [], 0, [];
      new;
      Reset();
    }

    /** The state with a buffer that may be full. */
    ghost predicate Filling() reads this, digest {
      && digest.Length == 5 && |buffer| <= 64
      && HashedSoFar(message, buffer) && DigestOf(digest[..]) == HashBlocks(message[..|message| - |buffer|])
      && transforms == (|message| - |buffer|) / 64 % TWO_TO_64
    }

    method Absorb(part: seq<byte>)
      requires Valid() && |buffer| + |part| <= 64
      modifies this`buffer, this`message
      ensures Filling() && message == old(message) + part && buffer == old(buffer) + part
    {
      hide HashBlocks;
      assert (message + part)[..|message| - |buffer|] == message[..|message| - |buffer|];
      assert (message + part)[|message| - |buffer|..] == message[|message| - |buffer|..] + part;
      buffer := buffer + part;
      message := message + part;
    }

    lemma AfterBlock()
      requires digest.Length == 5 && buffer == [] && |message| % 64 == 0
      requires DigestOf(digest[..]) == HashBlocks(message) && transforms == |message| / 64 % TWO_TO_64
      ensures Valid()
    {
      assert message[..|message|] == message;
    }

    /** A full buffer is transformed and cleared. */
    method TransformBuffer()
      requires Filling() && |buffer| == 64
      modifies this, digest
      ensures Valid() && message == old(message) && buffer == []
    {
      hide HashBlocks, DigestOf, Words, Compress;
      ghost var hashed := message[..|message| - 64];
      assert message == hashed + buffer;
      var block := new Word[16];
      BufferToBlock(buffer, block);
      Transform(digest, block);
      OneMoreBlock(hashed, buffer);
      OneMoreCount(|hashed|);
      transforms := (transforms + 1) % TWO_TO_64;
      buffer := [];
      AfterBlock();
    }

    /** Any number of bytes in any number of calls: only their concatenation matters. */
    method Update(s: seq<byte>)
      requires Valid()
      modifies this, digest
      ensures Valid() && message == old(message) + s
    {
      var rest := s;
      while true
        invariant Valid() && message + rest == old(message) + s
        decreases |rest|
      {
        var count := if |rest| < 64 - |buffer| then |rest| else 64 - |buffer|;
        Absorb(rest[..count]);
        rest := rest[count..];
        if |buffer| != 64 {
          return;
        }
        TransformBuffer();
      }
    }

    /** The padding and the last one or two blocks. */
    method Finish(totalBits: nat, ghost hashed: seq<byte>, ghost rest: seq<byte>)
      requires digest.Length == 5 && |rest| < 64 && |hashed| % 64 == 0 && buffer == rest
      requires DigestOf(digest[..]) == HashBlocks(hashed)
      requires totalBits == BitLength(|hashed + rest|)
      modifies this`buffer, this`transforms, digest
      ensures DigestOf(digest[..]) == Hash(hashed + rest)
    {
      hide HashBlocks, DigestOf, Words, Compress, Hash, WithCount, ToWord;
      ghost var d := digest[..];
      buffer := buffer + [0x80];
      var origSize := |buffer|;
      while |buffer| < 64
        invariant origSize <= |buffer| <= 64
        invariant buffer == rest + [0x80] + seq(|buffer| - origSize, _ => 0)
        invariant digest[..] == d
      {
        buffer := buffer + [0];
      }
      assert buffer == Ending(rest);
      var block := new Word[16];
      BufferToBlock(buffer, block);
      assert digest[..] == d;
      if origSize > 64 - 8 {
        Transform(digest, block);
        transforms := (transforms + 1) % TWO_TO_64;
        d := digest[..];
        for i := 0 to 14
          invariant forall j :: 0 <= j < i ==> block[j] == 0
          invariant digest[..] == d
        {
          block[i] := 0;
        }
      }
      ghost var last := block[..];
      block[15] := ToWord(totalBits % 0x1_0000_0000);
      block[14] := ToWord(totalBits / 0x1_0000_0000);
      assert digest[..] == d;
      assert block[..] == WithCount(last, totalBits) by { UnfoldWithCount(last, totalBits); }
      Transform(digest, block);
      transforms := (transforms + 1) % TWO_TO_64;
      if origSize > 64 - 8 {
        TwoBlockEnding(hashed, rest, last);
      } else {
        OneBlockEnding(hashed, rest);
      }
    }

    /** The hash of everything since the last reset, in hexadecimal; the object is reset for reuse. */
    method Final() returns (result: string)
      requires Valid()
      modifies this, digest
      ensures result == HexOf(HashBytes(Hash(old(message))))
      ensures Valid() && message == []
    {
      ghost var rest, hashed := buffer, message[..|message| - |buffer|];
      assert message == hashed + rest;
      var totalBits := (transforms * 64 + |buffer|) * 8 % TWO_TO_64;
      BitCount(|hashed| / 64, |rest|);
      hide *;
      Finish(totalBits, hashed, rest);
      result := HexDigest(digest);
      Reset();
    }
  }
}
