/**
 The first example of FIPS 180-4: the hash of the message "abc", computed step by
 step from the definitions of the standard, and by the class.
 */
module Sha1Example {
  import opened Arithmetic
  import opened Bytes
  import opened Hex
  import opened Sha1
  import opened Sha1Standard

  /** "abc" in ASCII, and the words of its only block. */
  const MESSAGE: seq<byte> := [0x61, 0x62, 0x63]
  const BLOCK: seq<Word> := seq(16, i => if i == 0 then 0x61626380 else if i == 15 then 24 else 0)

  lemma FirstWords(m: seq<Word>)
    requires |m| == 16
    ensures forall t: nat :: t < 16 ==> W(m, t) == m[t]
  {
    hide Mix;
  }

  lemma Words0To15(m: seq<Word>)
    requires m == BLOCK
    ensures W(m, 0) == 0x61626380 && W(m, 1) == 0 && W(m, 2) == 0 && W(m, 3) == 0
    ensures W(m, 4) == 0 && W(m, 5) == 0 && W(m, 6) == 0 && W(m, 7) == 0
    ensures W(m, 8) == 0 && W(m, 9) == 0 && W(m, 10) == 0 && W(m, 11) == 0
    ensures W(m, 12) == 0 && W(m, 13) == 0 && W(m, 14) == 0 && W(m, 15) == 24
  {
    FirstWords(m);
    hide W;
  }

  function RotateBy5(x: Word): Word { (x << 5) | (x >> 27) }
  function RotateBy30(x: Word): Word { (x << 30) | (x >> 2) }

  /** One round with its rotations written out. */
  function PlainRound(t: nat, r: Regs, w: Word): Regs {
    Regs(RoundSum(RotateBy5(r.a), F(t, r.b, r.c, r.d), r.e, K(t), w), r.a, RotateBy30(r.b), r.c, r.d)
  }

  lemma Rotations(x: Word)
    ensures Rotl(x, 5) == RotateBy5(x) && Rotl(x, 30) == RotateBy30(x)
  {
    UnfoldRotl(x);
    hide Rotl;
  }

  lemma RoundIsPlain(t: nat, r: Regs, w: Word)
    ensures Round(t, r, w) == PlainRound(t, r, w)
  {
    hide Rotl, F, K, RoundSum, RotateBy5, RotateBy30;
    Rotations(r.a);
    Rotations(r.b);
  }

  lemma NextIs(m: seq<Word>, t: nat, w: Word, r: Regs, next: Regs)
    requires |m| == 16 && Rounds(INITIAL_HASH, m, t) == r && W(m, t) == w && PlainRound(t, r, w) == next
    ensures Rounds(INITIAL_HASH, m, t + 1) == next
  {
    hide PlainRound, W;
    RoundIsPlain(t, r, w);
  }

  lemma Rounds0To15(m: seq<Word>)
    requires |m| == 16
    requires Rounds(INITIAL_HASH, m, 0) == Regs(0x67452301, 0xefcdab89, 0x98badcfe, 0x10325476, 0xc3d2e1f0)
    requires W(m, 0) == 0x61626380 && W(m, 1) == 0x00000000 && W(m, 2) == 0x00000000 && W(m, 3) == 0x00000000
    requires W(m, 4) == 0x00000000 && W(m, 5) == 0x00000000 && W(m, 6) == 0x00000000 && W(m, 7) == 0x00000000
    requires W(m, 8) == 0x00000000 && W(m, 9) == 0x00000000 && W(m, 10) == 0x00000000 && W(m, 11) == 0x00000000
    requires W(m, 12) == 0x00000000 && W(m, 13) == 0x00000000 && W(m, 14) == 0x00000000 && W(m, 15) == 0x00000018
    ensures Rounds(INITIAL_HASH, m, 16) == Regs(0x20bdd62f, 0x196bee77, 0x644a3da5, 0x1181ed99, 0x18c623f9)
  {
    hide W, Rounds;
    NextIs(m, 0, 0x61626380, Regs(0x67452301, 0xefcdab89, 0x98badcfe, 0x10325476, 0xc3d2e1f0),
           Regs(0x0116fc33, 0x67452301, 0x7bf36ae2, 0x98badcfe, 0x10325476));
    NextIs(m, 1, 0x00000000, Regs(0x0116fc33, 0x67452301, 0x7bf36ae2, 0x98badcfe, 0x10325476),
           Regs(0x8990536d, 0x0116fc33, 0x59d148c0, 0x7bf36ae2, 0x98badcfe));
    NextIs(m, 2, 0x00000000, Regs(0x8990536d, 0x0116fc33, 0x59d148c0, 0x7bf36ae2, 0x98badcfe),
           Regs(0xa1390f08, 0x8990536d, 0xc045bf0c, 0x59d148c0, 0x7bf36ae2));
    NextIs(m, 3, 0x00000000, Regs(0xa1390f08, 0x8990536d, 0xc045bf0c, 0x59d148c0, 0x7bf36ae2),
           Regs(0xcdd8e11b, 0xa1390f08, 0x626414db, 0xc045bf0c, 0x59d148c0));
    NextIs(m, 4, 0x00000000, Regs(0xcdd8e11b, 0xa1390f08, 0x626414db, 0xc045bf0c, 0x59d148c0),
           Regs(0xcfd499de, 0xcdd8e11b, 0x284e43c2, 0x626414db, 0xc045bf0c));
    NextIs(m, 5, 0x00000000, Regs(0xcfd499de, 0xcdd8e11b, 0x284e43c2, 0x626414db, 0xc045bf0c),
           Regs(0x3fc7ca40, 0xcfd499de, 0xf3763846, 0x284e43c2, 0x626414db));
    NextIs(m, 6, 0x00000000, Regs(0x3fc7ca40, 0xcfd499de, 0xf3763846, 0x284e43c2, 0x626414db),
           Regs(0x993e30c1, 0x3fc7ca40, 0xb3f52677, 0xf3763846, 0x284e43c2));
    NextIs(m, 7, 0x00000000, Regs(0x993e30c1, 0x3fc7ca40, 0xb3f52677, 0xf3763846, 0x284e43c2),
           Regs(0x9e8c07d4, 0x993e30c1, 0x0ff1f290, 0xb3f52677, 0xf3763846));
    NextIs(m, 8, 0x00000000, Regs(0x9e8c07d4, 0x993e30c1, 0x0ff1f290, 0xb3f52677, 0xf3763846),
           Regs(0x4b6ae328, 0x9e8c07d4, 0x664f8c30, 0x0ff1f290, 0xb3f52677));
    NextIs(m, 9, 0x00000000, Regs(0x4b6ae328, 0x9e8c07d4, 0x664f8c30, 0x0ff1f290, 0xb3f52677),
           Regs(0x8351f929, 0x4b6ae328, 0x27a301f5, 0x664f8c30, 0x0ff1f290));
    NextIs(m, 10, 0x00000000, Regs(0x8351f929, 0x4b6ae328, 0x27a301f5, 0x664f8c30, 0x0ff1f290),
           Regs(0xfbda9e89, 0x8351f929, 0x12dab8ca, 0x27a301f5, 0x664f8c30));
    NextIs(m, 11, 0x00000000, Regs(0xfbda9e89, 0x8351f929, 0x12dab8ca, 0x27a301f5, 0x664f8c30),
           Regs(0x63188fe4, 0xfbda9e89, 0x60d47e4a, 0x12dab8ca, 0x27a301f5));
    NextIs(m, 12, 0x00000000, Regs(0x63188fe4, 0xfbda9e89, 0x60d47e4a, 0x12dab8ca, 0x27a301f5),
           Regs(0x4607b664, 0x63188fe4, 0x7ef6a7a2, 0x60d47e4a, 0x12dab8ca));
    NextIs(m, 13, 0x00000000, Regs(0x4607b664, 0x63188fe4, 0x7ef6a7a2, 0x60d47e4a, 0x12dab8ca),
           Regs(0x9128f695, 0x4607b664, 0x18c623f9, 0x7ef6a7a2, 0x60d47e4a));
    NextIs(m, 14, 0x00000000, Regs(0x9128f695, 0x4607b664, 0x18c623f9, 0x7ef6a7a2, 0x60d47e4a),
           Regs(0x196bee77, 0x9128f695, 0x1181ed99, 0x18c623f9, 0x7ef6a7a2));
    NextIs(m, 15, 0x00000018, Regs(0x196bee77, 0x9128f695, 0x1181ed99, 0x18c623f9, 0x7ef6a7a2),
           Regs(0x20bdd62f, 0x196bee77, 0x644a3da5, 0x1181ed99, 0x18c623f9));
  }

  lemma Words16To31(m: seq<Word>)
    requires |m| == 16
    requires W(m, 0) == 0x61626380 && W(m, 1) == 0x00000000 && W(m, 2) == 0x00000000 && W(m, 3) == 0x00000000
    requires W(m, 4) == 0x00000000 && W(m, 5) == 0x00000000 && W(m, 6) == 0x00000000 && W(m, 7) == 0x00000000
    requires W(m, 8) == 0x00000000 && W(m, 9) == 0x00000000 && W(m, 10) == 0x00000000 && W(m, 11) == 0x00000000
    requires W(m, 12) == 0x00000000 && W(m, 13) == 0x00000000 && W(m, 14) == 0x00000000 && W(m, 15) == 0x00000018
    ensures W(m, 16) == 0xc2c4c700 && W(m, 17) == 0x00000000 && W(m, 18) == 0x00000030 && W(m, 19) == 0x85898e01
    ensures W(m, 20) == 0x00000000 && W(m, 21) == 0x00000060 && W(m, 22) == 0x0b131c03 && W(m, 23) == 0x00000030
    ensures W(m, 24) == 0x85898ec1 && W(m, 25) == 0x16263806 && W(m, 26) == 0x00000000 && W(m, 27) == 0x00000180
    ensures W(m, 28) == 0x2c4c700c && W(m, 29) == 0x000000f0 && W(m, 30) == 0x93afb507 && W(m, 31) == 0x5898e048
  {
  }

  lemma Rounds16To31(m: seq<Word>)
    requires |m| == 16
    requires Rounds(INITIAL_HASH, m, 16) == Regs(0x20bdd62f, 0x196bee77, 0x644a3da5, 0x1181ed99, 0x18c623f9)
    requires W(m, 16) == 0xc2c4c700 && W(m, 17) == 0x00000000 && W(m, 18) == 0x00000030 && W(m, 19) == 0x85898e01
    requires W(m, 20) == 0x00000000 && W(m, 21) == 0x00000060 && W(m, 22) == 0x0b131c03 && W(m, 23) == 0x00000030
    requires W(m, 24) == 0x85898ec1 && W(m, 25) == 0x16263806 && W(m, 26) == 0x00000000 && W(m, 27) == 0x00000180
    requires W(m, 28) == 0x2c4c700c && W(m, 29) == 0x000000f0 && W(m, 30) == 0x93afb507 && W(m, 31) == 0x5898e048
    ensures Rounds(INITIAL_HASH, m, 32) == Regs(0x3b845d33, 0x1267b407, 0x717eebd7, 0xa0dc2d4b, 0xd2aa1365)
  {
    hide W, Rounds;
    NextIs(m, 16, 0xc2c4c700, Regs(0x20bdd62f, 0x196bee77, 0x644a3da5, 0x1181ed99, 0x18c623f9),
           Regs(0x4e925823, 0x20bdd62f, 0xc65afb9d, 0x644a3da5, 0x1181ed99));
    NextIs(m, 17, 0x00000000, Regs(0x4e925823, 0x20bdd62f, 0xc65afb9d, 0x644a3da5, 0x1181ed99),
           Regs(0x82aa6728, 0x4e925823, 0xc82f758b, 0xc65afb9d, 0x644a3da5));
    NextIs(m, 18, 0x00000030, Regs(0x82aa6728, 0x4e925823, 0xc82f758b, 0xc65afb9d, 0x644a3da5),
           Regs(0xdc64901d, 0x82aa6728, 0xd3a49608, 0xc82f758b, 0xc65afb9d));
    NextIs(m, 19, 0x85898e01, Regs(0xdc64901d, 0x82aa6728, 0xd3a49608, 0xc82f758b, 0xc65afb9d),
           Regs(0xfd9e1d7d, 0xdc64901d, 0x20aa99ca, 0xd3a49608, 0xc82f758b));
    NextIs(m, 20, 0x00000000, Regs(0xfd9e1d7d, 0xdc64901d, 0x20aa99ca, 0xd3a49608, 0xc82f758b),
           Regs(0x1a37b0ca, 0xfd9e1d7d, 0x77192407, 0x20aa99ca, 0xd3a49608));
    NextIs(m, 21, 0x00000060, Regs(0x1a37b0ca, 0xfd9e1d7d, 0x77192407, 0x20aa99ca, 0xd3a49608),
           Regs(0x33a23bfc, 0x1a37b0ca, 0x7f67875f, 0x77192407, 0x20aa99ca));
    NextIs(m, 22, 0x0b131c03, Regs(0x33a23bfc, 0x1a37b0ca, 0x7f67875f, 0x77192407, 0x20aa99ca),
           Regs(0x21283486, 0x33a23bfc, 0x868dec32, 0x7f67875f, 0x77192407));
    NextIs(m, 23, 0x00000030, Regs(0x21283486, 0x33a23bfc, 0x868dec32, 0x7f67875f, 0x77192407),
           Regs(0xd541f12d, 0x21283486, 0x0ce88eff, 0x868dec32, 0x7f67875f));
    NextIs(m, 24, 0x85898ec1, Regs(0xd541f12d, 0x21283486, 0x0ce88eff, 0x868dec32, 0x7f67875f),
           Regs(0xc7567dc6, 0xd541f12d, 0x884a0d21, 0x0ce88eff, 0x868dec32));
    NextIs(m, 25, 0x16263806, Regs(0xc7567dc6, 0xd541f12d, 0x884a0d21, 0x0ce88eff, 0x868dec32),
           Regs(0x48413ba4, 0xc7567dc6, 0x75507c4b, 0x884a0d21, 0x0ce88eff));
    NextIs(m, 26, 0x00000000, Regs(0x48413ba4, 0xc7567dc6, 0x75507c4b, 0x884a0d21, 0x0ce88eff),
           Regs(0xbe35fbd5, 0x48413ba4, 0xb1d59f71, 0x75507c4b, 0x884a0d21));
    NextIs(m, 27, 0x00000180, Regs(0xbe35fbd5, 0x48413ba4, 0xb1d59f71, 0x75507c4b, 0x884a0d21),
           Regs(0x4aa84d97, 0xbe35fbd5, 0x12104ee9, 0xb1d59f71, 0x75507c4b));
    NextIs(m, 28, 0x2c4c700c, Regs(0x4aa84d97, 0xbe35fbd5, 0x12104ee9, 0xb1d59f71, 0x75507c4b),
           Regs(0x8370b52e, 0x4aa84d97, 0x6f8d7ef5, 0x12104ee9, 0xb1d59f71));
    NextIs(m, 29, 0x000000f0, Regs(0x8370b52e, 0x4aa84d97, 0x6f8d7ef5, 0x12104ee9, 0xb1d59f71),
           Regs(0xc5fbaf5d, 0x8370b52e, 0xd2aa1365, 0x6f8d7ef5, 0x12104ee9));
    NextIs(m, 30, 0x93afb507, Regs(0xc5fbaf5d, 0x8370b52e, 0xd2aa1365, 0x6f8d7ef5, 0x12104ee9),
           Regs(0x1267b407, 0xc5fbaf5d, 0xa0dc2d4b, 0xd2aa1365, 0x6f8d7ef5));
    NextIs(m, 31, 0x5898e048, Regs(0x1267b407, 0xc5fbaf5d, 0xa0dc2d4b, 0xd2aa1365, 0x6f8d7ef5),
           Regs(0x3b845d33, 0x1267b407, 0x717eebd7, 0xa0dc2d4b, 0xd2aa1365));
  }

  lemma Words32To47(m: seq<Word>)
    requires |m| == 16
    requires W(m, 16) == 0xc2c4c700 && W(m, 17) == 0x00000000 && W(m, 18) == 0x00000030 && W(m, 19) == 0x85898e01
    requires W(m, 20) == 0x00000000 && W(m, 21) == 0x00000060 && W(m, 22) == 0x0b131c03 && W(m, 23) == 0x00000030
    requires W(m, 24) == 0x85898ec1 && W(m, 25) == 0x16263806 && W(m, 26) == 0x00000000 && W(m, 27) == 0x00000180
    requires W(m, 28) == 0x2c4c700c && W(m, 29) == 0x000000f0 && W(m, 30) == 0x93afb507 && W(m, 31) == 0x5898e048
    ensures W(m, 32) == 0x8e9a9202 && W(m, 33) == 0x00000600 && W(m, 34) == 0xb131c0f0 && W(m, 35) == 0x16263bc6
    ensures W(m, 36) == 0x4ebed41e && W(m, 37) == 0x626380a1 && W(m, 38) == 0x16263806 && W(m, 39) == 0x000018c0
    ensures W(m, 40) == 0xd2e138c4 && W(m, 41) == 0x00000f00 && W(m, 42) == 0x3afb5079 && W(m, 43) == 0x898e04e5
    ensures W(m, 44) == 0xe2ba3c2b && W(m, 45) == 0x000060c0 && W(m, 46) == 0x053a37cd && W(m, 47) == 0x74458547
  {
  }

  lemma Rounds32To47(m: seq<Word>)
    requires |m| == 16
    requires Rounds(INITIAL_HASH, m, 32) == Regs(0x3b845d33, 0x1267b407, 0x717eebd7, 0xa0dc2d4b, 0xd2aa1365)
    requires W(m, 32) == 0x8e9a9202 && W(m, 33) == 0x00000600 && W(m, 34) == 0xb131c0f0 && W(m, 35) == 0x16263bc6
    requires W(m, 36) == 0x4ebed41e && W(m, 37) == 0x626380a1 && W(m, 38) == 0x16263806 && W(m, 39) == 0x000018c0
    requires W(m, 40) == 0xd2e138c4 && W(m, 41) == 0x00000f00 && W(m, 42) == 0x3afb5079 && W(m, 43) == 0x898e04e5
    requires W(m, 44) == 0xe2ba3c2b && W(m, 45) == 0x000060c0 && W(m, 46) == 0x053a37cd && W(m, 47) == 0x74458547
    ensures Rounds(INITIAL_HASH, m, 48) == Regs(0xbead02ca, 0xa01b846c, 0x8714787c, 0x503ca382, 0xfb86c6ab)
  {
    hide W, Rounds;
    NextIs(m, 32, 0x8e9a9202, Regs(0x3b845d33, 0x1267b407, 0x717eebd7, 0xa0dc2d4b, 0xd2aa1365),
           Regs(0x046faa0a, 0x3b845d33, 0xc499ed01, 0x717eebd7, 0xa0dc2d4b));
    NextIs(m, 33, 0x00000600, Regs(0x046faa0a, 0x3b845d33, 0xc499ed01, 0x717eebd7, 0xa0dc2d4b),
           Regs(0x2c0ebc11, 0x046faa0a, 0xcee1174c, 0xc499ed01, 0x717eebd7));
    NextIs(m, 34, 0xb131c0f0, Regs(0x2c0ebc11, 0x046faa0a, 0xcee1174c, 0xc499ed01, 0x717eebd7),
           Regs(0x21796ad4, 0x2c0ebc11, 0x811bea82, 0xcee1174c, 0xc499ed01));
    NextIs(m, 35, 0x16263bc6, Regs(0x21796ad4, 0x2c0ebc11, 0x811bea82, 0xcee1174c, 0xc499ed01),
           Regs(0xdcbbb0cb, 0x21796ad4, 0x4b03af04, 0x811bea82, 0xcee1174c));
    NextIs(m, 36, 0x4ebed41e, Regs(0xdcbbb0cb, 0x21796ad4, 0x4b03af04, 0x811bea82, 0xcee1174c),
           Regs(0x0f511fd8, 0xdcbbb0cb, 0x085e5ab5, 0x4b03af04, 0x811bea82));
    NextIs(m, 37, 0x626380a1, Regs(0x0f511fd8, 0xdcbbb0cb, 0x085e5ab5, 0x4b03af04, 0x811bea82),
           Regs(0xdc63973f, 0x0f511fd8, 0xf72eec32, 0x085e5ab5, 0x4b03af04));
    NextIs(m, 38, 0x16263806, Regs(0xdc63973f, 0x0f511fd8, 0xf72eec32, 0x085e5ab5, 0x4b03af04),
           Regs(0x4c986405, 0xdc63973f, 0x03d447f6, 0xf72eec32, 0x085e5ab5));
    NextIs(m, 39, 0x000018c0, Regs(0x4c986405, 0xdc63973f, 0x03d447f6, 0xf72eec32, 0x085e5ab5),
           Regs(0x32de1cba, 0x4c986405, 0xf718e5cf, 0x03d447f6, 0xf72eec32));
    NextIs(m, 40, 0xd2e138c4, Regs(0x32de1cba, 0x4c986405, 0xf718e5cf, 0x03d447f6, 0xf72eec32),
           Regs(0xfc87dedf, 0x32de1cba, 0x53261901, 0xf718e5cf, 0x03d447f6));
    NextIs(m, 41, 0x00000f00, Regs(0xfc87dedf, 0x32de1cba, 0x53261901, 0xf718e5cf, 0x03d447f6),
           Regs(0x970a0d5c, 0xfc87dedf, 0x8cb7872e, 0x53261901, 0xf718e5cf));
    NextIs(m, 42, 0x3afb5079, Regs(0x970a0d5c, 0xfc87dedf, 0x8cb7872e, 0x53261901, 0xf718e5cf),
           Regs(0x7f193dc5, 0x970a0d5c, 0xff21f7b7, 0x8cb7872e, 0x53261901));
    NextIs(m, 43, 0x898e04e5, Regs(0x7f193dc5, 0x970a0d5c, 0xff21f7b7, 0x8cb7872e, 0x53261901),
           Regs(0xee1b1aaf, 0x7f193dc5, 0x25c28357, 0xff21f7b7, 0x8cb7872e));
    NextIs(m, 44, 0xe2ba3c2b, Regs(0xee1b1aaf, 0x7f193dc5, 0x25c28357, 0xff21f7b7, 0x8cb7872e),
           Regs(0x40f28e09, 0xee1b1aaf, 0x5fc64f71, 0x25c28357, 0xff21f7b7));
    NextIs(m, 45, 0x000060c0, Regs(0x40f28e09, 0xee1b1aaf, 0x5fc64f71, 0x25c28357, 0xff21f7b7),
           Regs(0x1c51e1f2, 0x40f28e09, 0xfb86c6ab, 0x5fc64f71, 0x25c28357));
    NextIs(m, 46, 0x053a37cd, Regs(0x1c51e1f2, 0x40f28e09, 0xfb86c6ab, 0x5fc64f71, 0x25c28357),
           Regs(0xa01b846c, 0x1c51e1f2, 0x503ca382, 0xfb86c6ab, 0x5fc64f71));
    NextIs(m, 47, 0x74458547, Regs(0xa01b846c, 0x1c51e1f2, 0x503ca382, 0xfb86c6ab, 0x5fc64f71),
           Regs(0xbead02ca, 0xa01b846c, 0x8714787c, 0x503ca382, 0xfb86c6ab));
  }

  lemma Words48To63(m: seq<Word>)
    requires |m| == 16
    requires W(m, 32) == 0x8e9a9202 && W(m, 33) == 0x00000600 && W(m, 34) == 0xb131c0f0 && W(m, 35) == 0x16263bc6
    requires W(m, 36) == 0x4ebed41e && W(m, 37) == 0x626380a1 && W(m, 38) == 0x16263806 && W(m, 39) == 0x000018c0
    requires W(m, 40) == 0xd2e138c4 && W(m, 41) == 0x00000f00 && W(m, 42) == 0x3afb5079 && W(m, 43) == 0x898e04e5
    requires W(m, 44) == 0xe2ba3c2b && W(m, 45) == 0x000060c0 && W(m, 46) == 0x053a37cd && W(m, 47) == 0x74458547
    ensures W(m, 48) == 0xda9415ed && W(m, 49) == 0x26380a16 && W(m, 50) == 0x626383a1 && W(m, 51) == 0x4ebf54de
    ensures W(m, 52) == 0x3835b44b && W(m, 53) == 0x0000f600 && W(m, 54) == 0x1e84c7a3 && W(m, 55) == 0x98e04d98
    ensures W(m, 56) == 0x651d16a0 && W(m, 57) == 0x62658ca1 && W(m, 58) == 0x458544d6 && W(m, 59) == 0x44584cb7
    ensures W(m, 60) == 0x7ba06619 && W(m, 61) == 0x6380aea2 && W(m, 62) == 0x0ae55269 && W(m, 63) == 0x627b49a1
  {
  }

  lemma Rounds48To63(m: seq<Word>)
    requires |m| == 16
    requires Rounds(INITIAL_HASH, m, 48) == Regs(0xbead02ca, 0xa01b846c, 0x8714787c, 0x503ca382, 0xfb86c6ab)
    requires W(m, 48) == 0xda9415ed && W(m, 49) == 0x26380a16 && W(m, 50) == 0x626383a1 && W(m, 51) == 0x4ebf54de
    requires W(m, 52) == 0x3835b44b && W(m, 53) == 0x0000f600 && W(m, 54) == 0x1e84c7a3 && W(m, 55) == 0x98e04d98
    requires W(m, 56) == 0x651d16a0 && W(m, 57) == 0x62658ca1 && W(m, 58) == 0x458544d6 && W(m, 59) == 0x44584cb7
    requires W(m, 60) == 0x7ba06619 && W(m, 61) == 0x6380aea2 && W(m, 62) == 0x0ae55269 && W(m, 63) == 0x627b49a1
    ensures Rounds(INITIAL_HASH, m, 64) == Regs(0x6b61c9e1, 0xb66c020b, 0x9523272c, 0xf5d5b051, 0x8fd4b796)
  {
    hide W, Rounds;
    NextIs(m, 48, 0xda9415ed, Regs(0xbead02ca, 0xa01b846c, 0x8714787c, 0x503ca382, 0xfb86c6ab),
           Regs(0xbaf39337, 0xbead02ca, 0x2806e11b, 0x8714787c, 0x503ca382));
    NextIs(m, 49, 0x26380a16, Regs(0xbaf39337, 0xbead02ca, 0x2806e11b, 0x8714787c, 0x503ca382),
           Regs(0x120731c5, 0xbaf39337, 0xafab40b2, 0x2806e11b, 0x8714787c));
    NextIs(m, 50, 0x626383a1, Regs(0x120731c5, 0xbaf39337, 0xafab40b2, 0x2806e11b, 0x8714787c),
           Regs(0x641db2ce, 0x120731c5, 0xeebce4cd, 0xafab40b2, 0x2806e11b));
    NextIs(m, 51, 0x4ebf54de, Regs(0x641db2ce, 0x120731c5, 0xeebce4cd, 0xafab40b2, 0x2806e11b),
           Regs(0x3847ad66, 0x641db2ce, 0x4481cc71, 0xeebce4cd, 0xafab40b2));
    NextIs(m, 52, 0x3835b44b, Regs(0x3847ad66, 0x641db2ce, 0x4481cc71, 0xeebce4cd, 0xafab40b2),
           Regs(0xe490436d, 0x3847ad66, 0x99076cb3, 0x4481cc71, 0xeebce4cd));
    NextIs(m, 53, 0x0000f600, Regs(0xe490436d, 0x3847ad66, 0x99076cb3, 0x4481cc71, 0xeebce4cd),
           Regs(0x27e9f1d8, 0xe490436d, 0x8e11eb59, 0x99076cb3, 0x4481cc71));
    NextIs(m, 54, 0x1e84c7a3, Regs(0x27e9f1d8, 0xe490436d, 0x8e11eb59, 0x99076cb3, 0x4481cc71),
           Regs(0x7b71f76d, 0x27e9f1d8, 0x792410db, 0x8e11eb59, 0x99076cb3));
    NextIs(m, 55, 0x98e04d98, Regs(0x7b71f76d, 0x27e9f1d8, 0x792410db, 0x8e11eb59, 0x99076cb3),
           Regs(0x5e6456af, 0x7b71f76d, 0x09fa7c76, 0x792410db, 0x8e11eb59));
    NextIs(m, 56, 0x651d16a0, Regs(0x5e6456af, 0x7b71f76d, 0x09fa7c76, 0x792410db, 0x8e11eb59),
           Regs(0xc846093f, 0x5e6456af, 0x5edc7ddb, 0x09fa7c76, 0x792410db));
    NextIs(m, 57, 0x62658ca1, Regs(0xc846093f, 0x5e6456af, 0x5edc7ddb, 0x09fa7c76, 0x792410db),
           Regs(0xd262ff50, 0xc846093f, 0xd79915ab, 0x5edc7ddb, 0x09fa7c76));
    NextIs(m, 58, 0x458544d6, Regs(0xd262ff50, 0xc846093f, 0xd79915ab, 0x5edc7ddb, 0x09fa7c76),
           Regs(0x09d785fd, 0xd262ff50, 0xf211824f, 0xd79915ab, 0x5edc7ddb));
    NextIs(m, 59, 0x44584cb7, Regs(0x09d785fd, 0xd262ff50, 0xf211824f, 0xd79915ab, 0x5edc7ddb),
           Regs(0x3f52de5a, 0x09d785fd, 0x3498bfd4, 0xf211824f, 0xd79915ab));
    NextIs(m, 60, 0x7ba06619, Regs(0x3f52de5a, 0x09d785fd, 0x3498bfd4, 0xf211824f, 0xd79915ab),
           Regs(0xd756c147, 0x3f52de5a, 0x4275e17f, 0x3498bfd4, 0xf211824f));
    NextIs(m, 61, 0x6380aea2, Regs(0xd756c147, 0x3f52de5a, 0x4275e17f, 0x3498bfd4, 0xf211824f),
           Regs(0x548c9cb2, 0xd756c147, 0x8fd4b796, 0x4275e17f, 0x3498bfd4));
    NextIs(m, 62, 0x0ae55269, Regs(0x548c9cb2, 0xd756c147, 0x8fd4b796, 0x4275e17f, 0x3498bfd4),
           Regs(0xb66c020b, 0x548c9cb2, 0xf5d5b051, 0x8fd4b796, 0x4275e17f));
    NextIs(m, 63, 0x627b49a1, Regs(0xb66c020b, 0x548c9cb2, 0xf5d5b051, 0x8fd4b796, 0x4275e17f),
           Regs(0x6b61c9e1, 0xb66c020b, 0x9523272c, 0xf5d5b051, 0x8fd4b796));
  }

  lemma Words64To79(m: seq<Word>)
    requires |m| == 16
    requires W(m, 48) == 0xda9415ed && W(m, 49) == 0x26380a16 && W(m, 50) == 0x626383a1 && W(m, 51) == 0x4ebf54de
    requires W(m, 52) == 0x3835b44b && W(m, 53) == 0x0000f600 && W(m, 54) == 0x1e84c7a3 && W(m, 55) == 0x98e04d98
    requires W(m, 56) == 0x651d16a0 && W(m, 57) == 0x62658ca1 && W(m, 58) == 0x458544d6 && W(m, 59) == 0x44584cb7
    requires W(m, 60) == 0x7ba06619 && W(m, 61) == 0x6380aea2 && W(m, 62) == 0x0ae55269 && W(m, 63) == 0x627b49a1
    ensures W(m, 64) == 0x7cd45c9d && W(m, 65) == 0x000f0000 && W(m, 66) == 0xfb50753a && W(m, 67) == 0xec6765e8
    ensures W(m, 68) == 0xba3c2be2 && W(m, 69) == 0x0060c000 && W(m, 70) == 0x3a37cd05 && W(m, 71) == 0x458546f4
    ensures W(m, 72) == 0xb8599dd6 && W(m, 73) == 0x380a1a26 && W(m, 74) == 0x01e02203 && W(m, 75) == 0xe7cc3456
    ensures W(m, 76) == 0xe6e60b69 && W(m, 77) == 0x00f60a00 && W(m, 78) == 0x5795ef4f && W(m, 79) == 0x822e0879
  {
  }

  lemma Rounds64To79(m: seq<Word>)
    requires |m| == 16
    requires Rounds(INITIAL_HASH, m, 64) == Regs(0x6b61c9e1, 0xb66c020b, 0x9523272c, 0xf5d5b051, 0x8fd4b796)
    requires W(m, 64) == 0x7cd45c9d && W(m, 65) == 0x000f0000 && W(m, 66) == 0xfb50753a && W(m, 67) == 0xec6765e8
    requires W(m, 68) == 0xba3c2be2 && W(m, 69) == 0x0060c000 && W(m, 70) == 0x3a37cd05 && W(m, 71) == 0x458546f4
    requires W(m, 72) == 0xb8599dd6 && W(m, 73) == 0x380a1a26 && W(m, 74) == 0x01e02203 && W(m, 75) == 0xe7cc3456
    requires W(m, 76) == 0xe6e60b69 && W(m, 77) == 0x00f60a00 && W(m, 78) == 0x5795ef4f && W(m, 79) == 0x822e0879
    ensures Rounds(INITIAL_HASH, m, 80) == Regs(0x42541b35, 0x5738d5e1, 0x21834873, 0x681e6df6, 0xd8fdf6ad)
  {
    hide W, Rounds;
    NextIs(m, 64, 0x7cd45c9d, Regs(0x6b61c9e1, 0xb66c020b, 0x9523272c, 0xf5d5b051, 0x8fd4b796),
           Regs(0x19dfa7ac, 0x6b61c9e1, 0xed9b0082, 0x9523272c, 0xf5d5b051));
    NextIs(m, 65, 0x000f0000, Regs(0x19dfa7ac, 0x6b61c9e1, 0xed9b0082, 0x9523272c, 0xf5d5b051),
           Regs(0x101655f9, 0x19dfa7ac, 0x5ad87278, 0xed9b0082, 0x9523272c));
    NextIs(m, 66, 0xfb50753a, Regs(0x101655f9, 0x19dfa7ac, 0x5ad87278, 0xed9b0082, 0x9523272c),
           Regs(0x0c3df2b4, 0x101655f9, 0x0677e9eb, 0x5ad87278, 0xed9b0082));
    NextIs(m, 67, 0xec6765e8, Regs(0x0c3df2b4, 0x101655f9, 0x0677e9eb, 0x5ad87278, 0xed9b0082),
           Regs(0x78dd4d2b, 0x0c3df2b4, 0x4405957e, 0x0677e9eb, 0x5ad87278));
    NextIs(m, 68, 0xba3c2be2, Regs(0x78dd4d2b, 0x0c3df2b4, 0x4405957e, 0x0677e9eb, 0x5ad87278),
           Regs(0x497093c0, 0x78dd4d2b, 0x030f7cad, 0x4405957e, 0x0677e9eb));
    NextIs(m, 69, 0x0060c000, Regs(0x497093c0, 0x78dd4d2b, 0x030f7cad, 0x4405957e, 0x0677e9eb),
           Regs(0x3f2588c2, 0x497093c0, 0xde37534a, 0x030f7cad, 0x4405957e));
    NextIs(m, 70, 0x3a37cd05, Regs(0x3f2588c2, 0x497093c0, 0xde37534a, 0x030f7cad, 0x4405957e),
           Regs(0xc199f8c7, 0x3f2588c2, 0x125c24f0, 0xde37534a, 0x030f7cad));
    NextIs(m, 71, 0x458546f4, Regs(0xc199f8c7, 0x3f2588c2, 0x125c24f0, 0xde37534a, 0x030f7cad),
           Regs(0x39859de7, 0xc199f8c7, 0x8fc96230, 0x125c24f0, 0xde37534a));
    NextIs(m, 72, 0xb8599dd6, Regs(0x39859de7, 0xc199f8c7, 0x8fc96230, 0x125c24f0, 0xde37534a),
           Regs(0xedb42de4, 0x39859de7, 0xf0667e31, 0x8fc96230, 0x125c24f0));
    NextIs(m, 73, 0x380a1a26, Regs(0xedb42de4, 0x39859de7, 0xf0667e31, 0x8fc96230, 0x125c24f0),
           Regs(0x11793f6f, 0xedb42de4, 0xce616779, 0xf0667e31, 0x8fc96230));
    NextIs(m, 74, 0x01e02203, Regs(0x11793f6f, 0xedb42de4, 0xce616779, 0xf0667e31, 0x8fc96230),
           Regs(0x5ee76897, 0x11793f6f, 0x3b6d0b79, 0xce616779, 0xf0667e31));
    NextIs(m, 75, 0xe7cc3456, Regs(0x5ee76897, 0x11793f6f, 0x3b6d0b79, 0xce616779, 0xf0667e31),
           Regs(0x63f7dab7, 0x5ee76897, 0xc45e4fdb, 0x3b6d0b79, 0xce616779));
    NextIs(m, 76, 0xe6e60b69, Regs(0x63f7dab7, 0x5ee76897, 0xc45e4fdb, 0x3b6d0b79, 0xce616779),
           Regs(0xa079b7d9, 0x63f7dab7, 0xd7b9da25, 0xc45e4fdb, 0x3b6d0b79));
    NextIs(m, 77, 0x00f60a00, Regs(0xa079b7d9, 0x63f7dab7, 0xd7b9da25, 0xc45e4fdb, 0x3b6d0b79),
           Regs(0x860d21cc, 0xa079b7d9, 0xd8fdf6ad, 0xd7b9da25, 0xc45e4fdb));
    NextIs(m, 78, 0x5795ef4f, Regs(0x860d21cc, 0xa079b7d9, 0xd8fdf6ad, 0xd7b9da25, 0xc45e4fdb),
           Regs(0x5738d5e1, 0x860d21cc, 0x681e6df6, 0xd8fdf6ad, 0xd7b9da25));
    NextIs(m, 79, 0x822e0879, Regs(0x5738d5e1, 0x860d21cc, 0x681e6df6, 0xd8fdf6ad, 0xd7b9da25),
           Regs(0x42541b35, 0x5738d5e1, 0x21834873, 0x681e6df6, 0xd8fdf6ad));
  }

  lemma {:induction false} ZeroBytes(count: nat)
    ensures BytesOf(0, count) == seq(count, _ => 0)
  {
    if count > 0 { ZeroBytes(count - 1); }
  }

  lemma CountOfMessage()
    ensures ZeroCount(3) == 52 && LengthBytes(3) == seq(7, _ => 0) + [24]
  {
    ZeroBytes(7);
    assert BitLength(3) == 24 && BytesOf(24, 8) == BytesOf(0, 7) + [24];
    hide BytesOf;
  }

  /** The padded message: the byte 0x80 and the bit length among zeros. */
  lemma BytesOfMessage()
    ensures var p := Padded(MESSAGE);
      && |p| == 64 && p[0] == 0x61 && p[1] == 0x62 && p[2] == 0x63 && p[3] == 0x80 && p[63] == 24
      && forall i :: 4 <= i < 63 ==> p[i] == 0
  {
    CountOfMessage();
    hide LengthBytes, ZeroCount;
    var zeros: seq<byte>, count: seq<byte> := seq(52, _ => 0), seq(7, _ => 0) + [24];
    assert Padded(MESSAGE) == MESSAGE + [0x80] + zeros + count;
  }

  lemma WordsOfMessage()
    ensures WordOf(0x61, 0x62, 0x63, 0x80) == 0x61626380
    ensures WordOf(0, 0, 0, 0) == 0 && WordOf(0, 0, 0, 24) == 24
  {
    assert ToWord(0x61626380) == 0x61626380 && ToWord(0) == 0 && ToWord(24) == 24;
    hide ToWord;
  }

  /** The block is the padded message. */
  lemma BlockOfMessage()
    ensures |Padded(MESSAGE)| == 64 && Words(Padded(MESSAGE)) == BLOCK
  {
    BytesOfMessage();
    WordsOfMessage();
    hide Padded, WordOf;
    var p := Padded(MESSAGE);
    var m := Words(p);
    assert m[0] == WordOf(p[0], p[1], p[2], p[3]) && m[15] == WordOf(p[60], p[61], p[62], p[63]);
    forall i | 1 <= i < 15 ensures m[i] == 0 {
      assert m[i] == WordOf(p[4 * i], p[4 * i + 1], p[4 * i + 2], p[4 * i + 3]);
    }
  }

  lemma HashOfMessage()
    ensures Hash(MESSAGE) == Regs(0xa9993e36, 0x4706816a, 0xba3e2571, 0x7850c26c, 0x9cd0d89d)
  {
    BlockOfMessage();
    var m := BLOCK;
    hide W, Padded, Words;
    Words0To15(m);
    Rounds0To15(m);
    Words16To31(m);
    Rounds16To31(m);
    Words32To47(m);
    Rounds32To47(m);
    Words48To63(m);
    Rounds48To63(m);
    Words64To79(m);
    Rounds64To79(m);
    hide Rounds;
  }

  lemma HexOfFour(b0: byte, b1: byte, b2: byte, b3: byte)
    ensures HexOf([b0, b1, b2, b3]) == HexByte(b0) + HexByte(b1) + HexByte(b2) + HexByte(b3)
  {
    hide *;
    assert [b0, b1, b2, b3] == [b0] + [b1] + [b2] + [b3];
    HexOfConcat([b0] + [b1] + [b2], [b3]);
    HexOfConcat([b0] + [b1], [b2]);
    HexOfConcat([b0], [b1]);
    HexOfOne(b0);
    HexOfOne(b1);
    HexOfOne(b2);
    HexOfOne(b3);
  }

  lemma TextOfWord(x: nat, x1: nat, x2: nat, b0: byte, b1: byte, b2: byte, b3: byte)
    requires x == x1 * 256 + b3 && x1 == x2 * 256 + b2 && x2 == b0 * 256 + b1
    ensures HexOf(BytesOf(x, 4)) == HexByte(b0) + HexByte(b1) + HexByte(b2) + HexByte(b3)
  {
    RemainderUnique(x, 256, x1, b3);
    RemainderUnique(x1, 256, x2, b2);
    RemainderUnique(x2, 256, b0, b1);
    RemainderUnique(b0, 256, 0, b0);
    hide *;
    FourBytes(x, x1, x2, b0);
    assert BytesOf(x, 4) == [b0, b1, b2, b3];
    HexOfFour(b0, b1, b2, b3);
  }

  lemma TextOfWord0()
    ensures HexOf(WordBytes(0xa9993e36)) == "a9993e36"
  {
    assert 0xa9993e36 as Word as int == 0xa9993e36;
    TextOfWord(0xa9993e36, 0xa9993e, 0xa999, 0xa9, 0x99, 0x3e, 0x36);
    hide HexOf, BytesOf;
  }

  lemma TextOfWord1()
    ensures HexOf(WordBytes(0x4706816a)) == "4706816a"
  {
    assert 0x4706816a as Word as int == 0x4706816a;
    TextOfWord(0x4706816a, 0x470681, 0x4706, 0x47, 0x06, 0x81, 0x6a);
    hide HexOf, BytesOf;
  }

  lemma TextOfWord2()
    ensures HexOf(WordBytes(0xba3e2571)) == "ba3e2571"
  {
    assert 0xba3e2571 as Word as int == 0xba3e2571;
    TextOfWord(0xba3e2571, 0xba3e25, 0xba3e, 0xba, 0x3e, 0x25, 0x71);
    hide HexOf, BytesOf;
  }

  lemma TextOfWord3()
    ensures HexOf(WordBytes(0x7850c26c)) == "7850c26c"
  {
    assert 0x7850c26c as Word as int == 0x7850c26c;
    TextOfWord(0x7850c26c, 0x7850c2, 0x7850, 0x78, 0x50, 0xc2, 0x6c);
    hide HexOf, BytesOf;
  }

  lemma TextOfWord4()
    ensures HexOf(WordBytes(0x9cd0d89d)) == "9cd0d89d"
  {
    assert 0x9cd0d89d as Word as int == 0x9cd0d89d;
    TextOfWord(0x9cd0d89d, 0x9cd0d8, 0x9cd0, 0x9c, 0xd0, 0xd8, 0x9d);
    hide HexOf, BytesOf;
  }

  lemma TextOfHash()
    ensures HexOf(HashBytes(Regs(0xa9993e36, 0x4706816a, 0xba3e2571, 0x7850c26c, 0x9cd0d89d)))
      == "a9993e364706816aba3e25717850c26c9cd0d89d"
  {
    TextOfWord0();
    TextOfWord1();
    TextOfWord2();
    TextOfWord3();
    TextOfWord4();
    hide HexOf, WordBytes;
    var a, b, c := WordBytes(0xa9993e36), WordBytes(0x4706816a), WordBytes(0xba3e2571);
    var d, e := WordBytes(0x7850c26c), WordBytes(0x9cd0d89d);
    HexOfConcat(a + b + c + d, e);
    HexOfConcat(a + b + c, d);
    HexOfConcat(a + b, c);
    HexOfConcat(a, b);
  }

  lemma PartsOfMessage()
    ensures [] + [0x61] + [0x62, 0x63] == MESSAGE
  {
  }

  /** What the class computes for the message, passed in two parts. */
  method HashInTwoParts() returns (result: string)
    ensures result == "a9993e364706816aba3e25717850c26c9cd0d89d"
  {
    hide *;
    var sha1 := new SHA1();
    sha1.Update([0x61]);
    sha1.Update([0x62, 0x63]);
    PartsOfMessage();
    result := sha1.Final();
    HashOfMessage();
    TextOfHash();
  }
}
