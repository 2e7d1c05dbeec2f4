/** The digest of the three bytes "abc", the example of one block that was published with FIPS 180, round by
    round. It settles the constants, rotations and byte orders that the standard and the code have in common. */
module KnownAnswer {
  import opened Words
  import opened Blocks
  import opened Logic
  import opened Sha1

  /** The message, 0x80, zeros and the length of 24 bits. */
  function AbcBlock(): Block {
    [0x61, 0x62, 0x63, 0x80] + Zeros(52) + [0, 0, 0, 0, 0, 0, 0, 0x18]
  }

  lemma NextWord(b: Block, t: nat, w3: word, w8: word, w14: word, w16: word)
    requires t >= 16 && W(b, t - 3) == w3 && W(b, t - 8) == w8 && W(b, t - 14) == w14 && W(b, t - 16) == w16
    ensures W(b, t) == Mix(w3, w8, w14, w16)
  {
  }

  lemma NextRound(h: Regs, b: Block, t: nat, r: Regs, w: word)
    requires Rounds(h, b, t) == r && W(b, t) == w
    ensures Rounds(h, b, t + 1) == Step(r, t, w)
  {
  }

  lemma Words0(b: Block)
    requires b == AbcBlock()
    ensures W(b, 0) == 0x61626380 && W(b, 1) == 0x00000000 && W(b, 2) == 0x00000000
            && W(b, 3) == 0x00000000 && W(b, 4) == 0x00000000 && W(b, 5) == 0x00000000
            && W(b, 6) == 0x00000000 && W(b, 7) == 0x00000000 && W(b, 8) == 0x00000000
            && W(b, 9) == 0x00000000 && W(b, 10) == 0x00000000 && W(b, 11) == 0x00000000
            && W(b, 12) == 0x00000000 && W(b, 13) == 0x00000000 && W(b, 14) == 0x00000000
            && W(b, 15) == 0x00000018
  {
  }

  lemma Words16(b: Block)
    requires b == AbcBlock()
    ensures W(b, 16) == 0xc2c4c700 && W(b, 17) == 0x00000000 && W(b, 18) == 0x00000030
            && W(b, 19) == 0x85898e01 && W(b, 20) == 0x00000000 && W(b, 21) == 0x00000060
            && W(b, 22) == 0x0b131c03 && W(b, 23) == 0x00000030
  {
    hide W;
    hide AbcBlock;
    Words0(b);
    NextWord(b, 16, 0x00000000, 0x00000000, 0x00000000, 0x61626380);
    NextWord(b, 17, 0x00000000, 0x00000000, 0x00000000, 0x00000000);
    NextWord(b, 18, 0x00000018, 0x00000000, 0x00000000, 0x00000000);
    NextWord(b, 19, 0xc2c4c700, 0x00000000, 0x00000000, 0x00000000);
    NextWord(b, 20, 0x00000000, 0x00000000, 0x00000000, 0x00000000);
    NextWord(b, 21, 0x00000030, 0x00000000, 0x00000000, 0x00000000);
    NextWord(b, 22, 0x85898e01, 0x00000000, 0x00000000, 0x00000000);
    NextWord(b, 23, 0x00000000, 0x00000018, 0x00000000, 0x00000000);
  }

  lemma Words24(b: Block)
    requires b == AbcBlock()
    ensures W(b, 24) == 0x85898ec1 && W(b, 25) == 0x16263806 && W(b, 26) == 0x00000000
            && W(b, 27) == 0x00000180 && W(b, 28) == 0x2c4c700c && W(b, 29) == 0x000000f0
            && W(b, 30) == 0x93afb507 && W(b, 31) == 0x5898e048
  {
    hide W;
    hide AbcBlock;
    Words16(b);
    Words0(b);
    NextWord(b, 24, 0x00000060, 0xc2c4c700, 0x00000000, 0x00000000);
    NextWord(b, 25, 0x0b131c03, 0x00000000, 0x00000000, 0x00000000);
    NextWord(b, 26, 0x00000030, 0x00000030, 0x00000000, 0x00000000);
    NextWord(b, 27, 0x85898ec1, 0x85898e01, 0x00000000, 0x00000000);
    NextWord(b, 28, 0x16263806, 0x00000000, 0x00000000, 0x00000000);
    NextWord(b, 29, 0x00000000, 0x00000060, 0x00000018, 0x00000000);
    NextWord(b, 30, 0x00000180, 0x0b131c03, 0xc2c4c700, 0x00000000);
    NextWord(b, 31, 0x2c4c700c, 0x00000030, 0x00000000, 0x00000018);
  }

  lemma Words32(b: Block)
    requires b == AbcBlock()
    ensures W(b, 32) == 0x8e9a9202 && W(b, 33) == 0x00000600 && W(b, 34) == 0xb131c0f0
            && W(b, 35) == 0x16263bc6 && W(b, 36) == 0x4ebed41e && W(b, 37) == 0x626380a1
            && W(b, 38) == 0x16263806 && W(b, 39) == 0x000018c0
  {
    hide W;
    hide AbcBlock;
    Words24(b);
    Words16(b);
    NextWord(b, 32, 0x000000f0, 0x85898ec1, 0x00000030, 0xc2c4c700);
    NextWord(b, 33, 0x93afb507, 0x16263806, 0x85898e01, 0x00000000);
    NextWord(b, 34, 0x5898e048, 0x00000000, 0x00000000, 0x00000030);
    NextWord(b, 35, 0x8e9a9202, 0x00000180, 0x00000060, 0x85898e01);
    NextWord(b, 36, 0x00000600, 0x2c4c700c, 0x0b131c03, 0x00000000);
    NextWord(b, 37, 0xb131c0f0, 0x000000f0, 0x00000030, 0x00000060);
    NextWord(b, 38, 0x16263bc6, 0x93afb507, 0x85898ec1, 0x0b131c03);
    NextWord(b, 39, 0x4ebed41e, 0x5898e048, 0x16263806, 0x00000030);
  }

  lemma Words40(b: Block)
    requires b == AbcBlock()
    ensures W(b, 40) == 0xd2e138c4 && W(b, 41) == 0x00000f00 && W(b, 42) == 0x3afb5079
            && W(b, 43) == 0x898e04e5 && W(b, 44) == 0xe2ba3c2b && W(b, 45) == 0x000060c0
            && W(b, 46) == 0x053a37cd && W(b, 47) == 0x74458547
  {
    hide W;
    hide AbcBlock;
    Words32(b);
    Words24(b);
    NextWord(b, 40, 0x626380a1, 0x8e9a9202, 0x00000000, 0x85898ec1);
    NextWord(b, 41, 0x16263806, 0x00000600, 0x00000180, 0x16263806);
    NextWord(b, 42, 0x000018c0, 0xb131c0f0, 0x2c4c700c, 0x00000000);
    NextWord(b, 43, 0xd2e138c4, 0x16263bc6, 0x000000f0, 0x00000180);
    NextWord(b, 44, 0x00000f00, 0x4ebed41e, 0x93afb507, 0x2c4c700c);
    NextWord(b, 45, 0x3afb5079, 0x626380a1, 0x5898e048, 0x000000f0);
    NextWord(b, 46, 0x898e04e5, 0x16263806, 0x8e9a9202, 0x93afb507);
    NextWord(b, 47, 0xe2ba3c2b, 0x000018c0, 0x00000600, 0x5898e048);
  }

  lemma Words48(b: Block)
    requires b == AbcBlock()
    ensures W(b, 48) == 0xda9415ed && W(b, 49) == 0x26380a16 && W(b, 50) == 0x626383a1
            && W(b, 51) == 0x4ebf54de && W(b, 52) == 0x3835b44b && W(b, 53) == 0x0000f600
            && W(b, 54) == 0x1e84c7a3 && W(b, 55) == 0x98e04d98
  {
    hide W;
    hide AbcBlock;
    Words40(b);
    Words32(b);
    NextWord(b, 48, 0x000060c0, 0xd2e138c4, 0xb131c0f0, 0x8e9a9202);
    NextWord(b, 49, 0x053a37cd, 0x00000f00, 0x16263bc6, 0x00000600);
    NextWord(b, 50, 0x74458547, 0x3afb5079, 0x4ebed41e, 0xb131c0f0);
    NextWord(b, 51, 0xda9415ed, 0x898e04e5, 0x626380a1, 0x16263bc6);
    NextWord(b, 52, 0x26380a16, 0xe2ba3c2b, 0x16263806, 0x4ebed41e);
    NextWord(b, 53, 0x626383a1, 0x000060c0, 0x000018c0, 0x626380a1);
    NextWord(b, 54, 0x4ebf54de, 0x053a37cd, 0xd2e138c4, 0x16263806);
    NextWord(b, 55, 0x3835b44b, 0x74458547, 0x00000f00, 0x000018c0);
  }

  lemma Words56(b: Block)
    requires b == AbcBlock()
    ensures W(b, 56) == 0x651d16a0 && W(b, 57) == 0x62658ca1 && W(b, 58) == 0x458544d6
            && W(b, 59) == 0x44584cb7 && W(b, 60) == 0x7ba06619 && W(b, 61) == 0x6380aea2
            && W(b, 62) == 0x0ae55269 && W(b, 63) == 0x627b49a1
  {
    hide W;
    hide AbcBlock;
    Words48(b);
    Words40(b);
    NextWord(b, 56, 0x0000f600, 0xda9415ed, 0x3afb5079, 0xd2e138c4);
    NextWord(b, 57, 0x1e84c7a3, 0x26380a16, 0x898e04e5, 0x00000f00);
    NextWord(b, 58, 0x98e04d98, 0x626383a1, 0xe2ba3c2b, 0x3afb5079);
    NextWord(b, 59, 0x651d16a0, 0x4ebf54de, 0x000060c0, 0x898e04e5);
    NextWord(b, 60, 0x62658ca1, 0x3835b44b, 0x053a37cd, 0xe2ba3c2b);
    NextWord(b, 61, 0x458544d6, 0x0000f600, 0x74458547, 0x000060c0);
    NextWord(b, 62, 0x44584cb7, 0x1e84c7a3, 0xda9415ed, 0x053a37cd);
    NextWord(b, 63, 0x7ba06619, 0x98e04d98, 0x26380a16, 0x74458547);
  }

  lemma Words64(b: Block)
    requires b == AbcBlock()
    ensures W(b, 64) == 0x7cd45c9d && W(b, 65) == 0x000f0000 && W(b, 66) == 0xfb50753a
            && W(b, 67) == 0xec6765e8 && W(b, 68) == 0xba3c2be2 && W(b, 69) == 0x0060c000
            && W(b, 70) == 0x3a37cd05 && W(b, 71) == 0x458546f4
  {
    hide W;
    hide AbcBlock;
    Words56(b);
    Words48(b);
    NextWord(b, 64, 0x6380aea2, 0x651d16a0, 0x626383a1, 0xda9415ed);
    NextWord(b, 65, 0x0ae55269, 0x62658ca1, 0x4ebf54de, 0x26380a16);
    NextWord(b, 66, 0x627b49a1, 0x458544d6, 0x3835b44b, 0x626383a1);
    NextWord(b, 67, 0x7cd45c9d, 0x44584cb7, 0x0000f600, 0x4ebf54de);
    NextWord(b, 68, 0x000f0000, 0x7ba06619, 0x1e84c7a3, 0x3835b44b);
    NextWord(b, 69, 0xfb50753a, 0x6380aea2, 0x98e04d98, 0x0000f600);
    NextWord(b, 70, 0xec6765e8, 0x0ae55269, 0x651d16a0, 0x1e84c7a3);
    NextWord(b, 71, 0xba3c2be2, 0x627b49a1, 0x62658ca1, 0x98e04d98);
  }

  lemma Words72(b: Block)
    requires b == AbcBlock()
    ensures W(b, 72) == 0xb8599dd6 && W(b, 73) == 0x380a1a26 && W(b, 74) == 0x01e02203
            && W(b, 75) == 0xe7cc3456 && W(b, 76) == 0xe6e60b69 && W(b, 77) == 0x00f60a00
            && W(b, 78) == 0x5795ef4f && W(b, 79) == 0x822e0879
  {
    hide W;
    hide AbcBlock;
    Words64(b);
    Words56(b);
    NextWord(b, 72, 0x0060c000, 0x7cd45c9d, 0x458544d6, 0x651d16a0);
    NextWord(b, 73, 0x3a37cd05, 0x000f0000, 0x44584cb7, 0x62658ca1);
    NextWord(b, 74, 0x458546f4, 0xfb50753a, 0x7ba06619, 0x458544d6);
    NextWord(b, 75, 0xb8599dd6, 0xec6765e8, 0x6380aea2, 0x44584cb7);
    NextWord(b, 76, 0x380a1a26, 0xba3c2be2, 0x0ae55269, 0x7ba06619);
    NextWord(b, 77, 0x01e02203, 0x0060c000, 0x627b49a1, 0x6380aea2);
    NextWord(b, 78, 0xe7cc3456, 0x3a37cd05, 0x7cd45c9d, 0x0ae55269);
    NextWord(b, 79, 0xe6e60b69, 0x458546f4, 0x000f0000, 0x627b49a1);
  }

  lemma Rounds8(b: Block)
    requires b == AbcBlock()
    ensures Rounds(H0, b, 8) == Regs(0x9e8c07d4, 0x993e30c1, 0x0ff1f290, 0xb3f52677, 0xf3763846)
  {
    hide W;
    hide Rounds;
    hide AbcBlock;
    Words0(b);
    FirstRound(b);
    NextRound(H0, b, 0, Regs(0x67452301, 0xefcdab89, 0x98badcfe, 0x10325476, 0xc3d2e1f0), 0x61626380);
    NextRound(H0, b, 1, Regs(0x0116fc33, 0x67452301, 0x7bf36ae2, 0x98badcfe, 0x10325476), 0x00000000);
    NextRound(H0, b, 2, Regs(0x8990536d, 0x0116fc33, 0x59d148c0, 0x7bf36ae2, 0x98badcfe), 0x00000000);
    NextRound(H0, b, 3, Regs(0xa1390f08, 0x8990536d, 0xc045bf0c, 0x59d148c0, 0x7bf36ae2), 0x00000000);
    NextRound(H0, b, 4, Regs(0xcdd8e11b, 0xa1390f08, 0x626414db, 0xc045bf0c, 0x59d148c0), 0x00000000);
    NextRound(H0, b, 5, Regs(0xcfd499de, 0xcdd8e11b, 0x284e43c2, 0x626414db, 0xc045bf0c), 0x00000000);
    NextRound(H0, b, 6, Regs(0x3fc7ca40, 0xcfd499de, 0xf3763846, 0x284e43c2, 0x626414db), 0x00000000);
    NextRound(H0, b, 7, Regs(0x993e30c1, 0x3fc7ca40, 0xb3f52677, 0xf3763846, 0x284e43c2), 0x00000000);
  }

  lemma Rounds16(b: Block)
    requires b == AbcBlock()
    ensures Rounds(H0, b, 16) == Regs(0x20bdd62f, 0x196bee77, 0x644a3da5, 0x1181ed99, 0x18c623f9)
  {
    hide W;
    hide Rounds;
    hide AbcBlock;
    Words0(b);
    Rounds8(b);
    NextRound(H0, b, 8, Regs(0x9e8c07d4, 0x993e30c1, 0x0ff1f290, 0xb3f52677, 0xf3763846), 0x00000000);
    NextRound(H0, b, 9, Regs(0x4b6ae328, 0x9e8c07d4, 0x664f8c30, 0x0ff1f290, 0xb3f52677), 0x00000000);
    NextRound(H0, b, 10, Regs(0x8351f929, 0x4b6ae328, 0x27a301f5, 0x664f8c30, 0x0ff1f290), 0x00000000);
    NextRound(H0, b, 11, Regs(0xfbda9e89, 0x8351f929, 0x12dab8ca, 0x27a301f5, 0x664f8c30), 0x00000000);
    NextRound(H0, b, 12, Regs(0x63188fe4, 0xfbda9e89, 0x60d47e4a, 0x12dab8ca, 0x27a301f5), 0x00000000);
    NextRound(H0, b, 13, Regs(0x4607b664, 0x63188fe4, 0x7ef6a7a2, 0x60d47e4a, 0x12dab8ca), 0x00000000);
    NextRound(H0, b, 14, Regs(0x9128f695, 0x4607b664, 0x18c623f9, 0x7ef6a7a2, 0x60d47e4a), 0x00000000);
    NextRound(H0, b, 15, Regs(0x196bee77, 0x9128f695, 0x1181ed99, 0x18c623f9, 0x7ef6a7a2), 0x00000018);
  }

  lemma Rounds24(b: Block)
    requires b == AbcBlock()
    ensures Rounds(H0, b, 24) == Regs(0xd541f12d, 0x21283486, 0x0ce88eff, 0x868dec32, 0x7f67875f)
  {
    hide W;
    hide Rounds;
    hide AbcBlock;
    Words16(b);
    Rounds16(b);
    NextRound(H0, b, 16, Regs(0x20bdd62f, 0x196bee77, 0x644a3da5, 0x1181ed99, 0x18c623f9), 0xc2c4c700);
    NextRound(H0, b, 17, Regs(0x4e925823, 0x20bdd62f, 0xc65afb9d, 0x644a3da5, 0x1181ed99), 0x00000000);
    NextRound(H0, b, 18, Regs(0x82aa6728, 0x4e925823, 0xc82f758b, 0xc65afb9d, 0x644a3da5), 0x00000030);
    NextRound(H0, b, 19, Regs(0xdc64901d, 0x82aa6728, 0xd3a49608, 0xc82f758b, 0xc65afb9d), 0x85898e01);
    NextRound(H0, b, 20, Regs(0xfd9e1d7d, 0xdc64901d, 0x20aa99ca, 0xd3a49608, 0xc82f758b), 0x00000000);
    NextRound(H0, b, 21, Regs(0x1a37b0ca, 0xfd9e1d7d, 0x77192407, 0x20aa99ca, 0xd3a49608), 0x00000060);
    NextRound(H0, b, 22, Regs(0x33a23bfc, 0x1a37b0ca, 0x7f67875f, 0x77192407, 0x20aa99ca), 0x0b131c03);
    NextRound(H0, b, 23, Regs(0x21283486, 0x33a23bfc, 0x868dec32, 0x7f67875f, 0x77192407), 0x00000030);
  }

  lemma Rounds32(b: Block)
    requires b == AbcBlock()
    ensures Rounds(H0, b, 32) == Regs(0x3b845d33, 0x1267b407, 0x717eebd7, 0xa0dc2d4b, 0xd2aa1365)
  {
    hide W;
    hide Rounds;
    hide AbcBlock;
    Words24(b);
    Rounds24(b);
    NextRound(H0, b, 24, Regs(0xd541f12d, 0x21283486, 0x0ce88eff, 0x868dec32, 0x7f67875f), 0x85898ec1);
    NextRound(H0, b, 25, Regs(0xc7567dc6, 0xd541f12d, 0x884a0d21, 0x0ce88eff, 0x868dec32), 0x16263806);
    NextRound(H0, b, 26, Regs(0x48413ba4, 0xc7567dc6, 0x75507c4b, 0x884a0d21, 0x0ce88eff), 0x00000000);
    NextRound(H0, b, 27, Regs(0xbe35fbd5, 0x48413ba4, 0xb1d59f71, 0x75507c4b, 0x884a0d21), 0x00000180);
    NextRound(H0, b, 28, Regs(0x4aa84d97, 0xbe35fbd5, 0x12104ee9, 0xb1d59f71, 0x75507c4b), 0x2c4c700c);
    NextRound(H0, b, 29, Regs(0x8370b52e, 0x4aa84d97, 0x6f8d7ef5, 0x12104ee9, 0xb1d59f71), 0x000000f0);
    NextRound(H0, b, 30, Regs(0xc5fbaf5d, 0x8370b52e, 0xd2aa1365, 0x6f8d7ef5, 0x12104ee9), 0x93afb507);
    NextRound(H0, b, 31, Regs(0x1267b407, 0xc5fbaf5d, 0xa0dc2d4b, 0xd2aa1365, 0x6f8d7ef5), 0x5898e048);
  }

  lemma Rounds40(b: Block)
    requires b == AbcBlock()
    ensures Rounds(H0, b, 40) == Regs(0x32de1cba, 0x4c986405, 0xf718e5cf, 0x03d447f6, 0xf72eec32)
  {
    hide W;
    hide Rounds;
    hide AbcBlock;
    Words32(b);
    Rounds32(b);
    NextRound(H0, b, 32, Regs(0x3b845d33, 0x1267b407, 0x717eebd7, 0xa0dc2d4b, 0xd2aa1365), 0x8e9a9202);
    NextRound(H0, b, 33, Regs(0x046faa0a, 0x3b845d33, 0xc499ed01, 0x717eebd7, 0xa0dc2d4b), 0x00000600);
    NextRound(H0, b, 34, Regs(0x2c0ebc11, 0x046faa0a, 0xcee1174c, 0xc499ed01, 0x717eebd7), 0xb131c0f0);
    NextRound(H0, b, 35, Regs(0x21796ad4, 0x2c0ebc11, 0x811bea82, 0xcee1174c, 0xc499ed01), 0x16263bc6);
    NextRound(H0, b, 36, Regs(0xdcbbb0cb, 0x21796ad4, 0x4b03af04, 0x811bea82, 0xcee1174c), 0x4ebed41e);
    NextRound(H0, b, 37, Regs(0x0f511fd8, 0xdcbbb0cb, 0x085e5ab5, 0x4b03af04, 0x811bea82), 0x626380a1);
    NextRound(H0, b, 38, Regs(0xdc63973f, 0x0f511fd8, 0xf72eec32, 0x085e5ab5, 0x4b03af04), 0x16263806);
    NextRound(H0, b, 39, Regs(0x4c986405, 0xdc63973f, 0x03d447f6, 0xf72eec32, 0x085e5ab5), 0x000018c0);
  }

  lemma Rounds48(b: Block)
    requires b == AbcBlock()
    ensures Rounds(H0, b, 48) == Regs(0xbead02ca, 0xa01b846c, 0x8714787c, 0x503ca382, 0xfb86c6ab)
  {
    hide W;
    hide Rounds;
    hide AbcBlock;
    Words40(b);
    Rounds40(b);
    NextRound(H0, b, 40, Regs(0x32de1cba, 0x4c986405, 0xf718e5cf, 0x03d447f6, 0xf72eec32), 0xd2e138c4);
    NextRound(H0, b, 41, Regs(0xfc87dedf, 0x32de1cba, 0x53261901, 0xf718e5cf, 0x03d447f6), 0x00000f00);
    NextRound(H0, b, 42, Regs(0x970a0d5c, 0xfc87dedf, 0x8cb7872e, 0x53261901, 0xf718e5cf), 0x3afb5079);
    NextRound(H0, b, 43, Regs(0x7f193dc5, 0x970a0d5c, 0xff21f7b7, 0x8cb7872e, 0x53261901), 0x898e04e5);
    NextRound(H0, b, 44, Regs(0xee1b1aaf, 0x7f193dc5, 0x25c28357, 0xff21f7b7, 0x8cb7872e), 0xe2ba3c2b);
    NextRound(H0, b, 45, Regs(0x40f28e09, 0xee1b1aaf, 0x5fc64f71, 0x25c28357, 0xff21f7b7), 0x000060c0);
    NextRound(H0, b, 46, Regs(0x1c51e1f2, 0x40f28e09, 0xfb86c6ab, 0x5fc64f71, 0x25c28357), 0x053a37cd);
    NextRound(H0, b, 47, Regs(0xa01b846c, 0x1c51e1f2, 0x503ca382, 0xfb86c6ab, 0x5fc64f71), 0x74458547);
  }

  lemma Rounds56(b: Block)
    requires b == AbcBlock()
    ensures Rounds(H0, b, 56) == Regs(0x5e6456af, 0x7b71f76d, 0x09fa7c76, 0x792410db, 0x8e11eb59)
  {
    hide W;
    hide Rounds;
    hide AbcBlock;
    Words48(b);
    Rounds48(b);
    NextRound(H0, b, 48, Regs(0xbead02ca, 0xa01b846c, 0x8714787c, 0x503ca382, 0xfb86c6ab), 0xda9415ed);
    NextRound(H0, b, 49, Regs(0xbaf39337, 0xbead02ca, 0x2806e11b, 0x8714787c, 0x503ca382), 0x26380a16);
    NextRound(H0, b, 50, Regs(0x120731c5, 0xbaf39337, 0xafab40b2, 0x2806e11b, 0x8714787c), 0x626383a1);
    NextRound(H0, b, 51, Regs(0x641db2ce, 0x120731c5, 0xeebce4cd, 0xafab40b2, 0x2806e11b), 0x4ebf54de);
    NextRound(H0, b, 52, Regs(0x3847ad66, 0x641db2ce, 0x4481cc71, 0xeebce4cd, 0xafab40b2), 0x3835b44b);
    NextRound(H0, b, 53, Regs(0xe490436d, 0x3847ad66, 0x99076cb3, 0x4481cc71, 0xeebce4cd), 0x0000f600);
    NextRound(H0, b, 54, Regs(0x27e9f1d8, 0xe490436d, 0x8e11eb59, 0x99076cb3, 0x4481cc71), 0x1e84c7a3);
    NextRound(H0, b, 55, Regs(0x7b71f76d, 0x27e9f1d8, 0x792410db, 0x8e11eb59, 0x99076cb3), 0x98e04d98);
  }

  lemma Rounds64(b: Block)
    requires b == AbcBlock()
    ensures Rounds(H0, b, 64) == Regs(0x6b61c9e1, 0xb66c020b, 0x9523272c, 0xf5d5b051, 0x8fd4b796)
  {
    hide W;
    hide Rounds;
    hide AbcBlock;
    Words56(b);
    Rounds56(b);
    NextRound(H0, b, 56, Regs(0x5e6456af, 0x7b71f76d, 0x09fa7c76, 0x792410db, 0x8e11eb59), 0x651d16a0);
    NextRound(H0, b, 57, Regs(0xc846093f, 0x5e6456af, 0x5edc7ddb, 0x09fa7c76, 0x792410db), 0x62658ca1);
    NextRound(H0, b, 58, Regs(0xd262ff50, 0xc846093f, 0xd79915ab, 0x5edc7ddb, 0x09fa7c76), 0x458544d6);
    NextRound(H0, b, 59, Regs(0x09d785fd, 0xd262ff50, 0xf211824f, 0xd79915ab, 0x5edc7ddb), 0x44584cb7);
    NextRound(H0, b, 60, Regs(0x3f52de5a, 0x09d785fd, 0x3498bfd4, 0xf211824f, 0xd79915ab), 0x7ba06619);
    NextRound(H0, b, 61, Regs(0xd756c147, 0x3f52de5a, 0x4275e17f, 0x3498bfd4, 0xf211824f), 0x6380aea2);
    NextRound(H0, b, 62, Regs(0x548c9cb2, 0xd756c147, 0x8fd4b796, 0x4275e17f, 0x3498bfd4), 0x0ae55269);
    NextRound(H0, b, 63, Regs(0xb66c020b, 0x548c9cb2, 0xf5d5b051, 0x8fd4b796, 0x4275e17f), 0x627b49a1);
  }

  lemma Rounds72(b: Block)
    requires b == AbcBlock()
    ensures Rounds(H0, b, 72) == Regs(0x39859de7, 0xc199f8c7, 0x8fc96230, 0x125c24f0, 0xde37534a)
  {
    hide W;
    hide Rounds;
    hide AbcBlock;
    Words64(b);
    Rounds64(b);
    NextRound(H0, b, 64, Regs(0x6b61c9e1, 0xb66c020b, 0x9523272c, 0xf5d5b051, 0x8fd4b796), 0x7cd45c9d);
    NextRound(H0, b, 65, Regs(0x19dfa7ac, 0x6b61c9e1, 0xed9b0082, 0x9523272c, 0xf5d5b051), 0x000f0000);
    NextRound(H0, b, 66, Regs(0x101655f9, 0x19dfa7ac, 0x5ad87278, 0xed9b0082, 0x9523272c), 0xfb50753a);
    NextRound(H0, b, 67, Regs(0x0c3df2b4, 0x101655f9, 0x0677e9eb, 0x5ad87278, 0xed9b0082), 0xec6765e8);
    NextRound(H0, b, 68, Regs(0x78dd4d2b, 0x0c3df2b4, 0x4405957e, 0x0677e9eb, 0x5ad87278), 0xba3c2be2);
    NextRound(H0, b, 69, Regs(0x497093c0, 0x78dd4d2b, 0x030f7cad, 0x4405957e, 0x0677e9eb), 0x0060c000);
    NextRound(H0, b, 70, Regs(0x3f2588c2, 0x497093c0, 0xde37534a, 0x030f7cad, 0x4405957e), 0x3a37cd05);
    NextRound(H0, b, 71, Regs(0xc199f8c7, 0x3f2588c2, 0x125c24f0, 0xde37534a, 0x030f7cad), 0x458546f4);
  }

  lemma Rounds80(b: Block)
    requires b == AbcBlock()
    ensures Rounds(H0, b, 80) == Regs(0x42541b35, 0x5738d5e1, 0x21834873, 0x681e6df6, 0xd8fdf6ad)
  {
    hide W;
    hide Rounds;
    hide AbcBlock;
    Words72(b);
    Rounds72(b);
    NextRound(H0, b, 72, Regs(0x39859de7, 0xc199f8c7, 0x8fc96230, 0x125c24f0, 0xde37534a), 0xb8599dd6);
    NextRound(H0, b, 73, Regs(0xedb42de4, 0x39859de7, 0xf0667e31, 0x8fc96230, 0x125c24f0), 0x380a1a26);
    NextRound(H0, b, 74, Regs(0x11793f6f, 0xedb42de4, 0xce616779, 0xf0667e31, 0x8fc96230), 0x01e02203);
    NextRound(H0, b, 75, Regs(0x5ee76897, 0x11793f6f, 0x3b6d0b79, 0xce616779, 0xf0667e31), 0xe7cc3456);
    NextRound(H0, b, 76, Regs(0x63f7dab7, 0x5ee76897, 0xc45e4fdb, 0x3b6d0b79, 0xce616779), 0xe6e60b69);
    NextRound(H0, b, 77, Regs(0xa079b7d9, 0x63f7dab7, 0xd7b9da25, 0xc45e4fdb, 0x3b6d0b79), 0x00f60a00);
    NextRound(H0, b, 78, Regs(0x860d21cc, 0xa079b7d9, 0xd8fdf6ad, 0xd7b9da25, 0xc45e4fdb), 0x5795ef4f);
    NextRound(H0, b, 79, Regs(0x5738d5e1, 0x860d21cc, 0x681e6df6, 0xd8fdf6ad, 0xd7b9da25), 0x822e0879);
  }

  lemma FirstRound(b: Block)
    ensures Rounds(H0, b, 0) == Regs(0x67452301, 0xefcdab89, 0x98badcfe, 0x10325476, 0xc3d2e1f0)
  {
  }

  lemma AbcPadded()
    ensures Padded([0x61, 0x62, 0x63], 24) == AbcBlock()
  {
  }

  /** Sha1("abc"). */
  lemma Abc()
    ensures Sha1.Sha1([0x61, 0x62, 0x63])
         == [0xa9, 0x99, 0x3e, 0x36, 0x47, 0x06, 0x81, 0x6a, 0xba, 0x3e,
             0x25, 0x71, 0x78, 0x50, 0xc2, 0x6c, 0x9c, 0xd0, 0xd8, 0x9d]
  {
    hide Rounds;
    var b := AbcBlock();
    AbcPadded();
    Rounds80(b);
    assert Fold(Compress, H0, b) == Compress(H0, b) by {
      FoldBlock(Compress, H0, [], b);
      assert [] + b == b;
    }
    assert Compress(H0, b) == Regs(0xa9993e36, 0x4706816a, 0xba3e2571, 0x7850c26c, 0x9cd0d89d);
  }

  /** The length field is the upper word of the number before the lower one. */
  lemma LengthField(hi: nat, lo: nat)
    requires hi < 0x1_0000_0000 && lo < 0x1_0000_0000
    ensures BigEndian64(hi * 0x1_0000_0000 + lo) == TwoWords(hi, lo)
  {
    hide TwoWords;
    UpperAndLower(hi, lo);
  }

  lemma UpperAndLower(hi: nat, lo: nat)
    requires lo < 0x1_0000_0000
    ensures (hi * 0x1_0000_0000 + lo) / 0x1_0000_0000 == hi && (hi * 0x1_0000_0000 + lo) % 0x1_0000_0000 == lo
  {
  }

  lemma WordBytes()
    ensures BigEndian32(0x01234567) == [0x01, 0x23, 0x45, 0x67]
  {
  }

  /** A word is loaded from the bytes it is written as. */
  lemma LoadStored(b: Block, n: nat, w: word)
    requires n < 16 && b[4 * n..4 * n + 4] == BigEndian32(w)
    ensures Load(b, n) == w
  {
  }
}
