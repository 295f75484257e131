/** The two examples that FIPS 180 publishes for SHA-1, computed with bit vectors. */
module Sha1Answers {
  import opened BitVectors
  import opened Bits
  import opened Sha1Rounds
  import opened Sha1Words

  // ---------- Operators ----------

  function VectorOps(): Ops<Bv> {
    Ops(AddBv, XorBv, AndBv, Rotate1, Rotate5, Rotate30, 0x5a827999, 0x6ed9eba1, 0x8f1bbcdc, 0xca62c1d6)
  }

  lemma ConstantsAre()
    ensures WordOf(0x5a827999) == K(0) && WordOf(0x6ed9eba1) == K(20)
    ensures WordOf(0x8f1bbcdc) == K(40) && WordOf(0xca62c1d6) == K(60)
  {
    WordIs(0x5a827999, 0x5a827999);
    WordIs(0x6ed9eba1, 0x6ed9eba1);
    WordIs(0x8f1bbcdc, 0x8f1bbcdc);
    WordIs(0xca62c1d6, 0xca62c1d6);
  }

  /** The operators on bit vectors are those on words. */
  lemma VectorsModel(num: Bv -> u32, size: nat, k: nat)
    requires Reads(num, size) && size == 4 * k && k == 8
    requires num(0x5a827999) == K(0) && num(0x6ed9eba1) == K(20) && num(0x8f1bbcdc) == K(40) && num(0xca62c1d6) == K(60)
    ensures Models(VectorOps(), num)
  {
    forall x, y ensures num(AddBv(x, y)) == Add32(num(x), num(y)) {
      AddIs(num, size, k, x, y);
    }
    forall x, y ensures num(XorBv(x, y)) == Xor32(num(x), num(y)) {
      XorIs(num, size, x, y);
    }
    forall x, y ensures num(AndBv(x, y)) == And32(num(x), num(y)) {
      AndIs(num, size, x, y);
    }
    forall x ensures num(Rotate1(x)) == Rotl(num(x), 1) {
      Rotate1Is(x, size, 1, 31, k);
    }
    forall x ensures num(Rotate5(x)) == Rotl(num(x), 5) {
      Rotate5Is(x, size, 5, 27, k);
    }
    forall x ensures num(Rotate30(x)) == Rotl(num(x), 30) {
      Rotate30Is(x, size, 30, 2, k);
    }
  }

  lemma WordsModel()
    ensures Models(VectorOps(), WordOf)
  {
    WordReads(32, 8);
    ConstantsAre();
    VectorsModel(WordOf, 32, 8);
  }

  // ---------- Blocks ----------

  lemma VariablesAre(v: Variables<Bv>, h: Registers)
    requires Spells(v.a, h.a) && Spells(v.b, h.b) && Spells(v.c, h.c) && Spells(v.d, h.d) && Spells(v.e, h.e)
    ensures Numbers(WordOf, v) == h
  {
    WordIs(v.a, h.a);
    WordIs(v.b, h.b);
    WordIs(v.c, h.c);
    WordIs(v.d, h.d);
    WordIs(v.e, h.e);
  }

  predicate HasWords(block: Block, ws: seq<u32>) {
    |ws| == 16 && forall t :: 0 <= t < 16 ==> W(block, t) == ws[t]
  }

  // The window holds the words of the block.

  predicate ShowsLow(w: Window<Bv>, ws: seq<u32>) {
    && |ws| == 16 && Spells(w.w0, ws[0]) && Spells(w.w1, ws[1]) && Spells(w.w2, ws[2]) && Spells(w.w3, ws[3])
    && Spells(w.w4, ws[4]) && Spells(w.w5, ws[5]) && Spells(w.w6, ws[6]) && Spells(w.w7, ws[7])
  }

  lemma LowWords(w: Window<Bv>, ws: seq<u32>, block: Block)
    requires ShowsLow(w, ws) && HasWords(block, ws)
    ensures WordOf(w.w0) == W(block, 0) && WordOf(w.w1) == W(block, 1) && WordOf(w.w2) == W(block, 2)
      && WordOf(w.w3) == W(block, 3)
    ensures WordOf(w.w4) == W(block, 4) && WordOf(w.w5) == W(block, 5) && WordOf(w.w6) == W(block, 6)
      && WordOf(w.w7) == W(block, 7)
  {
    WordIs(w.w0, ws[0]);
    WordIs(w.w1, ws[1]);
    WordIs(w.w2, ws[2]);
    WordIs(w.w3, ws[3]);
    WordIs(w.w4, ws[4]);
    WordIs(w.w5, ws[5]);
    WordIs(w.w6, ws[6]);
    WordIs(w.w7, ws[7]);
  }

  predicate ShowsHigh(w: Window<Bv>, ws: seq<u32>) {
    && |ws| == 16 && Spells(w.w8, ws[8]) && Spells(w.w9, ws[9]) && Spells(w.w10, ws[10]) && Spells(w.w11, ws[11])
    && Spells(w.w12, ws[12]) && Spells(w.w13, ws[13]) && Spells(w.w14, ws[14]) && Spells(w.w15, ws[15])
  }

  lemma HighWords(w: Window<Bv>, ws: seq<u32>, block: Block)
    requires ShowsHigh(w, ws) && HasWords(block, ws)
    ensures WordOf(w.w8) == W(block, 8) && WordOf(w.w9) == W(block, 9) && WordOf(w.w10) == W(block, 10)
      && WordOf(w.w11) == W(block, 11)
    ensures WordOf(w.w12) == W(block, 12) && WordOf(w.w13) == W(block, 13)
      && WordOf(w.w14) == W(block, 14) && WordOf(w.w15) == W(block, 15)
  {
    WordIs(w.w8, ws[8]);
    WordIs(w.w9, ws[9]);
    WordIs(w.w10, ws[10]);
    WordIs(w.w11, ws[11]);
    WordIs(w.w12, ws[12]);
    WordIs(w.w13, ws[13]);
    WordIs(w.w14, ws[14]);
    WordIs(w.w15, ws[15]);
  }

  lemma WindowIs(w: Window<Bv>, ws: seq<u32>, block: Block)
    requires ShowsLow(w, ws) && ShowsHigh(w, ws) && HasWords(block, ws)
    ensures WindowAt(WordOf, w, block, 0)
  {
    LowWords(w, ws, block);
    HighWords(w, ws, block);
  }

  /** The compression of a block from what eighty rounds make of the variables. */
  lemma RunCompress(s: Moment<Bv>, s': Moment<Bv>, n: nat, ws: seq<u32>, block: Block, h: Registers, e: Registers,
                    r: Registers)
    requires Run(VectorOps(), s, 0, n) == s' && n == 80 && HasWords(block, ws)
    requires ShowsLow(s.w, ws) && ShowsHigh(s.w, ws)
    requires Numbers(WordOf, s.v) == h && Numbers(WordOf, s'.v) == e && AddRegisters(h, e) == r
    ensures Compress(h, block) == r
  {
    WordsModel();
    WindowIs(s.w, ws, block);
    CompressIs(VectorOps(), WordOf, s, s', block, n);
  }

  // ---------- "abc" ----------

  function AbcFirst(): Moment<Bv> {
    Moment(Variables(0x67452301, 0xefcdab89, 0x98badcfe, 0x10325476, 0xc3d2e1f0),
      Window(0x61626380, 0, 0, 0, 0, 0, 0, 0,
        0, 0, 0, 0, 0, 0, 0, 0x00000018))
  }

  function AbcLast(): Moment<Bv> {
    Moment(Variables(0x42541b35, 0x5738d5e1, 0x21834873, 0x681e6df6, 0xd8fdf6ad),
      Window(0x7e577ce2, 0x07ef2103, 0x8544e945, 0xeb39dab8, 0xc205991a, 0x80aecb63, 0x7d84ca48, 0x7b499b62,
        0x8e8010a8, 0x4b5b8a77, 0x3216b69a, 0x0507e88d, 0x705bee96, 0x60c0ff00, 0xa28362d0, 0x1da6b91d))
  }

  lemma AbcFrom0()
    ensures Run(VectorOps(), Moment(Variables(0x67452301, 0xefcdab89, 0x98badcfe, 0x10325476, 0xc3d2e1f0),
      Window(0x61626380, 0, 0, 0, 0, 0, 0, 0,
        0, 0, 0, 0, 0, 0, 0, 0x00000018)), 0, 8)
      == Moment(Variables(0x9e8c07d4, 0x993e30c1, 0x0ff1f290, 0xb3f52677, 0xf3763846),
      Window(0, 0, 0, 0, 0, 0, 0, 0x00000018,
        0xc2c4c700, 0, 0x00000030, 0x85898e01, 0, 0x00000060, 0x0b131c03, 0x00000030))
  {
    RunNext(VectorOps(), AbcFirst(), 0, 7);
  }

  lemma AbcFrom8()
    ensures Run(VectorOps(), Moment(Variables(0x9e8c07d4, 0x993e30c1, 0x0ff1f290, 0xb3f52677, 0xf3763846),
      Window(0, 0, 0, 0, 0, 0, 0, 0x00000018,
        0xc2c4c700, 0, 0x00000030, 0x85898e01, 0, 0x00000060, 0x0b131c03, 0x00000030)), 8, 8)
      == Moment(Variables(0x20bdd62f, 0x196bee77, 0x644a3da5, 0x1181ed99, 0x18c623f9),
      Window(0xc2c4c700, 0, 0x00000030, 0x85898e01, 0, 0x00000060, 0x0b131c03, 0x00000030,
        0x85898ec1, 0x16263806, 0, 0x00000180, 0x2c4c700c, 0x000000f0, 0x93afb507, 0x5898e048))
  {
  }

  lemma AbcFrom16()
    ensures Run(VectorOps(), Moment(Variables(0x20bdd62f, 0x196bee77, 0x644a3da5, 0x1181ed99, 0x18c623f9),
      Window(0xc2c4c700, 0, 0x00000030, 0x85898e01, 0, 0x00000060, 0x0b131c03, 0x00000030,
        0x85898ec1, 0x16263806, 0, 0x00000180, 0x2c4c700c, 0x000000f0, 0x93afb507, 0x5898e048)), 16, 8)
      == Moment(Variables(0xd541f12d, 0x21283486, 0x0ce88eff, 0x868dec32, 0x7f67875f),
      Window(0x85898ec1, 0x16263806, 0, 0x00000180, 0x2c4c700c, 0x000000f0, 0x93afb507, 0x5898e048,
        0x8e9a9202, 0x00000600, 0xb131c0f0, 0x16263bc6, 0x4ebed41e, 0x626380a1, 0x16263806, 0x000018c0))
  {
  }

  lemma AbcFrom24()
    ensures Run(VectorOps(), Moment(Variables(0xd541f12d, 0x21283486, 0x0ce88eff, 0x868dec32, 0x7f67875f),
      Window(0x85898ec1, 0x16263806, 0, 0x00000180, 0x2c4c700c, 0x000000f0, 0x93afb507, 0x5898e048,
        0x8e9a9202, 0x00000600, 0xb131c0f0, 0x16263bc6, 0x4ebed41e, 0x626380a1, 0x16263806, 0x000018c0)), 24, 8)
      == Moment(Variables(0x3b845d33, 0x1267b407, 0x717eebd7, 0xa0dc2d4b, 0xd2aa1365),
      Window(0x8e9a9202, 0x00000600, 0xb131c0f0, 0x16263bc6, 0x4ebed41e, 0x626380a1, 0x16263806, 0x000018c0,
        0xd2e138c4, 0x00000f00, 0x3afb5079, 0x898e04e5, 0xe2ba3c2b, 0x000060c0, 0x053a37cd, 0x74458547))
  {
  }

  lemma AbcFrom32()
    ensures Run(VectorOps(), Moment(Variables(0x3b845d33, 0x1267b407, 0x717eebd7, 0xa0dc2d4b, 0xd2aa1365),
      Window(0x8e9a9202, 0x00000600, 0xb131c0f0, 0x16263bc6, 0x4ebed41e, 0x626380a1, 0x16263806, 0x000018c0,
        0xd2e138c4, 0x00000f00, 0x3afb5079, 0x898e04e5, 0xe2ba3c2b, 0x000060c0, 0x053a37cd, 0x74458547)), 32, 8)
      == Moment(Variables(0x32de1cba, 0x4c986405, 0xf718e5cf, 0x03d447f6, 0xf72eec32),
      Window(0xd2e138c4, 0x00000f00, 0x3afb5079, 0x898e04e5, 0xe2ba3c2b, 0x000060c0, 0x053a37cd, 0x74458547,
        0xda9415ed, 0x26380a16, 0x626383a1, 0x4ebf54de, 0x3835b44b, 0x0000f600, 0x1e84c7a3, 0x98e04d98))
  {
  }

  lemma AbcFrom40()
    ensures Run(VectorOps(), Moment(Variables(0x32de1cba, 0x4c986405, 0xf718e5cf, 0x03d447f6, 0xf72eec32),
      Window(0xd2e138c4, 0x00000f00, 0x3afb5079, 0x898e04e5, 0xe2ba3c2b, 0x000060c0, 0x053a37cd, 0x74458547,
        0xda9415ed, 0x26380a16, 0x626383a1, 0x4ebf54de, 0x3835b44b, 0x0000f600, 0x1e84c7a3, 0x98e04d98)), 40, 8)
      == Moment(Variables(0xbead02ca, 0xa01b846c, 0x8714787c, 0x503ca382, 0xfb86c6ab),
      Window(0xda9415ed, 0x26380a16, 0x626383a1, 0x4ebf54de, 0x3835b44b, 0x0000f600, 0x1e84c7a3, 0x98e04d98,
        0x651d16a0, 0x62658ca1, 0x458544d6, 0x44584cb7, 0x7ba06619, 0x6380aea2, 0x0ae55269, 0x627b49a1))
  {
  }

  lemma AbcFrom48()
    ensures Run(VectorOps(), Moment(Variables(0xbead02ca, 0xa01b846c, 0x8714787c, 0x503ca382, 0xfb86c6ab),
      Window(0xda9415ed, 0x26380a16, 0x626383a1, 0x4ebf54de, 0x3835b44b, 0x0000f600, 0x1e84c7a3, 0x98e04d98,
        0x651d16a0, 0x62658ca1, 0x458544d6, 0x44584cb7, 0x7ba06619, 0x6380aea2, 0x0ae55269, 0x627b49a1)), 48, 8)
      == Moment(Variables(0x5e6456af, 0x7b71f76d, 0x09fa7c76, 0x792410db, 0x8e11eb59),
      Window(0x651d16a0, 0x62658ca1, 0x458544d6, 0x44584cb7, 0x7ba06619, 0x6380aea2, 0x0ae55269, 0x627b49a1,
        0x7cd45c9d, 0x000f0000, 0xfb50753a, 0xec6765e8, 0xba3c2be2, 0x0060c000, 0x3a37cd05, 0x458546f4))
  {
  }

  lemma AbcFrom56()
    ensures Run(VectorOps(), Moment(Variables(0x5e6456af, 0x7b71f76d, 0x09fa7c76, 0x792410db, 0x8e11eb59),
      Window(0x651d16a0, 0x62658ca1, 0x458544d6, 0x44584cb7, 0x7ba06619, 0x6380aea2, 0x0ae55269, 0x627b49a1,
        0x7cd45c9d, 0x000f0000, 0xfb50753a, 0xec6765e8, 0xba3c2be2, 0x0060c000, 0x3a37cd05, 0x458546f4)), 56, 8)
      == Moment(Variables(0x6b61c9e1, 0xb66c020b, 0x9523272c, 0xf5d5b051, 0x8fd4b796),
      Window(0x7cd45c9d, 0x000f0000, 0xfb50753a, 0xec6765e8, 0xba3c2be2, 0x0060c000, 0x3a37cd05, 0x458546f4,
        0xb8599dd6, 0x380a1a26, 0x01e02203, 0xe7cc3456, 0xe6e60b69, 0x00f60a00, 0x5795ef4f, 0x822e0879))
  {
  }

  lemma AbcFrom64()
    ensures Run(VectorOps(), Moment(Variables(0x6b61c9e1, 0xb66c020b, 0x9523272c, 0xf5d5b051, 0x8fd4b796),
      Window(0x7cd45c9d, 0x000f0000, 0xfb50753a, 0xec6765e8, 0xba3c2be2, 0x0060c000, 0x3a37cd05, 0x458546f4,
        0xb8599dd6, 0x380a1a26, 0x01e02203, 0xe7cc3456, 0xe6e60b69, 0x00f60a00, 0x5795ef4f, 0x822e0879)), 64, 8)
      == Moment(Variables(0x39859de7, 0xc199f8c7, 0x8fc96230, 0x125c24f0, 0xde37534a),
      Window(0xb8599dd6, 0x380a1a26, 0x01e02203, 0xe7cc3456, 0xe6e60b69, 0x00f60a00, 0x5795ef4f, 0x822e0879,
        0x7e577ce2, 0x07ef2103, 0x8544e945, 0xeb39dab8, 0xc205991a, 0x80aecb63, 0x7d84ca48, 0x7b499b62))
  {
  }

  lemma AbcFrom72()
    ensures Run(VectorOps(), Moment(Variables(0x39859de7, 0xc199f8c7, 0x8fc96230, 0x125c24f0, 0xde37534a),
      Window(0xb8599dd6, 0x380a1a26, 0x01e02203, 0xe7cc3456, 0xe6e60b69, 0x00f60a00, 0x5795ef4f, 0x822e0879,
        0x7e577ce2, 0x07ef2103, 0x8544e945, 0xeb39dab8, 0xc205991a, 0x80aecb63, 0x7d84ca48, 0x7b499b62)), 72, 8)
      == Moment(Variables(0x42541b35, 0x5738d5e1, 0x21834873, 0x681e6df6, 0xd8fdf6ad),
      Window(0x7e577ce2, 0x07ef2103, 0x8544e945, 0xeb39dab8, 0xc205991a, 0x80aecb63, 0x7d84ca48, 0x7b499b62,
        0x8e8010a8, 0x4b5b8a77, 0x3216b69a, 0x0507e88d, 0x705bee96, 0x60c0ff00, 0xa28362d0, 0x1da6b91d))
  {
  }

  lemma AbcRun(n: nat)
    requires n == 80
    ensures Run(VectorOps(), AbcFirst(), 0, n) == AbcLast()
  {
    AbcFrom0();
    AbcFrom8();
    AbcFrom16();
    AbcFrom24();
    AbcFrom32();
    AbcFrom40();
    AbcFrom48();
    AbcFrom56();
    AbcFrom64();
    AbcFrom72();
    var s1 := Moment(Variables(0x9e8c07d4, 0x993e30c1, 0x0ff1f290, 0xb3f52677, 0xf3763846),
      Window(0, 0, 0, 0, 0, 0, 0, 0x00000018,
        0xc2c4c700, 0, 0x00000030, 0x85898e01, 0, 0x00000060, 0x0b131c03, 0x00000030));
    var s2 := Moment(Variables(0x20bdd62f, 0x196bee77, 0x644a3da5, 0x1181ed99, 0x18c623f9),
      Window(0xc2c4c700, 0, 0x00000030, 0x85898e01, 0, 0x00000060, 0x0b131c03, 0x00000030,
        0x85898ec1, 0x16263806, 0, 0x00000180, 0x2c4c700c, 0x000000f0, 0x93afb507, 0x5898e048));
    var s3 := Moment(Variables(0xd541f12d, 0x21283486, 0x0ce88eff, 0x868dec32, 0x7f67875f),
      Window(0x85898ec1, 0x16263806, 0, 0x00000180, 0x2c4c700c, 0x000000f0, 0x93afb507, 0x5898e048,
        0x8e9a9202, 0x00000600, 0xb131c0f0, 0x16263bc6, 0x4ebed41e, 0x626380a1, 0x16263806, 0x000018c0));
    var s4 := Moment(Variables(0x3b845d33, 0x1267b407, 0x717eebd7, 0xa0dc2d4b, 0xd2aa1365),
      Window(0x8e9a9202, 0x00000600, 0xb131c0f0, 0x16263bc6, 0x4ebed41e, 0x626380a1, 0x16263806, 0x000018c0,
        0xd2e138c4, 0x00000f00, 0x3afb5079, 0x898e04e5, 0xe2ba3c2b, 0x000060c0, 0x053a37cd, 0x74458547));
    var s5 := Moment(Variables(0x32de1cba, 0x4c986405, 0xf718e5cf, 0x03d447f6, 0xf72eec32),
      Window(0xd2e138c4, 0x00000f00, 0x3afb5079, 0x898e04e5, 0xe2ba3c2b, 0x000060c0, 0x053a37cd, 0x74458547,
        0xda9415ed, 0x26380a16, 0x626383a1, 0x4ebf54de, 0x3835b44b, 0x0000f600, 0x1e84c7a3, 0x98e04d98));
    var s6 := Moment(Variables(0xbead02ca, 0xa01b846c, 0x8714787c, 0x503ca382, 0xfb86c6ab),
      Window(0xda9415ed, 0x26380a16, 0x626383a1, 0x4ebf54de, 0x3835b44b, 0x0000f600, 0x1e84c7a3, 0x98e04d98,
        0x651d16a0, 0x62658ca1, 0x458544d6, 0x44584cb7, 0x7ba06619, 0x6380aea2, 0x0ae55269, 0x627b49a1));
    var s7 := Moment(Variables(0x5e6456af, 0x7b71f76d, 0x09fa7c76, 0x792410db, 0x8e11eb59),
      Window(0x651d16a0, 0x62658ca1, 0x458544d6, 0x44584cb7, 0x7ba06619, 0x6380aea2, 0x0ae55269, 0x627b49a1,
        0x7cd45c9d, 0x000f0000, 0xfb50753a, 0xec6765e8, 0xba3c2be2, 0x0060c000, 0x3a37cd05, 0x458546f4));
    var s8 := Moment(Variables(0x6b61c9e1, 0xb66c020b, 0x9523272c, 0xf5d5b051, 0x8fd4b796),
      Window(0x7cd45c9d, 0x000f0000, 0xfb50753a, 0xec6765e8, 0xba3c2be2, 0x0060c000, 0x3a37cd05, 0x458546f4,
        0xb8599dd6, 0x380a1a26, 0x01e02203, 0xe7cc3456, 0xe6e60b69, 0x00f60a00, 0x5795ef4f, 0x822e0879));
    var s9 := Moment(Variables(0x39859de7, 0xc199f8c7, 0x8fc96230, 0x125c24f0, 0xde37534a),
      Window(0xb8599dd6, 0x380a1a26, 0x01e02203, 0xe7cc3456, 0xe6e60b69, 0x00f60a00, 0x5795ef4f, 0x822e0879,
        0x7e577ce2, 0x07ef2103, 0x8544e945, 0xeb39dab8, 0xc205991a, 0x80aecb63, 0x7d84ca48, 0x7b499b62));
    RunTen(VectorOps(), AbcFirst(), s1, s2, s3, s4, s5, s6, s7, s8, s9, AbcLast(), 8);
  }

  function AbcWords(): seq<u32> {
    [0x61626380, 0, 0, 0, 0, 0, 0, 0,
     0, 0, 0, 0, 0, 0, 0, 0x00000018]
  }

  lemma AbcLow(ws: seq<u32>)
    requires ws == AbcWords()
    ensures ShowsLow(AbcFirst().w, ws)
  {
    assert ws[0] == 0x61626380 && ws[1] == 0 && ws[2] == 0 && ws[3] == 0;
    assert ws[4] == 0 && ws[5] == 0 && ws[6] == 0 && ws[7] == 0;
  }

  lemma AbcHigh(ws: seq<u32>)
    requires ws == AbcWords()
    ensures ShowsHigh(AbcFirst().w, ws)
  {
    assert ws[8] == 0 && ws[9] == 0 && ws[10] == 0 && ws[11] == 0;
    assert ws[12] == 0 && ws[13] == 0 && ws[14] == 0 && ws[15] == 0x00000018;
  }

  lemma AbcEnds()
    ensures Numbers(WordOf, AbcFirst().v) == Registers(0x67452301, 0xefcdab89, 0x98badcfe, 0x10325476, 0xc3d2e1f0)
    ensures Numbers(WordOf, AbcLast().v) == Registers(0x42541b35, 0x5738d5e1, 0x21834873, 0x681e6df6, 0xd8fdf6ad)
  {
    VariablesAre(AbcFirst().v, Registers(0x67452301, 0xefcdab89, 0x98badcfe, 0x10325476, 0xc3d2e1f0));
    VariablesAre(AbcLast().v, Registers(0x42541b35, 0x5738d5e1, 0x21834873, 0x681e6df6, 0xd8fdf6ad));
  }

  lemma AbcSum()
    ensures AddRegisters(Registers(0x67452301, 0xefcdab89, 0x98badcfe, 0x10325476, 0xc3d2e1f0),
      Registers(0x42541b35, 0x5738d5e1, 0x21834873, 0x681e6df6, 0xd8fdf6ad))
      == Registers(0xa9993e36, 0x4706816a, 0xba3e2571, 0x7850c26c, 0x9cd0d89d)
  {
  }

  lemma AbcBlock(block: Block, ws: seq<u32>, n: nat)
    requires ws == AbcWords() && HasWords(block, ws) && n == 80
    ensures Compress(Registers(0x67452301, 0xefcdab89, 0x98badcfe, 0x10325476, 0xc3d2e1f0), block)
      == Registers(0xa9993e36, 0x4706816a, 0xba3e2571, 0x7850c26c, 0x9cd0d89d)
  {
    AbcRun(n);
    AbcLow(ws);
    AbcHigh(ws);
    AbcEnds();
    AbcSum();
    RunCompress(AbcFirst(), AbcLast(), n, ws, block, Registers(0x67452301, 0xefcdab89, 0x98badcfe,
      0x10325476, 0xc3d2e1f0),
      Registers(0x42541b35, 0x5738d5e1, 0x21834873, 0x681e6df6, 0xd8fdf6ad),
      Registers(0xa9993e36, 0x4706816a, 0xba3e2571, 0x7850c26c, 0x9cd0d89d));
  }

  lemma AbcCompress(block: Block)
    requires HasWords(block, AbcWords())
    ensures Compress(Registers(0x67452301, 0xefcdab89, 0x98badcfe, 0x10325476, 0xc3d2e1f0), block)
      == Registers(0xa9993e36, 0x4706816a, 0xba3e2571, 0x7850c26c, 0x9cd0d89d)
  {
    AbcBlock(block, AbcWords(), 80);
  }

  // ---------- The first block of the example of 56 bytes ----------

  function FirstFirst(): Moment<Bv> {
    Moment(Variables(0x67452301, 0xefcdab89, 0x98badcfe, 0x10325476, 0xc3d2e1f0),
      Window(0x61626364, 0x62636465, 0x63646566, 0x64656667, 0x65666768, 0x66676869, 0x6768696a, 0x68696a6b,
        0x696a6b6c, 0x6a6b6c6d, 0x6b6c6d6e, 0x6c6d6e6f, 0x6d6e6f70, 0x6e6f7071, 0x80000000, 0))
  }

  function FirstLast(): Moment<Bv> {
    Moment(Variables(0x8ce34517, 0xd3ad7c25, 0x6b4e1883, 0x74351cd2, 0x86838382),
      Window(0x94936ee9, 0xa8bf495d, 0xa2d62710, 0xf298c4f8, 0x9ab300d1, 0x94f3a53f, 0xd2979ec9, 0x3664b4dd,
        0x4f8ae77d, 0xa7dca537, 0x33f9c85d, 0xb9587341, 0x3b210081, 0x1f56f3ec, 0x550a3d2b, 0x7418c8b3))
  }

  lemma FirstFrom0()
    ensures Run(VectorOps(), Moment(Variables(0x67452301, 0xefcdab89, 0x98badcfe, 0x10325476, 0xc3d2e1f0),
      Window(0x61626364, 0x62636465, 0x63646566, 0x64656667, 0x65666768, 0x66676869, 0x6768696a, 0x68696a6b,
        0x696a6b6c, 0x6a6b6c6d, 0x6b6c6d6e, 0x6c6d6e6f, 0x6d6e6f70, 0x6e6f7071, 0x80000000, 0)), 0, 8)
      == Moment(Variables(0x45833f0f, 0xdb04cb58, 0x65ae1462, 0xccfd2b96, 0x0b13dbab),
      Window(0x696a6b6c, 0x6a6b6c6d, 0x6b6c6d6e, 0x6c6d6e6f, 0x6d6e6f70, 0x6e6f7071, 0x80000000, 0,
        0x0a063a3e, 0xd8dadcdf, 0xdadcdec0, 0xc8d2b4be, 0x6f757b5b, 0x757b5967, 0x8da16d70, 0xdaeefaba))
  {
    RunNext(VectorOps(), FirstFirst(), 0, 7);
  }

  lemma FirstFrom8()
    ensures Run(VectorOps(), Moment(Variables(0x45833f0f, 0xdb04cb58, 0x65ae1462, 0xccfd2b96, 0x0b13dbab),
      Window(0x696a6b6c, 0x6a6b6c6d, 0x6b6c6d6e, 0x6c6d6e6f, 0x6d6e6f70, 0x6e6f7071, 0x80000000, 0,
        0x0a063a3e, 0xd8dadcdf, 0xdadcdec0, 0xc8d2b4be, 0x6f757b5b, 0x757b5967, 0x8da16d70, 0xdaeefaba)), 8, 8)
      == Moment(Variables(0x42637e39, 0xb2e7a8be, 0x4cbe52a1, 0xa180d207, 0xb867b2a8),
      Window(0x0a063a3e, 0xd8dadcdf, 0xdadcdec0, 0xc8d2b4be, 0x6f757b5b, 0x757b5967, 0x8da16d70, 0xdaeefaba,
        0xfaf6cab6, 0xa6fb675a, 0x0c604cc8, 0x604cc02c, 0x49c0e6e2, 0x2ee8cbbc, 0xcfd72ec4, 0x97e9810e))
  {
  }

  lemma FirstFrom16()
    ensures Run(VectorOps(), Moment(Variables(0x42637e39, 0xb2e7a8be, 0x4cbe52a1, 0xa180d207, 0xb867b2a8),
      Window(0x0a063a3e, 0xd8dadcdf, 0xdadcdec0, 0xc8d2b4be, 0x6f757b5b, 0x757b5967, 0x8da16d70, 0xdaeefaba,
        0xfaf6cab6, 0xa6fb675a, 0x0c604cc8, 0x604cc02c, 0x49c0e6e2, 0x2ee8cbbc, 0xcfd72ec4, 0x97e9810e)), 16, 8)
      == Moment(Variables(0xfd224575, 0xe2b92dc4, 0xc254445d, 0x6560db69, 0x9b111594),
      Window(0xfaf6cab6, 0xa6fb675a, 0x0c604cc8, 0x604cc02c, 0x49c0e6e2, 0x2ee8cbbc, 0xcfd72ec4, 0x97e9810e,
        0x0989cbe8, 0xf24843fe, 0x5c40d0ba, 0xa8d9cc3b, 0xb2b9666e, 0xba7b71b7, 0x20b28a72, 0xb28af500))
  {
  }

  lemma FirstFrom24()
    ensures Run(VectorOps(), Moment(Variables(0xfd224575, 0xe2b92dc4, 0xc254445d, 0x6560db69, 0x9b111594),
      Window(0xfaf6cab6, 0xa6fb675a, 0x0c604cc8, 0x604cc02c, 0x49c0e6e2, 0x2ee8cbbc, 0xcfd72ec4, 0x97e9810e,
        0x0989cbe8, 0xf24843fe, 0x5c40d0ba, 0xa8d9cc3b, 0xb2b9666e, 0xba7b71b7, 0x20b28a72, 0xb28af500)), 24, 8)
      == Moment(Variables(0x52e31f60, 0xa9c84bec, 0x816d15ec, 0x78448908, 0x3549a991),
      Window(0x0989cbe8, 0xf24843fe, 0x5c40d0ba, 0xa8d9cc3b, 0xb2b9666e, 0xba7b71b7, 0x20b28a72, 0xb28af500,
        0x8ac87842, 0x289addf4, 0x56d51f21, 0xd96b7fd2, 0x3868e778, 0xab5e4848, 0x7f0e2118, 0xde87a111))
  {
  }

  lemma FirstFrom32()
    ensures Run(VectorOps(), Moment(Variables(0x52e31f60, 0xa9c84bec, 0x816d15ec, 0x78448908, 0x3549a991),
      Window(0x0989cbe8, 0xf24843fe, 0x5c40d0ba, 0xa8d9cc3b, 0xb2b9666e, 0xba7b71b7, 0x20b28a72, 0xb28af500,
        0x8ac87842, 0x289addf4, 0x56d51f21, 0xd96b7fd2, 0x3868e778, 0xab5e4848, 0x7f0e2118, 0xde87a111)), 32, 8)
      == Moment(Variables(0xadeb7478, 0x24957f22, 0x50fe1eba, 0x564cff26, 0xaadf0cbb),
      Window(0x8ac87842, 0x289addf4, 0x56d51f21, 0xd96b7fd2, 0x3868e778, 0xab5e4848, 0x7f0e2118, 0xde87a111,
        0xe8be56b0, 0x1a0ae652, 0xcd5611c8, 0x46ef29dc, 0x60d3da6d, 0xddf3ba6e, 0x2737f5e9, 0x4888a710))
  {
  }

  lemma FirstFrom40()
    ensures Run(VectorOps(), Moment(Variables(0xadeb7478, 0x24957f22, 0x50fe1eba, 0x564cff26, 0xaadf0cbb),
      Window(0x8ac87842, 0x289addf4, 0x56d51f21, 0xd96b7fd2, 0x3868e778, 0xab5e4848, 0x7f0e2118, 0xde87a111,
        0xe8be56b0, 0x1a0ae652, 0xcd5611c8, 0x46ef29dc, 0x60d3da6d, 0xddf3ba6e, 0x2737f5e9, 0x4888a710)), 40, 8)
      == Moment(Variables(0xc8a69090, 0xa2ad4f02, 0xb1ba8907, 0x26307a99, 0x58cfa558),
      Window(0xe8be56b0, 0x1a0ae652, 0xcd5611c8, 0x46ef29dc, 0x60d3da6d, 0xddf3ba6e, 0x2737f5e9, 0x4888a710,
        0xd2a1177b, 0x9999633b, 0xd6c69d03, 0xccf6127b, 0x7c58fe6d, 0xfdd99c68, 0xf8e32074, 0xe0ba3c7d))
  {
  }

  lemma FirstFrom48()
    ensures Run(VectorOps(), Moment(Variables(0xc8a69090, 0xa2ad4f02, 0xb1ba8907, 0x26307a99, 0x58cfa558),
      Window(0xe8be56b0, 0x1a0ae652, 0xcd5611c8, 0x46ef29dc, 0x60d3da6d, 0xddf3ba6e, 0x2737f5e9, 0x4888a710,
        0xd2a1177b, 0x9999633b, 0xd6c69d03, 0xccf6127b, 0x7c58fe6d, 0xfdd99c68, 0xf8e32074, 0xe0ba3c7d)), 48, 8)
      == Moment(Variables(0x776c3910, 0x36d1230a, 0x7b7aa56c, 0x33a24b84, 0x234b9db2),
      Window(0xd2a1177b, 0x9999633b, 0xd6c69d03, 0xccf6127b, 0x7c58fe6d, 0xfdd99c68, 0xf8e32074, 0xe0ba3c7d,
        0x152198d6, 0x7b3f1982, 0x37f2d5b7, 0x8596323e, 0x810790d6, 0xbea0a942, 0x11c7e1b1, 0x6158d101))
  {
  }

  lemma FirstFrom56()
    ensures Run(VectorOps(), Moment(Variables(0x776c3910, 0x36d1230a, 0x7b7aa56c, 0x33a24b84, 0x234b9db2),
      Window(0xd2a1177b, 0x9999633b, 0xd6c69d03, 0xccf6127b, 0x7c58fe6d, 0xfdd99c68, 0xf8e32074, 0xe0ba3c7d,
        0x152198d6, 0x7b3f1982, 0x37f2d5b7, 0x8596323e, 0x810790d6, 0xbea0a942, 0x11c7e1b1, 0x6158d101)), 56, 8)
      == Moment(Variables(0x513f9ca0, 0x2bfaf7a8, 0x10203537, 0xcd8952c4, 0xe7bddd70),
      Window(0x152198d6, 0x7b3f1982, 0x37f2d5b7, 0x8596323e, 0x810790d6, 0xbea0a942, 0x11c7e1b1, 0x6158d101,
        0x5fcd77d9, 0x7f2f12e6, 0xf868cfb1, 0xd6e997e9, 0xf526b852, 0xb7578dcc, 0x55d99df4, 0x1ff69958))
  {
  }

  lemma FirstFrom64()
    ensures Run(VectorOps(), Moment(Variables(0x513f9ca0, 0x2bfaf7a8, 0x10203537, 0xcd8952c4, 0xe7bddd70),
      Window(0x152198d6, 0x7b3f1982, 0x37f2d5b7, 0x8596323e, 0x810790d6, 0xbea0a942, 0x11c7e1b1, 0x6158d101,
        0x5fcd77d9, 0x7f2f12e6, 0xf868cfb1, 0xd6e997e9, 0xf526b852, 0xb7578dcc, 0x55d99df4, 0x1ff69958)), 64, 8)
      == Moment(Variables(0x84065712, 0x112b96e3, 0xff7dbbff, 0x4b1ec1ef, 0x5b45f27f),
      Window(0x5fcd77d9, 0x7f2f12e6, 0xf868cfb1, 0xd6e997e9, 0xf526b852, 0xb7578dcc, 0x55d99df4, 0x1ff69958,
        0x94936ee9, 0xa8bf495d, 0xa2d62710, 0xf298c4f8, 0x9ab300d1, 0x94f3a53f, 0xd2979ec9, 0x3664b4dd))
  {
  }

  lemma FirstFrom72()
    ensures Run(VectorOps(), Moment(Variables(0x84065712, 0x112b96e3, 0xff7dbbff, 0x4b1ec1ef, 0x5b45f27f),
      Window(0x5fcd77d9, 0x7f2f12e6, 0xf868cfb1, 0xd6e997e9, 0xf526b852, 0xb7578dcc, 0x55d99df4, 0x1ff69958,
        0x94936ee9, 0xa8bf495d, 0xa2d62710, 0xf298c4f8, 0x9ab300d1, 0x94f3a53f, 0xd2979ec9, 0x3664b4dd)), 72, 8)
      == Moment(Variables(0x8ce34517, 0xd3ad7c25, 0x6b4e1883, 0x74351cd2, 0x86838382),
      Window(0x94936ee9, 0xa8bf495d, 0xa2d62710, 0xf298c4f8, 0x9ab300d1, 0x94f3a53f, 0xd2979ec9, 0x3664b4dd,
        0x4f8ae77d, 0xa7dca537, 0x33f9c85d, 0xb9587341, 0x3b210081, 0x1f56f3ec, 0x550a3d2b, 0x7418c8b3))
  {
  }

  lemma FirstRun(n: nat)
    requires n == 80
    ensures Run(VectorOps(), FirstFirst(), 0, n) == FirstLast()
  {
    FirstFrom0();
    FirstFrom8();
    FirstFrom16();
    FirstFrom24();
    FirstFrom32();
    FirstFrom40();
    FirstFrom48();
    FirstFrom56();
    FirstFrom64();
    FirstFrom72();
    var s1 := Moment(Variables(0x45833f0f, 0xdb04cb58, 0x65ae1462, 0xccfd2b96, 0x0b13dbab),
      Window(0x696a6b6c, 0x6a6b6c6d, 0x6b6c6d6e, 0x6c6d6e6f, 0x6d6e6f70, 0x6e6f7071, 0x80000000, 0,
        0x0a063a3e, 0xd8dadcdf, 0xdadcdec0, 0xc8d2b4be, 0x6f757b5b, 0x757b5967, 0x8da16d70, 0xdaeefaba));
    var s2 := Moment(Variables(0x42637e39, 0xb2e7a8be, 0x4cbe52a1, 0xa180d207, 0xb867b2a8),
      Window(0x0a063a3e, 0xd8dadcdf, 0xdadcdec0, 0xc8d2b4be, 0x6f757b5b, 0x757b5967, 0x8da16d70, 0xdaeefaba,
        0xfaf6cab6, 0xa6fb675a, 0x0c604cc8, 0x604cc02c, 0x49c0e6e2, 0x2ee8cbbc, 0xcfd72ec4, 0x97e9810e));
    var s3 := Moment(Variables(0xfd224575, 0xe2b92dc4, 0xc254445d, 0x6560db69, 0x9b111594),
      Window(0xfaf6cab6, 0xa6fb675a, 0x0c604cc8, 0x604cc02c, 0x49c0e6e2, 0x2ee8cbbc, 0xcfd72ec4, 0x97e9810e,
        0x0989cbe8, 0xf24843fe, 0x5c40d0ba, 0xa8d9cc3b, 0xb2b9666e, 0xba7b71b7, 0x20b28a72, 0xb28af500));
    var s4 := Moment(Variables(0x52e31f60, 0xa9c84bec, 0x816d15ec, 0x78448908, 0x3549a991),
      Window(0x0989cbe8, 0xf24843fe, 0x5c40d0ba, 0xa8d9cc3b, 0xb2b9666e, 0xba7b71b7, 0x20b28a72, 0xb28af500,
        0x8ac87842, 0x289addf4, 0x56d51f21, 0xd96b7fd2, 0x3868e778, 0xab5e4848, 0x7f0e2118, 0xde87a111));
    var s5 := Moment(Variables(0xadeb7478, 0x24957f22, 0x50fe1eba, 0x564cff26, 0xaadf0cbb),
      Window(0x8ac87842, 0x289addf4, 0x56d51f21, 0xd96b7fd2, 0x3868e778, 0xab5e4848, 0x7f0e2118, 0xde87a111,
        0xe8be56b0, 0x1a0ae652, 0xcd5611c8, 0x46ef29dc, 0x60d3da6d, 0xddf3ba6e, 0x2737f5e9, 0x4888a710));
    var s6 := Moment(Variables(0xc8a69090, 0xa2ad4f02, 0xb1ba8907, 0x26307a99, 0x58cfa558),
      Window(0xe8be56b0, 0x1a0ae652, 0xcd5611c8, 0x46ef29dc, 0x60d3da6d, 0xddf3ba6e, 0x2737f5e9, 0x4888a710,
        0xd2a1177b, 0x9999633b, 0xd6c69d03, 0xccf6127b, 0x7c58fe6d, 0xfdd99c68, 0xf8e32074, 0xe0ba3c7d));
    var s7 := Moment(Variables(0x776c3910, 0x36d1230a, 0x7b7aa56c, 0x33a24b84, 0x234b9db2),
      Window(0xd2a1177b, 0x9999633b, 0xd6c69d03, 0xccf6127b, 0x7c58fe6d, 0xfdd99c68, 0xf8e32074, 0xe0ba3c7d,
        0x152198d6, 0x7b3f1982, 0x37f2d5b7, 0x8596323e, 0x810790d6, 0xbea0a942, 0x11c7e1b1, 0x6158d101));
    var s8 := Moment(Variables(0x513f9ca0, 0x2bfaf7a8, 0x10203537, 0xcd8952c4, 0xe7bddd70),
      Window(0x152198d6, 0x7b3f1982, 0x37f2d5b7, 0x8596323e, 0x810790d6, 0xbea0a942, 0x11c7e1b1, 0x6158d101,
        0x5fcd77d9, 0x7f2f12e6, 0xf868cfb1, 0xd6e997e9, 0xf526b852, 0xb7578dcc, 0x55d99df4, 0x1ff69958));
    var s9 := Moment(Variables(0x84065712, 0x112b96e3, 0xff7dbbff, 0x4b1ec1ef, 0x5b45f27f),
      Window(0x5fcd77d9, 0x7f2f12e6, 0xf868cfb1, 0xd6e997e9, 0xf526b852, 0xb7578dcc, 0x55d99df4, 0x1ff69958,
        0x94936ee9, 0xa8bf495d, 0xa2d62710, 0xf298c4f8, 0x9ab300d1, 0x94f3a53f, 0xd2979ec9, 0x3664b4dd));
    RunTen(VectorOps(), FirstFirst(), s1, s2, s3, s4, s5, s6, s7, s8, s9, FirstLast(), 8);
  }

  function FirstWords(): seq<u32> {
    [0x61626364, 0x62636465, 0x63646566, 0x64656667, 0x65666768, 0x66676869, 0x6768696a, 0x68696a6b,
     0x696a6b6c, 0x6a6b6c6d, 0x6b6c6d6e, 0x6c6d6e6f, 0x6d6e6f70, 0x6e6f7071, 0x80000000, 0]
  }

  lemma FirstLow(ws: seq<u32>)
    requires ws == FirstWords()
    ensures ShowsLow(FirstFirst().w, ws)
  {
    assert ws[0] == 0x61626364 && ws[1] == 0x62636465 && ws[2] == 0x63646566 && ws[3] == 0x64656667;
    assert ws[4] == 0x65666768 && ws[5] == 0x66676869 && ws[6] == 0x6768696a && ws[7] == 0x68696a6b;
  }

  lemma FirstHigh(ws: seq<u32>)
    requires ws == FirstWords()
    ensures ShowsHigh(FirstFirst().w, ws)
  {
    assert ws[8] == 0x696a6b6c && ws[9] == 0x6a6b6c6d && ws[10] == 0x6b6c6d6e && ws[11] == 0x6c6d6e6f;
    assert ws[12] == 0x6d6e6f70 && ws[13] == 0x6e6f7071 && ws[14] == 0x80000000 && ws[15] == 0;
  }

  lemma FirstEnds()
    ensures Numbers(WordOf, FirstFirst().v) == Registers(0x67452301, 0xefcdab89, 0x98badcfe, 0x10325476, 0xc3d2e1f0)
    ensures Numbers(WordOf, FirstLast().v) == Registers(0x8ce34517, 0xd3ad7c25, 0x6b4e1883, 0x74351cd2, 0x86838382)
  {
    VariablesAre(FirstFirst().v, Registers(0x67452301, 0xefcdab89, 0x98badcfe, 0x10325476, 0xc3d2e1f0));
    VariablesAre(FirstLast().v, Registers(0x8ce34517, 0xd3ad7c25, 0x6b4e1883, 0x74351cd2, 0x86838382));
  }

  lemma FirstSum()
    ensures AddRegisters(Registers(0x67452301, 0xefcdab89, 0x98badcfe, 0x10325476, 0xc3d2e1f0),
      Registers(0x8ce34517, 0xd3ad7c25, 0x6b4e1883, 0x74351cd2, 0x86838382))
      == Registers(0xf4286818, 0xc37b27ae, 0x0408f581, 0x84677148, 0x4a566572)
  {
  }

  lemma FirstBlock(block: Block, ws: seq<u32>, n: nat)
    requires ws == FirstWords() && HasWords(block, ws) && n == 80
    ensures Compress(Registers(0x67452301, 0xefcdab89, 0x98badcfe, 0x10325476, 0xc3d2e1f0), block)
      == Registers(0xf4286818, 0xc37b27ae, 0x0408f581, 0x84677148, 0x4a566572)
  {
    FirstRun(n);
    FirstLow(ws);
    FirstHigh(ws);
    FirstEnds();
    FirstSum();
    RunCompress(FirstFirst(), FirstLast(), n, ws, block, Registers(0x67452301, 0xefcdab89, 0x98badcfe,
      0x10325476, 0xc3d2e1f0),
      Registers(0x8ce34517, 0xd3ad7c25, 0x6b4e1883, 0x74351cd2, 0x86838382),
      Registers(0xf4286818, 0xc37b27ae, 0x0408f581, 0x84677148, 0x4a566572));
  }

  lemma FirstCompress(block: Block)
    requires HasWords(block, FirstWords())
    ensures Compress(Registers(0x67452301, 0xefcdab89, 0x98badcfe, 0x10325476, 0xc3d2e1f0), block)
      == Registers(0xf4286818, 0xc37b27ae, 0x0408f581, 0x84677148, 0x4a566572)
  {
    FirstBlock(block, FirstWords(), 80);
  }

  // ---------- The second block ----------

  function SecondFirst(): Moment<Bv> {
    Moment(Variables(0xf4286818, 0xc37b27ae, 0x0408f581, 0x84677148, 0x4a566572),
      Window(0, 0, 0, 0, 0, 0, 0, 0,
        0, 0, 0, 0, 0, 0, 0, 0x000001c0))
  }

  function SecondLast(): Moment<Bv> {
    Moment(Variables(0x906fd62c, 0x58c0aac0, 0xb6a55520, 0x74e9b89d, 0x9af00b7f),
      Window(0x00e0e000, 0x70ee0000, 0x0ee35800, 0x369ee000, 0xe0000000, 0x0ed1a800, 0x00e00000, 0xcea51001,
        0x000ee000, 0xd800e000, 0x80e0e003, 0x4f1c0000, 0, 0x0e0d5807, 0xee380000, 0x7518c803))
  }

  lemma SecondFrom0()
    ensures Run(VectorOps(), Moment(Variables(0xf4286818, 0xc37b27ae, 0x0408f581, 0x84677148, 0x4a566572),
      Window(0, 0, 0, 0, 0, 0, 0, 0,
        0, 0, 0, 0, 0, 0, 0, 0x000001c0)), 0, 8)
      == Moment(Variables(0xc6946813, 0xe7fa0377, 0x1510e457, 0xd078d09d, 0xbbbdd0f1),
      Window(0, 0, 0, 0, 0, 0, 0, 0x000001c0,
        0, 0, 0x00000380, 0, 0, 0x00000700, 0, 0x00000380))
  {
    RunNext(VectorOps(), SecondFirst(), 0, 7);
  }

  lemma SecondFrom8()
    ensures Run(VectorOps(), Moment(Variables(0xc6946813, 0xe7fa0377, 0x1510e457, 0xd078d09d, 0xbbbdd0f1),
      Window(0, 0, 0, 0, 0, 0, 0, 0x000001c0,
        0, 0, 0x00000380, 0, 0, 0x00000700, 0, 0x00000380)), 8, 8)
      == Moment(Variables(0xd9772360, 0x258b0baa, 0x2898132a, 0xffb35eef, 0xd0e89e4b),
      Window(0, 0, 0x00000380, 0, 0, 0x00000700, 0, 0x00000380,
        0x00000e00, 0, 0, 0x00001c00, 0, 0x00000d80, 0x00003800, 0x00000480))
  {
  }

  lemma SecondFrom16()
    ensures Run(VectorOps(), Moment(Variables(0xd9772360, 0x258b0baa, 0x2898132a, 0xffb35eef, 0xd0e89e4b),
      Window(0, 0, 0x00000380, 0, 0, 0x00000700, 0, 0x00000380,
        0x00000e00, 0, 0, 0x00001c00, 0, 0x00000d80, 0x00003800, 0x00000480)), 16, 8)
      == Moment(Variables(0x8fbaa5b9, 0x9ad594b9, 0x7ba1c02f, 0xcdd20bd7, 0xf6264854),
      Window(0x00000e00, 0, 0, 0x00001c00, 0, 0x00000d80, 0x00003800, 0x00000480,
        0, 0x00007000, 0x00000e00, 0x00003600, 0x0000e000, 0x00000e00, 0, 0x0001ce00))
  {
  }

  lemma SecondFrom24()
    ensures Run(VectorOps(), Moment(Variables(0x8fbaa5b9, 0x9ad594b9, 0x7ba1c02f, 0xcdd20bd7, 0xf6264854),
      Window(0x00000e00, 0, 0, 0x00001c00, 0, 0x00000d80, 0x00003800, 0x00000480,
        0, 0x00007000, 0x00000e00, 0x00003600, 0x0000e000, 0x00000e00, 0, 0x0001ce00)), 24, 8)
      == Moment(Variables(0x8a4af384, 0x17986223, 0x028bec42, 0xc90a6f97, 0xd7105b6b),
      Window(0, 0x00007000, 0x00000e00, 0x00003600, 0x0000e000, 0x00000e00, 0, 0x0001ce00,
        0, 0x0000d800, 0x00038000, 0x00004f00, 0, 0x00070e00, 0x0000ee00, 0x00037500))
  {
  }

  lemma SecondFrom32()
    ensures Run(VectorOps(), Moment(Variables(0x8a4af384, 0x17986223, 0x028bec42, 0xc90a6f97, 0xd7105b6b),
      Window(0, 0x00007000, 0x00000e00, 0x00003600, 0x0000e000, 0x00000e00, 0, 0x0001ce00,
        0, 0x0000d800, 0x00038000, 0x00004f00, 0, 0x00070e00, 0x0000ee00, 0x00037500)), 32, 8)
      == Moment(Variables(0x03bb6310, 0x84e2a5f2, 0x21f56e03, 0xb3bd6b84, 0x1a5b6901),
      Window(0, 0x0000d800, 0x00038000, 0x00004f00, 0, 0x00070e00, 0x0000ee00, 0x00037500,
        0x000e0000, 0x0000e000, 0x00003600, 0x001cee00, 0, 0x000df000, 0x00380000, 0x0004c600))
  {
  }

  lemma SecondFrom40()
    ensures Run(VectorOps(), Moment(Variables(0x03bb6310, 0x84e2a5f2, 0x21f56e03, 0xb3bd6b84, 0x1a5b6901),
      Window(0, 0x0000d800, 0x00038000, 0x00004f00, 0, 0x00070e00, 0x0000ee00, 0x00037500,
        0x000e0000, 0x0000e000, 0x00003600, 0x001cee00, 0, 0x000df000, 0x00380000, 0x0004c600)), 40, 8)
      == Moment(Variables(0x46f93b68, 0x7316056a, 0xb0f40cfa, 0xcf2bb5eb, 0x7b074f58),
      Window(0x000e0000, 0x0000e000, 0x00003600, 0x001cee00, 0, 0x000df000, 0x00380000, 0x0004c600,
        0x0000e000, 0x0070ee00, 0x000ee000, 0x00369e00, 0x00e00000, 0x000ed600, 0x0000e000, 0x01cea600))
  {
  }

  lemma SecondFrom48()
    ensures Run(VectorOps(), Moment(Variables(0x46f93b68, 0x7316056a, 0xb0f40cfa, 0xcf2bb5eb, 0x7b074f58),
      Window(0x000e0000, 0x0000e000, 0x00003600, 0x001cee00, 0, 0x000df000, 0x00380000, 0x0004c600,
        0x0000e000, 0x0070ee00, 0x000ee000, 0x00369e00, 0x00e00000, 0x000ed600, 0x0000e000, 0x01cea600)), 48, 8)
      == Moment(Variables(0x6da72e7f, 0x2bdbb8cb, 0x10c7596f, 0x05e5f88a, 0x627ef507),
      Window(0x0000e000, 0x0070ee00, 0x000ee000, 0x00369e00, 0x00e00000, 0x000ed600, 0x0000e000, 0x01cea600,
        0, 0x00d80000, 0x0380e000, 0x004f0000, 0, 0x070e0000, 0x00ee0000, 0x03751c00))
  {
  }

  lemma SecondFrom56()
    ensures Run(VectorOps(), Moment(Variables(0x6da72e7f, 0x2bdbb8cb, 0x10c7596f, 0x05e5f88a, 0x627ef507),
      Window(0x0000e000, 0x0070ee00, 0x000ee000, 0x00369e00, 0x00e00000, 0x000ed600, 0x0000e000, 0x01cea600,
        0, 0x00d80000, 0x0380e000, 0x004f0000, 0, 0x070e0000, 0x00ee0000, 0x03751c00)), 56, 8)
      == Moment(Variables(0xd504902b, 0xf66d9bf4, 0x24d85327, 0xdeaac406, 0xe996063d),
      Window(0, 0x00d80000, 0x0380e000, 0x004f0000, 0, 0x070e0000, 0x00ee0000, 0x03751c00,
        0x0e000000, 0x00e0e000, 0x00363800, 0x1cee9000, 0, 0x0df09000, 0x3800e000, 0x04c77400))
  {
  }

  lemma SecondFrom64()
    ensures Run(VectorOps(), Moment(Variables(0xd504902b, 0xf66d9bf4, 0x24d85327, 0xdeaac406, 0xe996063d),
      Window(0, 0x00d80000, 0x0380e000, 0x004f0000, 0, 0x070e0000, 0x00ee0000, 0x03751c00,
        0x0e000000, 0x00e0e000, 0x00363800, 0x1cee9000, 0, 0x0df09000, 0x3800e000, 0x04c77400)), 64, 8)
      == Moment(Variables(0xae1b8e7b, 0x8b2c7573, 0x66277459, 0xddb0158e, 0xfd889aef),
      Window(0x0e000000, 0x00e0e000, 0x00363800, 0x1cee9000, 0, 0x0df09000, 0x3800e000, 0x04c77400,
        0x00e0e000, 0x70ee0000, 0x0ee35800, 0x369ee000, 0xe0000000, 0x0ed1a800, 0x00e00000, 0xcea51001))
  {
  }

  lemma SecondFrom72()
    ensures Run(VectorOps(), Moment(Variables(0xae1b8e7b, 0x8b2c7573, 0x66277459, 0xddb0158e, 0xfd889aef),
      Window(0x0e000000, 0x00e0e000, 0x00363800, 0x1cee9000, 0, 0x0df09000, 0x3800e000, 0x04c77400,
        0x00e0e000, 0x70ee0000, 0x0ee35800, 0x369ee000, 0xe0000000, 0x0ed1a800, 0x00e00000, 0xcea51001)), 72, 8)
      == Moment(Variables(0x906fd62c, 0x58c0aac0, 0xb6a55520, 0x74e9b89d, 0x9af00b7f),
      Window(0x00e0e000, 0x70ee0000, 0x0ee35800, 0x369ee000, 0xe0000000, 0x0ed1a800, 0x00e00000, 0xcea51001,
        0x000ee000, 0xd800e000, 0x80e0e003, 0x4f1c0000, 0, 0x0e0d5807, 0xee380000, 0x7518c803))
  {
  }

  lemma SecondRun(n: nat)
    requires n == 80
    ensures Run(VectorOps(), SecondFirst(), 0, n) == SecondLast()
  {
    SecondFrom0();
    SecondFrom8();
    SecondFrom16();
    SecondFrom24();
    SecondFrom32();
    SecondFrom40();
    SecondFrom48();
    SecondFrom56();
    SecondFrom64();
    SecondFrom72();
    var s1 := Moment(Variables(0xc6946813, 0xe7fa0377, 0x1510e457, 0xd078d09d, 0xbbbdd0f1),
      Window(0, 0, 0, 0, 0, 0, 0, 0x000001c0,
        0, 0, 0x00000380, 0, 0, 0x00000700, 0, 0x00000380));
    var s2 := Moment(Variables(0xd9772360, 0x258b0baa, 0x2898132a, 0xffb35eef, 0xd0e89e4b),
      Window(0, 0, 0x00000380, 0, 0, 0x00000700, 0, 0x00000380,
        0x00000e00, 0, 0, 0x00001c00, 0, 0x00000d80, 0x00003800, 0x00000480));
    var s3 := Moment(Variables(0x8fbaa5b9, 0x9ad594b9, 0x7ba1c02f, 0xcdd20bd7, 0xf6264854),
      Window(0x00000e00, 0, 0, 0x00001c00, 0, 0x00000d80, 0x00003800, 0x00000480,
        0, 0x00007000, 0x00000e00, 0x00003600, 0x0000e000, 0x00000e00, 0, 0x0001ce00));
    var s4 := Moment(Variables(0x8a4af384, 0x17986223, 0x028bec42, 0xc90a6f97, 0xd7105b6b),
      Window(0, 0x00007000, 0x00000e00, 0x00003600, 0x0000e000, 0x00000e00, 0, 0x0001ce00,
        0, 0x0000d800, 0x00038000, 0x00004f00, 0, 0x00070e00, 0x0000ee00, 0x00037500));
    var s5 := Moment(Variables(0x03bb6310, 0x84e2a5f2, 0x21f56e03, 0xb3bd6b84, 0x1a5b6901),
      Window(0, 0x0000d800, 0x00038000, 0x00004f00, 0, 0x00070e00, 0x0000ee00, 0x00037500,
        0x000e0000, 0x0000e000, 0x00003600, 0x001cee00, 0, 0x000df000, 0x00380000, 0x0004c600));
    var s6 := Moment(Variables(0x46f93b68, 0x7316056a, 0xb0f40cfa, 0xcf2bb5eb, 0x7b074f58),
      Window(0x000e0000, 0x0000e000, 0x00003600, 0x001cee00, 0, 0x000df000, 0x00380000, 0x0004c600,
        0x0000e000, 0x0070ee00, 0x000ee000, 0x00369e00, 0x00e00000, 0x000ed600, 0x0000e000, 0x01cea600));
    var s7 := Moment(Variables(0x6da72e7f, 0x2bdbb8cb, 0x10c7596f, 0x05e5f88a, 0x627ef507),
      Window(0x0000e000, 0x0070ee00, 0x000ee000, 0x00369e00, 0x00e00000, 0x000ed600, 0x0000e000, 0x01cea600,
        0, 0x00d80000, 0x0380e000, 0x004f0000, 0, 0x070e0000, 0x00ee0000, 0x03751c00));
    var s8 := Moment(Variables(0xd504902b, 0xf66d9bf4, 0x24d85327, 0xdeaac406, 0xe996063d),
      Window(0, 0x00d80000, 0x0380e000, 0x004f0000, 0, 0x070e0000, 0x00ee0000, 0x03751c00,
        0x0e000000, 0x00e0e000, 0x00363800, 0x1cee9000, 0, 0x0df09000, 0x3800e000, 0x04c77400));
    var s9 := Moment(Variables(0xae1b8e7b, 0x8b2c7573, 0x66277459, 0xddb0158e, 0xfd889aef),
      Window(0x0e000000, 0x00e0e000, 0x00363800, 0x1cee9000, 0, 0x0df09000, 0x3800e000, 0x04c77400,
        0x00e0e000, 0x70ee0000, 0x0ee35800, 0x369ee000, 0xe0000000, 0x0ed1a800, 0x00e00000, 0xcea51001));
    RunTen(VectorOps(), SecondFirst(), s1, s2, s3, s4, s5, s6, s7, s8, s9, SecondLast(), 8);
  }

  function SecondWords(): seq<u32> {
    [0, 0, 0, 0, 0, 0, 0, 0,
     0, 0, 0, 0, 0, 0, 0, 0x000001c0]
  }

  lemma SecondLow(ws: seq<u32>)
    requires ws == SecondWords()
    ensures ShowsLow(SecondFirst().w, ws)
  {
    assert ws[0] == 0 && ws[1] == 0 && ws[2] == 0 && ws[3] == 0;
    assert ws[4] == 0 && ws[5] == 0 && ws[6] == 0 && ws[7] == 0;
  }

  lemma SecondHigh(ws: seq<u32>)
    requires ws == SecondWords()
    ensures ShowsHigh(SecondFirst().w, ws)
  {
    assert ws[8] == 0 && ws[9] == 0 && ws[10] == 0 && ws[11] == 0;
    assert ws[12] == 0 && ws[13] == 0 && ws[14] == 0 && ws[15] == 0x000001c0;
  }

  lemma SecondEnds()
    ensures Numbers(WordOf, SecondFirst().v) == Registers(0xf4286818, 0xc37b27ae, 0x0408f581, 0x84677148, 0x4a566572)
    ensures Numbers(WordOf, SecondLast().v) == Registers(0x906fd62c, 0x58c0aac0, 0xb6a55520, 0x74e9b89d, 0x9af00b7f)
  {
    VariablesAre(SecondFirst().v, Registers(0xf4286818, 0xc37b27ae, 0x0408f581, 0x84677148, 0x4a566572));
    VariablesAre(SecondLast().v, Registers(0x906fd62c, 0x58c0aac0, 0xb6a55520, 0x74e9b89d, 0x9af00b7f));
  }

  lemma SecondSum()
    ensures AddRegisters(Registers(0xf4286818, 0xc37b27ae, 0x0408f581, 0x84677148, 0x4a566572),
      Registers(0x906fd62c, 0x58c0aac0, 0xb6a55520, 0x74e9b89d, 0x9af00b7f))
      == Registers(0x84983e44, 0x1c3bd26e, 0xbaae4aa1, 0xf95129e5, 0xe54670f1)
  {
  }

  lemma SecondBlock(block: Block, ws: seq<u32>, n: nat)
    requires ws == SecondWords() && HasWords(block, ws) && n == 80
    ensures Compress(Registers(0xf4286818, 0xc37b27ae, 0x0408f581, 0x84677148, 0x4a566572), block)
      == Registers(0x84983e44, 0x1c3bd26e, 0xbaae4aa1, 0xf95129e5, 0xe54670f1)
  {
    SecondRun(n);
    SecondLow(ws);
    SecondHigh(ws);
    SecondEnds();
    SecondSum();
    RunCompress(SecondFirst(), SecondLast(), n, ws, block, Registers(0xf4286818, 0xc37b27ae, 0x0408f581,
      0x84677148, 0x4a566572),
      Registers(0x906fd62c, 0x58c0aac0, 0xb6a55520, 0x74e9b89d, 0x9af00b7f),
      Registers(0x84983e44, 0x1c3bd26e, 0xbaae4aa1, 0xf95129e5, 0xe54670f1));
  }

  lemma SecondCompress(block: Block)
    requires HasWords(block, SecondWords())
    ensures Compress(Registers(0xf4286818, 0xc37b27ae, 0x0408f581, 0x84677148, 0x4a566572), block)
      == Registers(0x84983e44, 0x1c3bd26e, 0xbaae4aa1, 0xf95129e5, 0xe54670f1)
  {
    SecondBlock(block, SecondWords(), 80);
  }
}
