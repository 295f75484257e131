/** The digests that FIPS 180 publishes for its two examples. */
module Sha1Digests {
  import opened Bits
  import opened Sha1Answers
  import opened Sha1Rounds

  /** The bytes of a length below 2^16 */
  lemma ShortLength(bits: nat, i: nat)
    requires bits < 0x1_0000 && i < 8
    ensures LengthByte(bits, i) == if i < 6 then 0 else if i == 6 then bits / 256 else bits % 256
  {
    Pow2Values();
    if i < 6 {
      Pow2Monotone(16, 8 * (7 - i));
      DivModUnique(bits, Pow2(8 * (7 - i)), 0, bits);
    }
  }

  /** The length field of any message: each byte of the number of bits, highest first, and no bit from 2^64 on. */
  lemma LengthField(i: nat, low: nat, b: byte, high: nat)
    requires i < 8 && low < [0x100_0000_0000_0000, 0x1_0000_0000_0000, 0x100_0000_0000, 0x1_0000_0000, 0x100_0000,
      0x1_0000, 0x100, 1][i]
    ensures var p := [0x100_0000_0000_0000, 0x1_0000_0000_0000, 0x100_0000_0000, 0x1_0000_0000, 0x100_0000,
        0x1_0000, 0x100, 1][i];
      |LengthBytes(low + (b + 256 * high) * p)| == 8 && LengthBytes(low + (b + 256 * high) * p)[i] == b
  {
    var p := [0x100_0000_0000_0000, 0x1_0000_0000_0000, 0x100_0000_0000, 0x1_0000_0000, 0x100_0000,
      0x1_0000, 0x100, 1][i];
    BytePowers();
    assert p == Pow2(8 * (7 - i));
    DivModUnique(low + (b + 256 * high) * p, p, b + 256 * high, low);
    DivModUnique(b + 256 * high, 256, high, b);
  }

  lemma BytePowers()
    ensures [Pow2(56), Pow2(48), Pow2(40), Pow2(32), Pow2(24), Pow2(16), Pow2(8), Pow2(0)]
      == [0x100_0000_0000_0000, 0x1_0000_0000_0000, 0x100_0000_0000, 0x1_0000_0000, 0x100_0000, 0x1_0000, 0x100, 1]
  {
    Pow2Values();
    Pow2Add(32, 8);
    Pow2Add(32, 16);
    Pow2Add(32, 24);
  }

  /** The padding of a message of n bytes that needs k zero bytes. */
  lemma PaddingByte(n: nat, k: nat, i: nat)
    requires k == ZeroCount(n) && i < k + 9 && 8 * n < 0x1_0000
    ensures |Padding(n)| == k + 9
    ensures Padding(n)[i] == if i == 0 then 0x80 else if i < k + 7 then 0 else if i == k + 7 then 8 * n / 256
      else 8 * n % 256
  {
    if i > k {
      ShortLength(8 * n, i - k - 1);
      assert Padding(n)[i] == LengthBytes(8 * n)[i - k - 1];
    }
  }

  lemma OneFold(h: Registers, block: seq<byte>)
    requires |block| == 64
    ensures Fold(h, block) == Compress(h, block)
  {
    assert block[..64] == block && block[64..] == [];
  }

  lemma TwoFolds(h: Registers, first: Block, second: Block)
    ensures Fold(h, first + second) == Compress(Compress(h, first), second)
  {
    var blocks := first + second;
    assert blocks[..64] == first && blocks[64..] == second;
    OneFold(Compress(h, first), second);
  }

  lemma WordIs(block: Block, t: nat, w: u32)
    requires t < 16 && Be32(block[4 * t], block[4 * t + 1], block[4 * t + 2], block[4 * t + 3]) == w
    ensures W(block, t) == w
  {
  }

  // ---------- One block ----------

  lemma AbcBlock(block: Block)
    requires block[0] == 0x61 && block[1] == 0x62 && block[2] == 0x63 && block[3] == 0x80
    requires (forall i :: 4 <= i < 63 ==> block[i] == 0) && block[63] == 24
    ensures HasWords(block, AbcWords())
  {
    var ws: seq<u32> := [0x61626380, 0, 0, 0, 0, 0, 0, 0, 0, 0, 0, 0, 0, 0, 0, 0x00000018];
    assert forall t :: 1 <= t < 15 ==> ws[t] == 0;
    forall t: nat | t < 16 ensures W(block, t) == ws[t] {
      WordIs(block, t, ws[t]);
    }
  }

  lemma AbcPadded(block: seq<byte>)
    requires block == [0x61, 0x62, 0x63] + Padding(3)
    ensures |block| == 64 && block[0] == 0x61 && block[1] == 0x62 && block[2] == 0x63 && block[3] == 0x80
    ensures (forall i :: 4 <= i < 63 ==> block[i] == 0) && block[63] == 24
  {
    forall i | 0 <= i < 61
      ensures |Padding(3)| == 61 && Padding(3)[i] == if i == 0 then 0x80 else if i < 60 then 0 else 24
    {
      PaddingByte(3, 52, i);
    }
  }

  lemma DigestIs(h: Registers)
    requires h == Registers(0xa9993e36, 0x4706816a, 0xba3e2571, 0x7850c26c, 0x9cd0d89d)
    ensures DigestBytes(h)
      == [0xa9, 0x99, 0x3e, 0x36, 0x47, 0x06, 0x81, 0x6a, 0xba, 0x3e, 0x25, 0x71, 0x78, 0x50, 0xc2, 0x6c,
          0x9c, 0xd0, 0xd8, 0x9d]
  {
  }

  lemma AbcHash(message: seq<byte>, block: Block)
    requires message == [0x61, 0x62, 0x63] && block == message + Padding(3)
    ensures Hash(INITIAL, message) == Registers(0xa9993e36, 0x4706816a, 0xba3e2571, 0x7850c26c, 0x9cd0d89d)
  {
    AbcPadded(block);
    AbcBlock(block);
    OneFold(INITIAL, block);
    AbcCompress(block);
  }

  /** The digest of "abc" */
  lemma AbcDigest()
    ensures DigestBytes(Hash(INITIAL, [0x61, 0x62, 0x63]))
      == [0xa9, 0x99, 0x3e, 0x36, 0x47, 0x06, 0x81, 0x6a, 0xba, 0x3e, 0x25, 0x71, 0x78, 0x50, 0xc2, 0x6c,
          0x9c, 0xd0, 0xd8, 0x9d]
  {
    var message: seq<byte> := [0x61, 0x62, 0x63];
    PaddedLength(3);
    AbcHash(message, message + Padding(3));
    DigestIs(Hash(INITIAL, message));
  }

  // ---------- Two blocks ----------

  /** "abcdbcdecdefdefgefghfghighijhijkijkljklmklmnlmnomnopnopq" */
  function Letters(): seq<byte> { seq(56, i requires 0 <= i < 56 => 0x61 + i / 4 + i % 4) }

  lemma LetterAt(t: nat, j: nat)
    requires t < 14 && j < 4
    ensures Letters()[4 * t + j] == 0x61 + t + j
  {
    DivModUnique(4 * t + j, 4, t, j);
  }

  lemma LettersPadded(blocks: seq<byte>)
    requires blocks == Letters() + Padding(56)
    ensures |blocks| == 128 && blocks[..56] == Letters() && blocks[56] == 0x80
    ensures (forall i :: 57 <= i < 126 ==> blocks[i] == 0) && blocks[126] == 1 && blocks[127] == 0xc0
  {
    forall i | 0 <= i < 72
      ensures |Padding(56)| == 72
      ensures Padding(56)[i] == if i == 0 then 0x80 else if i < 70 then 0 else if i == 70 then 1 else 0xc0
    {
      PaddingByte(56, 63, i);
    }
  }

  lemma LetterWord(block: Block, t: nat)
    requires block[..56] == Letters() && t < 14
    ensures W(block, t) == 0x61626364 + 0x1010101 * t
  {
    LetterAt(t, 0);
    LetterAt(t, 1);
    LetterAt(t, 2);
    LetterAt(t, 3);
    assert forall i :: 0 <= i < 56 ==> block[i] == Letters()[i];
    WordIs(block, t, 0x61626364 + 0x1010101 * t);
  }

  lemma FirstBlock(block: Block)
    requires block[..56] == Letters() && block[56] == 0x80 && forall i :: 57 <= i < 64 ==> block[i] == 0
    ensures HasWords(block, FirstWords())
  {
    var ws: seq<u32> := [0x61626364, 0x62636465, 0x63646566, 0x64656667, 0x65666768, 0x66676869, 0x6768696a, 0x68696a6b,
      0x696a6b6c, 0x6a6b6c6d, 0x6b6c6d6e, 0x6c6d6e6f, 0x6d6e6f70, 0x6e6f7071, 0x80000000, 0];
    assert forall t :: 0 <= t < 14 ==> ws[t] == 0x61626364 + 0x1010101 * t;
    forall t: nat | t < 16 ensures W(block, t) == ws[t] {
      if t < 14 {
        LetterWord(block, t);
      } else {
        WordIs(block, t, ws[t]);
      }
    }
  }

  lemma SecondBlock(block: Block)
    requires (forall i :: 0 <= i < 62 ==> block[i] == 0) && block[62] == 1 && block[63] == 0xc0
    ensures HasWords(block, SecondWords())
  {
    var ws: seq<u32> := [0, 0, 0, 0, 0, 0, 0, 0, 0, 0, 0, 0, 0, 0, 0, 0x000001c0];
    assert forall t :: 0 <= t < 15 ==> ws[t] == 0;
    forall t: nat | t < 16 ensures W(block, t) == ws[t] {
      WordIs(block, t, ws[t]);
    }
  }

  lemma SecondDigestIs(h: Registers)
    requires h == Registers(0x84983e44, 0x1c3bd26e, 0xbaae4aa1, 0xf95129e5, 0xe54670f1)
    ensures DigestBytes(h)
      == [0x84, 0x98, 0x3e, 0x44, 0x1c, 0x3b, 0xd2, 0x6e, 0xba, 0xae, 0x4a, 0xa1, 0xf9, 0x51, 0x29, 0xe5,
          0xe5, 0x46, 0x70, 0xf1]
  {
  }

  lemma LettersHash(blocks: seq<byte>, first: Block, second: Block)
    requires blocks == Letters() + Padding(56) && |blocks| == 128 && first == blocks[..64] && second == blocks[64..]
    ensures Fold(INITIAL, blocks) == Registers(0x84983e44, 0x1c3bd26e, 0xbaae4aa1, 0xf95129e5, 0xe54670f1)
  {
    LettersPadded(blocks);
    assert first[..56] == blocks[..56];
    FirstBlock(first);
    SecondBlock(second);
    assert first + second == blocks;
    TwoFolds(INITIAL, first, second);
    FirstCompress(first);
    SecondCompress(second);
  }

  /** The digest of a message whose padding takes a second block. */
  lemma LettersDigest()
    ensures DigestBytes(Hash(INITIAL, Letters()))
      == [0x84, 0x98, 0x3e, 0x44, 0x1c, 0x3b, 0xd2, 0x6e, 0xba, 0xae, 0x4a, 0xa1, 0xf9, 0x51, 0x29, 0xe5,
          0xe5, 0x46, 0x70, 0xf1]
  {
    PaddedLength(56);
    var blocks := Letters() + Padding(56);
    LettersPadded(blocks);
    LettersHash(blocks, blocks[..64], blocks[64..]);
    SecondDigestIs(Hash(INITIAL, Letters()));
  }
}
