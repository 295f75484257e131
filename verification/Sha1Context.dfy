/** The sha1_context of 3rd/encrypt/src/sha1.c */
module Sha1Context {
  import opened Bits
  import opened Memory
  import opened Sha1Rounds
  import opened Sha1Contexts

  /** The number of bits that the length field cannot hold. */
  const TOO_LONG: nat := 0x1_0000_0000_0000_0000

  class Context {
    const digest: array<u32>
    const block: array<byte>
    var lengthLow: u32
    var lengthHigh: u32
    var index: nat
    var computed: bool
    var corrupted: bool
    /** Everything hashed since initialisation */
    ghost var message: seq<byte>

    ghost predicate Shape()
      reads this
    {
      digest.Length == 5 && block.Length == 64
    }

    ghost function Length(): nat
      reads this
    {
      lengthLow + 0x1_0000_0000 * lengthHigh
    }

    ghost predicate Holds(m: seq<byte>)
      requires Shape()
      reads this, digest, block
    {
      index < 64 && Absorbed(m) == Progress(Regs(digest[..]), block[..index])
    }

    /** Before the digest is computed the object follows the message; afterwards it has its hash. */
    ghost predicate Valid()
      reads this, digest, block
    {
      && Shape()
      && (!computed && !corrupted ==> Holds(message) && Length() == 8 * |message|)
      && (computed ==> Regs(digest[..]) == Hash(INITIAL, message))
    }

    constructor ()
      ensures Valid() && message == [] && !computed && !corrupted && fresh(digest) && fresh(block)
    {
      digest := new u32[5];
      block := new byte[64];
      lengthLow, lengthHigh, index := 0, 0, 0;
      computed, corrupted := false, false;
      message := [];
      new;
      digest[0] := 0x6745_2301;
      digest[1] := 0xEFCD_AB89;
      digest[2] := 0x98BA_DCFE;
      digest[3] := 0x1032_5476;
      digest[4] := 0xC3D2_E1F0;
    }

    method ProcessMessageBlock()
      requires Shape()
      modifies digest, this`index
      ensures index == 0 && Regs(digest[..]) == Compress(old(Regs(digest[..])), block[..])
    {
      var w := ScheduleWords(block);
      var h := Registers(digest[0], digest[1], digest[2], digest[3], digest[4]);
      var r := Sha1RoundLoops(h, w);
      digest[0] := Add32(digest[0], r.a);
      digest[1] := Add32(digest[1], r.b);
      digest[2] := Add32(digest[2], r.c);
      digest[3] := Add32(digest[3], r.d);
      digest[4] := Add32(digest[4], r.e);
      index := 0;
    }

    /** Message_Block[Message_Block_Index++] = b */
    method Append(b: byte)
      requires Shape() && index < 64
      modifies block, this`index
      ensures index == old(index) + 1 && block[..index] == old(block[..index]) + [b]
    {
      block[index] := b;
      index := index + 1;
    }

    /** The length counts the bits of one more byte; it overflows exactly at 2^64 bits. */
    method CountByte()
      requires Shape() && !corrupted && Length() % 8 == 0
      modifies this`lengthLow, this`lengthHigh, this`corrupted
      ensures corrupted <==> old(Length()) + 8 == TOO_LONG
      ensures !corrupted ==> Length() == old(Length()) + 8
    {
      ghost var high := lengthHigh;
      lengthLow := Add32(lengthLow, 8);
      if lengthLow == 0 {
        lengthHigh := Add32(lengthHigh, 1);
        if lengthHigh == 0 {
          corrupted := true;
        }
      }
    }

    /** One turn of the loop in sha1_update */
    method PutByte(b: byte)
      requires Valid() && !computed && !corrupted
      modifies this, digest, block
      ensures Valid() && !computed && message == old(message) + [b]
      ensures corrupted <==> 8 * |message| == TOO_LONG
    {
      AbsorbedStep(message, b);
      Append(b);
      CountByte();
      message := message + [b];
      if index == 64 {
        assert block[..64] == block[..];
        ProcessMessageBlock();
      }
    }

    /** The bytes are taken as long as the bits can be counted. */
    method Update(data: seq<byte>)
      requires Valid() && |data| < 0x1_0000_0000
      modifies this, digest, block
      ensures Valid() && computed == old(computed)
      ensures data == [] ==> corrupted == old(corrupted) && message == old(message)
      ensures data != [] && (old(corrupted) || computed) ==> corrupted && message == old(message)
      ensures data != [] && !old(corrupted) && !computed ==>
        if 8 * (|old(message)| + |data|) < TOO_LONG then !corrupted && message == old(message) + data else corrupted
    {
      if |data| == 0 {
        return;
      }
      if computed || corrupted {
        corrupted := true;
        return;
      }
      ghost var before := message;
      assert before + data[..0] == before;
      ShortEnough(8 * |before|, lengthLow, lengthHigh);
      var k := 0;
      while k < |data| && !corrupted
        invariant k <= |data| && Valid() && !computed && message == before + data[..k]
        invariant if corrupted then 8 * (|before| + k) == TOO_LONG else 8 * (|before| + k) < TOO_LONG
      {
        PutByte(data[k]);
        assert before + data[..k] + [data[k]] == before + data[..k + 1];
        k := k + 1;
      }
      if !corrupted {
        assert data[..|data|] == data;
      }
    }

    /** Zero bytes up to position n of the block */
    method FillTo(n: nat)
      requires Shape() && index <= n <= 64
      modifies block, this`index
      ensures index == n && block[..n] == old(block[..index]) + Zeros(n - old(index))
    {
      ghost var start, before := index, block[..index];
      assert before + Zeros(0) == before;
      while index < n
        invariant start <= index <= n && block[..index] == before + Zeros(index - start)
      {
        MoreZeros(before, index - start);
        Append(0);
      }
    }

    method StoreLength()
      requires Shape() && index == 56
      modifies block
      ensures block[..] == old(block[..56]) + LengthBytes(Length())
    {
      LengthBytesParts(lengthLow, lengthHigh);
      block[56] := Shr(lengthHigh, 24) % 256;
      block[57] := Shr(lengthHigh, 16) % 256;
      block[58] := Shr(lengthHigh, 8) % 256;
      block[59] := lengthHigh % 256;
      block[60] := Shr(lengthLow, 24) % 256;
      block[61] := Shr(lengthLow, 16) % 256;
      block[62] := Shr(lengthLow, 8) % 256;
      block[63] := lengthLow % 256;
    }

    /** The padding up to the length, if the length still fits into the block */
    method PadShort()
      requires Shape() && Holds(message) && index <= 55
      modifies block, this`index
      ensures index == 56
      ensures Compress(Regs(digest[..]), block[..56] + LengthBytes(8 * |message|)) == Hash(INITIAL, message)
    {
      PadOne(message, Regs(digest[..]), block[..index]);
      Append(0x80);
      FillTo(56);
    }

    /** The padding up to the length, with a block for the length alone */
    method PadLong()
      requires Shape() && Holds(message) && index > 55
      modifies digest, block, this`index
      ensures index == 56
      ensures Compress(Regs(digest[..]), block[..56] + LengthBytes(8 * |message|)) == Hash(INITIAL, message)
    {
      ghost var h, p := Regs(digest[..]), block[..index];
      ghost var first := Compress(h, p + [0x80] + Zeros(63 - |p|));
      PadTwo(message, h, p);
      FinishBlock();
      assert Regs(digest[..]) == first;
      FillTo(56);
      assert block[..56] == Zeros(56);
    }

    method FinishBlock()
      requires Shape() && index < 64
      modifies digest, block, this`index
      ensures index == 0
      ensures Regs(digest[..]) == Compress(old(Regs(digest[..])), old(block[..index]) + [0x80] + Zeros(63 - old(index)))
    {
      Append(0x80);
      FillTo(64);
      assert block[..64] == block[..];
      ProcessMessageBlock();
    }

    /** SHA1PadMessage */
    method PadMessage()
      requires Shape() && Holds(message) && Length() == 8 * |message|
      modifies digest, block, this`index
      ensures Regs(digest[..]) == Hash(INITIAL, message)
    {
      if index > 55 {
        PadLong();
      } else {
        PadShort();
      }
      StoreLength();
      ProcessMessageBlock();
    }

    /** The words are read byte by byte: byte i - i % 4 + 3 - i % 4 of the words in memory. */
    method WriteHash(hash: array<byte>)
      requires Shape() && hash.Length == 20
      modifies hash
      ensures hash[..] == DigestBytes(old(Regs(digest[..])))
    {
      ghost var words := digest[..];
      for i := 0 to 20
        invariant digest[..] == words
        invariant forall k :: 0 <= k < i ==> hash[k] == BeBytes(words[k / 4])[k % 4]
      {
        assert digest[i / 4] == words[i / 4];
        hash[i] := WordByte(digest[i / 4], 3 - i % 4);
      }
      DigestAt(Regs(words), hash[..], words);
    }

    /** sha1_final: it fails if and only if the context is corrupted. */
    method Final(hash: array<byte>) returns (ok: bool)
      requires Valid() && hash.Length == 20 && hash != block
      modifies this, digest, block, hash
      ensures Valid() && message == old(message) && corrupted == old(corrupted) && ok == !corrupted
      ensures ok ==> computed && hash[..] == DigestBytes(Hash(INITIAL, message))
      ensures !ok ==> hash[..] == old(hash[..]) && computed == old(computed)
    {
      if corrupted {
        return false;
      }
      if !computed {
        PadMessage();
        computed := true;
      }
      WriteHash(hash);
      ok := true;
    }
  }

  lemma ShortEnough(n: nat, low: u32, high: u32)
    requires n == low + 0x1_0000_0000 * high
    ensures n < TOO_LONG
  {
  }

  /** The message ends in the block that the length goes into. */
  lemma PadOne(message: seq<byte>, h: Registers, p: seq<byte>)
    requires Absorbed(message) == Progress(h, p) && |p| <= 55
    ensures Compress(h, p + [0x80] + Zeros(55 - |p|) + LengthBytes(8 * |message|)) == Hash(INITIAL, message)
  {
    var n := |message|;
    var block := p + [0x80] + Zeros(55 - |p|) + LengthBytes(8 * n);
    ZerosNeeded(n, 55 - |p|);
    assert p + Padding(n) == block;
    AbsorbAfter(h, p, Padding(n));
    OneBlock(h, block);
    AbsorbHash(INITIAL, message);
  }

  /** The length needs a block of its own. */
  lemma PadTwo(message: seq<byte>, h: Registers, p: seq<byte>)
    requires Absorbed(message) == Progress(h, p) && |p| > 55
    ensures Compress(Compress(h, p + [0x80] + Zeros(63 - |p|)), Zeros(56) + LengthBytes(8 * |message|))
      == Hash(INITIAL, message)
  {
    var n := |message|;
    var first, second := p + [0x80] + Zeros(63 - |p|), Zeros(56) + LengthBytes(8 * n);
    ZerosNeeded(n, 119 - |p|);
    assert Zeros(119 - |p|) == Zeros(63 - |p|) + Zeros(56);
    assert p + Padding(n) == first + second;
    AbsorbAfter(h, p, Padding(n));
    AbsorbConcat(Progress(h, []), first, second);
    OneBlock(h, first);
    OneBlock(Compress(h, first), second);
    AbsorbHash(INITIAL, message);
  }

  lemma AbsorbAfter(h: Registers, p: seq<byte>, more: seq<byte>)
    requires |p| < 64
    ensures Absorb(Progress(h, p), more) == Absorb(Progress(h, []), p + more)
  {
    AbsorbPart(h, p);
    AbsorbConcat(Progress(h, []), p, more);
  }

  lemma ZerosNeeded(n: nat, z: nat)
    requires z < 64 && (n % 64 + 1 + z) % 64 == 56
    ensures ZeroCount(n) == z
  {
  }

  lemma OneBlock(h: Registers, block: Block)
    ensures Absorb(Progress(h, []), block) == Progress(Compress(h, block), [])
  {
    AbsorbPart(h, block[..63]);
    assert block[..63] + [block[63]] == block;
  }

  lemma LengthBytesParts(low: u32, high: u32)
    ensures LengthBytes(low + 0x1_0000_0000 * high)
         == [Shr(high, 24) % 256, Shr(high, 16) % 256, Shr(high, 8) % 256, high % 256,
             Shr(low, 24) % 256, Shr(low, 16) % 256, Shr(low, 8) % 256, low % 256]
  {
    var bits := low + 0x1_0000_0000 * high;
    LengthBytePart(low, high, 0);
    LengthBytePart(low, high, 1);
    LengthBytePart(low, high, 2);
    LengthBytePart(low, high, 3);
    assert Shr(high, 0) == high && Shr(low, 0) == low;
  }

  lemma LengthBytePart(low: u32, high: u32, i: nat)
    requires i < 4
    ensures LengthByte(low + 0x1_0000_0000 * high, i) == Shr(high, 8 * (3 - i)) % 256
    ensures LengthByte(low + 0x1_0000_0000 * high, 4 + i) == Shr(low, 8 * (3 - i)) % 256
  {
    HighByte(low, high, 8 * (3 - i));
    LowByte(low, high, 8 * (3 - i), 8 * i);
  }

  lemma HighByte(low: u32, high: u32, s: nat)
    ensures (low + 0x1_0000_0000 * high) / Pow2(32 + s) == Shr(high, s)
  {
    Pow2Values();
    Pow2Add(32, s);
    var d := Pow2(s);
    var q, r := high / d, high % d;
    DivModBounds(high, d);
    MulLe(r + 1, d, 0x1_0000_0000);
    assert 0x1_0000_0000 * (q * d) == q * (0x1_0000_0000 * d);
    DivModUnique(low + 0x1_0000_0000 * high, 0x1_0000_0000 * d, q, low + 0x1_0000_0000 * r);
  }

  lemma LowByte(low: u32, high: u32, s: nat, u: nat)
    requires s + u == 24
    ensures (low + 0x1_0000_0000 * high) / Pow2(s) % 256 == Shr(low, s) % 256
  {
    Pow2Values();
    Pow2Add(s, u);
    var d, e := Pow2(s), Pow2(u);
    assert d * e * 256 == 0x1_0000_0000;
    ShiftedByte(low + 0x1_0000_0000 * high, low, d, e, high);
  }
}
