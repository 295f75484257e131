/** The SHA_CTX of 3rd/encrypt/src/sha.c */
module ShaContext {
  import opened Bits
  import opened Memory
  import opened Sha1Rounds
  import opened Sha1Contexts

  /** The digest bytes are put where the message was. */
  class Context {
    const state: array<u32>
    const buf: array<byte>
    var count: u64
    /** Everything hashed since initialisation */
    ghost var message: seq<byte>

    ghost predicate Shape()
      reads this
    {
      state.Length == 8 && buf.Length == 64
    }

    /** The state and the first i bytes of buf are what is known of message m. */
    ghost predicate Holds(m: seq<byte>, i: nat)
      requires Shape()
      reads this, state, buf
    {
      i < 64 && Absorbed(m) == Progress(Regs(state[..]), buf[..i])
    }

    ghost predicate Valid()
      reads this, state, buf
    {
      Shape() && count == |message| % 0x1_0000_0000_0000_0000 && Holds(message, count % 64)
    }

    constructor ()
      ensures Valid() && message == [] && fresh(state) && fresh(buf)
    {
      state := new u32[8];
      buf := new byte[64];
      count := 0;
      message := [];
      new;
      state[0] := 0x6745_2301;
      state[1] := 0xEFCD_AB89;
      state[2] := 0x98BA_DCFE;
      state[3] := 0x1032_5476;
      state[4] := 0xC3D2_E1F0;
    }

    method Transform()
      requires Shape()
      modifies state
      ensures Regs(state[..]) == Compress(old(Regs(state[..])), buf[..])
    {
      var w := ScheduleWords(buf);
      var h := Registers(state[0], state[1], state[2], state[3], state[4]);
      var r := ShaRounds(h, w);
      state[0] := Add32(state[0], r.a);
      state[1] := Add32(state[1], r.b);
      state[2] := Add32(state[2], r.c);
      state[3] := Add32(state[3], r.d);
      state[4] := Add32(state[4], r.e);
    }

    /** One turn of the loop in SHA_update */
    method PutByte(i: nat, b: byte) returns (j: nat)
      requires Shape() && i < 64
      modifies state, buf
      ensures j < 64
      ensures Progress(Regs(state[..]), buf[..j]) == AbsorbByte(Progress(old(Regs(state[..])), old(buf[..i])), b)
    {
      buf[i] := b;
      j := i + 1;
      assert buf[..j] == old(buf[..i]) + [b];
      if j == 64 {
        assert buf[..64] == buf[..];
        Transform();
        j := 0;
      }
    }

    method PutNext(ghost m: seq<byte>, i: nat, b: byte) returns (j: nat)
      requires Shape() && Holds(m, i)
      modifies state, buf
      ensures Holds(m + [b], j)
    {
      AbsorbedStep(m, b);
      j := PutByte(i, b);
    }

    method PutAll(ghost before: seq<byte>, start: nat, data: seq<byte>) returns (i: nat)
      requires Shape() && Holds(before, start)
      modifies state, buf
      ensures Holds(before + data, i)
    {
      i := start;
      assert before + data[..0] == before;
      for k := 0 to |data|
        invariant Holds(before + data[..k], i)
      {
        i := PutNext(before + data[..k], i, data[k]);
        assert before + data[..k] + [data[k]] == before + data[..k + 1];
      }
      assert data[..|data|] == data;
    }

    method Update(data: seq<byte>)
      requires Valid() && |data| < 0x1_0000_0000
      modifies this, state, buf
      ensures Valid() && message == old(message) + data
    {
      Mask63(count);
      var i := And(count, 63);
      SumLowBits(|message|, |data|);
      count := (count + |data|) % 0x1_0000_0000_0000_0000;
      i := PutAll(message, i, data);
      message := message + data;
      LowBits(|message|);
    }

    /** count & 63 */
    method Index() returns (i: nat)
      requires Valid()
      ensures i == |message| % 64
    {
      LowBits(|message|);
      Mask63(count);
      i := And(count, 63);
    }

    /** The 0x80 and the zero bytes of the padding */
    method PutZeros()
      requires Valid()
      modifies this, state, buf
      ensures Valid() && message == old(message) + [0x80] + Zeros(ZeroCount(|old(message)|))
    {
      ghost var n := |message|;
      ghost var z: nat := ZeroCount(n);
      Update([0x80]);
      PutZerosUpTo(message, n, z);
    }

    method PutZerosUpTo(ghost m: seq<byte>, ghost n: nat, ghost z: nat)
      requires Valid() && message == m && |m| == n + 1 && z == ZeroCount(n)
      modifies this, state, buf
      ensures Valid() && message == m + Zeros(z)
    {
      ghost var k: nat := 0;
      assert m + Zeros(0) == m;
      var i := Index();
      EnoughZeros(n, k, i);
      while i != 56
        invariant Valid() && k <= z && message == m + Zeros(k)
        invariant i == 56 <==> k == z
        decreases z - k
      {
        i := PutZero(m, n, z, k);
        k := k + 1;
      }
    }

    method PutZero(ghost m: seq<byte>, ghost n: nat, ghost z: nat, ghost k: nat) returns (i: nat)
      requires Valid() && message == m + Zeros(k) && |m| == n + 1 && k < z == ZeroCount(n)
      modifies this, state, buf
      ensures Valid() && message == m + Zeros(k + 1) && (i == 56 <==> k + 1 == z)
    {
      Update([0]);
      MoreZeros(m, k);
      i := Index();
      EnoughZeros(n, k + 1, i);
    }

    method PutLength(cnt: u64, ghost bits: nat)
      requires Valid() && cnt == bits % 0x1_0000_0000_0000_0000
      modifies this, state, buf
      ensures Valid() && message == old(message) + LengthBytes(bits)
    {
      for i := 0 to 8
        invariant Valid() && message == old(message) + LengthBytes(bits)[..i]
      {
        LengthByteOf(cnt, bits, i);
        var tmp := Shr(cnt, (7 - i) * 8) % 256;
        Update([tmp]);
        assert LengthBytes(bits)[..i] + [LengthBytes(bits)[i]] == LengthBytes(bits)[..i + 1];
      }
    }

    /** SHA_final. The digest is the beginning of buf. */
    method Final()
      requires Valid()
      modifies this, state, buf
      ensures buf.Length == 64 && buf[..20] == DigestBytes(Hash(INITIAL, old(message)))
    {
      var cnt := (count * 8) % 0x1_0000_0000_0000_0000;
      EightTimes(|message|);
      ghost var n := |message|;
      PutZeros();
      PutLength(cnt, 8 * n);
      assert message == old(message) + Padding(n);
      AbsorbConcat(Progress(INITIAL, []), old(message), Padding(n));
      AbsorbHash(INITIAL, old(message));
      WriteDigest();
    }

    method WriteDigest()
      requires Shape()
      modifies buf
      ensures buf[..20] == DigestBytes(Regs(state[..]))
    {
      var p := 0;
      for i := 0 to 5
        invariant p == 4 * i && forall k :: 0 <= k < p ==> buf[k] == BeBytes(state[k / 4])[k % 4]
      {
        p := PutWord(p, state[i]);
      }
      DigestAt(Regs(state[..]), buf[..20], state[..5]);
    }

    method PutWord(p: nat, tmp: u32) returns (q: nat)
      requires Shape() && p + 4 <= 64
      modifies buf
      ensures q == p + 4
      ensures forall k :: 0 <= k < 64 ==> buf[k] == if p <= k < p + 4 then BeBytes(tmp)[k - p] else old(buf[k])
    {
      BeBytesShifts(tmp);
      buf[p] := Shr(tmp, 24) % 256;
      buf[p + 1] := Shr(tmp, 16) % 256;
      buf[p + 2] := Shr(tmp, 8) % 256;
      buf[p + 3] := Shr(tmp, 0) % 256;
      q := p + 4;
    }
  }

  lemma SumLowBits(n: nat, k: nat)
    ensures (n % 0x1_0000_0000_0000_0000 + k) % 0x1_0000_0000_0000_0000 == (n + k) % 0x1_0000_0000_0000_0000
  {
    var m := 0x1_0000_0000_0000_0000;
    var z := n % m + k;
    DivModUnique(n + k, m, n / m + z / m, z % m);
  }

  lemma LowBits(n: nat)
    ensures n % 0x1_0000_0000_0000_0000 % 64 == n % 64
  {
    var m := 0x1_0000_0000_0000_0000;
    var q, r := n / m, n % m;
    DivModUnique(n, 64, 0x400_0000_0000_0000 * q + r / 64, r % 64);
  }

  lemma EnoughZeros(n: nat, k: nat, i: nat)
    requires k <= ZeroCount(n) && i == (n + 1 + k) % 64
    ensures i == 56 <==> k == ZeroCount(n)
  {
  }

  lemma EightTimes(n: nat)
    ensures n % 0x1_0000_0000_0000_0000 * 8 % 0x1_0000_0000_0000_0000 == 8 * n % 0x1_0000_0000_0000_0000
  {
    var m := 0x1_0000_0000_0000_0000;
    var z := n % m * 8;
    DivModUnique(8 * n, m, n / m * 8 + z / m, z % m);
  }

  /** A byte of the length does not depend on the bits above the 64 lowest. */
  lemma LengthByteOf(cnt: u64, bits: nat, i: nat)
    requires i < 8 && cnt == bits % 0x1_0000_0000_0000_0000
    ensures Shr(cnt, (7 - i) * 8) % 256 == LengthByte(bits, i)
  {
    var d, e := Pow2(8 * (7 - i)), Pow2(8 * i);
    Pow2Values();
    Pow2Add(8 * (7 - i), 8 * i);
    Pow2Add(56, 8);
    assert d * e * 256 == 0x1_0000_0000_0000_0000;
    var q := bits / (d * e * 256);
    ShiftedByte(bits, cnt, d, e, q);
  }

  lemma BeBytesShifts(x: u32)
    ensures BeBytes(x) == [Shr(x, 24) % 256, Shr(x, 16) % 256, Shr(x, 8) % 256, Shr(x, 0) % 256]
  {
    Pow2Values();
    WordOfBytes(x);
    assert x / 0x1_0000 == x / 256 / 256 && x / 0x100_0000 == x / 256 / 256 / 256;
  }
}
