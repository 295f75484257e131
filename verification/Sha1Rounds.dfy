/** The SHA-1 compression function (FIPS 180-4, sections 4.1.1 and 6.1.2) and the
    round functions that 3rd/encrypt/src/sha.c and sha1.c use in its place. */
module Sha1Rounds {
  import opened Bits
  import opened Memory

  // ---------- Single bits ----------

  predicate Bit(x: nat, i: nat) { if i == 0 then x % 2 == 1 else Bit(x / 2, i - 1) }

  /** Numbers of n bits with the same bits are equal. */
  lemma {:induction false} SameBits(x: nat, y: nat, n: nat)
    requires x < Pow2(n) && y < Pow2(n)
    requires forall i :: 0 <= i < n ==> Bit(x, i) == Bit(y, i)
    ensures x == y
  {
    if n > 0 {
      forall i | 0 <= i < n - 1 ensures Bit(x / 2, i) == Bit(y / 2, i) {
        assert Bit(x, i + 1) == Bit(y, i + 1);
      }
      SameBits(x / 2, y / 2, n - 1);
      assert Bit(x, 0) == Bit(y, 0);
    }
  }

  lemma {:induction false} BitOfZero(i: nat)
    ensures !Bit(0, i)
  {
    if i > 0 {
      BitOfZero(i - 1);
    }
  }

  lemma {:induction false} BitAnd(x: nat, y: nat, i: nat)
    ensures Bit(And(x, y), i) == (Bit(x, i) && Bit(y, i))
  {
    var h := And(x / 2, y / 2);
    AndUnfold(x, y);
    HalfOf(And(x, y), h, (x % 2) * (y % 2));
    if i > 0 {
      BitAnd(x / 2, y / 2, i - 1);
    }
  }

  /** The parts of a number with the halves h and lowest bit b. */
  lemma HalfOf(v: nat, h: nat, b: nat)
    requires v == b + 2 * h && b < 2
    ensures v / 2 == h && v % 2 == b
  {
  }

  lemma {:induction false} BitOr(x: nat, y: nat, i: nat)
    ensures Bit(Or(x, y), i) == (Bit(x, i) || Bit(y, i))
  {
    var h := Or(x / 2, y / 2);
    var b := if x % 2 == 1 || y % 2 == 1 then 1 else 0;
    OrUnfold(x, y);
    HalfOf(Or(x, y), h, b);
    if i > 0 {
      BitOr(x / 2, y / 2, i - 1);
    }
  }

  lemma OrUnfold(x: nat, y: nat)
    ensures Or(x, y) == (if x % 2 == 1 || y % 2 == 1 then 1 else 0) + 2 * Or(x / 2, y / 2)
  {
  }

  lemma {:induction false} BitXor(x: nat, y: nat, i: nat)
    ensures Bit(Xor(x, y), i) == (Bit(x, i) != Bit(y, i))
  {
    var h := Xor(x / 2, y / 2);
    XorUnfold(x, y);
    HalfOf(Xor(x, y), h, (x + y) % 2);
    if i > 0 {
      BitXor(x / 2, y / 2, i - 1);
    } else {
      OddSum(x, y);
    }
  }

  lemma OddSum(x: nat, y: nat)
    ensures (x + y) % 2 == 1 <==> (x % 2 == 1) != (y % 2 == 1)
  {
  }

  /** The complement of n bits */
  function Not(x: nat, n: nat): nat
    requires x < Pow2(n)
  {
    Pow2(n) - 1 - x
  }

  lemma {:induction false} BitNot(x: nat, n: nat, i: nat)
    requires x < Pow2(n) && i < n
    ensures Bit(Not(x, n), i) == !Bit(x, i)
  {
    if i > 0 {
      BitNot(x / 2, n - 1, i - 1);
    }
  }

  lemma {:induction false} AndBound(x: nat, y: nat, n: nat)
    requires x < Pow2(n)
    ensures And(x, y) < Pow2(n)
  {
    if n > 0 {
      AndUnfold(x, y);
      assert (x % 2) * (y % 2) <= 1 by { MulLe(x % 2, 1, y % 2); }
      assert Pow2(n) == 2 * Pow2(n - 1);
      AndBound(x / 2, y / 2, n - 1);
    }
  }

  // ---------- Round functions ----------

  function And32(x: u32, y: u32): u32 { Pow2Values(); AndBound(x, y, 32); And(x, y) }

  function Or32(x: u32, y: u32): u32 { Pow2Values(); OrBound(x, y, 32); Or(x, y) }

  function Not32(x: u32): u32 { 0xFFFF_FFFF - x }

  /** FIPS 180-4, section 4.1.1 */
  function Ch(x: u32, y: u32, z: u32): u32 { Xor32(And32(x, y), And32(Not32(x), z)) }

  function Parity(x: u32, y: u32, z: u32): u32 { Xor32(Xor32(x, y), z) }

  function Maj(x: u32, y: u32, z: u32): u32 { Xor32(Xor32(And32(x, y), And32(x, z)), And32(y, z)) }

  /** Bit i of the words that the round functions are made of. */
  lemma Bit32(x: u32, y: u32, i: nat)
    requires i < 32
    ensures Bit(And32(x, y), i) == (Bit(x, i) && Bit(y, i))
    ensures Bit(Or32(x, y), i) == (Bit(x, i) || Bit(y, i))
    ensures Bit(Xor32(x, y), i) == (Bit(x, i) != Bit(y, i))
    ensures Bit(Not32(x), i) == !Bit(x, i)
  {
    Pow2Values();
    BitAnd(x, y, i);
    BitOr(x, y, i);
    BitXor(x, y, i);
    BitNot(x, 32, i);
  }

  lemma SameWord(x: u32, y: u32)
    requires forall i :: 0 <= i < 32 ==> Bit(x, i) == Bit(y, i)
    ensures x == y
  {
    Pow2Values();
    var n: nat := 32;
    SameBits(x, y, n);
  }

  /** sha.c: D ^ (B & (C ^ D)) */
  lemma ChSelect(b: u32, c: u32, d: u32)
    ensures Xor32(d, And32(b, Xor32(c, d))) == Ch(b, c, d)
  {
    forall i | 0 <= i < 32 ensures Bit(Xor32(d, And32(b, Xor32(c, d))), i) == Bit(Ch(b, c, d), i) {
      Bit32(c, d, i);
      Bit32(b, Xor32(c, d), i);
      Bit32(d, And32(b, Xor32(c, d)), i);
      Bit32(b, c, i);
      Bit32(Not32(b), d, i);
      Bit32(And32(b, c), And32(Not32(b), d), i);
    }
    SameWord(Xor32(d, And32(b, Xor32(c, d))), Ch(b, c, d));
  }

  /** sha1.c: (B & C) | (~B & D) */
  lemma ChOr(b: u32, c: u32, d: u32)
    ensures Or32(And32(b, c), And32(Not32(b), d)) == Ch(b, c, d)
  {
    forall i | 0 <= i < 32 ensures Bit(Or32(And32(b, c), And32(Not32(b), d)), i) == Bit(Ch(b, c, d), i) {
      Bit32(b, c, i);
      Bit32(Not32(b), d, i);
      Bit32(And32(b, c), And32(Not32(b), d), i);
    }
    SameWord(Or32(And32(b, c), And32(Not32(b), d)), Ch(b, c, d));
  }

  lemma BitMaj(b: u32, c: u32, d: u32, i: nat)
    requires i < 32
    ensures Bit(Maj(b, c, d), i) == ((Bit(b, i) && Bit(c, i)) || (Bit(b, i) && Bit(d, i)) || (Bit(c, i) && Bit(d, i)))
  {
    Bit32(b, c, i);
    Bit32(b, d, i);
    Bit32(c, d, i);
    Bit32(And32(b, c), And32(b, d), i);
    Bit32(Xor32(And32(b, c), And32(b, d)), And32(c, d), i);
  }

  /** sha.c: (B & C) | (D & (B | C)) */
  lemma MajFactored(b: u32, c: u32, d: u32)
    ensures Or32(And32(b, c), And32(d, Or32(b, c))) == Maj(b, c, d)
  {
    forall i | 0 <= i < 32 ensures Bit(Or32(And32(b, c), And32(d, Or32(b, c))), i) == Bit(Maj(b, c, d), i) {
      Bit32(b, c, i);
      Bit32(d, Or32(b, c), i);
      Bit32(And32(b, c), And32(d, Or32(b, c)), i);
      BitMaj(b, c, d, i);
    }
    SameWord(Or32(And32(b, c), And32(d, Or32(b, c))), Maj(b, c, d));
  }

  /** sha1.c: (B & C) | (B & D) | (C & D) */
  lemma MajOr(b: u32, c: u32, d: u32)
    ensures Or32(Or32(And32(b, c), And32(b, d)), And32(c, d)) == Maj(b, c, d)
  {
    forall i | 0 <= i < 32 ensures Bit(Or32(Or32(And32(b, c), And32(b, d)), And32(c, d)), i) == Bit(Maj(b, c, d), i) {
      Bit32(b, c, i);
      Bit32(b, d, i);
      Bit32(c, d, i);
      Bit32(And32(b, c), And32(b, d), i);
      Bit32(Or32(And32(b, c), And32(b, d)), And32(c, d), i);
      BitMaj(b, c, d, i);
    }
    SameWord(Or32(Or32(And32(b, c), And32(b, d)), And32(c, d)), Maj(b, c, d));
  }

  function F(t: nat, x: u32, y: u32, z: u32): u32 {
    if t < 20 then Ch(x, y, z) else if t < 40 then Parity(x, y, z) else if t < 60 then Maj(x, y, z) else Parity(x, y, z)
  }

  /** FIPS 180-4, section 4.2.1 */
  function K(t: nat): u32 {
    if t < 20 then 0x5a82_7999 else if t < 40 then 0x6ed9_eba1 else if t < 60 then 0x8f1b_bcdc else 0xca62_c1d6
  }

  // ---------- Compression ----------

  /** A big-endian word. */
  function Be32(b0: byte, b1: byte, b2: byte, b3: byte): u32 { 0x100_0000 * b0 + 0x1_0000 * b1 + 0x100 * b2 + b3 }

  type Block = b: seq<byte> | |b| == 64 witness seq(64, _ => 0)

  /** Word t of the message schedule. */
  function W(block: Block, t: nat): u32 {
    if t < 16 then Be32(block[4 * t], block[4 * t + 1], block[4 * t + 2], block[4 * t + 3])
    else Rotl(Xor32(Xor32(Xor32(W(block, t - 3), W(block, t - 8)), W(block, t - 14)), W(block, t - 16)), 1)
  }

  datatype Registers = Registers(a: u32, b: u32, c: u32, d: u32, e: u32)

  function Round(r: Registers, t: nat, w: u32): Registers {
    var temp := (Rotl(r.a, 5) + F(t, r.b, r.c, r.d) + r.e + K(t) + w) % 0x1_0000_0000;
    Registers(temp, r.a, Rotl(r.b, 30), r.c, r.d)
  }

  /** The rounds with the words ws. */
  function Rounds(r: Registers, ws: seq<u32>): Registers {
    if ws == [] then r else Round(Rounds(r, ws[..|ws| - 1]), |ws| - 1, ws[|ws| - 1])
  }

  /** The message schedule. */
  function Schedule(block: Block): (ws: seq<u32>)
    ensures |ws| == 80
  {
    seq(80, t requires t >= 0 => W(block, t))
  }

  function AddRegisters(x: Registers, y: Registers): Registers {
    Registers(Add32(x.a, y.a), Add32(x.b, y.b), Add32(x.c, y.c), Add32(x.d, y.d), Add32(x.e, y.e))
  }

  /** FIPS 180-4, section 6.1.2 */
  function Compress(h: Registers, block: Block): Registers {
    AddRegisters(h, Rounds(h, Schedule(block)))
  }

  /** FIPS 180-4, section 5.3.1 */
  const INITIAL := Registers(0x6745_2301, 0xefcd_ab89, 0x98ba_dcfe, 0x1032_5476, 0xc3d2_e1f0)

  // ---------- Messages ----------

  /** The hash after whole blocks and the bytes of the block not complete yet. */
  datatype Progress = Progress(h: Registers, pending: seq<byte>)

  function AbsorbByte(s: Progress, b: byte): (r: Progress)
    requires |s.pending| < 64
    ensures |r.pending| < 64
  {
    if |s.pending| == 63 then Progress(Compress(s.h, s.pending + [b]), []) else Progress(s.h, s.pending + [b])
  }

  function Absorb(s: Progress, data: seq<byte>): (r: Progress)
    requires |s.pending| < 64
    ensures |r.pending| < 64 && |r.pending| == (|s.pending| + |data|) % 64
  {
    if data == [] then s else
      LastByte(|s.pending|, |data|);
      AbsorbByte(Absorb(s, data[..|data| - 1]), data[|data| - 1])
  }

  lemma LastByte(p: nat, n: nat)
    requires n > 0 && p < 64
    ensures (p + n) % 64 == if (p + n - 1) % 64 == 63 then 0 else (p + n - 1) % 64 + 1
  {
  }

  lemma {:induction false} AbsorbConcat(s: Progress, a: seq<byte>, b: seq<byte>)
    requires |s.pending| < 64
    ensures Absorb(s, a + b) == Absorb(Absorb(s, a), b)
  {
    if b == [] {
      assert a + b == a;
    } else {
      assert (a + b)[..|a + b| - 1] == a + b[..|b| - 1];
      AbsorbConcat(s, a, b[..|b| - 1]);
    }
  }

  /** The blocks of a padded message, one after another. */
  function Fold(h: Registers, blocks: seq<byte>): Registers
    requires |blocks| % 64 == 0
    decreases |blocks|
  {
    if blocks == [] then h else
      WholeBlocks(|blocks|);
      Fold(Compress(h, blocks[..64]), blocks[64..])
  }

  lemma WholeBlocks(n: nat)
    requires n > 0 && n % 64 == 0
    ensures n >= 64 && (n - 64) % 64 == 0
  {
  }

  lemma AbsorbNext(s: Progress, before: seq<byte>, b: byte)
    requires |s.pending| < 64
    ensures Absorb(s, before + [b]) == AbsorbByte(Absorb(s, before), b)
  {
    assert (before + [b])[..|before|] == before;
  }

  lemma {:induction false} AbsorbPart(h: Registers, data: seq<byte>)
    requires |data| < 64
    ensures Absorb(Progress(h, []), data) == Progress(h, data)
  {
    if data != [] {
      var before, b := data[..|data| - 1], data[|data| - 1];
      assert data == before + [b];
      AbsorbPart(h, before);
      AbsorbNext(Progress(h, []), before, b);
    }
  }

  lemma {:induction false} AbsorbBlocks(h: Registers, blocks: seq<byte>)
    requires |blocks| % 64 == 0
    ensures Absorb(Progress(h, []), blocks) == Progress(Fold(h, blocks), [])
    decreases |blocks|
  {
    if blocks != [] {
      WholeBlocks(|blocks|);
      var b, rest := blocks[..64], blocks[64..];
      AbsorbPart(h, b[..63]);
      assert b[..63] + [b[63]] == b && b + rest == blocks;
      AbsorbConcat(Progress(h, []), b, rest);
      AbsorbBlocks(Compress(h, b), rest);
    }
  }

  function Zeros(n: nat): seq<byte> { seq(n, _ => 0) }

  /** Byte i from the left of a 64-bit number. */
  function LengthByte(bits: nat, i: nat): byte
    requires i < 8
  {
    bits / Pow2(8 * (7 - i)) % 256
  }

  function LengthBytes(bits: nat): seq<byte> { seq(8, i requires 0 <= i < 8 => LengthByte(bits, i)) }

  /** The zero bytes of the padding: as few as possible. */
  function ZeroCount(n: nat): (k: nat)
    ensures k < 64 && (n + 1 + k) % 64 == 56
  {
    (55 - n) % 64
  }

  /** FIPS 180-4, section 5.1.1, for a message of n bytes. The length field has 64 bits. */
  function Padding(n: nat): seq<byte> {
    [0x80] + Zeros(ZeroCount(n)) + LengthBytes(8 * n)
  }

  lemma PaddedLength(n: nat)
    ensures (n + |Padding(n)|) % 64 == 0
  {
  }

  /** FIPS 180-4, section 6.1 */
  function Hash(h: Registers, message: seq<byte>): Registers {
    PaddedLength(|message|);
    Fold(h, message + Padding(|message|))
  }

  lemma AbsorbPadded(h: Registers, message: seq<byte>, padding: seq<byte>)
    requires |message + padding| % 64 == 0
    ensures Absorb(Absorb(Progress(h, []), message), padding) == Progress(Fold(h, message + padding), [])
  {
    AbsorbConcat(Progress(h, []), message, padding);
    AbsorbBlocks(h, message + padding);
  }

  /** Absorbing a message and its padding byte by byte gives the hash. */
  lemma AbsorbHash(h: Registers, message: seq<byte>)
    ensures Absorb(Absorb(Progress(h, []), message), Padding(|message|)) == Progress(Hash(h, message), [])
  {
    PaddedLength(|message|);
    AbsorbPadded(h, message, Padding(|message|));
  }

  /** The bytes of a word, the most significant first. */
  function BeBytes(x: u32): seq<byte> { [WordByte(x, 3), WordByte(x, 2), WordByte(x, 1), WordByte(x, 0)] }

  function DigestBytes(h: Registers): (r: seq<byte>)
    ensures |r| == 20
  {
    BeBytes(h.a) + BeBytes(h.b) + BeBytes(h.c) + BeBytes(h.d) + BeBytes(h.e)
  }
}
