/** The polynomial evaluation of RFC 8439, section 2.5, and the 26-bit limbs in which
    chacha20poly1305.c carries it out modulo 2^130 - 5. */
module Poly1305Limbs {
  import opened Bits
  import opened Memory
  import opened Modular

  const P: nat := 0x3_ffff_ffff_ffff_ffff_ffff_ffff_ffff_fffb
  const B: nat := 0x400_0000
  const TWO_128: nat := 0x1_0000_0000_0000_0000_0000_0000_0000_0000

  // ---------- Reference ----------

  /** The first half of the key with the bits RFC 8439 wants clear cleared. */
  function Clamp(r: seq<byte>): seq<byte>
    requires |r| >= 16
  {
    [r[0], r[1], r[2], r[3] % 16,
     r[4] - r[4] % 4, r[5], r[6], r[7] % 16,
     r[8] - r[8] % 4, r[9], r[10], r[11] % 16,
     r[12] - r[12] % 4, r[13], r[14], r[15] % 16]
  }

  /** Coefficient i of a message: its 16 bytes with a one bit on top; the last may be shorter. */
  function Coefficient(msg: seq<byte>, i: nat): nat
    requires 16 * i < |msg|
  {
    var end := if 16 * i + 16 <= |msg| then 16 * i + 16 else |msg|;
    Le(msg[16 * i..end]) + Pow2(8 * (end - 16 * i))
  }

  function BlockCount(msg: seq<byte>): nat { (|msg| + 15) / 16 }

  /** c[0] * r^n + c[1] * r^(n-1) + ... + c[n-1] * r for the first n coefficients. */
  function Polynomial(msg: seq<byte>, r: nat, n: nat): nat
    requires n <= BlockCount(msg)
  {
    Terms(msg, r, n, n)
  }

  /** The sum of the first k of the n terms. */
  function Terms(msg: seq<byte>, r: nat, n: nat, k: nat): nat
    requires k <= n <= BlockCount(msg)
  {
    if k == 0 then 0 else Terms(msg, r, n, k - 1) + Coefficient(msg, k - 1) * Power(r, n - (k - 1))
  }

  /** The tag of a message: the polynomial modulo 2^130 - 5, plus the second half of the
      key, modulo 2^128. */
  function Tag(msg: seq<byte>, key: seq<byte>): (tag: seq<byte>)
    requires |key| == 32
    ensures |tag| == 16
  {
    var sum := Polynomial(msg, Le(Clamp(key)), BlockCount(msg)) % P + Le(key[16..]);
    LeBytes(sum % TWO_128, 16)
  }

  /** One more coefficient is one Horner step. */
  lemma {:induction false} PolynomialStep(msg: seq<byte>, r: nat, n: nat)
    requires n < BlockCount(msg)
    ensures Polynomial(msg, r, n + 1) == (Polynomial(msg, r, n) + Coefficient(msg, n)) * r
  {
    TermsStep(msg, r, n, n);
    assert Power(r, 1) == r * Power(r, 0) == r;
  }

  lemma {:induction false} TermsStep(msg: seq<byte>, r: nat, n: nat, k: nat)
    requires k <= n < BlockCount(msg)
    ensures Terms(msg, r, n + 1, k) == Terms(msg, r, n, k) * r
  {
    if k > 0 {
      TermsStep(msg, r, n, k - 1);
      HornerTerm(Terms(msg, r, n, k - 1), Coefficient(msg, k - 1), Power(r, n - (k - 1)), r);
    }
  }

  lemma HornerTerm(t: nat, c: nat, p: nat, r: nat)
    ensures t * r + c * (r * p) == (t + c * p) * r
  {
    assert c * (r * p) == (c * p) * r;
  }

  // ---------- Limbs ----------

  function Value(h0: nat, h1: nat, h2: nat, h3: nat, h4: nat): nat {
    h0 + B * h1 + 0x10_0000_0000_0000 * h2 + 0x4000_0000_0000_0000_0000 * h3 + 0x100_0000_0000_0000_0000_0000_0000 * h4
  }

  /** Five limbs, as the C code's h0..h4 or r0..r4. */
  datatype Limbs = Limbs(l0: u32, l1: u32, l2: u32, l3: u32, l4: u32) {
    function Number(): nat { Value(l0, l1, l2, l3, l4) }
  }

  lemma LeOf16(b: seq<byte>)
    requires |b| == 16
    ensures Le(b) == Load32(b, 0) + 0x1_0000_0000 * Load32(b, 4) + 0x1_0000_0000_0000_0000 * Load32(b, 8)
                   + 0x1_0000_0000_0000_0000_0000_0000 * Load32(b, 12)
  {
    LeOf4(b);
    LeOf4(b[4..]);
    LeOf4(b[8..]);
    LeOf4(b[12..]);
    assert b[4..][4..] == b[8..] && b[8..][4..] == b[12..] && b[12..][4..] == [];
  }

  // The columns of the product of two limb vectors, folded at 2^130 with weight 5.
  function Column0(a0: nat, a1: nat, a2: nat, a3: nat, a4: nat, r0: nat, r1: nat, r2: nat, r3: nat, r4: nat): nat {
    a0 * r0 + a1 * (r4 * 5) + a2 * (r3 * 5) + a3 * (r2 * 5) + a4 * (r1 * 5)
  }

  function Column1(a0: nat, a1: nat, a2: nat, a3: nat, a4: nat, r0: nat, r1: nat, r2: nat, r3: nat, r4: nat): nat {
    a0 * r1 + a1 * r0 + a2 * (r4 * 5) + a3 * (r3 * 5) + a4 * (r2 * 5)
  }

  function Column2(a0: nat, a1: nat, a2: nat, a3: nat, a4: nat, r0: nat, r1: nat, r2: nat, r3: nat, r4: nat): nat {
    a0 * r2 + a1 * r1 + a2 * r0 + a3 * (r4 * 5) + a4 * (r3 * 5)
  }

  function Column3(a0: nat, a1: nat, a2: nat, a3: nat, a4: nat, r0: nat, r1: nat, r2: nat, r3: nat, r4: nat): nat {
    a0 * r3 + a1 * r2 + a2 * r1 + a3 * r0 + a4 * (r4 * 5)
  }

  function Column4(a0: nat, a1: nat, a2: nat, a3: nat, a4: nat, r0: nat, r1: nat, r2: nat, r3: nat, r4: nat): nat {
    a0 * r4 + a1 * r3 + a2 * r2 + a3 * r1 + a4 * r0
  }

  lemma Row(h: nat, r0: nat, r1: nat, r2: nat, r3: nat, r4: nat)
    ensures h * Value(r0, r1, r2, r3, r4) == Value(h * r0, h * r1, h * r2, h * r3, h * r4)
  {
  }

  lemma Fives(h: nat, r1: nat, r2: nat, r3: nat, r4: nat)
    ensures h * (r1 * 5) == 5 * (h * r1) && h * (r2 * 5) == 5 * (h * r2)
    ensures h * (r3 * 5) == 5 * (h * r3) && h * (r4 * 5) == 5 * (h * r4)
  {
  }

  lemma Rows(h0: nat, h1: nat, h2: nat, h3: nat, h4: nat, r: nat)
    ensures Value(h0, h1, h2, h3, h4) * r == Value(h0 * r, h1 * r, h2 * r, h3 * r, h4 * r)
  {
  }

  /** The product as a number of rows. */
  lemma ProductRows(a0: nat, a1: nat, a2: nat, a3: nat, a4: nat, r0: nat, r1: nat, r2: nat, r3: nat, r4: nat, r: nat)
    requires r == Value(r0, r1, r2, r3, r4)
    ensures Value(a0, a1, a2, a3, a4) * r
         == Value(Value(a0 * r0, a0 * r1, a0 * r2, a0 * r3, a0 * r4),
                  Value(a1 * r0, a1 * r1, a1 * r2, a1 * r3, a1 * r4),
                  Value(a2 * r0, a2 * r1, a2 * r2, a2 * r3, a2 * r4),
                  Value(a3 * r0, a3 * r1, a3 * r2, a3 * r3, a3 * r4),
                  Value(a4 * r0, a4 * r1, a4 * r2, a4 * r3, a4 * r4))
  {
    Rows(a0, a1, a2, a3, a4, r);
    Row(a0, r0, r1, r2, r3, r4);
    Row(a1, r0, r1, r2, r3, r4);
    Row(a2, r0, r1, r2, r3, r4);
    Row(a3, r0, r1, r2, r3, r4);
    Row(a4, r0, r1, r2, r3, r4);
  }

  /** The columns stand for the product modulo 2^130 - 5. */
  lemma ProductFold(a0: nat, a1: nat, a2: nat, a3: nat, a4: nat, r0: nat, r1: nat, r2: nat, r3: nat, r4: nat, r: nat)
    requires r == Value(r0, r1, r2, r3, r4)
    ensures Congruent(P, Value(a0, a1, a2, a3, a4) * r,
      Value(Column0(a0, a1, a2, a3, a4, r0, r1, r2, r3, r4), Column1(a0, a1, a2, a3, a4, r0, r1, r2, r3, r4),
            Column2(a0, a1, a2, a3, a4, r0, r1, r2, r3, r4), Column3(a0, a1, a2, a3, a4, r0, r1, r2, r3, r4),
            Column4(a0, a1, a2, a3, a4, r0, r1, r2, r3, r4)))
  {
    ProductRows(a0, a1, a2, a3, a4, r0, r1, r2, r3, r4, r);
    Fives(a1, r1, r2, r3, r4);
    Fives(a2, r1, r2, r3, r4);
    Fives(a3, r1, r2, r3, r4);
    Fives(a4, r1, r2, r3, r4);
    Fold(a0 * r0, a0 * r1, a0 * r2, a0 * r3, a0 * r4, a1 * r0, a1 * r1, a1 * r2, a1 * r3, a1 * r4,
         a2 * r0, a2 * r1, a2 * r2, a2 * r3, a2 * r4, a3 * r0, a3 * r1, a3 * r2, a3 * r3, a3 * r4,
         a4 * r0, a4 * r1, a4 * r2, a4 * r3, a4 * r4);
    CongruentBy(P, Value(a0, a1, a2, a3, a4) * r,
      Value(Column0(a0, a1, a2, a3, a4, r0, r1, r2, r3, r4), Column1(a0, a1, a2, a3, a4, r0, r1, r2, r3, r4),
            Column2(a0, a1, a2, a3, a4, r0, r1, r2, r3, r4), Column3(a0, a1, a2, a3, a4, r0, r1, r2, r3, r4),
            Column4(a0, a1, a2, a3, a4, r0, r1, r2, r3, r4)),
      Value(a1 * r4 + a2 * r3 + a3 * r2 + a4 * r1, a2 * r4 + a3 * r3 + a4 * r2, a3 * r4 + a4 * r3, a4 * r4, 0));
  }

  /** The folding, once the 25 products are numbers. */
  lemma Fold(p00: nat, p01: nat, p02: nat, p03: nat, p04: nat,
                  p10: nat, p11: nat, p12: nat, p13: nat, p14: nat,
                  p20: nat, p21: nat, p22: nat, p23: nat, p24: nat,
                  p30: nat, p31: nat, p32: nat, p33: nat, p34: nat,
                  p40: nat, p41: nat, p42: nat, p43: nat, p44: nat)
    ensures Value(Value(p00, p01, p02, p03, p04),
                  Value(p10, p11, p12, p13, p14),
                  Value(p20, p21, p22, p23, p24),
                  Value(p30, p31, p32, p33, p34),
                  Value(p40, p41, p42, p43, p44))
         == Value(p00 + 5 * p14 + 5 * p23 + 5 * p32 + 5 * p41,
                  p01 + p10 + 5 * p24 + 5 * p33 + 5 * p42,
                  p02 + p11 + p20 + 5 * p34 + 5 * p43,
                  p03 + p12 + p21 + p30 + 5 * p44,
                  p04 + p13 + p22 + p31 + p40)
          + P * Value(p14 + p23 + p32 + p41, p24 + p33 + p42, p34 + p43, p44, 0)
  {
  }

  lemma And26(x: nat)
    ensures And(x, 0x3ff_ffff) == x % B
  {
    Pow2Values();
    AndLowMask(x, 26);
  }

  /** The five limbs of a 16-byte block, with hibit on top. */
  lemma MessageLimbs(b: seq<byte>, hibit: nat)
    requires |b| == 16 && (hibit == 0 || hibit == 0x100_0000)
    ensures var m0 := And(Load32(b, 0), 0x3ff_ffff);
      var m1 := And(Load32(b, 3) / 4, 0x3ff_ffff);
      var m2 := And(Load32(b, 6) / 16, 0x3ff_ffff);
      var m3 := And(Load32(b, 9) / 64, 0x3ff_ffff);
      var m4 := Or(Load32(b, 12) / 256, hibit);
      && m0 < B && m1 < B && m2 < B && m3 < B && m4 < 0x200_0000
      && Value(m0, m1, m2, m3, m4) == Le(b) + hibit * 0x100_0000_0000_0000_0000_0000_0000
  {
    And26(Load32(b, 0));
    And26(Load32(b, 3) / 4);
    And26(Load32(b, 6) / 16);
    And26(Load32(b, 9) / 64);
    OrHibit(Load32(b, 12) / 256, hibit);
    LeOf16(b);
    LimbsOfBytes(b);
  }

  lemma OrHibit(x: nat, hibit: nat)
    requires x < 0x100_0000 && (hibit == 0 || hibit == 0x100_0000)
    ensures Or(x, hibit) == x + hibit
  {
    Pow2Values();
    if hibit != 0 {
      OrDisjoint(x, 1, 24);
    }
  }

  /** The limbs as groups of 26 bits. */
  lemma LimbsOfBytes(b: seq<byte>)
    requires |b| == 16
    ensures Value(Load32(b, 0) % B, (Load32(b, 3) / 4) % B, (Load32(b, 6) / 16) % B, (Load32(b, 9) / 64) % B,
                  Load32(b, 12) / 256)
         == Load32(b, 0) + 0x1_0000_0000 * Load32(b, 4) + 0x1_0000_0000_0000_0000 * Load32(b, 8)
          + 0x1_0000_0000_0000_0000_0000_0000 * Load32(b, 12)
    ensures Load32(b, 12) / 256 < 0x100_0000
  {
    LimbGroups(b[0], b[1], b[2], b[3], b[4], b[5], b[6], b[7], b[8], b[9], b[10], b[11], b[12], b[13], b[14], b[15]);
  }

  lemma LimbGroups(b0: byte, b1: byte, b2: byte, b3: byte, b4: byte, b5: byte, b6: byte, b7: byte,
                   b8: byte, b9: byte, b10: byte, b11: byte, b12: byte, b13: byte, b14: byte, b15: byte)
    ensures Word(b0, b1, b2, b3) % B == Word(b0, b1, b2, b3 % 4)
    ensures (Word(b3, b4, b5, b6) / 4) % B == b3 / 4 + 0x40 * b4 + 0x4000 * b5 + 0x40_0000 * (b6 % 16)
    ensures (Word(b6, b7, b8, b9) / 16) % B == b6 / 16 + 0x10 * b7 + 0x1000 * b8 + 0x10_0000 * (b9 % 64)
    ensures (Word(b9, b10, b11, b12) / 64) % B == b9 / 64 + 4 * b10 + 0x400 * b11 + 0x4_0000 * b12
    ensures Word(b12, b13, b14, b15) / 256 == b13 + 0x100 * b14 + 0x1_0000 * b15
  {
    Group0(b0, b1, b2, b3);
    Group1(b3, b4, b5, b6);
    Group2(b6, b7, b8, b9);
    Group3(b9, b10, b11, b12);
    Group4(b12, b13, b14, b15);
  }

  lemma Group0(x: byte, y: byte, z: byte, w: byte)
    ensures Word(x, y, z, w) % B == Word(x, y, z, w % 4)
  {
    DivModUnique(Word(x, y, z, w), B, w / 4, Word(x, y, z, w % 4));
  }

  lemma Group1(x: byte, y: byte, z: byte, w: byte)
    ensures Word(x, y, z, w) / 4 == x / 4 + 0x40 * y + 0x4000 * z + 0x40_0000 * w
    ensures (Word(x, y, z, w) / 4) % B == x / 4 + 0x40 * y + 0x4000 * z + 0x40_0000 * (w % 16)
  {
    var v := x / 4 + 0x40 * y + 0x4000 * z + 0x40_0000 * w;
    DivModUnique(Word(x, y, z, w), 4, v, x % 4);
    DivModUnique(v, B, w / 16, v - 0x40_0000 * w + 0x40_0000 * (w % 16));
  }

  lemma Group2(x: byte, y: byte, z: byte, w: byte)
    ensures Word(x, y, z, w) / 16 == x / 16 + 0x10 * y + 0x1000 * z + 0x10_0000 * w
    ensures (Word(x, y, z, w) / 16) % B == x / 16 + 0x10 * y + 0x1000 * z + 0x10_0000 * (w % 64)
  {
    var v := x / 16 + 0x10 * y + 0x1000 * z + 0x10_0000 * w;
    DivModUnique(Word(x, y, z, w), 16, v, x % 16);
    DivModUnique(v, B, w / 64, v - 0x10_0000 * w + 0x10_0000 * (w % 64));
  }

  lemma Group3(x: byte, y: byte, z: byte, w: byte)
    ensures (Word(x, y, z, w) / 64) % B == Word(x, y, z, w) / 64 == x / 64 + 4 * y + 0x400 * z + 0x4_0000 * w
  {
    var v := x / 64 + 4 * y + 0x400 * z + 0x4_0000 * w;
    DivModUnique(Word(x, y, z, w), 64, v, x % 64);
    DivModUnique(v, B, 0, v);
  }

  lemma Group4(x: byte, y: byte, z: byte, w: byte)
    ensures Word(x, y, z, w) / 256 == y + 0x100 * z + 0x1_0000 * w
  {
    DivModUnique(Word(x, y, z, w), 256, y + 0x100 * z + 0x1_0000 * w, x);
  }

  // ---------- The key ----------

  function R0(key: seq<byte>): nat requires |key| == 32 { And(Load32(key, 0), 0x3ff_ffff) }
  function R1(key: seq<byte>): nat requires |key| == 32 { And(Load32(key, 3) / 4, MASK1) }
  function R2(key: seq<byte>): nat requires |key| == 32 { And(Load32(key, 6) / 16, MASK2) }
  function R3(key: seq<byte>): nat requires |key| == 32 { And(Load32(key, 9) / 64, MASK3) }
  function R4(key: seq<byte>): nat requires |key| == 32 { And(Load32(key, 12) / 256, MASK4) }

  /** The masks of the five key limbs amount to clamping the key. */
  lemma KeyLimbs(key: seq<byte>)
    requires |key| == 32
    ensures R0(key) < B && R1(key) < B && R2(key) < B && R3(key) < B && R4(key) < 0x10_0000
    ensures Value(R0(key), R1(key), R2(key), R3(key), R4(key)) == Le(Clamp(key))
  {
    var c := Clamp(key);
    LeOf16(c);
    LimbsOfBytes(c);
    ClampedLimbs(key);
  }

  lemma ClampedLimbs(key: seq<byte>)
    requires |key| == 32
    ensures var c := Clamp(key);
      && R0(key) == Load32(c, 0) % B && R1(key) == (Load32(c, 3) / 4) % B && R2(key) == (Load32(c, 6) / 16) % B
      && R3(key) == (Load32(c, 9) / 64) % B && R4(key) == Load32(c, 12) / 256 < 0x10_0000
  {
    Limb0Clamped(key);
    Limb1Clamped(key);
    Limb2Clamped(key);
    Limb3Clamped(key);
    Limb4Clamped(key);
  }

  lemma Limb0Clamped(key: seq<byte>)
    requires |key| == 32
    ensures R0(key) == Load32(Clamp(key), 0) % B
  {
    KeyLimb0(key[0], key[1], key[2], key[3]);
  }

  lemma Limb1Clamped(key: seq<byte>)
    requires |key| == 32
    ensures R1(key) == (Load32(Clamp(key), 3) / 4) % B
  {
    KeyLimb1(key[3], key[4], key[5], key[6]);
  }

  lemma Limb2Clamped(key: seq<byte>)
    requires |key| == 32
    ensures R2(key) == (Load32(Clamp(key), 6) / 16) % B
  {
    KeyLimb2(key[6], key[7], key[8], key[9]);
  }

  lemma Limb3Clamped(key: seq<byte>)
    requires |key| == 32
    ensures R3(key) == (Load32(Clamp(key), 9) / 64) % B
  {
    KeyLimb3(key[9], key[10], key[11], key[12]);
  }

  lemma Limb4Clamped(key: seq<byte>)
    requires |key| == 32
    ensures R4(key) == Load32(Clamp(key), 12) / 256 < 0x10_0000
  {
    KeyLimb4(key[12], key[13], key[14], key[15]);
  }

  lemma KeyLimb0(x: byte, y: byte, z: byte, w: byte)
    ensures And(Word(x, y, z, w), 0x3ff_ffff) == Word(x, y, z, w % 16) % B
  {
    And26(Word(x, y, z, w));
    Group0(x, y, z, w);
    Group0(x, y, z, w % 16);
    DivModUnique(w % 16, 4, w / 4 - 4 * (w / 16), w % 4);
  }

  /** Masking with two runs of ones: lo at the bottom, t more above s + gap. */
  lemma AndTwoRuns(x: nat, lo: nat, s: nat, gap: nat, t: nat)
    requires lo <= s
    ensures And(x, Ones(lo) + Shl(Shl(Ones(t), gap), s))
         == Low(Low(x, s), lo) + Shl(Shl(Low(Shr(Shr(x, s), gap), t), gap), s)
  {
    Pow2Monotone(lo, s);
    var u := Shr(x, s);
    AndParts(x, Ones(lo), Shl(Ones(t), gap), s);
    AndLowMask(Low(x, s), lo);
    AndParts(u, 0, Ones(t), gap);
    AndLowMask(Shr(u, gap), t);
  }

  const MASK1: nat := 0x3ff_ff03
  const MASK2: nat := 0x3ff_c0ff
  const MASK3: nat := 0x3f0_3fff
  const MASK4: nat := 0xf_ffff

  /** AndTwoRuns with the powers of two evaluated. */
  lemma Mask(v: nat, lo: nat, s: nat, gap: nat, t: nat, plo: nat, ps: nat, pgap: nat, pt: nat)
    requires lo <= s && plo == Pow2(lo) && ps == Pow2(s) && pgap == Pow2(gap) && pt == Pow2(t)
    ensures And(v, plo - 1 + (pt - 1) * pgap * ps) == v % ps % plo + v / ps / pgap % pt * pgap * ps
  {
    AndTwoRuns(v, lo, s, gap, t);
  }

  lemma ModMod(v: nat, m: nat)
    requires m > 0
    ensures v % m % m == v % m
  {
    DivModBounds(v, m);
    DivModUnique(v % m, m, 0, v % m);
  }

  lemma Mask1(v: nat)
    ensures And(v, MASK1) == v % 0x100 % 4 + 0x100 * (v / 0x100 % 0x4_0000)
  {
    Pow2Small();
    Mask(v, 2, 8, 0, 18, 4, 0x100, 1, 0x4_0000);
  }

  lemma Mask2(v: nat)
    ensures And(v, MASK2) == v % 0x100 + 0x4000 * (v / 0x100 / 0x40 % 0x1000)
  {
    Pow2Small();
    ModMod(v, 0x100);
    Mask(v, 8, 8, 6, 12, 0x100, 0x100, 0x40, 0x1000);
  }

  lemma Mask3(v: nat)
    ensures And(v, MASK3) == v % 0x4000 + 0x10_0000 * (v / 0x4000 / 0x40 % 0x40)
  {
    Pow2Small();
    ModMod(v, 0x4000);
    Mask(v, 14, 14, 6, 6, 0x4000, 0x4000, 0x40, 0x40);
  }

  lemma Mask4(v: nat)
    ensures And(v, MASK4) == v % 0x10_0000
  {
    Pow2Small();
    AndLowMask(v, 20);
  }

  // The masked limbs in terms of the bytes, without the bitwise operator.
  lemma Bytes1(x: byte, y: byte, z: byte, w: byte)
    ensures var v := x / 4 + 0x40 * y + 0x4000 * z + 0x40_0000 * w;
      v % 0x100 % 4 + 0x100 * (v / 0x100 % 0x4_0000)
        == x % 16 / 4 + 0x40 * (y - y % 4) + 0x4000 * z + 0x40_0000 * (w % 16)
  {
    var v := x / 4 + 0x40 * y + 0x4000 * z + 0x40_0000 * w;
    var lo, hi := x / 4 + 0x40 * (y % 4), y / 4 + 0x40 * z + 0x4000 * w;
    DivModUnique(v, 0x100, hi, lo);
    DivModUnique(lo, 4, x / 16 + 0x10 * (y % 4), x / 4 % 4);
    DivModUnique(hi, 0x4_0000, w / 16, y / 4 + 0x40 * z + 0x4000 * (w % 16));
    assert x % 16 / 4 == x / 4 % 4;
  }

  lemma Bytes2(x: byte, y: byte, z: byte, w: byte)
    ensures var v := x / 16 + 0x10 * y + 0x1000 * z + 0x10_0000 * w;
      v % 0x100 + 0x4000 * (v / 0x100 / 0x40 % 0x1000)
        == x / 16 + 0x10 * (y % 16) + 0x1000 * (z - z % 4) + 0x10_0000 * (w % 64)
  {
    var v := x / 16 + 0x10 * y + 0x1000 * z + 0x10_0000 * w;
    var hi := y / 16 + 0x10 * z + 0x1000 * w;
    DivModUnique(v, 0x100, hi, x / 16 + 0x10 * (y % 16));
    DivModUnique(hi, 0x40, z / 4 + 0x40 * w, y / 16 + 0x10 * (z % 4));
    DivModUnique(z / 4 + 0x40 * w, 0x1000, w / 64, z / 4 + 0x40 * (w % 64));
  }

  lemma Bytes3(x: byte, y: byte, z: byte, w: byte)
    ensures var v := x / 64 + 4 * y + 0x400 * z + 0x4_0000 * w;
      v % 0x4000 + 0x10_0000 * (v / 0x4000 / 0x40 % 0x40)
        == x / 64 + 4 * y + 0x400 * (z % 16) + 0x4_0000 * (w - w % 4)
  {
    var v := x / 64 + 4 * y + 0x400 * z + 0x4_0000 * w;
    var hi := z / 16 + 0x10 * w;
    DivModUnique(v, 0x4000, hi, x / 64 + 4 * y + 0x400 * (z % 16));
    DivModUnique(hi, 0x40, w / 4, z / 16 + 0x10 * (w % 4));
    DivModUnique(w / 4, 0x40, 0, w / 4);
  }

  lemma KeyLimb1(x: byte, y: byte, z: byte, w: byte)
    ensures And(Word(x, y, z, w) / 4, MASK1) == (Word(x % 16, y - y % 4, z, w) / 4) % B
  {
    Group1(x, y, z, w);
    Group1(x % 16, y - y % 4, z, w);
    Mask1(Word(x, y, z, w) / 4);
    Bytes1(x, y, z, w);
  }

  lemma KeyLimb2(x: byte, y: byte, z: byte, w: byte)
    ensures And(Word(x, y, z, w) / 16, MASK2) == (Word(x, y % 16, z - z % 4, w) / 16) % B
  {
    Group2(x, y, z, w);
    Group2(x, y % 16, z - z % 4, w);
    Mask2(Word(x, y, z, w) / 16);
    Bytes2(x, y, z, w);
  }

  lemma KeyLimb3(x: byte, y: byte, z: byte, w: byte)
    ensures And(Word(x, y, z, w) / 64, MASK3) == (Word(x, y, z % 16, w - w % 4) / 64) % B
  {
    Group3(x, y, z, w);
    Group3(x, y, z % 16, w - w % 4);
    Mask3(Word(x, y, z, w) / 64);
    Bytes3(x, y, z, w);
  }

  lemma KeyLimb4(x: byte, y: byte, z: byte, w: byte)
    ensures And(Word(x, y, z, w) / 256, MASK4) == Word(x - x % 4, y, z, w % 16) / 256 < 0x10_0000
  {
    var v := Word(x, y, z, w) / 256;
    Group4(x, y, z, w);
    Group4(x - x % 4, y, z, w % 16);
    DivModUnique(v, 0x10_0000, w / 16, y + 0x100 * z + 0x1_0000 * (w % 16));
    Mask4(v);
  }
}
