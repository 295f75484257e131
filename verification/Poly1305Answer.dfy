/** The example of RFC 8439, section 2.5.2. */
module Poly1305Answer {
  import opened Bits
  import opened Memory
  import opened Poly1305Limbs

  // "Cryptographic Fo", "rum Research Gro" and "up"
  const BLOCK0: seq<byte> :=
    [0x43, 0x72, 0x79, 0x70, 0x74, 0x6f, 0x67, 0x72, 0x61, 0x70, 0x68, 0x69, 0x63, 0x20, 0x46, 0x6f]

  const BLOCK1: seq<byte> :=
    [0x72, 0x75, 0x6d, 0x20, 0x52, 0x65, 0x73, 0x65, 0x61, 0x72, 0x63, 0x68, 0x20, 0x47, 0x72, 0x6f]

  const KEY: seq<byte> :=
    [0x85, 0xd6, 0xbe, 0x78, 0x57, 0x55, 0x6d, 0x33, 0x7f, 0x44, 0x52, 0xfe, 0x42, 0xd5, 0x06, 0xa8,
     0x01, 0x03, 0x80, 0x8a, 0xfb, 0x0d, 0xb2, 0xfd, 0x4a, 0xbf, 0xf6, 0xaf, 0x41, 0x49, 0xf5, 0x1b]

  const TAG: seq<byte> :=
    [0xa8, 0x06, 0x1d, 0xc1, 0x30, 0x51, 0x36, 0xc6, 0xc2, 0x2b, 0x8b, 0xaf, 0x0c, 0x01, 0x27, 0xa9]

  const R: nat := 0x806d5400e52447c036d555408bed685
  const S: nat := 0x1bf54941aff6bf4afdb20dfb8a800301
  const C0: nat := 0x6f4620636968706172676f7470797243
  const C1: nat := 0x6f7247206863726165736552206d7572
  const RESIDUE: nat := 0x28d31b7caff946c77c8844335369d03a7
  const NUMBER: nat := 0xa927010caf8b2bc2c6365130c11d06a8

  lemma NumberOf16(b: seq<byte>, w0: nat, w1: nat, w2: nat, w3: nat, n: nat)
    requires |b| == 16 && Load32(b, 0) == w0 && Load32(b, 4) == w1 && Load32(b, 8) == w2 && Load32(b, 12) == w3
    requires n == w0 + 0x1_0000_0000 * w1 + 0x1_0000_0000_0000_0000 * w2 + 0x1_0000_0000_0000_0000_0000_0000 * w3
    ensures Le(b) == n
  {
    LeOf16(b);
  }

  lemma KeyHalves(key: seq<byte>)
    requires key == KEY
    ensures Le(Clamp(key)) == R && Le(key[16..]) == S
  {
    NumberOf16(Clamp(key), 0x8bed685, 0x36d5554, 0xe52447c, 0x806d540, R);
    NumberOf16(key[16..], 0x8a800301, 0xfdb20dfb, 0xaff6bf4a, 0x1bf54941, S);
  }

  lemma TagNumber(tag: seq<byte>, number: nat)
    requires tag == TAG && number == NUMBER
    ensures LeBytes(number, 16) == tag
  {
    NumberOf16(tag, 0xc11d06a8, 0xc6365130, 0xaf8b2bc2, 0xa927010c, number);
    LeBytesOfLe(tag);
  }

  /** A whole block has a one bit on top. */
  lemma FullBlock(msg: seq<byte>, i: nat, b: seq<byte>)
    requires 16 * i + 16 <= |msg| && b == msg[16 * i..16 * i + 16]
    ensures Coefficient(msg, i) == Le(b) + TWO_128
  {
    Pow2Values();
    Pow2Add(64, 64);
  }

  /** Two bytes at the end have it above them. */
  lemma ShortBlock(msg: seq<byte>, i: nat, b: seq<byte>, x: byte, y: byte)
    requires 16 * i + 2 == |msg| && b == msg[16 * i..] == [x, y]
    ensures Coefficient(msg, i) == x + 0x100 * y + 0x1_0000
  {
    Pow2Values();
    assert b[1..] == [y] && b[1..][1..] == [];
    assert Le(b) == x + 0x100 * Le(b[1..]) && Le(b[1..]) == y + 0x100 * Le([]);
    assert msg[16 * i..16 * i + 2] == b && 8 * (16 * i + 2 - 16 * i) == 16;
  }

  lemma Coefficients(msg: seq<byte>, b0: seq<byte>, b1: seq<byte>)
    requires msg == b0 + b1 + [0x75, 0x70] && |b0| == |b1| == 16 && Le(b0) == C0 && Le(b1) == C1
    ensures |msg| == 34 && Coefficient(msg, 0) == C0 + TWO_128 && Coefficient(msg, 1) == C1 + TWO_128
    ensures Coefficient(msg, 2) == 0x1_7075
  {
    FullBlock(msg, 0, b0);
    FullBlock(msg, 1, b1);
    ShortBlock(msg, 2, [0x75, 0x70], 0x75, 0x70);
  }

  lemma FirstBlock(b: seq<byte>)
    requires b == BLOCK0
    ensures Le(b) == C0
  {
    NumberOf16(b, 0x70797243, 0x72676f74, 0x69687061, 0x6f462063, C0);
  }

  lemma SecondBlock(b: seq<byte>)
    requires b == BLOCK1
    ensures Le(b) == C1
  {
    NumberOf16(b, 0x206d7572, 0x65736552, 0x68637261, 0x6f724720, C1);
  }

  lemma Horner(x0: nat, x1: nat)
    requires x0 == (C0 + TWO_128) * R
    requires x1 == (x0 + (C1 + TWO_128)) * R
    ensures (x1 + 0x1_7075) * R % P == RESIDUE
  {
  }

  lemma TagIs(sum: nat)
    requires sum == RESIDUE + S
    ensures sum % TWO_128 == NUMBER
  {
  }

  lemma Residue(msg: seq<byte>)
    requires |msg| == 34 && Coefficient(msg, 0) == C0 + TWO_128 && Coefficient(msg, 1) == C1 + TWO_128
    requires Coefficient(msg, 2) == 0x1_7075
    ensures Polynomial(msg, R, 3) % P == RESIDUE
  {
    PolynomialStep(msg, R, 0);
    PolynomialStep(msg, R, 1);
    PolynomialStep(msg, R, 2);
    Horner(Polynomial(msg, R, 1), Polynomial(msg, R, 2));
  }

  lemma TagParts(msg: seq<byte>, key: seq<byte>, r: nat, s: nat, n: nat, number: nat, tag: seq<byte>)
    requires |key| == 32 && Le(Clamp(key)) == r && Le(key[16..]) == s && n == BlockCount(msg)
    requires (Polynomial(msg, r, n) % P + s) % TWO_128 == number && LeBytes(number, 16) == tag
    ensures Tag(msg, key) == tag
  {
    var sum := Polynomial(msg, r, n) % P + s;
    assert Tag(msg, key) == LeBytes(sum % TWO_128, 16);
  }

  lemma MessageResidue(msg: seq<byte>, b0: seq<byte>, b1: seq<byte>)
    requires b0 == BLOCK0 && b1 == BLOCK1 && msg == b0 + b1 + [0x75, 0x70]
    ensures BlockCount(msg) == 3 && Polynomial(msg, R, 3) % P == RESIDUE
  {
    FirstBlock(b0);
    SecondBlock(b1);
    Coefficients(msg, b0, b1);
    Residue(msg);
  }

  lemma TagOf(msg: seq<byte>, key: seq<byte>, tag: seq<byte>, r: nat, s: nat, n: nat, number: nat)
    requires msg == BLOCK0 + BLOCK1 + [0x75, 0x70] && key == KEY && tag == TAG
    requires r == R && s == S && n == 3 && number == NUMBER
    ensures Tag(msg, key) == tag
  {
    KeyHalves(key);
    MessageResidue(msg, BLOCK0, BLOCK1);
    TagIs(Polynomial(msg, r, n) % P + s);
    TagNumber(tag, number);
    TagParts(msg, key, r, s, n, number, tag);
  }

  /** The tag that RFC 8439 gives for its message and key. */
  lemma TagAnswer()
    ensures Tag(BLOCK0 + BLOCK1 + [0x75, 0x70], KEY) == TAG
  {
    TagOf(BLOCK0 + BLOCK1 + [0x75, 0x70], KEY, TAG, R, S, 3, NUMBER);
  }
}
