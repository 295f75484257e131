/** The Poly1305 authenticator of 3rd/sqlite3_key/src/src/chacha20poly1305.c.  Every
    variable has its C type, so each assignment also shows that nothing overflows. */
module Poly1305 {
  import opened Bits
  import opened Memory
  import opened Modular
  import opened Poly1305Limbs

  /** The running limbs between blocks: the lowest is left unreduced. */
  predicate Running(h0: nat, h1: nat, h2: nat, h3: nat, h4: nat) {
    h0 < 47 * B && h1 < B && h2 < B && h3 < B && h4 < B
  }

  predicate KeyBounds(r0: nat, r1: nat, r2: nat, r3: nat, r4: nat) {
    r0 < B && r1 < B && r2 < B && r3 < B && r4 < 0x10_0000
  }

  /** The limbs after a block has been added. */
  predicate Summed(a0: nat, a1: nat, a2: nat, a3: nat, a4: nat) {
    a0 < 48 * B && a1 < 2 * B && a2 < 2 * B && a3 < 2 * B && a4 < 2 * B
  }

  lemma MulBound(x: nat, y: nat, u: nat, v: nat)
    requires x <= u && y <= v
    ensures 0 <= x * y <= u * v
  {
    MulLe(x, u, y);
    MulLe(y, v, u);
  }

  /** The columns leave room for the carries in 64 bits. */
  lemma ColumnBounds(a0: nat, a1: nat, a2: nat, a3: nat, a4: nat, r0: nat, r1: nat, r2: nat, r3: nat, r4: nat)
    requires Summed(a0, a1, a2, a3, a4) && KeyBounds(r0, r1, r2, r3, r4)
    ensures Column0(a0, a1, a2, a3, a4, r0, r1, r2, r3, r4) <= 0x500_0000_0000_0000
    ensures Column1(a0, a1, a2, a3, a4, r0, r1, r2, r3, r4) <= 0x500_0000_0000_0000
    ensures Column2(a0, a1, a2, a3, a4, r0, r1, r2, r3, r4) <= 0x500_0000_0000_0000
    ensures Column3(a0, a1, a2, a3, a4, r0, r1, r2, r3, r4) <= 0x500_0000_0000_0000
    ensures Column4(a0, a1, a2, a3, a4, r0, r1, r2, r3, r4) <= 0x8c_0000_0000_0000
  {
    MulBound(a0, r0, 0xc000_0000, 0x400_0000);
    MulBound(a1, r4 * 5, 0x800_0000, 0x50_0000);
    MulBound(a2, r3 * 5, 0x800_0000, 0x1400_0000);
    MulBound(a3, r2 * 5, 0x800_0000, 0x1400_0000);
    MulBound(a4, r1 * 5, 0x800_0000, 0x1400_0000);
    MulBound(a0, r1, 0xc000_0000, 0x400_0000);
    MulBound(a1, r0, 0x800_0000, 0x400_0000);
    MulBound(a2, r4 * 5, 0x800_0000, 0x50_0000);
    MulBound(a3, r3 * 5, 0x800_0000, 0x1400_0000);
    MulBound(a4, r2 * 5, 0x800_0000, 0x1400_0000);
    MulBound(a0, r2, 0xc000_0000, 0x400_0000);
    MulBound(a1, r1, 0x800_0000, 0x400_0000);
    MulBound(a2, r0, 0x800_0000, 0x400_0000);
    MulBound(a3, r4 * 5, 0x800_0000, 0x50_0000);
    MulBound(a4, r3 * 5, 0x800_0000, 0x1400_0000);
    MulBound(a0, r3, 0xc000_0000, 0x400_0000);
    MulBound(a1, r2, 0x800_0000, 0x400_0000);
    MulBound(a2, r1, 0x800_0000, 0x400_0000);
    MulBound(a3, r0, 0x800_0000, 0x400_0000);
    MulBound(a4, r4 * 5, 0x800_0000, 0x50_0000);
    MulBound(a0, r4, 0xc000_0000, 0x10_0000);
    MulBound(a1, r3, 0x800_0000, 0x400_0000);
    MulBound(a2, r2, 0x800_0000, 0x400_0000);
    MulBound(a3, r1, 0x800_0000, 0x400_0000);
    MulBound(a4, r0, 0x800_0000, 0x400_0000);
  }

  /** The key limbs and their multiples of five. */
  datatype Multiplier = Multiplier(r: Limbs, s1: u32, s2: u32, s3: u32, s4: u32) {
    predicate Valid() {
      && KeyBounds(r.l0, r.l1, r.l2, r.l3, r.l4)
      && s1 == r.l1 * 5 && s2 == r.l2 * 5 && s3 == r.l3 * 5 && s4 == r.l4 * 5
    }
  }

  predicate Settled(h: Limbs) { Running(h.l0, h.l1, h.l2, h.l3, h.l4) }

  /** One pass of the block loop: add a block, multiply by r, carry. */
  method Block(m: seq<byte>, hibit: u32, h: Limbs, k: Multiplier) returns (g: Limbs, ghost q: int)
    requires |m| == 16 && (hibit == 0 || hibit == 0x100_0000) && Settled(h) && k.Valid()
    ensures Settled(g)
    ensures (h.Number() + BlockValue(m, hibit)) * k.r.Number() == g.Number() + P * q
  {
    var a := AddBlock(m, hibit, h);
    var d0, d1, d2, d3, d4, fold := Multiply(a, k);
    ghost var carried;
    g, carried := Carry(d0, d1, d2, d3, d4);
    q := fold + carried;
  }

  /** A block as a coefficient: its bytes and the high bit above them. */
  function BlockValue(m: seq<byte>, hibit: nat): nat {
    Le(m) + hibit * 0x100_0000_0000_0000_0000_0000_0000
  }

  method AddBlock(m: seq<byte>, hibit: u32, h: Limbs) returns (a: Limbs)
    requires |m| == 16 && (hibit == 0 || hibit == 0x100_0000) && Settled(h)
    ensures Summed(a.l0, a.l1, a.l2, a.l3, a.l4)
    ensures a.Number() == h.Number() + BlockValue(m, hibit)
  {
    MessageLimbs(m, hibit);
    a := Limbs(h.l0 + And(Load32(m, 0), 0x3ff_ffff),
               h.l1 + And(Load32(m, 3) / 4, 0x3ff_ffff),
               h.l2 + And(Load32(m, 6) / 16, 0x3ff_ffff),
               h.l3 + And(Load32(m, 9) / 64, 0x3ff_ffff),
               h.l4 + Or(Load32(m, 12) / 256, hibit));
  }

  method Multiply(a: Limbs, k: Multiplier)
      returns (d0: u64, d1: u64, d2: u64, d3: u64, d4: u64, ghost q: int)
    requires Summed(a.l0, a.l1, a.l2, a.l3, a.l4) && k.Valid()
    ensures Columns(d0, d1, d2, d3, d4)
    ensures a.Number() * k.r.Number() == Value(d0, d1, d2, d3, d4) + P * q
  {
    var Limbs(a0, a1, a2, a3, a4) := a;
    var Multiplier(Limbs(r0, r1, r2, r3, r4), s1, s2, s3, s4) := k;
    ColumnBounds(a0, a1, a2, a3, a4, r0, r1, r2, r3, r4);
    ProductFold(a0, a1, a2, a3, a4, r0, r1, r2, r3, r4, k.r.Number());
    d0 := a0 * r0 + a1 * s4 + a2 * s3 + a3 * s2 + a4 * s1;
    d1 := a0 * r1 + a1 * r0 + a2 * s4 + a3 * s3 + a4 * s2;
    d2 := a0 * r2 + a1 * r1 + a2 * r0 + a3 * s4 + a4 * s3;
    d3 := a0 * r3 + a1 * r2 + a2 * r1 + a3 * r0 + a4 * s4;
    d4 := a0 * r4 + a1 * r3 + a2 * r2 + a3 * r1 + a4 * r0;
    q :| Differ(P, a.Number() * k.r.Number(), Value(d0, d1, d2, d3, d4), q);
  }

  predicate Columns(d0: nat, d1: nat, d2: nat, d3: nat, d4: nat) {
    && d0 <= 0x500_0000_0000_0000 && d1 <= 0x500_0000_0000_0000 && d2 <= 0x500_0000_0000_0000
    && d3 <= 0x500_0000_0000_0000 && d4 <= 0x8c_0000_0000_0000
  }

  /** The carry chain; the carry out of the top limb comes back in with weight 5. */
  method Carry(c0: u64, c1: u64, c2: u64, c3: u64, c4: u64) returns (g: Limbs, ghost q: int)
    requires Columns(c0, c1, c2, c3, c4)
    ensures Settled(g)
    ensures Value(c0, c1, c2, c3, c4) == g.Number() + P * q
  {
    var g0, e0 := Split26(c0);
    var g1, e1 := Split26(c1 + e0);
    var g2, e2 := Split26(c2 + e1);
    var g3, e3 := Split26(c3 + e2);
    var g4, e4 := Split26(c4 + e3);
    CarryValue(c0, c1, c2, c3, c4, e0, e1, e2, e3, e4, g0, g1, g2, g3, g4);
    g := Limbs(g0 + (e4 % 0x1_0000_0000) * 5, g1, g2, g3, g4);
    q := e4;
  }

  /** d & 0x03FFFFFF and d >> 26 */
  method Split26(d: u64) returns (low: u32, high: u64)
    ensures low < B && d == low + B * high
  {
    And26(d);
    low := And(d, 0x3ff_ffff);
    high := d / B;
  }

  lemma CarryValue(c0: nat, c1: nat, c2: nat, c3: nat, c4: nat, e0: nat, e1: nat, e2: nat, e3: nat, e4: nat,
                   g0: nat, g1: nat, g2: nat, g3: nat, g4: nat)
    requires g0 == c0 - B * e0 && g1 == c1 + e0 - B * e1 && g2 == c2 + e1 - B * e2
    requires g3 == c3 + e2 - B * e3 && g4 == c4 + e3 - B * e4
    ensures Value(c0, c1, c2, c3, c4) == Value(g0 + 5 * e4, g1, g2, g3, g4) + P * e4
  {
  }

  /** The final test: adding 5 carries into bit 130 exactly if the value is at least 2^130 - 5. */
  method Freeze(h: Limbs) returns (g: Limbs, ghost q: nat)
    requires Settled(h)
    ensures g.l0 < 48 * B && g.l1 < B && g.l2 < B && g.l3 < B && g.l4 < B
    ensures g.Number() == h.Number() % P + q * 0x4_0000_0000_0000_0000_0000_0000_0000_0000
  {
    var r0: u32 := h.l0 + 5;
    var l0, e0 := Split26(r0);
    var r1: u32 := h.l1 + e0;
    var l1, e1 := Split26(r1);
    var r2: u32 := h.l2 + e1;
    var l2, e2 := Split26(r2);
    var r3: u32 := h.l3 + e2;
    var l3, e3 := Split26(r3);
    var r4: u32 := h.l4 + e3;
    var l4, e4 := Split26(r4);
    q := e4;
    FreezeValue(h.l0, h.l1, h.l2, h.l3, h.l4, l0, l1, l2, l3, l4, q);
    g := h.(l0 := h.l0 + e4 * 5);
  }

  lemma FreezeValue(h0: nat, h1: nat, h2: nat, h3: nat, h4: nat,
                    l0: nat, l1: nat, l2: nat, l3: nat, l4: nat, q: nat)
    requires Running(h0, h1, h2, h3, h4) && l0 < B && l1 < B && l2 < B && l3 < B && l4 < B
    requires Value(h0, h1, h2, h3, h4) + 5
          == Value(l0, l1, l2, l3, l4) + q * 0x4_0000_0000_0000_0000_0000_0000_0000_0000
    ensures q <= 1
    ensures Value(h0, h1, h2, h3, h4) + 5 * q
         == Value(h0, h1, h2, h3, h4) % P + q * 0x4_0000_0000_0000_0000_0000_0000_0000_0000
  {
    DivModUnique(Value(h0, h1, h2, h3, h4), P, q, Value(h0, h1, h2, h3, h4) - q * P);
  }

  /** Adding the second half of the key, 32 bits at a time; the carry out is dropped. */
  method AddKey(h: Limbs, key: seq<byte>) returns (w0: u32, w1: u32, w2: u32, w3: u32)
    requires |key| == 32 && h.l0 < 48 * B && h.l1 < B && h.l2 < B && h.l3 < B && h.l4 < B
    ensures Words(w0, w1, w2, w3) == (h.Number() + Le(key[16..])) % TWO_128
  {
    var a1, b1 := ShiftPair(h.l1, 0x400_0000, 0x40);
    var a2, b2 := ShiftPair(h.l2, 0x10_0000, 0x1000);
    var a3, b3 := ShiftPair(h.l3, 0x4000, 0x4_0000);
    var a4, b4 := ShiftPair(h.l4, 0x100, 0x100_0000);
    var c0, c1, c2, c3;
    w0, c0 := Split32(Load32(key, 16) + h.l0 + a1);
    w1, c1 := Split32(Load32(key, 20) + b1 + a2 + c0);
    w2, c2 := Split32(Load32(key, 24) + b2 + a3 + c1);
    w3, c3 := Split32(Load32(key, 28) + b3 + a4 + c2);
    LeOf16(key[16..]);
    AddKeyValue(h.l0, h.l1, h.l2, h.l3, h.l4, Load32(key, 16), Load32(key, 20), Load32(key, 24), Load32(key, 28),
                a1, a2, a3, a4, b1, b2, b3, b4, c0, c1, c2, c3, w0, w1, w2, w3);
    DivModUnique(h.Number() + Le(key[16..]), TWO_128, b4 + c3, Words(w0, w1, w2, w3));
  }

  /** Four sums with their carries, as one. */
  lemma AddKeyValue(l0: int, l1: int, l2: int, l3: int, l4: int, k0: int, k1: int, k2: int, k3: int,
                    a1: int, a2: int, a3: int, a4: int, b1: int, b2: int, b3: int, b4: int,
                    c0: int, c1: int, c2: int, c3: int, w0: nat, w1: nat, w2: nat, w3: nat)
    requires l0 >= 0 && l1 >= 0 && l2 >= 0 && l3 >= 0 && l4 >= 0
    requires l1 * 0x400_0000 == a1 + 0x1_0000_0000 * b1 && l2 * 0x10_0000 == a2 + 0x1_0000_0000 * b2
    requires l3 * 0x4000 == a3 + 0x1_0000_0000 * b3 && l4 * 0x100 == a4 + 0x1_0000_0000 * b4
    requires k0 + l0 + a1 == w0 + 0x1_0000_0000 * c0 && k1 + b1 + a2 + c0 == w1 + 0x1_0000_0000 * c1
    requires k2 + b2 + a3 + c1 == w2 + 0x1_0000_0000 * c2 && k3 + b3 + a4 + c2 == w3 + 0x1_0000_0000 * c3
    ensures Value(l0, l1, l2, l3, l4) + (k0 + 0x1_0000_0000 * k1 + 0x1_0000_0000_0000_0000 * k2
                                         + 0x1_0000_0000_0000_0000_0000_0000 * k3)
         == (b4 + c3) * TWO_128 + Words(w0, w1, w2, w3)
  {
  }

  /** (h << k) in 32 bits and h >> (32 - k), where m = 2^k and n = 2^(32-k): together, h shifted. */
  method ShiftPair(h: u32, m: nat, n: nat) returns (left: u32, right: u32)
    requires n > 0 && m * n == 0x1_0000_0000
    ensures h * m == left + 0x1_0000_0000 * right
  {
    left := (h * m) % 0x1_0000_0000;
    right := h / n;
    ShiftPairValue(h, m, n);
  }

  lemma ShiftPairValue(h: nat, m: nat, n: nat)
    requires n > 0 && m * n == 0x1_0000_0000
    ensures 0 <= h / n <= h && h * m == (h * m) % 0x1_0000_0000 + 0x1_0000_0000 * (h / n)
  {
    DivModBounds(h, n);
    var q, r := h / n, h % n;
    assert h == q * n + r;
    assert h * m == q * (m * n) + r * m;
    MulLe(r + 1, n, m);
    assert (r + 1) * m == r * m + m && m > 0;
    DivModUnique(h * m, m * n, q, r * m);
    MulLe(1, n, q);
  }

  method Split32(d: u64) returns (low: u32, high: u32)
    ensures d == low + 0x1_0000_0000 * high
  {
    low := d % 0x1_0000_0000;
    high := d / 0x1_0000_0000;
  }

  function Words(w0: nat, w1: nat, w2: nat, w3: nat): nat {
    w0 + 0x1_0000_0000 * w1 + 0x1_0000_0000_0000_0000 * w2 + 0x1_0000_0000_0000_0000_0000_0000 * w3
  }

  lemma CoefficientOfFullBlock(msg: seq<byte>, i: nat)
    requires 16 * i + 16 <= |msg|
    ensures Coefficient(msg, i) == BlockValue(msg[16 * i..16 * i + 16], 0x100_0000)
  {
    Pow2Values();
    Pow2Add(64, 64);
  }

  /** The scratch block of the last, incomplete block: its bytes, a one, zeros. */
  lemma {:induction false} LePadded(b: seq<byte>, zeros: nat)
    ensures Le(b + [1] + seq(zeros, _ => 0)) == Le(b) + Pow2(8 * |b|)
  {
    var padded := b + [1] + seq(zeros, _ => 0);
    if b == [] {
      assert padded[1..] == seq(zeros, _ => 0);
      LeZeros(zeros);
    } else {
      assert padded[1..] == b[1..] + [1] + seq(zeros, _ => 0);
      LePadded(b[1..], zeros);
      assert Pow2(8) == 256;
      Pow2Add(8, 8 * |b[1..]|);
    }
  }

  lemma {:induction false} LeZeros(n: nat)
    ensures Le(seq(n, _ => 0)) == 0
  {
    if n > 0 {
      assert seq(n, _ => 0)[1..] == seq(n - 1, _ => 0);
      LeZeros(n - 1);
    }
  }

  /** Bytes holding the computed words are the tag. */
  lemma TagOfWords(tag: seq<byte>, msg: seq<byte>, key: seq<byte>, h: nat, w0: u32, w1: u32, w2: u32, w3: u32)
    requires |key| == 32 && |tag| == 16
    requires Congruent(P, h, Polynomial(msg, Le(Clamp(key)), BlockCount(msg)))
    requires Words(w0, w1, w2, w3) == (h % P + Le(key[16..])) % TWO_128
    requires Load32(tag, 0) == w0 && Load32(tag, 4) == w1 && Load32(tag, 8) == w2 && Load32(tag, 12) == w3
    ensures tag == Tag(msg, key)
  {
    CongruentSameMod(P, h, Polynomial(msg, Le(Clamp(key)), BlockCount(msg)));
    LeOfWords(tag, w0, w1, w2, w3);
    TagOfNumber(tag, msg, key);
  }

  lemma LeOfWords(tag: seq<byte>, w0: u32, w1: u32, w2: u32, w3: u32)
    requires |tag| == 16
    requires Load32(tag, 0) == w0 && Load32(tag, 4) == w1 && Load32(tag, 8) == w2 && Load32(tag, 12) == w3
    ensures Le(tag) == Words(w0, w1, w2, w3)
  {
    LeOf16(tag);
  }

  lemma TagOfNumber(tag: seq<byte>, msg: seq<byte>, key: seq<byte>)
    requires |key| == 32 && |tag| == 16
    requires Le(tag) == (Polynomial(msg, Le(Clamp(key)), BlockCount(msg)) % P + Le(key[16..])) % TWO_128
    ensures tag == Tag(msg, key)
  {
    LeBytesOfLe(tag);
  }

  method LoadKey(key: seq<byte>) returns (k: Multiplier)
    requires |key| == 32
    ensures k.Valid() && k.r.Number() == Le(Clamp(key))
  {
    KeyLimbs(key);
    var r := Limbs(And(Load32(key, 0), 0x3ff_ffff), And(Load32(key, 3) / 4, MASK1),
                   And(Load32(key, 6) / 16, MASK2), And(Load32(key, 9) / 64, MASK3),
                   And(Load32(key, 12) / 256, MASK4));
    k := Multiplier(r, r.l1 * 5, r.l2 * 5, r.l3 * 5, r.l4 * 5);
  }

  /** Write the tag of buf[off..off + n] to tag[t..t + 16].  The last, incomplete block is
      assembled in the tag's own space. */
  method Authenticate(buf: array<byte>, off: nat, n: nat, key: seq<byte>, tag: array<byte>, t: nat)
    requires |key| == 32 && off + n <= buf.Length && t + 16 <= tag.Length
    requires buf == tag ==> off + n <= t || t + 16 <= off
    modifies tag
    ensures tag[..t] == old(tag[..t]) && tag[t + 16..] == old(tag[t + 16..])
    ensures tag[t..t + 16] == Tag(old(buf[off..off + n]), key)
  {
    ghost var msg := buf[off..off + n];
    var k := LoadKey(key);
    var h := Evaluate(buf, off, n, k, tag, t);
    var w0, w1, w2, w3 := Finish(h, key);
    StoreTag(tag, t, w0, w1, w2, w3);
    TagOfWords(tag[t..t + 16], msg, key, h.Number(), w0, w1, w2, w3);
  }

  /** The block loop. */
  method Evaluate(buf: array<byte>, off: nat, n: nat, k: Multiplier, tag: array<byte>, t: nat) returns (h: Limbs)
    requires off + n <= buf.Length && t + 16 <= tag.Length && k.Valid()
    requires buf == tag ==> off + n <= t || t + 16 <= off
    modifies tag
    ensures tag[..t] == old(tag[..t]) && tag[t + 16..] == old(tag[t + 16..])
    ensures Settled(h)
    ensures var msg := old(buf[off..off + n]);
      Congruent(P, h.Number(), Polynomial(msg, k.r.Number(), BlockCount(msg)))
  {
    ghost var msg, r := buf[off..off + n], k.r.Number();
    h := Limbs(0, 0, 0, 0, 0);
    var i := 0;
    CongruentSame(P, 0);
    while n - 16 * i >= 16
      invariant unchanged(tag) && buf[off..off + n] == msg && 16 * i <= n
      invariant Settled(h) && Congruent(P, h.Number(), Polynomial(msg, r, i))
    {
      SubSlice(buf[..], off, n, 16 * i, 16 * i + 16);
      h := AbsorbFull(buf[off + 16 * i..off + 16 * i + 16], h, k, msg, i);
      i := i + 1;
    }
    h := EvaluateRest(buf, off, n, i, h, k, tag, t, msg);
  }

  /** The last, incomplete block, if there is one. */
  method EvaluateRest(buf: array<byte>, off: nat, n: nat, i: nat, h: Limbs, k: Multiplier,
                      tag: array<byte>, t: nat, ghost msg: seq<byte>) returns (g: Limbs)
    requires off + n <= buf.Length && t + 16 <= tag.Length && buf[off..off + n] == msg
    requires buf == tag ==> off + n <= t || t + 16 <= off
    requires 16 * i <= n < 16 * i + 16 && Settled(h) && k.Valid()
    requires Congruent(P, h.Number(), Polynomial(msg, k.r.Number(), i))
    modifies tag
    ensures tag[..t] == old(tag[..t]) && tag[t + 16..] == old(tag[t + 16..])
    ensures Settled(g) && Congruent(P, g.Number(), Polynomial(msg, k.r.Number(), BlockCount(msg)))
  {
    CountBlocks(n, i);
    if n == 16 * i {
      g := h;
    } else {
      var p, left := off + 16 * i, n - 16 * i;
      ghost var last := msg[16 * i..];
      assert buf[p..p + left] == last;
      LastBlock(buf, p, left, tag, t);
      g := AbsorbLast(tag[t..t + 16], h, k, msg, i, last);
    }
  }

  lemma CountBlocks(n: nat, i: nat)
    requires 16 * i <= n < 16 * i + 16
    ensures (n + 15) / 16 == if n == 16 * i then i else i + 1
  {
    DivModUnique(n + 15, 16, if n == 16 * i then i else i + 1, if n == 16 * i then 15 else n - 16 * i - 1);
  }

  lemma SubSlice(s: seq<byte>, off: nat, n: nat, x: nat, y: nat)
    requires off + n <= |s| && x <= y <= n
    ensures s[off..off + n][x..y] == s[off + x..off + y]
  {
    var a, b := s[off..off + n], s[off + x..off + y];
    forall i | 0 <= i < y - x ensures a[x..y][i] == b[i] {
      assert a[x..y][i] == a[x + i] == s[off + (x + i)];
    }
  }

  method AbsorbFull(m: seq<byte>, h: Limbs, k: Multiplier, ghost msg: seq<byte>, ghost i: nat) returns (g: Limbs)
    requires Settled(h) && k.Valid() && 16 * i + 16 <= |msg| && m == msg[16 * i..16 * i + 16]
    requires Congruent(P, h.Number(), Polynomial(msg, k.r.Number(), i))
    ensures Settled(g) && Congruent(P, g.Number(), Polynomial(msg, k.r.Number(), i + 1))
  {
    CoefficientOfFullBlock(msg, i);
    g := Absorb(m, 0x100_0000, h, k, msg, k.r.Number(), i);
  }

  method AbsorbLast(m: seq<byte>, h: Limbs, k: Multiplier, ghost msg: seq<byte>, ghost i: nat, ghost last: seq<byte>)
      returns (g: Limbs)
    requires Settled(h) && k.Valid() && |m| == 16 && 16 * i < |msg| < 16 * i + 16
    requires last == msg[16 * i..] && Le(m) == Le(last) + Pow2(8 * |last|)
    requires Congruent(P, h.Number(), Polynomial(msg, k.r.Number(), i))
    ensures Settled(g) && Congruent(P, g.Number(), Polynomial(msg, k.r.Number(), i + 1))
  {
    assert msg[16 * i..] == msg[16 * i..|msg|];
    g := Absorb(m, 0, h, k, msg, k.r.Number(), i);
  }

  /** Reduction and addition of the key. */
  method Finish(h: Limbs, key: seq<byte>) returns (w0: u32, w1: u32, w2: u32, w3: u32)
    requires Settled(h) && |key| == 32
    ensures Words(w0, w1, w2, w3) == (h.Number() % P + Le(key[16..])) % TWO_128
  {
    var g, q := Freeze(h);
    w0, w1, w2, w3 := AddKey(g, key);
    TagWords(g.Number(), h.Number() % P, q, Le(key[16..]));
  }

  method StoreTag(tag: array<byte>, t: nat, w0: u32, w1: u32, w2: u32, w3: u32)
    requires t + 16 <= tag.Length
    modifies tag
    ensures tag[..t] == old(tag[..t]) && tag[t + 16..] == old(tag[t + 16..])
    ensures var b := tag[t..t + 16];
      Load32(b, 0) == w0 && Load32(b, 4) == w1 && Load32(b, 8) == w2 && Load32(b, 12) == w3
  {
    Store32(tag, t, w0);
    Store32(tag, t + 4, w1);
    Store32(tag, t + 8, w2);
    Store32(tag, t + 12, w3);
    WordOfBytes(w0);
    WordOfBytes(w1);
    WordOfBytes(w2);
    WordOfBytes(w3);
  }

  /** Dropping a multiple of 2^130 changes nothing modulo 2^128. */
  lemma TagWords(h: nat, acc: nat, q: nat, s: nat)
    requires h == acc + q * 0x4_0000_0000_0000_0000_0000_0000_0000_0000
    ensures (h + s) % TWO_128 == (acc + s) % TWO_128
  {
    CongruentBy(TWO_128, h + s, acc + s, 4 * q);
    CongruentSameMod(TWO_128, h + s, acc + s);
  }

  /** Block, as a step of Horner's scheme on the message. */
  method Absorb(m: seq<byte>, hibit: u32, h: Limbs, k: Multiplier, ghost msg: seq<byte>, ghost r: nat, ghost i: nat)
      returns (g: Limbs)
    requires |m| == 16 && (hibit == 0 || hibit == 0x100_0000) && Settled(h) && k.Valid() && k.r.Number() == r
    requires i < BlockCount(msg) && Coefficient(msg, i) == BlockValue(m, hibit)
    requires Congruent(P, h.Number(), Polynomial(msg, r, i))
    ensures Settled(g) && Congruent(P, g.Number(), Polynomial(msg, r, i + 1))
  {
    ghost var q;
    g, q := Block(m, hibit, h, k);
    HornerStep(msg, r, i, h.Number(), g.Number(), q);
  }

  lemma HornerStep(msg: seq<byte>, r: nat, i: nat, h: nat, g: nat, q: int)
    requires i < BlockCount(msg) && Congruent(P, h, Polynomial(msg, r, i))
    requires (h + Coefficient(msg, i)) * r == g + P * q
    ensures Congruent(P, g, Polynomial(msg, r, i + 1))
  {
    PolynomialStep(msg, r, i);
    var c := Coefficient(msg, i);
    CongruentSame(P, c);
    CongruentAdd(P, h, Polynomial(msg, r, i), c, c);
    CongruentScale(P, h + c, Polynomial(msg, r, i) + c, r);
    CongruentBy(P, g, (h + c) * r, -q);
    CongruentTrans(P, g, (h + c) * r, (Polynomial(msg, r, i) + c) * r);
  }

  method LastBlock(buf: array<byte>, off: nat, n: nat, tag: array<byte>, t: nat)
    requires 0 < n < 16 && off + n <= buf.Length && t + 16 <= tag.Length
    requires buf == tag ==> off + n <= t || t + 16 <= off
    modifies tag
    ensures tag[..t] == old(tag[..t]) && tag[t + 16..] == old(tag[t + 16..])
    ensures var last := old(buf[off..off + n]);
      Le(tag[t..t + 16]) == Le(last) + Pow2(8 * |last|)
  {
    ghost var last := buf[off..off + n];
    CopyBytes(buf, off, n, tag, t);
    tag[t + n] := 1;
    ClearBytes(tag, t + n + 1, t + 16);
    assert tag[t..t + 16] == last + [1] + seq(15 - n, _ => 0);
    LePadded(last, 15 - n);
  }

  method CopyBytes(buf: array<byte>, off: nat, n: nat, tag: array<byte>, t: nat)
    requires off + n <= buf.Length && t + 16 <= tag.Length && n < 16
    requires buf == tag ==> off + n <= t || t + 16 <= off
    modifies tag
    ensures forall k :: 0 <= k < tag.Length ==> tag[k] == if t <= k < t + n then old(buf[off + k - t]) else old(tag[k])
  {
    var i := 0;
    while i < n
      invariant 0 <= i <= n && forall k :: off <= k < off + n ==> buf[k] == old(buf[k])
      invariant forall k :: 0 <= k < tag.Length ==>
        tag[k] == if t <= k < t + i then old(buf[off + k - t]) else old(tag[k])
    {
      tag[t + i] := buf[off + i];
      i := i + 1;
    }
  }

  method ClearBytes(tag: array<byte>, from: nat, to: nat)
    requires from <= to <= tag.Length
    modifies tag
    ensures forall k :: 0 <= k < tag.Length ==> tag[k] == if from <= k < to then 0 else old(tag[k])
  {
    var i := from;
    while i < to
      invariant from <= i <= to
      invariant forall k :: 0 <= k < tag.Length ==> tag[k] == if from <= k < i then 0 else old(tag[k])
    {
      tag[i] := 0;
      i := i + 1;
    }
  }
}
