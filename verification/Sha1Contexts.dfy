/** The two SHA-1 programs, 3rd/encrypt/src/sha.c and 3rd/encrypt/src/sha1.c. */
module Sha1Contexts {
  import opened Bits
  import opened Sha1Rounds

  function Regs(x: seq<u32>): Registers
    requires |x| >= 5
  {
    Registers(x[0], x[1], x[2], x[3], x[4])
  }

  /** What is known after the bytes of a message. */
  function Absorbed(message: seq<byte>): (r: Progress)
    ensures |r.pending| == |message| % 64
  {
    Absorb(Progress(INITIAL, []), message)
  }

  lemma AbsorbedStep(message: seq<byte>, b: byte)
    ensures Absorbed(message + [b]) == AbsorbByte(Absorbed(message), b)
  {
    assert (message + [b])[..|message|] == message;
  }

  lemma Mask63(x: nat)
    ensures And(x, 63) == x % 64
  {
    assert Pow2(6) == 64;
    AndLowMask(x, 6);
  }

  /** x & 0xFFFFFFFF */
  method Force32(x: u32) returns (r: u32)
    ensures r == x
  {
    Pow2Values();
    AndLowMask(x, 32);
    r := And(x, 0xFFFF_FFFF);
  }

  // ---------- Message schedule ----------

  /** Four bytes put together with shifts and OR. */
  function LoadBe(b0: byte, b1: byte, b2: byte, b3: byte): nat {
    Or(Or(Or(Shl(b0, 24), Shl(b1, 16)), Shl(b2, 8)), b3)
  }

  lemma LoadBeWord(b0: byte, b1: byte, b2: byte, b3: byte)
    ensures LoadBe(b0, b1, b2, b3) == Be32(b0, b1, b2, b3)
  {
    Pow2Values();
    OrAbove(b0, b1, 16);
    OrAbove(0x100 * b0 + b1, b2, 8);
    OrAbove(0x1_0000 * b0 + 0x100 * b1 + b2, b3, 0);
  }

  lemma OrAbove(x: nat, b: byte, s: nat)
    ensures Or(Shl(x, s + 8), Shl(b, s)) == Shl(0x100 * x + b, s)
  {
    assert Pow2(8) == 0x100;
    Pow2Add(8, s);
    MulSwap(x, 0x100, Pow2(s));
    assert Shl(x, s + 8) == Shl(0x100 * x, s);
    OrShl(0x100 * x, b, s);
    OrShifted(b, x, 8);
  }

  method FirstWord(block: array<byte>, t: nat) returns (v: u32)
    requires block.Length == 64 && t < 16
    ensures v == W(block[..], t)
  {
    LoadBeWord(block[4 * t], block[4 * t + 1], block[4 * t + 2], block[4 * t + 3]);
    v := LoadBe(block[4 * t], block[4 * t + 1], block[4 * t + 2], block[4 * t + 3]);
  }

  /** The first t words are there. */
  ghost predicate HasWords(w: seq<u32>, block: Block, t: nat) {
    t <= |w| && forall k :: 0 <= k < t ==> w[k] == W(block, k)
  }

  /** Word t from the words before it */
  method StoreNext(w: array<u32>, ghost block: Block, t: nat)
    requires 16 <= t < w.Length && HasWords(w[..], block, t)
    modifies w
    ensures HasWords(w[..], block, t + 1)
  {
    w[t] := Rotl(Xor32(Xor32(Xor32(w[t - 3], w[t - 8]), w[t - 14]), w[t - 16]), 1);
  }

  method StoreFirst(block: array<byte>, w: array<u32>)
    requires block.Length == 64 && w.Length == 80
    modifies w
    ensures HasWords(w[..], block[..], 16)
  {
    for t := 0 to 16
      invariant HasWords(w[..], block[..], t)
    {
      w[t] := FirstWord(block, t);
    }
  }

  /** The first loops of SHA1_Transform and SHA1ProcessMessageBlock */
  method ScheduleWords(block: array<byte>) returns (w: array<u32>)
    requires block.Length == 64
    ensures fresh(w) && w[..] == Schedule(block[..])
  {
    w := new u32[80];
    StoreFirst(block, w);
    for t := 16 to 80
      invariant HasWords(w[..], block[..], t)
    {
      StoreNext(w, block[..], t);
    }
    AllWords(w[..], block[..]);
  }

  lemma AllWords(w: seq<u32>, block: Block)
    requires |w| == 80 && HasWords(w, block, 80)
    ensures w == Schedule(block)
  {
  }

  // ---------- Rounds ----------

  /** Sums of words may be reduced in any order. */
  lemma SumOfFive(x: u32, f: u32, e: u32, w: u32, k: u32)
    ensures Add32(Add32(Add32(x, e), w), Add32(f, k)) == (x + f + e + k + w) % 0x1_0000_0000
  {
    AddMod(x + e, w);
    AddMods(x + e + w, f + k);
  }

  lemma SumInOrder(x: u32, f: u32, e: u32, w: u32, k: u32)
    ensures Add32(Add32(Add32(Add32(x, f), e), w), k) == (x + f + e + k + w) % 0x1_0000_0000
  {
    AddMod(x + f, e);
    AddMod(x + f + e, w);
    AddMod(x + f + e + w, k);
  }

  lemma AddMod(x: nat, y: nat)
    ensures (x % 0x1_0000_0000 + y) % 0x1_0000_0000 == (x + y) % 0x1_0000_0000
  {
    var m := 0x1_0000_0000;
    var z := x % m + y;
    DivModUnique(x + y, m, x / m + z / m, z % m);
  }

  lemma AddMods(x: nat, y: nat)
    ensures (x % 0x1_0000_0000 + y % 0x1_0000_0000) % 0x1_0000_0000 == (x + y) % 0x1_0000_0000
  {
    AddMod(x, y % 0x1_0000_0000);
    AddMod(y, x);
  }

  /** One round of sha.c */
  method ShaRound(r: Registers, t: nat, w: u32) returns (r': Registers)
    requires t < 80
    ensures r' == Round(r, t, w)
  {
    var tmp := Add32(Add32(Rotl(r.a, 5), r.e), w);
    SumOfFive(Rotl(r.a, 5), F(t, r.b, r.c, r.d), r.e, w, K(t));
    if t < 20 {
      ChSelect(r.b, r.c, r.d);
      tmp := Add32(tmp, Add32(Xor32(r.d, And32(r.b, Xor32(r.c, r.d))), 0x5A82_7999));
    } else if t < 40 {
      tmp := Add32(tmp, Add32(Xor32(Xor32(r.b, r.c), r.d), 0x6ED9_EBA1));
    } else if t < 60 {
      MajFactored(r.b, r.c, r.d);
      tmp := Add32(tmp, Add32(Or32(And32(r.b, r.c), And32(r.d, Or32(r.b, r.c))), 0x8F1B_BCDC));
    } else {
      tmp := Add32(tmp, Add32(Xor32(Xor32(r.b, r.c), r.d), 0xCA62_C1D6));
    }
    r' := Registers(tmp, r.a, Rotl(r.b, 30), r.c, r.d);
  }

  /** The end of a round of sha1.c, with the value f of its round function */
  method Sha1Round(r: Registers, f: u32, w: u32, k: u32, ghost t: nat) returns (r': Registers)
    requires f == F(t, r.b, r.c, r.d) && k == K(t)
    ensures r' == Round(r, t, w)
  {
    var temp := Add32(Add32(Add32(Add32(Rotl(r.a, 5), f), r.e), w), k);
    SumInOrder(Rotl(r.a, 5), f, r.e, w, k);
    temp := Force32(temp);
    r' := Registers(temp, r.a, Rotl(r.b, 30), r.c, r.d);
  }

  lemma RoundsStep(h: Registers, ws: seq<u32>, t: nat)
    requires t < |ws|
    ensures Rounds(h, ws[..t + 1]) == Round(Rounds(h, ws[..t]), t, ws[t])
  {
    assert ws[..t + 1][..t] == ws[..t];
  }

  method ShaRounds(h: Registers, w: array<u32>) returns (r: Registers)
    requires w.Length == 80
    ensures r == Rounds(h, w[..])
  {
    r := h;
    for t := 0 to 80
      invariant r == Rounds(h, w[..t])
    {
      RoundsStep(h, w[..], t);
      assert w[..][..t] == w[..t] && w[..][..t + 1] == w[..t + 1];
      r := ShaRound(r, t, w[t]);
    }
    assert w[..80] == w[..];
  }

  method Sha1RoundLoops(h: Registers, w: array<u32>) returns (r: Registers)
    requires w.Length == 80
    ensures r == Rounds(h, w[..])
  {
    r := h;
    for t := 0 to 20
      invariant r == Rounds(h, w[..t])
    {
      RoundsStep(h, w[..], t);
      assert w[..][..t] == w[..t] && w[..][..t + 1] == w[..t + 1];
      ChOr(r.b, r.c, r.d);
      r := Sha1Round(r, Or32(And32(r.b, r.c), And32(Not32(r.b), r.d)), w[t], 0x5A82_7999, t);
    }
    for t := 20 to 40
      invariant r == Rounds(h, w[..t])
    {
      RoundsStep(h, w[..], t);
      assert w[..][..t] == w[..t] && w[..][..t + 1] == w[..t + 1];
      r := Sha1Round(r, Xor32(Xor32(r.b, r.c), r.d), w[t], 0x6ED9_EBA1, t);
    }
    for t := 40 to 60
      invariant r == Rounds(h, w[..t])
    {
      RoundsStep(h, w[..], t);
      assert w[..][..t] == w[..t] && w[..][..t + 1] == w[..t + 1];
      MajOr(r.b, r.c, r.d);
      r := Sha1Round(r, Or32(Or32(And32(r.b, r.c), And32(r.b, r.d)), And32(r.c, r.d)), w[t], 0x8F1B_BCDC, t);
    }
    for t := 60 to 80
      invariant r == Rounds(h, w[..t])
    {
      RoundsStep(h, w[..], t);
      assert w[..][..t] == w[..t] && w[..][..t + 1] == w[..t + 1];
      r := Sha1Round(r, Xor32(Xor32(r.b, r.c), r.d), w[t], 0xCA62_C1D6, t);
    }
    assert w[..80] == w[..];
  }

  // ---------- Padding and digest ----------

  lemma MoreZeros(m: seq<byte>, k: nat)
    ensures m + Zeros(k) + [0] == m + Zeros(k + 1)
  {
    assert Zeros(k) + [0] == Zeros(k + 1);
  }

  lemma ShiftedByte(x: nat, r: nat, d: nat, e: nat, q: nat)
    requires d > 0 && x == q * (d * e * 256) + r
    ensures x / d % 256 == r / d % 256
  {
    var h, l := r / d, r % d;
    assert r == h * d + l;
    assert q * (d * e * 256) == (q * e * 256) * d;
    assert (q * e * 256 + h) * d == (q * e * 256) * d + h * d;
    DivModUnique(x, d, q * e * 256 + h, l);
    DivModUnique(q * e * 256 + h, 256, q * e + h / 256, h % 256);
  }

  lemma DigestAt(h: Registers, digest: seq<byte>, words: seq<u32>)
    requires |digest| == 20 && words == [h.a, h.b, h.c, h.d, h.e]
    requires forall k :: 0 <= k < 20 ==> digest[k] == BeBytes(words[k / 4])[k % 4]
    ensures digest == DigestBytes(h)
  {
    var d := DigestBytes(h);
    DigestBytesAt(h);
    forall k | 0 <= k < 20 ensures digest[k] == d[k] {
      assert digest[k] == BeBytes(words[k / 4])[k % 4];
      assert words[k / 4] == DigestWord(h, k / 4);
    }
  }

  function DigestWord(h: Registers, i: nat): u32 {
    if i == 0 then h.a else if i == 1 then h.b else if i == 2 then h.c else if i == 3 then h.d else h.e
  }

  lemma DigestBytesAt(h: Registers)
    ensures forall k :: 0 <= k < 20 ==> DigestBytes(h)[k] == BeBytes(DigestWord(h, k / 4))[k % 4]
  {
    var d := DigestBytes(h);
    forall k | 0 <= k < 20 ensures d[k] == BeBytes(DigestWord(h, k / 4))[k % 4] {
      DigestPart(d, BeBytes(h.a), BeBytes(h.b), BeBytes(h.c), BeBytes(h.d), BeBytes(h.e), k);
    }
  }

  lemma DigestPart(d: seq<byte>, a: seq<byte>, b: seq<byte>, c: seq<byte>, e: seq<byte>, f: seq<byte>, k: nat)
    requires |a| == |b| == |c| == |e| == |f| == 4 && d == a + b + c + e + f && k < 20
    ensures d[k] == (if k / 4 == 0 then a else if k / 4 == 1 then b else if k / 4 == 2 then c
                     else if k / 4 == 3 then e else f)[k % 4]
  {
    DivModUnique(k, 4, k / 4, k % 4);
  }
}
