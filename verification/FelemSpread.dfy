/** The first part of felem_reduce_degree in 3rd/encrypt/src/p256_ec.c: 64-bit limbs
    are spread over 29 and 28 bits. */
module FelemSpread {
  import opened Bits
  import opened Limbs
  import opened FelemField

  const BIT57: int := 0x200_0000_0000_0000

  /** A 64-bit limb is low + Radix(i) * mid + 2^57 * high. */
  ghost function Low(t: int, i: nat): int { t % Radix(i) }

  ghost function Mid(t: int, i: nat): int { t / Radix(i) % Radix(i + 1) }

  ghost function High(t: int): int { t / BIT57 }

  lemma Parts(t: int, i: nat)
    requires 0 <= t < 0x1_0000_0000_0000_0000
    ensures t == Low(t, i) + Radix(i) * Mid(t, i) + BIT57 * High(t)
    ensures 0 <= Low(t, i) < Radix(i) && 0 <= Mid(t, i) < Radix(i + 1) && 0 <= High(t) < 128
  {
    var r, u, q := Radix(i), Radix(i + 1), t / Radix(i);
    assert r * u == BIT57;
    assert t == Low(t, i) + r * q && q == u * (q / u) + Mid(t, i);
    assert r * (u * (q / u)) == BIT57 * (q / u);
    DivModUnique(t, BIT57, q / u, Low(t, i) + r * Mid(t, i));
  }

  /** (limb)t & mask */
  method LowBits(t: u64, i: nat) returns (r: u32)
    ensures r == Low(t, i)
  {
    Pow2Values();
    var w: u32 := t % 0x1_0000_0000;
    AndLowMask(w, if i % 2 == 0 then 29 else 28);
    r := And(w, Radix(i) - 1);
    LowOfLow(t, i);
  }

  lemma LowOfLow(t: u64, i: nat)
    ensures t % 0x1_0000_0000 % Radix(i) == t % Radix(i)
  {
    var m := if i % 2 == 0 then 8 else 16;
    var q, w := t / 0x1_0000_0000, t % 0x1_0000_0000;
    assert w == w / Radix(i) * Radix(i) + w % Radix(i);
    DivModUnique(t, Radix(i), m * q + w / Radix(i), w % Radix(i));
  }

  /** ((limb)t) >> 29, and the upper half shifted into place; 28 for odd limbs */
  method MidBits(t: u64, i: nat) returns (r: u32)
    ensures r == Mid(t, i)
  {
    var w, v: u32 := t % 0x1_0000_0000, t / 0x1_0000_0000;
    var m := if i % 2 == 0 then 8 else 16;
    var shifted := v * m % 0x1_0000_0000;
    Parts(t, i);
    MidOfHalves(t, i, w, v, m);
    r := w / Radix(i);
    var upper := LowBits(shifted, i + 1);
    r := r + upper;
  }

  lemma MidOfHalves(t: u64, i: nat, w: u32, v: u32, m: int)
    requires w == t % 0x1_0000_0000 && v == t / 0x1_0000_0000 && m == if i % 2 == 0 then 8 else 16
    ensures Mid(t, i) == w / Radix(i) + v * m % 0x1_0000_0000 % Radix(i + 1)
  {
    var r, u := Radix(i), Radix(i + 1);
    var a := w / r;
    assert w == a * r + w % r && 0 <= a < m;
    DivModUnique(t, r, m * v + a, w % r);
    LowOfLow(v * m, i + 1);
    AddBelow(v, m, u / m, a);
    assert u / m * m == u && m * v == v * m;
  }

  lemma AddBelow(v: nat, m: nat, k: nat, a: nat)
    requires a < m && k > 0
    ensures k * m > 0 && (v * m + a) % (k * m) == v * m % (k * m) + a
  {
    var q, e := v / k, v % k;
    DivModBounds(v, k);
    MulLe(1, k, m);
    MulLe(e + 1, k, m);
    assert (e + 1) * m == e * m + m;
    assert (q * k + e) * m == q * (k * m) + e * m;
    DivModUnique(v * m, k * m, q, e * m);
    DivModUnique(v * m + a, k * m, q, e * m + a);
  }

  /** ((limb)(t >> 32)) >> 25 */
  method HighBits(t: u64) returns (r: u32)
    ensures r == High(t)
  {
    var v: u32 := t / 0x1_0000_0000;
    r := v / 0x200_0000;
    var q, a, b := t / BIT57, v % 0x200_0000, t % 0x1_0000_0000;
    DivModUnique(t, BIT57, r, a * 0x1_0000_0000 + b);
  }

  // ---------- Words that may wrap around ----------

  const M: int := 0x1_0000_0000

  /** The 32-bit words stand for the integers s, modulo 2^32. */
  ghost predicate Represents(t: seq<u32>, s: seq<int>) {
    |s| == 18 && t == Wrapped(s)
  }

  ghost function Wrapped(s: seq<int>): (t: seq<int>)
    ensures |t| == |s|
  {
    seq(|s|, j requires 0 <= j < |s| => s[j] % M)
  }

  lemma AddWrap(x: int, e: int, d: int)
    requires d == e % M
    ensures (x % M + d) % M == (x + e) % M
  {
    var q, p := x / M, e / M;
    var v := x % M + d;
    DivModUnique(x + e, M, q + p + v / M, v % M);
  }

  lemma SubWrap(x: int, d: int)
    ensures (x % M - d) % M == (x - d) % M
  {
    var q := x / M;
    var v := x % M - d;
    DivModUnique(x - d, M, q + v / M, v % M);
  }

  // ---------- Spreading ----------

  /** What earlier limbs leave for limb i. */
  ghost function Pending(t: seq<int>, i: nat): int
    requires i <= |t|
  {
    (if i >= 1 then Mid(t[i - 1], i - 1) else 0) + (if i >= 2 then High(t[i - 2]) else 0)
  }

  /** And for limb i + 1. */
  ghost function Above(t: seq<int>, i: nat): int
    requires i <= |t|
  {
    if i >= 1 then High(t[i - 1]) else 0
  }

  /** Limbs 0 to i - 1 are spread. */
  ghost predicate Spread(t: seq<int>, s: seq<int>, i: nat, carry: int) {
    |t| == 17 && |s| == 18 && i <= 17 && 0 <= carry <= 2
    && Number(t[..i]) == Number(s[..i]) + (carry + Pending(t, i)) * Weight(i) + Above(t, i) * Weight(i + 1)
    && forall j :: 0 <= j < i ==> 0 <= s[j] < Radix(j)
  }

  lemma SpreadNext(t: seq<u64>, s: seq<int>, i: nat, carry: int, low: int, next: int)
    requires Spread(t, s, i, carry) && i < 17 && 0 <= low < Radix(i) && 0 <= next <= 2
    requires Pending(t, i) + Low(t[i], i) + carry == low + Radix(i) * next
    ensures Spread(t, s[i := low], i + 1, next)
  {
    var r := s[i := low];
    assert r[..i] == s[..i];
    EvalTake(Weight, t, i);
    EvalTake(Weight, r, i);
    Parts(t[i], i);
    RadixPair(i);
    SpreadTerm(t[i], Low(t[i], i), Mid(t[i], i), High(t[i]), carry + Pending(t, i), Above(t, i), low, next,
      Weight(i), Radix(i), Radix(i + 1));
  }

  lemma RadixPair(i: nat)
    ensures Radix(i) * Radix(i + 1) == BIT57
  {
  }

  lemma SpreadTerm(t: int, a: int, b: int, c: int, pending: int, above: int, low: int, next: int, w: int, r: int,
                   u: int)
    requires t == a + r * b + BIT57 * c && r * u == BIT57 && pending + a == low + r * next
    ensures pending * w + above * (w * r) + t * w == low * w + (next + (b + above)) * (w * r) + c * (w * r * u)
  {
    assert (pending + a) * w == low * w + r * next * w && (pending + a) * w == pending * w + a * w;
    MulEqual(t, a + r * b + BIT57 * c, w);
    assert (a + r * b + BIT57 * c) * w == a * w + r * b * w + BIT57 * c * w;
    assert c * (w * r * u) == c * (w * (r * u)) == BIT57 * c * w;
    assert (next + (b + above)) * (w * r) == next * (w * r) + b * (w * r) + above * (w * r);
    assert next * (w * r) == r * next * w && b * (w * r) == r * b * w;
  }

  /** The sum for limb i, before it is cut to the limb's width. */
  method SpreadSum(t: array<u64>, i: nat, carry: u32) returns (x: u32)
    requires t.Length == 17 && i < 17 && carry <= 2
    ensures x == Pending(t[..], i) + Low(t[i], i) + carry && x < 3 * Radix(i)
  {
    Parts(t[i], i);
    x := 0;
    if i >= 2 {
      Parts(t[i - 2], i - 2);
      x := HighBits(t[i - 2]);
    }
    if i >= 1 {
      Parts(t[i - 1], i - 1);
      var mid := MidBits(t[i - 1], i - 1);
      x := x + mid;
    }
    var low := LowBits(t[i], i);
    x := x + low;
    x := x + carry;
  }

  method SpreadLimb(t: array<u64>, s: array<u32>, i: nat, carry: u32) returns (next: u32)
    requires t.Length == 17 && s.Length == 18 && i < 17 && Spread(t[..], s[..], i, carry)
    modifies s
    ensures Spread(t[..], s[..], i + 1, next)
  {
    ghost var before: seq<int> := s[..];
    s[i] := SpreadSum(t, i, carry);
    var low;
    low, next := SplitLimb(s[i], i);
    SmallQuotient(low, next, Radix(i));
    SpreadNext(t[..], before, i, carry, low, next);
    s[i] := low;
    assert s[..] == before[i := low];
  }

  lemma SmallQuotient(low: int, high: int, r: int)
    requires 0 <= low && r > 0 && low + r * high < 3 * r
    ensures high <= 2
  {
    if high >= 3 {
      MulLe(3, high, r);
    }
  }

  /** The limbs before the reduction; the top limb may be larger, even than a word. */
  ghost predicate Limbs18(s: seq<int>) {
    |s| == 18 && 0 <= s[17] < 0x8_0000_0100 && forall j :: 0 <= j < 17 ==> 0 <= s[j] < Radix(j)
  }

  /** The words stand for limbs of the same number. The upper half of the top limb of t is
      shifted without a mask, so the top word may have wrapped around. */
  method SpreadAll(t: array<u64>) returns (s: array<u32>, ghost r: seq<int>)
    requires t.Length == 17
    ensures fresh(s) && s.Length == 18 && Represents(s[..], r) && Limbs18(r) && Number(r) == Number(t[..])
  {
    s := new u32[18];
    var carry: u32 := 0;
    assert t[..][..0] == [] && s[..][..0] == [];
    for i := 0 to 17
      invariant Spread(t[..], s[..], i, carry)
    {
      carry := SpreadLimb(t, s, i, carry);
    }
    ghost var before: seq<int> := s[..];
    ghost var top;
    top := SpreadTopLimb(t, s, carry);
    r := before[17 := top];
    SpreadTop(t[..], before, carry, top);
    TopWrapped(before, s[..], top);
  }

  method SpreadTopLimb(t: array<u64>, s: array<u32>, carry: u32) returns (ghost top: int)
    requires t.Length == 17 && s.Length == 18 && carry <= 2
    modifies s
    ensures s[17] == top % M && 0 <= top < 0x8_0000_0100 && forall j :: 0 <= j < 17 ==> s[j] == old(s[j])
    ensures top == High(t[15]) + Mid(t[16], 16) + Radix(17) * High(t[16]) + carry
  {
    Parts(t[15], 15);
    var high := HighBits(t[15]);
    var v: u32, w: u32 := t[16] / M, t[16] % M;
    TopShift(t[16], v, w);
    s[17] := high;
    s[17] := s[17] + w / 0x2000_0000;
    s[17] := Add32(s[17], v * 8 % M);
    s[17] := Add32(s[17], carry);
    top := high + w / 0x2000_0000 + v * 8 + carry;
    AddWrap(high + w / 0x2000_0000, v * 8, v * 8 % M);
    DivModUnique(high + w / 0x2000_0000, M, 0, high + w / 0x2000_0000);
    DivModUnique(carry, M, 0, carry);
    AddWrap(high + w / 0x2000_0000 + v * 8, carry, carry);
  }

  lemma TopWrapped(before: seq<int>, s: seq<u32>, top: int)
    requires |before| == |s| == 18 && s[17] == top % M && 0 <= top < 0x8_0000_0100
    requires forall j :: 0 <= j < 17 ==> s[j] == before[j] && 0 <= before[j] < Radix(j)
    ensures Represents(s, before[17 := top]) && Limbs18(before[17 := top])
  {
    var r := before[17 := top];
    forall j | 0 <= j < 18 ensures Wrapped(r)[j] == s[j] {
      if j < 17 {
        DivModUnique(r[j], M, 0, r[j]);
      }
    }
  }

  lemma TopShift(t: u64, v: u32, w: u32)
    requires v == t / M && w == t % M
    ensures w / 0x2000_0000 + v * 8 == Mid(t, 16) + Radix(17) * High(t)
  {
    Parts(t, 16);
    DivModUnique(t, 0x2000_0000, w / 0x2000_0000 + v * 8, w % 0x2000_0000);
    DivModUnique(t, 0x2000_0000, Mid(t, 16) + Radix(17) * High(t), Low(t, 16));
  }

  lemma SpreadTop(t: seq<u64>, s: seq<int>, carry: int, top: int)
    requires Spread(t, s, 17, carry)
    requires top == High(t[15]) + Mid(t[16], 16) + Radix(17) * High(t[16]) + carry
    ensures Number(s[17 := top]) == Number(t)
  {
    var r := s[17 := top];
    assert r[..17] == s[..17] && r[..18] == r && t[..17] == t;
    EvalTake(Weight, r, 17);
    TopTerm(top, carry + Pending(t, 17), High(t[16]), Weight(17), Radix(17));
  }

  lemma TopTerm(top: int, pending: int, high: int, w: int, r: int)
    requires top == pending + r * high
    ensures top * w == pending * w + high * (w * r)
  {
    assert r * high * w == high * (w * r);
  }
}
