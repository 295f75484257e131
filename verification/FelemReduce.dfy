/** Montgomery reduction of 3rd/encrypt/src/p256_ec.c: felem_reduce_degree divides by
    2^257 modulo the prime. */
module FelemReduce {
  import opened Bits
  import opened Modular
  import opened Limbs
  import opened FelemField
  import opened FelemSpread

  // ---------- Words that may wrap around ----------

  /** t[j] += d, where d stands for e */
  method AddTo(t: array<u32>, j: nat, d: u32, ghost e: int, ghost s: seq<int>) returns (ghost r: seq<int>)
    requires t.Length == 18 && j < 18 && Represents(t[..], s) && d == e % M
    modifies t
    ensures Represents(t[..], r) && Changed(s, r, j, e)
  {
    AddWrap(s[j], e, d);
    t[j] := Add32(t[j], d);
    r := s[j := s[j] + e];
  }

  /** t[j] += d */
  method AddWord(t: array<u32>, j: nat, d: u32, ghost s: seq<int>) returns (ghost r: seq<int>)
    requires t.Length == 18 && j < 18 && Represents(t[..], s)
    modifies t
    ensures Represents(t[..], r) && Changed(s, r, j, d)
  {
    DivModUnique(d, M, 0, d);
    r := AddTo(t, j, d, d, s);
  }

  /** t[j] -= d */
  method SubWord(t: array<u32>, j: nat, d: u32, ghost s: seq<int>) returns (ghost r: seq<int>)
    requires t.Length == 18 && j < 18 && Represents(t[..], s)
    modifies t
    ensures Represents(t[..], r) && Changed(s, r, j, -(d as int))
  {
    SubWrap(s[j], d);
    t[j] := Sub32(t[j], d);
    r := s[j := s[j] - d];
  }

  /** t[j] = 0 */
  method Clear(t: array<u32>, j: nat, ghost s: seq<int>) returns (ghost r: seq<int>)
    requires t.Length == 18 && j < 18 && Represents(t[..], s)
    modifies t
    ensures Represents(t[..], r) && Changed(s, r, j, -s[j])
  {
    t[j] := 0;
    r := s[j := 0];
  }

  // ---------- Bounds ----------

  /** What limbs i with i > d below a limb at distance d can still have added to it. */
  function Room(even: bool, d: int): int {
    if even then
      if d >= 9 then 0 else if d == 8 then 0x1000_0000 else if d == 7 then 0x4000_0000
      else if d == 6 then 0x6020_0000 else if d >= 4 then 0x8020_0000 else if d == 3 then 0x8020_0800
      else if d >= 1 then 0xa020_0800 else 0xa020_0810
    else
      if d >= 9 then 0 else if d == 8 then 0x1000_0000 else if d == 7 then 0x2000_0000
      else if d == 6 then 0x3020_0000 else if d >= 4 then 0x4020_0000 else if d == 3 then 0x4020_0400
      else if d >= 1 then 0x5020_0400 else 0x5020_0408
  }

  function Top(j: int, k: int): int {
    (if j == 17 then 0x8_0000_0100 else if j % 2 == 0 then 0x2000_0000 else 0x1000_0000) + Room(j % 2 == 0, j - k)
  }

  /** Limbs below k are eliminated. An odd limb may have gone below zero by one; the limb
      before it then carries into it. */
  ghost predicate Stage(s: seq<int>, k: nat) {
    |s| == 18 && k <= 9
    && (forall j :: 0 <= j < k ==> s[j] == 0)
    && (forall j :: k <= j < 18 ==> s[j] < Top(j, k))
    && (forall j :: k <= j < 18 ==> s[j] >= 0 || Repaid(s, k, j))
  }

  ghost predicate Repaid(s: seq<int>, k: nat, j: nat)
    requires |s| == 18 && j < 18
  {
    j % 2 == 1 && 9 <= j < k + 9 && j - 1 >= k && s[j] == -1 && s[j - 1] >= 0x2000_0000
  }

  lemma StageStart(s: seq<int>)
    requires Limbs18(s)
    ensures Stage(s, 0)
  {
  }

  /** What eliminating limb k adds to the limbs above it. */
  ghost predicate Grown(s: seq<int>, t: seq<int>, k: nat) {
    |s| == |t| == 18 && k < 9 && t[k] == 0
    && (forall j :: 0 <= j < 18 && j != k ==>
          if k < j < k + 9 then s[j] <= t[j] else if j == k + 9 then s[j] - 1 <= t[j] else s[j] == t[j])
    && (forall j :: k < j < 18 ==> t[j] <= s[j] + Top(j, k + 1) - Top(j, k))
    && (s[k] >= 0x2000_0000 ==> t[k + 1] > s[k + 1])
    && (t[k + 9] < s[k + 9] ==> k % 2 == 0 && t[k + 8] >= s[k + 8] + 0x2000_0000)
  }

  lemma StageNext(s: seq<int>, t: seq<int>, k: nat)
    requires Stage(s, k) && Grown(s, t, k)
    ensures Stage(t, k + 1)
  {
    forall j | k + 1 <= j < 18 ensures t[j] >= 0 || Repaid(t, k + 1, j) {
      assert s[j] >= 0 || Repaid(s, k, j);
      if j == k + 9 {
        assert s[j - 1] >= 0 || Repaid(s, k, j - 1);
      }
    }
  }

  // ---------- Weights relative to an even and to an odd limb ----------

  const E3: int := 0x40_0000_0000_0000_0000_0000
  const E4: int := 0x4_0000_0000_0000_0000_0000_0000_0000
  const E6: int := 0x800_0000_0000_0000_0000_0000_0000_0000_0000_0000_0000
  const E7: int := 0x100_0000_0000_0000_0000_0000_0000_0000_0000_0000_0000_0000_0000
  const E8: int := 0x10_0000_0000_0000_0000_0000_0000_0000_0000_0000_0000_0000_0000_0000_0000
  const E9: int := 0x2_0000_0000_0000_0000_0000_0000_0000_0000_0000_0000_0000_0000_0000_0000_0000_0000

  const O3: int := 0x20_0000_0000_0000_0000_0000
  const O7: int := 0x80_0000_0000_0000_0000_0000_0000_0000_0000_0000_0000_0000_0000
  const O9: int := 0x1_0000_0000_0000_0000_0000_0000_0000_0000_0000_0000_0000_0000_0000_0000_0000_0000

  lemma EvenWeights(k: nat)
    requires k % 2 == 0
    ensures var w := Weight(k);
      Weight(k + 1) == w * 0x2000_0000 && Weight(k + 3) == w * E3 && Weight(k + 4) == w * E4 && Weight(k + 6) == w * E6
      && Weight(k + 7) == w * E7 && Weight(k + 8) == w * E8 && Weight(k + 9) == w * E9
  {
    WeightPair(k);
    WeightPair(k + 2);
    WeightPair(k + 4);
    WeightPair(k + 6);
    WeightPair(k + 8);
  }

  lemma OddWeights(k: nat)
    requires k % 2 == 1
    ensures var w := Weight(k);
      Weight(k + 1) == w * 0x1000_0000 && Weight(k + 3) == w * O3 && Weight(k + 4) == w * E4 && Weight(k + 6) == w * E6
      && Weight(k + 7) == w * O7 && Weight(k + 8) == w * E8 && Weight(k + 9) == w * O9
  {
    WeightPair(k);
    WeightPair(k + 2);
    WeightPair(k + 4);
    WeightPair(k + 6);
    WeightPair(k + 8);
  }

  lemma WeightPair(k: nat)
    ensures Weight(k + 1) == (if k % 2 == 0 then Weight(k) * 0x2000_0000 else Weight(k) * 0x1000_0000)
    ensures Weight(k + 2) == Weight(k) * BIT57
  {
    MulAssoc(Weight(k), Radix(k), Radix(k + 1));
    RadixPair(k);
  }

  /** A change d at a weight that is c times the weight w. */
  lemma At(d: int, weight: int, w: int, c: int)
    requires weight == w * c
    ensures d * weight == w * (d * c)
  {
    MulSwap(d, w, c);
  }

  lemma Distribute(w: int, a: int, b: int, c: int, d: int, e: int, f: int, g: int)
    ensures w * a + w * b + w * c + w * d + w * e + w * f + w * g == w * (a + b + c + d + e + f + g)
  {
  }

  // ---------- Eliminating a limb ----------

  /** x times the coefficients of the prime, below 2^224. */
  method LowParts(x: u32, k: nat) returns (d3: u32, d4: u32, d6: u32, d7: u32)
    requires x < Radix(k)
    ensures k % 2 == 0 ==> x * 0x400 == d3 + 0x1000_0000 * d4 && d3 < 0x1000_0000 && d4 <= 0x800
    ensures k % 2 == 0 ==> x * 0x20_0000 == d6 + 0x2000_0000 * d7 && d6 < 0x2000_0000
    ensures k % 2 == 1 ==> x * 0x800 == d3 + 0x2000_0000 * d4 && d3 < 0x2000_0000 && d4 <= 0x400
    ensures k % 2 == 1 ==> x * 0x20_0000 == d6 + 0x1000_0000 * d7 && d6 < 0x1000_0000
    ensures d7 <= 0x20_0000
  {
    if k % 2 == 0 {
      d3, d4 := ShiftSplit(x, 0x400, 1, 0x4_0000);
      d6, d7 := ShiftSplit(x, 0x20_0000, 0, 0x100);
    } else {
      d3, d4 := ShiftSplit(x, 0x800, 0, 0x4_0000);
      d6, d7 := ShiftSplit(x, 0x20_0000, 1, 0x80);
    }
  }

  /** The first changes of an elimination: the carry out of limb k and the terms below 2^224. */
  ghost predicate LowChanged(s: seq<int>, r: seq<int>, k: nat, carry: int, d3: int, d4: int, d6: int) {
    |s| == |r| == 18 && k <= 8
    && r[k] == 0 && r[k + 1] == s[k + 1] + carry && r[k + 3] == s[k + 3] + d3 && r[k + 4] == s[k + 4] + d4
    && r[k + 6] == s[k + 6] + d6
    && forall j :: 0 <= j < 18 && j != k && j != k + 1 && j != k + 3 && j != k + 4 && j != k + 6 ==> r[j] == s[j]
  }

  method EliminateLow(t: array<u32>, k: nat, carry: u32, d3: u32, d4: u32, d6: u32, ghost s: seq<int>,
                      ghost w: nat -> int)
      returns (ghost r: seq<int>)
    requires t.Length == 18 && k <= 8 && Represents(t[..], s)
    modifies t
    ensures Represents(t[..], r) && LowChanged(s, r, k, carry, d3, d4, d6)
    ensures Eval(w, r) == Eval(w, s) + carry * w(k + 1) - s[k] * w(k) + d3 * w(k + 3) + d4 * w(k + 4) + d6 * w(k + 6)
  {
    ghost var a := AddWord(t, k + 1, carry, s);
    ghost var b := Clear(t, k, a);
    ghost var c := AddWord(t, k + 3, d3, b);
    ghost var d := AddWord(t, k + 4, d4, c);
    r := AddWord(t, k + 6, d6, d);
    EvalChanged(w, s, a, k + 1, carry);
    EvalChanged(w, a, b, k, -s[k]);
    EvalChanged(w, b, c, k + 3, d3);
    EvalChanged(w, c, d, k + 4, d4);
    EvalChanged(w, d, r, k + 6, d6);
    NegativeTerm(s[k], w(k));
  }

  lemma NegativeTerm(x: int, y: int)
    ensures -x * y == -(x * y)
  {
  }

  /** The other changes: the terms from 2^224 on, and the upper part of the term at 2^192. */
  ghost predicate HighChanged(s: seq<int>, r: seq<int>, k: nat, d7: int, d8: int, d9: int) {
    |s| == |r| == 18 && k <= 8
    && r[k + 7] == s[k + 7] + d7 && r[k + 8] == s[k + 8] + d8 && r[k + 9] == s[k + 9] + d9
    && forall j :: 0 <= j < 18 && j != k + 7 && j != k + 8 && j != k + 9 ==> r[j] == s[j]
  }

  lemma HighSum(w: nat -> int, s: seq<int>, r: seq<int>, k: nat, d7: int, d8: int, d9: int)
    requires HighChanged(s, r, k, d7, d8, d9)
    ensures Eval(w, r) == Eval(w, s) + d7 * w(k + 7) + d8 * w(k + 8) + d9 * w(k + 9)
  {
    var p := seq(18, j requires 0 <= j < 18 => if j == k + 7 then r[j] else s[j]);
    var q := seq(18, j requires 0 <= j < 18 => if j == k + 9 then s[j] else r[j]);
    EvalChanged(w, s, p, k + 7, d7);
    EvalChanged(w, p, q, k + 8, d8);
    EvalChanged(w, q, r, k + 9, d9);
  }

  /** x / 2 - 1 under a mask, as a word and as an integer that may be -1. */
  method HalfLessOne(x: u32, half: u32, mask: u32) returns (word: u32, ghost value: int)
    requires half == x / 2 && mask == if x == 0 then 0 else 0xffff_ffff
    ensures word == value % M && value == if x == 0 then 0 else half - 1
  {
    value := if x == 0 then 0 else half - 1;
    word := Mask((half - 1) % M, mask);
  }

  /** x - 1 under a mask */
  method LessOne(x: u32, mask: u32) returns (word: u32)
    requires mask == if x == 0 then 0 else 0xffff_ffff
    ensures word == if x == 0 then 0 else x - 1
  {
    word := Mask((x - 1) % M, mask);
  }

  /** At an even limb. */
  method EliminateHighEven(t: array<u32>, k: nat, x: u32, up: u32, ghost s: seq<int>)
      returns (ghost r: seq<int>, ghost d7: int, ghost d8: int, ghost d9: int)
    requires t.Length == 18 && k <= 8 && Represents(t[..], s) && x < 0x2000_0000 && up <= 0x20_0000
    modifies t
    ensures Represents(t[..], r) && HighChanged(s, r, k, d7, d8, d9)
    ensures d7 * E7 + d8 * E8 + d9 * E9 == up * E7 + x * (O9 - E7 * 0x100_0000)
    ensures 0 <= d7 <= 0x1020_0000 && 0 <= d8 <= 0x3000_0000 && -1 <= d9 <= 0x1000_0000
    ensures d9 < 0 ==> d8 >= 0x2000_0000
  {
    var mask := NonZeroToAllOnes(x);
    var bit28 := Mask(0x1000_0000, mask);
    var bit29 := Mask(0x2000_0000, mask);
    var less := LessOne(x, mask);
    var b7, b8 := ShiftSplit(x, 0x100_0000, 1, 0x10);
    var a8, half := ShiftSplit(x, 0x1000_0000, 0, 2);
    var word, value := HalfLessOne(x, half, mask);
    r := AddWord(t, k + 7, up, s);
    r := AddWord(t, k + 7, bit28, r);
    r := AddWord(t, k + 8, less, r);
    r := SubWord(t, k + 7, b7, r);
    r := SubWord(t, k + 8, b8, r);
    r := AddWord(t, k + 8, bit29, r);
    r := SubWord(t, k + 8, x, r);
    r := AddWord(t, k + 8, a8, r);
    r := AddTo(t, k + 9, word, value, r);
    d7, d8, d9 := up + bit28 - b7, less - b8 + bit29 - x + a8, value;
  }

  /** At an odd limb. */
  method EliminateHighOdd(t: array<u32>, k: nat, x: u32, up: u32, ghost s: seq<int>)
      returns (ghost r: seq<int>, ghost d7: int, ghost d8: int, ghost d9: int)
    requires t.Length == 18 && k <= 8 && Represents(t[..], s) && x < 0x1000_0000 && up <= 0x20_0000
    modifies t
    ensures Represents(t[..], r) && HighChanged(s, r, k, d7, d8, d9)
    ensures d7 * O7 + d8 * E8 + d9 * O9 == up * O7 + x * (O9 - O7 * 0x200_0000)
    ensures 0 <= d7 <= 0x2020_0000 && 0 <= d8 <= 0x1000_0000 && 0 <= d9 <= 0x1000_0000
  {
    var mask := NonZeroToAllOnes(x);
    var bit28 := Mask(0x1000_0000, mask);
    var bit29 := Mask(0x2000_0000, mask);
    var less := LessOne(x, mask);
    var b7, b8 := ShiftSplit(x, 0x200_0000, 0, 0x10);
    r := AddWord(t, k + 7, up, s);
    r := AddWord(t, k + 7, bit29, r);
    r := AddWord(t, k + 8, less, r);
    r := SubWord(t, k + 7, b7, r);
    r := SubWord(t, k + 8, b8, r);
    r := AddWord(t, k + 8, bit28, r);
    r := SubWord(t, k + 8, x, r);
    r := AddWord(t, k + 9, less, r);
    d7, d8, d9 := up + bit29 - b7, less - b8 + bit28 - x, less;
  }

  /** x times the prime, term by term. */
  lemma EvenSum(x: int, d3: int, d4: int, d6: int, up: int, high: int)
    requires x * 0x400 == d3 + 0x1000_0000 * d4 && x * 0x20_0000 == d6 + 0x2000_0000 * up
    requires high == up * E7 + x * (O9 - E7 * 0x100_0000)
    ensures d3 * E3 + d4 * E4 + d6 * E6 + high == P * x + x
  {
  }

  lemma OddSum(x: int, d3: int, d4: int, d6: int, up: int, high: int)
    requires x * 0x800 == d3 + 0x2000_0000 * d4 && x * 0x20_0000 == d6 + 0x1000_0000 * up
    requires high == up * O7 + x * (O9 - O7 * 0x200_0000)
    ensures d3 * O3 + d4 * E4 + d6 * E6 + high == P * x + x
  {
  }

  /** The changes at weights that are multiples of w add up to x times the prime, at w. */
  lemma Total(w: int, w1: int, w3: int, w4: int, w6: int, w7: int, w8: int, w9: int, r: int, c3: int, c7: int, c9: int,
              x: int, carry: int, sk: int, d3: int, d4: int, d6: int, d7: int, d8: int, d9: int)
    requires w1 == w * r && w3 == w * c3 && w4 == w * E4 && w6 == w * E6 && w7 == w * c7 && w8 == w * E8 && w9 == w * c9
    requires sk == x + r * carry && d3 * c3 + d4 * E4 + d6 * E6 + (d7 * c7 + d8 * E8 + d9 * c9) == P * x + x
    ensures carry * w1 - sk * w + d3 * w3 + d4 * w4 + d6 * w6 + d7 * w7 + d8 * w8 + d9 * w9 == P * (w * x)
  {
    At(carry, w1, w, r);
    At(d3, w3, w, c3);
    At(d4, w4, w, E4);
    At(d6, w6, w, E6);
    At(d7, w7, w, c7);
    At(d8, w8, w, E8);
    At(d9, w9, w, c9);
    Distribute(w, carry * r, d3 * c3, d4 * E4, d6 * E6, d7 * c7, d8 * E8, d9 * c9);
    At(sk, w, w, 1);
    TotalTerm(w, x, carry, sk, r, carry * r + (P * x + x));
  }

  lemma TotalTerm(w: int, x: int, carry: int, sk: int, r: int, total: int)
    requires sk == x + r * carry && total == carry * r + (P * x + x)
    ensures w * total - w * sk == P * (w * x)
  {
    assert w * total - w * sk == w * (total - sk);
    MulEqual(total - sk, P * x, w);
    assert P * x * w == P * (w * x);
  }

  /** Limbs below k are eliminated by adding m times the prime. */
  ghost predicate Eliminating(t: seq<u32>, s: seq<int>, k: nat, total: int, m: int) {
    Represents(t, s) && Stage(s, k) && Number(s) == total + P * m && 0 <= m < Weight(k)
  }

  lemma MultiplierNext(m: int, x: int, w: int, r: int, n: int, n': int, total: int)
    requires n == total + P * m && n' == n + P * (w * x) && 0 <= m < w && 0 <= x < r
    ensures n' == total + P * (m + w * x) && 0 <= m + w * x < w * r
  {
    MulLe(x + 1, r, w);
    MulLe(0, x, w);
    assert (x + 1) * w == x * w + w && x * w == w * x && r * w == w * r;
  }

  /** Limb k of an even position is eliminated by adding a multiple of the prime. */
  method EliminateEven(t: array<u32>, k: nat, ghost s: seq<int>, ghost total: int, ghost q: int)
      returns (ghost r: seq<int>, ghost q': int)
    requires t.Length == 18 && k % 2 == 0 && k <= 8 && Eliminating(t[..], s, k, total, q)
    modifies t
    ensures Eliminating(t[..], r, k + 1, total, q')
  {
    Exact(t[..], s, k);
    var x, carry := Split29(t[k]);
    var d3, d4, d6, up := LowParts(x, k);
    ghost var m := EliminateLow(t, k, carry, d3, d4, d6, s, Weight);
    ghost var d7, d8, d9;
    r, d7, d8, d9 := EliminateHighEven(t, k, x, up, m);
    HighSum(Weight, m, r, k, d7, d8, d9);
    EvenWeights(k);
    EvenSum(x, d3, d4, d6, up, d7 * E7 + d8 * E8 + d9 * E9);
    Total(Weight(k), Weight(k + 1), Weight(k + 3), Weight(k + 4), Weight(k + 6), Weight(k + 7), Weight(k + 8),
      Weight(k + 9),
      0x2000_0000, E3, E7, E9, x, carry, s[k], d3, d4, d6, d7, d8, d9);
    MultiplierNext(q, x, Weight(k), Radix(k), Number(s), Number(r), total);
    q' := q + Weight(k) * x;
    GrownBy(s, m, r, k, carry, d3, d4, d6, d7, d8, d9);
    StageNext(s, r, k);
  }

  method EliminateOdd(t: array<u32>, k: nat, ghost s: seq<int>, ghost total: int, ghost q: int)
      returns (ghost r: seq<int>, ghost q': int)
    requires t.Length == 18 && k % 2 == 1 && k <= 8 && Eliminating(t[..], s, k, total, q)
    modifies t
    ensures Eliminating(t[..], r, k + 1, total, q')
  {
    Exact(t[..], s, k);
    var x, carry := Split28(t[k]);
    var d3, d4, d6, up := LowParts(x, k);
    ghost var m := EliminateLow(t, k, carry, d3, d4, d6, s, Weight);
    ghost var d7, d8, d9;
    r, d7, d8, d9 := EliminateHighOdd(t, k, x, up, m);
    HighSum(Weight, m, r, k, d7, d8, d9);
    OddWeights(k);
    OddSum(x, d3, d4, d6, up, d7 * O7 + d8 * E8 + d9 * O9);
    Total(Weight(k), Weight(k + 1), Weight(k + 3), Weight(k + 4), Weight(k + 6), Weight(k + 7), Weight(k + 8),
      Weight(k + 9),
      0x1000_0000, O3, O7, O9, x, carry, s[k], d3, d4, d6, d7, d8, d9);
    MultiplierNext(q, x, Weight(k), Radix(k), Number(s), Number(r), total);
    q' := q + Weight(k) * x;
    GrownBy(s, m, r, k, carry, d3, d4, d6, d7, d8, d9);
    StageNext(s, r, k);
  }

  /** The limb to be eliminated has not wrapped around. */
  lemma Exact(t: seq<u32>, s: seq<int>, k: nat)
    requires Represents(t, s) && Stage(s, k) && k <= 8
    ensures t[k] == s[k]
  {
    DivModUnique(s[k], M, 0, s[k]);
  }

  lemma GrownBy(s: seq<int>, m: seq<int>, r: seq<int>, k: nat, carry: int, d3: int, d4: int, d6: int,
                d7: int, d8: int, d9: int)
    requires LowChanged(s, m, k, carry, d3, d4, d6) && HighChanged(m, r, k, d7, d8, d9)
    requires 0 <= carry && (s[k] >= 0x2000_0000 ==> carry >= 1) && 0 <= d3 && 0 <= d4 && 0 <= d6
    requires k % 2 == 0 ==> carry <= 7 && d3 < 0x1000_0000 && d4 <= 0x800 && d6 < 0x2000_0000
    requires k % 2 == 0 ==> 0 <= d7 <= 0x1020_0000 && 0 <= d8 <= 0x3000_0000 && -1 <= d9 <= 0x1000_0000
    requires k % 2 == 0 ==> d9 < 0 ==> d8 >= 0x2000_0000
    requires k % 2 == 1 ==> carry <= 15 && d3 < 0x2000_0000 && d4 <= 0x400 && d6 < 0x1000_0000
    requires k % 2 == 1 ==> 0 <= d7 <= 0x2020_0000 && 0 <= d8 <= 0x1000_0000 && 0 <= d9 <= 0x1000_0000
    ensures Grown(s, r, k)
  {
  }

  method EliminatePair(t: array<u32>, k: nat, ghost s: seq<int>, ghost total: int, ghost q: int)
      returns (ghost r: seq<int>, ghost q': int)
    requires t.Length == 18 && k % 2 == 0 && k < 8 && Eliminating(t[..], s, k, total, q)
    modifies t
    ensures Eliminating(t[..], r, k + 2, total, q')
  {
    ghost var u, p;
    u, p := EliminateEven(t, k, s, total, q);
    r, q' := EliminateOdd(t, k + 1, u, total, p);
  }

  lemma EliminatingStart(t: seq<u32>, s: seq<int>)
    requires Represents(t, s) && Limbs18(s)
    ensures Eliminating(t, s, 0, Number(s), 0)
  {
    StageStart(s);
    assert Weight(0) == 1;
  }

  /** Nine limbs are eliminated, even and odd ones in turn. */
  method EliminateAll(t: array<u32>, ghost s: seq<int>) returns (ghost r: seq<int>, ghost q: int)
    requires t.Length == 18 && Represents(t[..], s) && Limbs18(s)
    modifies t
    ensures Eliminating(t[..], r, 9, Number(s), q)
  {
    ghost var total := Number(s);
    r, q := s, 0;
    EliminatingStart(t[..], s);
    var k := 0;
    while k < 8
      invariant k <= 8 && k % 2 == 0 && Eliminating(t[..], r, k, total, q)
    {
      r, q := EliminatePair(t, k, r, total, q);
      k := k + 2;
    }
    r, q := EliminateEven(t, 8, r, total, q);
  }

  // ---------- Division by 2^257 ----------

  /** The limbs from 9 on, in the widths of an element. */
  ghost function Shifted(s: seq<int>): (r: seq<int>)
    requires |s| == 18
    ensures |r| == N
  {
    seq(N, i requires 0 <= i < N =>
      if i == 8 then s[17] else if i % 2 == 0 then s[i + 9] + s[i + 10] % 2 * 0x1000_0000 else s[i + 9] / 2)
  }

  /** Two limbs of the shifted number. */
  lemma ShiftedPair(s: seq<int>, i: nat)
    requires |s| == 18 && i % 2 == 0 && i < 8
    requires Number(s[..i + 9]) == Weight(9) * Number(Shifted(s)[..i])
    ensures Number(s[..i + 11]) == Weight(9) * Number(Shifted(s)[..i + 2])
  {
    ShiftedOdd(s, i);
    PairNumber(s, Shifted(s), i);
  }

  lemma PairNumber(s: seq<int>, r: seq<int>, i: nat)
    requires |s| == 18 && |r| == N && i % 2 == 0 && i < 8
    requires r[i] == s[i + 9] + s[i + 10] % 2 * 0x1000_0000 && s[i + 10] == s[i + 10] % 2 + 2 * r[i + 1]
    requires Number(s[..i + 9]) == Weight(9) * Number(r[..i])
    ensures Number(s[..i + 11]) == Weight(9) * Number(r[..i + 2])
  {
    EvalTwo(s, i + 9);
    EvalTwo(r, i);
    WeightFromNine(i);
    ShiftedTerm(s[i + 9], s[i + 10], s[i + 10] % 2, r[i], r[i + 1], Weight(i), Weight(9), Number(r[..i]), Weight(i + 9),
      Weight(i + 10), Weight(i + 1), Number(s[..i + 11]), Number(r[..i + 2]));
  }

  lemma ShiftedOdd(s: seq<int>, i: nat)
    requires |s| == 18 && i % 2 == 0 && i < 8
    ensures Shifted(s)[i] == s[i + 9] + s[i + 10] % 2 * 0x1000_0000
    ensures s[i + 10] == s[i + 10] % 2 + 2 * Shifted(s)[i + 1]
  {
  }

  lemma EvalTwo(s: seq<int>, i: nat)
    requires i + 1 < |s|
    ensures Number(s[..i + 2]) == Number(s[..i]) + s[i] * Weight(i) + s[i + 1] * Weight(i + 1)
  {
    EvalTake(Weight, s, i);
    EvalTake(Weight, s, i + 1);
  }

  lemma {:induction false} WeightFromNine(i: nat)
    requires i % 2 == 0
    ensures Weight(i + 9) == Weight(9) * Weight(i) && Weight(i + 10) == Weight(9) * (Weight(i) * 0x1000_0000)
    ensures Weight(i + 1) == Weight(i) * 0x2000_0000
  {
    WeightPair(i);
    WeightPair(i + 9);
    if i == 0 {
      assert Weight(0) == 1;
    } else {
      WeightFromNine(i - 2);
      WeightPair(i - 2);
      WeightPair(i + 7);
      MulAssoc(Weight(9), Weight(i - 2), BIT57);
    }
    MulAssoc(Weight(9), Weight(i), 0x1000_0000);
  }

  lemma ShiftedTerm(x: int, y: int, low: int, u: int, high: int, w: int, w9: int, v: int, wx: int, wy: int, wh: int,
                    after: int, total: int)
    requires y == low + 2 * high && u == x + low * 0x1000_0000 && wx == w9 * w && wy == w9 * (w * 0x1000_0000)
      && wh == w * 0x2000_0000
    requires after == w9 * v + x * wx + y * wy && total == v + u * w + high * wh
    ensures after == w9 * total
  {
    At(x, wx, w9, w);
    At(y, wy, w9, w * 0x1000_0000);
    MulSum(w9, v, x * w);
    MulSum(w9, v + x * w, y * (w * 0x1000_0000));
    MulEqual(y, low + 2 * high, w);
    assert (low + 2 * high) * w == low * w + 2 * (high * w);
    assert y * (w * 0x1000_0000) == 0x1000_0000 * (y * w);
    MulEqual(u, x + low * 0x1000_0000, w);
    assert (x + low * 0x1000_0000) * w == x * w + 0x1000_0000 * (low * w);
    assert high * wh == 0x2000_0000 * (high * w);
  }

  lemma {:induction false} ShiftedPrefix(s: seq<int>, i: nat)
    requires Stage(s, 9) && i % 2 == 0 && i <= 8
    ensures Number(s[..i + 9]) == Weight(9) * Number(Shifted(s)[..i])
  {
    if i == 0 {
      EvalZeroPrefix(Weight, s, 9);
      assert Shifted(s)[..0] == [];
    } else {
      ShiftedPrefix(s, i - 2);
      ShiftedPair(s, i - 2);
    }
  }

  lemma ShiftedNumber(s: seq<int>)
    requires Stage(s, 9)
    ensures Number(s) == Weight(9) * Number(Shifted(s))
  {
    ShiftedPrefix(s, 8);
    ShiftedTop(s);
  }

  lemma ShiftedTop(s: seq<int>)
    requires |s| == 18 && Number(s[..17]) == Weight(9) * Number(Shifted(s)[..8])
    ensures Number(s) == Weight(9) * Number(Shifted(s))
  {
    var r := Shifted(s);
    assert s[..18] == s && r[..9] == r;
    EvalTake(Weight, s, 17);
    EvalTake(Weight, r, 8);
    WeightFromNine(8);
    At(s[17], Weight(17), Weight(9), Weight(8));
    MulSum(Weight(9), Number(r[..8]), s[17] * Weight(8));
  }

  // ---------- The result ----------

  /** Limbs 0 to i - 1 of the result are done. Where the next word has wrapped around, the
      carry is at least one. */
  ghost predicate Shifting(s: seq<int>, out: seq<int>, i: nat, carry: int) {
    Stage(s, 9) && Chain(out, Shifted(s), i, carry) && 0 <= carry <= 15
    && (i % 2 == 0 && i <= 8 ==> 0 <= s[i + 9] + carry)
  }

  lemma ShiftingStart(s: seq<int>, out: seq<int>)
    requires Stage(s, 9) && |out| == N
    ensures Shifting(s, out, 0, 0)
  {
    assert out[..0] == [] && Shifted(s)[..0] == [];
    assert s[9] >= 0 || Repaid(s, 9, 9);
  }

  /** Cuts a limb that already holds the carry. */
  method CutLimb(out: array<u32>, i: nat, carry: u32, ghost s: seq<int>, ghost before: seq<int>) returns (next: u32)
    requires out.Length == N && i < N && Shifting(s, before, i, carry)
    requires |before| == N && Changed(before, out[..], i, out[i] - before[i]) && Shifted(s)[i] + carry == out[i]
    requires i % 2 == 1 && s[i + 9] >= 0x2000_0000 ==> out[i] >= 0x1000_0000
    modifies out
    ensures Shifting(s, out[..], i + 1, next) && (i == 8 ==> next <= 7)
  {
    var low;
    low, next := SplitLimb(out[i], i);
    ChainNext(before, Shifted(s), i, carry, low, next);
    out[i] := low;
    assert out[..] == before[i := low];
    if i % 2 == 1 {
      assert s[i + 10] >= 0 || Repaid(s, 9, i + 10);
    }
  }

  /** Words at even positions have not wrapped around. */
  lemma EvenWord(t: seq<u32>, s: seq<int>, j: nat)
    requires Represents(t, s) && Stage(s, 9) && 9 <= j < 18 && j % 2 == 0
    ensures t[j] == s[j] && s[j] < 0xc020_0810
  {
    assert s[j] >= 0 || Repaid(s, 9, j);
    DivModUnique(s[j], M, 0, s[j]);
  }

  /** An odd word with the carry and more added is exact again. */
  lemma OddWord(t: seq<u32>, s: seq<int>, j: nat, carry: u32, low: u32)
    requires Represents(t, s) && Stage(s, 9) && 9 <= j < 17 && 0 <= s[j] + carry && carry <= 15 && low <= 0x1000_0000
    requires j % 2 == 1
    ensures Add32(Add32(t[j], carry), low) == s[j] + carry + low
  {
    var v := s[j] + carry;
    assert s[j] < Top(j, 9);
    DivModUnique(carry, M, 0, carry);
    AddWrap(s[j], carry, carry);
    DivModUnique(v, M, 0, v);
    DivModUnique(v + low, M, 0, v + low);
  }

  /** An even limb of the result: a 28-bit word and the low bit of the next word. */
  method ShiftEven(out: array<u32>, t: array<u32>, i: nat, carry: u32, ghost s: seq<int>) returns (next: u32)
    requires out.Length == N && t.Length == 18 && i % 2 == 0 && i < 8
    requires Represents(t[..], s) && Shifting(s, out[..], i, carry)
    modifies out
    ensures Shifting(s, out[..], i + 1, next)
  {
    ghost var before := out[..];
    EvenWord(t[..], s, i + 10);
    var low, half := ShiftSplit(t[i + 10], 0x1000_0000, 0, 2);
    OddWord(t[..], s, i + 9, carry, low);
    out[i] := t[i + 9];
    out[i] := Add32(out[i], carry);
    out[i] := Add32(out[i], low);
    next := CutLimb(out, i, carry, s, before);
  }

  method ShiftOdd(out: array<u32>, t: array<u32>, i: nat, carry: u32, ghost s: seq<int>) returns (next: u32)
    requires out.Length == N && t.Length == 18 && i % 2 == 1 && i < 8
    requires Represents(t[..], s) && Shifting(s, out[..], i, carry)
    modifies out
    ensures Shifting(s, out[..], i + 1, next)
  {
    ghost var before := out[..];
    EvenWord(t[..], s, i + 9);
    out[i] := t[i + 9] / 2;
    out[i] := out[i] + carry;
    next := CutLimb(out, i, carry, s, before);
  }

  /** The top limb is cut to a word. */
  ghost function CutTop(s: seq<int>, carry: int): (r: seq<int>)
    requires |s| == 18
    ensures |r| == N
  {
    Shifted(s)[8 := (s[17] + carry) % M - carry]
  }

  lemma CutTopNumber(s: seq<int>, out: seq<int>, carry: int)
    requires Shifting(s, out, 8, carry)
    ensures Chain(out, CutTop(s, carry), 8, carry)
    ensures Number(Shifted(s)) >= 0 && Number(CutTop(s, carry)) == Number(Shifted(s)) % (M * Weight(8))
    ensures Number(Shifted(s)) / (M * Weight(8)) < 10
  {
    var full, cut := Shifted(s), CutTop(s, carry);
    assert cut[..8] == full[..8] && cut[..9] == cut && full[..9] == full;
    EvalTake(Weight, full, 8);
    EvalTake(Weight, cut, 8);
    PrefixBound(out, 8);
    CutTopTerm(Number(out[..8]), s[17], carry, Number(full[..8]), Weight(8));
  }

  lemma CutTopTerm(v: int, top: int, carry: int, below: int, w: int)
    requires 0 <= v < w && top + carry >= 0 && v + carry * w == below
    ensures below + top * w >= 0
    ensures below + ((top + carry) % M - carry) * w == (below + top * w) % (M * w)
    ensures (below + top * w) / (M * w) == (top + carry) / M
  {
    var j, low := (top + carry) / M, (top + carry) % M;
    assert top + carry == M * j + low;
    assert below + top * w == v + (top + carry) * w;
    assert (M * j + low) * w == j * (M * w) + low * w;
    MulLe(low + 1, M, w);
    MulLe(0, low, w);
    assert (low + 1) * w == low * w + w && (low - carry) * w == low * w - carry * w;
    MulLe(0, j, M * w);
    DivModUnique(below + top * w, M * w, j, v + low * w);
  }

  method ShiftTop(out: array<u32>, t: array<u32>, carry: u32, ghost s: seq<int>) returns (next: u32)
    requires out.Length == N && t.Length == 18 && Represents(t[..], s) && Shifting(s, out[..], 8, carry)
    modifies out
    ensures Chain(out[..], CutTop(s, carry), 9, next) && next <= 7
  {
    ghost var before := out[..];
    CutTopNumber(s, before, carry);
    out[8] := t[17];
    DivModUnique(carry, M, 0, carry);
    AddWrap(s[17], carry, carry);
    out[8] := Add32(out[8], carry);
    var low;
    low, next := SplitLimb(out[8], 8);
    ChainNext(before, CutTop(s, carry), 8, carry, low, next);
    out[8] := low;
    assert out[..] == before[8 := low];
  }

  // ---------- Montgomery reduction as a function ----------

  /** The inverse of the negated prime modulo 2^257 */
  const NEGATED_INVERSE: nat := 0xffff_ffff_0000_0002_0000_0000_0000_0000_0000_0001_0000_0000_0000_0000_0000_0001

  /** The multiple of the prime that makes a number divisible by 2^257. */
  function Multiplier(n: nat): nat {
    WeightPositive(9);
    DivModBounds(n * NEGATED_INVERSE, Weight(9));
    n * NEGATED_INVERSE % Weight(9)
  }

  function Quotient(n: nat): nat {
    WeightPositive(9);
    DivModBounds(n + P * Multiplier(n), Weight(9));
    (n + P * Multiplier(n)) / Weight(9)
  }

  lemma MultiplierUnique(n: nat, m: int, v: int)
    requires n + P * m == Weight(9) * v && 0 <= m < Weight(9)
    ensures m == Multiplier(n) && v == Quotient(n)
  {
    Weights();
    var w, c := Weight(9), 0x7fff_ffff_0000_0001_ffff_fffe_8000_0001_0000_0000_ffff_ffff_0000_0001_8000_0000;
    assert P * NEGATED_INVERSE == w * c - 1;
    MultiplierTerm(n, m, v, w, c, P, NEGATED_INVERSE);
    DivModUnique(n * NEGATED_INVERSE, w, v * NEGATED_INVERSE - c * m, m);
    DivModUnique(n + P * m, w, v, 0);
  }

  lemma MultiplierTerm(n: int, m: int, v: int, w: int, c: int, p: int, i: int)
    requires n + p * m == w * v && p * i == w * c - 1
    ensures n * i == (v * i - c * m) * w + m
  {
    MulEqual(n, w * v - p * m, i);
    assert (w * v - p * m) * i == w * (v * i) - p * i * m;
    MulEqual(p * i, w * c - 1, m);
    assert (w * c - 1) * m == w * (c * m) - m;
    assert (v * i - c * m) * w == w * (v * i) - w * (c * m);
  }

  /** The limbs that the reduction makes of a number; the top word has 32 bits. */
  function Reduced(n: nat): (s: seq<int>)
    ensures |s| == N
  {
    WeightPositive(8);
    DivModBounds(Quotient(n), M * Weight(8));
    Normalized(Quotient(n) % (M * Weight(8)))
  }

  /** The reduction has room for the number. */
  predicate Reducible(n: nat) { Quotient(n) < M * Weight(8) }

  /** The quotient modulo 2^260 stands for the number divided by 2^257 if and only if
      nothing is cut off. */
  lemma ReducedIff(n: nat, m: int, v: nat, out: int)
    requires n + P * m == Weight(9) * v && v / (M * Weight(8)) < 10
    requires Congruent(P, out, v % (M * Weight(8)))
    ensures Congruent(P, out * Weight(9), n) <==> v < M * Weight(8)
  {
    Weights();
    var u, j := M * Weight(8), v / (M * Weight(8));
    var rest, back := v % u, (u * j) * Weight(9);
    DivModBounds(v, u);
    CongruentScale(P, out, rest, Weight(9));
    assert rest * Weight(9) == n + P * m - back by {
      assert v == rest + u * j;
      assert (rest + u * j) * Weight(9) == rest * Weight(9) + back;
    }
    CongruentBy(P, rest * Weight(9), n - back, m);
    CongruentTrans(P, out * Weight(9), rest * Weight(9), n - back);
    if j == 0 {
      assert v == rest;
    } else {
      MulLe(1, j, u);
      CutOff(n, j);
      if Congruent(P, out * Weight(9), n) {
        CongruentSym(P, out * Weight(9), n - back);
        CongruentTrans(P, n - back, out * Weight(9), n);
      }
    }
  }

  /** The quotient is cut at 2^260. */
  lemma CutAt(n: nat)
    ensures var cut := 0x10_0000_0000_0000_0000_0000_0000_0000_0000_0000_0000_0000_0000_0000_0000_0000_0000;
      (Reducible(n) <==> Quotient(n) < cut) && Reduced(n) == Normalized(Quotient(n) % cut)
  {
    Weights();
  }

  lemma CutOff(n: int, j: int)
    requires 0 < j < 10
    ensures !Congruent(P, n - M * Weight(8) * j * Weight(9), n)
  {
    Weights();
    var x := n - M * Weight(8) * j * Weight(9);
    forall k: int ensures !Differ(P, x, n, k) {
    }
  }

  /** Every number below 2^517 - 2^513 is reduced to its right value, and none from 2^517 on:
      so not all words below 2^64 are admissible. */
  lemma ReducibleBelow(n: nat)
    ensures n < Weight(9) * (M * Weight(8)) - P * Weight(9) ==> Reducible(n)
    ensures n >= Weight(9) * (M * Weight(8)) ==> !Reducible(n)
  {
    var w, q := Weight(9), Quotient(n);
    WeightPositive(9);
    var sum := n + P * Multiplier(n);
    DivModBounds(n * NEGATED_INVERSE, w);
    DivModBounds(sum, w);
    MulLe(Multiplier(n), w, P);
    if Reducible(n) {
      MulLe(q + 1, M * Weight(8), w);
    } else {
      MulLe(M * Weight(8), q, w);
    }
  }

  /** Words below 2^64 that are not reduced to their value. */
  lemma ReduceDegreeBreaks()
    ensures var tmp := seq(16, _ => 0) + [0xffff_ffff_ffff_ffff];
      Number(tmp) >= 0 && !Reducible(Number(tmp))
  {
    var tmp := seq(16, _ => 0) + [0xffff_ffff_ffff_ffff];
    EvalAppend(Weight, seq(16, _ => 0), 0xffff_ffff_ffff_ffff);
    EvalZeros(Weight, 16);
    WeightFromNine(6);
    Weights();
    ReducibleBelow(Number(tmp));
  }

  /** out * 2^257 = tmp modulo the prime, if and only if the top word has room: words up to
      2^64 - 1 can be too large. */
  method ReduceDegree(out: array<u32>, tmp: array<u64>)
    requires out.Length == N && tmp.Length == 17
    modifies out
    ensures Elem(out[..]) && Number(tmp[..]) >= 0 && out[..] == Reduced(Number(tmp[..]))
    ensures Congruent(P, Number(out[..]) * Weight(9), Number(tmp[..])) <==> Reducible(Number(tmp[..]))
  {
    ghost var n := Number(tmp[..]);
    var t;
    ghost var s, m;
    t, s := SpreadAll(tmp);
    s, m := EliminateAll(t, s);
    var carry := ShiftDown(out, t, s);
    CutTopNumber(s, out[..], carry);
    ghost var cut := CutTop(s, carry);
    carry := ShiftTop(out, t, carry, s);
    Finish(out, carry, cut);
    EvalPositive(tmp[..], 17);
    assert tmp[..][..17] == tmp[..];
    ShiftedNumber(s);
    MultiplierUnique(n, m, Number(Shifted(s)));
    ReducedIff(n, m, Number(Shifted(s)), Number(out[..]));
  }

  /** The lower eight limbs of the result. */
  method ShiftDown(out: array<u32>, t: array<u32>, ghost s: seq<int>) returns (carry: u32)
    requires out.Length == N && t.Length == 18 && Represents(t[..], s) && Stage(s, 9)
    modifies out
    ensures Shifting(s, out[..], 8, carry)
  {
    carry := 0;
    ShiftingStart(s, out[..]);
    for n := 0 to 4
      invariant Shifting(s, out[..], 2 * n, carry)
    {
      carry := ShiftEven(out, t, 2 * n, carry, s);
      carry := ShiftOdd(out, t, 2 * n + 1, carry, s);
    }
  }

  lemma {:induction false} EvalPositive(s: seq<u64>, i: nat)
    requires i <= |s|
    ensures Number(s[..i]) >= 0
  {
    if i == 0 {
      assert s[..0] == [];
    } else {
      EvalPositive(s, i - 1);
      EvalTake(Weight, s, i - 1);
      WeightPositive(i - 1);
      MulLe(0, s[i - 1], Weight(i - 1));
    }
  }
}
