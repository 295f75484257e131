/** The field of 3rd/encrypt/src/p256_ec.c: nine limbs of 29 and 28 bits in turn,
    modulo 2^256 - 2^224 + 2^192 + 2^96 - 1 (FIPS 186-4, section D.1.2.3). */
module FelemField {
  import opened Bits
  import opened Modular
  import opened Limbs

  const N := 9
  const P: int := 0xffff_ffff_0000_0001_0000_0000_0000_0000_0000_0000_ffff_ffff_ffff_ffff_ffff_ffff

  /** The number of values of limb i */
  function Radix(i: nat): int { if i % 2 == 0 then 0x2000_0000 else 0x1000_0000 }

  function Weight(i: nat): int { if i == 0 then 1 else Weight(i - 1) * Radix(i - 1) }

  function Number(s: seq<int>): int { Eval(Weight, s) }

  const ZERO31: seq<u32> := [0x7fff_fff8, 0x3fff_fffc, 0x7fff_fffc, 0x4000_1ffc, 0x7fff_fffc,
                             0x3fff_fffc, 0x80ff_fffc, 0x37ff_fffc, 0x7fff_fffc]

  lemma Weights()
    ensures Weight(0) == 1 && Weight(1) == 0x2000_0000 && Weight(2) == 0x200_0000_0000_0000
    ensures Weight(3) == 0x40_0000_0000_0000_0000_0000
    ensures Weight(4) == 0x4_0000_0000_0000_0000_0000_0000_0000
    ensures Weight(5) == 0x8000_0000_0000_0000_0000_0000_0000_0000_0000
    ensures Weight(6) == 0x800_0000_0000_0000_0000_0000_0000_0000_0000_0000_0000
    ensures Weight(7) == 0x100_0000_0000_0000_0000_0000_0000_0000_0000_0000_0000_0000_0000
    ensures Weight(8) == 0x10_0000_0000_0000_0000_0000_0000_0000_0000_0000_0000_0000_0000_0000_0000
    ensures Weight(9) == 0x2_0000_0000_0000_0000_0000_0000_0000_0000_0000_0000_0000_0000_0000_0000_0000_0000
  {
  }

  lemma Number9(s: seq<int>)
    requires |s| == N
    ensures Number(s) == s[0] * Weight(0) + s[1] * Weight(1) + s[2] * Weight(2) + s[3] * Weight(3) + s[4] * Weight(4)
                       + s[5] * Weight(5) + s[6] * Weight(6) + s[7] * Weight(7) + s[8] * Weight(8)
  {
    assert s[..0] == [] && s[..9] == s;
    EvalTake(Weight, s, 0);
    EvalTake(Weight, s, 1);
    EvalTake(Weight, s, 2);
    EvalTake(Weight, s, 3);
    EvalTake(Weight, s, 4);
    EvalTake(Weight, s, 5);
    EvalTake(Weight, s, 6);
    EvalTake(Weight, s, 7);
    EvalTake(Weight, s, 8);
  }

  // ---------- Bounds ----------

  /** The bounds that the comments give for the arguments and results of all routines. */
  ghost predicate Loose(s: seq<int>) {
    |s| == N && forall i :: 0 <= i < N ==> 0 <= s[i] < 2 * Radix(i)
  }

  /** What every result keeps besides: the top limb has no excess bit. */
  ghost predicate Elem(s: seq<int>) { Loose(s) && s[8] < 0x2000_0000 }

  ghost predicate Tight(s: seq<int>) {
    |s| == N && forall i :: 0 <= i < N ==> 0 <= s[i] < Radix(i)
  }

  // ---------- Cancelling a carry ----------

  /** NON_ZERO_TO_ALL_ONES */
  method NonZeroToAllOnes(x: u32) returns (mask: u32)
    ensures mask == if 0 < x <= 0x8000_0000 then 0xffff_ffff else 0
  {
    var y := (x - 1) % 0x1_0000_0000;
    y := y / 0x8000_0000;
    mask := (y - 1) % 0x1_0000_0000;
  }

  /** c & mask, for the masks above */
  method Mask(c: u32, mask: u32) returns (r: u32)
    requires mask == 0 || mask == 0xffff_ffff
    ensures r == if mask == 0 then 0 else c
  {
    Pow2Values();
    AndLowMask(c, 32);
    DivModUnique(c, 0x1_0000_0000, 0, c);
    r := And(c, mask);
  }

  lemma CarryNumber(s: seq<int>, carry: int, t: seq<int>)
    requires |s| == |t| == N
    requires var e := if carry == 0 then 0 else 1;
      t[0] == s[0] + 2 * carry && t[1] == s[1] && t[2] == s[2] && t[3] == s[3] + 0x1000_0000 * e - 0x800 * carry &&
      t[4] == s[4] + 0x1fff_ffff * e && t[5] == s[5] + 0xfff_ffff * e &&
      t[6] == s[6] + 0x1fff_ffff * e - 0x40_0000 * carry && t[7] == s[7] - e + 0x200_0000 * carry && t[8] == s[8]
    ensures Congruent(P, Number(t), Number(s) + carry * Weight(9))
  {
    Number9(s);
    Number9(t);
    Weights();
    CongruentBy(P, Number(t), Number(s) + carry * Weight(9), -2 * carry);
  }

  /** Tight limbs with a carry at 2^257 cancelled. */
  function Cancelled(s: seq<int>, carry: int): (r: seq<int>)
    requires |s| == N
    ensures |r| == N
  {
    if carry == 0 then s else
      [s[0] + 2 * carry, s[1], s[2], s[3] + 0x1000_0000 - 0x800 * carry, s[4] + 0x1fff_ffff, s[5] + 0xfff_ffff,
       s[6] + 0x1fff_ffff - 0x40_0000 * carry, s[7] - 1 + 0x200_0000 * carry, s[8]]
  }

  /** Limb 7 has no room for every carry. */
  predicate CarryFits(limb7: int, carry: int) { carry == 0 || limb7 - 1 + 0x200_0000 * carry < 0x2000_0000 }

  lemma CancelledNumber(s: seq<int>, carry: int)
    requires |s| == N
    ensures Congruent(P, Number(Cancelled(s, carry)), Number(s) + carry * Weight(9))
  {
    CarryNumber(s, carry, Cancelled(s, carry));
  }

  /** Only limb 7 can exceed its bound. */
  lemma CancelledBounds(s: seq<int>, carry: int)
    requires Tight(s) && 0 <= carry <= 16
    ensures var r := Cancelled(s, carry);
      && (Loose(r) <==> CarryFits(s[7], carry)) && (Loose(r) ==> Elem(r)) && (carry <= 8 ==> Elem(r))
  {
    var r := Cancelled(s, carry);
    TightLimbs(s);
    if CarryFits(s[7], carry) {
      CarriedBounds(r);
    } else {
      assert r[7] >= 2 * Radix(7);
    }
  }

  /** Adds a multiple of the prime that cancels a carry at 2^257. Limb 7 may wrap around
      in between. */
  method ReduceCarry(a: array<u32>, carry: u32)
    requires a.Length == N && Tight(a[..]) && carry <= 16
    modifies a
    ensures a[..] == Cancelled(old(a[..]), carry)
  {
    TightLimbs(a[..]);
    var bit28, ones28, ones29, one := Borrowed(carry);
    WrapBack(a[7], one, carry * 0x200_0000);
    a[0] := a[0] + carry * 2;
    a[3] := a[3] + bit28;
    a[3] := a[3] - carry * 0x800;
    a[4] := a[4] + ones29;
    a[5] := a[5] + ones28;
    a[6] := a[6] + ones29;
    a[6] := a[6] - carry * 0x40_0000;
    a[7] := Sub32(a[7], one);
    a[7] := Add32(a[7], carry * 0x200_0000);
  }

  lemma TightLimbs(s: seq<int>)
    requires Tight(s)
    ensures 0 <= s[0] < 0x2000_0000 && 0 <= s[1] < 0x1000_0000 && 0 <= s[2] < 0x2000_0000 && 0 <= s[3] < 0x1000_0000
    ensures 0 <= s[4] < 0x2000_0000 && 0 <= s[5] < 0x1000_0000 && 0 <= s[6] < 0x2000_0000 && 0 <= s[7] < 0x1000_0000
    ensures 0 <= s[8] < 0x2000_0000
  {
  }

  lemma CarriedBounds(s: seq<int>)
    requires |s| == N
    requires 0 <= s[0] < 0x4000_0000 && 0 <= s[1] < 0x2000_0000 && 0 <= s[2] < 0x4000_0000 && 0 <= s[3] < 0x2000_0000
    requires 0 <= s[4] < 0x4000_0000 && 0 <= s[5] < 0x2000_0000 && 0 <= s[6] < 0x4000_0000 && 0 <= s[7] < 0x2000_0000
    requires 0 <= s[8] < 0x2000_0000
    ensures Elem(s)
  {
    forall i | 0 <= i < N ensures 0 <= s[i] < 2 * Radix(i) {
    }
  }

  lemma WrapBack(x: u32, one: u32, y: u32)
    requires x < 0x1000_0000 && one <= 1 && one <= y <= 0x2000_0000
    ensures Add32(Sub32(x, one), y) == x - one + y
  {
  }

  /** What is borrowed from limb 7 for the limbs below, if there is a carry. */
  method Borrowed(carry: u32) returns (bit28: u32, ones28: u32, ones29: u32, one: u32)
    requires carry <= 16
    ensures if carry == 0 then bit28 == ones28 == ones29 == one == 0
      else bit28 == 0x1000_0000 && ones28 == 0xfff_ffff && ones29 == 0x1fff_ffff && one == 1
  {
    var mask := NonZeroToAllOnes(carry);
    bit28 := Mask(0x1000_0000, mask);
    ones28 := Mask(0x1000_0000 - 1, mask);
    ones29 := Mask(0x2000_0000 - 1, mask);
    one := Mask(1, mask);
  }

  // ---------- Carry chains ----------

  /** Limbs 0 to i - 1 of the number target have been normalized, and a carry is left. */
  ghost predicate Chain(now: seq<int>, target: seq<int>, i: nat, carry: int) {
    |now| == |target| == N && i <= N
    && Number(now[..i]) + carry * Weight(i) == Number(target[..i])
    && forall j :: 0 <= j < i ==> 0 <= now[j] < Radix(j)
  }

  lemma ChainNext(now: seq<int>, target: seq<int>, i: nat, carry: int, low: int, high: int)
    requires i < N && Chain(now, target, i, carry) && 0 <= low < Radix(i) && target[i] + carry == low + Radix(i) * high
    ensures Chain(now[i := low], target, i + 1, high)
  {
    var next := now[i := low];
    assert next[..i] == now[..i];
    EvalTake(Weight, next, i);
    EvalTake(Weight, target, i);
    ChainTerm(target[i], carry, low, high, Weight(i), Radix(i));
  }

  lemma ChainTerm(x: int, carry: int, low: int, high: int, w: int, r: int)
    requires x + carry == low + r * high
    ensures low * w + high * (w * r) == x * w + carry * w
  {
    assert (x + carry) * w == x * w + carry * w;
    assert (low + r * high) * w == low * w + high * (w * r) by { assert r * high * w == high * (w * r); }
  }

  /** The digits of a number below 2^257, in the widths of the limbs. */
  function Digits(v: nat): (s: seq<int>)
    ensures |s| == N
  {
    seq(N, i requires 0 <= i < N => WeightPositive(i); v / Weight(i) % Radix(i))
  }

  lemma {:induction false} WeightPositive(i: nat)
    ensures Weight(i) > 0
  {
    if i > 0 {
      WeightPositive(i - 1);
    }
  }

  /** The limbs that a carry chain makes of a number. */
  function Normalized(v: nat): (s: seq<int>)
    ensures |s| == N
  {
    WeightPositive(9);
    Cancelled(Digits(v), v / Weight(9))
  }

  /** The part of a number above limb i. */
  function Rest(s: seq<int>, carry: int, i: nat): int
    requires |s| == N && i <= N
    decreases N - i
  {
    if i == N then carry else s[i] + Radix(i) * Rest(s, carry, i + 1)
  }

  lemma {:induction false} RestNumber(s: seq<int>, carry: int, i: nat)
    requires Tight(s) && 0 <= carry && i <= N
    ensures Number(s[..i]) + Rest(s, carry, i) * Weight(i) == Number(s) + carry * Weight(9) && Rest(s, carry, i) >= 0
    decreases N - i
  {
    if i == N {
      assert s[..N] == s;
    } else {
      RestNumber(s, carry, i + 1);
      EvalTake(Weight, s, i);
      var up := Rest(s, carry, i + 1);
      MulLe(0, up, Radix(i));
      assert Radix(i) * up == up * Radix(i);
      RestTerm(s[i], up, Radix(i), Weight(i));
    }
  }

  lemma RestTerm(x: int, up: int, r: int, w: int)
    ensures (x + r * up) * w == x * w + up * (w * r)
  {
    assert (x + r * up) * w == x * w + r * up * w && r * up * w == up * (w * r);
  }

  lemma {:induction false} PrefixBound(s: seq<int>, i: nat)
    requires |s| == N && i <= N && forall j :: 0 <= j < i ==> 0 <= s[j] < Radix(j)
    ensures 0 <= Number(s[..i]) < Weight(i)
  {
    if i == 0 {
      assert s[..0] == [];
    } else {
      PrefixBound(s, i - 1);
      EvalTake(Weight, s, i - 1);
      PrefixTerm(Number(s[..i - 1]), s[i - 1], Weight(i - 1), Radix(i - 1));
    }
  }

  lemma PrefixTerm(v: int, x: int, w: int, r: int)
    requires 0 <= v < w && 0 <= x < r
    ensures 0 <= v + x * w < w * r
  {
    MulLe(x + 1, r, w);
    MulLe(0, x, w);
    assert (x + 1) * w == x * w + w && r * w == w * r;
  }

  /** Tight limbs and a carry are the digits of their number. */
  lemma DigitsUnique(s: seq<int>, carry: int, v: nat)
    requires Tight(s) && 0 <= carry && v == Number(s) + carry * Weight(9)
    ensures Digits(v) == s && v / Weight(9) == carry && Normalized(v) == Cancelled(s, carry)
  {
    forall i | 0 <= i < N ensures Digits(v)[i] == s[i] {
      RestNumber(s, carry, i);
      PrefixBound(s, i);
      DivModUnique(v, Weight(i), Rest(s, carry, i), Number(s[..i]));
      RestLow(s, carry, i);
    }
    PrefixBound(s, N);
    assert s[..N] == s;
    DivModUnique(v, Weight(9), carry, Number(s));
  }

  lemma RestLow(s: seq<int>, carry: int, i: nat)
    requires Tight(s) && 0 <= carry && i < N
    ensures Rest(s, carry, i) % Radix(i) == s[i]
  {
    var up := Rest(s, carry, i + 1);
    assert Radix(i) * up == up * Radix(i);
    DivModUnique(Rest(s, carry, i), Radix(i), up, s[i]);
  }

  /** The end of a chain: the carry is cancelled. */
  method Finish(out: array<u32>, carry: u32, ghost target: seq<int>)
    requires out.Length == N && Chain(out[..], target, N, carry) && carry <= 16
    modifies out
    ensures Number(target) >= 0 && out[..] == Normalized(Number(target))
    ensures Congruent(P, Number(out[..]), Number(target))
    ensures carry <= 8 ==> Elem(out[..])
    ensures Loose(out[..]) <==> Roomy(Number(target))
    ensures Loose(out[..]) ==> Elem(out[..])
  {
    ghost var s := out[..];
    FinishNumbers(s, carry, target);
    ReduceCarry(out, carry);
  }

  /** The number whose chain leaves limb 7 room for the carry. */
  predicate Roomy(v: nat) {
    WeightPositive(7);
    WeightPositive(9);
    CarryFits(v / Weight(7) % Radix(7), v / Weight(9))
  }

  /** Bits 200 to 227 are limb 7, and what is above bit 257 is carried. */
  lemma RoomyIff(low: nat, limb7: nat, limb8: nat, carry: nat)
    requires low < 0x100_0000_0000_0000_0000_0000_0000_0000_0000_0000_0000_0000_0000
    requires limb7 < 0x1000_0000 && limb8 < 0x2000_0000
    ensures var v := low + limb7 * 0x100_0000_0000_0000_0000_0000_0000_0000_0000_0000_0000_0000_0000
        + limb8 * 0x10_0000_0000_0000_0000_0000_0000_0000_0000_0000_0000_0000_0000_0000_0000
        + carry * 0x2_0000_0000_0000_0000_0000_0000_0000_0000_0000_0000_0000_0000_0000_0000_0000_0000;
      Roomy(v) <==> carry == 0 || limb7 + 0x200_0000 * carry <= 0x2000_0000
  {
    Weights();
    var w := Weight(7);
    var v := low + limb7 * w + limb8 * Weight(8) + carry * Weight(9);
    DivModUnique(v, w, limb7 + 0x1000_0000 * limb8 + 0x200_0000_0000_0000 * carry, low);
    DivModUnique(v / w, 0x1000_0000, limb8 + 0x2000_0000 * carry, limb7);
    DivModUnique(v, Weight(9), carry, low + limb7 * w + limb8 * Weight(8));
  }

  lemma ChainNumber(s: seq<int>, carry: int, target: seq<int>)
    requires Chain(s, target, N, carry) && 0 <= carry <= 16
    ensures Tight(s) && Number(target) == Number(s) + carry * Weight(9) >= 0
  {
    assert s[..N] == s && target[..N] == target;
    PrefixBound(s, N);
    WeightPositive(9);
    MulLe(0, carry, Weight(9));
  }

  lemma RoomyIs(s: seq<int>, carry: int, v: nat)
    requires Tight(s) && 0 <= carry && Digits(v) == s && v / Weight(9) == carry
    ensures Roomy(v) <==> CarryFits(s[7], carry)
  {
    assert Digits(v)[7] == s[7];
  }

  lemma FinishNumbers(s: seq<int>, carry: int, target: seq<int>)
    requires Chain(s, target, N, carry) && 0 <= carry <= 16
    ensures Tight(s) && Number(target) >= 0 && Normalized(Number(target)) == Cancelled(s, carry)
    ensures Congruent(P, Number(Cancelled(s, carry)), Number(target))
    ensures carry <= 8 ==> Elem(Cancelled(s, carry))
    ensures Loose(Cancelled(s, carry)) <==> Roomy(Number(target))
    ensures Loose(Cancelled(s, carry)) ==> Elem(Cancelled(s, carry))
  {
    ChainNumber(s, carry, target);
    FinishTotal(s, carry, Number(target));
  }

  lemma FinishTotal(s: seq<int>, carry: int, v: nat)
    requires Tight(s) && 0 <= carry <= 16 && v == Number(s) + carry * Weight(9)
    ensures Normalized(v) == Cancelled(s, carry) && Congruent(P, Number(Cancelled(s, carry)), v)
    ensures carry <= 8 ==> Elem(Cancelled(s, carry))
    ensures Loose(Cancelled(s, carry)) <==> Roomy(v)
    ensures Loose(Cancelled(s, carry)) ==> Elem(Cancelled(s, carry))
  {
    DigitsUnique(s, carry, v);
    RoomyIs(s, carry, v);
    CancelledNumber(s, carry);
    CancelledBounds(s, carry);
  }

  /** Bottom 29 bits and the rest. */
  method Split29(x: u32) returns (low: u32, high: u32)
    ensures low < 0x2000_0000 && x == low + 0x2000_0000 * high && high <= 7
  {
    Pow2Values();
    AndLowMask(x, 29);
    low := And(x, 0x1fff_ffff);
    high := x / 0x2000_0000;
  }

  /** Bottom 28 bits and the rest. */
  method Split28(x: u32) returns (low: u32, high: u32)
    ensures low < 0x1000_0000 && x == low + 0x1000_0000 * high && high <= 15
  {
    Pow2Values();
    AndLowMask(x, 28);
    low := And(x, 0xfff_ffff);
    high := x / 0x1000_0000;
  }

  /** Bottom bits and the rest, for the width of limb i. */
  method SplitLimb(x: u32, i: nat) returns (low: u32, high: u32)
    ensures low < Radix(i) && x == low + Radix(i) * high && high <= 15
    ensures x < 2 * Radix(i) ==> high <= 1
  {
    if i % 2 == 0 {
      low, high := Split29(x);
    } else {
      low, high := Split28(x);
    }
  }

  /** One limb of a chain. */
  method ChainLimb(out: array<u32>, i: nat, x: u32, carry: u32, ghost target: seq<int>) returns (next: u32)
    requires out.Length == N && i < N && Chain(out[..], target, i, carry)
    requires x == target[i] && target[i] + carry < 0x1_0000_0000
    modifies out
    ensures forall j :: i < j < N ==> out[j] == old(out[j])
    ensures Chain(out[..], target, i + 1, next)
    ensures next == (target[i] + carry) / Radix(i)
  {
    ghost var now := out[..];
    out[i] := x;
    out[i] := out[i] + carry;
    var low, high := SplitLimb(out[i], i);
    DivModUnique(target[i] + carry, Radix(i), high, low);
    ChainNext(now, target, i, carry, low, high);
    out[i] := low;
    next := high;
    assert out[..] == now[i := low];
  }

  // ---------- Sums and differences ----------

  /** The carry into limb i of a chain over the sums. */
  function CarryInto(sums: seq<int>, i: nat): int
    requires i <= |sums|
  {
    if i == 0 then 0 else (sums[i - 1] + CarryInto(sums, i - 1)) / Radix(i - 1)
  }

  /** No sum overflows 32 bits together with the carry into it. */
  ghost predicate SumFits(sums: seq<int>, n: nat)
    requires n <= |sums|
  {
    forall i :: 0 <= i < n ==> sums[i] + CarryInto(sums, i) < 0x1_0000_0000
  }

  /** The carries are those of limbs of 29 and 28 bits in turn. */
  lemma SumFitsIff(sums: seq<int>, carries: seq<int>)
    requires |sums| == 9 && |carries| == 10 && carries[0] == 0
    requires forall i :: 0 <= i < 9 ==>
      carries[i + 1] == (sums[i] + carries[i]) / (if i % 2 == 0 then 0x2000_0000 else 0x1000_0000)
    ensures SumFits(sums, 9) <==> forall i :: 0 <= i < 9 ==> sums[i] + carries[i] < 0x1_0000_0000
  {
    for n := 0 to 9
      invariant forall i :: 0 <= i <= n ==> CarryInto(sums, i) == carries[i]
    {
    }
  }

  /** Which of the first i sums lost a bit at 2^32 is recorded in lost. */
  ghost predicate Summing(now: seq<int>, sums: seq<int>, lost: seq<int>, i: nat, carry: int) {
    && |sums| == |lost| == N && i <= N && 0 <= carry <= 15
    && (forall j :: 0 <= j < N ==> 0 <= lost[j] <= if j < i then 1 else 0)
    && Chain(now, Lessened(sums, lost), i, carry) && Fitting(sums, lost, i, carry)
  }

  function Lessened(sums: seq<int>, lost: seq<int>): (r: seq<int>)
    requires |sums| == |lost| == N
    ensures |r| == N
  {
    seq(N, j requires 0 <= j < N => sums[j] - 0x1_0000_0000 * lost[j])
  }

  lemma SummingNext(now: seq<int>, sums: seq<int>, lost: seq<int>, i: nat, carry: int, l: int, low: int, high: int)
    requires i < N && Summing(now, sums, lost, i, carry) && 0 <= l <= 1
    requires 0 <= sums[i] && (l == 1 <==> sums[i] + carry >= 0x1_0000_0000)
    requires 0 <= low < Radix(i) && sums[i] + carry - 0x1_0000_0000 * l == low + Radix(i) * high && 0 <= high <= 15
    ensures Summing(now[i := low], sums, lost[i := l], i + 1, high)
  {
    LessenedChain(now, sums, lost, i, carry, l);
    ChainNext(now, Lessened(sums, lost[i := l]), i, carry, low, high);
    FitsNext(sums, lost, i, carry, l, low, high);
  }

  lemma LessenedChain(now: seq<int>, sums: seq<int>, lost: seq<int>, i: nat, carry: int, l: int)
    requires |sums| == |lost| == N && i < N && Chain(now, Lessened(sums, lost), i, carry)
    ensures Chain(now, Lessened(sums, lost[i := l]), i, carry)
    ensures Lessened(sums, lost[i := l])[i] == sums[i] - 0x1_0000_0000 * l
  {
    assert Lessened(sums, lost)[..i] == Lessened(sums, lost[i := l])[..i];
  }

  /** The first i sums fit exactly if no bit was lost, and then the carry is theirs. */
  ghost predicate Fitting(sums: seq<int>, lost: seq<int>, i: nat, carry: int)
    requires |sums| == |lost| == N && i <= N
  {
    && (SumFits(sums, i) <==> forall j :: 0 <= j < i ==> lost[j] == 0)
    && (SumFits(sums, i) ==> carry == CarryInto(sums, i))
  }

  lemma FitsNext(sums: seq<int>, lost: seq<int>, i: nat, carry: int, l: int, low: int, high: int)
    requires |sums| == |lost| == N && i < N && Fitting(sums, lost, i, carry)
    requires 0 <= l <= 1 && (l == 1 <==> sums[i] + carry >= 0x1_0000_0000)
    requires 0 <= low < Radix(i) && sums[i] + carry - 0x1_0000_0000 * l == low + Radix(i) * high
    ensures Fitting(sums, lost[i := l], i + 1, high)
  {
    var lost' := lost[i := l];
    if SumFits(sums, i) && l == 0 {
      assert forall j :: 0 <= j < i ==> lost[j] == 0;
      assert Radix(i) * high == high * Radix(i);
      DivModUnique(sums[i] + carry, Radix(i), high, low);
      assert SumFits(sums, i + 1);
      assert forall j :: 0 <= j < i + 1 ==> lost'[j] == 0;
    } else if SumFits(sums, i) {
      assert sums[i] + CarryInto(sums, i) >= 0x1_0000_0000;
      assert lost'[i] != 0;
    } else {
      var j :| 0 <= j < i && lost[j] != 0;
      assert lost'[j] != 0;
      assert !SumFits(sums, i + 1);
    }
  }

  lemma LostBit(x: u32, y: u32) returns (l: int)
    ensures 0 <= l <= 1 && (l == 1 <==> x + y >= 0x1_0000_0000) && Add32(x, y) == x + y - 0x1_0000_0000 * l
  {
    l := if x + y < 0x1_0000_0000 then 0 else 1;
    DivModUnique(x + y, 0x1_0000_0000, l, x + y - 0x1_0000_0000 * l);
  }

  /** One limb of a sum, in 32 bits. */
  method SumLimb(out: array<u32>, i: nat, x: u32, carry: u32, ghost sums: seq<int>, ghost lost: seq<int>)
      returns (next: u32, ghost lost': seq<int>)
    requires out.Length == N && i < N && Summing(out[..], sums, lost, i, carry) && x == sums[i]
    modifies out
    ensures forall j :: i < j < N ==> out[j] == old(out[j])
    ensures Summing(out[..], sums, lost', i + 1, next) && (i == 8 ==> next <= 7)
  {
    ghost var now := out[..];
    ghost var l := LostBit(x, carry);
    out[i] := x;
    out[i] := Add32(out[i], carry);
    var low, high := SplitLimb(out[i], i);
    SummingNext(now, sums, lost, i, carry, l, low, high);
    out[i] := low;
    next := high;
    lost' := lost[i := l];
    assert out[..] == now[i := low];
  }

  ghost function Sums(a: seq<int>, b: seq<int>): (s: seq<int>)
    requires |a| == |b| == N
    ensures |s| == N && Number(s) == Number(a) + Number(b)
    ensures forall i :: 0 <= i < N ==> s[i] == a[i] + b[i]
  {
    var s := seq(N, i requires 0 <= i < N => a[i] + b[i]);
    EvalCombined(Weight, s, a, b, 1);
    s
  }

  /** out = a + b. It is right if and only if the sums fit together with the carries;
      the comment asks only that the sums fit. */
  method Sum(out: array<u32>, a: array<u32>, b: array<u32>)
    requires out.Length == a.Length == b.Length == N
    requires forall i :: 0 <= i < N ==> Sums(a[..], b[..])[i] < 0x1_0000_0000
    modifies out
    ensures Elem(out[..])
    ensures Congruent(P, Number(out[..]), old(Number(a[..]) + Number(b[..]))) <==> SumFits(old(Sums(a[..], b[..])), N)
  {
    ghost var sums := Sums(a[..], b[..]);
    var carry;
    ghost var lost;
    carry, lost := SumLimbs(out, a, b, sums);
    Finish(out, carry, Lessened(sums, lost));
    SumResult(Number(out[..]), sums, lost);
  }

  method SumLimbs(out: array<u32>, a: array<u32>, b: array<u32>, ghost sums: seq<int>)
      returns (carry: u32, ghost lost: seq<int>)
    requires out.Length == a.Length == b.Length == N && sums == Sums(a[..], b[..])
    requires forall i :: 0 <= i < N ==> sums[i] < 0x1_0000_0000
    modifies out
    ensures Summing(out[..], sums, lost, N, carry) && carry <= 7
  {
    ghost var av, bv := a[..], b[..];
    lost := seq(N, _ => 0);
    carry := 0;
    SummingStart(out[..], sums);
    for i := 0 to N
      invariant forall j :: i <= j < N ==> a[j] == av[j] && b[j] == bv[j]
      invariant Summing(out[..], sums, lost, i, carry) && (i == N ==> carry <= 7)
    {
      carry, lost := SumLimb(out, i, a[i] + b[i], carry, sums, lost);
    }
  }

  lemma SummingStart(now: seq<int>, sums: seq<int>)
    requires |now| == |sums| == N
    ensures Summing(now, sums, seq(N, _ => 0), 0, 0)
  {
    assert Lessened(sums, seq(N, _ => 0))[..0] == [] && now[..0] == [];
  }

  lemma SumResult(out: int, sums: seq<int>, lost: seq<int>)
    requires |sums| == |lost| == N && forall j :: 0 <= j < N ==> 0 <= lost[j] <= 1
    requires Congruent(P, out, Number(Lessened(sums, lost)))
    ensures Congruent(P, out, Number(sums)) <==> forall j :: 0 <= j < N ==> lost[j] == 0
  {
    var v := Number(lost);
    EvalCombined(Weight, Lessened(sums, lost), sums, lost, -0x1_0000_0000);
    LostNumber(lost);
    if v == 0 {
      assert Lessened(sums, lost) == sums;
    } else if Congruent(P, out, Number(sums)) {
      CongruentSym(P, out, Number(sums));
      CongruentTrans(P, Number(sums), out, Number(Lessened(sums, lost)));
      NotLost(Number(sums), v);
    }
  }

  lemma LostNumber(lost: seq<int>)
    requires |lost| == N && forall j :: 0 <= j < N ==> 0 <= lost[j] <= 1
    ensures 0 <= Number(lost) < P
    ensures Number(lost) == 0 <==> forall j :: 0 <= j < N ==> lost[j] == 0
  {
    Number9(lost);
    Weights();
  }

  /** 2^32 times a number that is not a multiple of the prime is not one either. */
  lemma NotLost(x: int, v: int)
    requires 0 < v < P
    ensures !Congruent(P, x, x - 0x1_0000_0000 * v)
  {
    var y := x - 0x1_0000_0000 * v;
    forall k: int ensures !Differ(P, x, y, k) {
    }
  }

  /** Limbs whose sums fit 32 bits, where the chain overflows in limb 1. */
  lemma SumBreaks()
    ensures var a: seq<u32>, b: seq<u32> := seq(N, _ => 0xffff_ffff), seq(N, _ => 0);
      (forall i :: 0 <= i < N ==> Sums(a, b)[i] < 0x1_0000_0000) && !SumFits(Sums(a, b), N)
  {
    var a: seq<u32>, b: seq<u32> := seq(N, _ => 0xffff_ffff), seq(N, _ => 0);
    var sums := Sums(a, b);
    assert CarryInto(sums, 0) == 0;
    assert CarryInto(sums, 1) == 7;
    assert sums[1] + CarryInto(sums, 1) >= 0x1_0000_0000;
  }

  /** Limbs within the bounds of the arguments of the other routines leave room. */
  lemma {:induction false} LooseFits(a: seq<u32>, b: seq<u32>, n: nat)
    requires Loose(a) && Loose(b) && n <= N
    ensures SumFits(Sums(a, b), n) && 0 <= CarryInto(Sums(a, b), n) <= 16
  {
    var sums := Sums(a, b);
    if n > 0 {
      LooseFits(a, b, n - 1);
      assert a[n - 1] < 2 * Radix(n - 1) && b[n - 1] < 2 * Radix(n - 1);
      forall i | 0 <= i < n ensures sums[i] + CarryInto(sums, i) < 0x1_0000_0000 {
        assert i < n - 1 ==> SumFits(sums, n - 1);
      }
    }
  }

  /** out = a - b, over a multiple of the prime that keeps every limb positive. */
  method Diff(out: array<u32>, a: array<u32>, b: array<u32>)
    requires out.Length == a.Length == b.Length == N && Loose(a[..]) && Loose(b[..])
    modifies out
    ensures Elem(out[..]) && Congruent(P, Number(out[..]), old(Number(a[..]) - Number(b[..])))
  {
    ghost var av, bv := a[..], b[..];
    ghost var target := DiffTarget(av, bv);
    var carry: u32 := 0;
    for i := 0 to N
      invariant forall j :: i <= j < N ==> a[j] == av[j] && b[j] == bv[j]
      invariant Chain(out[..], target, i, carry) && carry <= if i == N then 7 else 15
    {
      DiffLimb(av, bv, i);
      carry := ChainLimb(out, i, Add32(Sub32(a[i], b[i]), ZERO31[i]), carry, target);
    }
    Finish(out, carry, target);
    CongruentTrans(P, Number(out[..]), Number(target), Number(av) - Number(bv));
  }

  ghost function DiffTarget(a: seq<int>, b: seq<int>): (s: seq<int>)
    requires |a| == |b| == N
    ensures |s| == N && forall i :: 0 <= i < N ==> s[i] == a[i] - b[i] + ZERO31[i]
    ensures Congruent(P, Number(s), Number(a) - Number(b))
  {
    var d := seq(N, i requires 0 <= i < N => a[i] - b[i]);
    var s := seq(N, i requires 0 <= i < N => d[i] + ZERO31[i]);
    EvalCombined(Weight, d, a, b, -1);
    EvalCombined(Weight, s, d, ZERO31, 1);
    ZeroNumber();
    CongruentBy(P, Number(s), Number(a) - Number(b), 8);
    s
  }

  lemma ZeroNumber()
    ensures Number(ZERO31) == P * 8
  {
    Number9(ZERO31);
    Weights();
  }

  lemma DiffLimb(a: seq<u32>, b: seq<u32>, i: nat)
    requires Loose(a) && Loose(b) && i < N
    ensures 0 <= DiffTarget(a, b)[i] <= 0xffff_fff0
    ensures Add32(Sub32(a[i], b[i]), ZERO31[i]) == DiffTarget(a, b)[i]
  {
    assert a[i] < 2 * Radix(i) && b[i] < 2 * Radix(i);
    DiffWrap(a[i], b[i], ZERO31[i]);
  }

  /** Wrapping around twice is not wrapping around. */
  lemma DiffWrap(x: u32, y: u32, z: u32)
    ensures var d := x as int - y as int + z as int;
      0 <= d < 0x1_0000_0000 ==> Add32(Sub32(x, y), z) == d
  {
  }

  // ---------- Small multiples ----------

  ghost function Times(s: seq<int>, f: int): (t: seq<int>)
    ensures |t| == |s| && (forall i :: 0 <= i < |s| ==> t[i] == f * s[i]) && Number(t) == Number(s) * f
  {
    var zeros := seq(|s|, _ => 0);
    var t := seq(|s|, i requires 0 <= i < |s| => f * s[i]);
    EvalCombined(Weight, t, zeros, s, f);
    EvalZeros(Weight, |s|);
    t
  }

  method Scalar3(out: array<u32>)
    requires out.Length == N && Loose(out[..])
    modifies out
    ensures Elem(out[..]) && Congruent(P, Number(out[..]), old(Number(out[..])) * 3)
  {
    ghost var was, target := out[..], Times(out[..], 3);
    assert forall j :: 0 <= j < N ==> out[j] == was[j] < 2 * Radix(j);
    var carry: u32 := 0;
    for i := 0 to N
      invariant forall j :: i <= j < N ==> out[j] == was[j]
      invariant Chain(out[..], target, i, carry) && carry <= if i == N then 7 else 15
    {
      carry := ChainLimb(out, i, out[i] * 3, carry, target);
    }
    Finish(out, carry, target);
  }

  /** f times a limb, split before the multiplication. */
  lemma ScaledLimb(x: int, f: int, q: int, r: int, high: int, v: int, h: int)
    requires f > 0 && q > 0 && r == f * q && high == x / q
    requires 0 <= v < r && f * x == v + r * h && 0 <= x
    ensures f * x == v + r * high && high >= 0
  {
    var rest := x - q * high;
    DivModBounds(x, q);
    assert q * high == high * q;
    assert f * x == f * rest + r * high by { assert f * (q * high) == f * q * high; }
    MulLe(rest + 1, q, f);
    assert f * rest == rest * f && (rest + 1) * f == rest * f + f && q * f == f * q;
    MulLe(0, rest, f);
    DivModUnique(f * x, r, h, v);
    DivModUnique(f * x, r, high, f * rest);
  }

  /** x * m within the width of limb i, and the bits above it, taken from x. */
  method ShiftSplit(x: u32, m: u32, i: nat, q: u32) returns (low: u32, high: u32)
    requires m > 0 && q > 0 && Radix(i) == m * q
    ensures low < Radix(i) && x * m == low + Radix(i) * high && high == x / q
  {
    ghost var k: int := x * m / 0x1_0000_0000;
    var h;
    low, h := SplitLimb(x * m % 0x1_0000_0000, i);
    high := x / q;
    ScaledLimb(x, m, q, Radix(i), high, low, h + (if i % 2 == 0 then 8 else 16) * k);
  }

  /** The new limb and the next carry of a multiplication by 4 or 8. */
  method ScaleCarry(x: u32, f: u32, carry: u32, i: nat) returns (low: u32, next: u32)
    requires (f == 4 || f == 8) && carry <= 16 && x < 2 * Radix(i)
    ensures low < Radix(i) && x * f + carry == low + Radix(i) * next
    ensures next <= 2 * f && (x < Radix(i) ==> next <= f)
  {
    var q := if i % 2 == 0 then 0x2000_0000 / f else 0x1000_0000 / f;
    var v, high := ShiftSplit(x, f, i, q);
    var excess;
    low, excess := SplitLimb(v + carry, i);
    next := high + excess;
    ScaleTotal(x * f, carry, v, low, high, excess, Radix(i));
  }

  /** One limb of a chain that multiplies by 4 or 8. */
  method ScaleLimb(out: array<u32>, i: nat, f: u32, carry: u32, ghost target: seq<int>) returns (next: u32)
    requires out.Length == N && i < N && (f == 4 || f == 8) && carry <= 16
    requires Chain(out[..], target, i, carry) && out[i] < 2 * Radix(i) && target[i] == out[i] * f
    modifies out
    ensures forall j :: i < j < N ==> out[j] == old(out[j])
    ensures Chain(out[..], target, i + 1, next)
    ensures next <= 2 * f && (old(out[i]) < Radix(i) ==> next <= f)
  {
    ghost var now := out[..];
    var low;
    low, next := ScaleCarry(out[i], f, carry, i);
    ChainNext(now, target, i, carry, low, next);
    out[i] := low;
    assert out[..] == now[i := low];
  }

  lemma ScaleTotal(x: int, carry: int, v: int, low: int, high: int, excess: int, r: int)
    requires x == v + r * high && v + carry == low + r * excess
    ensures x + carry == low + r * (high + excess)
  {
  }

  /** out = 4 * out */
  method Scalar4(out: array<u32>)
    requires out.Length == N && Loose(out[..])
    modifies out
    ensures Elem(out[..]) && Congruent(P, Number(out[..]), old(Number(out[..])) * 4)
  {
    ghost var was, target := out[..], Times(out[..], 4);
    assert forall j :: 0 <= j < N ==> out[j] == was[j] < 2 * Radix(j);
    var carry: u32 := 0;
    for i := 0 to N
      invariant forall j :: i <= j < N ==> out[j] == was[j]
      invariant Chain(out[..], target, i, carry) && carry <= 8
    {
      carry := ScaleLimb(out, i, 4, carry, target);
    }
    Finish(out, carry, target);
  }

  /** out = 8 * out. The result has the right value; it is within its bounds if and only if
      the carry leaves room in limb 7. */
  method Scalar8(out: array<u32>)
    requires out.Length == N && Loose(out[..])
    modifies out
    ensures Congruent(P, Number(out[..]), old(Number(out[..])) * 8)
    ensures old(Number(out[..])) >= 0
    ensures Loose(out[..]) <==> Roomy(old(Number(out[..])) * 8)
    ensures Loose(out[..]) ==> Elem(out[..])
    ensures old(Elem(out[..])) ==> Elem(out[..])
  {
    ghost var was, target := out[..], Times(out[..], 8);
    LooseNumber(was);
    assert forall j :: 0 <= j < N ==> out[j] == was[j] < 2 * Radix(j);
    var carry: u32 := 0;
    for i := 0 to N
      invariant forall j :: i <= j < N ==> out[j] == was[j]
      invariant Chain(out[..], target, i, carry) && carry <= if i == N && was[8] < 0x2000_0000 then 8 else 16
    {
      carry := ScaleLimb(out, i, 8, carry, target);
    }
    Finish(out, carry, target);
  }

  lemma LooseNumber(s: seq<int>)
    requires Loose(s)
    ensures 0 <= Number(s) < 2 * Weight(9) + 4 * Weight(8)
  {
    Number9(s);
    Weights();
    assert 0 <= s[0] < 0x4000_0000 && 0 <= s[1] < 0x2000_0000 && 0 <= s[2] < 0x4000_0000;
    assert 0 <= s[3] < 0x2000_0000 && 0 <= s[4] < 0x4000_0000 && 0 <= s[5] < 0x2000_0000;
    assert 0 <= s[6] < 0x4000_0000 && 0 <= s[7] < 0x2000_0000 && 0 <= s[8] < 0x4000_0000;
  }

  /** Limbs within the bounds of the comment, for which the result is not. */
  lemma Scalar8Breaks()
    ensures var s := [0, 0, 0, 0, 0, 0, 0, 0x1ff_ffff, 0x3fff_ffff];
      Loose(s) && Number(s) >= 0 && !Roomy(Number(s) * 8)
  {
    var s := [0, 0, 0, 0, 0, 0, 0, 0x1ff_ffff, 0x3fff_ffff];
    var t := [0, 0, 0, 0, 0, 0, 0, 0xfff_fff8, 0x1fff_fff8];
    LooseNumber(s);
    Number9(s);
    Number9(t);
    Weights();
    DigitsUnique(t, 15, Number(s) * 8);
    assert Digits(Number(s) * 8)[7] == t[7];
  }
}
