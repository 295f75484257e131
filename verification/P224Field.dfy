/** The field of 3rd/encrypt/src/p224_ec.c: eight 28-bit limbs modulo
    2^224 - 2^96 + 1 (FIPS 186-4, section D.1.2.2). */
module P224Field {
  import opened Bits
  import opened Modular
  import opened Limbs

  const N := 8
  const P: int := 0xffff_ffff_ffff_ffff_ffff_ffff_ffff_ffff_0000_0000_0000_0000_0000_0001
  const B: int := 0x1000_0000

  /** The weight of limb i */
  function Weight(i: nat): int { if i == 0 then 1 else B * Weight(i - 1) }

  function Number(s: seq<int>): int { Eval(Weight, s) }

  const ZERO31: seq<u32> := [0x8000_0008, 0x7fff_fff8, 0x7fff_fff8, 0x7fff_7ff8,
                             0x7fff_fff8, 0x7fff_fff8, 0x7fff_fff8, 0x7fff_fff8]

  const ZERO63: seq<u64> := [0x8000_0008_0000_0000, 0x7fff_fff8_0000_0000, 0x7fff_fff8_0000_0000, 0x7fff_fff8_0000_0000,
                             0x7fff_fff7_fff8_0000, 0x7fff_fff8_0000_0000, 0x7fff_fff8_0000_0000, 0x7fff_fff8_0000_0000]

  lemma {:induction false} WeightAdd(i: nat, k: nat)
    ensures Weight(i + k) == Weight(i) * Weight(k)
  {
    if k > 0 {
      WeightAdd(i, k - 1);
      MulSwap(B, Weight(i), Weight(k - 1));
    }
  }

  lemma Weights()
    ensures Weight(0) == 1 && Weight(1) == B && Weight(2) == 0x100_0000_0000_0000
    ensures Weight(3) == 0x10_0000_0000_0000_0000_0000
    ensures Weight(4) == 0x1_0000_0000_0000_0000_0000_0000_0000
    ensures Weight(5) == 0x1000_0000_0000_0000_0000_0000_0000_0000_0000
    ensures Weight(6) == 0x100_0000_0000_0000_0000_0000_0000_0000_0000_0000_0000
    ensures Weight(7) == 0x10_0000_0000_0000_0000_0000_0000_0000_0000_0000_0000_0000_0000
    ensures Weight(8) == 0x1_0000_0000_0000_0000_0000_0000_0000_0000_0000_0000_0000_0000_0000_0000
  {
  }

  lemma Number8(s: seq<int>)
    requires |s| == N
    ensures Number(s) == s[0] * Weight(0) + s[1] * Weight(1) + s[2] * Weight(2) + s[3] * Weight(3)
                       + s[4] * Weight(4) + s[5] * Weight(5) + s[6] * Weight(6) + s[7] * Weight(7)
  {
    assert s[..0] == [] && s[..8] == s;
    EvalTake(Weight, s, 0);
    EvalTake(Weight, s, 1);
    EvalTake(Weight, s, 2);
    EvalTake(Weight, s, 3);
    EvalTake(Weight, s, 4);
    EvalTake(Weight, s, 5);
    EvalTake(Weight, s, 6);
    EvalTake(Weight, s, 7);
  }

  /** Both constants stand for multiples of the prime. */
  lemma Zeros()
    ensures Number(ZERO31) == P * 8 && Number(ZERO63) == P * 0x8_0000_0000
  {
    Number8(ZERO31);
    Number8(ZERO63);
    Weights();
  }

  // ---------- Addition and subtraction ----------

  ghost predicate Below(s: seq<int>, bound: int) { forall i :: 0 <= i < |s| ==> 0 <= s[i] < bound }

  method Add(out: array<u32>, a: array<u32>, b: array<u32>)
    requires out.Length == a.Length == b.Length == N
    requires forall i :: 0 <= i < N ==> var x: int, y: int := a[i], b[i]; x + y < 0x1_0000_0000
    modifies out
    ensures Combined(out[..], old(a[..]), old(b[..]), 1)
  {
    for i := 0 to N
      invariant forall j :: 0 <= j < i ==> out[j] == old(a[j]) + old(b[j])
      invariant forall j :: i <= j < N ==> a[j] == old(a[j]) && b[j] == old(b[j])
    {
      out[i] := a[i] + b[i];
    }
  }

  /** No limb overflows or underflows, for limbs below 2^30. */
  method Subtract(out: array<u32>, a: array<u32>, b: array<u32>)
    requires out.Length == a.Length == b.Length == N
    requires Below(a[..], 0x4000_0000) && Below(b[..], 0x4000_0000)
    modifies out
    ensures Congruent(P, Number(out[..]), old(Number(a[..]) - Number(b[..])))
    ensures forall i :: 0 <= i < N ==> out[i] == old(a[i]) + ZERO31[i] - old(b[i])
  {
    ghost var av, bv := a[..], b[..];
    assert forall j :: 0 <= j < N ==> a[j] == av[j] && b[j] == bv[j];
    for i := 0 to N
      invariant forall j :: 0 <= j < i ==> out[j] == av[j] + ZERO31[j] - bv[j]
      invariant forall j :: i <= j < N ==> a[j] == av[j] && b[j] == bv[j]
    {
      out[i] := a[i] + ZERO31[i] - b[i];
    }
    Difference(out[..], av, bv);
  }

  lemma Difference(out: seq<int>, a: seq<int>, b: seq<int>)
    requires |out| == |a| == |b| == N && forall i :: 0 <= i < N ==> out[i] == a[i] + ZERO31[i] - b[i]
    ensures Congruent(P, Number(out), Number(a) - Number(b))
  {
    var sum := seq(N, i requires 0 <= i < N => a[i] + ZERO31[i]);
    EvalCombined(Weight, sum, a, ZERO31, 1);
    EvalCombined(Weight, out, sum, b, -1);
    Zeros();
    CongruentBy(P, Number(out), Number(a) - Number(b), 8);
  }

  // ---------- Reduction of a product ----------

  /** The low 28 bits and the rest. */
  method Split28(x: u64) returns (low: u32, high: u64)
    ensures low < B && x == low + B * high && high < 0x10_0000_0000
    ensures low == x % B && high == x / B
  {
    Pow2Values();
    AndLowMask(x, 28);
    DivModBounds(x, B);
    low := And(x, 0xfff_ffff);
    high := x / B;
  }

  function LowTerm(x: int): int { x % 0x1_0000 * 0x1000 }

  /** The low 16 bits, moved up by 12, and the rest. */
  method Split16(x: u64) returns (low: u64, high: u64)
    ensures low % 0x1000 == 0 && 0 <= low <= 0xfff_f000 && low + B * high == 0x1000 * x && high * 0x1_0000 <= x
    ensures low == LowTerm(x) && high == x / 0x1_0000
  {
    Pow2Values();
    AndLowMask(x, 16);
    DivModBounds(x, 0x1_0000);
    low := And(x, 0xffff) * 0x1000;
    high := x / 0x1_0000;
  }

  /** x at weight 2^224 is x * (2^96 - 1) at weight 1, modulo the prime. */
  lemma Reflection(x: int, low: int, high: int, r: int)
    requires low + B * high == 0x1000 * x
    ensures -x * r + low * (r * Weight(3)) + high * (r * Weight(4)) - x * (r * Weight(8)) == P * -(x * r)
  {
    Weights();
    var w3 := Weight(3);
    assert low * (r * w3) == w3 * (low * r) && high * (r * (B * w3)) == w3 * B * (high * r);
    MulEqual(low + B * high, 0x1000 * x, r);
    assert (low + B * high) * r == low * r + B * (high * r) && 0x1000 * x * r == 0x1000 * (x * r);
    assert x * (r * Weight(8)) == Weight(8) * (x * r);
  }

  /** What is left when limb i has been reflected. */
  function Reflected(s: seq<int>, i: nat, low: int, high: int): seq<int>
    requires 8 <= i < |s|
  {
    s[i - 8 := s[i - 8] - s[i]][i - 5 := s[i - 5] + low][i - 4 := s[i - 4] + high]
  }

  function ReflectStep(s: seq<int>, i: nat): (r: seq<int>)
    requires 8 <= i < |s|
    ensures |r| == |s|
  {
    Reflected(s, i, LowTerm(s[i]), s[i] / 0x1_0000)
  }

  /** The limbs from 14 down to n are reflected. */
  function ReflectDown(s: seq<int>, n: nat): (r: seq<int>)
    requires |s| == 15 && 8 <= n <= 15
    ensures |r| == 15
    decreases 15 - n
  {
    if n == 15 then s else ReflectStep(ReflectDown(s, n + 1), n)
  }

  lemma ReflectedPrefix(s: seq<int>, i: nat, low: int, high: int)
    requires 8 <= i < |s|
    ensures Reflected(s, i, low, high)[..i]
         == s[..i][i - 8 := s[i - 8] - s[i]][i - 5 := s[i - 5] + low][i - 4 := s[i - 4] + high]
  {
  }

  lemma ReflectedNumber(s: seq<int>, i: nat, low: int, high: int)
    requires 8 <= i < |s| && low + B * high == 0x1000 * s[i]
    ensures Congruent(P, Number(Reflected(s, i, low, high)[..i]), Number(s[..i + 1]))
  {
    var x, r := s[i], Weight(i - 8);
    var s0 := s[..i];
    var s1 := s0[i - 8 := s0[i - 8] - x];
    var s2 := s1[i - 5 := s1[i - 5] + low];
    EvalTake(Weight, s, i);
    EvalUpdate(Weight, s0, i - 8, s0[i - 8] - x);
    EvalUpdate(Weight, s1, i - 5, s1[i - 5] + low);
    EvalUpdate(Weight, s2, i - 4, s2[i - 4] + high);
    ReflectedPrefix(s, i, low, high);
    WeightAdd(i - 8, 3);
    WeightAdd(i - 8, 4);
    WeightAdd(i - 8, 8);
    Reflection(x, low, high, r);
    CongruentBy(P, Number(Reflected(s, i, low, high)[..i]), Number(s[..i + 1]), -(x * r));
  }

  const BIT48: int := 0x1_0000_0000_0000
  const BIT62: int := 0x4000_0000_0000_0000
  const LOWEST: int := 0x7fff_fff0_0000_0000
  const HIGHEST: int := 0xc000_0010_0000_0000

  /** The bounds while limbs n and above are reflected: the room for additions grows a
      little with every limb; limbs that have been subtracted from are smaller. */
  ghost predicate Reflecting(s: seq<int>, n: nat) {
    |s| == 15 && 8 <= n <= 15
    && (forall j :: 8 <= j < n ==> 0 <= s[j] < BIT62 + (15 - n) * BIT48)
    && (forall j :: 0 <= j < 8 ==> s[j] < HIGHEST + (15 - n) * BIT48)
    && (forall j :: 0 <= j < 8 ==> (if j < n - 8 then LOWEST else LOWEST - BIT62 - 7 * BIT48) <= s[j])
  }

  /** A multiple of the prime is added to the lower limbs. */
  function WithZero(s: seq<int>): (r: seq<int>)
    requires |s| == 15
    ensures |r| == 15
  {
    seq(15, j requires 0 <= j < 15 => if j < N then s[j] + ZERO63[j] else s[j])
  }

  method AddZero(inp: array<u64>)
    requires inp.Length == 15 && Below(inp[..], BIT62)
    modifies inp
    ensures Reflecting(inp[..], 15) && Congruent(P, Number(inp[..]), Number(old(inp[..])))
    ensures inp[..] == WithZero(old(inp[..]))
  {
    ghost var before := inp[..];
    assert forall j :: 0 <= j < 15 ==> 0 <= inp[j] == before[j] < BIT62;
    for i := 0 to N
      invariant forall j :: 0 <= j < 15 ==> inp[j] == if j < i then before[j] + ZERO63[j] else before[j]
    {
      inp[i] := inp[i] + ZERO63[i];
    }
    ZeroAdded(before, inp[..]);
  }

  lemma ZeroAdded(before: seq<int>, s: seq<int>)
    requires |before| == |s| == 15
    requires forall j :: 0 <= j < 15 ==> s[j] == if j < N then before[j] + ZERO63[j] else before[j]
    ensures Congruent(P, Number(s), Number(before))
  {
    var zero: seq<int> := ZERO63 + seq(7, _ => 0);
    EvalCombined(Weight, s, before, zero, 1);
    EvalMoreZeros(Weight, ZERO63, 7);
    Zeros();
    CongruentBy(P, Number(s), Number(before), 0x8_0000_0000);
  }

  /** Limb i is reflected off both lower terms of the prime; no limb over- or underflows. */
  method ReflectLimb(inp: array<u64>, i: nat)
    requires inp.Length == 15 && 8 <= i < 15 && Reflecting(inp[..], i + 1)
    modifies inp
    ensures Reflecting(inp[..], i) && Congruent(P, Number(inp[..i]), Number(old(inp[..i + 1])))
    ensures inp[..] == ReflectStep(old(inp[..]), i)
  {
    ghost var before := inp[..];
    var low, high := Split16(inp[i]);
    ReflectedBounds(before, i, low, high);
    inp[i - 8] := inp[i - 8] - inp[i];
    inp[i - 5] := inp[i - 5] + low;
    inp[i - 4] := inp[i - 4] + high;
    assert inp[..] == Reflected(before, i, low, high);
    ReflectedNumber(before, i, low, high);
    assert inp[..][..i] == inp[..i] && before[..i + 1] == old(inp[..i + 1]);
  }

  lemma ReflectedBounds(s: seq<int>, i: nat, low: int, high: int)
    requires i < 15 && Reflecting(s, i + 1) && 8 <= i
    requires 0 <= low <= 0xfff_f000 && 0 <= high && high * 0x1_0000 <= s[i]
    ensures Reflecting(Reflected(s, i, low, high), i)
    ensures 0 <= s[i - 8] - s[i] && s[i - 5] + low < 0x1_0000_0000_0000_0000
      && s[i - 4] + high < 0x1_0000_0000_0000_0000
  {
    assert high < BIT48 / 2;
    var t := Reflected(s, i, low, high);
    assert t[i - 8] == s[i - 8] - s[i] && t[i - 5] == s[i - 5] + low && t[i - 4] == s[i - 4] + high;
    assert forall j :: 0 <= j < 15 && j != i - 8 && j != i - 5 && j != i - 4 ==> t[j] == s[j];
  }

  method ReflectAll(inp: array<u64>)
    requires inp.Length == 15 && Reflecting(inp[..], 15)
    modifies inp
    ensures Reflecting(inp[..], 8) && Congruent(P, Number(inp[..8]), Number(old(inp[..])))
    ensures inp[..] == ReflectDown(old(inp[..]), 8)
  {
    ghost var before := inp[..];
    ghost var start := Number(inp[..]);
    assert inp[..15] == inp[..];
    CongruentSame(P, start);
    for i := 15 downto 8
      invariant Reflecting(inp[..], i) && Congruent(P, Number(inp[..i]), start)
      invariant inp[..] == ReflectDown(before, i)
    {
      ghost var middle := Number(inp[..i + 1]);
      ReflectLimb(inp, i);
      CongruentTrans(P, Number(inp[..i]), middle, start);
    }
  }

  // ---------- Carries into 32-bit limbs ----------

  /** The number of both arrays together: limbs 1 to i - 1 have moved to out. */
  function Mixed(inp: seq<int>, out: seq<int>, i: nat): (s: seq<int>)
    requires |inp| == 15 && |out| == N && i <= 8
    ensures |s| == 9
  {
    seq(9, j requires 0 <= j < 9 => if 1 <= j < i then out[j] else inp[j])
  }

  function CarryStep(s: seq<int>, i: nat): (r: seq<int>)
    requires i + 1 < |s|
    ensures |r| == |s|
  {
    s[i := s[i] % B][i + 1 := s[i + 1] + s[i] / B]
  }

  /** The carries from limb 1 up to limb i. */
  function CarryUp(s: seq<int>, i: nat): (r: seq<int>)
    requires 1 <= i < |s|
    ensures |r| == |s|
  {
    if i == 1 then s else CarryStep(CarryUp(s, i - 1), i - 1)
  }

  /** A carry from limb i to the next. */
  lemma CarryNumber(s: seq<int>, i: nat, low: int, high: int)
    requires i + 1 < |s| && s[i] == low + B * high
    ensures Number(s[i := low][i + 1 := s[i + 1] + high]) == Number(s)
  {
    var t := s[i := low];
    EvalUpdate(Weight, s, i, low);
    EvalUpdate(Weight, t, i + 1, t[i + 1] + high);
    CarryTerm(s[i], low, high, Weight(i));
  }

  lemma CarryTerm(x: int, low: int, high: int, w: int)
    requires x == low + B * high
    ensures (low - x) * w + high * (B * w) == 0
  {
    MulEqual(low - x, -B * high, w);
    assert -B * high * w == -B * (high * w);
    MulSwap(B, high, w);
  }

  /** The low limbs after the carries: 28 bits each, and limb 0 as it was. */
  ghost predicate Carrying(inp: seq<int>, out: seq<int>, i: nat, number: int) {
    |inp| == 15 && |out| == N && 1 <= i <= 8 && Number(Mixed(inp, out, i)) == number
    && (forall j :: 1 <= j < i ==> 0 <= out[j] < B)
    && LOWEST - BIT62 - 7 * BIT48 <= inp[0]
    && (forall j :: i < j < 8 ==> 0 <= inp[j] < HIGHEST + 7 * BIT48)
    && 0 <= inp[i] < (if i == 8 then 0x10_0000_0000 else if i == 1 then HIGHEST + 7 * BIT48 else HIGHEST + 8 * BIT48)
    && (i < 8 ==> inp[8] == 0)
  }

  method CarryLimb(out: array<u32>, inp: array<u64>, i: nat, ghost number: int)
    requires out.Length == N && inp.Length == 15 && i < 8 && Carrying(inp[..], out[..], i, number)
    modifies out, inp
    ensures Carrying(inp[..], out[..], i + 1, number)
    ensures Mixed(inp[..], out[..], i + 1) == CarryStep(old(Mixed(inp[..], out[..], i)), i)
  {
    ghost var mixed := Mixed(inp[..], out[..], i);
    var low, high := Split28(inp[i]);
    CarryNumber(mixed, i, low, high);
    inp[i + 1] := inp[i + 1] + high;
    out[i] := low;
    assert Mixed(inp[..], out[..], i + 1) == mixed[i := low][i + 1 := mixed[i + 1] + high];
  }

  method CarryAll(out: array<u32>, inp: array<u64>)
    requires out.Length == N && inp.Length == 15 && Reflecting(inp[..], 8)
    modifies out, inp
    ensures Carrying(inp[..], out[..], 8, Number(old(inp[..8])))
    ensures Mixed(inp[..], out[..], 8) == CarryUp(old(inp[..8]) + [0], 8)
  {
    ghost var before := inp[..8];
    inp[8] := 0;
    assert Mixed(inp[..], out[..], 1) == before + seq(1, _ => 0) == before + [0];
    EvalMoreZeros(Weight, before, 1);
    for i := 1 to N
      invariant Carrying(inp[..], out[..], i, Number(before)) && Mixed(inp[..], out[..], i) == CarryUp(before + [0], i)
    {
      CarryLimb(out, inp, i, Number(before));
    }
  }

  /** The bounds that ReduceLarge leaves. */
  ghost predicate Reduced(s: seq<int>) {
    |s| == N && 0 <= s[0] < B && 0 <= s[1] <= 0x1fff_fffe && 0 <= s[2] < B + 0x100 && 0 <= s[3] < 0x1fff_f000
    && 0 <= s[4] < B + 0x10_0000 && 0 <= s[5] < B && 0 <= s[6] < B && 0 <= s[7] < B
  }

  /** The last reflection, of the carry out of limb 7. */
  method ReflectTop(out: array<u32>, inp: array<u64>, ghost number: int) returns (ghost whole: seq<int>)
    requires out.Length == N && inp.Length == 15 && Carrying(inp[..], out[..], 8, number)
    modifies out, inp
    ensures whole == [inp[0]] + out[1..] && Congruent(P, Number(whole), number)
    ensures whole == ReflectStep(old(Mixed(inp[..], out[..], 8)), 8)[..8]
    ensures out[1] < B && out[2] < B && out[3] < 0x1fff_f000 && out[4] < B + 0x10_0000
    ensures out[5] < B && out[6] < B && out[7] < B
  {
    ghost var mixed := Mixed(inp[..], out[..], 8);
    var low, high := Split16(inp[8]);
    ReflectedNumber(mixed, 8, low, high);
    assert mixed[..9] == mixed;
    inp[0] := inp[0] - inp[8];
    out[3] := out[3] + low;
    out[4] := out[4] + high;
    whole := Reflected(mixed, 8, low, high)[..8];
  }

  /** Limb 0 is split over three limbs. */
  lemma SplitNumber(s: seq<int>, low0: int, low1: int, high1: int)
    requires |s| == N && s[0] == low0 + B * (low1 + B * high1)
    ensures Number(s[0 := low0][1 := s[1] + low1][2 := s[2] + high1]) == Number(s)
  {
    var once := s[0 := low0];
    var twice := once[1 := s[1] + low1];
    EvalUpdate(Weight, s, 0, low0);
    EvalUpdate(Weight, once, 1, s[1] + low1);
    EvalUpdate(Weight, twice, 2, s[2] + high1);
    Weights();
  }

  function SplitFirst(s: seq<int>): (r: seq<int>)
    requires |s| == N
    ensures |r| == N
  {
    s[0 := s[0] % B][1 := s[1] + s[0] / B % B][2 := s[2] + s[0] / B / B]
  }

  method Finish(out: array<u32>, inp: array<u64>, ghost number: int)
    requires out.Length == N && inp.Length == 15 && Carrying(inp[..], out[..], 8, number)
    modifies out, inp
    ensures Reduced(out[..]) && Congruent(P, Number(out[..]), number)
    ensures out[..] == SplitFirst(ReflectStep(old(Mixed(inp[..], out[..], 8)), 8)[..8])
  {
    ghost var whole := ReflectTop(out, inp, number);
    var low0, high0 := Split28(inp[0]);
    var low1, high1 := Split28(high0);
    SplitNumber(whole, low0, low1, high1);
    ghost var split: seq<int> := whole[0 := low0];
    split := split[1 := whole[1] + low1];
    split := split[2 := whole[2] + high1];
    out[0] := low0;
    out[1] := out[1] + low1;
    out[2] := out[2] + high1;
    assert out[..] == split;
  }

  /** The limbs that the reduction makes of fifteen columns. */
  function LargeReduced(columns: seq<int>): (r: seq<int>)
    requires |columns| == 15
    ensures |r| == N
  {
    var reflected := ReflectDown(WithZero(columns), 8)[..8];
    SplitFirst(ReflectStep(CarryUp(reflected + [0], 8), 8)[..8])
  }

  /** No 64-bit limb over- or underflows on the way. */
  method ReduceLarge(out: array<u32>, inp: array<u64>)
    requires out.Length == N && inp.Length == 15 && Below(inp[..], BIT62)
    modifies out, inp
    ensures Reduced(out[..]) && Congruent(P, Number(out[..]), Number(old(inp[..])))
    ensures out[..] == LargeReduced(old(inp[..]))
  {
    ghost var start := Number(inp[..]);
    AddZero(inp);
    ghost var shifted := Number(inp[..]);
    ReflectAll(inp);
    ghost var reflected := Number(inp[..8]);
    CarryAll(out, inp);
    Finish(out, inp, reflected);
    CongruentTrans(P, reflected, shifted, start);
    CongruentTrans(P, Number(out[..]), reflected, start);
  }

  // ---------- Products ----------

  /** The columns of the first m rows of a product. */
  function Columns(a: seq<int>, b: seq<int>, m: nat): (s: seq<int>)
    requires |a| == |b| == N && m <= N
    ensures |s| == 15
  {
    seq(15, k => Column(a, b, k, m, N))
  }

  /** A row of the product: b shifted by m limbs, times d. */
  function Row(b: seq<int>, d: int, m: nat): (s: seq<int>)
    requires |b| == N && m < N
    ensures |s| == 15
  {
    seq(15, k => if 0 <= k - m < N then d * b[k - m] else 0)
  }

  lemma {:induction false} ShiftNumber(s: seq<int>, m: nat)
    ensures Number(seq(m, _ => 0) + s) == Weight(m) * Number(s)
  {
    if s == [] {
      assert seq(m, _ => 0) + s == seq(m, _ => 0);
      EvalZeros(Weight, m);
    } else {
      var t, x := s[..|s| - 1], s[|s| - 1];
      assert s == t + [x];
      ShiftNumber(t, m);
      ShiftNext(seq(m, _ => 0), t, x, m);
    }
  }

  /** One limb more above. */
  lemma ShiftNext(zeros: seq<int>, t: seq<int>, x: int, m: nat)
    requires |zeros| == m && Number(zeros + t) == Weight(m) * Number(t)
    ensures Number(zeros + (t + [x])) == Weight(m) * Number(t + [x])
  {
    assert zeros + (t + [x]) == (zeros + t) + [x];
    EvalAppend(Weight, zeros + t, x);
    EvalAppend(Weight, t, x);
    WeightAdd(m, |t|);
    ShiftTerm(Weight(m), Number(t), x, Weight(|t|));
  }

  lemma ShiftTerm(r: int, v: int, x: int, w: int)
    ensures r * v + x * (r * w) == r * (v + x * w)
  {
    MulSwap(x, r, w);
  }

  lemma RowNumber(b: seq<int>, d: int, m: nat)
    requires |b| == N && m < N
    ensures Number(Row(b, d, m)) == Weight(m) * (Number(b) * d)
  {
    var scaled := seq(N, k requires 0 <= k < N => d * b[k]);
    ScaledNumber(b, d, scaled);
    ShiftNumber(scaled, m);
    EvalMoreZeros(Weight, seq(m, _ => 0) + scaled, 7 - m);
    RowSplit(b, d, m, scaled);
  }

  lemma ScaledNumber(b: seq<int>, d: int, scaled: seq<int>)
    requires |b| == |scaled| == N && forall k :: 0 <= k < N ==> scaled[k] == d * b[k]
    ensures Number(scaled) == Number(b) * d
  {
    var zeros := seq(N, _ => 0);
    EvalCombined(Weight, scaled, zeros, b, d);
    EvalZeros(Weight, N);
  }

  lemma RowSplit(b: seq<int>, d: int, m: nat, scaled: seq<int>)
    requires |b| == |scaled| == N && m < N && forall k :: 0 <= k < N ==> scaled[k] == d * b[k]
    ensures Row(b, d, m) == seq(m, _ => 0) + scaled + seq(7 - m, _ => 0)
  {
  }

  lemma ColumnsNext(a: seq<int>, b: seq<int>, m: nat)
    requires |a| == |b| == N && m < N
    ensures Combined(Columns(a, b, m + 1), Columns(a, b, m), Row(b, a[m], m), 1)
  {
  }

  lemma RowTerm(v: int, x: int, w: int, b: int)
    ensures (v + x * w) * b == v * b + w * (b * x)
  {
    assert (v + x * w) * b == v * b + x * w * b;
    assert x * w * b == w * (b * x);
  }

  lemma {:induction false} ColumnsNumber(a: seq<int>, b: seq<int>, m: nat)
    requires |a| == |b| == N && m <= N
    ensures Number(Columns(a, b, m)) == Number(a[..m]) * Number(b)
  {
    if m == 0 {
      assert Columns(a, b, 0) == seq(15, _ => 0);
      EvalZeros(Weight, 15);
      assert a[..0] == [];
    } else {
      ColumnsNumber(a, b, m - 1);
      ColumnsRow(a, b, m - 1, Number(a[..m - 1]), Number(b));
      EvalTake(Weight, a, m - 1);
    }
  }

  /** One row more. */
  lemma ColumnsRow(a: seq<int>, b: seq<int>, m: nat, x: int, y: int)
    requires |a| == |b| == N && m < N && Number(b) == y && Number(Columns(a, b, m)) == x * y
    ensures Number(Columns(a, b, m + 1)) == (x + a[m] * Weight(m)) * y
  {
    RowNumber(b, a[m], m);
    ColumnsNext(a, b, m);
    EvalCombined(Weight, Columns(a, b, m + 1), Columns(a, b, m), Row(b, a[m], m), 1);
    RowTerm(x, a[m], Weight(m), y);
  }

  const BIT29: int := 0x2000_0000
  const BIT30: int := 0x4000_0000

  /** What the callers of Mul have to provide. */
  ghost predicate Multipliable(a: seq<int>, b: seq<int>) {
    |a| == |b| == N
    && ((Below(a, BIT29) && Below(b, BIT30)) || (Below(a, BIT30) && Below(b, BIT29)))
  }

  lemma ColumnsSmall(a: seq<int>, b: seq<int>, k: int, m: nat, n: nat)
    requires Multipliable(a, b) && m <= N && n <= N
    ensures 0 <= Column(a, b, k, m, n) < BIT62
  {
    var x, y := if Below(a, BIT29) && Below(b, BIT30) then BIT29 - 1 else BIT30 - 1,
                if Below(a, BIT29) && Below(b, BIT30) then BIT30 - 1 else BIT29 - 1;
    ColumnBound(a, b, k, m, n, x, y);
    MulLe(m, N, x * y);
  }

  /** (u64)x */
  function Wide(x: u32): u64 { x }

  /** One product is added to a column. */
  method AddProduct(tmp: array<u64>, k: nat, x: u32, y: u32)
    requires k < tmp.Length && tmp[k] + x * y < 0x1_0000_0000_0000_0000
    modifies tmp
    ensures forall j :: 0 <= j < tmp.Length ==> tmp[j] == if j == k then old(tmp[j]) + x * y else old(tmp[j])
  {
    tmp[k] := tmp[k] + x * y;
  }

  /** i rows are done, and j products of the next. */
  ghost predicate RowProgress(tmp: seq<int>, a: seq<int>, b: seq<int>, i: nat, j: nat) {
    |tmp| == 15 && |a| == |b| == N && i < N && j <= N
    && forall k :: 0 <= k < 15 ==> tmp[k] == Column(a, b, k, i, N) + if i <= k < i + j then a[i] * b[k - i] else 0
  }

  method MulStep(tmp: array<u64>, a: array<u32>, b: array<u32>, i: nat, j: nat)
    requires tmp.Length == 15 && a.Length == b.Length == N && Multipliable(a[..], b[..]) && j < N
    requires RowProgress(tmp[..], a[..], b[..], i, j)
    modifies tmp
    ensures RowProgress(tmp[..], a[..], b[..], i, j + 1)
  {
    ColumnsSmall(a[..], b[..], i + j, i + 1, N);
    AddProduct(tmp, i + j, a[i], b[j]);
  }

  method MulColumns(a: array<u32>, b: array<u32>) returns (tmp: array<u64>)
    requires a.Length == b.Length == N && Multipliable(a[..], b[..])
    ensures fresh(tmp) && tmp[..] == Columns(a[..], b[..], N)
  {
    tmp := new u64[15](_ => 0);
    for i := 0 to N
      invariant tmp[..] == Columns(a[..], b[..], i)
    {
      var j := 0;
      while j < N
        invariant j == 0 || j == 4 || j == 8
        invariant RowProgress(tmp[..], a[..], b[..], i, j)
      {
        MulStep(tmp, a, b, i, j);
        MulStep(tmp, a, b, i, j + 1);
        MulStep(tmp, a, b, i, j + 2);
        MulStep(tmp, a, b, i, j + 3);
        j := j + 4;
      }
    }
  }

  /** out = a * b, for one factor with limbs below 2^29 and one with limbs below 2^30. */
  method Mul(out: array<u32>, a: array<u32>, b: array<u32>)
    requires out.Length == a.Length == b.Length == N && Multipliable(a[..], b[..])
    modifies out
    ensures Reduced(out[..]) && Congruent(P, Number(out[..]), old(Number(a[..]) * Number(b[..])))
    ensures out[..] == LargeReduced(Columns(old(a[..]), old(b[..]), N))
  {
    ghost var av, bv := a[..], b[..];
    var tmp := MulColumns(a, b);
    ColumnsBelow(av, bv);
    ColumnsNumber(av, bv, N);
    assert av[..N] == av;
    ReduceLarge(out, tmp);
  }

  lemma ColumnsBelow(a: seq<int>, b: seq<int>)
    requires Multipliable(a, b)
    ensures Below(Columns(a, b, N), BIT62)
  {
    forall k | 0 <= k < 15 ensures 0 <= Columns(a, b, N)[k] < BIT62 {
      ColumnsSmall(a, b, k, N, N);
    }
  }

  /** The columns of the first i limbs are done, and j doubled products of the next limb. */
  ghost predicate SquareProgress(tmp: seq<int>, a: seq<int>, i: nat, j: nat) {
    |tmp| == 15 && |a| == N && i < N && j <= i
    && forall k :: 0 <= k < 15 ==> tmp[k] == Column(a, a, k, i, i) + if i <= k < i + j then 2 * (a[i] * a[k - i]) else 0
  }

  lemma SquareNext(a: seq<int>, k: int, i: nat)
    requires |a| == N && i < N
    ensures Column(a, a, k, i + 1, i + 1) == Column(a, a, k, i, i)
      + (if i <= k < 2 * i then 2 * (a[i] * a[k - i]) else 0) + (if k == 2 * i then a[i] * a[i] else 0)
  {
    ColumnNext(a, a, k, i, i);
  }

  method SquareStep(tmp: array<u64>, a: array<u32>, i: nat, j: nat)
    requires tmp.Length == 15 && a.Length == N && Multipliable(a[..], a[..]) && j < i
    requires SquareProgress(tmp[..], a[..], i, j)
    modifies tmp
    ensures SquareProgress(tmp[..], a[..], i, j + 1)
  {
    SquareNext(a[..], i + j, i);
    ColumnsSmall(a[..], a[..], i + j, i + 1, i + 1);
    ProductSmall(a[i], a[j]);
    var r: u64 := Wide(a[i]) * Wide(a[j]);
    tmp[i + j] := tmp[i + j] + r * 2;
  }

  lemma ProductSmall(x: u32, y: u32)
    ensures 0 <= x * y < 0x1_0000_0000_0000_0000
  {
    ProductBound(x, y, 0xffff_ffff, 0xffff_ffff);
  }

  method SquareRow(tmp: array<u64>, a: array<u32>, i: nat)
    requires tmp.Length == 15 && a.Length == N && Multipliable(a[..], a[..]) && 1 <= i < N
    requires SquareProgress(tmp[..], a[..], i, 0)
    modifies tmp
    ensures forall k :: 0 <= k < 15 ==> tmp[k] == Column(a[..], a[..], k, i + 1, i + 1)
  {
    SquareStep(tmp, a, i, 0);
    var j := 1;
    while j < i
      invariant 1 <= j <= i && SquareProgress(tmp[..], a[..], i, j)
    {
      SquareStep(tmp, a, i, j);
      j := j + 1;
    }
    SquareNext(a[..], i + j, i);
    ColumnsSmall(a[..], a[..], i + j, i + 1, i + 1);
    AddProduct(tmp, i + j, a[i], a[j]);
    forall k | 0 <= k < 15 ensures tmp[k] == Column(a[..], a[..], k, i + 1, i + 1) {
      SquareNext(a[..], k, i);
    }
  }

  /** The columns that MulColumns computes for two equal factors. */
  method SquareColumns(a: array<u32>) returns (tmp: array<u64>)
    requires a.Length == N && Multipliable(a[..], a[..])
    ensures fresh(tmp) && tmp[..] == Columns(a[..], a[..], N)
  {
    tmp := new u64[15](_ => 0);
    ProductSmall(a[0], a[0]);
    tmp[0] := Wide(a[0]) * Wide(a[0]);
    for i := 1 to N
      invariant forall k :: 0 <= k < 15 ==> tmp[k] == Column(a[..], a[..], k, i, i)
    {
      SquareRow(tmp, a, i);
    }
  }

  /** out = a * a, for limbs below 2^29; limb for limb what Mul makes of two equal factors. */
  method Square(out: array<u32>, a: array<u32>)
    requires out.Length == a.Length == N && Below(a[..], BIT29)
    modifies out
    ensures Reduced(out[..]) && Congruent(P, Number(out[..]), old(Number(a[..]) * Number(a[..])))
    ensures out[..] == LargeReduced(Columns(old(a[..]), old(a[..]), N))
  {
    ghost var av := a[..];
    var tmp := SquareColumns(a);
    ColumnsBelow(av, av);
    ColumnsNumber(av, av, N);
    assert av[..N] == av;
    ReduceLarge(out, tmp);
  }

  // ---------- Reduction of 32-bit limbs ----------

  /** Limbs that Reduce handles without overflow; a carry is at most 15. */
  ghost predicate Reducible(s: seq<int>) {
    |s| == N && 0 <= s[0] < 0x1_0000_0000 && forall i :: 1 <= i < N ==> 0 <= s[i] <= 0xffff_fff0
  }

  /** The number with the carries up to limb i done. */
  ghost predicate Carried(s: seq<int>, was: seq<int>, i: nat, number: int) {
    |s| == |was| == N && i < N && Number(s) == number && 0 <= s[i] < 0x1_0000_0000
    && (forall j :: 0 <= j < i ==> 0 <= s[j] < B) && (forall j :: i < j < N ==> s[j] == was[j])
  }

  method ReduceLimb(a: array<u32>, i: nat, ghost was: seq<int>, ghost number: int)
    requires a.Length == N && i < 7 && Reducible(was) && Carried(a[..], was, i, number)
    modifies a
    ensures Carried(a[..], was, i + 1, number)
  {
    ghost var s: seq<int> := a[..];
    var low, high := Split28(a[i]);
    CarryNumber(s, i, low, high);
    ghost var t: seq<int> := s[i := low];
    t := t[i + 1 := s[i + 1] + high];
    a[i + 1] := a[i + 1] + high;
    a[i] := low;
    assert a[..] == t;
  }

  /** All ones if any of the four bits of top is set. */
  method TopMask(top: u32) returns (mask: u32)
    requires top < 16
    ensures mask == if top == 0 then 0 else 0xffff_ffff
  {
    var m := Or(top, top / 4);
    m := Or(m, m / 2);
    OrBits(top, top / 4);
    OrBits(Or(top, top / 4), Or(top, top / 4) / 2);
    OrBits(top / 2, top / 4 / 2);
    m := m * 0x8000_0000 % 0x1_0000_0000;
    mask := if m >= 0x8000_0000 then 0xffff_ffff else 0;
  }

  lemma OrBits(x: nat, y: nat)
    ensures Or(x, y) % 2 == (if x % 2 == 1 || y % 2 == 1 then 1 else 0)
    ensures Or(x, y) / 2 == Or(x / 2, y / 2)
  {
  }

  /** The number after the top has been reflected and limb 0 has been made positive. */
  lemma TopNumber(s: seq<int>, top: int, t: seq<int>)
    requires |s| == |t| == N
    requires top == 0 ==> t == s
    requires top != 0 ==> t[0] == s[0] - top + B && t[1] == s[1] + B - 1 && t[2] == s[2] + B - 1
    requires top != 0 ==> t[3] == s[3] + top * 0x1000 - 1 && t[4] == s[4]
    requires top != 0 ==> t[5] == s[5] && t[6] == s[6] && t[7] == s[7]
    ensures Congruent(P, Number(t), Number(s) + top * Weight(8))
  {
    Number8(s);
    Number8(t);
    Weights();
    CongruentBy(P, Number(t), Number(s) + top * Weight(8), -top);
  }

  method ReflectTop32(a: array<u32>, top: u32)
    requires a.Length == N && Below(a[..], B) && top < 16
    modifies a
    ensures Below(a[..], BIT29) && Congruent(P, Number(a[..]), old(Number(a[..])) + top * Weight(8))
  {
    ghost var s := a[..];
    var mask := TopMask(top);
    var one, ones, bit28 := Borrowed(mask);
    ReflectLimbs(a, top, one, ones, bit28, s);
    TopNumber(s, top, a[..]);
  }

  /** The four limbs that the reflection changes. */
  method ReflectLimbs(a: array<u32>, top: u32, one: u32, ones: u32, bit28: u32, ghost s: seq<u32>)
    requires a.Length == N && s == a[..] && Below(s, B) && top < 16
    requires if top == 0 then one == ones == bit28 == 0 else one == 1 && ones == B - 1 && bit28 == B
    modifies a
    ensures a[0] == s[0] - top + bit28 && a[1] == s[1] + ones && a[2] == s[2] + ones
    ensures a[3] == s[3] + top * 0x1000 - one && forall j :: 4 <= j < N ==> a[j] == s[j]
    ensures Below(a[..], BIT29) && (top == 0 ==> a[..] == s)
  {
    assert forall j :: 0 <= j < N ==> a[j] == s[j] < B;
    WrapBack(a[0], top, bit28);
    a[0] := Sub32(a[0], top);
    a[3] := a[3] + top * 0x1000;
    a[3] := a[3] - one;
    a[2] := a[2] + ones;
    a[1] := a[1] + ones;
    a[0] := Add32(a[0], bit28);
  }

  /** What is carried down from limb 3 to limb 0, under the mask. */
  method Borrowed(mask: u32) returns (one: u32, ones: u32, bit28: u32)
    requires mask == 0 || mask == 0xffff_ffff
    ensures if mask == 0 then one == ones == bit28 == 0 else one == 1 && ones == B - 1 && bit28 == B
  {
    Masks(mask);
    one := And(mask, 1);
    ones := And(mask, 0xfff_ffff);
    bit28 := And(mask, 0x1000_0000);
  }

  lemma WrapBack(x: u32, top: u32, m: u32)
    requires x < B && top < 16 && m == if top == 0 then 0 else B
    ensures Add32(Sub32(x, top), m) == x - top + m
  {
  }

  lemma Masks(mask: u32)
    requires mask == 0 || mask == 0xffff_ffff
    ensures And(mask, 1) == (if mask == 0 then 0 else 1)
    ensures And(mask, 0xfff_ffff) == (if mask == 0 then 0 else 0xfff_ffff)
    ensures And(mask, 0x1000_0000) == (if mask == 0 then 0 else 0x1000_0000)
  {
    Pow2Values();
    AndLowMask(mask, 1);
    AndLowMask(mask, 28);
    AndConcat(0xfff_ffff, 15, 0, 1, 28);
    assert And(15, 1) == 1;
  }

  /** Brings limbs below 2^29, keeping the value modulo the prime. */
  method Reduce(a: array<u32>)
    requires a.Length == N && Reducible(a[..])
    modifies a
    ensures Below(a[..], BIT29) && Congruent(P, Number(a[..]), old(Number(a[..])))
  {
    ghost var was, number := a[..], Number(a[..]);
    for i := 0 to 7
      invariant Carried(a[..], was, i, number)
    {
      ReduceLimb(a, i, was, number);
    }
    ghost var s: seq<int> := a[..];
    var low, top := Split28(a[7]);
    EvalUpdate(Weight, s, 7, low);
    a[7] := low;
    TopTerm(low, top, s[7]);
    ReflectTop32(a, top);
  }

  lemma TopTerm(low: int, top: int, x: int)
    requires x == low + B * top
    ensures (low - x) * Weight(7) + top * Weight(8) == 0
  {
    Weights();
  }
}
