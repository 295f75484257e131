/** Digit loops and modular multiplication of 3rd/encrypt/src/p256.c. */
module P256Digits {
  import opened Bits
  import opened P256Number

  const N := 8

  /** Eight digits under a top digit. */
  function Long(top: int, s: seq<u32>): int { top * Radix(8) + Value(s) }

  /** The top digit takes the final carry modulo W, so the sum is right modulo 2^288. */
  lemma TopDigit(top: int, carry: int, value: int, total: int)
    requires value + carry * Radix(8) == total && 0 <= value < Radix(8)
    ensures (top + carry) % W * Radix(8) + value == (top * Radix(8) + total) % Radix(9)
  {
    var t, r := top + carry, Radix(8);
    var q, d := t / W, t % W;
    assert t == q * W + d;
    assert t * r == top * r + carry * r;
    assert t * r == q * W * r + d * r by { assert (q * W + d) * r == q * W * r + d * r; }
    assert q * W * r == q * (W * r);
    MulLe(d + 1, W, r);
    assert (d + 1) * r == d * r + r;
    assert Radix(9) == W * r;
    DivModUnique(top * r + total, W * r, q, d * r + value);
  }

  /** Stores one digit of a loop and returns the carry. */
  method StoreDigit(c: array<u32>, o: nat, i: nat, t: int, ghost carry: int, ghost total: int, ghost x: int)
      returns (next: int)
    requires o + i < c.Length && t == carry + x
    requires Value(c[o..o + i]) + carry * Radix(i) == total
    modifies c
    ensures forall j :: 0 <= j < c.Length && j != o + i ==> c[j] == old(c[j])
    ensures next == t / W
    ensures Value(c[o..o + i + 1]) + next * Radix(i + 1) == total + x * Radix(i)
  {
    ghost var low := c[o..o + i];
    c[o + i] := t % W;
    next := t / W;
    assert c[o..o + i + 1] == low + [c[o + i]];
    ValueAppend(low, c[o + i]);
    CarryStep(Value(low), carry, total, x, i);
  }

  lemma NextTotal(was: seq<u32>, a: seq<u32>, b: int, i: nat)
    requires i < |was| && i < |a|
    ensures Value(was[..i]) + Value(a[..i]) * b + (was[i] + a[i] * b) * Radix(i)
         == Value(was[..i + 1]) + Value(a[..i + 1]) * b
  {
    ValueTake(was, i);
    ValueTake(a, i);
    ProductStep(Value(was[..i]), was[i], Value(a[..i]), a[i], b, Radix(i));
  }

  /** c[] += a[] * b: what a loop over the digits has done after i of them. */
  ghost predicate Progress(now: seq<u32>, was: seq<u32>, a: seq<u32>, b: int, i: nat, carry: int) {
    |now| == |was| == |a| == N && i <= N && (forall j :: i <= j < N ==> now[j] == was[j])
    && Value(now[..i]) + carry * Radix(i) == Value(was[..i]) + Value(a[..i]) * b
  }

  /** One round of such a loop. */
  method Round(c: array<u32>, o: nat, i: nat, t: int, ghost was: seq<u32>, ghost a: seq<u32>, ghost b: int,
               ghost carry: int) returns (next: int)
    requires o + N <= c.Length && i < N && Progress(c[o..o + N], was, a, b, i, carry)
    requires t == carry + was[i] + a[i] * b
    modifies c
    ensures c[..o] == old(c[..o]) && c[o + N..] == old(c[o + N..])
    ensures next == t / W && Progress(c[o..o + N], was, a, b, i + 1, next)
  {
    SubSlice(c[..], o, N, i);
    ghost var before := c[o..o + N];
    next := StoreDigit(c, o, i, t, carry, Value(was[..i]) + Value(a[..i]) * b, was[i] + a[i] * b);
    NextTotal(was, a, b, i);
    forall j | i < j < N ensures c[..][o + j] == before[j] {
      assert before[j] == old(c[o + j]);
    }
    ProgressNext(c[..], o, before, was, a, b, i, carry, next);
  }

  lemma ProgressNext(all: seq<u32>, o: nat, before: seq<u32>, was: seq<u32>, a: seq<u32>, b: int, i: nat, carry: int,
                     next: int)
    requires o + N <= |all| && i < N && Progress(before, was, a, b, i, carry)
    requires forall j :: i < j < N ==> all[o + j] == before[j]
    requires Value(all[o..o + i + 1]) + next * Radix(i + 1) == Value(was[..i + 1]) + Value(a[..i + 1]) * b
    ensures Progress(all[o..o + N], was, a, b, i + 1, next)
  {
    SubSlice(all, o, N, i + 1);
  }

  /** The end of such a loop. */
  lemma Finished(now: seq<u32>, was: seq<u32>, a: seq<u32>, b: int, carry: int, top: int)
    requires Progress(now, was, a, b, N, carry)
    ensures Value(now) + carry * Radix(8) == Value(was) + Value(a) * b
    ensures Long((top + carry) % W, now) == (Long(top, was) + Value(a) * b) % Radix(9)
  {
    assert now[..N] == now && was[..N] == was && a[..N] == a;
    ValueBound(now);
    TopDigit(top, carry, Value(now), Value(was) + Value(a) * b);
  }

  /** The carry is the top digit if there was none. */
  lemma CarryTop(now: seq<u32>, carry: int, total: int)
    requires |now| == N && 0 <= carry < W && Value(now) + carry * Radix(8) == total
    ensures Long(carry % W, now) == total
  {
  }

  /** The loop of MulAdd. */
  method AddProducts(a: array<u32>, b: u32, c: array<u32>, o: nat) returns (carry: u64)
    requires a.Length == N && o + N <= c.Length && a != c
    modifies c
    ensures c[..o] == old(c[..o]) && c[o + N..] == old(c[o + N..])
    ensures carry < W && Progress(c[o..o + N], old(c[o..o + N]), a[..], b, N, carry)
  {
    carry := 0;
    ghost var was := c[o..o + N];
    for i := 0 to N
      invariant carry < W && c[..o] == old(c[..o]) && c[o + N..] == old(c[o + N..])
      invariant Progress(c[o..o + N], was, a[..], b, i, carry)
    {
      assert c[o + i] == c[o..o + N][i] == was[i];
      ProductBound(carry, c[o + i], a[i], b);
      var t: u64 := carry + c[o + i] + a[i] * b;
      carry := Round(c, o, i, t, was, a[..], b, carry);
    }
  }

  /** top, c[] += a[] * b modulo 2^288 */
  method MulAdd(a: array<u32>, b: u32, top: u32, c: array<u32>, o: nat) returns (r: u32)
    requires a.Length == N && o + N <= c.Length && a != c
    modifies c
    ensures c[..o] == old(c[..o]) && c[o + N..] == old(c[o + N..])
    ensures Long(r, c[o..o + N]) == (Long(top, old(c[o..o + N])) + Value(a[..]) * b) % Radix(9)
    ensures top == 0 ==> Long(r, c[o..o + N]) == Value(old(c[o..o + N])) + Value(a[..]) * b
  {
    ghost var was := c[o..o + N];
    var carry := AddProducts(a, b, c, o);
    Finished(c[o..o + N], was, a[..], b, carry, top);
    CarryTop(c[o..o + N], carry, Value(was) + Value(a[..]) * b);
    r := (top + carry) % W;
  }

  lemma ProductBound(carry: u32, c: u32, a: u32, b: u32)
    ensures 0 <= carry + c + a * b < W * W
    ensures (carry + c + a * b) / W < W
  {
    DigitProduct(a, b);
    SumBound(carry, c, a * b);
  }

  lemma DigitProduct(a: int, b: int)
    requires 0 <= a < W && 0 <= b < W
    ensures 0 <= a * b <= 0xffff_fffe_0000_0001
  {
    MulLe(a, W - 1, b);
    MulLe(0, a, b);
  }

  lemma SumBound(carry: int, c: int, p: int)
    requires 0 <= carry < W && 0 <= c < W && 0 <= p <= 0xffff_fffe_0000_0001
    ensures 0 <= carry + c + p < W * W && (carry + c + p) / W < W
  {
    QuotientBound(carry + c + p, W);
  }

  lemma QuotientBound(t: nat, w: nat)
    requires w > 0 && t < w * w
    ensures t / w < w
  {
    DivModBounds(t, w);
    if t / w >= w {
      MulLe(w, t / w, w);
    }
  }

  /** top, c[] -= top_a, a[] for a difference that is not negative */
  method SubTop(topA: u32, a: array<u32>, topC: u32, c: array<u32>, o: nat) returns (r: u32)
    requires a.Length == N && o + N <= c.Length && a != c
    requires Long(topA, a[..]) <= Long(topC, c[o..o + N])
    modifies c
    ensures c[..o] == old(c[..o]) && c[o + N..] == old(c[o + N..])
    ensures Long(r, c[o..o + N]) == Long(topC, old(c[o..o + N])) - Long(topA, a[..])
  {
    var borrow := 0;
    ghost var was := c[o..o + N];
    for i := 0 to N
      invariant -1 <= borrow <= 0 && c[..o] == old(c[..o]) && c[o + N..] == old(c[o + N..])
      invariant Progress(c[o..o + N], was, a[..], -1, i, borrow)
    {
      assert c[o + i] == c[o..o + N][i] == was[i];
      borrow := Round(c, o, i, borrow + c[o + i] - a[i], was, a[..], -1, borrow);
    }
    Finished(c[o..o + N], was, a[..], -1, borrow, topC);
    DifferenceTop(topC, topA, borrow, c[o..o + N], was, a[..]);
    borrow := borrow + topC - topA;
    r := borrow % W;
    assert borrow / W == 0;
  }

  lemma DifferenceTop(topC: u32, topA: u32, borrow: int, now: seq<u32>, was: seq<u32>, a: seq<u32>)
    requires |now| == N && -1 <= borrow <= 0 && Long(topA, a) <= Long(topC, was)
    requires Value(now) + borrow * Radix(8) == Value(was) - Value(a)
    ensures 0 <= borrow + topC - topA < W
    ensures Long(borrow + topC - topA, now) == Long(topC, was) - Long(topA, a)
  {
    ValueBound(now);
    TopDifference(topC, topA, borrow, Value(now), Value(was), Value(a), Radix(8));
  }

  lemma TopDifference(topC: int, topA: int, borrow: int, now: int, was: int, a: int, r: int)
    requires 0 <= now < r && topA * r + a <= topC * r + was && now + borrow * r == was - a
    ensures 0 <= borrow + topC - topA
    ensures (borrow + topC - topA) * r + now == (topC * r + was) - (topA * r + a)
  {
    var t := borrow + topC - topA;
    assert t * r == borrow * r + topC * r - topA * r;
    if t < 0 {
      MulLe(t, -1, r);
    }
  }

  /** The all-zeros and the all-ones mask select nothing and everything. */
  lemma Masks(x: u32)
    ensures And(x, 0) == 0 && And(x, 0xffff_ffff) == x
  {
    Pow2Values();
    AndLowMask(x, 32);
    DivModUnique(x, W, 0, x);
  }

  predicate IsMask(mask: u32) { mask == 0 || mask == 0xffff_ffff }

  function Selected(mask: u32): int { if mask == 0 then 0 else 1 }

  /** top, c[] -= MOD[] & mask modulo 2^288 */
  method SubM(m: array<u32>, top: u32, c: array<u32>, o: nat, mask: u32) returns (r: u32)
    requires m.Length == N && o + N <= c.Length && m != c && IsMask(mask)
    modifies c
    ensures c[..o] == old(c[..o]) && c[o + N..] == old(c[o + N..])
    ensures Long(r, c[o..o + N]) == (Long(top, old(c[o..o + N])) - Value(m[..]) * Selected(mask)) % Radix(9)
  {
    var borrow := 0;
    ghost var was, b := c[o..o + N], -Selected(mask);
    for i := 0 to N
      invariant -1 <= borrow <= 0 && c[..o] == old(c[..o]) && c[o + N..] == old(c[o + N..])
      invariant Progress(c[o..o + N], was, m[..], b, i, borrow)
    {
      assert c[o + i] == c[o..o + N][i] == was[i];
      Masks(m[i]);
      borrow := Round(c, o, i, borrow + c[o + i] - And(m[i], mask), was, m[..], b, borrow);
    }
    Finished(c[o..o + N], was, m[..], b, borrow, top);
    r := (top + borrow) % W;
  }

  /** top, c[] += MOD[] & mask modulo 2^288 */
  method AddM(m: array<u32>, top: u32, c: array<u32>, o: nat, mask: u32) returns (r: u32)
    requires m.Length == N && o + N <= c.Length && m != c && IsMask(mask)
    modifies c
    ensures c[..o] == old(c[..o]) && c[o + N..] == old(c[o + N..])
    ensures Long(r, c[o..o + N]) == (Long(top, old(c[o..o + N])) + Value(m[..]) * Selected(mask)) % Radix(9)
  {
    var carry := 0;
    ghost var was, b := c[o..o + N], Selected(mask);
    for i := 0 to N
      invariant 0 <= carry <= 1 && c[..o] == old(c[..o]) && c[o + N..] == old(c[o + N..])
      invariant Progress(c[o..o + N], was, m[..], b, i, carry)
    {
      assert c[o + i] == c[o..o + N][i] == was[i];
      Masks(m[i]);
      carry := Round(c, o, i, carry + c[o + i] + And(m[i], mask), was, m[..], b, carry);
    }
    Finished(c[o..o + N], was, m[..], b, carry, top);
    r := (top + carry) % W;
  }
}
