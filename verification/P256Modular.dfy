/** Multiplication and reduction modulo a number whose top digit is all ones
    (3rd/encrypt/src/p256.c). */
module P256Modular {
  import opened Bits
  import opened Modular
  import opened P256Number
  import opened P256Digits

  // ---------- Multiplication ----------

  /** Changing eight digits at o changes the number by Radix(o) times the difference. */
  lemma Window(s: seq<u32>, t: seq<u32>, o: nat)
    requires o + N <= |s| == |t| && s[..o] == t[..o]
    ensures Value(t[..o + N]) == Value(s[..o + N]) + Radix(o) * (Value(t[o..o + N]) - Value(s[o..o + N]))
  {
    WindowSplit(s, o);
    WindowSplit(t, o);
    assert Radix(o) * (Value(t[o..o + N]) - Value(s[o..o + N]))
      == Radix(o) * Value(t[o..o + N]) - Radix(o) * Value(s[o..o + N]);
  }

  lemma WindowSplit(s: seq<u32>, o: nat)
    requires o + N <= |s|
    ensures Value(s[..o + N]) == Value(s[..o]) + Radix(o) * Value(s[o..o + N])
  {
    assert s[..o + N] == s[..o] + s[o..o + N];
    ValueConcat(s[..o], s[o..o + N]);
  }

  /** One row of the product: i digits of the multiplier are done. */
  ghost predicate Partial(tmp: seq<u32>, top: u32, a: int, b: seq<u32>, i: nat) {
    |tmp| == 17 && i <= 9 && i <= |b| && (forall j :: i + 7 <= j < 17 ==> tmp[j] == 0)
    && Value(tmp[..i + 7]) + top * Radix(i + 7) == a * Value(b[..i])
  }

  method ProductRow(a: array<u32>, d: u32, tmp: array<u32>, top: u32, i: nat, ghost b: seq<u32>) returns (r: u32)
    requires a.Length == N && a != tmp && tmp.Length == 17 && i < 9 && i < |b| && d == b[i]
    requires Partial(tmp[..], top, Value(a[..]), b, i) && (i == 0 ==> top == 0)
    modifies tmp
    ensures Partial(tmp[..], r, Value(a[..]), b, i + 1)
  {
    ghost var before := tmp[..];
    if i > 0 {
      tmp[i + 7] := top;
    }
    ghost var filled := tmp[..];
    assert filled == before[i + 7 := top];
    RowFilled(before, top, Value(a[..]), b, i);
    r := MulAdd(a, d, 0, tmp, i);
    assert tmp[..][..i] == tmp[..i] && tmp[..][i..i + N] == tmp[i..i + N] && tmp[..][i + N..] == tmp[i + N..];
    RowDone(filled, tmp[..], r, Value(a[..]), b, i);
  }

  /** Storing the top digit makes room for the next row. */
  lemma RowFilled(before: seq<u32>, top: u32, a: int, b: seq<u32>, i: nat)
    requires i < 9 && Partial(before, top, a, b, i)
    ensures Value(before[i + 7 := top][..i + 8]) == a * Value(b[..i])
  {
    var filled := before[i + 7 := top];
    ValueTake(filled, i + 7);
    assert filled[..i + 7] == before[..i + 7];
  }

  lemma RowDone(filled: seq<u32>, now: seq<u32>, r: u32, a: int, b: seq<u32>, i: nat)
    requires i < 9 && i < |b| && |filled| == |now| == 17 && now[..i] == filled[..i] && now[i + N..] == filled[i + N..]
    requires Value(filled[..i + 8]) == a * Value(b[..i]) && (forall j :: i + 8 <= j < 17 ==> filled[j] == 0)
    requires Long(r, now[i..i + N]) == Value(filled[i..i + N]) + a * b[i]
    ensures Partial(now, r, a, b, i + 1)
  {
    Window(filled, now, i);
    RadixAdd(i, 8);
    ValueTake(b, i);
    RowTotal(Value(now[..i + N]), Value(filled[..i + N]), Radix(i), Value(now[i..i + N]), Value(filled[i..i + N]),
      r, Radix(8), a, b[i], Value(b[..i]));
    forall j | i + 8 <= j < 17 ensures now[j] == 0 {
      assert now[j] == now[i + N..][j - i - 8] == filled[j];
    }
  }

  lemma RowTotal(now: int, was: int, ri: int, part: int, old_: int, r: int, r8: int, a: int, d: int, b: int)
    requires now == was + ri * (part - old_) && r * r8 + part == old_ + a * d && was == a * b
    ensures now + r * (ri * r8) == a * (b + d * ri)
  {
    assert ri * (part - old_) == ri * (a * d - r * r8) == ri * (a * d) - ri * (r * r8);
    assert r * (ri * r8) == ri * (r * r8) && a * (b + d * ri) == a * b + a * (d * ri) && a * (d * ri) == ri * (a * d);
  }

  method Product(a: array<u32>, topB: u32, b: array<u32>) returns (tmp: array<u32>, top: u32)
    requires a.Length == N && b.Length == N
    ensures fresh(tmp) && tmp.Length == 17
    ensures Value(tmp[..16]) + top * Radix(16) == Value(a[..]) * Long(topB, b[..])
  {
    tmp := new u32[17](_ => 0);
    top := 0;
    ghost var digits := b[..] + [topB];
    PartialStart(tmp[..], Value(a[..]), digits);
    for i := 0 to N
      invariant Partial(tmp[..], top, Value(a[..]), digits, i) && (i == 0 ==> top == 0)
    {
      top := ProductRow(a, b[i], tmp, top, i, digits);
    }
    top := ProductRow(a, topB, tmp, top, N, digits);
    PartialEnd(tmp[..], top, Value(a[..]), b[..], topB, 9);
    assert tmp[..][..16] == tmp[..16];
  }

  lemma PartialStart(tmp: seq<u32>, a: int, b: seq<u32>)
    requires |tmp| == 17 && forall j :: 0 <= j < 17 ==> tmp[j] == 0
    ensures Partial(tmp, 0, a, b, 0)
  {
    assert tmp[..7] == seq(7, _ => 0);
    ValueOfZeros(7);
  }

  lemma PartialEnd(tmp: seq<u32>, top: u32, a: int, b: seq<u32>, topB: u32, n: nat)
    requires |b| == N && n == 9 && Partial(tmp, top, a, b + [topB], n)
    ensures Value(tmp[..n + 7]) + top * Radix(n + 7) == a * Long(topB, b)
  {
    assert (b + [topB])[..n] == b + [topB];
    ValueAppend(b, topB);
  }

  // ---------- Reduction ----------

  ghost predicate TopOnes(m: seq<u32>) { |m| == N && m[7] == 0xffff_ffff }

  lemma TopOnesBound(m: seq<u32>)
    requires TopOnes(m)
    ensures (W - 1) * Radix(7) <= Value(m) < W * Radix(7) == Radix(8)
  {
    ValueTake(m, 7);
    assert m[..8] == m;
    ValueBound(m);
  }

  /** Subtracting top times a modulus close to the radix leaves a top digit of at most 1. */
  lemma Guess(top: int, v: int, m: int, r7: int, w: int)
    requires w > 1 && r7 > 0 && 0 <= top < w && 0 <= v < w * r7 && (w - 1) * r7 <= m < w * r7
    ensures 0 <= top * (w * r7) + v - top * m < w * r7 + (w - 1) * r7
  {
    var gap := w * r7 - m;
    assert top * (w * r7) - top * m == top * gap;
    assert (w - 1) * r7 == w * r7 - r7;
    MulLe(0, top, gap);
    MulLe(top, w - 1, gap);
    assert gap * (w - 1) == (w - 1) * gap;
    MulLe(gap, r7, w - 1);
    assert r7 * (w - 1) == (w - 1) * r7;
  }

  /** The top digit is then cleared by one conditional subtraction. */
  lemma Cleared(top1: int, v1: int, m: int, r7: int, w: int)
    requires w > 1 && r7 > 0 && top1 >= 0 && 0 <= v1 < w * r7 && (w - 1) * r7 <= m < w * r7
    requires top1 * (w * r7) + v1 < w * r7 + (w - 1) * r7
    ensures top1 <= 1 && 0 <= top1 * (w * r7) + v1 - m * top1 < w * r7
  {
    assert (w - 1) * r7 == w * r7 - r7;
    if top1 >= 2 {
      MulLe(2, top1, w * r7);
    }
    if top1 == 1 {
      assert v1 < (w - 1) * r7;
    }
  }

  /** A number below Radix(8) has no top digit. */
  lemma NoTop(top: int, s: seq<u32>, x: int)
    requires |s| == N && 0 <= top && Long(top, s) == x % Radix(9) && 0 <= x < Radix(8)
    ensures top == 0 && Value(s) == x
  {
    ValueBound(s);
    assert Radix(9) == W * Radix(8);
    DivModUnique(x, Radix(9), 0, x);
    if top > 0 {
      MulLe(1, top, Radix(8));
    }
  }

  lemma GuessDigits(top: u32, s: seq<u32>, m: seq<u32>)
    requires |s| == N && TopOnes(m)
    ensures 0 <= Long(top, s) - Value(m) * top < Radix(8) + (W - 1) * Radix(7)
  {
    TopOnesBound(m);
    ValueBound(s);
    Guess(top, Value(s), Value(m), Radix(7), W);
  }

  lemma ClearedDigits(top: u32, s: seq<u32>, m: seq<u32>)
    requires |s| == N && TopOnes(m) && Long(top, s) < Radix(8) + (W - 1) * Radix(7)
    ensures top <= 1 && 0 <= Long(top, s) - Value(m) * top < Radix(8)
  {
    TopOnesBound(m);
    ValueBound(s);
    Cleared(top, Value(s), Value(m), Radix(7), W);
  }

  /** Takes the top digit off eight digits: one round of the reduction. */
  lemma TwoTaken(was: int, left: int, now: int, m: int, top: int, top1: int)
    requires left == was - m * top && now == left - m * top1
    ensures now == was - m * (top + top1)
  {
    MulSum(m, top, top1);
  }

  method ClearTop(m: array<u32>, tmp: array<u32>, o: nat, top: u32) returns (ghost k: int)
    requires m.Length == N && o + N <= tmp.Length && m != tmp && TopOnes(m[..])
    modifies tmp
    ensures tmp[..o] == old(tmp[..o]) && tmp[o + N..] == old(tmp[o + N..])
    ensures Value(tmp[o..o + N]) == Long(top, old(tmp[o..o + N])) - Value(m[..]) * k
  {
    ghost var was, mv := Long(top, tmp[o..o + N]), Value(m[..]);
    var top1 := SubtractTop(m, tmp, o, top);
    ghost var left := Long(top1, tmp[o..o + N]);
    SubtractOnce(m, tmp, o, top1);
    k := top + top1;
    TwoTaken(was, left, Value(tmp[o..o + N]), mv, top, top1);
  }

  /** The top digit times the modulus is subtracted. */
  method SubtractGuess(m: array<u32>, tmp: array<u32>, o: nat, top: u32) returns (top1: u32)
    requires m.Length == N && o + N <= tmp.Length && m != tmp && TopOnes(m[..])
    modifies tmp
    ensures tmp[..o] == old(tmp[..o]) && tmp[o + N..] == old(tmp[o + N..])
    ensures Long(top1, tmp[o..o + N]) == Long(top, old(tmp[o..o + N])) - Value(m[..]) * top
    ensures Long(top1, tmp[o..o + N]) < Radix(8) + (W - 1) * Radix(7)
  {
    GuessDigits(top, tmp[o..o + N], m[..]);
    var reducer, topReducer := Multiple(m, top);
    top1 := SubTop(topReducer, reducer, top, tmp, o);
  }

  /** A top digit of 1 is cleared by subtracting the modulus once more. */
  method SubtractTop(m: array<u32>, tmp: array<u32>, o: nat, top: u32) returns (top1: u32)
    requires m.Length == N && o + N <= tmp.Length && m != tmp && TopOnes(m[..])
    modifies tmp
    ensures tmp[..o] == old(tmp[..o]) && tmp[o + N..] == old(tmp[o + N..])
    ensures Long(top1, tmp[o..o + N]) == Long(top, old(tmp[o..o + N])) - Value(m[..]) * top
    ensures top1 <= 1 && 0 <= Long(top1, tmp[o..o + N]) - Value(m[..]) * top1 < Radix(8)
  {
    top1 := SubtractGuess(m, tmp, o, top);
    ClearedDigits(top1, tmp[o..o + N], m[..]);
  }

  method SubtractOnce(m: array<u32>, tmp: array<u32>, o: nat, top1: u32)
    requires m.Length == N && o + N <= tmp.Length && m != tmp && top1 <= 1
    requires 0 <= Long(top1, tmp[o..o + N]) - Value(m[..]) * top1 < Radix(8)
    modifies tmp
    ensures tmp[..o] == old(tmp[..o]) && tmp[o + N..] == old(tmp[o + N..])
    ensures Value(tmp[o..o + N]) == Long(top1, old(tmp[o..o + N])) - Value(m[..]) * top1
  {
    ghost var x := Long(top1, tmp[o..o + N]) - Value(m[..]) * top1;
    var mask := 0xffff_ffff - (top1 - 1) % W;
    assert Selected(mask) == top1;
    var top2 := SubM(m, top1, tmp, o, mask);
    NoTop(top2, tmp[o..o + N], x);
    assert top2 == 0;
  }

  method Multiple(m: array<u32>, d: u32) returns (c: array<u32>, top: u32)
    requires m.Length == N
    ensures fresh(c) && c.Length == N && Long(top, c[..]) == Value(m[..]) * d
  {
    c := new u32[N](_ => 0);
    assert c[0..N] == seq(N, _ => 0);
    ValueOfZeros(N);
    top := MulAdd(m, d, 0, c, 0);
    assert c[0..N] == c[..];
  }

  /** What the low n digits and the top digit stand for does not change modulo m. */
  ghost predicate Reducing(tmp: seq<u32>, n: nat, top: u32, m: int, total: int) {
    n <= |tmp| && Congruent(m, Value(tmp[..n]) + top * Radix(n), total)
  }

  /** One round of the reduction loop: the digits above i + 7 are used up. */
  method ReduceRound(m: array<u32>, tmp: array<u32>, i: nat, top: u32, ghost total: int) returns (next: u32)
    requires m.Length == N && tmp.Length == 17 && m != tmp && i <= 8 && TopOnes(m[..])
    requires Reducing(tmp[..], i + 8, top, Value(m[..]), total)
    modifies tmp
    ensures next == tmp[i + 7] && Reducing(tmp[..], i + 7, next, Value(m[..]), total)
  {
    ghost var before := tmp[..];
    ghost var k := ClearTop(m, tmp, i, top);
    assert tmp[..][..i] == before[..i] && tmp[..][i..i + N] == tmp[i..i + N];
    ReducedBy(before, tmp[..], i, top, Value(m[..]), k);
    next := tmp[i + N - 1];
    ValueTake(tmp[..], i + 7);
    CongruentTrans(Value(m[..]), Value(tmp[..][..i + 8]), Value(before[..i + 8]) + top * Radix(i + 8), total);
  }

  lemma ReducedBy(before: seq<u32>, now: seq<u32>, i: nat, top: u32, m: nat, k: int)
    requires i <= 8 && |before| == |now| == 17 && now[..i] == before[..i]
    requires Value(now[i..i + N]) == Long(top, before[i..i + N]) - m * k
    ensures Congruent(m, Value(now[..i + 8]), Value(before[..i + 8]) + top * Radix(i + 8))
  {
    Window(before, now, i);
    RadixAdd(i, 8);
    var r, v := Radix(i), Value(before[i..i + N]);
    ReducedTotal(r, Value(now[i..i + N]) - v, top, Radix(8), m, k);
    CongruentBy(m, Value(now[..i + 8]), Value(before[..i + 8]) + top * Radix(i + 8), -(r * k));
  }

  lemma ReducedTotal(r: int, change: int, top: int, r8: int, m: int, k: int)
    requires change == top * r8 - m * k
    ensures r * change == top * (r * r8) + m * -(r * k)
  {
    assert r * change == r * (top * r8) - r * (m * k);
    assert r * (m * k) == m * (r * k) && r * (top * r8) == top * (r * r8);
  }

  /** The reduction loop. */
  method ReduceDigits(m: array<u32>, tmp: array<u32>, topIn: u32, ghost total: int)
    requires m.Length == N && tmp.Length == 17 && m != tmp && TopOnes(m[..])
    requires total == Value(tmp[..16]) + topIn * Radix(16)
    modifies tmp
    ensures Congruent(Value(m[..]), Value(tmp[..8]), total)
  {
    var top: u32 := topIn;
    assert tmp[..][..16] == tmp[..16];
    ReducingStart(tmp[..], top, Value(m[..]), total);
    for i := 9 downto 0
      invariant (i < 9 ==> top == tmp[i + 7]) && Reducing(tmp[..], i + 7, top, Value(m[..]), total)
    {
      top := ReduceRound(m, tmp, i, top, total);
    }
    ReducingEnd(tmp[..], Value(m[..]), total);
    assert tmp[..][..8] == tmp[..8];
  }

  lemma ReducingStart(tmp: seq<u32>, top: u32, m: int, total: int)
    requires |tmp| >= 16 && total == Value(tmp[..16]) + top * Radix(16)
    ensures Reducing(tmp, 16, top, m, total)
  {
    CongruentSame(m, total);
  }

  lemma ReducingEnd(tmp: seq<u32>, m: int, total: int)
    requires |tmp| >= 8 && Reducing(tmp, 7, tmp[7], m, total)
    ensures Congruent(m, Value(tmp[..8]), total)
  {
    ValueTake(tmp, 7);
  }

  /** c[] - MOD[] if that is not negative, by an unconditional subtraction and a
      conditional addition. */
  method Settle(m: array<u32>, c: array<u32>)
    requires m.Length == N && c.Length >= N && m != c
    modifies c
    ensures var v := Value(old(c[..N]));
      Value(c[..N]) == if v < Value(m[..]) then v else v - Value(m[..])
    ensures c[N..] == old(c[N..])
  {
    ghost var v, mv := Value(c[0..N]), Value(m[..]);
    ValueBound(c[0..N]);
    ValueBound(m[..]);
    var mask := SubM(m, 0, c, 0, 0xffff_ffff);
    Borrowed(mask, c[0..N], v - mv);
    ghost var v1 := Value(c[0..N]);
    var top := AddM(m, 0, c, 0, mask);
    Restored(top, c[0..N], v1 + mv * Selected(mask), v < mv);
    assert c[0..N] == c[..N];
  }

  /** A negative difference leaves all ones in the top digit. */
  lemma Borrowed(top: u32, s: seq<u32>, d: int)
    requires |s| == N && Long(top, s) == d % Radix(9) && 0 < d + Radix(8) && d < Radix(8)
    ensures top == if d < 0 then 0xffff_ffff else 0
    ensures Value(s) == if d < 0 then d + Radix(8) else d
  {
    ValueBound(s);
    assert Radix(9) == W * Radix(8);
    if d >= 0 {
      NoTop(top, s, d);
    } else {
      DivModUnique(d, Radix(9), -1, d + Radix(9));
      var t, r, x := top - (W - 1), Radix(8), d + Radix(8);
      assert t * r == top * r - (W - 1) * r;
      assert t * r + Value(s) == x && 0 <= x < r;
      if t <= -1 {
        MulLe(t, -1, r);
      }
    }
  }

  lemma Restored(top: u32, s: seq<u32>, x: int, wrapped: bool)
    requires |s| == N && Long(top, s) == x % Radix(9)
    requires if wrapped then Radix(8) <= x < 2 * Radix(8) else 0 <= x < Radix(8)
    ensures Value(s) == if wrapped then x - Radix(8) else x
  {
    ValueBound(s);
    assert Radix(9) == W * Radix(8);
    DivModUnique(x, Radix(9), 0, x);
    var t, r := if wrapped then top - 1 else top, Radix(8);
    assert t * r == top * r - (if wrapped then r else 0);
    if t >= 1 {
      MulLe(1, t, r);
    } else if t <= -1 {
      MulLe(t, -1, r);
    }
  }

  /** c = a * (topB * 2^256 + b) mod MOD. c may be a or b. */
  method ModMul(m: array<u32>, a: array<u32>, topB: u32, b: array<u32>, c: array<u32>)
    requires m.Length == a.Length == b.Length == c.Length == N && m[7] == 0xffff_ffff
    modifies c
    ensures old(Value(m[..])) > 0
    ensures Value(c[..]) == old(Value(a[..]) * (topB * Radix(8) + Value(b[..])) % Value(m[..]))
  {
    LongIs(topB, b[..]);
    MulLong(m, a, topB, b, c);
  }

  method MulLong(m: array<u32>, a: array<u32>, topB: u32, b: array<u32>, c: array<u32>)
    requires m.Length == a.Length == b.Length == c.Length == N && TopOnes(m[..])
    modifies c
    ensures old(Value(m[..])) > 0 && Value(c[..]) == old(Value(a[..]) * Long(topB, b[..]) % Value(m[..]))
  {
    ghost var total := Value(a[..]) * Long(topB, b[..]);
    var tmp, top := Product(a, topB, b);
    ReduceDigits(m, tmp, top, total);
    ProductPositive(a[..], topB, b[..]);
    SettleTotal(m, tmp, total);
    Copy(tmp, c);
  }

  lemma LongIs(top: int, s: seq<u32>)
    ensures Long(top, s) == top * Radix(8) + Value(s)
  {
  }

  /** The last step of the reduction of a number. */
  method SettleTotal(m: array<u32>, tmp: array<u32>, ghost total: nat)
    requires m.Length == N && tmp.Length == 17 && m != tmp && TopOnes(m[..])
    requires Congruent(Value(m[..]), Value(tmp[..8]), total)
    modifies tmp
    ensures Value(m[..]) > 0 && Value(tmp[..8]) == total % Value(m[..])
  {
    ghost var v := Value(tmp[..8]);
    ValueBound(tmp[..8]);
    Settle(m, tmp);
    SettledValue(tmp[..8], v, m[..], total);
  }

  lemma ProductPositive(a: seq<u32>, topB: u32, b: seq<u32>)
    ensures Value(a) * Long(topB, b) >= 0
  {
    MulLe(0, topB, Radix(8));
    MulLe(0, Long(topB, b), Value(a));
  }

  lemma SettledValue(s: seq<u32>, v: nat, m: seq<u32>, total: nat)
    requires TopOnes(m) && v < Radix(8) && Congruent(Value(m), v, total)
    requires Value(s) == if v < Value(m) then v else v - Value(m)
    ensures Value(m) > 0 && Value(s) == total % Value(m)
  {
    TopOnesBound(m);
    CongruentBy(Value(m), Value(s), v, if v < Value(m) then 0 else -1);
    CongruentTrans(Value(m), Value(s), v, total);
    CongruentMod(Value(m), Value(s), total);
  }

  method Copy(from: array<u32>, to: array<u32>)
    requires from.Length >= N && to.Length == N && from != to
    modifies to
    ensures to[..] == from[..N]
  {
    for i := 0 to N
      invariant to[..i] == from[..i]
    {
      to[i] := from[i];
    }
  }
}
