/** The fixed-time inversion of 3rd/encrypt/src/p256.c: a power with a constant
    exponent, four exponent bits at a time. */
module P256Fermat {
  import opened Bits
  import opened Modular
  import opened P256Number
  import opened P256Digits
  import opened P256Modular
  import opened P256Inverse

  const N_MIN_2: seq<u32> := [0xfc63_2551 - 2, 0xf3b9_cac2, 0xa717_9e84, 0xbce6_faad,
                              0xffff_ffff, 0xffff_ffff, 0, 0xffff_ffff]

  /** The exponent is the order of the base point (section D.1.2.3 of FIPS 186-4) less two. */
  lemma ExponentValue()
    ensures Value(N_MIN_2) == 0xffff_ffff_0000_0000_ffff_ffff_ffff_ffff_bce6_faad_a717_9e84_f3b9_cac2_fc63_2551 - 2
  {
    EightDigits(N_MIN_2);
  }

  // ---------- Exponent bits ----------

  method GetBit(scalar: seq<u32>, bit: nat) returns (r: nat)
    requires bit < 32 * |scalar|
    ensures r == Shr(Value(scalar), bit) % 2
  {
    var digit := scalar[bit / 32];
    r := And(Shr(digit, bit % 32), 1);
    AndLowMask(Shr(digit, bit % 32), 1);
    assert Pow2(1) == 2;
    BitOfValue(scalar, bit / 32, bit % 32);
  }

  /** Bit 32 * q + r of a number is bit r of its digit q. */
  lemma BitOfValue(s: seq<u32>, q: nat, r: nat)
    requires q < |s| && r < 32
    ensures Shr(s[q], r) % 2 == Shr(Value(s), 32 * q + r) % 2
  {
    var p, half, high := Pow2(r), Pow2(31 - r), Value(s[q + 1..]);
    DigitPower(q, r);
    DivModBounds(s[q], p);
    MulEqual(W, p * (2 * half), high);
    ValueAround(s, q, s[q] / p * p + s[q] % p + p * (2 * half) * high);
    BitOfParts(Value(s[..q]), Radix(q), s[q] / p, s[q] % p, p, half, high);
  }

  lemma DigitPower(q: nat, r: nat)
    requires r < 32
    ensures Pow2(32 * q + r) == Radix(q) * Pow2(r) && W == Pow2(r) * (2 * Pow2(31 - r))
  {
    RadixPow2(q);
    Pow2Add(32 * q, r);
    Pow2Values();
    Pow2Add(r, 32 - r);
    assert Pow2(32 - r) == 2 * Pow2(31 - r);
  }

  lemma ValueAround(s: seq<u32>, q: nat, rest: nat)
    requires q < |s| && rest == s[q] + W * Value(s[q + 1..])
    ensures Value(s) == Value(s[..q]) + Radix(q) * rest && Value(s[..q]) < Radix(q)
  {
    DigitFirst(s, q);
    MulEqual(Value(s[q..]), rest, Radix(q));
    ValueSplit(s, q);
    ValueBound(s[..q]);
  }

  lemma DigitFirst(s: seq<u32>, q: nat)
    requires q < |s|
    ensures Value(s[q..]) == s[q] + W * Value(s[q + 1..])
  {
    ValueFirst(s[q..]);
    assert s[q..][1..] == s[q + 1..];
  }

  lemma BitOfParts(low: nat, radix: nat, bits: nat, rest: nat, p: nat, half: nat, high: nat)
    requires low < radix && rest < p
    ensures radix * p > 0
    ensures (low + radix * (bits * p + rest + p * (2 * half) * high)) / (radix * p) % 2 == bits % 2
  {
    var n, q := radix * p, bits + 2 * (half * high);
    var r := low + radix * rest;
    MulLe(rest + 1, p, radix);
    assert (rest + 1) * radix == radix * rest + radix && p * radix == n;
    MulLe(1, p, radix);
    assert p * (2 * half) * high == (2 * (half * high)) * p;
    MulSum(p, bits, 2 * (half * high));
    assert bits * p + (2 * (half * high)) * p == q * p;
    MulSum(radix, q * p, rest);
    assert radix * (q * p) == q * n;
    DivModUnique(q * n + r, n, q, r);
    DivModUnique(q, 2, bits / 2 + half * high, bits % 2);
  }

  lemma NextBit(v: nat, k: nat)
    ensures Shr(v, k) == 2 * Shr(v, k + 1) + Shr(v, k) % 2
  {
    var p, q, r := Pow2(k), v / Pow2(k + 1), v % Pow2(k + 1);
    DivModBounds(v, Pow2(k + 1));
    DivModBounds(r, p);
    assert q * Pow2(k + 1) == 2 * q * p;
    if r >= p {
      DivModUnique(v, p, 2 * q + 1, r - p);
    } else {
      DivModUnique(v, p, 2 * q, r);
    }
  }

  /** Four bits put together with shifts and ORs. */
  lemma Nibble(b3: nat, b2: nat, b1: nat, b0: nat)
    requires b3 < 2 && b2 < 2 && b1 < 2 && b0 < 2
    ensures Or(Or(Or(Or(0, Shl(b3, 3)), Shl(b2, 2)), Shl(b1, 1)), Shl(b0, 0)) == 8 * b3 + 4 * b2 + 2 * b1 + b0
  {
    OrNext(b3, b2, 2);
    OrNext(2 * b3 + b2, b1, 1);
    OrNext(2 * (2 * b3 + b2) + b1, b0, 0);
    assert Pow2(0) == 1;
  }

  lemma OrNext(h: nat, b: nat, n: nat)
    requires b < 2
    ensures Or(Shl(h, n + 1), Shl(b, n)) == Shl(2 * h + b, n)
  {
    var p := Pow2(n);
    MulLe(b, 1, p);
    OrShifted(Shl(b, n), h, n + 1);
    ShiftedSum(h, b, p);
  }

  lemma ShiftedSum(h: int, b: int, p: int)
    ensures h * (2 * p) + b * p == (2 * h + b) * p
  {
  }

  /** The 4-bit window of the exponent below bit i. */
  method Window4(scalar: seq<u32>, i: nat) returns (idx: nat)
    requires 4 <= i <= 32 * |scalar|
    ensures idx < 16
    ensures Shr(Value(scalar), i - 4) == 16 * Shr(Value(scalar), i) + idx
  {
    ghost var v := Value(scalar);
    var b3 := GetBit(scalar, i - 1);
    var b2 := GetBit(scalar, i - 2);
    var b1 := GetBit(scalar, i - 3);
    var b0 := GetBit(scalar, i - 4);
    idx := Or(0, Shl(b3, 3));
    idx := Or(idx, Shl(b2, 2));
    idx := Or(idx, Shl(b1, 1));
    idx := Or(idx, Shl(b0, 0));
    Nibble(b3, b2, b1, b0);
    NextBit(v, i - 1);
    NextBit(v, i - 2);
    NextBit(v, i - 3);
    NextBit(v, i - 4);
  }

  // ---------- Fixed-time selection ----------

  /** dst = src if the mask is all ones */
  method CopyConditional(src: array<u32>, dst: array<u32>, mask: u32)
    requires src.Length == dst.Length == N && src != dst && IsMask(mask)
    modifies dst
    ensures dst[..] == if mask == 0 then old(dst[..]) else src[..]
  {
    for i := 0 to N
      invariant forall j :: 0 <= j < N ==> dst[j] == if j < i && mask != 0 then src[j] else old(dst[j])
    {
      Masks(src[i]);
      Masks(dst[i]);
      var b: u32 := And(src[i], mask);
      b := Or(b, And(dst[i], 0xffff_ffff - mask));
      dst[i] := b;
    }
  }

  /** All ones if the low four bits of x are zero, otherwise zero */
  function ZeroToOnes(x: int): (r: u32)
    ensures r == if x % 16 == 0 then 0xffff_ffff else 0
  {
    (x % 16 - 1) / 0x8000_0000 % W
  }

  // ---------- Powers ----------

  /** Entry i of a table is a to the i, from i = 1 on. */
  ghost predicate IsPower(x: array<u32>, m: int, a: nat, i: nat)
    reads x
  {
    Congruent(m, Value(x[..]), Power(a, i))
  }

  ghost predicate Apart(m: array<u32>, b: array<u32>, tbl: seq<array<u32>>) {
    m.Length == b.Length == N && |tbl| == 16 && m != b
    && (forall i :: 0 <= i < 16 ==> tbl[i].Length == N && tbl[i] != m && tbl[i] != b)
    && (forall i, j :: 0 <= i < j < 16 ==> tbl[i] != tbl[j])
  }

  /** z = x * y modulo MOD, as powers of a. z may be x or y. */
  method MulPower(m: array<u32>, x: array<u32>, y: array<u32>, z: array<u32>, ghost a: nat, ghost i: nat, ghost j: nat)
    requires m.Length == x.Length == y.Length == z.Length == N && TopOnes(m[..]) && m != z
    requires IsPower(x, Value(m[..]), a, i) && IsPower(y, Value(m[..]), a, j)
    modifies z
    ensures IsPower(z, Value(m[..]), a, i + j) && Value(z[..]) < Value(m[..])
  {
    ghost var mv, xv, yv := Value(m[..]), Value(x[..]), Value(y[..]);
    ModMul(m, x, 0, y, z);
    MulLe(0, xv, yv);
    DivModBounds(xv * yv, mv);
    CongruentPower(mv, xv, yv, a, i, j);
    ModCongruent(mv, xv * yv);
    CongruentTrans(mv, Value(z[..]), xv * yv, Power(a, i + j));
  }

  /** tbl[0] = tbl[idx], or 1 for idx 0 */
  method Set0ToIdx(tbl: seq<array<u32>>, idx: nat)
    requires |tbl| == 16 && (forall i :: 0 <= i < 16 ==> tbl[i].Length == N) && idx < 16
    requires forall i, j :: 0 <= i < j < 16 ==> tbl[i] != tbl[j]
    modifies tbl[0]
    ensures if idx == 0 then Value(tbl[0][..]) == 1 else tbl[0][..] == tbl[idx][..]
  {
    var one := Small(1);
    Copy(one, tbl[0]);
    assert one[..N] == one[..];
    for i := 1 to 16
      invariant if 0 < idx < i then tbl[0][..] == tbl[idx][..] else Value(tbl[0][..]) == 1
    {
      CopyConditional(tbl[i], tbl[0], ZeroToOnes(i - idx));
    }
  }

  method Table(m: array<u32>, a: array<u32>) returns (tbl: seq<array<u32>>)
    requires m.Length == a.Length == N && TopOnes(m[..])
    ensures |tbl| == 16 && forall i :: 0 <= i < 16 ==> fresh(tbl[i]) && tbl[i].Length == N
    ensures forall i, j :: 0 <= i < j < 16 ==> tbl[i] != tbl[j]
    ensures forall i :: 1 <= i < 16 ==> IsPower(tbl[i], Value(m[..]), Value(a[..]), i)
  {
    ghost var mv, av := Value(m[..]), Value(a[..]);
    var unused := Small(0);
    var first := Clone(a);
    tbl := [unused, first];
    assert Power(av, 1) == av * Power(av, 0) == av;
    CongruentSame(mv, av);
    while |tbl| < 16
      invariant 2 <= |tbl| <= 16 && forall i :: 0 <= i < |tbl| ==> fresh(tbl[i]) && tbl[i].Length == N
      invariant forall i, j :: 0 <= i < j < |tbl| ==> tbl[i] != tbl[j]
      invariant forall i :: 1 <= i < |tbl| ==> IsPower(tbl[i], mv, av, i)
      invariant m[..] == old(m[..]) && a[..] == old(a[..])
    {
      var next := new u32[N];
      MulPower(m, tbl[|tbl| - 1], a, next, av, |tbl| - 1, 1);
      tbl := tbl + [next];
    }
  }

  /** b to the sixteenth */
  method SquareFour(m: array<u32>, b: array<u32>, ghost a: nat, ghost e: nat)
    requires m.Length == b.Length == N && TopOnes(m[..]) && m != b && IsPower(b, Value(m[..]), a, e)
    modifies b
    ensures IsPower(b, Value(m[..]), a, 16 * e) && Value(b[..]) < Value(m[..])
  {
    MulPower(m, b, b, b, a, e, e);
    MulPower(m, b, b, b, a, 2 * e, 2 * e);
    MulPower(m, b, b, b, a, 4 * e, 4 * e);
    MulPower(m, b, b, b, a, 8 * e, 8 * e);
  }

  /** One round of the exponent loop: four squarings, and a multiplication by a table entry. */
  method TakeEntry(m: array<u32>, tbl: seq<array<u32>>, idx: nat, ghost a: nat)
    requires m.Length == N && |tbl| == 16 && idx < 16
    requires (forall i :: 0 <= i < 16 ==> tbl[i].Length == N && tbl[i] != m) && forall i, j ::
      0 <= i < j < 16 ==> tbl[i] != tbl[j]
    requires forall i :: 1 <= i < 16 ==> IsPower(tbl[i], Value(m[..]), a, i)
    modifies tbl[0]
    ensures IsPower(tbl[0], Value(m[..]), a, idx)
  {
    Set0ToIdx(tbl, idx);
    CongruentSame(Value(m[..]), 1);
    assert Power(a, 0) == 1;
  }

  method MulEntry(m: array<u32>, b: array<u32>, tbl: seq<array<u32>>, idx: nat, ghost a: nat, ghost e: nat)
    requires Apart(m, b, tbl) && TopOnes(m[..]) && idx < 16 && IsPower(b, Value(m[..]), a, e)
    requires forall i :: 1 <= i < 16 ==> IsPower(tbl[i], Value(m[..]), a, i)
    modifies tbl[0]
    ensures IsPower(tbl[0], Value(m[..]), a, e + idx) && Value(tbl[0][..]) < Value(m[..])
  {
    TakeEntry(m, tbl, idx, a);
    MulPower(m, b, tbl[0], tbl[0], a, e, idx);
  }

  method WindowRound(m: array<u32>, b: array<u32>, tbl: seq<array<u32>>, idx: nat, ghost a: nat, ghost e: nat)
    requires Apart(m, b, tbl) && TopOnes(m[..]) && idx < 16 && IsPower(b, Value(m[..]), a, e)
    requires forall i :: 1 <= i < 16 ==> IsPower(tbl[i], Value(m[..]), a, i)
    modifies b, tbl[0]
    ensures m[..] == old(m[..]) && IsPower(b, Value(m[..]), a, 16 * e + idx) && Value(b[..]) < Value(m[..])
    ensures forall i :: 1 <= i < 16 ==> IsPower(tbl[i], Value(m[..]), a, i)
  {
    SquareFour(m, b, a, e);
    MulEntry(m, b, tbl, idx, a, 16 * e);
    CopyConditional(tbl[0], b, 0xffff_ffff - ZeroToOnes(idx));
  }

  /** b = a to the power n - 2 modulo MOD, where n is the order of the base point. */
  method ModInv(m: array<u32>, a: array<u32>, b: array<u32>)
    requires m.Length == a.Length == b.Length == N && m != b && m[7] == 0xffff_ffff
    modifies b
    ensures Value(m[..]) > 0
    ensures Value(b[..]) ==
      Power(old(Value(a[..])), 0xffff_ffff_0000_0000_ffff_ffff_ffff_ffff_bce6_faad_a717_9e84_f3b9_cac2_fc63_2551 - 2)
      % Value(m[..])
  {
    ExponentValue();
    ModPower(m, a, b, N_MIN_2);
  }

  /** The same with any exponent e. */
  method ModPower(m: array<u32>, a: array<u32>, b: array<u32>, e: seq<u32>)
    requires m.Length == a.Length == b.Length == N == |e| && m != b && m[7] == 0xffff_ffff
    modifies b
    ensures Value(m[..]) > 0
    ensures Value(b[..]) == Power(old(Value(a[..])), Value(e)) % Value(m[..])
  {
    ghost var av, start := Value(a[..]), 32 * |e|;
    var tbl := Table(m, a);
    var one := Small(1);
    Copy(one, b);
    assert one[..N] == one[..];
    PowerStart(Value(m[..]), av, e);
    var i := 32 * |e|;
    ghost var left := 8 * |e|;
    while i > 0
      invariant left >= 0 && i == 4 * left <= start && m[..] == old(m[..])
      invariant Ready(m, b, tbl, av, Shr(Value(e), i)) && (i < start ==> Value(b[..]) < Value(m[..]))
    {
      PowerStep(m, b, tbl, e, i, av);
      i, left := i - 4, left - 1;
    }
    assert Pow2(0) == 1;
    CongruentMod(Value(m[..]), Value(b[..]), Power(av, Value(e)));
  }

  /** b is the power of a with exponent k, next to the table of powers. */
  ghost predicate Ready(m: array<u32>, b: array<u32>, tbl: seq<array<u32>>, a: nat, k: nat)
    reads m, b, set x | x in tbl
  {
    Apart(m, b, tbl) && TopOnes(m[..]) && IsPower(b, Value(m[..]), a, k)
    && forall i :: 1 <= i < 16 ==> IsPower(tbl[i], Value(m[..]), a, i)
  }

  method PowerStep(m: array<u32>, b: array<u32>, tbl: seq<array<u32>>, e: seq<u32>, i: nat, ghost a: nat)
    requires 4 <= i <= 32 * |e| && Ready(m, b, tbl, a, Shr(Value(e), i))
    modifies b, tbl[0]
    ensures m[..] == old(m[..]) && Ready(m, b, tbl, a, Shr(Value(e), i - 4)) && Value(b[..]) < Value(m[..])
  {
    var idx := Window4(e, i);
    WindowRound(m, b, tbl, idx, a, Shr(Value(e), i));
  }

  /** No exponent bits are left above the top digit. */
  lemma PowerStart(m: int, a: nat, e: seq<u32>)
    ensures Congruent(m, 1, Power(a, Shr(Value(e), 32 * |e|)))
  {
    ValueBound(e);
    RadixPow2(|e|);
    DivModUnique(Value(e), Pow2(32 * |e|), 0, Value(e));
    assert Power(a, 0) == 1;
    CongruentSame(m, 1);
  }
}
