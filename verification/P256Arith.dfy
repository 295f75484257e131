/** Addition, subtraction, halving and tests on eight digits (3rd/encrypt/src/p256.c). */
module P256Arith {
  import opened Bits
  import opened P256Number
  import opened P256Digits
  import opened P256Modular

  /** out = in, less MOD if that is not negative */
  method Mod(m: array<u32>, src: array<u32>, dst: array<u32>)
    requires m.Length == src.Length == dst.Length == N && m != dst
    modifies dst
    ensures var v := Value(old(src[..]));
      Value(dst[..]) == if v < Value(m[..]) then v else v - Value(m[..])
  {
    if dst != src {
      Copy(src, dst);
    }
    assert src[..N] == src[..];
    assert dst[..N] == dst[..] == old(src[..]);
    Settle(m, dst);
    assert dst[..N] == dst[..];
  }

  /** That is the remainder exactly for numbers below twice the modulus. */
  lemma ModIff(v: nat, m: nat)
    requires m > 0
    ensures (if v < m then v else v - m) == v % m <==> v < 2 * m
  {
    DivModBounds(v, m);
    if v < m {
      DivModUnique(v, m, 0, v);
    } else if v < 2 * m {
      DivModUnique(v, m, 1, v - m);
    }
  }

  /** What a loop that writes a[] + b[] * f has done after i digits. */
  ghost predicate Written(out: seq<u32>, a: seq<u32>, b: seq<u32>, f: int, i: nat, carry: int) {
    |a| == |b| == N && |out| == i <= N
    && Value(out) + carry * Radix(i) == Value(a[..i]) + Value(b[..i]) * f
  }

  lemma WrittenNext(out: seq<u32>, a: seq<u32>, b: seq<u32>, f: int, i: nat, carry: int, t: int)
    requires i < N && Written(out, a, b, f, i, carry) && t == carry + a[i] + b[i] * f
    ensures Written(out + [t % W], a, b, f, i + 1, t / W)
  {
    ValueAppend(out, t % W);
    CarryStep(Value(out), carry, Value(a[..i]) + Value(b[..i]) * f, a[i] + b[i] * f, i);
    NextTotal(a, b, f, i);
  }

  lemma WrittenAll(out: seq<u32>, a: seq<u32>, b: seq<u32>, f: int, carry: int)
    requires Written(out, a, b, f, N, carry)
    ensures Value(out) + carry * Radix(8) == Value(a) + Value(b) * f && 0 <= Value(out) < Radix(8)
  {
    assert a[..N] == a && b[..N] == b;
    ValueBound(out);
  }

  /** c = a + b. Returns the carry. c may be a or b. */
  method Add(a: array<u32>, b: array<u32>, c: array<u32>) returns (carry: u32)
    requires a.Length == b.Length == c.Length == N
    modifies c
    ensures carry <= 1
    ensures Value(c[..]) + carry * Radix(8) == old(Value(a[..]) + Value(b[..]))
  {
    carry := 0;
    ghost var av, bv := a[..], b[..];
    for i := 0 to N
      invariant carry <= 1 && Written(c[..i], av, bv, 1, i, carry)
      invariant forall j :: i <= j < N ==> a[j] == av[j] && b[j] == bv[j]
    {
      ghost var out, was := c[..i], carry;
      var t := carry + a[i] + b[i];
      c[i] := t % W;
      carry := t / W;
      WrittenNext(out, av, bv, 1, i, was, t);
      assert c[..i + 1] == out + [t % W];
    }
    WrittenAll(c[..N], av, bv, 1, carry);
    assert c[..N] == c[..];
  }

  /** c = a - b, if there is a c. Returns the borrow, 0 or -1. c may be a or b. */
  method Sub(a: array<u32>, b: array<u32>, c: array?<u32>) returns (borrow: int)
    requires a.Length == b.Length == N && (c != null ==> c.Length == N)
    modifies c
    ensures borrow == if old(Value(a[..]) < Value(b[..])) then -1 else 0
    ensures c != null ==> Value(c[..]) + borrow * Radix(8) == old(Value(a[..]) - Value(b[..]))
  {
    borrow := 0;
    ghost var av, bv := a[..], b[..];
    ghost var out: seq<u32> := [];
    for i := 0 to N
      invariant -1 <= borrow <= 0 && Written(out, av, bv, -1, i, borrow)
      invariant forall j :: i <= j < N ==> a[j] == av[j] && b[j] == bv[j]
      invariant c != null ==> c[..i] == out
    {
      ghost var was := borrow;
      var t := borrow + a[i] - b[i];
      if c != null {
        c[i] := t % W;
      }
      borrow := t / W;
      WrittenNext(out, av, bv, -1, i, was, t);
      out := out + [t % W];
    }
    WrittenAll(out, av, bv, -1, borrow);
    ValueBound(av);
    ValueBound(bv);
    assert c != null ==> c[..N] == c[..];
  }

  /** The low digit tells the parity. */
  method IsEven(a: array<u32>) returns (r: bool)
    requires a.Length == N
    ensures r == (Value(a[..]) % 2 == 0)
  {
    r := And(a[0], 1) == 0;
    AndLowMask(a[0], 1);
    assert Pow2(1) == 2;
    ValueFirst(a[..]);
    DivModUnique(Value(a[..]), 2, a[0] / 2 + W / 2 * Value(a[..][1..]), a[0] % 2);
  }

  method IsZero(a: array<u32>) returns (r: bool)
    requires a.Length == N
    ensures r == (Value(a[..]) == 0)
  {
    var result := 0;
    for i := 0 to N
      invariant result == 0 <==> Value(a[..i]) == 0
    {
      OrZero(result, a[i]);
      result := Or(result, a[i]);
      assert a[..][..i] == a[..i] && a[..][..i + 1] == a[..i + 1];
      ValueTake(a[..], i);
      if a[i] > 0 {
        MulLe(1, a[i], Radix(i));
      }
    }
    assert a[..N] == a[..];
    r := result == 0;
  }

  /** A digit shifted right, with a bit shifted in from above. */
  function Halved(digit: u32, above: u32): (r: u32)
    ensures 2 * r == digit - digit % 2 + W * (above % 2)
  {
    Pow2Values();
    OrDisjoint(digit / 2, above % 2, 31);
    ShiftedOut(above);
    Or(digit / 2, Shl(above, 31) % W)
  }

  lemma ShiftedOut(above: u32)
    ensures Shl(above, 31) % W == Shl(above % 2, 31)
  {
    Pow2Values();
    DivModUnique(Shl(above, 31), W, above / 2, Shl(above % 2, 31));
  }

  /** i digits are halved; the low bit of the next digit is accounted for. */
  ghost predicate Halving(out: seq<u32>, a: seq<u32>, i: nat, bit: int) {
    |a| == N && |out| == i <= N && 2 * Value(out) + a[0] % 2 == Value(a[..i]) + bit * Radix(i)
  }

  /** All digits below i are halved. */
  ghost predicate HalvedTo(out: seq<u32>, a: seq<u32>, i: nat) { |a| == N && i < N && Halving(out, a, i, a[i] % 2) }

  lemma HalvingNext(out: seq<u32>, a: seq<u32>, i: nat, above: u32)
    requires |a| == N && i < N && Halving(out, a, i, a[i] % 2)
    ensures Halving(out + [Halved(a[i], above)], a, i + 1, above % 2)
  {
    var d, r := Halved(a[i], above), Radix(i);
    ValueAppend(out, d);
    ValueTake(a, i);
    HalvedTotal(d, a[i], a[i] % 2, above % 2, r);
  }

  lemma HalvedTotal(d: int, digit: int, low: int, above: int, r: int)
    requires 2 * d == digit - low + W * above
    ensures 2 * (d * r) == digit * r - low * r + above * (W * r)
  {
    assert 2 * (d * r) == (2 * d) * r == (digit - low + W * above) * r;
    assert (digit - low + W * above) * r == digit * r - low * r + W * above * r;
  }

  method HalveDigit(a: array<u32>, b: array<u32>, i: nat, ghost av: seq<u32>)
    requires a.Length == b.Length == |av| == N && i + 1 < N && HalvedTo(b[..i], av, i)
    requires forall j :: i <= j < N ==> a[j] == av[j]
    modifies b
    ensures HalvedTo(b[..i + 1], av, i + 1) && forall j :: i < j < N ==> a[j] == av[j]
  {
    ghost var out := b[..i];
    b[i] := Halved(a[i], a[i + 1]);
    HalvingNext(out, av, i, av[i + 1]);
    assert b[..i + 1] == out + [b[i]];
  }

  /** b = a / 2 with a bit shifted in at the top. b may be a. */
  method Shr1(a: array<u32>, highbit: u32, b: array<u32>)
    requires a.Length == b.Length == N && highbit <= 1
    modifies b
    ensures Value(b[..]) == (old(Value(a[..])) + highbit * Radix(8)) / 2
  {
    ghost var av := a[..];
    assert b[..0] == [] && av[..0] == [];
    for i := 0 to N - 1
      invariant HalvedTo(b[..i], av, i)
      invariant forall j :: i <= j < N ==> a[j] == av[j]
    {
      HalveDigit(a, b, i, av);
    }
    ghost var out := b[..7];
    b[7] := Halved(a[7], highbit);
    HalvingNext(out, av, 7, highbit);
    assert b[..] == out + [b[7]];
    HalvingAll(b[..], av, highbit);
  }

  lemma HalvingAll(out: seq<u32>, a: seq<u32>, bit: u32)
    requires bit <= 1 && Halving(out, a, N, bit % 2)
    ensures Value(out) == (Value(a) + bit * Radix(8)) / 2
  {
    assert a[..8] == a;
    DivModUnique(Value(a) + bit * Radix(8), 2, Value(out), a[0] % 2);
  }
}
