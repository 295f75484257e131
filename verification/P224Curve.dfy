/** Inversion and point doubling of 3rd/encrypt/src/p224_ec.c. */
module P224Curve {
  import opened Bits
  import opened Modular
  import opened Limbs
  import opened P224Field
  import opened Jacobian

  /** A field element as the routines pass it on. */
  ghost predicate Element(x: array<u32>)
    reads x
  {
    x.Length == N && Below(x[..], BIT29)
  }

  lemma {:induction false} NumberPositive(s: seq<u32>)
    ensures Number(s) >= 0
  {
    if s != [] {
      NumberPositive(s[..|s| - 1]);
      WeightPositive(|s| - 1);
      MulLe(0, s[|s| - 1], Weight(|s| - 1));
    }
  }

  lemma {:induction false} WeightPositive(i: nat)
    ensures Weight(i) > 0
  {
    if i > 0 {
      WeightPositive(i - 1);
    }
  }

  /** Mul, as far as values are concerned. */
  method Multiply(out: array<u32>, a: array<u32>, b: array<u32>)
    requires out.Length == a.Length == b.Length == N && Multipliable(a[..], b[..])
    modifies out
    ensures Reduced(out[..]) && Congruent(P, Number(out[..]), old(Number(a[..]) * Number(b[..])))
  {
    Mul(out, a, b);
  }

  /** Square, as far as values are concerned. */
  method SquareOnce(out: array<u32>, a: array<u32>)
    requires out.Length == a.Length == N && Below(a[..], BIT29)
    modifies out
    ensures Reduced(out[..]) && Congruent(P, Number(out[..]), old(Number(a[..]) * Number(a[..])))
  {
    Square(out, a);
  }

  // ---------- Inversion ----------

  /** x is the power of a with exponent e, modulo the prime. */
  ghost predicate IsPower(x: array<u32>, a: nat, e: nat)
    reads x
  {
    Element(x) && Congruent(P, Number(x[..]), Power(a, e))
  }

  method MulPower(out: array<u32>, x: array<u32>, y: array<u32>, ghost a: nat, ghost i: nat, ghost j: nat)
    requires out.Length == N && IsPower(x, a, i) && IsPower(y, a, j)
    modifies out
    ensures IsPower(out, a, i + j)
  {
    ghost var xv, yv := Number(x[..]), Number(y[..]);
    Multiply(out, x, y);
    CongruentPower(P, xv, yv, a, i, j);
    CongruentTrans(P, Number(out[..]), xv * yv, Power(a, i + j));
  }

  method SquarePower(out: array<u32>, x: array<u32>, ghost a: nat, ghost i: nat)
    requires out.Length == N && IsPower(x, a, i)
    modifies out
    ensures IsPower(out, a, 2 * i)
  {
    ghost var xv := Number(x[..]);
    SquareOnce(out, x);
    CongruentPower(P, xv, xv, a, i, i);
    CongruentTrans(P, Number(out[..]), xv * xv, Power(a, i + i));
  }

  /** n squarings */
  method SquareTimes(x: array<u32>, n: nat, ghost a: nat, ghost e: nat)
    requires IsPower(x, a, e)
    modifies x
    ensures IsPower(x, a, e * Pow2(n))
  {
    for i := 0 to n
      invariant IsPower(x, a, e * Pow2(i))
    {
      SquarePower(x, x, a, e * Pow2(i));
      assert 2 * (e * Pow2(i)) == e * Pow2(i + 1);
    }
  }

  /** y = x squared n times, the first time out of x; out = y * z. */
  method ShiftMul(out: array<u32>, y: array<u32>, x: array<u32>, z: array<u32>, n: nat,
                  ghost a: nat, ghost e: nat, ghost d: nat)
    requires out.Length == y.Length == N && y != z && n > 0 && IsPower(x, a, e) && IsPower(z, a, d)
    modifies out, y
    ensures IsPower(out, a, e * Pow2(n) + d)
  {
    SquarePower(y, x, a, e);
    SquareTimes(y, n - 1, a, 2 * e);
    assert 2 * e * Pow2(n - 1) == e * Pow2(n);
    MulPower(out, y, z, a, e * Pow2(n), d);
  }

  /** n ones are appended to m ones. */
  method AppendOnes(out: array<u32>, y: array<u32>, x: array<u32>, z: array<u32>, m: nat, n: nat, ghost a: nat)
    requires out.Length == y.Length == N && y != z && n > 0 && IsPower(x, a, Ones(m)) && IsPower(z, a, Ones(n))
    modifies out, y
    ensures IsPower(out, a, Ones(m + n))
  {
    ShiftMul(out, y, x, z, n, a, Ones(m), Ones(n));
    OnesJoin(m, n);
  }

  /** One bit more: a squaring and a multiplication by a. */
  method NextOnes(f: array<u32>, inp: array<u32>, n: nat, ghost a: nat)
    requires f != inp && IsPower(f, a, Ones(n)) && IsPower(inp, a, 1)
    modifies f
    ensures IsPower(f, a, Ones(n + 1))
  {
    SquarePower(f, f, a, Ones(n));
    MulPower(f, f, inp, a, 2 * Ones(n), 1);
  }

  /** 96 ones in f3, 24 in f2 and 6 in f1. */
  method LowPowers(inp: array<u32>, f1: array<u32>, f2: array<u32>, f3: array<u32>, f4: array<u32>, ghost a: nat)
    requires f1.Length == f2.Length == f3.Length == f4.Length == N && IsPower(inp, a, 1)
    requires inp != f1 && inp != f2 && inp != f3 && inp != f4
    requires f1 != f2 && f1 != f3 && f1 != f4 && f2 != f3 && f2 != f4 && f3 != f4
    modifies f1, f2, f3, f4
    ensures IsPower(f1, a, Ones(6)) && IsPower(f2, a, Ones(24)) && IsPower(f3, a, Ones(96))
  {
    SquarePower(f1, inp, a, 1);
    MulPower(f1, f1, inp, a, 2, 1);
    NextOnes(f1, inp, 2, a);
    AppendOnes(f1, f2, f1, f1, 3, 3, a);
    AppendOnes(f2, f2, f1, f1, 6, 6, a);
    AppendOnes(f2, f3, f2, f2, 12, 12, a);
    AppendOnes(f3, f3, f2, f2, 24, 24, a);
    AppendOnes(f3, f4, f3, f3, 48, 48, a);
  }

  /** The exponent of the inversion is the prime less two. */
  lemma ExponentValue()
    ensures P > 2 && Ones(127) * Pow2(97) + Ones(96) == P - 2
  {
    Pow2Values();
    Pow2Add(64, 32);
    Pow2Add(64, 64);
    Pow2Add(128, 96);
    TopOnes(127, 97);
  }

  lemma TopOnes(m: nat, n: nat)
    requires n > 0
    ensures Ones(m) * Pow2(n) + Ones(n - 1) == Pow2(m + n) - Pow2(n - 1) - 1
  {
    Pow2Add(m, n);
    LessOne(Pow2(m), Pow2(n));
  }

  /** out = in to the prime less two. out may be in. */
  method Invert(out: array<u32>, inp: array<u32>, ghost a: nat)
    requires out.Length == N && Element(inp) && a == Number(inp[..])
    modifies out
    ensures P > 2 && IsPower(out, a, P - 2)
  {
    var f1, f2, f3, f4 := new u32[N], new u32[N], new u32[N], new u32[N];
    FirstPower(a);
    LowPowers(inp, f1, f2, f3, f4, a);
    HighPowers(f1, f2, f3, f4, a);
    NextOnes(f1, inp, 126, a);
    ShiftMul(out, f1, f1, f3, 97, a, Ones(127), Ones(96));
    ExponentValue();
  }

  lemma FirstPower(a: nat)
    ensures Congruent(P, a, Power(a, 1))
  {
    assert Power(a, 1) == a * Power(a, 0) == a;
    CongruentSame(P, a);
  }

  /** 126 ones in f1. */
  method HighPowers(f1: array<u32>, f2: array<u32>, f3: array<u32>, f4: array<u32>, ghost a: nat)
    requires f4.Length == N
    requires f1 != f2 && f1 != f3 && f1 != f4 && f2 != f3 && f2 != f4 && f3 != f4
    requires IsPower(f1, a, Ones(6)) && IsPower(f2, a, Ones(24)) && IsPower(f3, a, Ones(96))
    modifies f1, f2, f4
    ensures IsPower(f1, a, Ones(126))
  {
    AppendOnes(f2, f4, f3, f2, 96, 24, a);
    AppendOnes(f1, f2, f2, f1, 120, 6, a);
  }

  // ---------- Point doubling ----------

  /** x has limbs below 2^29 and stands for v modulo the prime. */
  ghost predicate Is(x: array<u32>, v: int)
    reads x
  {
    Element(x) && Congruent(P, Number(x[..]), v)
  }

  /** The same with the tighter bounds that a product has. */
  ghost predicate IsProduct(x: array<u32>, v: int)
    reads x
  {
    x.Length == N && Reduced(x[..]) && Congruent(P, Number(x[..]), v)
  }

  method MulIs(out: array<u32>, a: array<u32>, b: array<u32>, ghost u: int, ghost v: int)
    requires out.Length == N && Is(a, u) && Is(b, v)
    modifies out
    ensures IsProduct(out, u * v) && Is(out, u * v)
  {
    ghost var x, y := Number(a[..]), Number(b[..]);
    Multiply(out, a, b);
    CongruentMul(P, x, u, y, v);
    CongruentTrans(P, Number(out[..]), x * y, u * v);
  }

  method SquareIs(out: array<u32>, a: array<u32>, ghost u: int)
    requires out.Length == N && Is(a, u)
    modifies out
    ensures IsProduct(out, u * u) && Is(out, u * u)
  {
    ghost var x := Number(a[..]);
    SquareOnce(out, a);
    CongruentMul(P, x, u, x, u);
    CongruentTrans(P, Number(out[..]), x * x, u * u);
  }

  method ReduceIs(a: array<u32>, ghost v: int)
    requires a.Length == N && Reducible(a[..]) && Congruent(P, Number(a[..]), v)
    modifies a
    ensures Is(a, v)
  {
    ghost var x := Number(a[..]);
    Reduce(a);
    CongruentTrans(P, Number(a[..]), x, v);
  }

  /** out = a - b, reduced */
  method SubtractIs(out: array<u32>, a: array<u32>, b: array<u32>, ghost u: int, ghost v: int)
    requires out.Length == N && Is(a, u) && Is(b, v)
    modifies out
    ensures Is(out, u - v)
  {
    ghost var av, bv := a[..], b[..];
    assert forall i :: 0 <= i < N ==> a[i] == av[i] < BIT29 && b[i] == bv[i] < BIT29;
    Subtract(out, a, b);
    CongruentAdd(P, Number(av), u, Number(bv), v);
    CongruentTrans(P, Number(out[..]), Number(av) - Number(bv), u - v);
    ReduceIs(out, u - v);
  }

  method AddIs(out: array<u32>, a: array<u32>, b: array<u32>, ghost u: int, ghost v: int)
    requires out.Length == N && Is(a, u) && Is(b, v)
    modifies out
    ensures Below(out[..], BIT30 - 1) && Congruent(P, Number(out[..]), u + v)
  {
    ghost var av, bv := a[..], b[..];
    assert forall i :: 0 <= i < N ==> a[i] == av[i] < BIT29 && b[i] == bv[i] < BIT29;
    Add(out, a, b);
    assert forall i :: 0 <= i < N ==> out[i] == av[i] + bv[i] * 1;
    EvalCombined(Weight, out[..], av, bv, 1);
    CongruentAdd(P, Number(av), u, Number(bv), v);
  }

  /** a = a * f, limb by limb, for limbs that stay below 2^32. */
  ghost predicate Multiplied(now: seq<int>, was: seq<int>, f: int) {
    |now| == |was| == N && forall i :: 0 <= i < N ==> now[i] == was[i] * f
  }

  lemma MultipliedNumber(now: seq<int>, was: seq<int>, f: int, v: int)
    requires Multiplied(now, was, f) && Congruent(P, Number(was), v)
    ensures Congruent(P, Number(now), f * v)
  {
    var zeros := seq(N, _ => 0);
    EvalCombined(Weight, now, zeros, was, f);
    EvalZeros(Weight, N);
    CongruentScale(P, Number(was), v, f);
  }

  /** a += a << 1, then Reduce: three times a sum of two elements. */
  method Triple(a: array<u32>, ghost v: int)
    requires a.Length == N && Below(a[..], BIT30 - 1) && Congruent(P, Number(a[..]), v)
    modifies a
    ensures Is(a, 3 * v)
  {
    ghost var was := a[..];
    assert forall i :: 0 <= i < N ==> a[i] == was[i] < BIT30 - 1;
    for i := 0 to N
      invariant forall j :: 0 <= j < N ==> a[j] == if j < i then was[j] * 3 else was[j]
    {
      a[i] := a[i] + a[i] * 2;
    }
    MultipliedNumber(a[..], was, 3, v);
    ReduceIs(a, 3 * v);
  }

  /** out = a << 3, then Reduce. The limbs of a product leave just enough room for this:
      they exceed the bound that the comment before Reduce gives. */
  method TimesEight(out: array<u32>, a: array<u32>, ghost v: int)
    requires out.Length == N && IsProduct(a, v)
    modifies out
    ensures Is(out, 8 * v)
  {
    ghost var was := a[..];
    Eightfold(was);
    for i := 0 to N
      invariant forall j :: 0 <= j < i ==> out[j] == was[j] * 8
      invariant forall j :: i <= j < N ==> a[j] == was[j]
    {
      out[i] := a[i] * 8;
    }
    MultipliedNumber(out[..], was, 8, v);
    ReduceIs(out, 8 * v);
  }

  lemma Eightfold(s: seq<int>)
    requires Reduced(s)
    ensures forall i :: 0 <= i < N ==> 0 <= s[i] * 8 <= 0xffff_fff0
  {
  }

  /** a <<= 2, then Reduce */
  method TimesFour(a: array<u32>, ghost v: int)
    requires Is(a, v)
    modifies a
    ensures Is(a, 4 * v)
  {
    ghost var was := a[..];
    assert forall i :: 0 <= i < N ==> a[i] == was[i] < BIT29;
    for i := 0 to N
      invariant forall j :: 0 <= j < N ==> a[j] == if j < i then was[j] * 4 else was[j]
    {
      a[i] := a[i] * 4;
    }
    MultipliedNumber(a[..], was, 4, v);
    ReduceIs(a, 4 * v);
  }

  class Point {
    const x: array<u32>
    const y: array<u32>
    const z: array<u32>

    constructor ()
      ensures x.Length == y.Length == z.Length == N && fresh(x) && fresh(y) && fresh(z) && x != y && x != z && y != z
    {
      x, y, z := new u32[N], new u32[N], new u32[N];
    }

    /** The coordinates stand for these numbers. */
    ghost predicate At(u: int, v: int, w: int)
      reads x, y, z
    {
      x != y && x != z && y != z && Is(x, u) && Is(y, v) && Is(z, w)
    }
  }

  /** alpha = 3 * (x - delta) * (x + delta) */
  method AlphaOf(a: Point, delta: array<u32>, ghost x: int, ghost z: int) returns (alpha: array<u32>)
    requires Is(a.x, x) && Is(delta, z * z)
    ensures fresh(alpha) && Is(alpha, Alpha(x, z))
  {
    var t := new u32[N];
    alpha := new u32[N];
    AddIs(t, a.x, delta, x, z * z);
    Triple(t, x + z * z);
    SubtractIs(alpha, a.x, delta, x, z * z);
    MulIs(alpha, alpha, t, x - z * z, 3 * (x + z * z));
    MulSwap(x - z * z, 3, x + z * z);
  }

  /** out.z = (y + z)^2 - gamma - delta */
  method DoubleToZ(out: Point, a: Point, gamma: array<u32>, delta: array<u32>, ghost y: int, ghost z: int, ghost x: int)
    requires Is(a.y, y) && Is(a.z, z) && Is(gamma, y * y) && Is(delta, z * z)
    requires out.z.Length == N && out.z != gamma && out.z != delta
    modifies out.z
    ensures Is(out.z, DoubleZ(x, y, z))
  {
    AddIs(out.z, a.y, a.z, y, z);
    ReduceIs(out.z, y + z);
    SquareIs(out.z, out.z, y + z);
    SubtractIs(out.z, out.z, gamma, (y + z) * (y + z), y * y);
    SubtractIs(out.z, out.z, delta, (y + z) * (y + z) - y * y, z * z);
  }

  /** out = 2 * a, by the formulas dbl-2001-b. out may be a. */
  method DoubleJacobian(out: Point, a: Point, ghost x: int, ghost y: int, ghost z: int)
    requires a.At(x, y, z) && out.x.Length == out.y.Length == out.z.Length == N
    requires out.x != out.y && out.x != out.z && out.y != out.z
    modifies out.x, out.y, out.z
    ensures out.At(DoubleX(x, y, z), DoubleY(x, y, z), DoubleZ(x, y, z))
  {
    ghost var al, b, g, u := Alpha(x, z), x * (y * y), y * y, DoubleX(x, y, z);
    assert u == al * al - 8 * b && DoubleY(x, y, z) == al * (4 * b - u) - 8 * (g * g);
    var delta, gamma, beta := new u32[N], new u32[N], new u32[N];
    SquareIs(delta, a.z, z);
    SquareIs(gamma, a.y, y);
    MulIs(beta, a.x, gamma, x, y * y);
    var alpha := AlphaOf(a, delta, x, z);
    DoubleToZ(out, a, gamma, delta, y, z, x);
    DoubleToXY(out, alpha, beta, gamma, delta, al, b, g, u, DoubleY(x, y, z));
  }

  /** out.x = alpha^2 - 8 * beta, out.y = alpha * (4 * beta - out.x) - 8 * gamma^2 */
  method DoubleToXY(out: Point, alpha: array<u32>, beta: array<u32>, gamma: array<u32>, delta: array<u32>,
                    ghost a: int, ghost b: int, ghost g: int, ghost u: int, ghost v: int)
    requires Is(alpha, a) && IsProduct(beta, b) && Is(beta, b) && Is(gamma, g) && delta.Length == N
    requires alpha != beta && alpha != gamma && alpha != delta && beta != gamma && beta != delta && gamma != delta
    requires out.x.Length == out.y.Length == N && out.x != out.y
    requires alpha != out.x && beta != out.x && gamma != out.x && delta != out.x
    requires alpha != out.y && beta != out.y && gamma != out.y && delta != out.y
    requires u == a * a - 8 * b && v == a * (4 * b - u) - 8 * (g * g)
    modifies out.x, out.y, beta, gamma, delta
    ensures Is(out.x, u) && Is(out.y, v)
  {
    TimesEight(delta, beta, b);
    SquareIs(out.x, alpha, a);
    SubtractIs(out.x, out.x, delta, a * a, 8 * b);
    TimesFour(beta, b);
    SubtractIs(beta, beta, out.x, 4 * b, u);
    SquareIs(gamma, gamma, g);
    TimesEight(gamma, gamma, g * g);
    MulIs(out.y, alpha, beta, a, 4 * b - u);
    SubtractIs(out.y, out.y, gamma, a * (4 * b - u), 8 * (g * g));
  }
}
