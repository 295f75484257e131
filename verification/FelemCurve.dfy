/** Inversion and point doubling of 3rd/encrypt/src/p256_ec.c, in Montgomery form. */
module FelemCurve {
  import opened Bits
  import opened Modular
  import opened FelemField
  import opened FelemProduct
  import opened Jacobian

  /** The inverse of 2^257 modulo the prime */
  const R_INVERSE: int := 0x7fff_ffff_0000_0001_ffff_fffe_8000_0001_0000_0000_ffff_ffff_0000_0001_8000_0000

  lemma Inverse()
    ensures Congruent(P, Weight(9) * R_INVERSE, 1)
  {
    Weights();
    CongruentBy(P, Weight(9) * R_INVERSE, 1,
      0xffff_ffff_0000_0002_0000_0000_0000_0000_0000_0001_0000_0000_0000_0000_0000_0001);
  }

  /** What limbs in Montgomery form stand for: their number divided by 2^257. */
  ghost function Value(s: seq<int>): int { Number(s) * R_INVERSE }

  /** x stands for v modulo the prime. */
  ghost predicate Holds(x: array<u32>, v: int)
    reads x
  {
    x.Length == N && Loose(x[..]) && Congruent(P, Value(x[..]), v)
  }

  /** The same with the bounds that every result has. */
  ghost predicate Is(x: array<u32>, v: int)
    reads x
  {
    x.Length == N && Elem(x[..]) && Congruent(P, Value(x[..]), v)
  }

  // ---------- Montgomery form ----------

  /** If out * w = x * y, and w * s = 1, then out * s = (x * s) * (y * s). */
  lemma MontgomeryProduct(out: int, w: int, s: int, x: int, y: int)
    requires Congruent(P, out * w, x * y) && Congruent(P, w * s, 1)
    ensures Congruent(P, out * s, x * s * (y * s))
  {
    CongruentScale(P, w * s, 1, out * s);
    assert w * s * (out * s) == out * w * (s * s) && 1 * (out * s) == out * s;
    CongruentScale(P, out * w, x * y, s * s);
    Regroup(x, s, y, s);
    CongruentSym(P, out * w * (s * s), out * s);
    CongruentTrans(P, out * s, out * w * (s * s), x * y * (s * s));
  }

  lemma ProductValue(out: seq<int>, x: seq<int>, y: seq<int>, u: int, v: int)
    requires Congruent(P, Number(out) * Weight(9), Number(x) * Number(y))
    requires Congruent(P, Value(x), u) && Congruent(P, Value(y), v)
    ensures Congruent(P, Value(out), u * v)
  {
    Inverse();
    MontgomeryProduct(Number(out), Weight(9), R_INVERSE, Number(x), Number(y));
    CongruentMul(P, Value(x), u, Value(y), v);
    CongruentTrans(P, Value(out), Value(x) * Value(y), u * v);
  }

  lemma LinearValue(out: seq<int>, x: int, y: int, u: int, v: int)
    requires Congruent(P, Number(out), x + y)
    requires Congruent(P, x * R_INVERSE, u) && Congruent(P, y * R_INVERSE, v)
    ensures Congruent(P, Value(out), u + v)
  {
    CongruentScale(P, Number(out), x + y, R_INVERSE);
    CongruentAdd(P, x * R_INVERSE, u, y * R_INVERSE, v);
    CongruentTrans(P, Value(out), (x + y) * R_INVERSE, u + v);
  }

  lemma DifferenceValue(out: seq<int>, x: int, y: int, u: int, v: int)
    requires Congruent(P, Number(out), x - y)
    requires Congruent(P, x * R_INVERSE, u) && Congruent(P, y * R_INVERSE, v)
    ensures Congruent(P, Value(out), u - v)
  {
    CongruentScale(P, Number(out), x - y, R_INVERSE);
    CongruentAdd(P, x * R_INVERSE, u, y * R_INVERSE, v);
    CongruentTrans(P, Value(out), (x - y) * R_INVERSE, u - v);
  }

  lemma ScaledValue(out: seq<int>, x: int, u: int, f: int)
    requires Congruent(P, Number(out), x * f) && Congruent(P, x * R_INVERSE, u)
    ensures Congruent(P, Value(out), f * u)
  {
    CongruentScale(P, Number(out), x * f, R_INVERSE);
    CongruentScale(P, x * R_INVERSE, u, f);
    Swap(x, R_INVERSE, f);
    Commute(f, u);
    CongruentTrans(P, Value(out), x * f * R_INVERSE, f * u);
  }

  lemma Swap(x: int, y: int, z: int)
    ensures x * y * z == x * z * y
  {
  }

  lemma Commute(x: int, y: int)
    ensures x * y == y * x
  {
  }

  method MulIs(out: array<u32>, a: array<u32>, b: array<u32>, ghost u: int, ghost v: int)
    requires out.Length == N && Holds(a, u) && Holds(b, v)
    modifies out
    ensures Is(out, u * v)
  {
    ghost var x, y := a[..], b[..];
    Mul(out, a, b);
    ProductValue(out[..], x, y, u, v);
  }

  method SquareIs(out: array<u32>, a: array<u32>, ghost u: int)
    requires out.Length == N && Holds(a, u)
    modifies out
    ensures Is(out, u * u)
  {
    ghost var x := a[..];
    Square(out, a);
    ProductValue(out[..], x, x, u, u);
  }

  method SumIs(out: array<u32>, a: array<u32>, b: array<u32>, ghost u: int, ghost v: int)
    requires out.Length == N && Holds(a, u) && Holds(b, v)
    modifies out
    ensures Is(out, u + v)
  {
    ghost var x, y := Number(a[..]), Number(b[..]);
    SumRoom(a[..], b[..]);
    Sum(out, a, b);
    LinearValue(out[..], x, y, u, v);
  }

  lemma SumRoom(a: seq<u32>, b: seq<u32>)
    requires Loose(a) && Loose(b)
    ensures SumFits(Sums(a, b), N) && forall i :: 0 <= i < N ==> Sums(a, b)[i] < 0x1_0000_0000
  {
    LooseFits(a, b, N);
    forall i | 0 <= i < N ensures Sums(a, b)[i] < 0x1_0000_0000 {
      assert a[i] < 2 * Radix(i) && b[i] < 2 * Radix(i);
    }
  }

  method DiffIs(out: array<u32>, a: array<u32>, b: array<u32>, ghost u: int, ghost v: int)
    requires out.Length == N && Holds(a, u) && Holds(b, v)
    modifies out
    ensures Is(out, u - v)
  {
    ghost var x, y := Number(a[..]), Number(b[..]);
    Diff(out, a, b);
    DifferenceValue(out[..], x, y, u, v);
  }

  method Scalar3Is(out: array<u32>, ghost u: int)
    requires Holds(out, u)
    modifies out
    ensures Is(out, 3 * u)
  {
    ghost var x := Number(out[..]);
    Scalar3(out);
    ScaledValue(out[..], x, u, 3);
  }

  method Scalar4Is(out: array<u32>, ghost u: int)
    requires Holds(out, u)
    modifies out
    ensures Is(out, 4 * u)
  {
    ghost var x := Number(out[..]);
    Scalar4(out);
    ScaledValue(out[..], x, u, 4);
  }

  method Scalar8Is(out: array<u32>, ghost u: int)
    requires Is(out, u)
    modifies out
    ensures Is(out, 8 * u)
  {
    ghost var x := Number(out[..]);
    Scalar8(out);
    ScaledValue(out[..], x, u, 8);
  }

  // ---------- Point doubling ----------

  /** alpha = 3 * (x + delta) * (x - delta) */
  method AlphaOf(x: array<u32>, delta: array<u32>, ghost u: int, ghost d: int, ghost a: int) returns (alpha: array<u32>)
    requires Holds(x, u) && Holds(delta, d) && a == 3 * ((u - d) * (u + d))
    ensures fresh(alpha) && Is(alpha, a)
  {
    ghost var p, q := u + d, u - d;
    var tmp, tmp2 := new u32[N], new u32[N];
    alpha := new u32[N];
    SumIs(tmp, x, delta, u, d);
    DiffIs(tmp2, x, delta, u, d);
    MulIs(alpha, tmp, tmp2, p, q);
    Scalar3Is(alpha, p * q);
    Commute(p, q);
  }

  /** zOut = (y + z)^2 - gamma - delta */
  method DoubleToZ(zOut: array<u32>, y: array<u32>, z: array<u32>, gamma: array<u32>, delta: array<u32>,
                   ghost u: int, ghost v: int, ghost w: int)
    requires zOut.Length == N && Holds(y, v) && Holds(z, w) && Holds(gamma, v * v) && Holds(delta, w * w)
    modifies zOut
    ensures Is(zOut, DoubleZ(u, v, w))
  {
    var tmp := new u32[N];
    SumIs(tmp, y, z, v, w);
    SquareIs(tmp, tmp, v + w);
    DiffIs(tmp, tmp, gamma, (v + w) * (v + w), v * v);
    DiffIs(zOut, tmp, delta, (v + w) * (v + w) - v * v, w * w);
  }

  /** xOut = alpha^2 - 2 * (4 * beta) */
  method DoubleToX(xOut: array<u32>, alpha: array<u32>, beta: array<u32>, ghost a: int, ghost b: int, ghost x3: int)
    requires xOut.Length == N && Holds(alpha, a) && Holds(beta, b) && xOut != alpha && xOut != beta && alpha != beta
    requires x3 == a * a - 8 * b
    modifies xOut, beta
    ensures Is(beta, 4 * b) && Is(xOut, x3)
  {
    ghost var a2 := a * a;
    Scalar4Is(beta, b);
    SquareIs(xOut, alpha, a);
    DiffIs(xOut, xOut, beta, a2, 4 * b);
    DiffIs(xOut, xOut, beta, a2 - 4 * b, 4 * b);
  }

  /** yOut = alpha * (beta - x) - 8 * gamma^2 */
  method DoubleToY(yOut: array<u32>, alpha: array<u32>, beta: array<u32>, x: array<u32>, gamma: array<u32>,
                   ghost a: int, ghost b: int, ghost x3: int, ghost g: int, ghost y3: int)
    requires yOut.Length == N && Holds(alpha, a) && Holds(beta, b) && Holds(x, x3) && Holds(gamma, g)
    requires y3 == a * (b - x3) - 8 * (g * g)
    modifies yOut
    ensures Is(yOut, y3)
  {
    var tmp := ScaledDifference(alpha, beta, x, a, b, x3);
    var tmp2 := EightSquares(gamma, g);
    DiffIs(yOut, tmp, tmp2, a * (b - x3), 8 * (g * g));
  }

  method ScaledDifference(alpha: array<u32>, beta: array<u32>, x: array<u32>, ghost a: int, ghost b: int, ghost x3: int)
      returns (tmp: array<u32>)
    requires Holds(alpha, a) && Holds(beta, b) && Holds(x, x3)
    ensures fresh(tmp) && Is(tmp, a * (b - x3))
  {
    tmp := new u32[N];
    DiffIs(tmp, beta, x, b, x3);
    MulIs(tmp, alpha, tmp, a, b - x3);
  }

  method EightSquares(gamma: array<u32>, ghost g: int) returns (tmp: array<u32>)
    requires Holds(gamma, g)
    ensures fresh(tmp) && Is(tmp, 8 * (g * g))
  {
    tmp := new u32[N];
    SquareIs(tmp, gamma, g);
    Scalar8Is(tmp, g * g);
  }

  /** The outputs are twice the inputs, by Jacobian coordinates. An output may be an input. */
  method PointDouble(xOut: array<u32>, yOut: array<u32>, zOut: array<u32>, x: array<u32>, y: array<u32>, z: array<u32>,
                     ghost u: int, ghost v: int, ghost w: int)
    requires xOut.Length == yOut.Length == zOut.Length == N && xOut != yOut && xOut != zOut && yOut != zOut
    requires Holds(x, u) && Holds(y, v) && Holds(z, w)
    modifies xOut, yOut, zOut
    ensures Is(xOut, DoubleX(u, v, w)) && Is(yOut, DoubleY(u, v, w)) && Is(zOut, DoubleZ(u, v, w))
  {
    var alpha, beta, gamma := DoubleParts(zOut, x, y, z, u, v, w);
    DoubleToX(xOut, alpha, beta, Alpha(u, w), u * (v * v), DoubleX(u, v, w));
    DoubleToY(yOut, alpha, beta, xOut, gamma, Alpha(u, w), 4 * (u * (v * v)), DoubleX(u, v, w), v * v,
      DoubleY(u, v, w));
  }

  method DoubleParts(zOut: array<u32>, x: array<u32>, y: array<u32>, z: array<u32>, ghost u: int, ghost v: int,
                     ghost w: int)
      returns (alpha: array<u32>, beta: array<u32>, gamma: array<u32>)
    requires zOut.Length == N && Holds(x, u) && Holds(y, v) && Holds(z, w)
    modifies zOut
    ensures fresh(alpha) && fresh(beta) && fresh(gamma) && alpha != beta && alpha != gamma && beta != gamma
    ensures Is(alpha, Alpha(u, w)) && Is(beta, u * (v * v)) && Is(gamma, v * v) && Is(zOut, DoubleZ(u, v, w))
  {
    var delta;
    delta, gamma, beta := DoubleProducts(x, y, z, u, v, w);
    alpha := AlphaOf(x, delta, u, w * w, Alpha(u, w));
    DoubleToZ(zOut, y, z, gamma, delta, u, v, w);
  }

  method DoubleProducts(x: array<u32>, y: array<u32>, z: array<u32>, ghost u: int, ghost v: int, ghost w: int)
      returns (delta: array<u32>, gamma: array<u32>, beta: array<u32>)
    requires Holds(x, u) && Holds(y, v) && Holds(z, w)
    ensures fresh(delta) && fresh(gamma) && fresh(beta) && delta != gamma && delta != beta && gamma != beta
    ensures Is(delta, w * w) && Is(gamma, v * v) && Is(beta, u * (v * v))
  {
    delta, gamma, beta := new u32[N], new u32[N], new u32[N];
    SquareIs(delta, z, w);
    SquareIs(gamma, y, v);
    MulIs(beta, x, gamma, u, v * v);
  }

  // ---------- Inversion ----------

  /** x is the power of a with exponent e. */
  ghost predicate IsPower(x: array<u32>, a: nat, e: nat)
    reads x
  {
    Holds(x, Power(a, e))
  }

  method MulPower(out: array<u32>, x: array<u32>, y: array<u32>, ghost a: nat, ghost i: nat, ghost j: nat)
    requires out.Length == N && IsPower(x, a, i) && IsPower(y, a, j)
    modifies out
    ensures IsPower(out, a, i + j) && Is(out, Power(a, i + j))
  {
    MulIs(out, x, y, Power(a, i), Power(a, j));
    PowerAdd(a, i, j);
  }

  method SquarePower(out: array<u32>, x: array<u32>, ghost a: nat, ghost i: nat)
    requires out.Length == N && IsPower(x, a, i)
    modifies out
    ensures IsPower(out, a, 2 * i)
  {
    SquareIs(out, x, Power(a, i));
    PowerAdd(a, i, i);
  }

  /** n squarings */
  method SquareTimes(x: array<u32>, n: nat, ghost a: nat, ghost e: nat)
    requires IsPower(x, a, e)
    modifies x
    ensures IsPower(x, a, e * Pow2(n))
  {
    for i := 0 to n
      invariant IsPower(x, a, e * Pow2(i))
    {
      SquarePower(x, x, a, e * Pow2(i));
      assert 2 * (e * Pow2(i)) == e * Pow2(i + 1);
    }
  }

  /** n ones are appended to the m ones of x; y holds n ones. */
  method AppendOnes(x: array<u32>, y: array<u32>, n: nat, ghost a: nat, ghost m: nat)
    requires x != y && IsPower(x, a, Ones(m)) && IsPower(y, a, Ones(n))
    modifies x
    ensures IsPower(x, a, Ones(m + n))
  {
    SquareTimes(x, n, a, Ones(m));
    MulPower(x, x, y, a, Ones(m) * Pow2(n), Ones(n));
    OnesJoin(m, n);
  }

  /** A copy of x, to which as many ones are appended as it has. */
  method DoubleOnes(x: array<u32>, n: nat, ghost a: nat) returns (copy: array<u32>)
    requires IsPower(x, a, Ones(n))
    modifies x
    ensures fresh(copy) && IsPower(copy, a, Ones(n)) && IsPower(x, a, Ones(2 * n))
  {
    copy := Assign(x);
    AppendOnes(x, copy, n, a, n);
  }

  method Assign(x: array<u32>) returns (copy: array<u32>)
    requires x.Length == N
    ensures fresh(copy) && copy[..] == x[..]
  {
    copy := new u32[N];
    for i := 0 to N
      invariant copy[..i] == x[..i]
    {
      copy[i] := x[i];
    }
    assert copy[..N] == copy[..] && x[..N] == x[..];
  }

  /** e2 to e32 hold 2 to 32 ones, and f as many as e32. */
  method LowPowers(inp: array<u32>, ghost a: nat)
      returns (f: array<u32>, e2: array<u32>, e4: array<u32>, e8: array<u32>, e16: array<u32>)
    requires IsPower(inp, a, 1)
    ensures fresh(f) && fresh(e2) && fresh(e4) && fresh(e8) && fresh(e16)
    ensures f != e2 && f != e4 && f != e8 && f != e16
    ensures IsPower(e2, a, Ones(2)) && IsPower(e4, a, Ones(4)) && IsPower(e8, a, Ones(8)) && IsPower(e16, a, Ones(16))
    ensures IsPower(f, a, Ones(32))
  {
    f := new u32[N];
    SquarePower(f, inp, a, 1);
    MulPower(f, inp, f, a, 1, 2);
    e2 := DoubleOnes(f, 2, a);
    e4 := DoubleOnes(f, 4, a);
    e8 := DoubleOnes(f, 8, a);
    e16 := DoubleOnes(f, 16, a);
  }

  /** Thirty ones more. */
  method MorePowers(f: array<u32>, e2: array<u32>, e4: array<u32>, e8: array<u32>, e16: array<u32>, ghost a: nat,
                    ghost m: nat)
    requires f != e2 && f != e4 && f != e8 && f != e16
    requires IsPower(e2, a, Ones(2)) && IsPower(e4, a, Ones(4)) && IsPower(e8, a, Ones(8)) && IsPower(e16, a, Ones(16))
    requires IsPower(f, a, Ones(m))
    modifies f
    ensures IsPower(f, a, Ones(m + 30))
  {
    AppendOnes(f, e16, 16, a, m);
    AppendOnes(f, e8, 8, a, m + 16);
    AppendOnes(f, e4, 4, a, m + 24);
    AppendOnes(f, e2, 2, a, m + 28);
  }

  /** The exponent that the chain builds from n ones and k squarings. */
  ghost function Exponent(n: nat, k: nat): nat {
    (Ones(n) * Pow2(n) + 1) * Pow2(k) + (4 * Ones(2 * n + 30) + 1)
  }

  /** The upper part of the exponent; e64 keeps n ones followed by n zeros. */
  method HighPower(f: array<u32>, inp: array<u32>, n: nat, k: nat, ghost a: nat) returns (e64: array<u32>)
    requires f != inp && IsPower(f, a, Ones(n)) && IsPower(inp, a, 1)
    modifies f
    ensures fresh(e64) && IsPower(e64, a, Ones(n) * Pow2(n)) && IsPower(f, a, (Ones(n) * Pow2(n) + 1) * Pow2(k))
  {
    SquareTimes(f, n, a, Ones(n));
    e64 := Assign(f);
    MulPower(f, f, inp, a, Ones(n) * Pow2(n), 1);
    SquareTimes(f, k, a, Ones(n) * Pow2(n) + 1);
  }

  /** The lower part of the exponent. */
  method LowPower(inp: array<u32>, e64: array<u32>, e32: array<u32>, e2: array<u32>, e4: array<u32>, e8: array<u32>,
                  e16: array<u32>, ghost n: nat, ghost a: nat) returns (g: array<u32>)
    requires IsPower(inp, a, 1) && IsPower(e64, a, Ones(n) * Pow2(n)) && IsPower(e32, a, Ones(n))
    requires IsPower(e2, a, Ones(2)) && IsPower(e4, a, Ones(4)) && IsPower(e8, a, Ones(8)) && IsPower(e16, a, Ones(16))
    ensures fresh(g) && IsPower(g, a, 4 * Ones(2 * n + 30) + 1)
  {
    g := new u32[N];
    MulPower(g, e64, e32, a, Ones(n) * Pow2(n), Ones(n));
    OnesJoin(n, n);
    MorePowers(g, e2, e4, e8, e16, a, 2 * n);
    SquarePower(g, g, a, Ones(2 * n + 30));
    SquarePower(g, g, a, 2 * Ones(2 * n + 30));
    MulPower(g, g, inp, a, 4 * Ones(2 * n + 30), 1);
  }

  /** The chain of felem_inv with n for 32 and k for 192. */
  method InvChain(out: array<u32>, inp: array<u32>, f: array<u32>, e2: array<u32>, e4: array<u32>, e8: array<u32>,
                  e16: array<u32>, n: nat, k: nat, ghost a: nat)
    requires out.Length == N && IsPower(inp, a, 1) && f != inp && IsPower(f, a, Ones(n))
    requires f != e2 && f != e4 && f != e8 && f != e16
    requires IsPower(e2, a, Ones(2)) && IsPower(e4, a, Ones(4)) && IsPower(e8, a, Ones(8)) && IsPower(e16, a, Ones(16))
    modifies out, f
    ensures Is(out, Power(a, Exponent(n, k)))
  {
    var e32 := Assign(f);
    var e64 := HighPower(f, inp, n, k, a);
    var g := LowPower(inp, e64, e32, e2, e4, e8, e16, n, a);
    MulPower(out, g, f, a, 4 * Ones(2 * n + 30) + 1, (Ones(n) * Pow2(n) + 1) * Pow2(k));
  }

  /** The exponent of the inversion is the prime less two. */
  lemma ExponentValue()
    ensures P > 2 && Exponent(32, 192) == P - 2
  {
    Pow2Values();
    Pow2Add(64, 64);
    Pow2Add(128, 64);
    Pow2Add(64, 30);
    Pow2Add(24, 6);
  }

  /** out = in to the prime less two. out may be in. */
  method Inv(out: array<u32>, inp: array<u32>, ghost a: nat)
    requires out.Length == N && Holds(inp, a)
    modifies out
    ensures P > 2 && Is(out, Power(a, P - 2))
  {
    assert Power(a, 1) == a * Power(a, 0) == a;
    var f, e2, e4, e8, e16 := LowPowers(inp, a);
    InvChain(out, inp, f, e2, e4, e8, e16, 32, 192, a);
    ExponentValue();
  }
}
