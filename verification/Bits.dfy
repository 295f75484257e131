/** Machine words as integers: powers of two, the bitwise operators of C on
    non-negative values, and the little-endian bit string of a value.
    Shifts are written as division and multiplication by Pow2. */
module Bits {

  type byte = x: int | 0 <= x < 0x100
  type u32 = x: int | 0 <= x < 0x1_0000_0000
  type u64 = x: int | 0 <= x < 0x1_0000_0000_0000_0000

  function Pow2(n: nat): (r: nat)
    ensures r > 0
  {
    if n == 0 then 1 else 2 * Pow2(n - 1)
  }

  /** n one bits */
  function Ones(n: nat): nat { Pow2(n) - 1 }

  /** v << s */
  function Shl(v: nat, s: nat): nat { v * Pow2(s) }

  lemma {:induction false} Pow2Add(m: nat, n: nat)
    ensures Pow2(m + n) == Pow2(m) * Pow2(n)
  {
    if m > 0 {
      Pow2Add(m - 1, n);
    }
  }

  lemma {:induction false} Pow2Monotone(m: nat, n: nat)
    requires m <= n
    ensures Pow2(m) <= Pow2(n)
  {
    if m < n {
      Pow2Monotone(m, n - 1);
    }
  }

  lemma Pow2Values()
    ensures Pow2(8) == 0x100 && Pow2(12) == 0x1000 && Pow2(16) == 0x1_0000
    ensures Pow2(24) == 0x100_0000 && Pow2(26) == 0x400_0000 && Pow2(28) == 0x1000_0000
    ensures Pow2(29) == 0x2000_0000 && Pow2(31) == 0x8000_0000 && Pow2(32) == 0x1_0000_0000
    ensures Pow2(64) == 0x1_0000_0000_0000_0000
  {
    Pow2Add(8, 8);
    Pow2Add(8, 16);
    Pow2Add(2, 24);
    Pow2Add(12, 16);
    Pow2Add(16, 16);
    Pow2Add(32, 32);
  }

  lemma Pow2Small()
    ensures Pow2(0) == 1 && Pow2(2) == 4 && Pow2(4) == 0x10 && Pow2(6) == 0x40 && Pow2(8) == 0x100
    ensures Pow2(10) == 0x400 && Pow2(12) == 0x1000 && Pow2(14) == 0x4000
    ensures Pow2(18) == 0x4_0000 && Pow2(20) == 0x10_0000
  {
    Pow2Add(8, 6);
    Pow2Add(8, 10);
    Pow2Add(10, 10);
  }

  /** x & y */
  function And(x: nat, y: nat): nat {
    if x == 0 || y == 0 then 0 else (x % 2) * (y % 2) + 2 * And(x / 2, y / 2)
  }

  /** x | y */
  function Or(x: nat, y: nat): nat {
    if x == 0 then y else if y == 0 then x
    else (if x % 2 == 1 || y % 2 == 1 then 1 else 0) + 2 * Or(x / 2, y / 2)
  }

  /** x ^ y */
  function Xor(x: nat, y: nat): nat {
    if x == 0 then y else if y == 0 then x
    else (x + y) % 2 + 2 * Xor(x / 2, y / 2)
  }

  lemma {:induction false} OrDisjoint(x: nat, y: nat, s: nat)
    requires x < Pow2(s)
    ensures Or(x, Shl(y, s)) == x + Shl(y, s)
  {
    if s > 0 {
      OrDisjoint(x / 2, y, s - 1);
      DoubleShl(y, s);
      OrDouble(x / 2, x % 2, Shl(y, s - 1));
    }
  }

  lemma {:induction false} OrComm(x: nat, y: nat)
    ensures Or(x, y) == Or(y, x)
  {
    if x != 0 && y != 0 {
      OrComm(x / 2, y / 2);
    }
  }

  /** The other way round: low bits come into a shifted value. */
  lemma OrShifted(x: nat, y: nat, s: nat)
    requires x < Pow2(s)
    ensures Or(Shl(y, s), x) == Shl(y, s) + x
  {
    OrComm(Shl(y, s), x);
    OrDisjoint(x, y, s);
  }

  lemma OrDouble(u: nat, a: nat, v: nat)
    requires a < 2
    ensures Or(2 * u + a, 2 * v) == a + 2 * Or(u, v)
  {
  }

  /** Or with a number in two parts. */
  lemma {:induction false} OrConcat(xh: nat, yl: nat, yh: nat, k: nat)
    requires yl < Pow2(k)
    ensures Or(Shl(xh, k), yl + Shl(yh, k)) == yl + Shl(Or(xh, yh), k)
  {
    if k == 0 {
      assert Shl(xh, 0) == xh && Shl(yh, 0) == yh && Shl(Or(xh, yh), 0) == Or(xh, yh);
    } else {
      OrConcat(xh, yl / 2, yh, k - 1);
      DoubleShl(xh, k);
      DoubleShl(yh, k);
      DoubleShl(Or(xh, yh), k);
      OrComm(2 * Shl(xh, k - 1), yl % 2 + 2 * (yl / 2 + Shl(yh, k - 1)));
      OrComm(Shl(xh, k - 1), yl / 2 + Shl(yh, k - 1));
      OrDouble(yl / 2 + Shl(yh, k - 1), yl % 2, Shl(xh, k - 1));
    }
  }

  lemma {:induction false} OrShl(x: nat, y: nat, s: nat)
    ensures Or(Shl(x, s), Shl(y, s)) == Shl(Or(x, y), s)
  {
    if s > 0 {
      OrShl(x, y, s - 1);
      DoubleShl(x, s);
      DoubleShl(y, s);
      DoubleShl(Or(x, y), s);
      OrDouble(Shl(x, s - 1), 0, Shl(y, s - 1));
    }
  }

  lemma {:induction false} AndLowMask(x: nat, s: nat)
    ensures And(x, Pow2(s) - 1) == Low(x, s)
  {
    if s > 0 {
      AndLowMask(x / 2, s - 1);
      assert (Pow2(s) - 1) / 2 == Pow2(s - 1) - 1 && (s > 0 ==> (Pow2(s) - 1) % 2 == 1);
      ModHalf(x, s);
    }
  }

  lemma {:induction false} AndShl(x: nat, y: nat, s: nat)
    ensures And(Shl(x, s), Shl(y, s)) == Shl(And(x, y), s)
  {
    if s > 0 {
      AndShl(x, y, s - 1);
      AndDouble(Shl(x, s - 1), Shl(y, s - 1));
      DoubleShl(x, s);
      DoubleShl(y, s);
      DoubleShl(And(x, y), s);
    }
  }

  lemma AndDouble(x: nat, y: nat)
    ensures And(2 * x, 2 * y) == 2 * And(x, y)
  {
  }

  lemma DoubleShl(x: nat, s: nat)
    requires s > 0
    ensures Shl(x, s) == 2 * Shl(x, s - 1)
  {
  }

  lemma {:induction false} ModHalf(x: nat, s: nat)
    requires s > 0
    ensures x % Pow2(s) == x % 2 + 2 * ((x / 2) % Pow2(s - 1))
  {
    var p := Pow2(s - 1);
    var q, r := (x / 2) / p, (x / 2) % p;
    assert x == x % 2 + 2 * (q * p + r);
    assert 2 * (q * p) == q * Pow2(s);
    DivModUnique(x, Pow2(s), q, x % 2 + 2 * r);
  }

  lemma ConcatBound(x: nat, y: nat, s: nat, w: nat)
    requires x < Pow2(s) && y < Pow2(w)
    ensures x + Shl(y, s) < Pow2(s + w)
  {
    var p, q := Pow2(s), Pow2(w);
    Pow2Add(w, s);
    assert (y + 1) * p == y * p + p;
    MulLe(y + 1, q, p);
  }

  lemma MulSum(m: int, x: int, y: int)
    ensures m * (x + y) == m * x + m * y
  {
  }

  lemma MulEqual(x: int, y: int, z: int)
    requires x == y
    ensures x * z == y * z && z * x == z * y
  {
  }

  lemma MulAssoc(x: int, y: int, z: int)
    ensures x * y * z == x * (y * z)
  {
  }

  lemma MulSwap(x: int, y: int, z: int)
    ensures x * (y * z) == y * (x * z)
  {
  }

  lemma MulLe(a: int, b: int, m: nat)
    requires a <= b
    ensures a * m <= b * m
  {
  }

  /** The quotient and remainder are determined by their defining equation. */
  lemma {:induction false} DivModUnique(x: int, m: int, q: int, r: int)
    requires m > 0 && 0 <= r < m && x == q * m + r
    ensures x / m == q && x % m == r
  {
    var q', r' := x / m, x % m;
    assert x == q' * m + r' && 0 <= r' < m;
    assert (q' + 1) * m == q' * m + m && (q + 1) * m == q * m + m;
    if q' < q {
      MulLe(q' + 1, q, m);
    } else if q < q' {
      MulLe(q + 1, q', m);
    }
  }

  function Min(x: nat, y: nat): nat { if x <= y then x else y }

  lemma {:induction false} XorTwice(x: nat, k: nat)
    ensures Xor(Xor(x, k), k) == x
  {
    if x != 0 || k != 0 {
      XorTwice(x / 2, k / 2);
      XorTwiceBit(x / 2, k / 2, x % 2, k % 2);
    }
  }

  lemma XorTwiceBit(u: nat, v: nat, a: nat, b: nat)
    requires a < 2 && b < 2 && Xor(Xor(u, v), v) == u
    ensures Xor(Xor(2 * u + a, 2 * v + b), 2 * v + b) == 2 * u + a
  {
    var w, c := Xor(u, v), (a + b) % 2;
    XorBit(u, v, a, b);
    XorBit(w, v, c, b);
    DivModUnique(c + b, 2, (c + b - a) / 2, a);
  }

  lemma XorBit(u: nat, v: nat, a: nat, b: nat)
    requires a < 2 && b < 2
    ensures Xor(2 * u + a, 2 * v + b) == (a + b) % 2 + 2 * Xor(u, v)
  {
    DivModUnique(2 * u + a, 2, u, a);
    DivModUnique(2 * v + b, 2, v, b);
    DivModUnique(2 * u + a + 2 * v + b, 2, u + v + (a + b) / 2, (a + b) % 2);
    XorUnfold(2 * u + a, 2 * v + b);
  }

  lemma XorUnfold(x: nat, y: nat)
    ensures Xor(x, y) == (x + y) % 2 + 2 * Xor(x / 2, y / 2)
  {
  }

  lemma {:induction false} XorComm(x: nat, y: nat)
    ensures Xor(x, y) == Xor(y, x)
  {
    if x != 0 && y != 0 {
      XorComm(x / 2, y / 2);
    }
  }

  lemma {:induction false} XorZero(x: nat, y: nat)
    ensures Xor(x, y) == 0 <==> x == y
  {
    if x != 0 && y != 0 {
      XorZero(x / 2, y / 2);
    }
  }

  lemma {:induction false} XorBound(x: nat, y: nat, n: nat)
    requires x < Pow2(n) && y < Pow2(n)
    ensures Xor(x, y) < Pow2(n)
  {
    if n > 0 {
      XorBound(x / 2, y / 2, n - 1);
    }
  }

  lemma OrZero(x: nat, y: nat)
    ensures Or(x, y) == 0 <==> x == 0 && y == 0
  {
  }

  lemma {:induction false} OrBound(x: nat, y: nat, n: nat)
    requires x < Pow2(n) && y < Pow2(n)
    ensures Or(x, y) < Pow2(n)
  {
    if n > 0 {
      OrBound(x / 2, y / 2, n - 1);
    }
  }

  lemma {:induction false} XorConcat(xl: nat, xh: nat, yl: nat, yh: nat, k: nat)
    requires xl < Pow2(k) && yl < Pow2(k)
    ensures Xor(xl + Shl(xh, k), yl + Shl(yh, k)) == Xor(xl, yl) + Shl(Xor(xh, yh), k)
  {
    if k == 0 {
      assert xl == 0 && yl == 0;
      assert Shl(xh, 0) == xh && Shl(yh, 0) == yh && Shl(Xor(xh, yh), 0) == Xor(xh, yh);
    } else {
      XorConcat(xl / 2, xh, yl / 2, yh, k - 1);
      DoubleShl(xh, k);
      DoubleShl(yh, k);
      DoubleShl(Xor(xh, yh), k);
      XorConcatStep(xl, Shl(xh, k - 1), yl, Shl(yh, k - 1), Shl(Xor(xh, yh), k - 1),
        Shl(xh, k), Shl(yh, k), Shl(Xor(xh, yh), k));
    }
  }

  lemma XorHalves(x: nat, y: nat, u: nat, v: nat, a: nat, b: nat)
    requires x == 2 * u + a && y == 2 * v + b && a < 2 && b < 2
    ensures Xor(x, y) == (a + b) % 2 + 2 * Xor(u, v)
  {
    XorBit(u, v, a, b);
  }

  lemma XorConcatStep(xl: nat, xh: nat, yl: nat, yh: nat, h: nat, x2: nat, y2: nat, h2: nat)
    requires Xor(xl / 2 + xh, yl / 2 + yh) == Xor(xl / 2, yl / 2) + h && x2 == 2 * xh && y2 == 2 * yh && h2 == 2 * h
    ensures Xor(xl + x2, yl + y2) == Xor(xl, yl) + h2
  {
    var u, a, v, b := xl / 2, xl % 2, yl / 2, yl % 2;
    XorHalves(xl, yl, u, v, a, b);
    XorHalves(xl + x2, yl + y2, u + xh, v + yh, a, b);
  }

  /** v >> s */
  function Shr(v: nat, s: nat): (r: nat)
    ensures Shl(r, s) <= v
  {
    DivModBounds(v, Pow2(s));
    v / Pow2(s)
  }

  /** The s low bits of v, v & ((1 << s) - 1) */
  function Low(v: nat, s: nat): (r: nat)
    ensures r < Pow2(s) && v == r + Shl(Shr(v, s), s)
  {
    DivModBounds(v, Pow2(s));
    v % Pow2(s)
  }

  lemma DivModBounds(v: nat, m: nat)
    requires m > 0
    ensures v / m >= 0 && 0 <= v % m < m
    ensures v == (v / m) * m + v % m && (v / m) * m <= v
  {
    assert v == m * (v / m) + v % m;
  }

  /** 32-bit addition and subtraction */
  function Add32(x: u32, y: u32): u32 { (x + y) % 0x1_0000_0000 }

  function Sub32(x: u32, y: u32): u32 { (x - y) % 0x1_0000_0000 }

  function Xor32(x: u32, y: u32): u32 {
    Pow2Values();
    XorBound(x, y, 32);
    Xor(x, y)
  }

  function Xor8(x: byte, y: byte): byte {
    assert Pow2(8) == 256;
    XorBound(x, y, 8);
    Xor(x, y)
  }

  /** ROL32 */
  function Rotl(x: u32, c: nat): u32
    requires 0 < c < 32
  {
    Pow2Values();
    Pow2Monotone(0, 32 - c);
    DivModBounds(x, Pow2(32 - c));
    MulLe(1, Pow2(32 - c), x / Pow2(32 - c));
    OrBound(Shl(x, c) % 0x1_0000_0000, Shr(x, 32 - c), 32);
    Or(Shl(x, c) % 0x1_0000_0000, Shr(x, 32 - c))
  }

  /** Masking with a constant made of two parts. */
  lemma AndParts(x: nat, lo: nat, hi: nat, k: nat)
    requires lo < Pow2(k)
    ensures And(x, lo + Shl(hi, k)) == And(Low(x, k), lo) + Shl(And(Shr(x, k), hi), k)
  {
    AndConcat(Low(x, k), Shr(x, k), lo, hi, k);
  }

  lemma {:induction false} AndConcat(xl: nat, xh: nat, yl: nat, yh: nat, k: nat)
    requires xl < Pow2(k) && yl < Pow2(k)
    ensures And(xl + Shl(xh, k), yl + Shl(yh, k)) == And(xl, yl) + Shl(And(xh, yh), k)
  {
    if k == 0 {
      assert xl == 0 && yl == 0;
      assert Shl(xh, 0) == xh && Shl(yh, 0) == yh && Shl(And(xh, yh), 0) == And(xh, yh);
    } else {
      AndConcat(xl / 2, xh, yl / 2, yh, k - 1);
      DoubleShl(xh, k);
      DoubleShl(yh, k);
      DoubleShl(And(xh, yh), k);
      AndConcatStep(xl, Shl(xh, k - 1), yl, Shl(yh, k - 1), Shl(And(xh, yh), k - 1),
        Shl(xh, k), Shl(yh, k), Shl(And(xh, yh), k));
    }
  }

  lemma AndHalves(x: nat, y: nat, u: nat, v: nat, a: nat, b: nat)
    requires x == 2 * u + a && y == 2 * v + b && a < 2 && b < 2
    ensures And(x, y) == a * b + 2 * And(u, v)
  {
    AndBit(u, v, a, b);
  }

  lemma AndConcatStep(xl: nat, xh: nat, yl: nat, yh: nat, h: nat, x2: nat, y2: nat, h2: nat)
    requires And(xl / 2 + xh, yl / 2 + yh) == And(xl / 2, yl / 2) + h && x2 == 2 * xh && y2 == 2 * yh && h2 == 2 * h
    ensures And(xl + x2, yl + y2) == And(xl, yl) + h2
  {
    var u, a, v, b := xl / 2, xl % 2, yl / 2, yl % 2;
    AndHalves(xl, yl, u, v, a, b);
    AndHalves(xl + x2, yl + y2, u + xh, v + yh, a, b);
  }

  lemma AndBit(u: nat, v: nat, a: nat, b: nat)
    requires a < 2 && b < 2
    ensures And(2 * u + a, 2 * v + b) == a * b + 2 * And(u, v)
  {
    DivModUnique(2 * u + a, 2, u, a);
    DivModUnique(2 * v + b, 2, v, b);
    AndUnfold(2 * u + a, 2 * v + b);
  }

  lemma AndUnfold(x: nat, y: nat)
    ensures And(x, y) == (x % 2) * (y % 2) + 2 * And(x / 2, y / 2)
  {
  }

  /** The n low bits of v, least significant first. */
  function BitString(v: nat, n: nat): (r: seq<bool>)
    ensures |r| == n
  {
    if n == 0 then [] else [v % 2 == 1] + BitString(v / 2, n - 1)
  }

  /** The number a bit string stands for. */
  function BitValue(b: seq<bool>): nat {
    if b == [] then 0 else (if b[0] then 1 else 0) + 2 * BitValue(b[1..])
  }

  lemma {:induction false} BitValueOfBitString(v: nat, n: nat)
    requires v < Pow2(n)
    ensures BitValue(BitString(v, n)) == v
  {
    if n > 0 {
      BitValueOfBitString(v / 2, n - 1);
    }
  }

  lemma {:induction false} BitStringConcat(x: nat, y: nat, s: nat, w: nat)
    requires x < Pow2(s)
    ensures BitString(x + Shl(y, s), s + w) == BitString(x, s) + BitString(y, w)
  {
    if s > 0 {
      var v := x + y * Pow2(s);
      assert y * Pow2(s) == 2 * (y * Pow2(s - 1));
      assert v / 2 == x / 2 + y * Pow2(s - 1) && v % 2 == x % 2;
      BitStringConcat(x / 2, y, s - 1, w);
    } else {
      assert BitString(x, s) + BitString(y, w) == BitString(y, w);
    }
  }

  /** Cutting a value at bit s cuts its bit string at position s. */
  lemma {:induction false} BitStringSplit(v: nat, s: nat, n: nat)
    requires s <= n
    ensures BitString(v, n) == BitString(Low(v, s), s) + BitString(Shr(v, s), n - s)
  {
    BitStringConcat(Low(v, s), Shr(v, s), s, n - s);
  }

  lemma {:induction false} BitStringOfZero(n: nat)
    ensures BitString(0, n) == seq(n, _ => false)
  {
    if n > 0 {
      BitStringOfZero(n - 1);
    }
  }

  /** The bits of a byte string in transmission order. */
  function BitsOfBytes(bytes: seq<byte>): (r: seq<bool>)
    ensures |r| == 8 * |bytes|
  {
    if bytes == [] then []
    else BitsOfBytes(bytes[..|bytes| - 1]) + BitString(bytes[|bytes| - 1], 8)
  }

  lemma {:induction false} BitsOfBytesConcat(a: seq<byte>, b: seq<byte>)
    ensures BitsOfBytes(a + b) == BitsOfBytes(a) + BitsOfBytes(b)
  {
    if b == [] {
      assert a + b == a;
    } else {
      assert (a + b)[..|a + b| - 1] == a + b[..|b| - 1];
      BitsOfBytesConcat(a, b[..|b| - 1]);
    }
  }
}
