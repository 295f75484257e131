/** The 32-bit words that Bits has as integers, as bit vectors, with which the verifier can compute. */
module BitVectors {
  import opened Bits
  import opened WordBits

  type Bv = bv32

  function OddBv(v: Bv): bool { v & 1 == 1 }
  function HalfBv(v: Bv): Bv { v >> 1 }
  function XorBv(x: Bv, y: Bv): Bv { x ^ y }
  function AndBv(x: Bv, y: Bv): Bv { x & y }

  function Vectors(size: nat): Machine<Bv> { Machine(size, OddBv, HalfBv, XorBv, AndBv) }

  // ---------- Bitwise operators ----------

  lemma XorHalf(a: Bv, b: Bv)
    ensures HalfBv(XorBv(a, b)) == XorBv(HalfBv(a), HalfBv(b))
  {
  }

  lemma XorOdd(a: Bv, b: Bv)
    ensures OddBv(XorBv(a, b)) == (OddBv(a) != OddBv(b))
  {
  }

  lemma XorVectors(w: Machine<Bv>, size: nat)
    requires w == Vectors(size)
    ensures Xors(w)
  {
    forall a, b
      ensures w.half(w.xor(a, b)) == w.xor(w.half(a), w.half(b)) && w.bit(w.xor(a, b)) == (w.bit(a) != w.bit(b))
    {
      XorHalf(a, b);
      XorOdd(a, b);
    }
  }

  lemma AndHalf(a: Bv, b: Bv)
    ensures HalfBv(AndBv(a, b)) == AndBv(HalfBv(a), HalfBv(b))
  {
  }

  lemma AndOdd(a: Bv, b: Bv)
    ensures OddBv(AndBv(a, b)) == (OddBv(a) && OddBv(b))
  {
  }

  lemma AndVectors(w: Machine<Bv>, size: nat)
    requires w == Vectors(size)
    ensures Ands(w)
  {
    forall a, b
      ensures w.half(w.and(a, b)) == w.and(w.half(a), w.half(b)) && w.bit(w.and(a, b)) == (w.bit(a) && w.bit(b))
    {
      AndHalf(a, b);
      AndOdd(a, b);
    }
  }

  // ---------- Numbers ----------

  function Nibble(v: Bv): digit {
    (if v & 1 == 1 then 1 else 0) + (if v & 2 == 2 then 2 else 0) + (if v & 4 == 4 then 4 else 0)
      + if v & 8 == 8 then 8 else 0
  }

  function NextNibble(v: Bv): Bv { v >> 4 }

  function Num(v: Bv, n: nat): nat { Number(OddBv, HalfBv, v, n) }

  lemma Next(v: Bv, half: Bv, odd: bool, n: nat)
    requires half == HalfBv(v) && odd == OddBv(v)
    ensures Num(v, n + 1) == BitNumber(odd) + 2 * Num(half, n)
  {
  }

  lemma FourBits(v: Bv, v1: Bv, v2: Bv, v3: Bv, v4: Bv, b0: bool, b1: bool, b2: bool, b3: bool, n: nat)
    requires v1 == HalfBv(v) && v2 == HalfBv(v1) && v3 == HalfBv(v2) && v4 == HalfBv(v3)
    requires b0 == OddBv(v) && b1 == OddBv(v1) && b2 == OddBv(v2) && b3 == OddBv(v3)
    ensures Num(v, n + 4) == BitNumber(b0) + 2 * BitNumber(b1) + 4 * BitNumber(b2) + 8 * BitNumber(b3) + 16 * Num(v4, n)
  {
    Next(v, v1, b0, n + 3);
    Next(v1, v2, b1, n + 2);
    Next(v2, v3, b2, n + 1);
    Next(v3, v4, b3, n);
  }

  lemma NibbleBits(v: Bv)
    ensures OddBv(HalfBv(v)) == (v & 2 == 2) && OddBv(HalfBv(HalfBv(v))) == (v & 4 == 4)
    ensures OddBv(HalfBv(HalfBv(HalfBv(v)))) == (v & 8 == 8)
    ensures HalfBv(HalfBv(HalfBv(HalfBv(v)))) == NextNibble(v)
  {
  }

  lemma NumNibble(v: Bv, n: nat, m: nat)
    requires m == n + 4
    ensures Num(v, m) == Nibble(v) + 16 * Num(NextNibble(v), n)
  {
    NibbleBits(v);
    var v1 := HalfBv(v);
    var v2 := HalfBv(v1);
    var v3 := HalfBv(v2);
    FourBits(v, v1, v2, v3, NextNibble(v), v & 1 == 1, v & 2 == 2, v & 4 == 4, v & 8 == 8, n);
  }

  lemma FourVector(v: Bv)
    ensures Four(OddBv, HalfBv, v, Nibble(v), NextNibble(v))
  {
    forall n: nat, m: nat | m == n + 4
      ensures Number(OddBv, HalfBv, v, m) == Nibble(v) + 16 * Number(OddBv, HalfBv, NextNibble(v), n)
    {
      NumNibble(v, n, m);
    }
  }

  lemma DigitsOfVectors()
    ensures Digits(OddBv, HalfBv, Nibble, NextNibble)
  {
    forall v ensures Four(OddBv, HalfBv, v, Nibble(v), NextNibble(v)) {
      FourVector(v);
    }
  }

  function Hex(v: Bv, k: nat): nat { HexNumber(Nibble, NextNibble, v, k) }

  lemma NumHex(v: Bv, n: nat, k: nat)
    requires n == 4 * k
    ensures Num(v, n) == Hex(v, k)
  {
    DigitsOfVectors();
    NumberHex(OddBv, HalfBv, Nibble, NextNibble, v, k);
  }

  // ---------- Shifts ----------

  lemma HalvedBv1(v: Bv, s: nat)
    requires s == 1
    ensures Halved(HalfBv, v, s) == v >> 1
  {
    assert Halved(HalfBv, HalfBv(v), s - 1) == HalfBv(v);
  }

  lemma HalvedBv2(v: Bv, s: nat)
    requires s == 2
    ensures Halved(HalfBv, v, s) == v >> 2
  {
    HalvedBv1(v, s - 1);
    HalvedBv1(v >> 1, s - 1);
    HalvedMore(HalfBv, v, s - 1, s - 1);
  }

  lemma HalvedBv4(v: Bv, s: nat)
    requires s == 4
    ensures Halved(HalfBv, v, s) == v >> 4
  {
    HalvedBv2(v, s - 2);
    HalvedBv2(v >> 2, s - 2);
    HalvedMore(HalfBv, v, s - 2, s - 2);
  }

  lemma HalvedBv5(v: Bv, s: nat)
    requires s == 5
    ensures Halved(HalfBv, v, s) == v >> 5
  {
    HalvedBv4(v, s - 1);
    HalvedBv1(v >> 4, s - 4);
    HalvedMore(HalfBv, v, s - 1, s - 4);
  }

  lemma HalvedBv7(v: Bv, s: nat)
    requires s == 7
    ensures Halved(HalfBv, v, s) == v >> 7
  {
    HalvedBv5(v, s - 2);
    HalvedBv2(v >> 5, s - 5);
    HalvedMore(HalfBv, v, s - 2, s - 5);
  }

  lemma HalvedBv8(v: Bv, s: nat)
    requires s == 8
    ensures Halved(HalfBv, v, s) == v >> 8
  {
    HalvedBv4(v, s - 4);
    HalvedBv4(v >> 4, s - 4);
    HalvedMore(HalfBv, v, s - 4, s - 4);
  }

  lemma HalvedBv12(v: Bv, s: nat)
    requires s == 12
    ensures Halved(HalfBv, v, s) == v >> 12
  {
    HalvedBv8(v, s - 4);
    HalvedBv4(v >> 8, s - 8);
    HalvedMore(HalfBv, v, s - 4, s - 8);
  }

  lemma HalvedBv16(v: Bv, s: nat)
    requires s == 16
    ensures Halved(HalfBv, v, s) == v >> 16
  {
    HalvedBv8(v, s - 8);
    HalvedBv8(v >> 8, s - 8);
    HalvedMore(HalfBv, v, s - 8, s - 8);
  }

  lemma HalvedBv20(v: Bv, s: nat)
    requires s == 20
    ensures Halved(HalfBv, v, s) == v >> 20
  {
    HalvedBv16(v, s - 4);
    HalvedBv4(v >> 16, s - 16);
    HalvedMore(HalfBv, v, s - 4, s - 16);
  }

  lemma HalvedBv24(v: Bv, s: nat)
    requires s == 24
    ensures Halved(HalfBv, v, s) == v >> 24
  {
    HalvedBv16(v, s - 8);
    HalvedBv8(v >> 16, s - 16);
    HalvedMore(HalfBv, v, s - 8, s - 16);
  }

  lemma HalvedBv25(v: Bv, s: nat)
    requires s == 25
    ensures Halved(HalfBv, v, s) == v >> 25
  {
    HalvedBv24(v, s - 1);
    HalvedBv1(v >> 24, s - 24);
    HalvedMore(HalfBv, v, s - 1, s - 24);
  }

  lemma HalvedBv27(v: Bv, s: nat)
    requires s == 27
    ensures Halved(HalfBv, v, s) == v >> 27
  {
    HalvedBv25(v, s - 2);
    HalvedBv2(v >> 25, s - 25);
    HalvedMore(HalfBv, v, s - 2, s - 25);
  }

  lemma HalvedBv30(v: Bv, s: nat)
    requires s == 30
    ensures Halved(HalfBv, v, s) == v >> 30
  {
    HalvedBv25(v, s - 5);
    HalvedBv5(v >> 25, s - 25);
    HalvedMore(HalfBv, v, s - 5, s - 25);
  }

  lemma HalvedBv31(v: Bv, s: nat)
    requires s == 31
    ensures Halved(HalfBv, v, s) == v >> 31
  {
    HalvedBv30(v, s - 1);
    HalvedBv1(v >> 30, s - 30);
    HalvedMore(HalfBv, v, s - 1, s - 30);
  }

  // ---------- Rotations ----------

  lemma MaskOnes(mask: Bv, size: nat, n: nat, k: nat)
    requires size == 4 * k && n <= size && Hex(mask, k) == Ones(n)
    ensures Num(mask, n) == Ones(n)
  {
    NumHex(mask, size, k);
    NumberLow(OddBv, HalfBv, mask, n, size);
    DivModUnique(Ones(n), Pow2(n), 0, Ones(n));
  }

  lemma RotateBy(x: Bv, y: Bv, top: Bv, rest: Bv, size: nat, c: nat, d: nat, maskC: Bv, maskD: Bv)
    requires c + d == size
    requires Halved(HalfBv, x, d) == top && Halved(HalfBv, y, c) == rest
    requires AndBv(y, maskC) == top && AndBv(x, maskD) == rest
    requires Num(maskC, c) == Ones(c) && Num(maskD, d) == Ones(d)
    ensures Num(y, size) == Shr(Num(x, size), d) + Shl(Num(x, size) % Pow2(d), c)
  {
    var w := Vectors(size);
    XorVectors(w, size);
    AndVectors(w, size);
    RotateNumber(w, x, y, top, rest, c, d, maskC, maskD);
  }

  lemma ShiftedOut(x: nat, q: nat, r: nat, p: nat, t: nat, m: nat)
    requires x == q * p + r && r < p && p * t == m && x < m
    ensures q < t && r * t < m && (x * t) % m == r * t
  {
    assert x * t == q * m + r * t by {
      assert q * p * t == q * (p * t);
      assert x * t == q * p * t + r * t;
    }
    MulLe(r + 1, p, t);
    assert t > 0;
    assert (r + 1) * t == r * t + t;
    DivModUnique(x * t, m, q, r * t);
    if t <= q {
      MulLe(t, q, p);
    }
  }

  lemma RotlParts(x: u32, c: nat, d: nat)
    requires 0 < c < 32 && c + d == 32
    ensures Rotl(x, c) == Shr(x, d) + Shl(x % Pow2(d), c)
  {
    Pow2Values();
    Pow2Add(d, c);
    DivModBounds(x, Pow2(d));
    ShiftedOut(x, x / Pow2(d), x % Pow2(d), Pow2(d), Pow2(c), 0x1_0000_0000);
    OrShifted(x / Pow2(d), x % Pow2(d), c);
  }

  /** The number of a word's bits. */
  lemma NumBound(v: Bv, size: nat)
    requires size == 32
    ensures Num(v, size) < 0x1_0000_0000
  {
    Pow2Values();
    NumberBound(OddBv, HalfBv, v, size);
  }

  /** The bits above d and those below c + d are where a rotation by c has them. */
  ghost predicate RotatesBy(x: Bv, y: Bv, top: Bv, rest: Bv, c: nat, d: nat, maskC: Bv, maskD: Bv) {
    && Halved(HalfBv, x, d) == top && Halved(HalfBv, y, c) == rest
    && AndBv(y, maskC) == top && AndBv(x, maskD) == rest
    && Hex(maskC, 8) == Ones(c) && Hex(maskD, 8) == Ones(d)
  }

  lemma RotateIs(x: Bv, y: Bv, top: Bv, rest: Bv, size: nat, c: nat, d: nat, maskC: Bv, maskD: Bv, k: nat)
    requires c + d == size == 32 && size == 4 * k && c > 0 && d > 0
    requires RotatesBy(x, y, top, rest, c, d, maskC, maskD)
    ensures Num(x, size) < 0x1_0000_0000 && Num(y, size) == Rotl(Num(x, size), c)
  {
    MaskOnes(maskC, size, c, k);
    MaskOnes(maskD, size, d, k);
    RotateBy(x, y, top, rest, size, c, d, maskC, maskD);
    NumBound(x, size);
    RotlParts(Num(x, size), c, d);
  }

  lemma Mask1()
    ensures Hex(0x1, 8) == Ones(1)
  {
  }

  lemma Mask2()
    ensures Hex(0x3, 8) == Ones(2)
  {
  }

  lemma Mask5()
    ensures Hex(0x1f, 8) == Ones(5)
  {
  }

  lemma Mask7()
    ensures Hex(0x7f, 8) == Ones(7)
  {
  }

  lemma Mask8()
    ensures Hex(0xff, 8) == Ones(8)
  {
    Pow2Values();
  }

  lemma Mask12()
    ensures Hex(0xfff, 8) == Ones(12)
  {
    Pow2Values();
  }

  lemma Mask16()
    ensures Hex(0xffff, 8) == Ones(16)
  {
    Pow2Values();
  }

  lemma Mask20()
    ensures Hex(0xfffff, 8) == Ones(20)
  {
    Pow2Add(8, 12);
    Pow2Values();
  }

  lemma Mask24()
    ensures Hex(0xffffff, 8) == Ones(24)
  {
    Pow2Values();
  }

  lemma Mask25()
    ensures Hex(0x1ffffff, 8) == Ones(25)
  {
    Pow2Add(1, 24);
    Pow2Values();
  }

  lemma Mask27()
    ensures Hex(0x7ffffff, 8) == Ones(27)
  {
    Pow2Add(3, 24);
    Pow2Values();
  }

  lemma Mask30()
    ensures Hex(0x3fffffff, 8) == Ones(30)
  {
    Pow2Add(6, 24);
    Pow2Values();
  }

  lemma Mask31()
    ensures Hex(0x7fffffff, 8) == Ones(31)
  {
    Pow2Values();
  }

  function Rotate1(v: Bv): Bv { (v << 1) | (v >> 31) }

  lemma Rotate1Parts(v: Bv)
    ensures AndBv(v, 0x7fffffff) == Rotate1(v) >> 1 && AndBv(Rotate1(v), 0x1) == v >> 31
  {
  }

  lemma Rotate1Shifts(v: Bv, y: Bv, c: nat, d: nat) returns (top: Bv, rest: Bv, maskC: Bv, maskD: Bv)
    requires y == Rotate1(v) && c == 1 && d == 31
    ensures RotatesBy(v, y, top, rest, c, d, maskC, maskD)
  {
    Rotate1Parts(v);
    Mask1();
    Mask31();
    HalvedBv31(v, d);
    HalvedBv1(y, c);
    top, rest, maskC, maskD := v >> 31, y >> 1, 0x1, 0x7fffffff;
  }

  lemma Rotate1Is(v: Bv, size: nat, c: nat, d: nat, k: nat)
    requires c == 1 && d == 31 && c + d == size == 4 * k
    ensures Num(v, size) < 0x1_0000_0000 && Num(Rotate1(v), size) == Rotl(Num(v, size), c)
  {
    var y := Rotate1(v);
    var top, rest, maskC, maskD := Rotate1Shifts(v, y, c, d);
    RotateIs(v, y, top, rest, size, c, d, maskC, maskD, k);
  }

  function Rotate5(v: Bv): Bv { (v << 5) | (v >> 27) }

  lemma Rotate5Parts(v: Bv)
    ensures AndBv(v, 0x7ffffff) == Rotate5(v) >> 5 && AndBv(Rotate5(v), 0x1f) == v >> 27
  {
  }

  lemma Rotate5Shifts(v: Bv, y: Bv, c: nat, d: nat) returns (top: Bv, rest: Bv, maskC: Bv, maskD: Bv)
    requires y == Rotate5(v) && c == 5 && d == 27
    ensures RotatesBy(v, y, top, rest, c, d, maskC, maskD)
  {
    Rotate5Parts(v);
    Mask5();
    Mask27();
    HalvedBv27(v, d);
    HalvedBv5(y, c);
    top, rest, maskC, maskD := v >> 27, y >> 5, 0x1f, 0x7ffffff;
  }

  lemma Rotate5Is(v: Bv, size: nat, c: nat, d: nat, k: nat)
    requires c == 5 && d == 27 && c + d == size == 4 * k
    ensures Num(v, size) < 0x1_0000_0000 && Num(Rotate5(v), size) == Rotl(Num(v, size), c)
  {
    var y := Rotate5(v);
    var top, rest, maskC, maskD := Rotate5Shifts(v, y, c, d);
    RotateIs(v, y, top, rest, size, c, d, maskC, maskD, k);
  }

  function Rotate7(v: Bv): Bv { (v << 7) | (v >> 25) }

  lemma Rotate7Parts(v: Bv)
    ensures AndBv(v, 0x1ffffff) == Rotate7(v) >> 7 && AndBv(Rotate7(v), 0x7f) == v >> 25
  {
  }

  lemma Rotate7Shifts(v: Bv, y: Bv, c: nat, d: nat) returns (top: Bv, rest: Bv, maskC: Bv, maskD: Bv)
    requires y == Rotate7(v) && c == 7 && d == 25
    ensures RotatesBy(v, y, top, rest, c, d, maskC, maskD)
  {
    Rotate7Parts(v);
    Mask7();
    Mask25();
    HalvedBv25(v, d);
    HalvedBv7(y, c);
    top, rest, maskC, maskD := v >> 25, y >> 7, 0x7f, 0x1ffffff;
  }

  lemma Rotate7Is(v: Bv, size: nat, c: nat, d: nat, k: nat)
    requires c == 7 && d == 25 && c + d == size == 4 * k
    ensures Num(v, size) < 0x1_0000_0000 && Num(Rotate7(v), size) == Rotl(Num(v, size), c)
  {
    var y := Rotate7(v);
    var top, rest, maskC, maskD := Rotate7Shifts(v, y, c, d);
    RotateIs(v, y, top, rest, size, c, d, maskC, maskD, k);
  }

  function Rotate8(v: Bv): Bv { (v << 8) | (v >> 24) }

  lemma Rotate8Parts(v: Bv)
    ensures AndBv(v, 0xffffff) == Rotate8(v) >> 8 && AndBv(Rotate8(v), 0xff) == v >> 24
  {
  }

  lemma Rotate8Shifts(v: Bv, y: Bv, c: nat, d: nat) returns (top: Bv, rest: Bv, maskC: Bv, maskD: Bv)
    requires y == Rotate8(v) && c == 8 && d == 24
    ensures RotatesBy(v, y, top, rest, c, d, maskC, maskD)
  {
    Rotate8Parts(v);
    Mask8();
    Mask24();
    HalvedBv24(v, d);
    HalvedBv8(y, c);
    top, rest, maskC, maskD := v >> 24, y >> 8, 0xff, 0xffffff;
  }

  lemma Rotate8Is(v: Bv, size: nat, c: nat, d: nat, k: nat)
    requires c == 8 && d == 24 && c + d == size == 4 * k
    ensures Num(v, size) < 0x1_0000_0000 && Num(Rotate8(v), size) == Rotl(Num(v, size), c)
  {
    var y := Rotate8(v);
    var top, rest, maskC, maskD := Rotate8Shifts(v, y, c, d);
    RotateIs(v, y, top, rest, size, c, d, maskC, maskD, k);
  }

  function Rotate12(v: Bv): Bv { (v << 12) | (v >> 20) }

  lemma Rotate12Parts(v: Bv)
    ensures AndBv(v, 0xfffff) == Rotate12(v) >> 12 && AndBv(Rotate12(v), 0xfff) == v >> 20
  {
  }

  lemma Rotate12Shifts(v: Bv, y: Bv, c: nat, d: nat) returns (top: Bv, rest: Bv, maskC: Bv, maskD: Bv)
    requires y == Rotate12(v) && c == 12 && d == 20
    ensures RotatesBy(v, y, top, rest, c, d, maskC, maskD)
  {
    Rotate12Parts(v);
    Mask12();
    Mask20();
    HalvedBv20(v, d);
    HalvedBv12(y, c);
    top, rest, maskC, maskD := v >> 20, y >> 12, 0xfff, 0xfffff;
  }

  lemma Rotate12Is(v: Bv, size: nat, c: nat, d: nat, k: nat)
    requires c == 12 && d == 20 && c + d == size == 4 * k
    ensures Num(v, size) < 0x1_0000_0000 && Num(Rotate12(v), size) == Rotl(Num(v, size), c)
  {
    var y := Rotate12(v);
    var top, rest, maskC, maskD := Rotate12Shifts(v, y, c, d);
    RotateIs(v, y, top, rest, size, c, d, maskC, maskD, k);
  }

  function Rotate16(v: Bv): Bv { (v << 16) | (v >> 16) }

  lemma Rotate16Parts(v: Bv)
    ensures AndBv(v, 0xffff) == Rotate16(v) >> 16 && AndBv(Rotate16(v), 0xffff) == v >> 16
  {
  }

  lemma Rotate16Shifts(v: Bv, y: Bv, c: nat, d: nat) returns (top: Bv, rest: Bv, maskC: Bv, maskD: Bv)
    requires y == Rotate16(v) && c == 16 && d == 16
    ensures RotatesBy(v, y, top, rest, c, d, maskC, maskD)
  {
    Rotate16Parts(v);
    Mask16();
    HalvedBv16(v, d);
    HalvedBv16(y, c);
    top, rest, maskC, maskD := v >> 16, y >> 16, 0xffff, 0xffff;
  }

  lemma Rotate16Is(v: Bv, size: nat, c: nat, d: nat, k: nat)
    requires c == 16 && d == 16 && c + d == size == 4 * k
    ensures Num(v, size) < 0x1_0000_0000 && Num(Rotate16(v), size) == Rotl(Num(v, size), c)
  {
    var y := Rotate16(v);
    var top, rest, maskC, maskD := Rotate16Shifts(v, y, c, d);
    RotateIs(v, y, top, rest, size, c, d, maskC, maskD, k);
  }

  function Rotate30(v: Bv): Bv { (v << 30) | (v >> 2) }

  lemma Rotate30Parts(v: Bv)
    ensures AndBv(v, 0x3) == Rotate30(v) >> 30 && AndBv(Rotate30(v), 0x3fffffff) == v >> 2
  {
  }

  lemma Rotate30Shifts(v: Bv, y: Bv, c: nat, d: nat) returns (top: Bv, rest: Bv, maskC: Bv, maskD: Bv)
    requires y == Rotate30(v) && c == 30 && d == 2
    ensures RotatesBy(v, y, top, rest, c, d, maskC, maskD)
  {
    Rotate30Parts(v);
    Mask30();
    Mask2();
    HalvedBv2(v, d);
    HalvedBv30(y, c);
    top, rest, maskC, maskD := v >> 2, y >> 30, 0x3fffffff, 0x3;
  }

  lemma Rotate30Is(v: Bv, size: nat, c: nat, d: nat, k: nat)
    requires c == 30 && d == 2 && c + d == size == 4 * k
    ensures Num(v, size) < 0x1_0000_0000 && Num(Rotate30(v), size) == Rotl(Num(v, size), c)
  {
    var y := Rotate30(v);
    var top, rest, maskC, maskD := Rotate30Shifts(v, y, c, d);
    RotateIs(v, y, top, rest, size, c, d, maskC, maskD, k);
  }

  // ---------- Sums ----------

  function AddBv(x: Bv, y: Bv): Bv { x + y }
  function IncBv(v: Bv): Bv { v + 1 }
  function DecBv(v: Bv): Bv { v - 1 }
  function ShiftBv(v: Bv, b: bool): Bv { if b then (v << 1) | 1 else v << 1 }

  function VectorCounter(): Counter<Bv> { Counter(IncBv, ShiftBv) }

  lemma ShiftHalf(v: Bv, b: bool)
    ensures HalfBv(ShiftBv(v, b)) == AndBv(v, 0x7fffffff) && OddBv(ShiftBv(v, b)) == b
  {
  }

  lemma LowMask(w: Machine<Bv>, n: nat, k: nat)
    requires w == Vectors(w.size) && w.size == 4 * k && k == 8 && n < w.size
    ensures LowBits(w, 0x7fffffff, n) == Ones(n)
  {
    Mask31();
    MaskOnes(0x7fffffff, w.size, w.size - 1, k);
    OnesLow(w, 0x7fffffff, n, w.size - 1);
  }

  lemma ShiftsVectors(w: Machine<Bv>, k: nat)
    requires w == Vectors(w.size) && w.size == 4 * k && k == 8
    ensures Shifts(w, VectorCounter())
  {
    var a := VectorCounter();
    forall v, b, n: nat | n < w.size ensures LowBits(w, a.shift(v, b), n + 1) == BitNumber(b) + 2 * LowBits(w, v, n) {
      ShiftHalf(v, b);
      LowMask(w, n, k);
      XorVectors(w, w.size);
      AndVectors(w, w.size);
      DoubleNumber(w, v, ShiftBv(v, b), 0x7fffffff, n);
    }
  }

  lemma IncrementEven(v: Bv)
    requires !OddBv(v)
    ensures IncBv(v) == ShiftBv(HalfBv(v), true)
  {
  }

  lemma IncrementOdd(v: Bv)
    requires OddBv(v)
    ensures IncBv(v) == ShiftBv(IncBv(HalfBv(v)), false)
  {
  }

  lemma IncrementsVectors(w: Machine<Bv>, size: nat)
    requires w == Vectors(size)
    ensures Increments(w, VectorCounter())
  {
    forall v ensures IncAt(w, VectorCounter(), v) {
      if OddBv(v) {
        IncrementOdd(v);
      } else {
        IncrementEven(v);
      }
    }
  }

  lemma NumInc(v: Bv, size: nat, k: nat)
    requires size == 4 * k && k == 8
    ensures Num(IncBv(v), size) == (Num(v, size) + 1) % Pow2(size)
  {
    var w := Vectors(size);
    ShiftsVectors(w, k);
    IncrementsVectors(w, size);
    IncNumber(w, VectorCounter(), v, size);
  }

  lemma LowZero(v: Bv)
    requires Nibble(v) == 0 && Nibble(v >> 4) == 0 && Nibble(v >> 8) == 0 && Nibble(v >> 12) == 0
    ensures v & 0xFFFF == 0
  {
  }

  lemma Shift8(v: Bv)
    ensures v >> 8 == NextNibble(v >> 4)
  {
  }

  lemma Shift12(v: Bv)
    ensures v >> 12 == NextNibble(v >> 8)
  {
  }

  lemma Shift16(v: Bv)
    ensures v >> 16 == NextNibble(v >> 12)
  {
  }

  lemma HexZeroLow(v: Bv, k: nat)
    requires k >= 4 && Hex(v, k) == 0
    ensures v & 0xFFFF == 0 && Hex(v >> 16, k - 4) == 0
  {
    Shift8(v);
    Shift12(v);
    Shift16(v);
    HexZero(Nibble, NextNibble, v, v >> 4, v >> 8, v >> 12, v >> 16, k);
    LowZero(v);
  }

  lemma HalvesZero(v: Bv)
    requires v & 0xFFFF == 0 && (v >> 16) & 0xFFFF == 0
    ensures v == 0
  {
  }

  lemma NumZero(v: Bv, size: nat, k: nat)
    requires size == 4 * k && k == 8 && Num(v, size) == 0
    ensures v == 0
  {
    NumHex(v, size, k);
    HexZeroLow(v, k);
    HexZeroLow(v >> 16, k - 4);
    HalvesZero(v);
  }

  function SumNum(x: Bv, y: Bv, size: nat): nat { Num(x + y, size) }

  lemma Trade(x: Bv, y: Bv, size: nat)
    ensures SumNum(x + 1, y - 1, size) == SumNum(x, y, size)
  {
  }

  lemma TradeOne(x: Bv, y: Bv, size: nat)
    ensures SumNum(IncBv(x), DecBv(y), size) == SumNum(x, y, size) && IncBv(DecBv(y)) == y
  {
    Trade(x, y, size);
  }

  lemma SumZero(x: Bv, size: nat)
    ensures SumNum(x, 0, size) == Num(x, size)
  {
  }

  lemma PairCounts(x: Bv, y: Bv, size: nat, k: nat)
    requires size == 4 * k && k == 8
    ensures SumNum(IncBv(x), DecBv(y), size) == SumNum(x, y, size) && SumNum(x, 0, size) == Num(x, size)
    ensures IncBv(DecBv(y)) == y && Num(IncBv(x), size) == (Num(x, size) + 1) % Pow2(size)
    ensures Num(x, size) < Pow2(size) && (Num(x, size) == 0 ==> x == 0)
  {
    TradeOne(x, y, size);
    SumZero(x, size);
    NumInc(x, size, k);
    NumberBound(OddBv, HalfBv, x, size);
    if Num(x, size) == 0 {
      NumZero(x, size, k);
    }
  }

  lemma CountsVectors(num: Bv -> nat, a: Adder<Bv>, size: nat, k: nat)
    requires size == 4 * k && k == 8 && forall v :: num(v) == Num(v, size)
    requires a == Adder((x, y) => SumNum(x, y, size), IncBv, DecBv, 0)
    ensures Counts(num, a, Pow2(size))
  {
    forall x, y ensures CountsAt(num, a, Pow2(size), x, y) {
      PairCounts(x, y, size, k);
      assert a.inc(x) == IncBv(x) && a.dec(y) == DecBv(y);
    }
  }

  /** The sum of bit vectors is the sum of their numbers, modulo the size. */
  lemma NumSum(x: Bv, y: Bv, size: nat, k: nat)
    requires size == 4 * k && k == 8
    ensures SumNum(x, y, size) == (Num(x, size) + Num(y, size)) % Pow2(size)
  {
    var num := v => Num(v, size);
    var a := Adder((x, y) => SumNum(x, y, size), IncBv, DecBv, 0);
    CountsVectors(num, a, size, k);
    SumNumber(num, a, Pow2(size), x, y);
  }

  // ---------- Words ----------

  /** num gives the words. */
  ghost predicate Reads(num: Bv -> u32, size: nat) {
    forall v {:trigger num(v)} :: num(v) == Num(v, size)
  }

  lemma AddNum(x: Bv, y: Bv, size: nat)
    ensures Num(AddBv(x, y), size) == SumNum(x, y, size)
  {
  }

  lemma AddParts(num: Bv -> u32, size: nat, x: Bv, y: Bv, z: Bv)
    requires Reads(num, size) && Num(z, size) == (Num(x, size) + Num(y, size)) % Pow2(size)
    requires Pow2(size) == 0x1_0000_0000
    ensures num(z) == Add32(num(x), num(y))
  {
  }

  lemma SizePower(size: nat)
    requires size == 32
    ensures Pow2(size) == 0x1_0000_0000
  {
    Pow2Values();
  }

  lemma AddIs(num: Bv -> u32, size: nat, k: nat, x: Bv, y: Bv)
    requires Reads(num, size) && size == 4 * k && k == 8
    ensures num(AddBv(x, y)) == Add32(num(x), num(y))
  {
    AddNum(x, y, size);
    NumSum(x, y, size, k);
    SizePower(size);
    AddParts(num, size, x, y, AddBv(x, y));
  }

  lemma XorIs(num: Bv -> u32, size: nat, x: Bv, y: Bv)
    requires Reads(num, size)
    ensures num(XorBv(x, y)) == Xor32(num(x), num(y))
  {
    var w := Vectors(size);
    XorVectors(w, size);
    XorNumber(OddBv, HalfBv, XorBv, x, y, size);
  }

  lemma AndIs(num: Bv -> u32, size: nat, x: Bv, y: Bv)
    requires Reads(num, size)
    ensures num(AndBv(x, y)) == And(num(x), num(y))
  {
    var w := Vectors(size);
    AndVectors(w, size);
    AndNumber(OddBv, HalfBv, AndBv, x, y, size);
  }

  function WordOf(v: Bv): u32 {
    NumHex(v, 32, 8);
    NumBound(v, 32);
    Hex(v, 8)
  }

  function LowWord(v: Bv): nat {
    Nibble(v) + 0x10 * Nibble(v >> 4) + 0x100 * Nibble(v >> 8) + 0x1000 * Nibble(v >> 12)
  }

  lemma LowDigits(v: Bv, k: nat)
    requires k >= 4
    ensures Hex(v, k) == LowWord(v) + 0x10000 * Hex(v >> 16, k - 4)
  {
    Shift8(v);
    Shift12(v);
    Shift16(v);
    assert Hex(v >> 12, k - 3) == Nibble(v >> 12) + 16 * Hex(v >> 16, k - 4);
    assert Hex(v >> 8, k - 2) == Nibble(v >> 8) + 16 * Hex(v >> 12, k - 3);
    assert Hex(v >> 4, k - 1) == Nibble(v >> 4) + 16 * Hex(v >> 8, k - 2);
  }

  lemma WordParts(v: Bv, k: nat)
    requires k == 8
    ensures WordOf(v) == LowWord(v) + 0x10000 * LowWord(v >> 16)
  {
    LowDigits(v, k);
    LowDigits(v >> 16, k - 4);
  }

  /** The two halves of v are those of w. */
  predicate Spells(v: Bv, w: nat) { LowWord(v) == w % 0x10000 && LowWord(v >> 16) == w / 0x10000 }

  lemma WordIs(v: Bv, w: nat)
    requires Spells(v, w)
    ensures WordOf(v) == w
  {
    WordParts(v, 8);
  }

  lemma WordReads(size: nat, k: nat)
    requires size == 4 * k && k == 8
    ensures Reads(WordOf, size)
  {
    forall v ensures WordOf(v) == Num(v, size) {
      NumHex(v, size, k);
    }
  }
}
