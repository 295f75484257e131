/** Words of any type that has a lowest bit and a half, and the operators of Bits on their numbers. */
module WordBits {
  import opened Bits
  import opened Modular

  function BitNumber(b: bool): nat { if b then 1 else 0 }

  /** The number of the n low bits. */
  function Number<T>(bit: T -> bool, half: T -> T, v: T, n: nat): nat {
    if n == 0 then 0 else BitNumber(bit(v)) + 2 * Number(bit, half, half(v), n - 1)
  }

  lemma {:induction false} NumberBound<T>(bit: T -> bool, half: T -> T, v: T, n: nat)
    ensures Number(bit, half, v, n) < Pow2(n)
  {
    if n > 0 {
      NumberBound(bit, half, half(v), n - 1);
    }
  }

  lemma XorNext(x: nat, y: nat, u: nat, v: nat, a: bool, b: bool)
    requires x == 2 * u + BitNumber(a) && y == 2 * v + BitNumber(b)
    ensures Xor(x, y) == BitNumber(a != b) + 2 * Xor(u, v)
  {
    BitsDiffer(a, b);
    XorBit(u, v, BitNumber(a), BitNumber(b));
  }

  lemma BitsDiffer(a: bool, b: bool)
    ensures (BitNumber(a) + BitNumber(b)) % 2 == BitNumber(a != b)
  {
  }

  lemma {:induction false} XorNumber<T(!new)>(bit: T -> bool, half: T -> T, xor: (T, T) -> T, x: T, y: T, n: nat)
    requires forall a, b :: half(xor(a, b)) == xor(half(a), half(b)) && bit(xor(a, b)) == (bit(a) != bit(b))
    ensures Number(bit, half, xor(x, y), n) == Xor(Number(bit, half, x, n), Number(bit, half, y, n))
  {
    if n > 0 {
      XorNumber(bit, half, xor, half(x), half(y), n - 1);
      XorNext(Number(bit, half, x, n), Number(bit, half, y, n), Number(bit, half, half(x), n - 1),
        Number(bit, half, half(y), n - 1), bit(x), bit(y));
    }
  }

  lemma AndNext(x: nat, y: nat, u: nat, v: nat, a: bool, b: bool)
    requires x == BitNumber(a) + 2 * u && y == BitNumber(b) + 2 * v
    ensures And(x, y) == BitNumber(a && b) + 2 * And(u, v)
  {
    AndBit(u, v, BitNumber(a), BitNumber(b));
  }

  lemma {:induction false} AndNumber<T(!new)>(bit: T -> bool, half: T -> T, and: (T, T) -> T, x: T, y: T, n: nat)
    requires forall a, b :: half(and(a, b)) == and(half(a), half(b)) && bit(and(a, b)) == (bit(a) && bit(b))
    ensures Number(bit, half, and(x, y), n) == And(Number(bit, half, x, n), Number(bit, half, y, n))
  {
    if n > 0 {
      AndNumber(bit, half, and, half(x), half(y), n - 1);
      AndNext(Number(bit, half, x, n), Number(bit, half, y, n), Number(bit, half, half(x), n - 1),
        Number(bit, half, half(y), n - 1), bit(x), bit(y));
    }
  }

  function Halved<T>(half: T -> T, v: T, s: nat): T { if s == 0 then v else Halved(half, half(v), s - 1) }

  lemma {:induction false} HalvedMore<T>(half: T -> T, v: T, s: nat, t: nat)
    ensures Halved(half, v, s + t) == Halved(half, Halved(half, v, s), t)
  {
    if s > 0 {
      HalvedMore(half, half(v), s - 1, t);
    }
  }

  lemma {:induction false} NumberSplit<T>(bit: T -> bool, half: T -> T, v: T, s: nat, n: nat)
    ensures Number(bit, half, v, s + n)
      == Number(bit, half, v, s) + Shl(Number(bit, half, Halved(half, v, s), n), s)
  {
    var high := Number(bit, half, Halved(half, v, s), n);
    if s > 0 {
      NumberSplit(bit, half, half(v), s - 1, n);
      DoubleShl(high, s);
    } else {
      assert Shl(high, 0) == high;
    }
  }

  /** Fewer bits are the remainder. */
  lemma NumberLow<T>(bit: T -> bool, half: T -> T, v: T, m: nat, n: nat)
    requires m <= n
    ensures Number(bit, half, v, m) == Number(bit, half, v, n) % Pow2(m)
  {
    NumberSplit(bit, half, v, m, n - m);
    NumberBound(bit, half, v, m);
    var q, r := Number(bit, half, Halved(half, v, m), n - m), Number(bit, half, v, m);
    DivModUnique(Number(bit, half, v, n), Pow2(m), q, r);
  }

  // ---------- Machine words ----------

  /** The operators on a type of words of so many bits. */
  datatype Machine<!T> = Machine(size: nat, bit: T -> bool, half: T -> T, xor: (T, T) -> T, and: (T, T) -> T)

  function LowBits<T>(w: Machine<T>, v: T, n: nat): nat { Number(w.bit, w.half, v, n) }

  ghost predicate Xors<T(!new)>(w: Machine<T>) {
    forall a, b :: w.half(w.xor(a, b)) == w.xor(w.half(a), w.half(b)) && w.bit(w.xor(a, b)) == (w.bit(a) != w.bit(b))
  }

  ghost predicate Ands<T(!new)>(w: Machine<T>) {
    forall a, b :: w.half(w.and(a, b)) == w.and(w.half(a), w.half(b)) && w.bit(w.and(a, b)) == (w.bit(a) && w.bit(b))
  }

  ghost predicate Bitwise<T(!new)>(w: Machine<T>) { Xors(w) && Ands(w) }

  /** Counting by halves: the next word, and a shift that brings in a bit. */
  datatype Counter<!T> = Counter(inc: T -> T, shift: (T, bool) -> T)

  ghost predicate Shifts<T(!new)>(w: Machine<T>, a: Counter<T>) {
    forall v, b, n: nat | n < w.size :: LowBits(w, a.shift(v, b), n + 1) == BitNumber(b) + 2 * LowBits(w, v, n)
  }

  predicate IncAt<T(==)>(w: Machine<T>, a: Counter<T>, v: T) {
    a.inc(v) == if w.bit(v) then a.shift(a.inc(w.half(v)), false) else a.shift(w.half(v), true)
  }

  ghost predicate Increments<T(!new)>(w: Machine<T>, a: Counter<T>) { forall v :: IncAt(w, a, v) }

  lemma IncStep(b: bool, h: nat, n: nat)
    requires n > 0 && h < Pow2(n - 1)
    ensures (BitNumber(b) + 2 * h + 1) % Pow2(n) == if b then 2 * ((h + 1) % Pow2(n - 1)) else 1 + 2 * h
  {
    if b {
      ModHalf(2 * h + 2, n);
      DivModUnique(2 * h + 2, 2, h + 1, 0);
    } else {
      DivModUnique(2 * h + 1, Pow2(n), 0, 2 * h + 1);
    }
  }

  lemma {:induction false} IncNumber<T(!new)>(w: Machine<T>, a: Counter<T>, v: T, n: nat)
    requires Shifts(w, a) && Increments(w, a) && n <= w.size
    ensures LowBits(w, a.inc(v), n) == (LowBits(w, v, n) + 1) % Pow2(n)
  {
    if n > 0 {
      NumberBound(w.bit, w.half, w.half(v), n - 1);
      IncStep(w.bit(v), LowBits(w, w.half(v), n - 1), n);
      IncNumber(w, a, w.half(v), n - 1);
      assert IncAt(w, a, v);
      assert LowBits(w, a.shift(a.inc(w.half(v)), false), (n - 1) + 1) == 2 * LowBits(w, a.inc(w.half(v)), n - 1);
      assert LowBits(w, a.shift(w.half(v), true), (n - 1) + 1) == 1 + 2 * LowBits(w, w.half(v), n - 1);
    }
  }

  /** Addition, by counting up from one number and down from the other. */
  datatype Adder<!T> = Adder(sum: (T, T) -> nat, inc: T -> T, dec: T -> T, zero: T)

  predicate CountsAt<T(==)>(num: T -> nat, a: Adder<T>, m: nat, x: T, y: T)
    requires m > 0
  {
    && a.sum(a.inc(x), a.dec(y)) == a.sum(x, y) && a.sum(x, a.zero) == num(x)
    && a.inc(a.dec(y)) == y && num(a.inc(x)) == (num(x) + 1) % m && num(x) < m && (num(x) == 0 ==> x == a.zero)
  }

  ghost predicate Counts<T(!new)>(num: T -> nat, a: Adder<T>, m: nat)
    requires m > 0
  {
    forall x, y :: CountsAt(num, a, m, x, y)
  }

  lemma OneLess(y: nat, d: nat, m: nat)
    requires y > 0 && d < m && y == (d + 1) % m
    ensures d == y - 1
  {
    if d + 1 < m {
      DivModUnique(d + 1, m, 0, d + 1);
    }
  }

  lemma SumShifted(x: nat, y: nat, m: nat)
    requires m > 0 && y > 0
    ensures ((x + 1) % m + (y - 1)) % m == (x + y) % m
  {
    ModTerm(m, x + 1, y - 1);
  }

  /** Such a sum is addition modulo m. */
  lemma {:induction false} SumNumber<T(!new)>(num: T -> nat, a: Adder<T>, m: nat, x: T, y: T)
    requires m > 0 && Counts(num, a, m)
    ensures a.sum(x, y) == (num(x) + num(y)) % m
    decreases num(y)
  {
    assert CountsAt(num, a, m, x, y);
    assert CountsAt(num, a, m, y, y);
    if num(y) == 0 {
      DivModUnique(num(x), m, 0, num(x));
    } else {
      assert CountsAt(num, a, m, a.dec(y), y);
      OneLess(num(y), num(a.dec(y)), m);
      SumNumber(num, a, m, a.inc(x), a.dec(y));
      SumShifted(num(x), num(y), m);
    }
  }

  /** A rotation: the two parts of the word change places. */
  lemma RotateNumber<T(!new)>(w: Machine<T>, x: T, y: T, top: T, rest: T, c: nat, d: nat, maskC: T, maskD: T)
    requires Bitwise(w) && w.size == c + d
    requires Halved(w.half, x, d) == top && Halved(w.half, y, c) == rest
    requires w.and(y, maskC) == top && w.and(x, maskD) == rest
    requires LowBits(w, maskC, c) == Ones(c) && LowBits(w, maskD, d) == Ones(d)
    ensures LowBits(w, y, w.size) == Shr(LowBits(w, x, w.size), d) + Shl(LowBits(w, x, w.size) % Pow2(d), c)
  {
    NumberSplit(w.bit, w.half, x, d, c);
    NumberSplit(w.bit, w.half, y, c, d);
    NumberBound(w.bit, w.half, x, d);
    DivModUnique(LowBits(w, x, w.size), Pow2(d), LowBits(w, top, c), LowBits(w, x, d));
    Masked(w, y, maskC, c);
    Masked(w, x, maskD, d);
  }

  lemma Masked<T(!new)>(w: Machine<T>, x: T, mask: T, n: nat)
    requires Bitwise(w) && LowBits(w, mask, n) == Ones(n)
    ensures LowBits(w, w.and(x, mask), n) == LowBits(w, x, n)
  {
    AndNumber(w.bit, w.half, w.and, x, mask, n);
    AndLowMask(LowBits(w, x, n), n);
    NumberBound(w.bit, w.half, x, n);
    DivModUnique(LowBits(w, x, n), Pow2(n), 0, LowBits(w, x, n));
  }

  // ---------- Hexadecimal ----------

  type digit = d: nat | d < 16

  /** Four bits are a digit, and next drops them. */
  ghost predicate Digits<T(!new)>(bit: T -> bool, half: T -> T, digitOf: T -> digit, next: T -> T) {
    forall v :: Four(bit, half, v, digitOf(v), next(v))
  }

  ghost predicate Four<T(!new)>(bit: T -> bool, half: T -> T, v: T, d: digit, rest: T) {
    forall n: nat, m: nat | m == n + 4 :: Number(bit, half, v, m) == d + 16 * Number(bit, half, rest, n)
  }

  function HexNumber<T>(digitOf: T -> digit, next: T -> T, v: T, k: nat): nat {
    if k == 0 then 0 else digitOf(v) + 16 * HexNumber(digitOf, next, next(v), k - 1)
  }

  lemma {:induction false} NumberHex<T(!new)>(bit: T -> bool, half: T -> T, digitOf: T -> digit, next: T -> T,
                                              v: T, k: nat)
    requires Digits(bit, half, digitOf, next)
    ensures Number(bit, half, v, 4 * k) == HexNumber(digitOf, next, v, k)
  {
    if k > 0 {
      NumberHex(bit, half, digitOf, next, next(v), k - 1);
      assert Four(bit, half, v, digitOf(v), next(v));
      assert Number(bit, half, v, 4 * k) == digitOf(v) + 16 * Number(bit, half, next(v), 4 * (k - 1));
    }
  }

  lemma HexZero<T>(digitOf: T -> digit, next: T -> T, v0: T, v1: T, v2: T, v3: T, v4: T, k: nat)
    requires k >= 4 && HexNumber(digitOf, next, v0, k) == 0
    requires v1 == next(v0) && v2 == next(v1) && v3 == next(v2) && v4 == next(v3)
    ensures digitOf(v0) == digitOf(v1) == digitOf(v2) == digitOf(v3) == 0 && HexNumber(digitOf, next, v4, k - 4) == 0
  {
    assert HexNumber(digitOf, next, v1, k - 1) == 0;
    assert HexNumber(digitOf, next, v2, k - 2) == 0;
    assert HexNumber(digitOf, next, v3, k - 3) == 0;
  }

  /** Doubling by a shift, where half of it is the number but for its first bit. */
  lemma DoubleNumber<T(!new)>(w: Machine<T>, v: T, d: T, mask: T, n: nat)
    requires Bitwise(w) && w.half(d) == w.and(v, mask) && LowBits(w, mask, n) == Ones(n)
    ensures LowBits(w, d, n + 1) == BitNumber(w.bit(d)) + 2 * LowBits(w, v, n)
  {
    Masked(w, v, mask, n);
  }

  /** A mask of ones masks fewer bits as well. */
  lemma OnesLow<T>(w: Machine<T>, mask: T, m: nat, n: nat)
    requires m <= n && LowBits(w, mask, n) == Ones(n)
    ensures LowBits(w, mask, m) == Ones(m)
  {
    NumberLow(w.bit, w.half, mask, m, n);
    Pow2Add(m, n - m);
    assert Ones(n) == (Pow2(n - m) - 1) * Pow2(m) + Ones(m);
    DivModUnique(Ones(n), Pow2(m), Pow2(n - m) - 1, Ones(m));
  }
}
