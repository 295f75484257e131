/** Congruence modulo m, by explicit quotient. */
module Modular {
  import opened Bits

  ghost predicate Differ(m: int, x: int, y: int, k: int) { x == y + m * k }

  ghost predicate Congruent(m: int, x: int, y: int) { exists k: int :: Differ(m, x, y, k) }

  lemma CongruentBy(m: int, x: int, y: int, k: int)
    requires x == y + m * k
    ensures Congruent(m, x, y)
  {
    assert Differ(m, x, y, k);
  }

  lemma CongruentSame(m: int, x: int)
    ensures Congruent(m, x, x)
  {
    CongruentBy(m, x, x, 0);
  }

  lemma CongruentSym(m: int, x: int, y: int)
    requires Congruent(m, x, y)
    ensures Congruent(m, y, x)
  {
    var k :| Differ(m, x, y, k);
    CongruentBy(m, y, x, -k);
  }

  lemma CongruentTrans(m: int, x: int, y: int, z: int)
    requires Congruent(m, x, y) && Congruent(m, y, z)
    ensures Congruent(m, x, z)
  {
    var k :| Differ(m, x, y, k);
    var l :| Differ(m, y, z, l);
    CongruentBy(m, x, z, k + l);
  }

  lemma CongruentAdd(m: int, x: int, y: int, u: int, v: int)
    requires Congruent(m, x, y) && Congruent(m, u, v)
    ensures Congruent(m, x + u, y + v) && Congruent(m, x - u, y - v)
  {
    var k :| Differ(m, x, y, k);
    var l :| Differ(m, u, v, l);
    CongruentBy(m, x + u, y + v, k + l);
    CongruentBy(m, x - u, y - v, k - l);
  }

  lemma CongruentScale(m: int, x: int, y: int, c: int)
    requires Congruent(m, x, y)
    ensures Congruent(m, x * c, y * c)
  {
    var k :| Differ(m, x, y, k);
    assert x * c == (y + m * k) * c == y * c + m * (k * c);
    CongruentBy(m, x * c, y * c, k * c);
  }

  lemma CongruentMul(m: int, x: int, y: int, u: int, v: int)
    requires Congruent(m, x, y) && Congruent(m, u, v)
    ensures Congruent(m, x * u, y * v)
  {
    CongruentScale(m, x, y, u);
    CongruentScale(m, u, v, y);
    CongruentTrans(m, x * u, y * u, y * v);
  }

  /** The least residue is the remainder. */
  lemma CongruentMod(m: nat, x: nat, y: nat)
    requires Congruent(m, x, y) && x < m
    ensures y % m == x
  {
    CongruentSym(m, x, y);
    var k :| Differ(m, y, x, k);
    DivModUnique(y, m, k, x);
  }

  lemma CongruentSameMod(m: nat, x: nat, y: nat)
    requires m > 0 && Congruent(m, x, y)
    ensures x % m == y % m
  {
    ModCongruent(m, x);
    CongruentTrans(m, x % m, x, y);
    DivModBounds(x, m);
    CongruentMod(m, x % m, y);
  }

  lemma ModCongruent(m: nat, y: nat)
    requires m > 0
    ensures Congruent(m, y % m, y)
  {
    CongruentBy(m, y % m, y, -(y / m));
  }

  /** Factors and terms may be reduced first. */
  lemma ModFactor(m: nat, a: nat, b: nat, x: nat)
    requires m > 0
    ensures (a + b * (x % m)) % m == (a + b * x) % m
  {
    ModCongruent(m, x);
    CongruentScale(m, x % m, x, b);
    CongruentSame(m, a);
    CongruentAdd(m, a, a, b * (x % m), b * x);
    CongruentSameMod(m, a + b * (x % m), a + b * x);
  }

  lemma ModTerm(m: nat, a: nat, x: nat)
    requires m > 0
    ensures (a % m + x) % m == (a + x) % m
  {
    ModFactor(m, x, 1, a);
  }

  function Power(x: nat, n: nat): nat {
    if n == 0 then 1 else x * Power(x, n - 1)
  }

  lemma {:induction false} PowerAdd(x: nat, m: nat, n: nat)
    ensures Power(x, m + n) == Power(x, m) * Power(x, n)
  {
    if m > 0 {
      PowerAdd(x, m - 1, n);
      assert x * (Power(x, m - 1) * Power(x, n)) == x * Power(x, m - 1) * Power(x, n);
    }
  }

  /** Exponents add up under multiplication modulo m. */
  lemma CongruentPower(m: int, x: int, y: int, a: nat, i: nat, j: nat)
    requires Congruent(m, x, Power(a, i)) && Congruent(m, y, Power(a, j))
    ensures Congruent(m, x * y, Power(a, i + j))
  {
    PowerAdd(a, i, j);
    CongruentMul(m, x, Power(a, i), y, Power(a, j));
  }

  lemma OnesJoin(m: nat, n: nat)
    ensures Ones(m) * Pow2(n) + Ones(n) == Ones(m + n)
  {
    Pow2Add(m, n);
    LessOne(Pow2(m), Pow2(n));
  }

  lemma LessOne(x: int, y: int)
    ensures (x - 1) * y == x * y - y
  {
  }
}
