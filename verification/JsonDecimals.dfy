/** Numbers in the decimal system: mantissa * 10^exponent, in lowest terms. */
module JsonDecimals {
  import opened Bits
  import opened Modular

  /** The mantissa has no zero at its end, and zero has the exponent 0. */
  datatype Scaled = Scaled(mantissa: int, exponent: int)

  function Magnitude(m: int): nat { if m < 0 then 0 - m else m }

  function Lowest(m: int, e: int): Scaled
    decreases Magnitude(m)
  {
    if m == 0 then Scaled(0, 0) else if m % 10 == 0 then Lowest(m / 10, e + 1) else Scaled(m, e)
  }

  lemma {:induction false} LowestParts(m: int, e: int)
    requires m != 0
    ensures var d := Lowest(m, e);
      d.mantissa != 0 && d.mantissa % 10 != 0 && d.exponent >= e && m == d.mantissa * Power(10, d.exponent - e)
    decreases Magnitude(m)
  {
    var d := Lowest(m, e);
    if m % 10 == 0 {
      LowestParts(m / 10, e + 1);
      assert Power(10, d.exponent - e) == 10 * Power(10, d.exponent - (e + 1));
      MulAssoc(d.mantissa, Power(10, d.exponent - (e + 1)), 10);
    } else {
      assert Power(10, 0) == 1;
    }
  }

  lemma {:induction false} Shifted(m: int, e: int, k: nat)
    ensures Lowest(m * Power(10, k), e) == Lowest(m, e + k)
    decreases k
  {
    if k == 0 {
      assert Power(10, 0) == 1 && m * 1 == m;
    } else {
      var n := m * Power(10, k - 1);
      MulAssoc(m, Power(10, k - 1), 10);
      assert m * Power(10, k) == 10 * n;
      DivModUnique(10 * n, 10, n, 0);
      Shifted(m, e + 1, k - 1);
      assert m == 0 ==> n == 0;
    }
  }

  lemma {:induction false} PowerPositive(x: nat, k: nat)
    requires x > 0
    ensures Power(x, k) > 0
  {
    if k > 0 {
      PowerPositive(x, k - 1);
      MulLe(1, x, Power(x, k - 1));
    }
  }

  /** Two numbers are the same if and only if they are so in lowest terms. */
  lemma SameIff(m: int, e: int, n: int, f: int)
    requires e <= f
    ensures Lowest(m, e) == Lowest(n, f) <==> m == n * Power(10, f - e)
  {
    if m == n * Power(10, f - e) {
      Shifted(n, e, f - e);
    }
    if Lowest(m, e) == Lowest(n, f) {
      if m == 0 || n == 0 {
        ZeroOnly(m, e);
        ZeroOnly(n, f);
      } else {
        var d := Lowest(m, e);
        LowestParts(m, e);
        LowestParts(n, f);
        PowerAdd(10, d.exponent - f, f - e);
        MulAssoc(d.mantissa, Power(10, d.exponent - f), Power(10, f - e));
      }
    }
  }

  lemma SameExponent(m: int, n: int, e: int)
    ensures Lowest(m, e) == Lowest(n, e) <==> m == n
  {
    SameIff(m, e, n, e);
    assert Power(10, 0) == 1;
  }

  lemma ZeroOnly(m: int, e: int)
    ensures Lowest(m, e).mantissa == 0 <==> m == 0
  {
    if m != 0 {
      LowestParts(m, e);
    }
  }

  // ---------- Powers of ten ----------

  lemma {:induction false} TenIsTwoFives(k: nat)
    ensures Power(10, k) == Pow2(k) * Power(5, k)
  {
    if k > 0 {
      TenIsTwoFives(k - 1);
      var a, b := Pow2(k - 1), Power(5, k - 1);
      assert Pow2(k) == 2 * a && Power(5, k) == 5 * b;
      assert 2 * a * (5 * b) == 10 * (a * b);
    }
  }

  lemma TwoPower(k: nat)
    requires k >= 64
    ensures Pow2(k) == Pow2(k - 64) * 0x1_0000_0000_0000_0000
  {
    Pow2Values();
    Pow2Add(64, k - 64);
  }

  /** From 64 on the powers of ten are multiples of 2^64. */
  lemma TenPower(k: nat) returns (q: nat)
    requires k >= 64
    ensures q > 0 && Power(10, k) == q * 0x1_0000_0000_0000_0000
  {
    var a, b := Pow2(k - 64), Power(5, k);
    TwoPower(k);
    TenIsTwoFives(k);
    PowerPositive(5, k);
    MulLe(1, a, b);
    q := a * b;
    assert a * 0x1_0000_0000_0000_0000 * b == a * b * 0x1_0000_0000_0000_0000;
  }

  /** A number of 64 bits is not another one with the same low bits and an exponent as large. */
  lemma NotShifted(v: int, n: int, p: int, w: int)
    requires n != 0 && (p >= 64 || p <= -64)
    requires -0x1_0000_0000_0000_0000 < v < 0x1_0000_0000_0000_0000 && n == v + w * 0x1_0000_0000_0000_0000
    requires n % 0x1_0000_0000_0000_0000 == 0 ==> v == 0
    ensures Lowest(v, 0) != Lowest(n, p)
  {
    var m := 0x1_0000_0000_0000_0000;
    if p > 0 {
      var q := TenPower(p);
      SameIff(v, 0, n, p);
      MulAssoc(n, q, m);
      if v == n * q * m {
        NotBelow(n * q, m, v);
        MulLe(1, q, Magnitude(n));
      }
    } else {
      var q := TenPower(0 - p);
      SameIff(n, p, v, 0);
      MulAssoc(v, q, m);
      if n == v * q * m {
        DivModUnique(n, m, v * q, 0);
      }
    }
  }

  lemma NotBelow(k: int, m: nat, v: int)
    requires m > 0 && v == k * m && 0 - m < v < m
    ensures k == 0
  {
    if k > 0 {
      MulLe(1, k, m);
    } else if k < 0 {
      MulLe(k, -1, m);
    }
  }

  lemma TimesTen(m: int, t: int)
    requires m != 0 && t >= 10
    ensures m * t != m
  {
    if m > 0 {
      MulLe(10, t, m);
    } else {
      MulLe(10, t, 0 - m);
    }
  }

  /** A number other than zero is not the same with another exponent. */
  lemma OtherExponent(m: int, e: int, f: int)
    requires m != 0 && e < f
    ensures Lowest(m, e) != Lowest(m, f)
  {
    SameIff(m, e, m, f);
    var k := f - e - 1;
    PowerPositive(10, k);
    assert Power(10, f - e) == 10 * Power(10, k) >= 10;
    TimesTen(m, Power(10, f - e));
  }
}
