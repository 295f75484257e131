/** The inversion of 3rd/encrypt/src/p256.c by binary Euclid. */
module P256Inverse {
  import opened Bits
  import opened Modular
  import opened P256Number
  import opened P256Digits
  import opened P256Modular
  import opened P256Arith

  // ---------- Divisors ----------

  ghost predicate Multiple(d: int, x: int, k: int) { x == d * k }

  ghost predicate Divides(d: int, x: int) { exists k: int :: Multiple(d, x, k) }

  lemma DividesBy(d: int, x: int, k: int)
    requires x == d * k
    ensures Divides(d, x)
  {
    assert Multiple(d, x, k);
  }

  lemma DividesSum(d: int, x: int, y: int)
    requires Divides(d, x) && Divides(d, y)
    ensures Divides(d, x + y) && Divides(d, x - y)
  {
    var k :| Multiple(d, x, k);
    var l :| Multiple(d, y, l);
    DividesBy(d, x + y, k + l);
    DividesBy(d, x - y, k - l);
  }

  lemma ProductParity(x: int, y: int)
    ensures (x * y) % 2 == (x % 2) * (y % 2)
  {
    var u, v := x / 2, y / 2;
    MulSum(y, 2 * u, x % 2);
    assert y * (2 * u) == 2 * (u * y);
    if x % 2 == 0 {
      DivModUnique(x * y, 2, u * y, 0);
    } else {
      DivModUnique(x * y, 2, u * y + v, y % 2);
    }
  }

  /** A divisor of an even number and of an odd number divides the even number's half. */
  lemma DividesHalf(d: int, x: int, y: int)
    requires x % 2 == 0 && y % 2 == 1 && Divides(d, y)
    ensures Divides(d, x / 2) <==> Divides(d, x)
  {
    var l :| Multiple(d, y, l);
    ProductParity(d, l);
    if Divides(d, x) {
      var k :| Multiple(d, x, k);
      ProductParity(d, k);
      assert d * (2 * (k / 2)) == 2 * (d * (k / 2));
      DividesBy(d, x / 2, k / 2);
    }
    if Divides(d, x / 2) {
      DividesSum(d, x / 2, x / 2);
    }
  }

  ghost predicate DividesBoth(d: int, x: int, y: int) { Divides(d, x) && Divides(d, y) }

  /** x, y have the common divisors of a, b. */
  ghost predicate SameDivisors(x: int, y: int, a: int, b: int) {
    forall d: int :: DividesBoth(d, x, y) <==> DividesBoth(d, a, b)
  }

  /** g is a greatest common divisor of a and b. */
  ghost predicate IsGcd(g: int, a: int, b: int) {
    forall d: int :: Divides(d, g) <==> DividesBoth(d, a, b)
  }

  /** Its divisors are the common divisors of both. */
  lemma GcdDivisors(g: int, a: int, b: int, d: int)
    requires IsGcd(g, a, b) && d > 0
    ensures g % d == 0 <==> a % d == 0 && b % d == 0
  {
    DividesIff(d, g);
    DividesIff(d, a);
    DividesIff(d, b);
    assert Divides(d, g) <==> DividesBoth(d, a, b);
  }

  lemma DividesIff(d: int, x: int)
    requires d > 0
    ensures Divides(d, x) <==> x % d == 0
  {
    if Divides(d, x) {
      var k :| Multiple(d, x, k);
      DivModUnique(x, d, k, 0);
    } else if x % d == 0 {
      DividesBy(d, x, x / d);
    }
  }

  lemma HalfKeepsDivisors(x: int, y: int, a: int, b: int)
    requires x % 2 == 0 && y % 2 == 1 && SameDivisors(x, y, a, b)
    ensures SameDivisors(x / 2, y, a, b)
  {
    forall d: int ensures DividesBoth(d, x / 2, y) <==> DividesBoth(d, a, b) {
      assert DividesBoth(d, x, y) <==> DividesBoth(d, a, b);
      if Divides(d, y) {
        DividesHalf(d, x, y);
      }
    }
  }

  lemma DifferenceKeepsDivisors(x: int, y: int, a: int, b: int)
    requires SameDivisors(x, y, a, b)
    ensures SameDivisors(x - y, y, a, b)
  {
    forall d: int ensures DividesBoth(d, x - y, y) <==> DividesBoth(d, a, b) {
      assert DividesBoth(d, x, y) <==> DividesBoth(d, a, b);
      if DividesBoth(d, x, y) {
        DividesSum(d, x, y);
      }
      if DividesBoth(d, x - y, y) {
        DividesSum(d, x - y, y);
      }
    }
  }

  lemma SwapDivisors(x: int, y: int, a: int, b: int)
    requires SameDivisors(x, y, a, b)
    ensures SameDivisors(y, x, a, b)
  {
    forall d: int ensures DividesBoth(d, y, x) <==> DividesBoth(d, a, b) {
      assert DividesBoth(d, x, y) <==> DividesBoth(d, a, b);
    }
  }

  lemma GcdAtZero(x: int, a: int, b: int)
    requires SameDivisors(x, 0, a, b)
    ensures IsGcd(x, a, b)
  {
    forall d: int ensures Divides(d, x) <==> DividesBoth(d, a, b) {
      assert DividesBoth(d, x, 0) <==> DividesBoth(d, a, b);
      DividesBy(d, 0, 0);
    }
  }

  // ---------- Binary Euclid ----------

  /** Halving modulo an odd number. */
  function HalfMod(x: int, m: int): int { if x % 2 == 0 then x / 2 else (x + m) / 2 }

  function MinusMod(x: int, y: int, m: int): int { if x < y then x - y + m else x - y }

  /** If u = r * a and u is even, then u / 2 = (r / 2) * a modulo odd m. */
  lemma HalfCongruent(m: int, u: int, r: int, a: int)
    requires m % 2 == 1 && u % 2 == 0 && Congruent(m, u, r * a)
    ensures Congruent(m, u / 2, HalfMod(r, m) * a)
  {
    var k :| Differ(m, u, r * a, k);
    var h, e := HalfMod(r, m), if r % 2 == 0 then 0 else 1;
    var j := k - e * a;
    DoubleHalf(m, u, r, a, k, h, e);
    ProductParity(m, j);
    assert m * (2 * (j / 2)) == 2 * (m * (j / 2));
    CongruentBy(m, u / 2, h * a, j / 2);
  }

  lemma DoubleHalf(m: int, u: int, r: int, a: int, k: int, h: int, e: int)
    requires u == r * a + m * k && 2 * h == r + e * m
    ensures u == 2 * (h * a) + m * (k - e * a)
  {
    assert 2 * (h * a) == (2 * h) * a == r * a + e * m * a;
    assert e * m * a == m * (e * a);
    MulSum(m, k, -(e * a));
    assert m * -(e * a) == -(m * (e * a));
  }

  lemma MinusCongruent(m: int, u: int, r: int, v: int, s: int, a: int)
    requires Congruent(m, u, r * a) && Congruent(m, v, s * a)
    ensures Congruent(m, u - v, MinusMod(r, s, m) * a)
  {
    CongruentAdd(m, u, r * a, v, s * a);
    var d, e := MinusMod(r, s, m), if r < s then 1 else 0;
    assert d * a == r * a - s * a + m * (e * a);
    CongruentBy(m, r * a - s * a, d * a, -(e * a));
    CongruentTrans(m, u - v, r * a - s * a, d * a);
  }

  /** What the loop keeps: u = r * a and v = s * a modulo m, the common divisors, and
      that u and v are not both even. */
  ghost predicate Euclid(u: int, v: int, r: int, s: int, m: int, a: int) {
    u > 0 && v >= 0 && 0 <= r < m && 0 <= s < m
    && Congruent(m, u, r * a) && Congruent(m, v, s * a)
    && SameDivisors(u, v, m, a) && (u % 2 == 1 || v % 2 == 1)
  }

  lemma EuclidStart(m: int, a: int)
    requires m > 1 && m % 2 == 1 && a >= 0
    ensures Euclid(m, a, 0, 1, m, a)
  {
    CongruentBy(m, m, 0 * a, 1);
    CongruentSame(m, a);
    assert 1 * a == a;
    assert SameDivisors(m, a, m, a);
  }

  lemma EuclidSwap(u: int, v: int, r: int, s: int, m: int, a: int)
    requires Euclid(u, v, r, s, m, a) && v > 0
    ensures Euclid(v, u, s, r, m, a)
  {
    SwapDivisors(u, v, m, a);
  }

  lemma EuclidHalf(u: int, v: int, r: int, s: int, m: int, a: int)
    requires m % 2 == 1 && Euclid(u, v, r, s, m, a) && u % 2 == 0
    ensures Euclid(u / 2, v, HalfMod(r, m), s, m, a)
  {
    HalfCongruent(m, u, r, a);
    HalfKeepsDivisors(u, v, m, a);
  }

  lemma EuclidMinus(u: int, v: int, r: int, s: int, m: int, a: int)
    requires Euclid(u, v, r, s, m, a) && u % 2 == 1 && v % 2 == 1 && u <= v
    ensures Euclid(u, v - u, r, MinusMod(s, r, m), m, a)
  {
    MinusCongruent(m, v, s, u, r, a);
    SwapDivisors(u, v, m, a);
    DifferenceKeepsDivisors(v, u, m, a);
    SwapDivisors(v - u, u, m, a);
  }

  // ---------- Rounds ----------

  /** The four numbers of the loop, and whether it has ended. */
  datatype Numbers = Numbers(u: int, v: int, r: int, s: int, done: bool)

  /** One round of the loop. */
  function Round(n: Numbers, m: int): Numbers {
    if n.done then n
    else if n.u % 2 == 0 then n.(u := n.u / 2, r := HalfMod(n.r, m))
    else if n.v % 2 == 0 then n.(v := n.v / 2, s := HalfMod(n.s, m))
    else if n.u <= n.v then n.(v := n.v - n.u, s := MinusMod(n.s, n.r, m), done := n.v == n.u)
    else n.(u := n.u - n.v, r := MinusMod(n.r, n.s, m))
  }

  function Rounds(n: Numbers, m: int, k: nat): Numbers
    decreases k
  {
    if k == 0 then n else Rounds(Round(n, m), m, k - 1)
  }

  function Start(m: int, a: int): Numbers { Numbers(m, a, 0, 1, false) }

  ghost predicate State(n: Numbers, m: int, a: int) { Euclid(n.u, n.v, n.r, n.s, m, a) && (n.done <==> n.v == 0) }

  lemma RoundKeeps(n: Numbers, m: int, a: int)
    requires m % 2 == 1 && State(n, m, a) && !n.done
    ensures State(Round(n, m), m, a) && Round(n, m).u + Round(n, m).v < n.u + n.v
  {
    if n.u % 2 == 0 {
      EuclidHalf(n.u, n.v, n.r, n.s, m, a);
    } else if n.v % 2 == 0 {
      EuclidSwap(n.u, n.v, n.r, n.s, m, a);
      EuclidHalf(n.v, n.u, n.s, n.r, m, a);
      EuclidSwap(n.v / 2, n.u, HalfMod(n.s, m), n.r, m, a);
    } else if n.u <= n.v {
      EuclidMinus(n.u, n.v, n.r, n.s, m, a);
    } else {
      EuclidSwap(n.u, n.v, n.r, n.s, m, a);
      EuclidMinus(n.v, n.u, n.s, n.r, m, a);
      EuclidSwap(n.v, n.u - n.v, n.s, MinusMod(n.r, n.s, m), m, a);
    }
  }

  ghost predicate DoneAfter(n: Numbers, m: int, k: nat) { Rounds(n, m, k).done }

  lemma {:induction false} Ends(n: Numbers, m: int, a: int)
    requires m % 2 == 1 && State(n, m, a)
    ensures exists k: nat :: DoneAfter(n, m, k)
    decreases n.u + n.v
  {
    if n.done {
      assert DoneAfter(n, m, 0);
    } else {
      RoundKeeps(n, m, a);
      Ends(Round(n, m), m, a);
      var k: nat :| DoneAfter(Round(n, m), m, k);
      assert DoneAfter(n, m, k + 1);
    }
  }

  /** From v = 0 an odd u stays as it is, and so does v. */
  lemma {:induction false} NeverEnds(n: Numbers, m: int, k: nat)
    requires n.u % 2 == 1 && n.v == 0 && !n.done
    ensures var r := Rounds(n, m, k); r.u == n.u && r.v == 0 && !r.done
    decreases k
  {
    if k > 0 {
      NeverEnds(Round(n, m), m, k - 1);
    }
  }

  /** The loop of p256_modinv_vartime ends if and only if the number is not 0. */
  lemma EndsIff(m: int, a: int)
    requires m > 1 && m % 2 == 1 && a >= 0
    ensures (exists k: nat :: DoneAfter(Start(m, a), m, k)) <==> a > 0
  {
    if a > 0 {
      EuclidStart(m, a);
      Ends(Start(m, a), m, a);
    } else {
      forall k: nat ensures !DoneAfter(Start(m, a), m, k) {
        NeverEnds(Start(m, a), m, k);
      }
    }
  }

  // ---------- The loop in place ----------

  /** x = x / 2, and y = y / 2 modulo MOD. */
  method Halve(m: array<u32>, x: array<u32>, y: array<u32>)
    requires m.Length == x.Length == y.Length == N && m != x && m != y && x != y
    requires Value(x[..]) % 2 == 0 && Value(m[..]) % 2 == 1
    modifies x, y
    ensures Value(x[..]) == old(Value(x[..])) / 2
    ensures Value(y[..]) == HalfMod(old(Value(y[..])), Value(m[..]))
  {
    Shr1(x, 0, x);
    var even := IsEven(y);
    if even {
      Shr1(y, 0, y);
    } else {
      var carry := Add(y, m, y);
      Shr1(y, carry, y);
    }
  }

  /** x = x - y, for a difference that is not negative, and z = z - w modulo MOD. */
  method Subtract(m: array<u32>, x: array<u32>, y: array<u32>, z: array<u32>, w: array<u32>)
    requires m.Length == x.Length == y.Length == z.Length == w.Length == N
    requires m != x && m != z && x != z && x != w && x != y && z != y && z != w
    requires Value(y[..]) <= Value(x[..]) && Value(z[..]) < Value(m[..]) && Value(w[..]) < Value(m[..])
    modifies x, z
    ensures Value(x[..]) == old(Value(x[..])) - Value(y[..])
    ensures Value(z[..]) == MinusMod(old(Value(z[..])), Value(w[..]), Value(m[..]))
  {
    var _ := Sub(x, y, x);
    var borrow := Sub(z, w, z);
    if borrow != 0 {
      ghost var difference := Value(z[..]) - Radix(8);
      var carry := Add(z, m, z);
      ValueBound(z[..]);
      ValueBound(m[..]);
      Wrapped(difference, Value(m[..]), Value(z[..]), carry, Radix(8));
    }
  }

  lemma Wrapped(difference: int, m: int, sum: int, carry: int, r: int)
    requires -m <= difference && m < r && 0 <= sum < r && 0 <= carry <= 1 && difference < 0
    requires sum + carry * r == difference + r + m
    ensures sum == difference + m
  {
  }

  /** The four numbers of the loop, in arrays of their own. */
  ghost predicate Separate(m: array<u32>, u: array<u32>, v: array<u32>, r: array<u32>, s: array<u32>) {
    m.Length == u.Length == v.Length == r.Length == s.Length == N
    && m != u && m != v && m != r && m != s && u != v && u != r && u != s && v != r && v != s && r != s
  }

  ghost function NumbersOf(u: array<u32>, v: array<u32>, r: array<u32>, s: array<u32>, done: bool): Numbers
    reads u, v, r, s
  {
    Numbers(Value(u[..]), Value(v[..]), Value(r[..]), Value(s[..]), done)
  }

  /** One turn of the loop is one round, also for v = 0. */
  method EuclidStep(m: array<u32>, u: array<u32>, v: array<u32>, r: array<u32>, s: array<u32>) returns (done: bool)
    requires Separate(m, u, v, r, s) && Value(m[..]) % 2 == 1
    requires Value(r[..]) < Value(m[..]) && Value(s[..]) < Value(m[..])
    modifies u, v, r, s
    ensures NumbersOf(u, v, r, s, done) == Round(old(NumbersOf(u, v, r, s, false)), Value(m[..]))
  {
    done := false;
    var uEven := IsEven(u);
    var vEven := IsEven(v);
    if uEven {
      Halve(m, u, r);
    } else if vEven {
      Halve(m, v, s);
    } else {
      var borrow := Sub(v, u, null);
      if borrow == 0 {
        Subtract(m, v, u, s, r);
        done := IsZero(v);
      } else {
        Subtract(m, u, v, r, s);
      }
    }
  }

  method Clone(a: array<u32>) returns (c: array<u32>)
    requires a.Length == N
    ensures fresh(c) && c.Length == N && c[..] == a[..]
  {
    c := new u32[N];
    Copy(a, c);
    assert a[..N] == a[..];
  }

  method Small(d: u32) returns (c: array<u32>)
    ensures fresh(c) && c.Length == N && Value(c[..]) == d
  {
    c := new u32[N](i => if i == 0 then d else 0);
    assert c[1..] == seq(7, _ => 0);
    ValueOfZeros(7);
    ValueFirst(c[..]);
    assert c[..][1..] == c[1..];
  }

  /** b * a = gcd(a, MOD) modulo MOD: an inverse, if there is one.
      For a = 0 the loop would not end. */
  method ModInvVartime(m: array<u32>, a: array<u32>, b: array<u32>) returns (ghost g: int)
    requires m.Length == a.Length == b.Length == N && m != b
    requires Value(m[..]) > 1 && Value(m[..]) % 2 == 1 && Value(a[..]) > 0
    modifies b
    ensures g > 0 && IsGcd(g, Value(m[..]), old(Value(a[..])))
    ensures Value(b[..]) < Value(m[..]) && Congruent(Value(m[..]), Value(b[..]) * old(Value(a[..])), g)
  {
    ghost var mv, av := Value(m[..]), Value(a[..]);
    var r := Small(0);
    var s := Small(1);
    var u := Clone(m);
    var v := Clone(a);
    EuclidStart(mv, av);
    var done := false;
    while !done
      invariant Separate(m, u, v, r, s) && m[..] == old(m[..]) && b[..] == old(b[..])
      invariant fresh(u) && fresh(v) && fresh(r) && fresh(s)
      invariant State(NumbersOf(u, v, r, s, done), mv, av)
      decreases Value(u[..]) + Value(v[..])
    {
      RoundKeeps(NumbersOf(u, v, r, s, done), mv, av);
      done := EuclidStep(m, u, v, r, s);
    }
    g := Value(u[..]);
    GcdAtZero(g, mv, av);
    CongruentSym(mv, g, Value(r[..]) * av);
    Mod(m, r, b);
  }

  /** The result is an inverse exactly when there is no common divisor. */
  lemma InverseIffCoprime(m: nat, a: nat, b: nat, g: nat)
    requires m > 1 && IsGcd(g, m, a) && Congruent(m, b * a, g) && g > 0
    ensures b * a >= 0 && (b * a % m == 1 <==> g == 1)
  {
    MulLe(0, b, a);
    if g == 1 {
      CongruentSym(m, b * a, g);
      CongruentMod(m, 1, b * a);
    } else if b * a % m == 1 {
      var q := b * a / m;
      DivModBounds(b * a, m);
      DividesBy(g, g, 1);
      assert Divides(g, g) <==> DividesBoth(g, m, a);
      var k :| Multiple(g, m, k);
      var l :| Multiple(g, a, l);
      assert b * (g * l) == g * (b * l) && q * (g * k) == g * (q * k);
      MulSum(g, b * l, -(q * k));
      assert g * (b * l - q * k) == 1;
      if b * l - q * k >= 1 {
        MulLe(1, b * l - q * k, g);
      } else {
        MulLe(b * l - q * k, 0, g);
      }
    }
  }
}
