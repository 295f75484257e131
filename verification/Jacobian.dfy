/** Doubling in Jacobian coordinates on y^2 = x^3 - 3x + b, as integer polynomials. */
module Jacobian {
  import opened Bits
  import opened Modular

  /** Three times (x - z^2)(x + z^2) */
  function Alpha(x: int, z: int): int { 3 * ((x - z * z) * (x + z * z)) }

  function DoubleX(x: int, y: int, z: int): int { Alpha(x, z) * Alpha(x, z) - 8 * (x * (y * y)) }

  function DoubleY(x: int, y: int, z: int): int {
    Alpha(x, z) * (4 * (x * (y * y)) - DoubleX(x, y, z)) - 8 * ((y * y) * (y * y))
  }

  function DoubleZ(x: int, y: int, z: int): int { (y + z) * (y + z) - y * y - z * z }

  /** y^2 - x^3 + 3 * x * z^4 - b * z^6, which is zero on the curve */
  function Curve(b: int, x: int, y: int, z: int): int {
    Defect(x, y * y, z * z * (z * z), b * (z * z * (z * z) * (z * z)))
  }

  function Defect(x: int, g: int, w: int, v: int): int { g - x * (x * x) + 3 * (x * w) - v }

  lemma PowersOfZ(y: int, z: int, b: int)
    ensures var g, w, v, z3 := y * y, z * z * (z * z), b * (z * z * (z * z) * (z * z)), 2 * (y * z);
      z3 * z3 * (z3 * z3) == 16 * (g * g * w) && b * (z3 * z3 * (z3 * z3) * (z3 * z3)) == 64 * (g * g * g * v)
  {
    var g, k, z3 := y * y, z * z, 2 * (y * z);
    var u := g * k;
    assert z3 * z3 == 4 * u;
    PowersOfU(g, k, u, b);
    assert (4 * u) * (4 * u) == 16 * (u * u) && (4 * u) * (4 * u) * (4 * u) == 64 * (u * u * u);
    MulSwap(b, 64, u * u * u);
  }

  lemma PowersOfU(g: int, k: int, u: int, b: int)
    requires u == g * k
    ensures u * u == g * g * (k * k) && b * (u * u * u) == g * g * g * (b * (k * k * k))
  {
    assert u * u * u == g * g * g * (k * k * k);
    MulSwap(b, g * g * g, k * k * k);
  }

  lemma CubeOfDifference(t: int, s: int)
    ensures (t - 2 * s) * ((t - 2 * s) * (t - 2 * s))
      == t * (t * t) - 6 * (s * (t * t)) + 12 * (s * s * t) - 8 * (s * (s * s))
  {
    var d := t - 2 * s;
    assert d * d == t * t - 4 * (s * t) + 4 * (s * s);
    assert t * (d * d) == t * (t * t) - 4 * (s * (t * t)) + 4 * (s * s * t);
    assert s * (d * d) == s * (t * t) - 4 * (s * s * t) + 4 * (s * (s * s));
  }

  lemma SquareOfProduct(a: int, t: int, s: int, p: int)
    requires t == a * a && p == a * (3 * s - t)
    ensures p * p == 9 * (s * s * t) - 6 * (s * (t * t)) + t * (t * t)
  {
    var q := 3 * s - t;
    assert p * p == t * (q * q);
    assert q * q == 9 * (s * s) - 6 * (s * t) + t * t;
    assert t * (q * q) == 9 * (s * s * t) - 6 * (s * (t * t)) + t * (t * t);
  }

  /** y3^2 - x3^3 for the tangent's x3 and y3 */
  lemma TangentDefect(a: int, t: int, s: int, p: int, h: int)
    requires t == a * a && p == a * (3 * s - t)
    ensures (p - 8 * h) * (p - 8 * h) - (t - 2 * s) * ((t - 2 * s) * (t - 2 * s))
         == 8 * (s * (s * s)) - 3 * (s * s * t) - 16 * (p * h) + 64 * (h * h)
  {
    SquareOfProduct(a, t, s, p);
    CubeOfDifference(t, s);
  }

  lemma Cancel(x: int, g: int, w: int, a: int, t: int, s: int, p: int, h: int)
    requires h == g * g && s == 4 * (x * g) && a == 3 * (x * x) - 3 * w && p == a * (3 * s - t)
    ensures 8 * (s * (s * s)) - 3 * (s * s * t) - 16 * (p * h) + 48 * ((t - 2 * s) * (h * w))
         == h * (192 * (g * (x * w)) - 64 * (g * (x * (x * x))))
  {
    var x2, e := x * x, x * g;
    assert s * s == 16 * (x2 * h);
    assert s * (s * s) == 64 * (e * (x2 * h));
    var c := 512 * (e * x2) - 48 * (x2 * t) - 16 * p + 48 * ((t - 2 * s) * w);
    Factor(h, e, x2, t, s, p, w);
    assert a * e == 3 * (x2 * e) - 3 * (w * e);
    assert p == 12 * (a * e) - a * t;
    assert a * t == 3 * (x2 * t) - 3 * (w * t);
    assert c == 192 * (e * w) - 64 * (e * x2);
    assert g * (x * w) == e * w && g * (x * x2) == e * x2;
  }

  lemma Factor(h: int, e: int, x2: int, t: int, s: int, p: int, w: int)
    ensures 8 * (64 * (e * (x2 * h))) - 3 * (16 * (x2 * h) * t) - 16 * (p * h) + 48 * ((t - 2 * s) * (h * w))
         == h * (512 * (e * x2) - 48 * (x2 * t) - 16 * p + 48 * ((t - 2 * s) * w))
  {
    assert e * (x2 * h) == h * (e * x2) && x2 * h * t == h * (x2 * t);
    assert (t - 2 * s) * (h * w) == h * ((t - 2 * s) * w);
  }

  lemma AlphaSquares(x: int, z: int)
    ensures Alpha(x, z) == 3 * (x * x) - 3 * (z * z * (z * z))
  {
    var k := z * z;
    assert (x - k) * (x + k) == x * x - k * k;
  }

  lemma DoubleZProduct(x: int, y: int, z: int)
    ensures DoubleZ(x, y, z) == 2 * (y * z)
  {
  }

  /** The defect of the doubled point is the defect of the point, times 64 * y^6. */
  lemma DoubleOnCurve(b: int, x: int, y: int, z: int)
    ensures Curve(b, DoubleX(x, y, z), DoubleY(x, y, z), DoubleZ(x, y, z))
      == 64 * (y * y * (y * y) * (y * y)) * Curve(b, x, y, z)
  {
    var g, w, v := y * y, z * z * (z * z), b * (z * z * (z * z) * (z * z));
    var a, s, h := Alpha(x, z), 4 * (x * g), g * g;
    var t := a * a;
    var p := a * (3 * s - t);
    DoubleZProduct(x, y, z);
    PowersOfZ(y, z, b);
    AlphaSquares(x, z);
    assert DoubleX(x, y, z) == t - 2 * s && DoubleY(x, y, z) == p - 8 * h;
    TangentDefect(a, t, s, p, h);
    Cancel(x, g, w, a, t, s, p, h);
    Collect(x, g, w, v, h, t - 2 * s, p - 8 * h);
  }

  lemma Collect(x: int, g: int, w: int, v: int, h: int, x3: int, y3: int)
    requires h == g * g
    requires y3 * y3 - x3 * (x3 * x3) + 48 * (x3 * (h * w))
      == 64 * (h * h) + h * (192 * (g * (x * w)) - 64 * (g * (x * (x * x))))
    ensures Defect(x3, y3 * y3, 16 * (g * g * w), 64 * (g * g * g * v)) == 64 * (g * g * g) * Defect(x, g, w, v)
  {
    var c := x * (x * x);
    assert x3 * (16 * (h * w)) == 16 * (x3 * (h * w));
    assert h * (192 * (g * (x * w)) - 64 * (g * c)) == 192 * (h * g * (x * w)) - 64 * (h * g * c);
    assert h * h == h * g * g;
    var d := g - c + 3 * (x * w) - v;
    assert h * g * d == h * g * g - h * g * c + 3 * (h * g * (x * w)) - h * g * v;
    assert 64 * (h * g) * d == 64 * (h * g * d);
  }

  /** Other coordinates of the same point give other coordinates of the same double. */
  lemma DoubleScaled(l: int, x: int, y: int, z: int)
    ensures var q := l * l;
      var x', y', z' := q * x, q * l * y, l * z;
      DoubleX(x', y', z') == q * q * (q * q) * DoubleX(x, y, z)
      && DoubleY(x', y', z') == q * q * q * (q * q * q) * DoubleY(x, y, z)
      && DoubleZ(x', y', z') == q * q * DoubleZ(x, y, z)
  {
    var q := l * l;
    var x', y', z' := q * x, q * l * y, l * z;
    var g, a := y * y, Alpha(x, z);
    var f := q * q;
    ScaledParts(l, q, x, y, z);
    assert y' * y' == q * f * g && Alpha(x', z') == f * a;
    DoubleZProduct(x, y, z);
    DoubleZProduct(x', y', z');
    assert y' * z' == f * (y * z) && f * (2 * (y * z)) == 2 * (f * (y * z));
    ScaledX(q, f, x, g, a);
    ScaledY(q, f, x, g, a, DoubleX(x, y, z));
  }

  lemma ScaledParts(l: int, q: int, x: int, y: int, z: int)
    requires q == l * l
    ensures q * l * y * (q * l * y) == q * (q * q) * (y * y)
    ensures Alpha(q * x, l * z) == q * q * Alpha(x, z)
    ensures q * l * y * (l * z) == q * q * (y * z)
  {
    var k := z * z;
    Regroup(l, z, l, z);
    assert q * x - q * k == q * (x - k) && q * x + q * k == q * (x + k);
    Regroup(q, x - k, q, x + k);
    MulSwap(3, q * q, (x - k) * (x + k));
    Regroup(q * l, y, q * l, y);
    Regroup(q, l, q, l);
    Regroup(q * l, y, l, z);
    assert q * l * l == q * q;
  }

  lemma Regroup(a: int, b: int, c: int, d: int)
    ensures a * b * (c * d) == a * c * (b * d)
  {
  }

  lemma ScaledX(q: int, f: int, x: int, g: int, a: int)
    requires f == q * q
    ensures f * a * (f * a) - 8 * (q * x * (q * f * g)) == f * f * (a * a - 8 * (x * g))
  {
    assert f * a * (f * a) == f * f * (a * a);
    assert q * x * (q * f * g) == q * q * (x * (f * g)) == f * f * (x * g);
    assert f * f * (8 * (x * g)) == 8 * (f * f * (x * g));
  }

  lemma ScaledY(q: int, f: int, x: int, g: int, a: int, x3: int)
    requires f == q * q
    ensures f * a * (4 * (q * x * (q * f * g)) - f * f * x3) - 8 * (q * f * g * (q * f * g))
         == q * q * q * (q * q * q) * (a * (4 * (x * g) - x3) - 8 * (g * g))
  {
    var e, c, d := x * g, f * f * f, 4 * (x * g) - x3;
    Regroup(q, x, q * f, g);
    assert q * (q * f) == f * f;
    assert 4 * (f * f * e) - f * f * x3 == f * f * d;
    Regroup(f, a, f * f, d);
    assert f * (f * f) == c;
    Regroup(q * f, g, q * f, g);
    Regroup(q, f, q, f);
    assert q * q * q * (q * q * q) == c by {
      assert q * q * q == q * f;
      Regroup(q, f, q, f);
    }
    assert c * (a * d - 8 * (g * g)) == c * (a * d) - 8 * (c * (g * g));
  }

  lemma MultipleStays(m: int, c: int, d: int, f: int, k: int)
    requires c == k * m && d == f * c
    ensures Congruent(m, d, 0)
  {
    MulAssoc(f, k, m);
    CongruentBy(m, d, 0, f * k);
  }

  /** Modulo any m: the double of a point of the curve is on the curve. */
  lemma DoubleStaysOnCurve(m: int, b: int, x: int, y: int, z: int, k: int)
    requires Curve(b, x, y, z) == k * m
    ensures Congruent(m, Curve(b, DoubleX(x, y, z), DoubleY(x, y, z), DoubleZ(x, y, z)), 0)
  {
    DoubleOnCurve(b, x, y, z);
    MultipleStays(m, Curve(b, x, y, z), Curve(b, DoubleX(x, y, z), DoubleY(x, y, z), DoubleZ(x, y, z)),
      64 * (y * y * (y * y) * (y * y)), k);
  }

  /** The formulas of doubling, multiplied out. */
  lemma DoubleFormulas(x: int, y: int, z: int)
    ensures var m, s := 3 * (x * x) - 3 * (z * z * (z * z)), 4 * (x * (y * y));
      DoubleX(x, y, z) == m * m - 2 * s
      && DoubleY(x, y, z) == m * (s - (m * m - 2 * s)) - 8 * (y * y * (y * y))
      && DoubleZ(x, y, z) == 2 * (y * z)
  {
    AlphaSquares(x, z);
    DoubleZProduct(x, y, z);
  }
}
