/** The tangent law: the double of a point is the reflection of the third point in which
    the tangent meets the curve y^2 = x^3 - 3x + b. */
module JacobianTangent {
  import opened Jacobian

  /** Where y / z^3 is the ordinate, the slope of the curve is this over 2 * y * z: the derivative of
      x^3 - 3x over that of y^2. */
  function Slope(x: int, z: int): int { 3 * (x * x) - 3 * (z * z * (z * z)) }

  /** The point (x3, y3, z3) is on the line through the point (x, y, z) with that slope. */
  predicate OnTangent(x: int, y: int, z: int, x3: int, y3: int, z3: int) {
    2 * y * (z * z * z * y3 - y * (z3 * z3 * z3)) == Slope(x, z) * (z * z * x3 - x * (z3 * z3)) * z3
  }

  /** The line at abscissa u, times 2 * y * z^3. */
  function Line(x: int, y: int, z: int, u: int): int { 2 * (y * y) + Slope(x, z) * (z * z * u - x) }

  /** u^3 - 3u + b, times z^6. */
  function Cubic(b: int, z: int, u: int): int { z * z * (z * z) * (z * z) * (u * (u * u) - 3 * u + b) }

  lemma TangentTerms(y: int, z: int, k: int, m: int, x: int, x3: int, y3: int)
    requires k == z * z && y3 == 8 * (y * y * (y * y)) - m * (4 * (x * (y * y)) - x3)
    ensures 2 * y * (k * z * y3 - y * (2 * (y * z) * (2 * (y * z)) * (2 * (y * z))))
      == m * (k * x3 - x * (2 * (y * z) * (2 * (y * z)))) * (2 * (y * z))
  {
    var g, e := y * y, 4 * (x * (y * y)) - x3;
    var c := y * z;
    assert 2 * c * (2 * c) == 4 * (g * k);
    assert 4 * (g * k) * (2 * c) == 8 * (k * z * (g * y));
    assert k * z * (8 * (g * g) - m * e) == 8 * (k * z * (g * g)) - k * z * (m * e);
    assert y * (8 * (k * z * (g * y))) == 8 * (k * z * (g * g));
    assert k * x3 - x * (4 * (g * k)) == -(k * e);
    assert m * (-(k * e)) * (2 * c) == -(2 * (k * z * (m * e) * y));
  }

  /** The third point of the tangent is the double with its ordinate reversed. */
  lemma OppositeOnTangent(x: int, y: int, z: int)
    ensures OnTangent(x, y, z, DoubleX(x, y, z), -DoubleY(x, y, z), DoubleZ(x, y, z))
  {
    AlphaSquares(x, z);
    DoubleZProduct(x, y, z);
    TangentTerms(y, z, z * z, Slope(x, z), x, DoubleX(x, y, z), -DoubleY(x, y, z));
  }

  lemma CubicAt(k: int, u: int, x: int, v: int, b: int)
    requires v == k * u - x
    ensures k * k * k * (u * (u * u) - 3 * u + b)
      == x * (x * x) - 3 * (x * (k * k)) + (3 * (x * x) - 3 * (k * k)) * v + 3 * (x * (v * v)) + v * (v * v)
        + b * (k * k * k)
  {
    var s := v + x;
    assert s == k * u;
    assert k * k * k * (u * (u * u)) == s * (s * s);
    assert k * k * k * u == k * k * s;
    assert s * (s * s) == x * (x * x) + 3 * (x * x * v) + 3 * (x * (v * v)) + v * (v * v);
    assert k * k * k * (u * (u * u) - 3 * u + b)
        == k * k * k * (u * (u * u)) - 3 * (k * k * k * u) + b * (k * k * k);
    assert k * k * s == k * k * v + x * (k * k);
    assert (3 * (x * x) - 3 * (k * k)) * v == 3 * (x * x * v) - 3 * (k * k * v);
  }

  lemma ThirdRoot(g: int, m: int, v: int, x: int, c: int, d: int)
    requires c == g - d + m * v + 3 * (x * (v * v)) + v * (v * v)
    ensures 4 * (g * c) - (2 * g + m * v) * (2 * g + m * v) + 4 * (g * d)
      == v * v * (4 * (g * (v + x)) - (m * m - 8 * (x * g)))
  {
    var n, w := m * v, v * v;
    assert (2 * g + n) * (2 * g + n) == 4 * (g * g) + 4 * (g * n) + n * n;
    assert n * n == w * (m * m);
    assert g * c == g * g - g * d + g * n + 3 * (g * (x * w)) + g * (v * w);
    assert w * (4 * (g * (v + x)) - (m * m - 8 * (x * g)))
        == 4 * (g * (v * w)) + 12 * (g * (x * w)) - w * (m * m);
  }

  /** The tangent meets the curve twice at the point itself and once at the abscissa of its double: so the cubic less
      the square of the line factors, but for the point's own defect in the equation. */
  lemma MeetsTwice(b: int, x: int, y: int, z: int, u: int)
    ensures var v, z3 := z * z * u - x, DoubleZ(x, y, z);
      4 * (y * y * Cubic(b, z, u)) - Line(x, y, z, u) * Line(x, y, z, u) + 4 * (y * y * Curve(b, x, y, z))
        == v * v * (z3 * z3 * u - DoubleX(x, y, z))
  {
    var g, k, m := y * y, z * z, Slope(x, z);
    var v, d := k * u - x, Curve(b, x, y, z);
    AlphaSquares(x, z);
    DoubleZProduct(x, y, z);
    CubicAt(k, u, x, v, b);
    ThirdRoot(g, m, v, x, Cubic(b, z, u), d);
    SquareAt(y, z, u, x, v);
  }

  lemma SquareAt(y: int, z: int, u: int, x: int, v: int)
    requires v == z * z * u - x
    ensures 2 * (y * z) * (2 * (y * z)) * u == 4 * (y * y * (v + x))
  {
    var g, k := y * y, z * z;
    assert y * z * (y * z) == g * k;
    assert g * k * u == g * (k * u);
  }

  /** A point of the curve with b = -1, and its double. */
  lemma DoubleOfTwo()
    ensures Curve(-1, 2, 1, 1) == 0
    ensures DoubleX(2, 1, 1) == 65 && DoubleY(2, 1, 1) == -521 && DoubleZ(2, 1, 1) == 2
  {
  }
}
