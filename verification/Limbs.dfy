/** Numbers as limbs with weights, and the columns of a product. */
module Limbs {
  import opened Bits

  /** The number that limbs with these weights stand for. */
  function Eval(w: nat -> int, s: seq<int>): int {
    if s == [] then 0 else Eval(w, s[..|s| - 1]) + s[|s| - 1] * w(|s| - 1)
  }

  lemma EvalAppend(w: nat -> int, s: seq<int>, x: int)
    ensures Eval(w, s + [x]) == Eval(w, s) + x * w(|s|)
  {
    assert (s + [x])[..|s|] == s;
  }

  lemma EvalTake(w: nat -> int, s: seq<int>, k: nat)
    requires k < |s|
    ensures Eval(w, s[..k + 1]) == Eval(w, s[..k]) + s[k] * w(k)
  {
    assert s[..k + 1] == s[..k] + [s[k]];
    EvalAppend(w, s[..k], s[k]);
  }

  /** Changing one limb. */
  lemma {:induction false} EvalUpdate(w: nat -> int, s: seq<int>, i: nat, x: int)
    requires i < |s|
    ensures Eval(w, s[i := x]) == Eval(w, s) + (x - s[i]) * w(i)
  {
    var n := |s| - 1;
    if i == n {
      assert s[i := x][..n] == s[..n];
      assert (x - s[i]) * w(i) == x * w(i) - s[i] * w(i);
    } else {
      assert s[i := x][..n] == s[..n][i := x];
      EvalUpdate(w, s[..n], i, x);
    }
  }

  /** r is s with d added to limb i. */
  ghost predicate Changed(s: seq<int>, r: seq<int>, i: nat, d: int) {
    |r| == |s| && i < |s| && r[i] == s[i] + d && forall j :: 0 <= j < |s| && j != i ==> r[j] == s[j]
  }

  lemma EvalChanged(w: nat -> int, s: seq<int>, r: seq<int>, i: nat, d: int)
    requires Changed(s, r, i, d)
    ensures Eval(w, r) == Eval(w, s) + d * w(i)
  {
    EvalUpdate(w, s, i, s[i] + d);
    assert r == s[i := s[i] + d];
  }

  lemma {:induction false} EvalZeros(w: nat -> int, n: nat)
    ensures Eval(w, seq(n, _ => 0)) == 0
  {
    if n > 0 {
      assert seq(n, _ => 0)[..n - 1] == seq(n - 1, _ => 0);
      EvalZeros(w, n - 1);
    }
  }

  lemma {:induction false} EvalZeroPrefix(w: nat -> int, s: seq<int>, n: nat)
    requires n <= |s| && forall j :: 0 <= j < n ==> s[j] == 0
    ensures Eval(w, s[..n]) == 0
  {
    if n > 0 {
      EvalZeroPrefix(w, s, n - 1);
      EvalTake(w, s, n - 1);
    }
  }

  lemma {:induction false} EvalZeroSuffix(w: nat -> int, s: seq<int>, n: nat)
    requires n <= |s| && forall j :: n <= j < |s| ==> s[j] == 0
    ensures Eval(w, s) == Eval(w, s[..n])
  {
    if n == |s| {
      assert s[..n] == s;
    } else {
      var t := s[..|s| - 1];
      EvalZeroSuffix(w, t, n);
      assert t[..n] == s[..n];
    }
  }

  lemma {:induction false} EvalMoreZeros(w: nat -> int, s: seq<int>, n: nat)
    ensures Eval(w, s + seq(n, _ => 0)) == Eval(w, s)
  {
    var t := s + seq(n, _ => 0);
    if n == 0 {
      assert t == s;
    } else {
      assert t == (s + seq(n - 1, _ => 0)) + [0];
      EvalAppend(w, s + seq(n - 1, _ => 0), 0);
      EvalMoreZeros(w, s, n - 1);
    }
  }

  /** Limb by limb, z = x + y * f. */
  ghost predicate Combined(z: seq<int>, x: seq<int>, y: seq<int>, f: int) {
    |z| == |x| == |y| && forall i :: 0 <= i < |z| ==> z[i] == x[i] + y[i] * f
  }

  lemma {:induction false} EvalCombined(w: nat -> int, z: seq<int>, x: seq<int>, y: seq<int>, f: int)
    requires Combined(z, x, y, f)
    ensures Eval(w, z) == Eval(w, x) + Eval(w, y) * f
  {
    if z != [] {
      var n := |z| - 1;
      EvalCombined(w, z[..n], x[..n], y[..n], f);
      CombineTerm(Eval(w, y[..n]), x[n], y[n], f, w(n));
    }
  }

  lemma CombineTerm(v: int, x: int, y: int, f: int, w: int)
    ensures v * f + (x + y * f) * w == x * w + (v + y * w) * f
  {
    assert (x + y * f) * w == x * w + y * f * w && y * f * w == y * w * f;
  }

  // ---------- Columns of a product ----------

  /** The sum of a[i] * b[k - i] over i < m with k - i < n. */
  function Column(a: seq<int>, b: seq<int>, k: int, m: nat, n: nat): int
    requires m <= |a| && n <= |b|
  {
    if m == 0 then 0
    else Column(a, b, k, m - 1, n) + if 0 <= k - (m - 1) < n then a[m - 1] * b[k - (m - 1)] else 0
  }

  /** The same sum, one limb of b at a time. */
  lemma {:induction false} ColumnNext(a: seq<int>, b: seq<int>, k: int, m: nat, n: nat)
    requires m <= |a| && n < |b|
    ensures Column(a, b, k, m, n + 1) == Column(a, b, k, m, n) + if 0 <= k - n < m then a[k - n] * b[n] else 0
  {
    if m > 0 {
      ColumnNext(a, b, k, m - 1, n);
    }
  }

  lemma {:induction false} ColumnBound(a: seq<int>, b: seq<int>, k: int, m: nat, n: nat, x: int, y: int)
    requires m <= |a| && n <= |b| && 0 <= x && 0 <= y
    requires forall i :: 0 <= i < m ==> 0 <= a[i] <= x
    requires forall i :: 0 <= i < n ==> 0 <= b[i] <= y
    ensures 0 <= Column(a, b, k, m, n) <= m * (x * y)
  {
    if m > 0 {
      ColumnBound(a, b, k, m - 1, n, x, y);
      assert m * (x * y) == (m - 1) * (x * y) + x * y;
      if 0 <= k - (m - 1) < n {
        ProductBound(a[m - 1], b[k - (m - 1)], x, y);
      } else {
        MulLe(0, x, y);
      }
    }
  }

  lemma ProductBound(a: int, b: int, x: int, y: int)
    requires 0 <= a <= x && 0 <= b <= y
    ensures 0 <= a * b <= x * y
  {
    MulLe(a, x, b);
    MulLe(b, y, x);
    MulLe(0, a, b);
    assert b * x == x * b && y * x == x * y;
  }
}
