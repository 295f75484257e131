/** Products in the field of 3rd/encrypt/src/p256_ec.c: felem_mul and felem_square. */
module FelemProduct {
  import opened Bits
  import opened Modular
  import opened Limbs
  import opened FelemField
  import opened FelemSpread
  import opened FelemReduce

  /** The weights of two odd limbs multiply to twice the weight of their product's limb. */
  function Twisted(i: int, j: int, x: int): int { if i % 2 == 1 && j % 2 == 1 then 2 * x else x }

  /** The part of limb k of a * b that comes from the first m limbs of a. */
  function Column(a: seq<int>, b: seq<int>, k: int, m: nat): int
    requires m <= |a| && |b| == N
  {
    if m == 0 then 0
    else
      Column(a, b, k, m - 1)
      + if 0 <= k - (m - 1) < N then Twisted(m - 1, k - (m - 1), a[m - 1] * b[k - (m - 1)]) else 0
  }

  function Columns(a: seq<int>, b: seq<int>, m: nat): (s: seq<int>)
    requires |a| == |b| == N && m <= N
    ensures |s| == 17
  {
    seq(17, k => Column(a, b, k, m))
  }

  /** b times a limb d at position m. */
  function Row(b: seq<int>, d: int, m: nat): (s: seq<int>)
    requires |b| == N && m < N
    ensures |s| == 17
  {
    seq(17, k => if 0 <= k - m < N then Twisted(m, k - m, d * b[k - m]) else 0)
  }

  lemma {:induction false} WeightTwist(i: nat, j: nat)
    ensures Weight(i) * Weight(j) == Twisted(i, j, Weight(i + j))
  {
    if j == 0 {
      assert Weight(j) == 1;
    } else if j == 1 {
      TwistOne(i, j);
    } else {
      var k := j - 2;
      WeightTwist(i, k);
      WeightPair(k);
      WeightPair(i + k);
      TwistTerm(Weight(i), Weight(k), Weight(j));
      TwistScale(i, k, Weight(i + k));
    }
  }

  lemma TwistOne(i: nat, j: nat)
    requires j == 1
    ensures Weight(i) * Weight(j) == Twisted(i, j, Weight(i + j))
  {
    assert Weight(j) == Weight(j - 1) * Radix(j - 1) == 0x2000_0000;
    WeightPair(i);
  }

  lemma TwistScale(i: nat, k: nat, x: int)
    ensures Twisted(i, k + 2, x * BIT57) == Twisted(i, k, x) * BIT57
  {
  }

  lemma TwistTerm(u: int, v: int, v': int)
    requires v' == v * BIT57
    ensures u * v' == u * v * BIT57
  {
    MulAssoc(u, v, BIT57);
  }

  lemma {:induction false} RowNumber(b: seq<int>, d: int, m: nat, n: nat)
    requires |b| == N && m < N && n <= N
    ensures Number(Row(b, d, m)[..m + n]) == Weight(m) * (Number(b[..n]) * d)
  {
    var row := Row(b, d, m);
    if n == 0 {
      EvalZeroPrefix(Weight, row, m);
      assert b[..0] == [];
    } else {
      RowNumber(b, d, m, n - 1);
      RowAt(b, d, m, n - 1);
      RowNext(row, b, d, m, n - 1);
    }
  }

  lemma RowNext(row: seq<int>, b: seq<int>, d: int, m: nat, j: nat)
    requires |row| == 17 && |b| == N && m < N && j < N && row[m + j] == Twisted(m, j, d * b[j])
    requires Number(row[..m + j]) == Weight(m) * (Number(b[..j]) * d)
    ensures Number(row[..m + (j + 1)]) == Weight(m) * (Number(b[..j + 1]) * d)
  {
    EvalTake(Weight, row, m + j);
    EvalTake(Weight, b, j);
    WeightTwist(m, j);
    RowTerm(m % 2 == 1 && j % 2 == 1, d, b[j], Weight(m + j), Weight(m), Weight(j), Number(b[..j]), row[m + j],
      Number(b[..j + 1]), Number(row[..m + j]), Number(row[..m + j + 1]));
  }

  lemma RowAt(b: seq<int>, d: int, m: nat, j: nat)
    requires |b| == N && m < N && j < N
    ensures Row(b, d, m)[m + j] == Twisted(m, j, d * b[j])
  {
  }

  lemma RowTerm(odd: bool, d: int, b: int, wk: int, wm: int, wn: int, v: int, x: int, total: int, before: int,
                after: int)
    requires wm * wn == (if odd then 2 * wk else wk) && x == (if odd then 2 * (d * b) else d * b) && total == v + b * wn
    requires before == wm * (v * d) && after == before + x * wk
    ensures after == wm * (total * d)
  {
    var y := d * b;
    assert x * wk == y * (wm * wn) by { assert 2 * y * wk == y * (2 * wk); }
    assert y * (wm * wn) == wm * (b * wn * d);
    MulEqual(total, v + b * wn, d);
    assert (v + b * wn) * d == v * d + b * wn * d;
    MulSum(wm, v * d, b * wn * d);
    MulEqual(total * d, v * d + b * wn * d, wm);
  }

  lemma ColumnsNext(a: seq<int>, b: seq<int>, m: nat)
    requires |a| == |b| == N && m < N
    ensures Combined(Columns(a, b, m + 1), Columns(a, b, m), Row(b, a[m], m), 1)
  {
  }

  lemma {:induction false} ColumnsNumber(a: seq<int>, b: seq<int>, m: nat)
    requires |a| == |b| == N && m <= N
    ensures Number(Columns(a, b, m)) == Number(a[..m]) * Number(b)
  {
    if m == 0 {
      assert Columns(a, b, 0) == seq(17, _ => 0);
      EvalZeros(Weight, 17);
      assert a[..0] == [];
    } else {
      var row := Row(b, a[m - 1], m - 1);
      ColumnsNumber(a, b, m - 1);
      ColumnsNext(a, b, m - 1);
      EvalCombined(Weight, Columns(a, b, m), Columns(a, b, m - 1), row, 1);
      RowNumber(b, a[m - 1], m - 1, N);
      EvalZeroSuffix(Weight, row, m - 1 + N);
      assert b[..N] == b;
      EvalTake(Weight, a, m - 1);
      RowsTerm(Number(a[..m - 1]), a[m - 1], Weight(m - 1), Number(b), Number(a[..m]));
    }
  }

  lemma RowsTerm(v: int, x: int, w: int, b: int, total: int)
    requires total == v + x * w
    ensures v * b + w * (b * x) == total * b
  {
    MulEqual(total, v + x * w, b);
    assert (v + x * w) * b == v * b + x * w * b;
    assert x * w * b == w * (b * x);
  }

  // ---------- The columns ----------

  /** (u64)x * (y * f), where the second factor is shifted in 32 bits */
  function Product(x: u32, y: u32, f: u32): (r: u64)
    requires f <= 4 && y < 0x4000_0000
    ensures r == f * (x * y)
    ensures x < 0x4000_0000 && y * f < 0x4000_0000 ==> r < 0x1000_0000_0000_0000
    ensures x < 0x2000_0000 && y * f < 0x8000_0000 ==> r < 0x1000_0000_0000_0000
    ensures x < 0x4000_0000 && y * f < 0x8000_0000 ==> r < 0x2000_0000_0000_0000
  {
    ProductRange(x, y * f);
    MulSwap(x, f, y);
    x * (y * f)
  }

  lemma ProductRange(x: int, y: int)
    requires 0 <= x < 0x1_0000_0000 && 0 <= y < 0x1_0000_0000
    ensures 0 <= x * y < 0x1_0000_0000_0000_0000
    ensures x < 0x4000_0000 && y < 0x4000_0000 ==> x * y < 0x1000_0000_0000_0000
    ensures x < 0x2000_0000 && y < 0x8000_0000 ==> x * y < 0x1000_0000_0000_0000
    ensures x < 0x4000_0000 && y < 0x8000_0000 ==> x * y < 0x2000_0000_0000_0000
  {
    ProductBound(x, y, 0xffff_ffff, 0xffff_ffff);
    if x < 0x4000_0000 && y < 0x8000_0000 {
      ProductBound(x, y, 0x3fff_ffff, 0x7fff_ffff);
    }
    if x < 0x4000_0000 && y < 0x4000_0000 {
      ProductBound(x, y, 0x3fff_ffff, 0x3fff_ffff);
    }
    if x < 0x2000_0000 && y < 0x8000_0000 {
      ProductBound(x, y, 0x1fff_ffff, 0x7fff_ffff);
    }
  }

  lemma Limbs9(s: seq<int>)
    requires Loose(s)
    ensures 0 <= s[0] < 0x4000_0000 && 0 <= s[1] < 0x2000_0000 && 0 <= s[2] < 0x4000_0000 && 0 <= s[3] < 0x2000_0000
    ensures 0 <= s[4] < 0x4000_0000 && 0 <= s[5] < 0x2000_0000 && 0 <= s[6] < 0x4000_0000 && 0 <= s[7] < 0x2000_0000
    ensures 0 <= s[8] < 0x4000_0000
  {
  }

  /** One summand of limb k of a * b. */
  function Term(a: seq<int>, b: seq<int>, k: int, i: nat): int
    requires |a| == |b| == N && i < N
  {
    if 0 <= k - i < N then Twisted(i, k - i, a[i] * b[k - i]) else 0
  }

  lemma ColumnTerms(a: seq<int>, b: seq<int>, k: int)
    requires |a| == |b| == N
    ensures Column(a, b, k, N)
      == Term(a, b, k, 0) + Term(a, b, k, 1) + Term(a, b, k, 2) + Term(a, b, k, 3) + Term(a, b, k, 4)
                                + Term(a, b, k, 5) + Term(a, b, k, 6) + Term(a, b, k, 7) + Term(a, b, k, 8)
  {
    assert Column(a, b, k, 0) == 0;
    assert Column(a, b, k, 1) == Term(a, b, k, 0);
    assert Column(a, b, k, 2) == Column(a, b, k, 1) + Term(a, b, k, 1);
    assert Column(a, b, k, 3) == Column(a, b, k, 2) + Term(a, b, k, 2);
    assert Column(a, b, k, 4) == Column(a, b, k, 3) + Term(a, b, k, 3);
    assert Column(a, b, k, 5) == Column(a, b, k, 4) + Term(a, b, k, 4);
    assert Column(a, b, k, 6) == Column(a, b, k, 5) + Term(a, b, k, 5);
    assert Column(a, b, k, 7) == Column(a, b, k, 6) + Term(a, b, k, 6);
    assert Column(a, b, k, 8) == Column(a, b, k, 7) + Term(a, b, k, 7);
  }

  method MulLow(tmp: array<u64>, a: array<u32>, b: array<u32>)
    requires tmp.Length == 17 && a.Length == b.Length == N && Loose(a[..]) && Loose(b[..])
    modifies tmp
    ensures forall k :: 0 <= k < 17 ==> tmp[k] == if 0 <= k < 6 then Column(a[..], b[..], k, N) else old(tmp[k])
  {
    Limbs9(a[..]);
    Limbs9(b[..]);
    tmp[0] := Product(a[0], b[0], 1);
    tmp[1] := Product(a[0], b[1], 1) + Product(a[1], b[0], 1);
    tmp[2] := Product(a[0], b[2], 1) + Product(a[1], b[1], 2) + Product(a[2], b[0], 1);
    tmp[3] := Product(a[0], b[3], 1) + Product(a[1], b[2], 1) + Product(a[2], b[1], 1) + Product(a[3], b[0], 1);
    tmp[4] := Product(a[0], b[4], 1) + Product(a[1], b[3], 2) + Product(a[2], b[2], 1) + Product(a[3], b[1], 2) +
      Product(a[4], b[0], 1);
    tmp[5] := Product(a[0], b[5], 1) + Product(a[1], b[4], 1) + Product(a[2], b[3], 1) + Product(a[3], b[2], 1) +
      Product(a[4], b[1], 1) + Product(a[5], b[0], 1);
    ColumnTerms(a[..], b[..], 0);
    ColumnTerms(a[..], b[..], 1);
    ColumnTerms(a[..], b[..], 2);
    ColumnTerms(a[..], b[..], 3);
    ColumnTerms(a[..], b[..], 4);
    ColumnTerms(a[..], b[..], 5);
  }

  method MulMiddle(tmp: array<u64>, a: array<u32>, b: array<u32>)
    requires tmp.Length == 17 && a.Length == b.Length == N && Loose(a[..]) && Loose(b[..])
    modifies tmp
    ensures forall k :: 0 <= k < 17 ==> tmp[k] == if 6 <= k < 11 then Column(a[..], b[..], k, N) else old(tmp[k])
  {
    Limbs9(a[..]);
    Limbs9(b[..]);
    tmp[6] := Product(a[0], b[6], 1) + Product(a[1], b[5], 2) + Product(a[2], b[4], 1) + Product(a[3], b[3], 2) +
      Product(a[4], b[2], 1) + Product(a[5], b[1], 2) + Product(a[6], b[0], 1);
    tmp[7] := Product(a[0], b[7], 1) + Product(a[1], b[6], 1) + Product(a[2], b[5], 1) + Product(a[3], b[4], 1) +
      Product(a[4], b[3], 1) + Product(a[5], b[2], 1) + Product(a[6], b[1], 1) + Product(a[7], b[0], 1);
    tmp[8] := Product(a[0], b[8], 1) + Product(a[1], b[7], 2) + Product(a[2], b[6], 1) + Product(a[3], b[5], 2) +
      Product(a[4], b[4], 1) + Product(a[5], b[3], 2) + Product(a[6], b[2], 1) + Product(a[7], b[1], 2) +
      Product(a[8], b[0], 1);
    tmp[9] := Product(a[1], b[8], 1) + Product(a[2], b[7], 1) + Product(a[3], b[6], 1) + Product(a[4], b[5], 1) +
      Product(a[5], b[4], 1) + Product(a[6], b[3], 1) + Product(a[7], b[2], 1) + Product(a[8], b[1], 1);
    tmp[10] := Product(a[2], b[8], 1) + Product(a[3], b[7], 2) + Product(a[4], b[6], 1) + Product(a[5], b[5], 2) +
      Product(a[6], b[4], 1) + Product(a[7], b[3], 2) + Product(a[8], b[2], 1);
    ColumnTerms(a[..], b[..], 6);
    ColumnTerms(a[..], b[..], 7);
    ColumnTerms(a[..], b[..], 8);
    ColumnTerms(a[..], b[..], 9);
    ColumnTerms(a[..], b[..], 10);
  }

  method MulHigh(tmp: array<u64>, a: array<u32>, b: array<u32>)
    requires tmp.Length == 17 && a.Length == b.Length == N && Loose(a[..]) && Loose(b[..])
    modifies tmp
    ensures forall k :: 0 <= k < 17 ==> tmp[k] == if 11 <= k < 17 then Column(a[..], b[..], k, N) else old(tmp[k])
  {
    Limbs9(a[..]);
    Limbs9(b[..]);
    tmp[11] := Product(a[3], b[8], 1) + Product(a[4], b[7], 1) + Product(a[5], b[6], 1) + Product(a[6], b[5], 1) +
      Product(a[7], b[4], 1) + Product(a[8], b[3], 1);
    tmp[12] := Product(a[4], b[8], 1) + Product(a[5], b[7], 2) + Product(a[6], b[6], 1) + Product(a[7], b[5], 2) +
      Product(a[8], b[4], 1);
    tmp[13] := Product(a[5], b[8], 1) + Product(a[6], b[7], 1) + Product(a[7], b[6], 1) + Product(a[8], b[5], 1);
    tmp[14] := Product(a[6], b[8], 1) + Product(a[7], b[7], 2) + Product(a[8], b[6], 1);
    tmp[15] := Product(a[7], b[8], 1) + Product(a[8], b[7], 1);
    tmp[16] := Product(a[8], b[8], 1);
    ColumnTerms(a[..], b[..], 11);
    ColumnTerms(a[..], b[..], 12);
    ColumnTerms(a[..], b[..], 13);
    ColumnTerms(a[..], b[..], 14);
    ColumnTerms(a[..], b[..], 15);
    ColumnTerms(a[..], b[..], 16);
  }

  method SquareLow(tmp: array<u64>, a: array<u32>)
    requires tmp.Length == 17 && a.Length == N && Loose(a[..])
    modifies tmp
    ensures forall k :: 0 <= k < 17 ==> tmp[k] == if 0 <= k < 6 then Column(a[..], a[..], k, N) else old(tmp[k])
  {
    Limbs9(a[..]);
    tmp[0] := Product(a[0], a[0], 1);
    tmp[1] := Product(a[0], a[1], 2);
    tmp[2] := Product(a[0], a[2], 2) + Product(a[1], a[1], 2);
    tmp[3] := Product(a[0], a[3], 2) + Product(a[1], a[2], 2);
    tmp[4] := Product(a[0], a[4], 2) + Product(a[1], a[3], 4) + Product(a[2], a[2], 1);
    tmp[5] := Product(a[0], a[5], 2) + Product(a[1], a[4], 2) + Product(a[2], a[3], 2);
    ColumnTerms(a[..], a[..], 0);
    ColumnTerms(a[..], a[..], 1);
    ColumnTerms(a[..], a[..], 2);
    ColumnTerms(a[..], a[..], 3);
    ColumnTerms(a[..], a[..], 4);
    ColumnTerms(a[..], a[..], 5);
  }

  method SquareMiddle(tmp: array<u64>, a: array<u32>)
    requires tmp.Length == 17 && a.Length == N && Loose(a[..])
    modifies tmp
    ensures forall k :: 0 <= k < 17 ==> tmp[k] == if 6 <= k < 11 then Column(a[..], a[..], k, N) else old(tmp[k])
  {
    Limbs9(a[..]);
    tmp[6] := Product(a[0], a[6], 2) + Product(a[1], a[5], 4) + Product(a[2], a[4], 2) + Product(a[3], a[3], 2);
    tmp[7] := Product(a[0], a[7], 2) + Product(a[1], a[6], 2) + Product(a[2], a[5], 2) + Product(a[3], a[4], 2);
    tmp[8] := Product(a[0], a[8], 2) + Product(a[1], a[7], 4) + Product(a[2], a[6], 2) + Product(a[3], a[5], 4) +
      Product(a[4], a[4], 1);
    tmp[9] := Product(a[1], a[8], 2) + Product(a[2], a[7], 2) + Product(a[3], a[6], 2) + Product(a[4], a[5], 2);
    tmp[10] := Product(a[2], a[8], 2) + Product(a[3], a[7], 4) + Product(a[4], a[6], 2) + Product(a[5], a[5], 2);
    ColumnTerms(a[..], a[..], 6);
    ColumnTerms(a[..], a[..], 7);
    ColumnTerms(a[..], a[..], 8);
    ColumnTerms(a[..], a[..], 9);
    ColumnTerms(a[..], a[..], 10);
  }

  method SquareHigh(tmp: array<u64>, a: array<u32>)
    requires tmp.Length == 17 && a.Length == N && Loose(a[..])
    modifies tmp
    ensures forall k :: 0 <= k < 17 ==> tmp[k] == if 11 <= k < 17 then Column(a[..], a[..], k, N) else old(tmp[k])
  {
    Limbs9(a[..]);
    tmp[11] := Product(a[3], a[8], 2) + Product(a[4], a[7], 2) + Product(a[5], a[6], 2);
    tmp[12] := Product(a[4], a[8], 2) + Product(a[5], a[7], 4) + Product(a[6], a[6], 1);
    tmp[13] := Product(a[5], a[8], 2) + Product(a[6], a[7], 2);
    tmp[14] := Product(a[6], a[8], 2) + Product(a[7], a[7], 2);
    tmp[15] := Product(a[7], a[8], 2);
    tmp[16] := Product(a[8], a[8], 1);
    ColumnTerms(a[..], a[..], 11);
    ColumnTerms(a[..], a[..], 12);
    ColumnTerms(a[..], a[..], 13);
    ColumnTerms(a[..], a[..], 14);
    ColumnTerms(a[..], a[..], 15);
    ColumnTerms(a[..], a[..], 16);
  }

  // ---------- Multiplication ----------

  method MulColumns(a: array<u32>, b: array<u32>) returns (tmp: array<u64>)
    requires a.Length == b.Length == N && Loose(a[..]) && Loose(b[..])
    ensures fresh(tmp) && tmp.Length == 17 && tmp[..] == Columns(a[..], b[..], N)
  {
    tmp := new u64[17];
    MulLow(tmp, a, b);
    MulMiddle(tmp, a, b);
    MulHigh(tmp, a, b);
  }

  /** The same columns as for two equal factors. */
  method SquareColumns(a: array<u32>) returns (tmp: array<u64>)
    requires a.Length == N && Loose(a[..])
    ensures fresh(tmp) && tmp.Length == 17 && tmp[..] == Columns(a[..], a[..], N)
  {
    tmp := new u64[17];
    SquareLow(tmp, a);
    SquareMiddle(tmp, a);
    SquareHigh(tmp, a);
  }

  /** The reduction has room for every product. */
  lemma ProductRoom(a: seq<int>, b: seq<int>)
    requires Loose(a) && Loose(b)
    ensures Number(a) * Number(b) >= 0 && Reducible(Number(a) * Number(b))
    ensures Number(Columns(a, b, N)) == Number(a) * Number(b)
  {
    LooseNumber(a);
    LooseNumber(b);
    Weights();
    var top := 2 * Weight(9) + 4 * Weight(8);
    ProductBound(Number(a), Number(b), top, top);
    ReducibleBelow(Number(a) * Number(b));
    ColumnsNumber(a, b, N);
    assert a[..N] == a;
  }

  /** out * 2^257 = a * b modulo the prime; the limbs depend on the product alone. out may be a or b. */
  method Mul(out: array<u32>, a: array<u32>, b: array<u32>)
    requires out.Length == a.Length == b.Length == N && Loose(a[..]) && Loose(b[..])
    modifies out
    ensures Elem(out[..]) && Congruent(P, Number(out[..]) * Weight(9), old(Number(a[..]) * Number(b[..])))
    ensures old(Number(a[..]) * Number(b[..])) >= 0 && out[..] == Reduced(old(Number(a[..]) * Number(b[..])))
  {
    ProductRoom(a[..], b[..]);
    var tmp := MulColumns(a, b);
    ReduceDegree(out, tmp);
  }

  /** The limbs are those of Mul(out, a, a). */
  method Square(out: array<u32>, a: array<u32>)
    requires out.Length == a.Length == N && Loose(a[..])
    modifies out
    ensures Elem(out[..]) && Congruent(P, Number(out[..]) * Weight(9), old(Number(a[..]) * Number(a[..])))
    ensures old(Number(a[..]) * Number(a[..])) >= 0 && out[..] == Reduced(old(Number(a[..]) * Number(a[..])))
  {
    ProductRoom(a[..], a[..]);
    var tmp := SquareColumns(a);
    ReduceDegree(out, tmp);
  }
}
