/** Poly1305 over whole messages, as RFC 8439, section 2.5, has it. */
module Poly1305Messages {
  import opened Bits
  import opened Memory
  import opened Poly1305Answer
  import opened Poly1305Limbs

  // ---------- The key ----------

  /** And of numbers is that of their bytes. */
  lemma {:induction false} AndLe(a: seq<byte>, b: seq<byte>, c: seq<byte>)
    requires |a| == |b| == |c| && forall i :: 0 <= i < |a| ==> c[i] == And(a[i], b[i])
    ensures And(Le(a), Le(b)) == Le(c)
  {
    if a != [] {
      AndLe(a[1..], b[1..], c[1..]);
      assert Pow2(8) == 256;
      AndConcat(a[0], Le(a[1..]), b[0], Le(b[1..]), 8);
    }
  }

  lemma AndMasks(x: byte, full: nat, low: nat, high: nat)
    requires full == 0xff && low == 0x0f && high == 0xfc
    ensures And(x, full) == x && And(x, low) == x % 16 && And(x, high) == x - x % 4
  {
    assert Pow2(8) == 256 && Pow2(4) == 16 && Pow2(2) == 4 && Pow2(6) == 64;
    AndMask(x, full, 8);
    AndMask(x, low, 4);
    AndHighMask(x, high, 63);
  }

  lemma AndMask(x: nat, mask: nat, s: nat)
    requires mask == Pow2(s) - 1
    ensures And(x, mask) == Low(x, s)
  {
    AndLowMask(x, s);
  }

  lemma AndHighMask(x: byte, mask: nat, high: nat)
    requires mask == Shl(high, 2) && high == Pow2(6) - 1
    ensures And(x, mask) == x - x % 4
  {
    assert Pow2(2) == 4;
    AndParts(x, 0, high, 2);
    AllLow(Shr(x, 2), high, 6);
    assert And(Low(x, 2), 0) == 0;
  }

  lemma AllLow(x: nat, mask: nat, s: nat)
    requires mask == Pow2(s) - 1 && x < 64 == Pow2(s)
    ensures And(x, mask) == x
  {
    AndLowMask(x, s);
    DivModUnique(x, 64, 0, x);
  }

  lemma MaskedKey(key: seq<byte>, mask: seq<byte>)
    requires |key| == 32
    requires mask == [0xff, 0xff, 0xff, 0x0f, 0xfc, 0xff, 0xff, 0x0f, 0xfc, 0xff, 0xff, 0x0f, 0xfc, 0xff, 0xff, 0x0f]
    ensures Le(Clamp(key)) == And(Le(key[..16]), 0x0fff_fffc_0fff_fffc_0fff_fffc_0fff_ffff)
  {
    NumberOf16(mask, 0x0fff_ffff, 0x0fff_fffc, 0x0fff_fffc, 0x0fff_fffc, 0x0fff_fffc_0fff_fffc_0fff_fffc_0fff_ffff);
    forall i | 0 <= i < 16 ensures Clamp(key)[i] == And(key[..16][i], mask[i]) {
      AndMasks(key[i], 0xff, 0x0f, 0xfc);
    }
    AndLe(key[..16], mask, Clamp(key));
  }

  /** The first half of the key is taken with the mask of the standard. */
  lemma ClampMask(key: seq<byte>)
    requires |key| == 32
    ensures Le(Clamp(key)) == And(Le(key[..16]), 0x0fff_fffc_0fff_fffc_0fff_fffc_0fff_ffff)
  {
    var mask: seq<byte> :=
      [0xff, 0xff, 0xff, 0x0f, 0xfc, 0xff, 0xff, 0x0f, 0xfc, 0xff, 0xff, 0x0f, 0xfc, 0xff, 0xff, 0x0f];
    MaskedKey(key, mask);
  }

  // ---------- The message ----------

  lemma CoefficientOfFront(a: seq<byte>, s: seq<byte>, i: nat)
    requires 16 * i + 16 <= |a| <= |s| && s[..|a|] == a
    ensures Coefficient(s, i) == Coefficient(a, i)
  {
    assert s[16 * i..16 * i + 16] == a[16 * i..16 * i + 16];
  }

  lemma {:induction false} TermsOfFront(a: seq<byte>, s: seq<byte>, r: nat, n: nat, k: nat)
    requires k <= n <= BlockCount(a) <= BlockCount(s) && 16 * n <= |a| <= |s| && s[..|a|] == a
    ensures Terms(s, r, n, k) == Terms(a, r, n, k)
    decreases k
  {
    if k > 0 {
      TermsOfFront(a, s, r, n, k - 1);
      CoefficientOfFront(a, s, k - 1);
    }
  }

  lemma OneBlockMore(a: seq<byte>, b: seq<byte>, n: nat)
    requires |a| == 16 * n && 0 < |b| <= 16
    ensures BlockCount(a) == n && BlockCount(a + b) == n + 1
  {
    DivModUnique(16 * n + 15, 16, n, 15);
    DivModUnique(16 * n + |b| + 15, 16, n + 1, |b| - 1);
  }

  lemma LastCoefficient(a: seq<byte>, b: seq<byte>, s: seq<byte>, n: nat, m: nat)
    requires m == |a| == 16 * n && 0 < |b| <= 16 && s == a + b
    ensures Coefficient(s, n) == Le(b) + Pow2(8 * |b|)
  {
    assert s[m..m + |b|] == b && |s| == m + |b|;
  }

  /** One block more, which only at the end may be shorter than 16 bytes, is one step more, with a one bit above it. */
  lemma BlockAppended(a: seq<byte>, b: seq<byte>, r: nat, n: nat, x: nat, y: nat)
    requires |a| == 16 * n && 0 < |b| <= 16
    requires x == Polynomial(a, r, BlockCount(a)) && y == Le(b) + Pow2(8 * |b|)
    ensures Polynomial(a + b, r, BlockCount(a + b)) == (x + y) * r
  {
    OneBlockMore(a, b, n);
    FrontIsPolynomial(a, b, r, n);
    LastCoefficient(a, b, a + b, n, |a|);
    LastStep(a + b, r, n, x, y);
  }

  lemma FrontIsPolynomial(a: seq<byte>, b: seq<byte>, r: nat, n: nat)
    requires |a| == 16 * n && n <= BlockCount(a) && n <= BlockCount(a + b)
    ensures Polynomial(a + b, r, n) == Polynomial(a, r, n)
  {
    TermsOfFront(a, a + b, r, n, n);
  }

  lemma LastStep(s: seq<byte>, r: nat, n: nat, x: nat, y: nat)
    requires n < BlockCount(s) && 16 * n < |s| && Polynomial(s, r, n) == x && Coefficient(s, n) == y
    ensures Polynomial(s, r, n + 1) == (x + y) * r
  {
    PolynomialStep(s, r, n);
  }

  lemma PrimeIs()
    ensures P == Pow2(130) - 5 && TWO_128 == Pow2(128)
  {
    Pow2Values();
    Pow2Add(64, 64);
    Pow2Add(128, 2);
    assert Pow2(2) == 4;
  }

  lemma LeBound16(s: seq<byte>)
    requires |s| == 16
    ensures Le(s) < TWO_128
  {
    LeOf16(s);
  }

  lemma TagIs(msg: seq<byte>, key: seq<byte>, value: nat)
    requires |key| == 32 && value == Polynomial(msg, Le(Clamp(key)), BlockCount(msg))
    ensures Tag(msg, key) == LeBytes((value % (Pow2(130) - 5) + Le(key[16..])) % Pow2(128), 16)
  {
    PrimeIs();
  }

  lemma LowBytes(s: seq<byte>, n: nat, m: nat)
    requires |s| == n && Le(s) < m
    ensures LeBytes(Le(s) % m, n) == s
  {
    DivModUnique(Le(s), m, 0, Le(s));
    LeBytesOfLe(s);
  }

  lemma NothingLeft(p: nat, v: nat)
    requires p > 0
    ensures 0 % p + v == v
  {
  }

  /** The tag of nothing is the second half of the key. */
  lemma EmptyTag(key: seq<byte>)
    requires |key| == 32
    ensures Tag([], key) == key[16..]
  {
    PrimeIs();
    TagIs([], key, 0);
    LeBound16(key[16..]);
    LowBytes(key[16..], 16, Pow2(128));
    NothingLeft(Pow2(130) - 5, Le(key[16..]));
  }

  /** The tag of one block is one step. */
  lemma BlockTag(b: seq<byte>, key: seq<byte>, value: nat)
    requires |key| == 32 && 0 < |b| <= 16 && value == (Le(b) + Pow2(8 * |b|)) * Le(Clamp(key))
    ensures Tag(b, key) == LeBytes((value % (Pow2(130) - 5) + Le(key[16..])) % Pow2(128), 16)
  {
    assert [] + b == b;
    BlockAppended([], b, Le(Clamp(key)), 0, 0, Le(b) + Pow2(8 * |b|));
    TagIs(b, key, value);
  }
}
