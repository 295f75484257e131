/** Numbers as 32-bit digits, least significant first, and the loops that add,
    subtract and multiply them digit by digit (3rd/encrypt/src/p256.c). */
module P256Number {
  import opened Bits

  const W := 0x1_0000_0000

  /** W to the power k */
  function Radix(k: nat): (r: nat)
    ensures r > 0
  {
    if k == 0 then 1 else W * Radix(k - 1)
  }

  function Value(s: seq<u32>): nat {
    if s == [] then 0 else Value(s[..|s| - 1]) + s[|s| - 1] * Radix(|s| - 1)
  }

  lemma {:induction false} RadixAdd(m: nat, n: nat)
    ensures Radix(m + n) == Radix(m) * Radix(n)
  {
    if m > 0 {
      RadixAdd(m - 1, n);
      assert W * (Radix(m - 1) * Radix(n)) == W * Radix(m - 1) * Radix(n);
    }
  }

  lemma {:induction false} RadixPow2(k: nat)
    ensures Radix(k) == Pow2(32 * k)
  {
    if k > 0 {
      RadixPow2(k - 1);
      Pow2Values();
      Pow2Add(32, 32 * (k - 1));
    }
  }

  lemma {:induction false} ValueBound(s: seq<u32>)
    ensures Value(s) < Radix(|s|)
  {
    if s != [] {
      var d: int, r := s[|s| - 1], Radix(|s| - 1);
      ValueBound(s[..|s| - 1]);
      MulLe(d + 1, W, r);
      assert (d + 1) * r == d * r + r;
    }
  }

  lemma ValueAppend(s: seq<u32>, d: u32)
    ensures Value(s + [d]) == Value(s) + d * Radix(|s|)
  {
    assert (s + [d])[..|s|] == s;
  }

  lemma {:induction false} ValueConcat(a: seq<u32>, b: seq<u32>)
    ensures Value(a + b) == Value(a) + Radix(|a|) * Value(b)
  {
    if b == [] {
      assert a + b == a;
    } else {
      var c, d := b[..|b| - 1], b[|b| - 1];
      ValueConcat(a, c);
      assert a + b == (a + c) + [d];
      ValueAppend(a + c, d);
      RadixAdd(|a|, |c|);
      DistributeDigit(Radix(|a|), Value(c), d, Radix(|c|));
    }
  }

  lemma DistributeDigit(r: int, v: int, d: int, q: int)
    ensures r * v + d * (r * q) == r * (v + d * q)
  {
    assert d * (r * q) == r * (d * q);
  }

  lemma ValueTake(s: seq<u32>, k: nat)
    requires k < |s|
    ensures Value(s[..k + 1]) == Value(s[..k]) + s[k] * Radix(k)
  {
    assert s[..k + 1] == s[..k] + [s[k]];
    ValueAppend(s[..k], s[k]);
  }

  lemma ValueSplit(s: seq<u32>, k: nat)
    requires k <= |s|
    ensures Value(s) == Value(s[..k]) + Radix(k) * Value(s[k..])
  {
    assert s == s[..k] + s[k..];
    ValueConcat(s[..k], s[k..]);
  }

  lemma {:induction false} ValueOfZeros(n: nat)
    ensures Value(seq(n, _ => 0)) == 0
  {
    if n > 0 {
      ValueOfZeros(n - 1);
      assert seq(n, _ => 0)[..n - 1] == seq(n - 1, _ => 0);
    }
  }

  /** Numbers of the same length are equal when their digits are. */
  lemma {:induction false} ValueInjective(a: seq<u32>, b: seq<u32>)
    requires |a| == |b| && Value(a) == Value(b)
    ensures a == b
  {
    if a != [] {
      var n := |a| - 1;
      ValueBound(a[..n]);
      ValueBound(b[..n]);
      DivModUnique(Value(a), Radix(n), a[n], Value(a[..n]));
      DivModUnique(Value(b), Radix(n), b[n], Value(b[..n]));
      ValueInjective(a[..n], b[..n]);
      assert a == a[..n] + [a[n]] && b == b[..n] + [b[n]];
    }
  }

  /** One digit of a carry loop: t is stored modulo W and carried divided by W. */
  lemma CarryStep(value: int, carry: int, total: int, x: int, k: nat)
    requires value + carry * Radix(k) == total
    ensures var t := carry + x;
      value + (t % W) * Radix(k) + (t / W) * Radix(k + 1) == total + x * Radix(k)
  {
    var t, r := carry + x, Radix(k);
    assert t == (t / W) * W + t % W;
    assert (t / W) * (W * r) == (t / W) * W * r;
    assert ((t / W) * W + t % W) * r == (t / W) * W * r + (t % W) * r;
    assert (carry + x) * r == carry * r + x * r;
  }

  lemma ProductStep(was: int, wasDigit: int, a: int, digit: int, b: int, r: int)
    ensures was + a * b + (wasDigit + digit * b) * r == (was + wasDigit * r) + (a + digit * r) * b
  {
    assert (wasDigit + digit * b) * r == wasDigit * r + digit * b * r;
    assert digit * b * r == digit * r * b;
  }

  /** Cutting a slice is slicing. */
  lemma SubSlice(s: seq<u32>, o: nat, n: nat, i: nat)
    requires o + n <= |s| && i <= n
    ensures s[o..o + n][..i] == s[o..o + i] && s[o..o + n][i..] == s[o + i..o + n]
  {
    var a, low, high := s[o..o + n], s[o..o + i], s[o + i..o + n];
    var left, right := a[..i], a[i..];
    forall j | 0 <= j < i ensures left[j] == low[j] {
      assert a[j] == s[o + j];
    }
    forall j | 0 <= j < n - i ensures right[j] == high[j] {
      assert a[i + j] == s[o + (i + j)];
    }
  }

  lemma ValueFirst(s: seq<u32>)
    requires |s| > 0
    ensures Value(s) == s[0] + W * Value(s[1..])
  {
    ValueSplit(s, 1);
    ValueTake(s, 0);
  }

  /** The number of eight digits, lowest first. */
  lemma EightDigits(s: seq<u32>)
    requires |s| == 8
    ensures var d: seq<int> := s;
      Value(s) == d[0] + d[1] * 0x1_0000_0000 + d[2] * 0x1_0000_0000_0000_0000
        + d[3] * 0x1_0000_0000_0000_0000_0000_0000 + d[4] * 0x1_0000_0000_0000_0000_0000_0000_0000_0000
        + d[5] * 0x1_0000_0000_0000_0000_0000_0000_0000_0000_0000_0000
        + d[6] * 0x1_0000_0000_0000_0000_0000_0000_0000_0000_0000_0000_0000_0000
        + d[7] * 0x1_0000_0000_0000_0000_0000_0000_0000_0000_0000_0000_0000_0000_0000_0000
    ensures Radix(8) == 0x1_0000_0000_0000_0000_0000_0000_0000_0000_0000_0000_0000_0000_0000_0000_0000_0000
  {
    EightTerms(s);
    EightRadixes();
  }

  lemma EightTerms(s: seq<u32>)
    requires |s| == 8
    ensures Value(s) == s[0] * Radix(0) + s[1] * Radix(1) + s[2] * Radix(2) + s[3] * Radix(3)
                      + s[4] * Radix(4) + s[5] * Radix(5) + s[6] * Radix(6) + s[7] * Radix(7)
  {
    FourTerms(s);
    assert s[..8] == s;
    ValueTake(s, 4);
    ValueTake(s, 5);
    ValueTake(s, 6);
    ValueTake(s, 7);
  }

  lemma FourTerms(s: seq<u32>)
    requires |s| >= 4
    ensures Value(s[..4]) == s[0] * Radix(0) + s[1] * Radix(1) + s[2] * Radix(2) + s[3] * Radix(3)
  {
    assert s[..0] == [];
    ValueTake(s, 0);
    ValueTake(s, 1);
    ValueTake(s, 2);
    ValueTake(s, 3);
  }

  lemma EightRadixes()
    ensures Radix(0) == 1 && Radix(1) == 0x1_0000_0000 && Radix(2) == 0x1_0000_0000_0000_0000
    ensures Radix(3) == 0x1_0000_0000_0000_0000_0000_0000 && Radix(4) == 0x1_0000_0000_0000_0000_0000_0000_0000_0000
    ensures Radix(5) == 0x1_0000_0000_0000_0000_0000_0000_0000_0000_0000_0000
    ensures Radix(6) == 0x1_0000_0000_0000_0000_0000_0000_0000_0000_0000_0000_0000_0000
    ensures Radix(7) == 0x1_0000_0000_0000_0000_0000_0000_0000_0000_0000_0000_0000_0000_0000_0000
    ensures Radix(8) == 0x1_0000_0000_0000_0000_0000_0000_0000_0000_0000_0000_0000_0000_0000_0000_0000_0000
  {
    assert Radix(1) == W * Radix(0) && Radix(2) == W * Radix(1);
    assert Radix(3) == W * Radix(2) && Radix(4) == W * Radix(3);
    assert Radix(5) == W * Radix(4) && Radix(6) == W * Radix(5);
    assert Radix(7) == W * Radix(6) && Radix(8) == W * Radix(7);
  }
}
