/** What the limbs of 3rd/encrypt/src/p256_ec.c stand for, as numbers. */
module FelemMeaning {
  import opened Bits
  import opened FelemCurve
  import opened FelemField
  import opened Modular
  import opened Residues

  /** What is congruent after division by 2^257 is so before. */
  lemma MontgomeryIff(n: int, v: int)
    ensures Congruent(P, n * R_INVERSE, v) <==> Congruent(P, n, v * Weight(9))
  {
    var w, r := Weight(9), R_INVERSE;
    Inverse();
    CongruentScale(P, w * r, 1, n);
    CongruentScale(P, w * r, 1, v);
    if Congruent(P, n * r, v) {
      CongruentScale(P, n * r, v, w);
      assert n * r * w == w * r * n;
      CongruentSym(P, w * r * n, n);
      CongruentTrans(P, n, n * r * w, v * w);
    }
    if Congruent(P, n, v * w) {
      CongruentScale(P, n, v * w, r);
      assert v * w * r == w * r * v;
      CongruentTrans(P, n * r, v * w * r, v);
    }
  }

  /** Nine limbs of 29 and 28 bits in turn, lowest first, each below twice its size; in Montgomery form their number is
      2^257 times the one they stand for, modulo 2^256 - 2^224 + 2^192 + 2^96 - 1. */
  lemma HoldsIff(x: array<u32>, v: int)
    ensures if x.Length != 9 then !Holds(x, v) else
      var d: seq<int> := x[..];
      var number := d[0] + d[1] * 0x2000_0000 + d[2] * 0x200_0000_0000_0000 + d[3] * 0x40_0000_0000_0000_0000_0000
        + d[4] * 0x4_0000_0000_0000_0000_0000_0000_0000 + d[5] * 0x8000_0000_0000_0000_0000_0000_0000_0000_0000
        + d[6] * 0x800_0000_0000_0000_0000_0000_0000_0000_0000_0000_0000
        + d[7] * 0x100_0000_0000_0000_0000_0000_0000_0000_0000_0000_0000_0000_0000
        + d[8] * 0x10_0000_0000_0000_0000_0000_0000_0000_0000_0000_0000_0000_0000_0000_0000;
      var shifted := v * 0x2_0000_0000_0000_0000_0000_0000_0000_0000_0000_0000_0000_0000_0000_0000_0000_0000;
      var inBounds := forall i :: 0 <= i < 9 ==> d[i] < if i % 2 == 0 then 0x4000_0000 else 0x2000_0000;
      var p := 0xffff_ffff_0000_0001_0000_0000_0000_0000_0000_0000_ffff_ffff_ffff_ffff_ffff_ffff;
      Holds(x, v) <==> inBounds && (number - shifted) % p == 0
  {
    if x.Length == 9 {
      Number9(x[..]);
      Weights();
      MontgomeryIff(Number(x[..]), v);
      CongruentIff(P, Number(x[..]), v * Weight(9));
    }
  }

  lemma IsIff(x: array<u32>, v: int)
    ensures Is(x, v) <==> Holds(x, v) && x[8] < 0x2000_0000
  {
  }
}
