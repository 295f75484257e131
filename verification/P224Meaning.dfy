/** What the limbs of 3rd/encrypt/src/p224_ec.c stand for, as numbers. */
module P224Meaning {
  import opened Bits
  import opened Modular
  import opened P224Curve
  import opened P224Field
  import opened Residues

  /** Eight limbs of 28 bits, lowest first, below 2^29, and their number modulo 2^224 - 2^96 + 1. */
  lemma IsIff(x: array<u32>, v: int)
    ensures if x.Length != 8 then !Is(x, v) else
      var d: seq<int> := x[..];
      var number := d[0] + d[1] * 0x1000_0000 + d[2] * 0x100_0000_0000_0000 + d[3] * 0x10_0000_0000_0000_0000_0000
        + d[4] * 0x1_0000_0000_0000_0000_0000_0000_0000 + d[5] * 0x1000_0000_0000_0000_0000_0000_0000_0000_0000
        + d[6] * 0x100_0000_0000_0000_0000_0000_0000_0000_0000_0000_0000
        + d[7] * 0x10_0000_0000_0000_0000_0000_0000_0000_0000_0000_0000_0000_0000;
      Is(x, v) <==> (forall i :: 0 <= i < 8 ==> d[i] < 0x2000_0000)
                    && (number - v) % 0xffff_ffff_ffff_ffff_ffff_ffff_ffff_ffff_0000_0000_0000_0000_0000_0001 == 0
  {
    if x.Length == 8 {
      Number8(x[..]);
      Weights();
      CongruentIff(P, Number(x[..]), v);
    }
  }

  lemma PowerIff(x: array<u32>, a: nat, e: nat)
    ensures IsPower(x, a, e) <==> Is(x, Power(a, e))
  {
  }

  lemma AtIff(p: Point, u: int, v: int, w: int)
    ensures p.At(u, v, w) <==> p.x != p.y && p.x != p.z && p.y != p.z && Is(p.x, u) && Is(p.y, v) && Is(p.z, w)
  {
  }
}
