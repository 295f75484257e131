/** Congruences as remainders, and powers step by step. */
module Residues {
  import opened Bits
  import opened Modular

  /** Congruent numbers differ by a multiple of m. */
  lemma CongruentIff(m: nat, x: int, y: int)
    requires m > 0
    ensures Congruent(m, x, y) <==> (x - y) % m == 0
  {
    if Congruent(m, x, y) {
      var k :| Differ(m, x, y, k);
      DivModUnique(x - y, m, k, 0);
    } else if (x - y) % m == 0 {
      CongruentBy(m, x, y, (x - y) / m);
    }
  }

  lemma PowersAre(x: nat, n: nat)
    ensures Power(x, 0) == 1 && Power(x, n + 1) == x * Power(x, n)
  {
  }
}
