/** Little-endian words in byte buffers. */
module Memory {
  import opened Bits

  function Word(b0: nat, b1: nat, b2: nat, b3: nat): nat {
    b0 + 0x100 * b1 + 0x1_0000 * b2 + 0x100_0000 * b3
  }

  /** Little-endian load of four bytes. */
  function Load32(b: seq<byte>, i: nat): u32
    requires i + 4 <= |b|
  {
    Word(b[i], b[i + 1], b[i + 2], b[i + 3])
  }

  /** Byte j of a word, the least significant being byte 0. */
  function WordByte(v: nat, j: nat): byte {
    if j == 0 then v % 256 else WordByte(v / 256, j - 1)
  }

  lemma WordOfBytes(v: u32)
    ensures Word(WordByte(v, 0), WordByte(v, 1), WordByte(v, 2), WordByte(v, 3)) == v
    ensures WordByte(v, 1) == v / 256 % 256 && WordByte(v, 2) == v / 256 / 256 % 256
    ensures WordByte(v, 3) == v / 256 / 256 / 256 % 256
  {
    assert WordByte(v, 1) == WordByte(v / 256, 0);
    assert WordByte(v, 2) == WordByte(v / 256, 1) == WordByte(v / 256 / 256, 0);
    assert WordByte(v, 3) == WordByte(v / 256, 2) == WordByte(v / 256 / 256, 1) == WordByte(v / 256 / 256 / 256, 0);
  }

  lemma BytesOfWord(b0: byte, b1: byte, b2: byte, b3: byte)
    ensures var v := Word(b0, b1, b2, b3);
      WordByte(v, 0) == b0 && WordByte(v, 1) == b1 && WordByte(v, 2) == b2 && WordByte(v, 3) == b3
  {
    var v := Word(b0, b1, b2, b3);
    DivModUnique(v, 256, b1 + 0x100 * b2 + 0x1_0000 * b3, b0);
    DivModUnique(v / 256, 256, b2 + 0x100 * b3, b1);
    DivModUnique(v / 256 / 256, 256, b3, b2);
    WordOfBytes(v);
  }

  /** Little-endian store of four bytes. */
  method Store32(a: array<byte>, i: nat, v: u32)
    requires i + 4 <= a.Length
    modifies a
    ensures forall j :: 0 <= j < a.Length ==> a[j] == if i <= j < i + 4 then WordByte(v, j - i) else old(a[j])
    ensures Word(a[i], a[i + 1], a[i + 2], a[i + 3]) == v
  {
    WordOfBytes(v);
    a[i] := v % 256;
    a[i + 1] := v / 256 % 256;
    a[i + 2] := v / 256 / 256 % 256;
    a[i + 3] := v / 256 / 256 / 256 % 256;
  }

  /** The number a little-endian byte string stands for. */
  function Le(b: seq<byte>): nat {
    if b == [] then 0 else b[0] + 256 * Le(b[1..])
  }

  /** The n low bytes of v, least significant first. */
  function LeBytes(v: nat, n: nat): (r: seq<byte>)
    ensures |r| == n
  {
    if n == 0 then [] else [v % 256] + LeBytes(v / 256, n - 1)
  }

  lemma LeOf4(b: seq<byte>)
    requires |b| >= 4
    ensures Le(b) == Load32(b, 0) + 0x1_0000_0000 * Le(b[4..])
  {
    assert b[1..][1..] == b[2..] && b[2..][1..] == b[3..] && b[3..][1..] == b[4..];
    assert Le(b[3..]) == b[3] + 256 * Le(b[4..]);
    assert Le(b[2..]) == b[2] + 256 * Le(b[3..]);
    assert Le(b[1..]) == b[1] + 256 * Le(b[2..]);
  }

  lemma {:induction false} LeBytesOfLe(b: seq<byte>)
    ensures LeBytes(Le(b), |b|) == b
  {
    if b != [] {
      DivModUnique(Le(b), 256, Le(b[1..]), b[0]);
      LeBytesOfLe(b[1..]);
      assert [b[0]] + b[1..] == b;
    }
  }

  lemma {:induction false} LeOfLeBytes(v: nat, n: nat)
    requires v < Pow2(8 * n)
    ensures Le(LeBytes(v, n)) == v
  {
    if n > 0 {
      Pow2Add(8, 8 * (n - 1));
      assert Pow2(8) == 256;
      DivBelow(v, 256, Pow2(8 * (n - 1)));
      LeOfLeBytes(v / 256, n - 1);
      assert LeBytes(v, n)[1..] == LeBytes(v / 256, n - 1);
    }
  }

  lemma DivBelow(v: nat, m: nat, q: nat)
    requires m > 0 && v < m * q
    ensures v / m < q
  {
    DivModBounds(v, m);
    if v / m >= q {
      MulLe(q, v / m, m);
    }
  }
}
