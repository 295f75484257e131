/** The code points that the escapes of a JSON string stand for, and their bytes. */
module JsonCodePoints {
  import opened Bits
  import opened Characters
  import opened JsonText

  /** The code point of a surrogate pair, section 3.8 of the Unicode standard (D71 to D75). */
  function PairCodePoint(uc: nat, uc2: nat): int {
    0x1_0000 + 0x400 * (uc - 0xD800) + (uc2 - 0xDC00)
  }

  /** A pair is put together with OR instead of addition: right if and only if
      bit 6 of the first half is clear. */
  lemma PairIff(uc: nat, uc2: nat)
    requires IsHighSurrogate(uc) && IsLowSurrogate(uc2)
    ensures PairValue(uc, uc2) == PairCodePoint(uc, uc2) <==> uc / 64 % 2 == 0
    ensures uc / 64 % 2 == 1 ==> PairValue(uc, uc2) == PairCodePoint(uc, uc2) - 0x1_0000
  {
    var h, l := uc - 0xD800, uc2 - 0xDC00;
    Pow2Small();
    AndLowMask(uc, 10);
    AndLowMask(uc2, 10);
    DivModUnique(uc, 0x400, 54, h);
    DivModUnique(uc2, 0x400, 55, l);
    assert And(uc, 0x3FF) == h && And(uc2, 0x3FF) == l;
    // bit 16 of the shifted half is bit 6 of the half
    var low, bit, high := h % 64, h / 64 % 2, h / 128;
    BitSix(uc, h, low, bit, high);
    OrBit16(h, low, bit, high);
    var g := h + 64 * (1 - bit);
    assert Shl(g, 10) == 0x400 * g;
    OrShifted(l, g, 10);
  }

  lemma BitSix(uc: nat, h: nat, low: nat, bit: nat, high: nat)
    requires uc == 0xD800 + h && low == h % 64 && bit == h / 64 % 2 && high == h / 128
    ensures h == low + 64 * bit + 128 * high && uc / 64 % 2 == bit
  {
    assert h / 64 == bit + 2 * high;
    DivModUnique(uc, 64, 864 + bit + 2 * high, low);
    DivModUnique(uc / 64, 2, 432 + high, bit);
  }

  lemma OrBit16(h: nat, low: nat, bit: nat, high: nat)
    requires low < 64 && bit < 2 && h == low + 64 * bit + 128 * high
    ensures Or(0x1_0000, Shl(h, 10)) == Shl(h + 64 * (1 - bit), 10)
  {
    Pow2Small();
    OrShl(64, h, 10);
    var u := bit + 2 * high;
    assert Shl(1, 6) == 64 && Shl(u, 6) == 64 * u && Shl(64, 10) == 0x1_0000;
    OrConcat(1, low, u, 6);
    assert u / 2 == high && u % 2 == bit;
    assert Or(1, u) == 1 + 2 * high;
    assert Shl(1 + 2 * high, 6) == 64 + 128 * high;
  }

  /** The length of a UTF-8 sequence by its first byte, section 3 of RFC 3629. */
  function Utf8Length(c: char): nat {
    if c < 0x80 as char then 1 else if c < 0xE0 as char then 2 else if c < 0xF0 as char then 3 else 4
  }

  /** The bits that are not part of the marks of the bytes. */
  function Utf8CodePoint(s: string): int
    requires s != [] && |s| == Utf8Length(s[0])
  {
    var b := (i: int) requires 0 <= i < |s| => s[i] as int - 0x80;
    if |s| == 1 then s[0] as int
    else if |s| == 2 then (s[0] as int - 0xC0) * 64 + b(1)
    else if |s| == 3 then (s[0] as int - 0xE0) * 4096 + b(1) * 64 + b(2)
    else (s[0] as int - 0xF0) * 262144 + b(1) * 4096 + b(2) * 64 + b(3)
  }

  /** The encoding is well formed and decodes to its code point. */
  lemma Utf8Decodes(uc: nat)
    requires uc < 0x11_0000
    ensures var s := Utf8(uc);
      && s != [] && |s| == Utf8Length(s[0]) && Utf8CodePoint(s) == uc
      && (uc != 0 ==> NulFree(s))
      && forall i :: 0 < i < |s| ==> 0x80 as char <= s[i] < 0xC0 as char
  {
    Regroup(uc);
    Regroup(uc / 64);
    Regroup(uc / 64 / 64);
  }

  lemma Regroup(x: nat)
    ensures x == x / 64 * 64 + x % 64
  {
  }
}
