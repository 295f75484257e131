/** The bytes of the records of Pickles, and reads that fail. */
module PickleLayout {
  import opened Bits
  import opened Collections
  import opened Memory
  import opened Pickles

  lemma FourBytes(v: nat, a: byte, b: byte, c: byte, d: byte)
    requires v == Word(a, b, c, d)
    ensures LeBytes(v, 4) == [a, b, c, d]
  {
    var bytes: seq<byte> := [a, b, c, d];
    LeOf4(bytes);
    LeBytesOfLe(bytes);
  }

  lemma TwoBytes(v: nat, a: byte, b: byte)
    requires v == a + 0x100 * b
    ensures LeBytes(v, 2) == [a, b]
  {
    DivModUnique(v, 256, b, a);
    assert LeBytes(b, 1) == [b];
  }

  /** Numbers have the lowest byte first, and a negative one is its complement. */
  lemma IntLayout(i: int, a: byte, b: byte, c: byte, d: byte)
    requires i == (if d < 0x80 then Word(a, b, c, d) else Word(a, b, c, d) - TWO_32)
    ensures Record(Int(i)) == [a, b, c, d]
  {
    DivModUnique(i, TWO_32, if d < 0x80 then 0 else -1, Word(a, b, c, d));
    FourBytes(Word(a, b, c, d), a, b, c, d);
  }

  /** A bool is the number 1 or 0. */
  lemma BoolLayout(b: bool)
    ensures Record(Bool(b)) == [if b then 1 else 0, 0, 0, 0]
  {
    BoolIsInt(b, if b then 1 else 0);
    IntLayout(if b then 1 else 0, if b then 1 else 0, 0, 0, 0);
  }

  lemma BoolIsInt(b: bool, v: int)
    requires v == if b then 1 else 0
    ensures Record(Bool(b)) == Record(Int(v))
  {
  }

  /** Numbers of four and of eight bytes. */
  lemma WordLayout(a: byte, b: byte, c: byte, d: byte)
    ensures Record(Fixed(4, Word(a, b, c, d))) == [a, b, c, d]
  {
    FourBytes(Word(a, b, c, d), a, b, c, d);
    PaddedFour([a, b, c, d]);
  }

  lemma EightBytes(v: nat, low: seq<byte>, high: seq<byte>)
    requires |low| == |high| == 4 && v == Load32(low, 0) + TWO_32 * Load32(high, 0)
    ensures LeBytes(v, 8) == low + high
  {
    var bytes := low + high;
    LeOf4(bytes);
    LeOf4(high);
    assert bytes[4..] == high && high[4..] == [] && Le([]) == 0;
    assert Load32(bytes, 0) == Load32(low, 0);
    LeBytesOfLe(bytes);
  }

  lemma LongLayout(low: seq<byte>, high: seq<byte>)
    requires |low| == |high| == 4
    ensures Record(Fixed(8, Load32(low, 0) + 0x1_0000_0000 * Load32(high, 0))) == low + high
  {
    EightBytes(Load32(low, 0) + 0x1_0000_0000 * Load32(high, 0), low, high);
    PaddedFour(low + high);
  }

  /** Bytes are followed by zeros up to a multiple of four. */
  lemma RawLayout(bytes: seq<byte>)
    ensures Record(Raw(bytes)) == bytes + seq((4 - |bytes| % 4) % 4, _ => 0)
  {
    Align4Zeros(|bytes|);
  }

  /** A number of two bytes is padded to four. */
  lemma ShortLayout(a: byte, b: byte)
    ensures Record(Fixed(2, a + 0x100 * b)) == [a, b, 0, 0]
  {
    TwoBytes(a + 0x100 * b, a, b);
    assert Padded([a, b]) == [a, b] + Zeros(2);
  }

  lemma {:induction false} Align4Zeros(n: nat)
    ensures Align4(n) - n == (4 - n % 4) % 4
  {
    if n > 4 {
      Align4Zeros(n - 4);
    }
  }

  /** A string is its number of characters and the characters, with zeros up to a multiple of four. */
  lemma TextLayout(chars: seq<byte>, a: byte, b: byte, c: byte, d: byte)
    requires |chars| == Word(a, b, c, d) < TWO_32
    ensures Record(Text(chars)) == [a, b, c, d] + chars + seq((4 - |chars| % 4) % 4, _ => 0)
  {
    DivModUnique(|chars|, TWO_32, 0, |chars|);
    FourBytes(|chars|, a, b, c, d);
    Align4Zeros(|chars|);
  }

  /** A wide character has two bytes, the lower first. */
  lemma {:induction false} WideLayout(wchars: seq<u16>, i: nat)
    requires i < |wchars|
    ensures WideBytes(wchars)[2 * i] == wchars[i] % 0x100 && WideBytes(wchars)[2 * i + 1] == wchars[i] / 0x100
  {
    if i == 0 {
      assert LeBytes(wchars[0], 2) == [wchars[0] % 0x100] + LeBytes(wchars[0] / 0x100, 1);
    } else {
      WideLayout(wchars[1..], i - 1);
    }
  }

  // ---------- Reads that fail ----------

  /** The size of a wide string of n characters is no int. */
  predicate TooWide(n: Option<int>) { n.Some? && !(-0x8000_0000 <= 2 * n.value < 0x8000_0000) }

  /** A read that fails goes to the end; only a wide string whose size is no int fails behind its number. */
  lemma FailedRead(kind: Kind, p: seq<byte>, index: nat)
    requires index <= |p| && ReadAs(kind, p, index).0.None?
    ensures var n := ReadInt32(p, index);
      ReadAs(kind, p, index).1 == if kind.WideKind? && TooWide(n.0) then n.1 else |p|
  {
  }

  /** At the end there is nothing to read but empty items. */
  lemma NothingLeft(kind: Kind, p: seq<byte>)
    ensures kind == RawKind(0) || kind == FixedKind(0) || ReadAs(kind, p, |p|) == (None, |p|)
  {
  }

  /** So what fails once fails for good. */
  lemma FailsForGood(kind: Kind, next: Kind, p: seq<byte>, index: nat)
    requires index <= |p| && ReadAs(kind, p, index).0.None? && !(kind.WideKind? && TooWide(ReadInt32(p, index).0))
    ensures next == RawKind(0) || next == FixedKind(0) || ReadAs(next, p, ReadAs(kind, p, index).1) == (None, |p|)
  {
    FailedRead(kind, p, index);
    NothingLeft(next, p);
  }
}
