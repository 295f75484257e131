/** Character references as XML 1.0, section 4.1, has them, read by GetEntity of 3rd/xml. */
module XmlReferences {
  import opened Bits
  import opened Characters
  import opened Collections
  import opened Modular
  import opened XmlText

  predicate AllDigits(s: string, base: nat) { forall i :: 0 <= i < |s| ==> DigitValue(s[i], base).Some? }

  /** The number that digits stand for, the most significant first. */
  function NumberOf(s: string, base: nat): nat
    requires AllDigits(s, base)
  {
    if s == [] then 0 else base * NumberOf(s[..|s| - 1], base) + DigitValue(s[|s| - 1], base).value
  }

  /** The part behind the last stop character. */
  function AfterLast(s: string, stop: char): string {
    if s == [] || s[|s| - 1] == stop then [] else AfterLast(s[..|s| - 1], stop) + [s[|s| - 1]]
  }

  lemma {:induction false} AfterNone(s: string, stop: char)
    requires stop !in s
    ensures AfterLast(s, stop) == s
  {
    if s != [] {
      AfterNone(s[..|s| - 1], stop);
    }
  }

  lemma StopIn(s: string, stop: char)
    ensures stop in [stop] + s
  {
    assert ([stop] + s)[0] == stop;
  }

  function AsRead(digits: string, base: nat): Option<u32> {
    if AllDigits(digits, base) then Some(NumberOf(digits, base) % 0x1_0000_0000) else None
  }

  lemma AsReadNext(before: string, last: char, base: nat)
    ensures AsRead(before + [last], base) == Shifted(AsRead(before, base), DigitValue(last, base), base)
  {
    if AllDigits(before + [last], base) {
      NumberNext(before, last, base);
      ModFactor(0x1_0000_0000, DigitValue(last, base).value, base, NumberOf(before, base));
    }
  }

  /** Digits behind the last stop character are read as their number, in 32 bits, and anything else as nothing. */
  lemma {:induction false} BackIs(s: string, stop: char, base: nat)
    ensures stop in [stop] + s && ReadBack([stop] + s, stop, base) == AsRead(AfterLast(s, stop), base)
  {
    StopIn(s, stop);
    if s == [] {
      assert [stop] + s == [stop];
    } else if s[|s| - 1] == stop {
      assert ([stop] + s)[|s|] == stop;
    } else {
      var before, last := s[..|s| - 1], s[|s| - 1];
      BackIs(before, stop, base);
      BackNext([stop] + before, last, stop, base);
      AsReadNext(AfterLast(before, stop), last, base);
      assert [stop] + s == ([stop] + before) + [last];
    }
  }

  lemma NumberNext(before: string, last: char, base: nat)
    requires AllDigits(before + [last], base)
    ensures AllDigits(before, base) && DigitValue(last, base).Some?
    ensures NumberOf(before + [last], base) == base * NumberOf(before, base) + DigitValue(last, base).value
  {
    var s := before + [last];
    assert s[..|s| - 1] == before && s[|s| - 1] == last;
    forall i | 0 <= i < |before| ensures DigitValue(before[i], base).Some? {
      assert before[i] == s[i];
    }
  }

  lemma SemicolonAt(s: string, more: string)
    requires ';' !in s
    ensures IndexOf(s + ([';'] + more), ';') == |s|
  {
    var p := s + ([';'] + more);
    assert p[|s|] == ';';
    forall i | 0 <= i < |s| ensures p[i] != ';' {
      assert p[i] == s[i] && s[i] in s;
    }
  }

  /** What a reference gives when its digits are read to a base. */
  function ReadAs(digits: string, base: nat, more: string, utf8: bool): Char {
    match AsRead(digits, base)
    case None => NoChar
    case Some(ucs) => Char(CodePoint(ucs, utf8), more)
  }

  lemma ReferenceParts(front: string, s: string, more: string, stop: char)
    requires front != [] && front[|front| - 1] == stop && ';' !in s
    ensures var p, i := front + (s + ([';'] + more)), |front| - 1;
      var k := i + 1 + IndexOf(p[i + 1..], ';');
      k == i + 1 + |s| < |p| && p[i..k] == [stop] + s && p[k + 1..] == more
  {
    var p, i := front + (s + ([';'] + more)), |front| - 1;
    assert p[i + 1..] == s + ([';'] + more);
    SemicolonAt(s, more);
    var k := i + 1 + |s|;
    assert p[i..k] == [stop] + s && p[k + 1..] == more;
  }

  /** A reference: what stands before its digits ends in the stop character. */
  lemma ReferenceIs(front: string, s: string, more: string, stop: char, base: nat, utf8: bool)
    requires front != [] && front[|front| - 1] == stop && ';' !in s
    ensures Reference(front + (s + ([';'] + more)), |front| - 1, stop, base, utf8)
      == ReadAs(AfterLast(s, stop), base, more, utf8)
  {
    ReferenceParts(front, s, more, stop);
    BackIs(s, stop, base);
  }

  /** &#...; : the decimal number behind the last number sign, modulo 2^32, or no character if there is
      anything but digits. */
  lemma DecimalReference(s: string, more: string, utf8: bool)
    requires ';' !in s && (s != [] ==> s[0] != 'x')
    ensures CharAt("&#" + (s + ([';'] + more)), utf8) == ReadAs(AfterLast(s, '#'), 10, more, utf8)
  {
    var p := "&#" + (s + ([';'] + more));
    assert p[0] == '&' && p[1] == '#' && p[2] == if s == [] then ';' else s[0];
    ReferenceIs("&#", s, more, '#', 10, utf8);
  }

  /** &#x...; : the same for the hexadecimal number behind the last x. */
  lemma HexReference(s: string, more: string, utf8: bool)
    requires ';' !in s
    ensures CharAt("&#x" + (s + ([';'] + more)), utf8) == ReadAs(AfterLast(s, 'x'), 16, more, utf8)
  {
    var p := "&#x" + (s + ([';'] + more));
    ReferenceChar(p, utf8);
    ReferenceIs("&#x", s, more, 'x', 16, utf8);
  }

  // ---------- Numbers ----------

  function HexText(n: nat, upper: bool): string {
    var digit := if upper then UpperHex(n % 16) else HexDigit(n % 16);
    if n < 16 then [digit] else HexText(n / 16, upper) + [digit]
  }

  function Zeros(k: nat): string { seq(k, _ => '0') }

  lemma {:induction false} ZerosNumber(k: nat, base: nat)
    ensures AllDigits(Zeros(k), base) && NumberOf(Zeros(k), base) == 0
  {
    if k > 0 {
      ZerosNumber(k - 1, base);
      assert Zeros(k) == Zeros(k - 1) + ['0'];
      NumberNext(Zeros(k - 1), '0', base);
    }
  }

  /** One digit more. */
  lemma Appended(before: string, c: char, base: nat, v: nat, d: nat)
    requires AllDigits(before, base) && NumberOf(before, base) == v && DigitValue(c, base) == Some(d)
    ensures AllDigits(before + [c], base) && NumberOf(before + [c], base) == base * v + d
  {
    NumberNext(before, c, base);
  }

  /** Decimal digits with leading zeros stand for their number. */
  lemma {:induction false} DecimalNumber(n: nat, k: nat)
    ensures var s := Zeros(k) + Decimal(n); AllDigits(s, 10) && NumberOf(s, 10) == n
  {
    if n < 10 {
      ZerosNumber(k, 10);
      Appended(Zeros(k), Digit(n), 10, 0, n);
    } else {
      DecimalNumber(n / 10, k);
      Appended(Zeros(k) + Decimal(n / 10), Digit(n % 10), 10, n / 10, n % 10);
      Assoc(Zeros(k), Decimal(n / 10), [Digit(n % 10)]);
    }
  }

  /** So do hexadecimal digits, in upper or lower case. */
  lemma {:induction false} HexNumber(n: nat, k: nat, upper: bool)
    ensures var s := Zeros(k) + HexText(n, upper); AllDigits(s, 16) && NumberOf(s, 16) == n
  {
    var digit := if upper then UpperHex(n % 16) else HexDigit(n % 16);
    HexDigitBack(n % 16);
    if n < 16 {
      ZerosNumber(k, 16);
      Appended(Zeros(k), digit, 16, 0, n);
    } else {
      HexNumber(n / 16, k, upper);
      Appended(Zeros(k) + HexText(n / 16, upper), digit, 16, n / 16, n % 16);
      Assoc(Zeros(k), HexText(n / 16, upper), [digit]);
    }
  }

  /** A reference to a code point in 32 bits gives that code point, whatever follows: in decimal and in
      hexadecimal, in either case, and with any number of leading zeros. */
  lemma CodePointRead(n: u32, k: nat, upper: bool, more: string, utf8: bool)
    ensures CharAt("&#" + (Zeros(k) + Decimal(n) + ([';'] + more)), utf8) == Char(CodePoint(n, utf8), more)
    ensures CharAt("&#x" + (Zeros(k) + HexText(n, upper) + ([';'] + more)), utf8) == Char(CodePoint(n, utf8), more)
  {
    DivModUnique(n, 0x1_0000_0000, 0, n);
    var decimal, hexadecimal := Zeros(k) + Decimal(n), Zeros(k) + HexText(n, upper);
    DecimalNumber(n, k);
    DigitsPlain(decimal, 10);
    AfterNone(decimal, '#');
    DecimalReference(decimal, more, utf8);
    HexNumber(n, k, upper);
    DigitsPlain(hexadecimal, 16);
    AfterNone(hexadecimal, 'x');
    HexReference(hexadecimal, more, utf8);
  }

  /** Outside UTF-8 a reference is one byte, the low one of its number; in UTF-8 it is the sequence of its code point,
      up to 21 bits. */
  lemma ByteRead(byte: nat, high: nat, k: nat, upper: bool, more: string)
    requires byte < 256 && high < 0x100_0000
    ensures var n := byte + 256 * high; var one := Char([byte as char], more);
      && CharAt("&#" + (Zeros(k) + Decimal(n) + ([';'] + more)), false) == one
      && CharAt("&#x" + (Zeros(k) + HexText(n, upper) + ([';'] + more)), false) == one
    ensures var n := byte + 256 * high; var sequence := Char(if n < 0x20_0000 then Utf8(n) else [], more);
      && CharAt("&#" + (Zeros(k) + Decimal(n) + ([';'] + more)), true) == sequence
      && CharAt("&#x" + (Zeros(k) + HexText(n, upper) + ([';'] + more)), true) == sequence
  {
    var n := byte + 256 * high;
    DivModUnique(n, 256, high, byte);
    CodePointRead(n, k, upper, more, false);
    CodePointRead(n, k, upper, more, true);
  }

  lemma DigitsPlain(s: string, base: nat)
    requires AllDigits(s, base)
    ensures ';' !in s && '#' !in s && 'x' !in s
  {
  }

  /** The five predefined entities of XML 1.0, section 4.6. */
  lemma SpecialsWritten()
    ensures EscapeChar('&') == "&amp;" && EscapeChar('<') == "&lt;" && EscapeChar('>') == "&gt;"
    ensures EscapeChar('\"') == "&quot;" && EscapeChar('\'') == "&apos;"
  {
  }

  /** A control character is written as its number in two hexadecimal digits. */
  lemma ControlsWritten(c: char)
    requires c < ' '
    ensures var s := EscapeChar(c);
      && |s| == 6 && s[..3] == "&#x" && s[5] == ';' && IsHex(s[3]) && IsHex(s[4])
      && 16 * HexValue(s[3]) + HexValue(s[4]) == c as nat
  {
    var d, e := UpperHex(c as nat / 16), UpperHex(c as nat % 16);
    assert EscapeChar(c) == "&#x" + [d, e, ';'];
  }

  /** The byte table gives every well-formed sequence of UTF-8 its length. */
  lemma SequenceOfCodePoint(uc: nat)
    requires uc < 0x11_0000
    ensures SequenceLength(Utf8(uc)[0]) == |Utf8(uc)|
  {
    if 0x80 <= uc < 0x800 {
      assert 2 <= uc / 64 < 32;
    } else if 0x800 <= uc < 0x1_0000 {
      assert uc / 64 / 64 < 16;
    } else if 0x1_0000 <= uc {
      assert uc / 64 < 0x4400 && uc / 64 / 64 < 0x110 && uc / 64 / 64 / 64 <= 4;
    }
  }
}
