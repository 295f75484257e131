/** Text as 3rd/xml writes and reads it, character by character. */
module XmlLayout {
  import opened Bits
  import opened Characters
  import opened Collections
  import opened XmlReferences
  import opened XmlText

  // ---------- Writing ----------

  /** Where no reference starts, a character from U+0020 on is copied, but for five, which have names; and one below it
      is a reference with two digits, in upper case. */
  lemma CharacterWritten(c: char, s: string)
    requires !("&#x" <= [c] + s)
    ensures c >= '\U{0020}' && c !in "&<>\"'" ==> Encoded([c] + s) == [c] + Encoded(s)
    ensures c == '&' ==> Encoded([c] + s) == "&amp;" + Encoded(s)
    ensures c == '<' ==> Encoded([c] + s) == "&lt;" + Encoded(s)
    ensures c == '>' ==> Encoded([c] + s) == "&gt;" + Encoded(s)
    ensures c == '\"' ==> Encoded([c] + s) == "&quot;" + Encoded(s)
    ensures c == '\'' ==> Encoded([c] + s) == "&apos;" + Encoded(s)
    ensures c < '\U{0020}' ==>
      Encoded([c] + s) == ['&', '#', 'x', "01"[c as nat / 16], "0123456789ABCDEF"[c as nat % 16], ';'] + Encoded(s)
  {
    var t := [c] + s;
    assert t[0] == c && t[1..] == s;
    if c < ' ' {
      assert UpperHex(c as nat / 16) == "01"[c as nat / 16];
      assert UpperHex(c as nat % 16) == "0123456789ABCDEF"[c as nat % 16];
    }
  }

  /** Text without such characters is written as it is. */
  lemma {:induction false} UnchangedText(s: string)
    requires forall i :: 0 <= i < |s| ==> s[i] >= '\U{0020}' && s[i] !in "&<>\"'"
    ensures Encoded(s) == s
  {
    if s != [] {
      assert s == [s[0]] + s[1..];
      UnchangedText(s[1..]);
      CharacterWritten(s[0], s[1..]);
    }
  }

  lemma {:induction false} CopyEndsAt(s: string, i: nat, k: nat)
    requires i < k < |s| && (forall j :: i < j < k ==> s[j] != ';') && (s[k] == ';' || k == |s| - 1)
    ensures CopyEnd(s, i) == k
    decreases k - i
  {
    if i + 1 < k {
      CopyEndsAt(s, i + 1, k);
    }
  }

  /** Text that starts like a hexadecimal reference is copied up to the first semicolon, whatever it is. */
  lemma ReferenceCopied(body: string, rest: string)
    requires ';' !in body
    ensures Encoded("&#x" + body + (";" + rest)) == "&#x" + body + (";" + Encoded(rest))
  {
    var s, k := "&#x" + body + (";" + rest), 3 + |body|;
    assert s[0] == '&' && s[1] == '#' && s[2] == 'x' && s[k] == ';';
    forall j | 0 < j < k ensures s[j] != ';' {
      assert j >= 3 ==> s[j] == body[j - 3];
    }
    CopyEndsAt(s, 0, k);
    assert s[..k] == "&#x" + body && s[k..] == [';'] + rest;
    CharacterWritten(';', rest);
  }

  /** Without a semicolon all is copied but the last character, which is written as it is written elsewhere. */
  lemma OpenReferenceCopied(body: string, c: char)
    requires ';' !in body
    ensures Encoded("&#x" + body + [c]) == "&#x" + body + Encoded([c]) && Encoded("&#x") == "&#x"
  {
    var s, k := "&#x" + body + [c], 3 + |body|;
    assert s[0] == '&' && s[1] == '#' && s[2] == 'x';
    forall j | 0 < j < k ensures s[j] != ';' {
      assert j >= 3 ==> s[j] == body[j - 3];
    }
    CopyEndsAt(s, 0, k);
    assert s[..k] == "&#x" + body && s[k..] == [c];
    CopyEndsAt("&#x", 0, 2);
    UnchangedText("x");
    assert "&#x"[..2] == "&#" && "&#x"[2..] == "x" && "&#" + "x" == "&#x";
  }

  /** Of a text of 2^31 characters or more, what is written is that of its first characters, as many as the int says. */
  lemma LengthWraps(s: string, turns: nat, n: int)
    requires |s| == 0x1_0000_0000 * turns + n && -0x8000_0000 <= n < 0x8000_0000
    ensures n < 0 ==> Seen(s) == []
    ensures n >= 0 ==> n <= |s| && Seen(s) == s[..n]
  {
    DivModUnique(|s|, 0x1_0000_0000, if n < 0 then turns - 1 else turns, if n < 0 then n + 0x1_0000_0000 else n);
  }

  // ---------- Reading ----------

  /** Outside UTF-8 every byte but the ampersand is a character. */
  lemma ByteIsRead(c: char, more: string)
    requires c != '&'
    ensures CharAt([c] + more, false) == Char([c], more)
  {
    assert ([c] + more)[0] == c && ([c] + more)[1..] == more;
  }

  /** In UTF-8 the first byte gives the length; a sequence that is cut off takes the reader beyond the terminator. */
  lemma SequenceIsRead(c: char, more: string, n: nat)
    requires c != '&'
    requires n == if c <= '\U{00C1}' || '\U{00F5}' <= c then 1 else if c <= '\U{00DF}' then 2
                  else if c <= '\U{00EF}' then 3 else 4
    ensures CharAt([c] + more, true)
      == if |more| + 1 < n then Overrun else Char([c] + more[..n - 1], more[n - 1..])
  {
    var p := [c] + more;
    assert p[0] == c;
    if n <= |p| {
      assert p[..n] == [c] + more[..n - 1] && p[n..] == more[n - 1..];
    }
  }

  lemma EntityIs(i: nat, name: string, c: char, more: string, utf8: bool)
    requires i < |ENTITIES| && ENTITIES[i] == Entity(name, c)
    ensures CharAt(name + more, utf8) == Char([c], more)
  {
    EntityRead(i, more, utf8);
  }

  lemma EntitiesRead(more: string, utf8: bool)
    ensures CharAt("&amp;" + more, utf8) == Char("&", more) && CharAt("&lt;" + more, utf8) == Char("<", more)
    ensures CharAt("&gt;" + more, utf8) == Char(">", more) && CharAt("&quot;" + more, utf8) == Char("\"", more)
    ensures CharAt("&apos;" + more, utf8) == Char("'", more)
  {
    EntityIs(0, "&amp;", '&', more, utf8);
    EntityIs(1, "&lt;", '<', more, utf8);
    EntityIs(2, "&gt;", '>', more, utf8);
    EntityIs(3, "&quot;", '\"', more, utf8);
    EntityIs(4, "&apos;", '\'', more, utf8);
  }

  lemma NotNamed(name: string, rest: string, more: string)
    requires name == ['&'] + rest && !(rest <= more)
    ensures !(name <= ['&'] + more)
  {
    assert name[1..] == rest && (['&'] + more)[1..] == more;
  }

  /** An ampersand that starts nothing is dropped. */
  lemma StrayDropped(more: string, utf8: bool)
    requires !(|more| > 1 && more[0] == '#')
    requires !("amp;" <= more || "lt;" <= more || "gt;" <= more || "quot;" <= more || "apos;" <= more)
    ensures CharAt(['&'] + more, utf8) == Char([], more)
  {
    var p := ['&'] + more;
    assert p[1..] == more && (|more| > 1 ==> p[1] == more[0]);
    NotNamed("&amp;", "amp;", more);
    NotNamed("&lt;", "lt;", more);
    NotNamed("&gt;", "gt;", more);
    NotNamed("&quot;", "quot;", more);
    NotNamed("&apos;", "apos;", more);
    assert MatchEntity(p, 5) == Char([], more);
    assert MatchEntity(p, 4) == Char([], more);
    assert MatchEntity(p, 3) == Char([], more);
    assert MatchEntity(p, 2) == Char([], more);
    assert MatchEntity(p, 1) == Char([], more);
  }

  /** A reference without a semicolon, or without a character behind its x, is no character, and reading ends. */
  lemma OpenReferenceRead(s: string, utf8: bool)
    requires ';' !in s && s != []
    ensures CharAt("&#" + s, utf8) == NoChar
  {
    var p := "&#" + s;
    assert p[0] == '&' && p[1] == '#' && p[2] == s[0] && p[2..] == s && p[3..] == s[1..];
    if s[0] == 'x' {
      assert ';' !in s[1..];
    }
  }

  lemma {:induction false} LastStop(s: string, stop: char, t: string)
    requires stop !in t
    ensures AfterLast(s + [stop] + t, stop) == t
  {
    var u := s + [stop] + t;
    if t != [] {
      assert u[|u| - 1] == t[|t| - 1] && u[..|u| - 1] == s + [stop] + t[..|t| - 1];
      LastStop(s, stop, t[..|t| - 1]);
    } else {
      assert u[|u| - 1] == stop;
    }
  }

  lemma NotAllDigits(s: string, i: nat, base: nat)
    requires i < |s| && DigitValue(s[i], base).None?
    ensures AsRead(s, base) == None
  {
  }

  /** So is a reference with anything but decimal digits behind its last number sign. */
  lemma BadDecimal(s: string, i: nat, more: string, utf8: bool)
    requires i < |s| && s[i] !in "0123456789" && ';' !in s && '#' !in s && s[0] != 'x'
    ensures CharAt("&#" + (s + ([';'] + more)), utf8) == NoChar
  {
    NotDecimal(s[i]);
    AfterNone(s, '#');
    NotAllDigits(s, i, 10);
    DecimalReference(s, more, utf8);
  }

  lemma NotDecimal(c: char)
    requires c !in "0123456789"
    ensures DigitValue(c, 10) == None
  {
  }

  /** Or with anything but hexadecimal ones behind its last x. */
  lemma BadHex(s: string, i: nat, more: string, utf8: bool)
    requires i < |s| && s[i] !in "0123456789abcdefABCDEF" && ';' !in s && 'x' !in s
    ensures CharAt("&#x" + (s + ([';'] + more)), utf8) == NoChar
  {
    NotHex(s[i]);
    AfterNone(s, 'x');
    NotAllDigits(s, i, 16);
    HexReference(s, more, utf8);
  }

  lemma NotHex(c: char)
    requires c !in "0123456789abcdefABCDEF"
    ensures DigitValue(c, 16) == None
  {
  }

  /** What stands before the last number sign, or the last x, makes no difference. */
  lemma FrontIgnored(s: string, t: string, more: string, utf8: bool)
    requires ';' !in s && ';' !in t
    ensures '#' !in t && (s != [] ==> s[0] != 'x') && (t != [] ==> t[0] != 'x') ==>
      CharAt("&#" + ((s + ['#'] + t) + ([';'] + more)), utf8) == CharAt("&#" + (t + ([';'] + more)), utf8)
    ensures 'x' !in t ==>
      CharAt("&#x" + ((s + ['x'] + t) + ([';'] + more)), utf8) == CharAt("&#x" + (t + ([';'] + more)), utf8)
  {
    if '#' !in t && (s != [] ==> s[0] != 'x') && (t != [] ==> t[0] != 'x') {
      var u := s + ['#'] + t;
      assert u[0] == if s == [] then '#' else s[0];
      LastStop(s, '#', t);
      AfterNone(t, '#');
      DecimalReference(u, more, utf8);
      DecimalReference(t, more, utf8);
    }
    if 'x' !in t {
      LastStop(s, 'x', t);
      AfterNone(t, 'x');
      HexReference(s + ['x'] + t, more, utf8);
      HexReference(t, more, utf8);
    }
  }

  /** A reference without digits is the number 0. */
  lemma NoDigits(more: string)
    ensures CharAt("&#" + ([';'] + more), false) == Char("\0", more)
    ensures CharAt("&#x" + ([';'] + more), false) == Char("\0", more)
  {
    assert [] + ([';'] + more) == [';'] + more;
    assert AllDigits([], 10) && AllDigits([], 16) && NumberOf([], 10) == 0 && NumberOf([], 16) == 0;
    DecimalReference([], more, false);
    HexReference([], more, false);
  }

  /** The digits of HexText and Decimal. */
  lemma HexTextDigits(n: nat, d: nat)
    requires d < 16
    ensures HexText(16 * n + d, true) == (if n == 0 then [] else HexText(n, true)) + ["0123456789ABCDEF"[d]]
    ensures HexText(16 * n + d, false) == (if n == 0 then [] else HexText(n, false)) + ["0123456789abcdef"[d]]
  {
    DivModUnique(16 * n + d, 16, n, d);
    assert UpperHex(d) == "0123456789ABCDEF"[d] && HexDigit(d) == "0123456789abcdef"[d];
  }

  lemma DecimalDigits(n: nat, d: nat)
    requires d < 10
    ensures Decimal(10 * n + d) == (if n == 0 then [] else Decimal(n)) + ["0123456789"[d]]
  {
    DivModUnique(10 * n + d, 10, n, d);
    assert Digit(d) == "0123456789"[d];
  }

  // ---------- Where reading stops ----------

  lemma OneRead(c: char, more: string, endTag: string)
    requires IsEnd(endTag) && c != '&' && c != endTag[0]
    ensures ReadUntil([c] + more, endTag, false)
      == Text([c] + ReadUntil(more, endTag, false).text, ReadUntil(more, endTag, false).stop)
  {
    ByteIsRead(c, more);
    assert ([c] + more)[0] == c;
  }

  lemma {:induction false} PlainFront(s: string, p: string, endTag: string)
    requires IsEnd(endTag) && '&' !in s && endTag[0] !in s
    ensures var after := ReadUntil(p, endTag, false);
      ReadUntil(s + p, endTag, false) == Text(s + after.text, after.stop)
  {
    if s == [] {
      assert s + p == p;
    } else {
      PlainFront(s[1..], p, endTag);
      OneRead(s[0], s[1..] + p, endTag);
      Assoc([s[0]], s[1..], p);
      Assoc([s[0]], s[1..], ReadUntil(p, endTag, false).text);
      assert [s[0]] + s[1..] == s;
    }
  }

  /** Plain text is read up to the end tag, or up to the end of the document, where there is no pointer. */
  lemma PlainRead(s: string, endTag: string, rest: string)
    requires IsEnd(endTag) && '&' !in s && endTag[0] !in s
    ensures TextAt(s + (endTag + rest), endTag, false) == Text(s, if rest == [] then Null else At(rest))
    ensures TextAt(s, endTag, false) == Text(s, Null)
  {
    PlainFront(s, endTag + rest, endTag);
    PlainFront(s, [], endTag);
    assert s + [] == s;
    PassEndIff(Text(s, At(endTag + rest)), s, endTag, rest);
  }

  /** Where there is no character, reading ends with the text before it, and without a pointer. */
  lemma ReadingEnds(s: string, p: string, endTag: string)
    requires IsEnd(endTag) && '&' !in s && endTag[0] !in s && p != [] && p[0] == '&' && CharAt(p, false) == NoChar
    ensures TextAt(s + p, endTag, false) == Text(s, Null)
  {
    PlainFront(s, p, endTag);
    assert s + [] == s;
  }

  /** A sequence that is cut off. */
  lemma CutOff(p: string, endTag: string)
    requires IsEnd(endTag) && p != [] && p[0] != endTag[0] && CharAt(p, true) == Overrun
    ensures TextAt(p, endTag, true) == Text([], Beyond)
  {
  }
}
