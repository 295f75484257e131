/** How 3rd/xml writes text into a document and reads it back: EncodeString, GetEntity, GetChar
    and ReadText. A C string is the text up to its terminator, and a char pointer is the text
    that is left to read; a char is a byte. */
module XmlText {
  import opened Bits
  import opened Characters
  import opened Collections
  import opened Modular

  datatype Entity = Entity(str: string, chr: char)

  const ENTITIES: seq<Entity> := [
    Entity("&amp;", '&'), Entity("&lt;", '<'), Entity("&gt;", '>'), Entity("&quot;", '\"'), Entity("&apos;", '\'')]

  // ---------- Writing ----------

  function UpperHex(d: nat): char
    requires d < 16
  {
    if d < 10 then '0' + d as char else 'A' + (d - 10) as char
  }

  /** What stands for a character outside a reference. */
  function EscapeChar(c: char): (r: string)
    ensures r != []
  {
    if c == '&' then ENTITIES[0].str
    else if c == '<' then ENTITIES[1].str
    else if c == '>' then ENTITIES[2].str
    else if c == '\"' then ENTITIES[3].str
    else if c == '\'' then ENTITIES[4].str
    else if c < ' ' then ['&', '#', 'x', UpperHex(c as nat / 16), UpperHex(c as nat % 16), ';']
    else [c]
  }

  predicate StartsReference(s: string) { "&#x" <= s }

  /** Where the writer stops to copy a reference that starts at 0: before the next semicolon,
      or before the last character. */
  function CopyEnd(s: string, i: nat): (k: nat)
    requires i < |s|
    ensures i <= k < |s|
    ensures k == |s| - 1 || (i < k && s[k] == ';')
    ensures forall j :: i < j < k ==> s[j] != ';'
    decreases |s| - i
  {
    if i == |s| - 1 then i else if s[i + 1] == ';' then i + 1 else CopyEnd(s, i + 1)
  }

  function Encoded(s: string): string
    decreases |s|
  {
    if s == [] then []
    else if StartsReference(s) then
      var k := CopyEnd(s, 0); s[..k] + Encoded(s[k..])
    else EscapeChar(s[0]) + Encoded(s[1..])
  }

  /** The length as the writer has it, in an int. */
  function Length(s: string): (n: int)
    ensures n <= |s| && (n == |s| <==> |s| < 0x8000_0000)
  {
    var n := |s| % 0x1_0000_0000;
    if n < 0x8000_0000 then n else n - 0x1_0000_0000
  }

  /** The characters that the writer looks at: all if their number is an int. */
  function Seen(s: string): (r: string)
    ensures r == s <==> |s| < 0x8000_0000
  {
    if Length(s) < 0 then [] else s[..Length(s)]
  }

  /** There is a place where a hexadecimal reference could start. */
  predicate HasReference(s: string) { exists i :: 0 <= i < |s| && StartsReference(s[i..]) }

  // ---------- Reading ----------

  /** GetChar: the bytes given and the text after them; no pointer; or a pointer past the terminator. */
  datatype Char = Char(value: string, rest: string) | NoChar | Overrun

  function DigitValue(c: char, base: nat): (r: Option<nat>)
    ensures r.Some? ==> r.value < 16
  {
    if IsDigit(c) then Some((c - '0') as nat)
    else if base == 16 && IsHex(c) then Some(HexValue(c))
    else None
  }

  /** The number whose digits are read backwards from the end up to the stop character, in 32 bits. */
  function ReadBack(s: string, stop: char, base: nat): (r: Option<u32>)
    requires stop in s
    decreases |s|
  {
    var last := s[|s| - 1];
    if last == stop then Some(0) else
      match (DigitValue(last, base), ReadBack(s[..|s| - 1], stop, base))
      case (Some(d), Some(v)) => Some((base * v + d) % 0x1_0000_0000)
      case _ => None
  }

  function IndexOf(s: string, c: char): (k: nat)
    ensures k <= |s|
    ensures forall i :: 0 <= i < k ==> s[i] != c
    ensures k < |s| ==> s[k] == c
  {
    if s == [] || s[0] == c then 0 else 1 + IndexOf(s[1..], c)
  }

  /** The bytes for a code point; a document that is not UTF-8 gets its low eight bits. */
  function CodePoint(ucs: u32, utf8: bool): string {
    if !utf8 then [(ucs % 256) as char] else if ucs < 0x20_0000 then Utf8(ucs) else []
  }

  /** A reference whose digits follow stop, which is at p[i]. */
  function Reference(p: string, i: nat, stop: char, base: nat, utf8: bool): (r: Char)
    requires i + 1 < |p| && p[i] == stop
    ensures r.Char? ==> |r.rest| < |p|
  {
    var k := i + 1 + IndexOf(p[i + 1..], ';');
    if k == |p| then NoChar else
      assert p[i..k][0] == stop;
      match ReadBack(p[i..k], stop, base)
      case None => NoChar
      case Some(ucs) => Char(CodePoint(ucs, utf8), p[k + 1..])
  }

  /** The first entity of the table, from the i-th, that p starts with. An ampersand that
      starts none is dropped. */
  function MatchEntity(p: string, i: nat): (r: Char)
    requires i <= |ENTITIES| && p != []
    ensures r.Char? && |r.rest| < |p|
    decreases |ENTITIES| - i
  {
    if i == |ENTITIES| then Char([], p[1..])
    else if ENTITIES[i].str <= p then Char([ENTITIES[i].chr], p[|ENTITIES[i].str|..])
    else MatchEntity(p, i + 1)
  }

  function EntityAt(p: string, utf8: bool): (r: Char)
    requires p != []
    ensures r.Char? ==> |r.rest| < |p|
  {
    if |p| > 2 && p[1] == '#' then
      if p[2] != 'x' then Reference(p, 1, '#', 10, utf8)
      else if |p| == 3 then NoChar
      else Reference(p, 2, 'x', 16, utf8)
    else MatchEntity(p, 0)
  }

  /** utf8ByteTable */
  function SequenceLength(c: char): nat {
    if '\U{00C2}' <= c <= '\U{00DF}' then 2
    else if '\U{00E0}' <= c <= '\U{00EF}' then 3
    else if '\U{00F0}' <= c <= '\U{00F4}' then 4
    else 1
  }

  /** Every sequence of bytes that the table expects is there. */
  predicate Whole(s: string)
    decreases |s|
  {
    s != [] ==>
      var length := SequenceLength(s[0]);
      length <= |s| && (forall i :: 1 <= i < length ==> s[i] >= '\U{0080}') && Whole(s[length..])
  }

  function CharAt(p: string, utf8: bool): (r: Char)
    requires p != []
    ensures r.Char? ==> |r.rest| < |p|
  {
    var length := if utf8 then SequenceLength(p[0]) else 1;
    if length == 1 then
      if p[0] == '&' then EntityAt(p, utf8) else Char([p[0]], p[1..])
    else if |p| < length then Overrun
    else Char(p[..length], p[length..])
  }

  /** Where reading stops: with the text from there on, without a pointer, or past the terminator. */
  datatype Stop = At(rest: string) | Null | Beyond

  /** The text read up to the end tag or the end of the document. */
  datatype Text = Text(text: string, stop: Stop)

  function ReadUntil(p: string, endTag: string, utf8: bool): (r: Text)
    ensures r.stop.At? ==> |r.stop.rest| <= |p|
    decreases |p|
  {
    if p == [] || endTag <= p then Text([], At(p)) else
      match CharAt(p, utf8)
      case Char(value, rest) =>
        var after := ReadUntil(rest, endTag, utf8);
        Text(value + after.text, after.stop)
      case NoChar => Text([], Null)
      case Overrun => Text([], Beyond)
  }

  /** The end tag is passed; at the end of the document there is no pointer. */
  function PassEnd(r: Text, endTag: string): Text {
    if r.stop.At? && endTag <= r.stop.rest && r.stop.rest != [] then
      var rest := r.stop.rest[|endTag|..];
      Text(r.text, if rest == [] then Null else At(rest))
    else if r.stop.Beyond? then r
    else Text(r.text, Null)
  }

  /** ReadText where white space is kept. */
  function TextAt(p: string, endTag: string, utf8: bool): Text { PassEnd(ReadUntil(p, endTag, utf8), endTag) }

  // ---------- The methods ----------

  lemma {:induction false} CopyEndShift(s: string, i: nat, j: nat)
    requires i + j < |s|
    ensures CopyEnd(s, i + j) == i + CopyEnd(s[i..], j)
    decreases |s| - j
  {
    if i + j < |s| - 1 && s[i + j + 1] != ';' {
      CopyEndShift(s, i, j + 1);
    }
  }

  method CopyReference(str: string, length: nat, start: nat) returns (copied: string, i: nat)
    requires start < length <= |str|
    ensures var seen := str[..length];
      i == start + CopyEnd(seen[start..], 0) && start <= i < length && copied == seen[start..i]
  {
    ghost var seen := str[..length];
    CopyEndShift(seen, start, 0);
    i, copied := start, [];
    while i < length - 1
      invariant start <= i < length && copied == seen[start..i]
      invariant CopyEnd(seen, i) == CopyEnd(seen, start)
    {
      copied := copied + [str[i]];
      i := i + 1;
      if str[i] == ';' {
        break;
      }
    }
  }

  lemma EncodedReference(str: string, i: nat, k: nat)
    requires i < |str| && StartsReference(str[i..]) && k == i + CopyEnd(str[i..], 0)
    ensures k < |str| && Encoded(str[i..]) == str[i..k] + Encoded(str[k..])
  {
    assert str[i..][..k - i] == str[i..k] && str[i..][k - i..] == str[k..];
  }

  lemma EncodedChar(str: string, i: nat)
    requires i < |str| && !StartsReference(str[i..])
    ensures Encoded(str[i..]) == EscapeChar(str[i]) + Encoded(str[i + 1..])
  {
    assert str[i..][1..] == str[i + 1..];
  }

  lemma StartsAt(str: string, i: nat)
    requires i < |str|
    ensures StartsReference(str[i..])
      <==> str[i] == '&' && i + 2 < |str| && str[i + 1] == '#' && str[i + 2] == 'x'
  {
  }

  method EncodeNext(str: string, length: nat, outString: string, i: nat) returns (out: string, next: nat)
    requires i < length <= |str|
    ensures var seen := str[..length];
      i < next <= length && out + Encoded(seen[next..]) == outString + Encoded(seen[i..])
  {
    ghost var seen := str[..length];
    StartsAt(seen, i);
    if str[i] == '&' && i < length - 2 && str[i + 1] == '#' && str[i + 2] == 'x' {
      var copied, k := CopyReference(str, length, i);
      EncodedReference(seen, i, k);
      Assoc(outString, copied, Encoded(seen[k..]));
      out, next := outString + copied, k;
    } else {
      EncodedChar(seen, i);
      Assoc(outString, EscapeChar(str[i]), Encoded(seen[i + 1..]));
      out, next := outString + EscapeChar(str[i]), i + 1;
    }
  }

  method EncodeString(str: string) returns (outString: string)
    ensures outString == Encoded(Seen(str))
  {
    outString := [];
    var i: nat, length := 0, Length(str);
    while i < length
      invariant length > 0 ==> i <= length && outString + Encoded(str[..length][i..]) == Encoded(Seen(str))
      invariant length <= 0 ==> outString == []
    {
      outString, i := EncodeNext(str, length, outString, i);
    }
  }

  /** The number so far, ucs, and the weight of the next digit, when the digits of rest are left. */
  function WithRest(rest: Option<u32>, ucs: u32, mult: u32): Option<u32> {
    match rest
    case None => None
    case Some(v) => Some((ucs + v * mult) % 0x1_0000_0000)
  }

  lemma ModTerms(m: nat, a: nat, b: nat, v: nat)
    requires m > 0
    ensures (a % m + v * (b % m)) % m == (a + v * b) % m
  {
    ModFactor(m, a % m, v, b);
    ModTerm(m, a, v * b);
  }

  lemma Regroup(ucs: nat, mult: nat, base: nat, v: nat, d: nat)
    ensures ucs + mult * (base * v + d) == (ucs + mult * d) + v * (mult * base)
  {
    MulAssoc(mult, base, v);
  }

  lemma TermSwap(m: nat, a: nat, x: nat, y: nat)
    requires m > 0
    ensures (a + x * y) % m == (a + y * x) % m
  {
    assert x * y == y * x;
  }

  lemma DigitAdded(m: nat, ucs: nat, mult: nat, base: nat, v: nat, d: nat)
    requires m > 0
    ensures (ucs + ((base * v + d) % m) * mult) % m == ((ucs + mult * d) % m + v * ((mult * base) % m)) % m
  {
    TermSwap(m, ucs, (base * v + d) % m, mult);
    ModFactor(m, ucs, mult, base * v + d);
    Regroup(ucs, mult, base, v, d);
    ModTerms(m, ucs + mult * d, mult * base, v);
  }

  lemma AllLeft(rest: Option<u32>)
    ensures WithRest(rest, 0, 1) == rest
  {
    if rest.Some? {
      DivModUnique(rest.value, 0x1_0000_0000, 0, rest.value);
    }
  }

  /** One digit more. */
  lemma DigitBack(s: string, stop: char, base: nat, ucs: u32, mult: u32, d: nat)
    requires |s| > 1 && s[0] == stop && s[|s| - 1] != stop && DigitValue(s[|s| - 1], base) == Some(d)
    ensures s[..|s| - 1][0] == stop
    ensures WithRest(ReadBack(s, stop, base), ucs, mult)
      == WithRest(ReadBack(s[..|s| - 1], stop, base), (ucs + mult * d) % 0x1_0000_0000, (mult * base) % 0x1_0000_0000)
  {
    assert s[..|s| - 1][0] == stop;
    var rest := ReadBack(s[..|s| - 1], stop, base);
    if rest.Some? {
      DigitAdded(0x1_0000_0000, ucs, mult, base, rest.value, d);
    }
  }

  method ReadDigits(s: string, stop: char, base: nat) returns (r: Option<u32>)
    requires s != [] && s[0] == stop
    ensures r == ReadBack(s, stop, base)
  {
    var q, ucs: u32, mult: u32 := |s| - 1, 0, 1;
    assert s[..|s|] == s;
    AllLeft(ReadBack(s, stop, base));
    while s[q] != stop
      invariant 0 <= q < |s| && s[..q + 1][0] == stop
      invariant ReadBack(s, stop, base) == WithRest(ReadBack(s[..q + 1], stop, base), ucs, mult)
      decreases q
    {
      var digit := DigitValue(s[q], base);
      if digit.None? {
        return None;
      }
      DigitBack(s[..q + 1], stop, base, ucs, mult, digit.value);
      assert s[..q + 1][..q] == s[..q];
      ucs, mult := (ucs + mult * digit.value) % 0x1_0000_0000, (mult * base) % 0x1_0000_0000;
      q := q - 1;
    }
    r := Some(ucs);
  }

  /** strchr, and the loop over the digits. */
  method GetReference(p: string, i: nat, stop: char, base: nat, utf8: bool) returns (r: Char)
    requires i + 1 < |p| && p[i] == stop
    ensures r == Reference(p, i, stop, base, utf8)
  {
    var k := i + 1 + IndexOf(p[i + 1..], ';');
    if k == |p| {
      return NoChar;
    }
    var ucs := ReadDigits(p[i..k], stop, base);
    r := if ucs.None? then NoChar else Char(CodePoint(ucs.value, utf8), p[k + 1..]);
  }

  method GetEntity(p: string, utf8: bool) returns (r: Char)
    requires p != []
    ensures r == EntityAt(p, utf8)
  {
    if |p| > 2 && p[1] == '#' {
      if p[2] == 'x' {
        if |p| == 3 {
          return NoChar;
        }
        r := GetReference(p, 2, 'x', 16, utf8);
      } else {
        r := GetReference(p, 1, '#', 10, utf8);
      }
      return;
    }
    var i := 0;
    while i < |ENTITIES|
      invariant i <= |ENTITIES| && MatchEntity(p, 0) == MatchEntity(p, i)
    {
      if ENTITIES[i].str <= p {
        return Char([ENTITIES[i].chr], p[|ENTITIES[i].str|..]);
      }
      i := i + 1;
    }
    r := Char([], p[1..]);
  }

  method GetChar(p: string, utf8: bool) returns (r: Char)
    requires p != []
    ensures r == CharAt(p, utf8)
  {
    var length := if utf8 then SequenceLength(p[0]) else 1;
    if length == 1 {
      if p[0] == '&' {
        r := GetEntity(p, utf8);
      } else {
        r := Char([p[0]], p[1..]);
      }
      return;
    }
    var value, i := [], 0;
    while i < |p| && i < length
      invariant i <= |p| && i <= length && value == p[..i]
    {
      value, i := value + [p[i]], i + 1;
    }
    r := if i < length then Overrun else Char(value, p[length..]);
  }

  method ReadText(start: string, endTag: string, utf8: bool) returns (text: string, stop: Stop)
    ensures Text(text, stop) == TextAt(start, endTag, utf8)
  {
    var p := start;
    text := [];
    ghost var whole := ReadUntil(start, endTag, utf8);
    while p != [] && !(endTag <= p)
      invariant whole == Text(text + ReadUntil(p, endTag, utf8).text, ReadUntil(p, endTag, utf8).stop)
      decreases |p|
    {
      var c := GetChar(p, utf8);
      match c {
        case Char(value, rest) =>
          Assoc(text, value, ReadUntil(rest, endTag, utf8).text);
          text, p := text + value, rest;
        case NoChar =>
          assert text + [] == text;
          return text, Null;
        case Overrun =>
          assert text + [] == text;
          return text, Beyond;
      }
    }
    assert text + [] == text;
    if p == [] {
      return text, Null;
    }
    p := p[|endTag|..];
    stop := if p == [] then Null else At(p);
  }

  // ---------- What is written is read ----------

  /** What ends a text in a document: the next tag, or the quote around an attribute. */
  predicate IsEnd(endTag: string) { endTag == "<" || endTag == "\"" || endTag == "'" }

  lemma HexDigitBack(d: nat)
    requires d < 16
    ensures DigitValue(UpperHex(d), 16) == Some(d) && UpperHex(d) != ';'
  {
  }

  /** The number read so far and one digit more, in 32 bits. */
  function Shifted(read: Option<u32>, digit: Option<nat>, base: nat): Option<u32> {
    if read.Some? && digit.Some? then Some((base * read.value + digit.value) % 0x1_0000_0000) else None
  }

  lemma BackNext(u: string, c: char, stop: char, base: nat)
    requires stop in u && c != stop
    ensures stop in u + [c]
    ensures ReadBack(u + [c], stop, base) == Shifted(ReadBack(u, stop, base), DigitValue(c, base), base)
  {
    var t := u + [c];
    assert t[..|t| - 1] == u;
    assert t[0..|u|] == u && stop in t;
  }

  lemma DigitsNext(u: string, h: char, l: char, x: nat, y: nat)
    requires 'x' in u && h != 'x' && l != 'x' && DigitValue(h, 16) == Some(x) && DigitValue(l, 16) == Some(y)
    requires ReadBack(u, 'x', 16) == Some(0)
    ensures 'x' in u + [h] + [l] && ReadBack(u + [h] + [l], 'x', 16) == Some(16 * x + y)
  {
    BackNext(u, h, 'x', 16);
    BackNext(u + [h], l, 'x', 16);
  }

  lemma ControlDigits(front: string, c: nat)
    requires c < 32
    ensures ReadBack(front + ['x', UpperHex(c / 16), UpperHex(c % 16)], 'x', 16) == Some(c)
  {
    var h, l := UpperHex(c / 16), UpperHex(c % 16);
    HexDigitBack(c / 16);
    HexDigitBack(c % 16);
    var u := front + ['x'];
    assert u[|u| - 1] == 'x' && ReadBack(u, 'x', 16) == Some(0);
    DigitsNext(u, h, l, c / 16, c % 16);
    assert u + [h] + [l] == front + ['x', h, l];
  }

  /** A control character comes back from its reference. */
  lemma ControlRead(c: char, more: string, utf8: bool)
    requires c < ' '
    ensures CharAt(EscapeChar(c) + more, utf8) == Char([c], more)
  {
    var h, l := UpperHex(c as nat / 16), UpperHex(c as nat % 16);
    HexDigitBack(c as nat / 16);
    HexDigitBack(c as nat % 16);
    var p := EscapeChar(c) + more;
    assert p[3..] == [h, l, ';'] + more;
    assert IndexOf(p[3..], ';') == 2 by {
      var t := p[3..];
      assert t[0] != ';' && t[1] != ';' && t[2] == ';';
    }
    assert p[2..5] == [] + ['x', h, l];
    ControlDigits([], c as nat);
    assert p[6..] == more;
  }

  lemma EntityRead(i: nat, more: string, utf8: bool)
    requires i < |ENTITIES|
    ensures CharAt(ENTITIES[i].str + more, utf8) == Char([ENTITIES[i].chr], more)
  {
    var p := ENTITIES[i].str + more;
    assert p[|ENTITIES[i].str|..] == more;
    assert p[0] == '&' && p[1] == ENTITIES[i].str[1] && p[2] == ENTITIES[i].str[2] && p[3] == ENTITIES[i].str[3];
    EntityFound(p, i, 0);
  }

  lemma {:induction false} EntityFound(p: string, i: nat, j: nat)
    requires j <= i < |ENTITIES| && ENTITIES[i].str <= p
    ensures MatchEntity(p, j) == Char([ENTITIES[i].chr], p[|ENTITIES[i].str|..])
    decreases i - j
  {
    if j < i {
      assert p[1] == ENTITIES[i].str[1] && p[2] == ENTITIES[i].str[2];
      EntityFound(p, i, j + 1);
    }
  }

  /** What stands for a character is read as that character. */
  lemma EscapedRead(c: char, more: string, utf8: bool)
    requires utf8 ==> SequenceLength(c) == 1
    ensures CharAt(EscapeChar(c) + more, utf8) == Char([c], more)
  {
    if c < ' ' {
      ControlRead(c, more, utf8);
    } else if c == '&' {
      EntityRead(0, more, utf8);
    } else if c == '<' {
      EntityRead(1, more, utf8);
    } else if c == '>' {
      EntityRead(2, more, utf8);
    } else if c == '\"' {
      EntityRead(3, more, utf8);
    } else if c == '\'' {
      EntityRead(4, more, utf8);
    } else {
      assert ([c] + more)[1..] == more;
    }
  }

  lemma NotEnd(c: char, more: string, endTag: string)
    requires IsEnd(endTag)
    ensures EscapeChar(c) + more != [] && !(endTag <= EscapeChar(c) + more)
  {
    assert (EscapeChar(c) + more)[0] == EscapeChar(c)[0];
  }

  lemma ReadEscaped(c: char, more: string, endTag: string, utf8: bool)
    requires IsEnd(endTag) && (utf8 ==> SequenceLength(c) == 1)
    ensures var after := ReadUntil(more, endTag, utf8);
      ReadUntil(EscapeChar(c) + more, endTag, utf8) == Text([c] + after.text, after.stop)
  {
    NotEnd(c, more, endTag);
    EscapedRead(c, more, utf8);
  }

  lemma HasReferenceNext(s: string)
    requires s != []
    ensures HasReference(s) <==> StartsReference(s) || HasReference(s[1..])
  {
    assert s[0..] == s;
    if HasReference(s[1..]) {
      var i :| 0 <= i < |s[1..]| && StartsReference(s[1..][i..]);
      assert s[1..][i..] == s[i + 1..];
    }
    if HasReference(s) && !StartsReference(s) {
      var i :| 0 <= i < |s| && StartsReference(s[i..]);
      assert s[1..][i - 1..] == s[i..];
    }
  }

  lemma CopiedOnce(c: char, s: string)
    requires c >= '\U{0080}'
    ensures Encoded([c] + s) == [c] + Encoded(s) && (HasReference([c] + s) <==> HasReference(s))
  {
    var cs := [c] + s;
    assert cs[0] == c && cs[1..] == s;
    HasReferenceNext(cs);
  }

  predicate AboveAscii(a: string) { forall i :: 0 <= i < |a| ==> a[i] >= '\U{0080}' }

  lemma AboveNext(a: string, c: char, rest: string)
    requires AboveAscii(a) && a == [c] + rest
    ensures c >= '\U{0080}' && AboveAscii(rest)
  {
    assert a[0] == c;
    forall i | 0 <= i < |rest| ensures rest[i] >= '\U{0080}' {
      assert rest[i] == a[i + 1];
    }
  }

  /** Bytes above 0x7F are written as they are. */
  lemma {:induction false} CopiedBytes(a: string, s: string)
    requires AboveAscii(a)
    ensures Encoded(a + s) == a + Encoded(s) && (HasReference(a + s) <==> HasReference(s))
    decreases |a|
  {
    if a == [] {
      assert a + s == s && a + Encoded(s) == Encoded(s);
    } else {
      var c, rest := a[0], a[1..];
      assert a == [c] + rest;
      AboveNext(a, c, rest);
      CopiedBytes(rest, s);
      CopiedOnce(c, rest + s);
      Assoc([c], rest, s);
      Assoc([c], rest, Encoded(s));
    }
  }

  lemma SequenceRead(a: string, more: string, endTag: string)
    requires a != [] && |a| == SequenceLength(a[0]) && |a| > 1 && IsEnd(endTag)
    ensures var after := ReadUntil(more, endTag, true);
      ReadUntil(a + more, endTag, true) == Text(a + after.text, after.stop)
  {
    assert (a + more)[0] == a[0] && (a + more)[..|a|] == a && (a + more)[|a|..] == more;
  }

  /** The first n bytes of a text are read on their own. */
  ghost predicate FrontIsRead(s: string, n: nat, tail: string, endTag: string, utf8: bool)
    requires n <= |s|
  {
    var after := ReadUntil(Encoded(s[n..]) + tail, endTag, utf8);
    ReadUntil(Encoded(s) + tail, endTag, utf8) == Text(s[..n] + after.text, after.stop)
  }

  lemma FrontByte(s: string, tail: string, endTag: string, utf8: bool)
    requires s != [] && !StartsReference(s) && IsEnd(endTag) && (utf8 ==> SequenceLength(s[0]) == 1)
    ensures FrontIsRead(s, 1, tail, endTag, utf8)
  {
    Assoc(EscapeChar(s[0]), Encoded(s[1..]), tail);
    ReadEscaped(s[0], Encoded(s[1..]) + tail, endTag, utf8);
    assert s[..1] == [s[0]];
  }

  lemma FrontSequence(a: string, s: string, tail: string, endTag: string)
    requires a != [] && |a| == SequenceLength(a[0]) && |a| > 1 && AboveAscii(a) && IsEnd(endTag)
    ensures FrontIsRead(a + s, |a|, tail, endTag, true) && (HasReference(a + s) <==> HasReference(s))
  {
    CopiedBytes(a, s);
    assert (a + s)[..|a|] == a && (a + s)[|a|..] == s;
    Assoc(a, Encoded(s), tail);
    SequenceRead(a, Encoded(s) + tail, endTag);
  }

  /** A byte or a sequence of bytes at the front of a text, where no reference starts. */
  lemma FrontRead(s: string, tail: string, endTag: string, utf8: bool) returns (n: nat)
    requires s != [] && !StartsReference(s) && IsEnd(endTag) && (utf8 ==> Whole(s))
    ensures 0 < n <= |s| && (utf8 ==> Whole(s[n..])) && (HasReference(s) <==> HasReference(s[n..]))
    ensures FrontIsRead(s, n, tail, endTag, utf8)
  {
    n := if utf8 then SequenceLength(s[0]) else 1;
    if n == 1 {
      HasReferenceNext(s);
      FrontByte(s, tail, endTag, utf8);
    } else {
      assert s[..n] + s[n..] == s;
      FrontSequence(s[..n], s[n..], tail, endTag);
    }
  }

  lemma EndStops(tail: string, endTag: string, utf8: bool)
    requires endTag <= tail
    ensures ReadUntil(tail, endTag, utf8) == Text([], At(tail))
  {
  }

  lemma FrontJoins(s: string, n: nat, tail: string, endTag: string, utf8: bool)
    requires n <= |s| && FrontIsRead(s, n, tail, endTag, utf8)
    requires ReadUntil(Encoded(s[n..]) + tail, endTag, utf8) == Text(s[n..], At(tail))
    ensures ReadUntil(Encoded(s) + tail, endTag, utf8) == Text(s, At(tail))
  {
    assert s[..n] + s[n..] == s;
  }

  /** Text with no place where a reference could start comes back. */
  lemma {:induction false} PlainComesBack(s: string, tail: string, endTag: string, utf8: bool)
    requires !HasReference(s) && IsEnd(endTag) && endTag <= tail && (utf8 ==> Whole(s))
    ensures ReadUntil(Encoded(s) + tail, endTag, utf8) == Text(s, At(tail))
    decreases |s|
  {
    if s == [] {
      assert Encoded(s) + tail == tail;
      EndStops(tail, endTag, utf8);
    } else {
      HasReferenceNext(s);
      var n := FrontRead(s, tail, endTag, utf8);
      PlainComesBack(s[n..], tail, endTag, utf8);
      FrontJoins(s, n, tail, endTag, utf8);
    }
  }

  // ---------- A reference in the text ----------

  predicate NoSemicolon(p: string, i: nat, k: nat)
    requires k <= |p|
  {
    forall j :: i <= j < k ==> p[j] != ';'
  }

  /** Where the semicolon of a reference is found. */
  lemma SemicolonAfter(p: string, k: nat)
    requires 3 <= k <= |p| && NoSemicolon(p, 3, k)
    ensures 3 + IndexOf(p[3..], ';') >= k
    ensures k < |p| && p[k] == ';' ==> 3 + IndexOf(p[3..], ';') == k
  {
    var t := p[3..];
    forall j | 0 <= j < k - 3 ensures t[j] != ';' {
      assert t[j] == p[j + 3];
    }
    if k < |p| {
      assert t[k - 3] == p[k];
    }
  }

  lemma ReferenceChar(p: string, utf8: bool)
    requires StartsReference(p) && |p| > 3
    ensures CharAt(p, utf8) == Reference(p, 2, 'x', 16, utf8)
  {
    assert p[0] == '&' && p[1] == '#' && p[2] == 'x';
  }

  lemma NoEndAtReference(p: string, endTag: string)
    requires StartsReference(p) && IsEnd(endTag)
    ensures p != [] && !(endTag <= p)
  {
    assert p[0] == '&';
  }

  /** A reference is read up to the first semicolon after it, if its digits are digits. */
  lemma ReferenceRead(p: string, k: nat, endTag: string, utf8: bool)
    requires StartsReference(p) && IsEnd(endTag) && 3 <= k < |p|
    requires p[k] == ';' && NoSemicolon(p, 3, k)
    ensures 'x' in p[2..k]
    ensures var r, after := ReadUntil(p, endTag, utf8), ReadUntil(p[k + 1..], endTag, utf8);
      var ucs := ReadBack(p[2..k], 'x', 16);
      r == if ucs.None? then Text([], Null) else Text(CodePoint(ucs.value, utf8) + after.text, after.stop)
  {
    SemicolonAfter(p, k);
    ReferenceChar(p, utf8);
    NoEndAtReference(p, endTag);
    assert p[2..k][0] == 'x';
  }

  /** The semicolon may also lie beyond. */
  lemma ReferenceBeyond(p: string, k: nat, endTag: string, utf8: bool)
    requires StartsReference(p) && IsEnd(endTag) && |p| > 3 && 3 <= k <= |p| && NoSemicolon(p, 3, k)
    ensures var r := ReadUntil(p, endTag, utf8);
      && (r.stop.At? ==> |r.stop.rest| < |p| - k)
      && (NoSemicolon(p, 3, |p|) ==> r == Text([], Null))
  {
    SemicolonAfter(p, k);
    if NoSemicolon(p, 3, |p|) {
      SemicolonAfter(p, |p|);
    }
    ReferenceChar(p, utf8);
    NoEndAtReference(p, endTag);
  }

  /** The digits of a reference are more than the bytes of its code point. */
  lemma CodePointShort(p: string, k: nat, utf8: bool)
    requires StartsReference(p) && 3 <= k <= |p| && 'x' in p[2..k]
    ensures var ucs := ReadBack(p[2..k], 'x', 16);
      ucs.Some? ==> |CodePoint(ucs.value, utf8)| <= k
  {
    if k == 3 {
      assert p[2..3] == ['x'] && ReadBack(['x'], 'x', 16) == Some(0);
    }
  }

  lemma EncodedCopy(s: string, k: nat)
    requires StartsReference(s) && k == CopyEnd(s, 0)
    ensures 2 <= k < |s| && Encoded(s) == s[..k] + Encoded(s[k..])
    ensures NoSemicolon(s, 0, k)
  {
    assert s[0] == '&' && s[1] == '#' && s[2] == 'x';
    assert CopyEnd(s, 0) == CopyEnd(s, 1);
  }

  /** A text that starts with a copied reference. */
  lemma CopiedFront(s: string, k: nat, more: string, p: string)
    requires StartsReference(s) && 3 <= k <= |s| && NoSemicolon(s, 0, k) && p == s[..k] + more
    ensures StartsReference(p) && NoSemicolon(p, 3, k) && |p| == k + |more| && p[k..] == more
  {
    assert s[0] == '&' && s[1] == '#' && s[2] == 'x';
    forall j | 3 <= j < k ensures p[j] != ';' {
      assert p[j] == s[j];
    }
  }

  /** A reference that ends in the text has more characters than it gives bytes. */
  lemma ClosedReference(s: string, k: nat, tail: string, endTag: string, utf8: bool)
    requires StartsReference(s) && k == CopyEnd(s, 0) && s[k] == ';' && IsEnd(endTag)
    ensures k >= 3
    ensures var r := ReadUntil(Encoded(s) + tail, endTag, utf8);
      var after := ReadUntil(Encoded(s[k + 1..]) + tail, endTag, utf8);
      r == Text([], Null) || (|r.text| <= k + |after.text| && r.stop == after.stop)
  {
    EncodedCopy(s, k);
    assert s[2] == 'x';
    var more := Encoded(s[k + 1..]) + tail;
    SemicolonNext(s[k..], s[k + 1..], tail);
    Assoc(s[..k], Encoded(s[k..]), tail);
    var p := Encoded(s) + tail;
    CopiedFront(s, k, [';'] + more, p);
    assert p[k..][0] == ';' && p[k..][1..] == more && p[k + 1..] == p[k..][1..];
    ReferenceRead(p, k, endTag, utf8);
    CodePointShort(p, k, utf8);
  }

  lemma SemicolonNext(s: string, rest: string, tail: string)
    requires s == [';'] + rest
    ensures Encoded(s) + tail == [';'] + (Encoded(rest) + tail)
  {
    assert s[0] == ';' && s[1..] == rest;
    Assoc([';'], Encoded(rest), tail);
  }

  lemma LastAlone(s: string)
    requires |s| == 1
    ensures Encoded(s) == EscapeChar(s[0])
  {
    assert s[1..] == [] && Encoded([]) == [];
    assert EscapeChar(s[0]) + [] == EscapeChar(s[0]);
  }

  /** A reference without an end is read beyond the text. */
  lemma OpenReference(s: string, tail: string, endTag: string, utf8: bool)
    requires StartsReference(s) && NoSemicolon(s, 0, |s|) && EscapeChar(s[|s| - 1]) == [s[|s| - 1]]
    requires CopyEnd(s, 0) == |s| - 1 && IsEnd(endTag) && tail != []
    ensures var r := ReadUntil(Encoded(s) + tail, endTag, utf8);
      r.stop != At(tail) && (';' !in tail ==> r == Text([], Null))
  {
    var k := |s| - 1;
    EncodedCopy(s, k);
    LastAlone(s[k..]);
    assert Encoded(s) == s;
    var p := s + tail;
    assert s[..|s|] == s;
    CopiedFront(s, |s|, tail, p);
    if ';' !in tail {
      forall j | |s| <= j < |p| ensures p[j] != ';' {
        assert p[j] == tail[j - |s|];
      }
    }
    ReferenceBeyond(p, |s|, endTag, utf8);
  }

  lemma EscapeEnds(c: char)
    requires EscapeChar(c) != [c]
    ensures var e := EscapeChar(c);
      e[|e| - 1] == ';' && NoSemicolon(e, 0, |e| - 1)
  {
    if c < ' ' {
      HexDigitBack(c as nat / 16);
      HexDigitBack(c as nat % 16);
    }
  }

  /** Digits that end in what stands for a character are the character's, or none. */
  lemma EscapedDigits(front: string, c: char)
    requires EscapeChar(c) != [c] && 'x' in front
    ensures var e := EscapeChar(c);
      var t := front + e[..|e| - 1];
      'x' in t && (ReadBack(t, 'x', 16).None? || ReadBack(t, 'x', 16) == Some(c as nat))
  {
    var e := EscapeChar(c);
    var t := front + e[..|e| - 1];
    assert t[..|front|] == front;
    if c < ' ' {
      ControlDigits(front + ['&', '#'], c as nat);
      assert t == front + ['&', '#'] + ['x', UpperHex(c as nat / 16), UpperHex(c as nat % 16)];
    } else {
      assert t[|t| - 1] == e[|e| - 2];
    }
  }

  /** It may end in what stands for the last character. */
  lemma EscapedReference(s: string, tail: string, endTag: string, utf8: bool)
    requires StartsReference(s) && NoSemicolon(s, 0, |s|) && EscapeChar(s[|s| - 1]) != [s[|s| - 1]]
    requires CopyEnd(s, 0) == |s| - 1 && IsEnd(endTag) && endTag <= tail
    ensures var r := ReadUntil(Encoded(s) + tail, endTag, utf8);
      r == Text([], Null) || |r.text| == 1
  {
    var k := |s| - 1;
    var e := EscapeChar(s[k]);
    EncodedCopy(s, k);
    assert s[2] == 'x';
    LastAlone(s[k..]);
    EscapeEnds(s[k]);
    Assoc(s[..k], e, tail);
    var p := Encoded(s) + tail;
    CopiedFront(s, k, e + tail, p);
    EscapedTail(p, k, e, tail);
    EscapedRest(p, s[k], k, k + |e| - 1, tail, endTag, utf8);
  }

  lemma EscapedSlice(p: string, c: char, k: nat, n: nat)
    requires EscapeChar(c) != [c] && StartsReference(p) && 3 <= k <= n <= |p|
    requires p[k..n] == EscapeChar(c)[..|EscapeChar(c)| - 1]
    ensures 'x' in p[2..n]
    ensures var ucs := ReadBack(p[2..n], 'x', 16);
      ucs.None? || ucs == Some(c as nat)
  {
    assert p[2..k][0] == 'x';
    EscapedDigits(p[2..k], c);
    assert p[2..n] == p[2..k] + p[k..n];
  }

  lemma EscapedRest(p: string, c: char, k: nat, n: nat, tail: string, endTag: string, utf8: bool)
    requires EscapeChar(c) != [c] && StartsReference(p) && IsEnd(endTag) && endTag <= tail
    requires 3 <= k <= n < |p| && p[n] == ';' && NoSemicolon(p, 3, n) && p[n + 1..] == tail
    requires p[k..n] == EscapeChar(c)[..|EscapeChar(c)| - 1]
    ensures var r := ReadUntil(p, endTag, utf8);
      r == Text([], Null) || |r.text| == 1
  {
    EscapedSlice(p, c, k, n);
    SmallCodePoint(c, utf8);
    EndStops(tail, endTag, utf8);
    ReferenceRead(p, n, endTag, utf8);
  }

  lemma SmallCodePoint(c: char, utf8: bool)
    requires EscapeChar(c) != [c]
    ensures c < '\U{0080}' && CodePoint(c as nat, utf8) == [c]
  {
  }

  lemma EscapedTail(p: string, k: nat, e: string, tail: string)
    requires 3 <= k <= |p| && NoSemicolon(p, 3, k) && p[k..] == e + tail
    requires e != [] && e[|e| - 1] == ';' && NoSemicolon(e, 0, |e| - 1)
    ensures var n := k + |e| - 1;
      n < |p| && p[n] == ';' && NoSemicolon(p, 3, n) && p[n + 1..] == tail && p[k..n] == e[..|e| - 1]
  {
    var n := k + |e| - 1;
    assert p[k..n] == p[k..][..|e| - 1] == e[..|e| - 1];
    forall j | k <= j < n ensures p[j] != ';' {
      assert p[j] == p[k..][j - k] == e[j - k];
    }
    assert p[n] == p[k..][|e| - 1];
    assert p[n + 1..] == p[k..][|e|..] == tail;
  }

  /** If reading stops at the end tag, or there is no semicolon beyond it, the text is not longer, and shorter if it had
      a reference. */
  ghost predicate Shrinks(s: string, tail: string, endTag: string, utf8: bool) {
    var r := ReadUntil(Encoded(s) + tail, endTag, utf8);
    r.stop == At(tail) || ';' !in tail ==> |r.text| <= |s| && (HasReference(s) ==> |r.text| < |s|)
  }

  lemma ClosedShrinks(s: string, k: nat, tail: string, endTag: string, utf8: bool)
    requires StartsReference(s) && k == CopyEnd(s, 0) && s[k] == ';' && IsEnd(endTag)
    requires Shrinks(s[k + 1..], tail, endTag, utf8)
    ensures Shrinks(s, tail, endTag, utf8)
  {
    ClosedReference(s, k, tail, endTag, utf8);
    var r, after := ReadUntil(Encoded(s) + tail, endTag, utf8), ReadUntil(Encoded(s[k + 1..]) + tail, endTag, utf8);
    assert r.stop == At(tail) || ';' !in tail ==> |r.text| <= k + |s[k + 1..]|;
  }

  /** Text that starts with a reference comes out shorter, or reading stops elsewhere. */
  lemma ReferenceShrinks(s: string, tail: string, endTag: string, utf8: bool)
    requires StartsReference(s) && IsEnd(endTag) && endTag <= tail
    requires var k := CopyEnd(s, 0); s[k] == ';' ==> Shrinks(s[k + 1..], tail, endTag, utf8)
    ensures Shrinks(s, tail, endTag, utf8)
  {
    var k := CopyEnd(s, 0);
    if s[k] == ';' {
      ClosedShrinks(s, k, tail, endTag, utf8);
    } else {
      UnclosedShrinks(s, k, tail, endTag, utf8);
    }
  }

  lemma UnclosedShrinks(s: string, k: nat, tail: string, endTag: string, utf8: bool)
    requires StartsReference(s) && k == CopyEnd(s, 0) && s[k] != ';' && IsEnd(endTag) && endTag <= tail
    ensures Shrinks(s, tail, endTag, utf8)
  {
    EncodedCopy(s, k);
    if EscapeChar(s[k]) == [s[k]] {
      OpenReference(s, tail, endTag, utf8);
    } else {
      EscapedReference(s, tail, endTag, utf8);
    }
  }

  /** A byte below 0x80 begins a sequence. */
  lemma {:induction false} WholeAfter(s: string, k: nat)
    requires Whole(s) && k < |s| && s[k] < '\U{0080}'
    ensures Whole(s[k + 1..])
    decreases |s|
  {
    var length := SequenceLength(s[0]);
    if k > 0 {
      assert k >= length;
      WholeAfter(s[length..], k - length);
      assert s[length..][k - length + 1..] == s[k + 1..];
    }
  }

  lemma {:induction false} AllShrink(s: string, tail: string, endTag: string, utf8: bool)
    requires IsEnd(endTag) && endTag <= tail && (utf8 ==> Whole(s))
    ensures Shrinks(s, tail, endTag, utf8)
    decreases |s|
  {
    if s == [] {
      assert Encoded(s) + tail == tail;
    } else if StartsReference(s) {
      var k := CopyEnd(s, 0);
      if s[k] == ';' {
        if utf8 {
          WholeAfter(s, k);
        }
        AllShrink(s[k + 1..], tail, endTag, utf8);
      }
      ReferenceShrinks(s, tail, endTag, utf8);
    } else {
      var n := FrontRead(s, tail, endTag, utf8);
      AllShrink(s[n..], tail, endTag, utf8);
    }
  }

  /** Reading what was written gives the text and stops at its end if and only if a hexadecimal
      reference could start nowhere in the text. In UTF-8 this is so for text whose sequences of
      bytes are whole, otherwise for all text. */
  lemma ComesBackIff(s: string, tail: string, endTag: string, utf8: bool)
    requires IsEnd(endTag) && endTag <= tail && (utf8 ==> Whole(s))
    ensures ReadUntil(Encoded(s) + tail, endTag, utf8) == Text(s, At(tail)) <==> !HasReference(s)
    ensures ';' !in tail ==> (ReadUntil(Encoded(s) + tail, endTag, utf8).text == s <==> !HasReference(s))
  {
    if HasReference(s) {
      AllShrink(s, tail, endTag, utf8);
    } else {
      PlainComesBack(s, tail, endTag, utf8);
    }
  }

  lemma PassEndIff(r: Text, s: string, endTag: string, rest: string)
    requires IsEnd(endTag)
    ensures r == Text(s, At(endTag + rest)) ==> PassEnd(r, endTag) == Text(s, if rest == [] then Null else At(rest))
    ensures PassEnd(r, endTag).text == r.text
    ensures rest != [] ==> (PassEnd(r, endTag) == Text(s, At(rest)) <==> r == Text(s, At(endTag + rest)))
  {
    assert (endTag + rest)[|endTag|..] == rest;
    if r.stop.At? && endTag <= r.stop.rest {
      assert r.stop.rest == endTag + r.stop.rest[|endTag|..];
    }
  }

  /** The same for a text as it stands in a document, between its first character and its end tag,
      and the text that follows it; nothing that follows gives no pointer. */
  lemma RoundTrip(s: string, endTag: string, rest: string, utf8: bool)
    requires IsEnd(endTag) && (utf8 ==> Whole(Seen(s)))
    ensures var r := TextAt(Encoded(Seen(s)) + (endTag + rest), endTag, utf8);
      r == Text(s, if rest == [] then Null else At(rest)) <==> !HasReference(s) && |s| < 0x8000_0000
  {
    var seen := Seen(s);
    var r := ReadUntil(Encoded(seen) + (endTag + rest), endTag, utf8);
    if |s| < 0x8000_0000 {
      ComesBackIff(s, endTag + rest, endTag, utf8);
    } else {
      AllShrink(seen, endTag + rest, endTag, utf8);
      SeenShorter(s);
    }
    PassEndIff(r, s, endTag, rest);
  }

  lemma SeenShorter(s: string)
    requires |s| >= 0x8000_0000
    ensures |Seen(s)| < |s|
  {
  }

  /** What is written has no terminator in it. */
  lemma {:induction false} EncodedNulFree(s: string)
    ensures '\0' in Encoded(s) ==> HasReference(s)
    decreases |s|
  {
    if s != [] && !StartsReference(s) {
      HasReferenceNext(s);
      EncodedNulFree(s[1..]);
      assert '\0' !in EscapeChar(s[0]) by {
        if s[0] < ' ' {
          HexDigitBack(s[0] as nat / 16);
          HexDigitBack(s[0] as nat % 16);
        }
      }
    } else if s != [] {
      assert s[0..] == s;
    }
  }
}
