/** What the JSON parser makes of texts, character by character. */
module JsonReading {
  import opened Bits
  import opened Characters
  import opened Collections
  import opened JsonBuffers
  import opened JsonCodePoints
  import opened JsonEscapes
  import opened JsonNumbers
  import opened JsonRoundTrip
  import opened JsonScan
  import opened JsonStrings
  import opened JsonText

  // ---------- White space ----------

  /** Characters up to U+0020 are skipped, but for the terminator. */
  predicate Skipped(b: string) { forall i :: 0 <= i < |b| ==> '\0' < b[i] <= '\U{0020}' }

  lemma {:induction false} BlanksSkipped(b: string, s: string)
    requires Skipped(b)
    ensures Skip(b + s) == Skip(s)
  {
    if b == [] {
      assert b + s == s;
    } else {
      BlanksSkipped(b[1..], s);
      assert (b + s)[0] == b[0] && (b + s)[1..] == b[1..] + s;
    }
  }

  lemma SkipBefore(b: string, s: string)
    requires Skipped(b) && (s == [] || s[0] == '\0' || s[0] > '\U{0020}')
    ensures Skip(b + s) == s && Skip(s) == s
  {
    BlanksSkipped(b, s);
  }

  /** In front of a text they make no difference. */
  lemma BlanksInFront(b: string, s: string)
    requires Skipped(b)
    ensures Parse(b + s) == Parse(s)
  {
    BlanksSkipped(b, s);
  }

  // ---------- Values ----------

  lemma WordsRead(rest: string)
    ensures ParseValue("null" + rest) == Ok(Null, rest)
    ensures ParseValue("false" + rest) == Ok(False, rest)
    ensures ParseValue("true" + rest) == Ok(True, rest)
  {
    assert "null" <= "null" + rest && ("null" + rest)[4..] == rest;
    assert ("false" + rest)[0] == 'f' && "false" <= "false" + rest && ("false" + rest)[5..] == rest;
    assert ("true" + rest)[0] == 't' && "true" <= "true" + rest && ("true" + rest)[4..] == rest;
  }

  lemma NoStart(c: char)
    requires c !in "\"-0123456789[{"
    ensures c != '\"' && c != '-' && !IsDigit(c) && c != '[' && c != '{'
  {
  }

  /** Anything else that starts like no value is none, and parsing fails there. */
  lemma NoValue(s: string)
    requires s == [] || s[0] !in "\"-0123456789[{"
    requires !("null" <= s) && !("false" <= s) && !("true" <= s)
    ensures ParseValue(s) == Malformed(s)
  {
    NoStart(Peek(s));
  }

  /** A value that starts behind white space, if there is any. */
  ghost predicate ReadAs(s: string, v: Json, rest: string) {
    s != [] && s[0] > '\U{0020}' && ParseValue(s) == Ok(v, rest)
  }

  lemma EmptyArray(b: string, rest: string)
    requires Skipped(b)
    ensures ParseValue("[" + (b + ("]" + rest))) == Ok(Array([]), rest)
  {
    SkipBefore(b, "]" + rest);
    Bracketed('[', b + ("]" + rest));
    assert ("]" + rest)[0] == ']' && ("]" + rest)[1..] == rest;
  }

  lemma Bracketed(open: char, s: string)
    requires open == '[' || open == '{'
    ensures ParseValue([open] + s) == if open == '[' then ParseArray(s) else ParseObject(s)
  {
    var t := [open] + s;
    assert t[0] == open && t[1..] == s;
  }

  /** One more item: behind it is a comma or the bracket. */
  lemma ItemRead(b: string, t: string, v: Json, c: string, mark: char, rest: string, items: seq<Json>)
    requires Skipped(b) && Skipped(c) && (mark == ',' || mark == ']') && ReadAs(t, v, c + ([mark] + rest))
    ensures Skip(b + t) == t && t[0] != ']'
    ensures ParseItems(b + t, items) == ParseItems(t, items)
      == if mark == ',' then ParseItems(rest, items + [v]) else Ok(Array(items + [v]), rest)
  {
    SkipBefore(b, t);
    SkipBefore(c, [mark] + rest);
    assert ([mark] + rest)[0] == mark && ([mark] + rest)[1..] == rest;
    if t[0] == ']' {
      NoValue(t);
    }
  }

  /** An array of two items, with any white space around them. */
  lemma TwoItems(b: string, t: string, v: Json, c: string, d: string, u: string, w: Json, e: string, rest: string)
    requires Skipped(b) && Skipped(c) && Skipped(d) && Skipped(e)
    requires ReadAs(t, v, c + ("," + (d + u))) && ReadAs(u, w, e + ("]" + rest))
    ensures ParseValue("[" + (b + t)) == Ok(Array([v, w]), rest)
  {
    ItemRead(b, t, v, c, ',', d + u, []);
    ItemRead(d, u, w, e, ']', rest, [v]);
    Bracketed('[', b + t);
    assert [] + [v] == [v] && [v] + [w] == [v, w];
  }

  /** Without a comma or a bracket behind an item parsing fails at what is there. */
  lemma ItemsBroken(b: string, t: string, v: Json, c: string, rest: string)
    requires Skipped(b) && Skipped(c) && ReadAs(t, v, c + rest)
    requires rest == [] || (rest[0] !in ",]" && (rest[0] == '\0' || rest[0] > '\U{0020}'))
    ensures ParseValue("[" + (b + t)) == Malformed(rest)
  {
    Bracketed('[', b + t);
    SkipBefore(c, rest);
    NothingBehind(b, t, v, c + rest, rest, []);
  }

  lemma NothingBehind(b: string, t: string, v: Json, behind: string, rest: string, items: seq<Json>)
    requires Skipped(b) && ReadAs(t, v, behind) && Skip(behind) == rest && Peek(rest) != ',' && Peek(rest) != ']'
    ensures Skip(b + t) == t && t[0] != ']' && ParseItems(b + t, items) == Malformed(rest)
  {
    SkipBefore(b, t);
    if t[0] == ']' {
      NoValue(t);
    }
  }

  lemma EmptyObject(b: string, rest: string)
    requires Skipped(b)
    ensures ParseValue("{" + (b + ("}" + rest))) == Ok(Object([]), rest)
  {
    SkipBefore(b, "}" + rest);
    Bracketed('{', b + ("}" + rest));
    assert ("}" + rest)[0] == '}' && ("}" + rest)[1..] == rest;
  }

  /** A member: a string, a colon and a value, with any white space around them. */
  lemma MemberRead(b: string, s: string, name: string, c: string, d: string, t: string, v: Json, rest: string)
    requires Skipped(b) && Skipped(c) && Skipped(d) && s != [] && s[0] == '\"'
    requires ParseString(s) == Ok(name, c + (":" + (d + t))) && ReadAs(t, v, rest)
    ensures Skip(b + s) == s && ParseMember(b + s) == ParseMember(s) == Ok(Member(name, v), rest)
  {
    SkipBefore(b, s);
    var behind := d + t;
    SkipBefore(c, ":" + behind);
    assert (":" + behind)[0] == ':' && (":" + behind)[1..] == behind;
    SkipBefore(d, t);
  }

  lemma NextRead(s: string, m: Member, c: string, mark: char, rest: string, members: seq<Member>)
    requires Skipped(c) && (mark == ',' || mark == '}') && ParseMember(s) == Ok(m, c + ([mark] + rest))
    ensures ParseMembers(s, members)
      == if mark == ',' then ParseMembers(rest, members + [m]) else Ok(Object(members + [m]), rest)
  {
    SkipBefore(c, [mark] + rest);
    assert ([mark] + rest)[0] == mark && ([mark] + rest)[1..] == rest;
  }

  /** An object of two members. */
  lemma TwoMembers(b: string, s: string, m: Member, c: string, t: string, n: Member, d: string, rest: string)
    requires Skipped(b) && Skipped(c) && Skipped(d) && s != [] && s[0] == '\"'
    requires ParseMember(s) == Ok(m, c + ("," + t)) && ParseMember(t) == Ok(n, d + ("}" + rest))
    ensures ParseValue("{" + (b + s)) == Ok(Object([m, n]), rest)
  {
    SkipBefore(b, s);
    NextRead(s, m, c, ',', t, []);
    NextRead(t, n, d, '}', rest, [m]);
    Bracketed('{', b + s);
    assert [] + [m] == [m] && [m] + [n] == [m, n];
  }

  // ---------- Strings ----------

  /** A string without a backslash is read as it is. */
  lemma PlainStringRead(s: string, rest: string)
    requires '\"' !in s && '\\' !in s && '\0' !in s
    ensures ParseString("\"" + s + "\"" + rest) == Ok(s, rest)
  {
    var behind := ['\"'] + rest;
    PlainUnescaped(s, behind, UNSET);
    assert behind[0] == '\"' && behind[1..] == rest;
    QuoteRead(s + behind);
    assert "\"" + s + "\"" + rest == ['\"'] + (s + behind);
  }

  lemma {:induction false} PlainUnescaped(s: string, behind: string, h: Held)
    requires '\"' !in s && '\\' !in s && '\0' !in s && behind != [] && behind[0] == '\"'
    ensures Unescape(s + behind, h) == Ok(s, behind[1..]) && Room(s + behind, false) == |s|
  {
    var t := s + behind;
    if s == [] {
      assert t == behind;
    } else {
      PlainUnescaped(s[1..], behind, h);
      assert t[0] == s[0] && t[1..] == s[1..] + behind;
      assert [s[0]] + s[1..] == s;
    }
  }

  /** A letter behind a backslash: five stand for control characters, all others but u for themselves. */
  lemma EscapeIsRead(c: char, rest: string)
    requires c != '\0' && c != 'u'
    ensures var x := if c == 'b' then '\U{0008}' else if c == 'f' then '\U{000c}' else if c == 'n' then '\U{000a}'
        else if c == 'r' then '\U{000d}' else if c == 't' then '\U{0009}' else c;
      ParseString(['\"', '\\', c, '\"'] + rest) == Ok([x], rest)
  {
    var behind := ['\"'] + rest;
    var s := ['\\', c] + behind;
    var t := [c] + behind;
    assert ['\"', '\\', c, '\"'] + rest == ['\"'] + s;
    assert s[0] == '\\' && s[1..] == t && t[0] == c && t[1..] == behind && behind[0] == '\"' && behind[1..] == rest;
    assert Unescape(behind, UNSET) == Ok([], rest) && Room(behind, false) == 0;
    assert Room(t, true) == 0 && Room(s, false) == 1;
    var x := Unescaped(c);
    assert ParseEscape(t, UNSET) == Ok(Bytes([x], UNSET), behind);
    assert [x] + [] == [x];
    QuoteRead(s);
  }

  /** Two halves of a pair, 0xD800 + h and 0xDC00 + l. */
  lemma PairIs(h: nat, l: nat)
    requires h < 0x400 && l < 0x400
    ensures PairValue(0xD800 + h, 0xDC00 + l) == 0x400 * h + l + if h / 64 % 2 == 0 then 0x1_0000 else 0
  {
    PairIff(0xD800 + h, 0xDC00 + l);
    DivModUnique(0xD800 + h, 64, 0x360 + h / 64, h % 64);
    DivModUnique(0x360 + h / 64, 2, 0x1B0 + h / 64 / 2, h / 64 % 2);
  }

  /** The bytes of a code: those of UTF-8, of six bits each but for the first. */
  lemma BytesOfCode(a: nat, b: nat, c: nat, d: nat)
    requires b < 64 && c < 64 && d < 64
    ensures d + 64 * c < 0x80 ==> CodeBytes(d + 64 * c) == [(d + 64 * c) as char]
    ensures 2 <= c < 32 ==> CodeBytes(d + 64 * c) == [(0xC0 + c) as char, (0x80 + d) as char]
    ensures b < 16 && 0x800 <= d + 64 * c + 4096 * b ==>
      CodeBytes(d + 64 * c + 4096 * b) == [(0xE0 + b) as char, (0x80 + c) as char, (0x80 + d) as char]
    ensures a < 8 && 0x1_0000 <= d + 64 * c + 4096 * b + 262144 * a ==>
      CodeBytes(d + 64 * c + 4096 * b + 262144 * a)
      == [(0xF0 + a) as char, (0x80 + b) as char, (0x80 + c) as char, (0x80 + d) as char]
  {
    var two, three, four := d + 64 * c, d + 64 * c + 4096 * b, d + 64 * c + 4096 * b + 262144 * a;
    DivModUnique(two, 64, c, d);
    DivModUnique(three, 64, c + 64 * b, d);
    DivModUnique(c + 64 * b, 64, b, c);
    DivModUnique(four, 64, c + 64 * b + 4096 * a, d);
    DivModUnique(c + 64 * b + 4096 * a, 64, b + 64 * a, c);
    DivModUnique(b + 64 * a, 64, a, b);
  }

  /** Four hexadecimal digits in either case and their number. */
  ghost predicate FourDigits(hex: string, uc: nat) {
    && |hex| == 4 && (forall i :: 0 <= i < 4 ==> IsHex(hex[i]))
    && uc == 0x1000 * HexValue(hex[0]) + 0x100 * HexValue(hex[1]) + 0x10 * HexValue(hex[2]) + HexValue(hex[3])
  }

  /** An escape with four digits gives the bytes of its code, and nothing for 0 and for half a pair. */
  lemma UnicodeIsRead(hex: string, uc: nat, rest: string)
    requires FourDigits(hex, uc)
    ensures ParseString((['\"', '\\', 'u'] + hex + ['\"']) + rest)
      == Ok(if uc == 0 || 0xD800 <= uc < 0xE000 then [] else CodeBytes(uc), rest)
  {
    var text := ['\"'] + ((ESCAPE + hex) + []) + ['\"'];
    assert text == ['\"', '\\', 'u'] + hex + ['\"'];
    assert hex + [] == hex && Alone(uc) + [] == Alone(uc);
    Hex4Converts(hex);
    CodeIs(uc);
    OneEscape(hex, [], uc, rest);
  }

  /** A string of one piece. */
  lemma PieceParsed(p: Piece, rest: string)
    requires StandardPiece(p)
    ensures AcceptedPiece(p, [], UNSET)
    ensures ParseString((['\"'] + PieceText(p) + ['\"']) + rest) == Ok(PieceBytes(p, [], UNSET).text, rest)
  {
    var pieces := [p];
    assert pieces[1..] == [] && StandardPieces(pieces);
    StandardCode(p, [], UNSET);
    StandardFits(pieces, ['\"'] + rest);
    StringRead(pieces, rest);
    var bytes := PieceBytes(p, [], UNSET);
    assert PiecesText(pieces) == PieceText(p) + [] == PieceText(p);
    assert PiecesBytes(pieces, UNSET) == bytes.text + PiecesBytes([], bytes.held) == bytes.text + [] == bytes.text;
  }

  /** Two halves give the bytes of the pair's code. */
  lemma PairIsParsed(high: string, low: string, h: nat, l: nat, rest: string)
    requires FourDigits(high, 0xD800 + h) && FourDigits(low, 0xDC00 + l) && h < 0x400 && l < 0x400
    ensures ParseString((['\"'] + (['\\', 'u'] + high + ['\\', 'u'] + low) + ['\"']) + rest)
      == Ok(CodeBytes(PairValue(0xD800 + h, 0xDC00 + l)), rest)
  {
    var p := Pair(high, low);
    PairBytes(high, low, 0xD800 + h, 0xDC00 + l);
    PieceParsed(p, rest);
    assert PieceText(p) == ['\\', 'u'] + high + ['\\', 'u'] + low;
  }

  lemma PairBytes(high: string, low: string, uc: nat, uc2: nat)
    requires FourDigits(high, uc) && FourDigits(low, uc2) && 0xD800 <= uc < 0xDC00 && 0xDC00 <= uc2 < 0xE000
    ensures var p := Pair(high, low);
      StandardPiece(p) && AcceptedPiece(p, [], UNSET)
      && PieceBytes(p, [], UNSET).text == CodeBytes(PairValue(uc, uc2))
  {
    FourRead(high, uc);
    FourRead(low, uc2);
    StandardCode(Pair(high, low), [], UNSET);
    PairReadIs(uc, uc2);
  }

  lemma FourRead(hex: string, uc: nat)
    requires FourDigits(hex, uc)
    ensures IsHex4(hex) && ReadHex4(hex) == uc
  {
  }

  // ---------- Numbers ----------

  /** A decimal of one digit behind the point. */
  lemma FractionIsRead(negative: bool, n: nat, d: nat, rest: string)
    requires d < 10 && (rest == [] || rest[0] !in "0123456789eE")
    ensures ParseNumber((if negative then "-" else "") + (Decimal(n) + ("." + ["0123456789"[d]] + rest)))
      == Ok(Double(negative, 10 * n + d, -1), rest)
  {
    var digit := ["0123456789"[d]];
    assert digit == [Digit(d)];
    DecimalIs(n);
    ValueNext(Decimal(n), Digit(d));
    NotADigit(rest);
    assert FractionText(digit) == "." + digit && ExponentText(NoExponent) + rest == rest;
    NumberRead(negative, Decimal(n), digit, NoExponent, rest);
  }

  lemma NotADigit(rest: string)
    requires rest == [] || rest[0] !in "0123456789eE"
    ensures !IsDigit(Peek(rest)) && Peek(rest) != 'e' && Peek(rest) != 'E'
  {
  }

  lemma PowerText(n: nat, e: char, sign: string, k: nat, rest: string)
    ensures var x := Exponent(e, sign, Decimal(k));
      Decimal(n) + (FractionText([]) + (ExponentText(x) + rest)) == Decimal(n) + ([e] + (sign + (Decimal(k) + rest)))
  {
    var x := Exponent(e, sign, Decimal(k));
    JoinExponent(e, sign, Decimal(k), rest);
    assert [] + (ExponentText(x) + rest) == ExponentText(x) + rest;
  }

  lemma PowerParsed(negative: bool, whole: string, x: Exponent, rest: string, n: nat, power: int)
    requires AcceptedNumber(negative, whole, [], x) && EndsNumeral(whole, [], x, rest)
    requires ValueOf(whole) == n && PowerOf(x) == power
    ensures ParseNumber(NumberText(negative, whole, [], x, rest)) == Ok(Number(negative, n, 0, ToInt32(power)), rest)
  {
    assert whole + [] == whole;
    NumberRead(negative, whole, [], x, rest);
  }

  lemma WithExponent(negative: bool, n: nat, e: char, sign: string, k: nat, rest: string)
    requires (e == 'e' || e == 'E') && sign in {"", "+", "-"} && !IsDigit(Peek(rest))
    ensures ParseNumber((if negative then "-" else "") + (Decimal(n) + ([e] + (sign + (Decimal(k) + rest)))))
      == Ok(Number(negative, n, 0, ToInt32(if sign == "-" then 0 - k else k)), rest)
  {
    DecimalIs(n);
    DecimalIs(k);
    PowerText(n, e, sign, k, rest);
    PowerParsed(negative, Decimal(n), Exponent(e, sign, Decimal(k)), rest, n, if sign == "-" then 0 - k else k);
  }

  /** An exponent, with either letter and any sign; the exponent 0 makes no difference. */
  lemma ExponentIsRead(negative: bool, n: nat, e: char, sign: string, k: nat, rest: string)
    requires (e == 'e' || e == 'E') && sign in {"", "+", "-"} && k < 0x8000_0000
    requires rest == [] || rest[0] !in "0123456789eE"
    ensures ParseNumber((if negative then "-" else "") + (Decimal(n) + ([e] + (sign + (Decimal(k) + rest)))))
      == Ok(if k != 0 then Double(negative, n, if sign == "-" then 0 - k else k) else Number(negative, n, 0, 0), rest)
  {
    NotADigit(rest);
    WithExponent(negative, n, e, sign, k, rest);
    SmallPower(if sign == "-" then 0 - k else k);
  }

  lemma SmallPower(v: int)
    requires -0x8000_0000 < v < 0x8000_0000
    ensures ToInt32(v) == v
  {
    DivModUnique(v, 0x1_0000_0000, if v < 0 then -1 else 0, if v < 0 then v + 0x1_0000_0000 else v);
  }

  // ---------- The conversion of an escape ----------

  /** isspace: six characters are skipped in front of the number. */
  lemma SixBlanks(c: char, s: string)
    requires c in " \t\n\U{000b}\U{000c}\r"
    ensures Convert([c] + s) == Convert(s)
  {
    assert ([c] + s)[0] == c && ([c] + s)[1..] == s;
  }

  lemma NotConverted(s: string)
    requires s == [] || s[0] !in " \t\n\U{000b}\U{000c}\r+-0123456789abcdefABCDEF"
    ensures Convert(s) == None
  {
  }

  /** One digit behind a sign, or behind a prefix; what follows is not a digit. */
  lemma ShortForms(d: nat, upper: bool, sign: string, prefix: string, rest: string)
    requires d < 16 && sign in {"", "+", "-"} && prefix in {"", "0x", "0X"}
    requires rest == [] || rest[0] !in "0123456789abcdefABCDEFxX"
    ensures var digit := [(if upper then "0123456789ABCDEF" else "0123456789abcdef")[d]];
      Convert(sign + (prefix + (digit + rest))) == Some(if sign == "-" && d > 0 then 0x1_0000_0000 - d else d)
    ensures prefix != "" ==> Convert(prefix + rest) == None
  {
    var digit := [(if upper then "0123456789ABCDEF" else "0123456789abcdef")[d]];
    DigitIs(d, upper);
    NotHex(rest);
    OneDigitNumber(digit, d);
    FormConverted(sign, prefix, digit, rest, d);
    if prefix != "" {
      PrefixAlone(prefix, rest);
    }
  }

  lemma OneDigitNumber(digit: string, d: nat)
    requires |digit| == 1 && IsHex(digit[0]) && HexValue(digit[0]) == d
    ensures AllHex(digit) && HexNumber(digit) == d
  {
    assert digit[..0] == [] && HexNumber([]) == 0;
  }

  lemma DigitIs(d: nat, upper: bool)
    requires d < 16
    ensures var c := (if upper then "0123456789ABCDEF" else "0123456789abcdef")[d]; IsHex(c) && HexValue(c) == d
  {
  }

  lemma NotHex(rest: string)
    requires rest == [] || rest[0] !in "0123456789abcdefABCDEFxX"
    ensures rest != [] ==> !IsHex(rest[0]) && rest[0] != 'x' && rest[0] != 'X'
  {
  }

  lemma FormConverted(sign: string, prefix: string, digit: string, rest: string, d: nat)
    requires IsSign(sign) && IsPrefix(prefix) && |digit| == 1 && AllHex(digit) && HexNumber(digit) == d < 16
    requires |sign| + |prefix| + 1 <= 4 && (rest != [] ==> !IsHex(rest[0]) && rest[0] != 'x' && rest[0] != 'X')
    ensures Convert(sign + (prefix + (digit + rest)))
      == Some(if sign == "-" && d > 0 then 0x1_0000_0000 - d else d)
  {
    var t := sign + (prefix + (digit + rest));
    assert rest != [] ==> (digit + rest)[1] == rest[0];
    ItemConverted([], sign, prefix, digit, rest);
    assert [] + t == t;
    var m := 0x1_0000_0000;
    DivModUnique(d, m, 0, d);
    DivModUnique(0 - d, m, if d == 0 then 0 else -1, if d == 0 then 0 else m - d);
  }

  lemma PrefixAlone(prefix: string, rest: string)
    requires (prefix == "0x" || prefix == "0X") && (rest != [] ==> !IsHex(rest[0]))
    ensures Convert(prefix + rest) == None
  {
    var t := prefix + rest;
    assert t[0] == '0' && t[1] == prefix[1] && t[2..] == rest;
    assert SkipBlanks(t) == t && !IsSigned(t) && IsPrefixed(t);
  }
}
