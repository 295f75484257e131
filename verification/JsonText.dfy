/** JSON trees and their text, as 3rd/json/src/cJSON.c reads and prints them.
    A C string is the text up to its terminator and a char pointer is the text
    that is left to read: Peek is what it points at. */
module JsonText {
  import opened Bits
  import opened Characters
  import opened Collections
  import opened JsonScan

  datatype Json =
    | Null
    | False
    | True
    | Int(value: u64, signed: bool)
    | Double(negative: bool, mantissa: nat, exponent: int)
    | Str(text: string)
    | Array(items: seq<Json>)
    | Object(members: seq<Member>)

  datatype Member = Member(name: string, value: Json)

  /** Undefined: the program reads past the terminator, uses a variable that it has not assigned, or writes past the
      buffer that it measured for a string. */
  datatype Parsed<T> = Ok(value: T, rest: string) | Malformed(at: string) | Undefined

  function Peek(s: string): char { if s == [] then '\0' else s[0] }

  predicate NulFree(s: string) { '\0' !in s }

  // ---------- Printing ----------

  /** The u64 read as a signed number. */
  function ToInt64(v: u64): int {
    if v < 0x8000_0000_0000_0000 then v else v - 0x1_0000_0000_0000_0000
  }

  function SignedDecimal(x: int): string {
    if x < 0 then "-" + Decimal(-x) else Decimal(x)
  }

  function PrintInt(value: u64, signed: bool): string {
    SignedDecimal(if signed then ToInt64(value) else value)
  }

  /** %04x of a number below 256 */
  function Hex4(n: nat): string
    requires n < 256
  {
    ['0', '0', HexDigit(n / 16), HexDigit(n % 16)]
  }

  predicate IsPlain(c: char) { c > 31 as char && c != '\"' && c != '\\' }

  /** The letter that stands for c after a backslash, if there is one. */
  function ShortEscape(c: char): char {
    match c
    case '\\' => '\\'
    case '\"' => '\"'
    case '\U{0008}' => 'b'
    case '\U{000c}' => 'f'
    case '\n' => 'n'
    case '\r' => 'r'
    case '\t' => 't'
    case _ => 'u'
  }

  function EscapeChar(c: char): string {
    if IsPlain(c) then [c]
    else if ShortEscape(c) != 'u' then ['\\', ShortEscape(c)]
    else ['\\', 'u'] + Hex4(c as int)
  }

  function Escape(s: string): string {
    if s == [] then [] else EscapeChar(s[0]) + Escape(s[1..])
  }

  function PrintString(s: string): string { ['\"'] + Escape(s) + ['\"'] }

  /** There are no numbers with a fraction or an exponent, and no NUL in a string. */
  ghost predicate Plain(v: Json)
    decreases v
  {
    match v
    case Double(_, _, _) => false
    case Str(s) => NulFree(s)
    case Array(items) => PlainItems(items)
    case Object(members) => PlainMembers(members)
    case _ => true
  }

  ghost predicate PlainItems(items: seq<Json>)
    decreases items
  {
    forall i :: 0 <= i < |items| ==> Plain(items[i])
  }

  ghost predicate PlainMembers(members: seq<Member>)
    decreases members
  {
    forall i :: 0 <= i < |members| ==> NulFree(members[i].name) && Plain(members[i].value)
  }

  function Tabs(n: nat): string { seq(n, _ => '\t') }

  /** What the formatted output has more: line ends, and tabs before an item. */
  function Line(fmt: bool): string { if fmt then ['\n'] else [] }

  function Indent(n: nat, fmt: bool): string { if fmt then Tabs(n) else [] }

  ghost function PrintValue(v: Json, depth: nat, fmt: bool): string
    requires Plain(v)
    decreases v
  {
    match v
    case Null => "null"
    case False => "false"
    case True => "true"
    case Int(value, signed) => PrintInt(value, signed)
    case Str(s) => PrintString(s)
    case Array(items) => ['['] + PrintItems(items, depth + 1, fmt) + [']']
    case Object(members) =>
      ['{'] + Line(fmt) + PrintMembers(members, depth + 1, fmt) + Indent(depth, fmt) + ['}']
  }

  ghost function PrintItems(items: seq<Json>, depth: nat, fmt: bool): string
    requires PlainItems(items)
    decreases items
  {
    if items == [] then [] else
      PrintValue(items[0], depth, fmt)
      + (if |items| == 1 then [] else if fmt then [',', ' '] else [','])
      + PrintItems(items[1..], depth, fmt)
  }

  ghost function PrintMembers(members: seq<Member>, depth: nat, fmt: bool): string
    requires PlainMembers(members)
    decreases members
  {
    if members == [] then [] else
      PrintMember(members[0], depth, fmt)
      + (if |members| == 1 then [] else [',']) + Line(fmt)
      + PrintMembers(members[1..], depth, fmt)
  }

  ghost function PrintMember(m: Member, depth: nat, fmt: bool): string
    requires NulFree(m.name) && Plain(m.value)
    decreases m
  {
    Indent(depth, fmt) + PrintString(m.name) + [':'] + (if fmt then ['\t'] else [])
    + PrintValue(m.value, depth, fmt)
  }

  // ---------- Parsing ----------

  function Skip(s: string): (r: string)
    ensures |r| <= |s|
  {
    if Peek(s) != '\0' && Peek(s) <= ' ' then Skip(s[1..]) else s
  }

  datatype Digits = Digits(value: nat, rest: string)

  /** Digits appended to the decimal number n. */
  function ReadDigits(s: string, n: nat): (r: Digits)
    ensures |r.rest| <= |s|
  {
    if IsDigit(Peek(s)) then ReadDigits(s[1..], 10 * n + (s[0] - '0') as nat) else Digits(n, s)
  }

  /** The digits before the point. */
  function ReadWhole(s: string): (r: Digits)
    ensures |r.rest| <= |s|
    ensures IsDigit(Peek(s)) ==> |r.rest| < |s|
  {
    var t := if Peek(s) == '0' then s[1..] else s;
    if '1' <= Peek(t) <= '9' then ReadDigits(t, 0) else Digits(0, t)
  }

  /** The digits after a point, if there are any. */
  function ReadFraction(d: Digits): (r: Digits)
    ensures |r.rest| <= |d.rest|
  {
    if Peek(d.rest) == '.' && IsDigit(Peek(d.rest[1..])) then ReadDigits(d.rest[1..], d.value) else d
  }

  /** v in the 32 bits of an int, where it wraps around. */
  function ToInt32(v: int): (r: int)
    ensures -0x8000_0000 <= r < 0x8000_0000
  {
    var u := v % 0x1_0000_0000;
    if u < 0x8000_0000 then u else u - 0x1_0000_0000
  }

  datatype Power = Power(exponent: int, rest: string)

  function ReadExponent(s: string): (r: Power)
    ensures |r.rest| <= |s|
  {
    if Peek(s) != 'e' && Peek(s) != 'E' then Power(0, s) else
      var negative := Peek(s[1..]) == '-';
      var d := ReadDigits(if negative || Peek(s[1..]) == '+' then s[2..] else s[1..], 0);
      Power(ToInt32(if negative then 0 - d.value else d.value), d.rest)
  }

  /** The number as it is stored: an integer modulo 2^64, or the decimal
      from which the double is computed. */
  function Number(negative: bool, mantissa: nat, scale: int, exponent: int): Json {
    if scale == 0 && exponent == 0 then
      Int((if negative then 0 - mantissa else mantissa) % 0x1_0000_0000_0000_0000, negative)
    else
      Double(negative, mantissa, exponent - scale)
  }

  function ParseNumber(s: string): (r: Parsed<Json>)
    ensures r.Ok? && |r.rest| <= |s|
    ensures Peek(s) == '-' || IsDigit(Peek(s)) ==> |r.rest| < |s|
  {
    var negative := Peek(s) == '-';
    var whole := ReadWhole(if negative then s[1..] else s);
    var all := ReadFraction(whole);
    var scale := if all.rest == whole.rest then 0 else |whole.rest| - 1 - |all.rest|;
    var power := ReadExponent(all.rest);
    Ok(Number(negative, all.value, scale, power.exponent), power.rest)
  }

  predicate StartsHex4(s: string) { |s| >= 4 && IsHex(s[0]) && IsHex(s[1]) && IsHex(s[2]) && IsHex(s[3]) }

  function ReadHex4(s: string): (r: nat)
    requires StartsHex4(s)
    ensures r < 0x1_0000
  {
    0x1000 * HexValue(s[0]) + 0x100 * HexValue(s[1]) + 0x10 * HexValue(s[2]) + HexValue(s[3])
  }

  /** The code point of a surrogate pair, as the parser puts it together. */
  function PairValue(uc: nat, uc2: nat): nat {
    Or(Or(0x1_0000, Shl(And(uc, 0x3FF), 10)), And(uc2, 0x3FF))
  }

  predicate IsHighSurrogate(uc: nat) { 0xD800 <= uc <= 0xDBFF }

  predicate IsLowSurrogate(uc: nat) { 0xDC00 <= uc <= 0xDFFF }

  predicate StartsUnicode(s: string) { Peek(s) == '\\' && Peek(s[1..]) == 'u' }

  /** The variables of the parser that sscanf assigns. They keep what they are left with from one escape to the next. */
  datatype Held = Held(uc: Option<nat>, uc2: Option<nat>)

  const UNSET := Held(None, None)

  datatype Bytes = Bytes(text: string, held: Held)

  /** The bytes of a code, which need not be a code point. */
  function CodeBytes(uc: nat): string {
    if uc < 0x20_0000 then Utf8(uc)
    else [(Or(Shr(uc, 18), 0xF0) % 0x100) as char, Continuation(uc / 64 / 64), Continuation(uc / 64), Continuation(uc)]
  }

  /** What is left of a code when its bytes have been shifted out. */
  function LeftOver(uc: nat): nat {
    if uc < 0x80 then uc else if uc < 0x800 then uc / 64 else if uc < 0x1_0000 then uc / 64 / 64 else uc / 64 / 64 / 64
  }

  /** The pointer moves on by four characters, whatever sscanf has converted. */
  predicate HasFour(s: string) { |s| >= 4 && NulFree(s[..4]) }

  /** The bytes that \u gives, and the text after it; s is the text after the u.
      Half a surrogate pair and the code 0 give nothing. */
  function ParseUnicode(s: string, h: Held): (r: Parsed<Bytes>)
    ensures r.Ok? ==> |r.rest| < |s|
  {
    var uc := Scanned(s, h.uc);
    if uc.None? || !HasFour(s) then Undefined
    else if IsHighSurrogate(uc.value) && StartsUnicode(s[4..]) then ParseLow(uc.value, s[6..], h.uc2)
    else Ok(UnitBytes(uc.value, h.uc2), s[4..])
  }

  function UnitBytes(uc: nat, uc2: Option<nat>): Bytes {
    if IsLowSurrogate(uc) || uc == 0 || IsHighSurrogate(uc) then Bytes([], Held(Some(uc), uc2))
    else Bytes(CodeBytes(uc), Held(Some(LeftOver(uc)), uc2))
  }

  /** The second escape of a pair; s is the text after its u. */
  function ParseLow(uc: nat, s: string, before: Option<nat>): (r: Parsed<Bytes>)
    ensures r.Ok? ==> |r.rest| < |s|
  {
    var uc2 := Scanned(s, before);
    if uc2.None? || !HasFour(s) then Undefined
    else if !IsLowSurrogate(uc2.value) then Ok(Bytes([], Held(Some(uc), uc2)), s[4..])
    else
      var pair := PairValue(uc, uc2.value);
      Ok(Bytes(CodeBytes(pair), Held(Some(LeftOver(pair)), uc2)), s[4..])
  }

  lemma PairBound(uc: nat, uc2: nat)
    ensures PairValue(uc, uc2) < 0x10_0000
  {
    Pow2Small();
    AndLowMask(uc, 10);
    AndLowMask(uc2, 10);
    assert Pow2(20) == 0x10_0000 && Pow2(10) == 0x400;
    MulLe(And(uc, 0x3FF), 0x3FF, 0x400);
    OrBound(0x1_0000, Shl(And(uc, 0x3FF), 10), 20);
    OrBound(Or(0x1_0000, Shl(And(uc, 0x3FF), 10)), And(uc2, 0x3FF), 20);
  }

  /** The character that a backslash and c stand for. */
  function Unescaped(c: char): char {
    match c
    case 'b' => '\U{0008}'
    case 'f' => '\U{000c}'
    case 'n' => '\n'
    case 'r' => '\r'
    case 't' => '\t'
    case _ => c
  }

  /** One escape sequence; s is the text after the backslash. */
  function ParseEscape(s: string, h: Held): (r: Parsed<Bytes>)
    ensures r.Ok? ==> |r.rest| < |s|
  {
    if Peek(s) == '\0' then Undefined
    else if s[0] == 'u' then ParseUnicode(s[1..], h)
    else Ok(Bytes([Unescaped(s[0])], h), s[1..])
  }

  /** The rest of a string after its first quote. The closing quote may be missing at the end of the text. */
  function Unescape(s: string, h: Held): (r: Parsed<string>)
    ensures r.Ok? ==> |r.rest| <= |s|
    decreases |s|
  {
    if Peek(s) == '\0' then Ok([], s)
    else if s[0] == '\"' then Ok([], s[1..])
    else if s[0] != '\\' then Prepend([s[0]], Unescape(s[1..], h))
    else match ParseEscape(s[1..], h)
      case Ok(bytes, t) => Prepend(bytes.text, Unescape(t, bytes.held))
      case _ => Undefined
  }

  function Prepend(a: string, r: Parsed<string>): Parsed<string> {
    if r.Ok? then Ok(a + r.value, r.rest) else r
  }

  /** What the first pass over a string counts, up to a quote: one for a character, and one for a backslash with
      whatever character is behind it, which is skipped. It is negative if the pass runs over the terminator. */
  function Room(s: string, skipping: bool): int {
    if Peek(s) == '\0' then (if skipping then -1 else 0)
    else if skipping then Room(s[1..], false)
    else if s[0] == '\"' then 0
    else Counted(Room(s[1..], s[0] == '\\'))
  }

  function Counted(n: int): int { if n < 0 then n else n + 1 }

  /** The second pass writes to a buffer of room + 1 bytes, with a terminator. */
  function InBuffer(room: int, r: Parsed<string>): Parsed<string> {
    if room < 0 || (r.Ok? && |r.value| > room) then Undefined else r
  }

  function ParseString(s: string): (r: Parsed<string>)
    ensures r.Ok? ==> |r.rest| < |s|
  {
    if Peek(s) == '\"' then InBuffer(Room(s[1..], false), Unescape(s[1..], UNSET)) else Malformed(s)
  }

  function ParseValue(s: string): (r: Parsed<Json>)
    ensures r.Ok? ==> |r.rest| < |s|
    decreases |s|, 0
  {
    if "null" <= s then Ok(Null, s[4..])
    else if "false" <= s then Ok(False, s[5..])
    else if "true" <= s then Ok(True, s[4..])
    else if Peek(s) == '\"' then
      match ParseString(s) {
        case Ok(text, t) => Ok(Str(text), t)
        case Malformed(at) => Malformed(at)
        case Undefined => Undefined
      }
    else if Peek(s) == '-' || IsDigit(Peek(s)) then ParseNumber(s)
    else if Peek(s) == '[' then ParseArray(s[1..])
    else if Peek(s) == '{' then ParseObject(s[1..])
    else Malformed(s)
  }

  /** s is the text after the bracket. */
  function ParseArray(s: string): (r: Parsed<Json>)
    ensures r.Ok? ==> |r.rest| < |s|
    decreases |s|, 2
  {
    if Peek(Skip(s)) == ']' then Ok(Array([]), Skip(s)[1..]) else ParseItems(Skip(s), [])
  }

  /** One more item and all that follow, after the items before. */
  function ParseItems(s: string, items: seq<Json>): (r: Parsed<Json>)
    ensures r.Ok? ==> |r.rest| < |s|
    decreases |s|, 1
  {
    match ParseValue(Skip(s))
    case Ok(v, t) =>
      if Peek(Skip(t)) == ',' then ParseItems(Skip(t)[1..], items + [v])
      else if Peek(Skip(t)) == ']' then Ok(Array(items + [v]), Skip(t)[1..])
      else Malformed(Skip(t))
    case failed => failed
  }

  function ParseObject(s: string): (r: Parsed<Json>)
    ensures r.Ok? ==> |r.rest| < |s|
    decreases |s|, 2
  {
    if Peek(Skip(s)) == '}' then Ok(Object([]), Skip(s)[1..]) else ParseMembers(Skip(s), [])
  }

  function ParseMembers(s: string, members: seq<Member>): (r: Parsed<Json>)
    ensures r.Ok? ==> |r.rest| < |s|
    decreases |s|, 1
  {
    match ParseMember(s)
    case Ok(m, t) =>
      if Peek(Skip(t)) == ',' then ParseMembers(Skip(t)[1..], members + [m])
      else if Peek(Skip(t)) == '}' then Ok(Object(members + [m]), Skip(t)[1..])
      else Malformed(Skip(t))
    case Malformed(at) => Malformed(at)
    case Undefined => Undefined
  }

  function ParseMember(s: string): (r: Parsed<Member>)
    ensures r.Ok? ==> |r.rest| < |s|
    decreases |s|, 0
  {
    match ParseString(Skip(s))
    case Ok(name, t) => (
      if Peek(Skip(t)) != ':' then Malformed(Skip(t)) else
        match ParseValue(Skip(Skip(t)[1..]))
        case Ok(v, u) => Ok(Member(name, v), u)
        case Malformed(at) => Malformed(at)
        case Undefined => Undefined
      )
    case Malformed(at) => Malformed(at)
    case Undefined => Undefined
  }

  /** cJSON_Parse: what follows the value is not looked at. */
  function Parse(text: string): Parsed<Json> { ParseValue(Skip(text)) }
}
