/** The parsing routines of 3rd/json/src/cJSON.c against the functions of JsonText. */
module JsonParser {
  import opened Bits
  import opened Characters
  import opened Collections
  import opened JsonBuffers
  import JsonNumbers
  import opened JsonScan
  import opened JsonStrings
  import opened JsonText

  method SkipSpace(start: string) returns (p: string)
    ensures p == Skip(start)
  {
    p := start;
    while Peek(p) != '\0' && Peek(p) <= ' '
      invariant Skip(p) == Skip(start)
      decreases |p|
    {
      p := p[1..];
    }
  }

  // ---------- Numbers ----------

  method ReadNumber(start: string) returns (item: Json, num: string)
    ensures ParseNumber(start) == Ok(item, num)
  {
    var n: nat, scale, sign := 0, 0, 1;
    num := start;
    if Peek(num) == '-' {
      sign := -1;
      num := num[1..];
    }
    n, num := ReadWholePart(num);
    if Peek(num) == '.' && IsDigit(Peek(num[1..])) {
      n, scale, num := ReadScaled(num[1..], n);
    }
    var exponent: int;
    exponent, num := ReadPower(num);
    item := Number(sign == -1, n, -scale, exponent);
  }

  method ReadWholePart(start: string) returns (n: nat, num: string)
    ensures ReadWhole(start) == Digits(n, num)
  {
    n, num := 0, start;
    if Peek(num) == '0' {
      num := num[1..];
    }
    if '1' <= Peek(num) <= '9' {
      n, num := ReadRun(num, n);
    }
  }

  method ReadRun(start: string, before: nat) returns (n: nat, num: string)
    ensures ReadDigits(start, before) == Digits(n, num)
  {
    n, num := before, start;
    while IsDigit(Peek(num))
      invariant ReadDigits(num, n) == ReadDigits(start, before)
      decreases |num|
    {
      n := 10 * n + (num[0] - '0') as nat;
      num := num[1..];
    }
  }

  method ReadScaled(start: string, before: nat) returns (n: nat, scale: int, num: string)
    ensures ReadDigits(start, before) == Digits(n, num) && scale == |num| - |start|
  {
    n, num, scale := before, start, 0;
    while IsDigit(Peek(num))
      invariant ReadDigits(num, n) == ReadDigits(start, before)
      invariant scale == |num| - |start|
      decreases |num|
    {
      n := 10 * n + (num[0] - '0') as nat;
      num := num[1..];
      scale := scale - 1;
    }
  }

  lemma SameInt32(x: int, y: int, k: int)
    requires x == y + k * 0x1_0000_0000
    ensures ToInt32(x) == ToInt32(y)
  {
    DivModUnique(x, 0x1_0000_0000, y / 0x1_0000_0000 + k, y % 0x1_0000_0000);
  }

  lemma Int32Lost(x: int) returns (k: int)
    ensures x == ToInt32(x) + k * 0x1_0000_0000
  {
    k := x / 0x1_0000_0000 + if x % 0x1_0000_0000 < 0x8000_0000 then 0 else 1;
  }

  lemma Int32Sum(v: int, d: int)
    ensures ToInt32(ToInt32(v) + d) == ToInt32(v + d)
  {
    var k := Int32Lost(v);
    SameInt32(v + d, ToInt32(v) + d, k);
  }

  lemma Int32Product(v: int, c: int)
    ensures ToInt32(ToInt32(v) * c) == ToInt32(v * c)
  {
    var k := Int32Lost(v);
    var w := ToInt32(v);
    assert (w + k * 0x1_0000_0000) * c == w * c + k * c * 0x1_0000_0000;
    SameInt32(v * c, w * c, k * c);
  }

  /** One digit more. */
  lemma NextSubscale(v: int, d: int)
    ensures ToInt32(ToInt32(ToInt32(v) * 10) + d) == ToInt32(10 * v + d)
  {
    Int32Product(v, 10);
    Int32Sum(v * 10, d);
  }

  method ReadSubscale(start: string) returns (subscale: int, num: string)
    ensures var d := ReadDigits(start, 0); subscale == ToInt32(d.value) && num == d.rest
  {
    num, subscale := start, 0;
    ghost var v := 0;
    while IsDigit(Peek(num))
      invariant v >= 0 && subscale == ToInt32(v) && ReadDigits(num, v) == ReadDigits(start, 0)
      decreases |num|
    {
      var digit := (num[0] - '0') as int;
      NextSubscale(v, digit);
      subscale := ToInt32(ToInt32(subscale * 10) + digit);
      v := 10 * v + digit;
      num := num[1..];
    }
  }

  method ReadPower(start: string) returns (exponent: int, num: string)
    ensures ReadExponent(start) == Power(exponent, num)
  {
    var subscale, signsubscale := 0, 1;
    num := start;
    if Peek(num) == 'e' || Peek(num) == 'E' {
      num := num[1..];
      if Peek(num) == '+' {
        num := num[1..];
      } else if Peek(num) == '-' {
        signsubscale := -1;
        num := num[1..];
      }
      ghost var d := ReadDigits(num, 0);
      JsonNumbers.PowerIs(start, num, d, d.value * signsubscale);
      subscale, num := ReadSubscale(num);
      Int32Product(d.value, signsubscale);
    }
    exponent := ToInt32(subscale * signsubscale);
  }

  // ---------- Strings ----------

  method MeasureString(start: string) returns (len: int)
    ensures len == Room(start, false)
  {
    var ptr := start;
    len := 0;
    RoomNegative(start, false);
    while Peek(ptr) != '\"' && Peek(ptr) != '\0'
      invariant len >= 0 && Room(start, false) == if Room(ptr, false) < 0 then -1 else len + Room(ptr, false)
      decreases |ptr|
    {
      var escape := Peek(ptr) == '\\';
      RoomNegative(ptr, false);
      RoomNegative(ptr[1..], escape);
      len := len + 1;
      ptr := ptr[1..];
      if escape {
        if Peek(ptr) == '\0' {
          return -1;
        }
        ptr := ptr[1..];
      }
    }
  }

  /** The bytes so far and those of the next piece are too many: so are those of the string. */
  lemma TooLong(room: int, before: string, bytes: string, r: Parsed<string>)
    requires |before| + |bytes| > room && !r.Malformed?
    ensures InBuffer(room, Prepend(before, Prepend(bytes, r))) == Undefined
  {
  }

  method ReadString(str: string) returns (r: Parsed<string>)
    ensures r == ParseString(str)
  {
    if Peek(str) != '\"' {
      return Malformed(str);
    }
    var ptr := str[1..];
    var len := MeasureString(ptr);
    if len < 0 {
      return Undefined;
    }
    var out := new char[len + 1];
    var ptr2: nat := 0;
    var held := UNSET;
    PrependNothing(Unescape(ptr, held));
    while Peek(ptr) != '\"' && Peek(ptr) != '\0'
      invariant ptr2 <= len
      invariant Unescape(str[1..], UNSET) == Prepend(out[..ptr2], Unescape(ptr, held))
      decreases |ptr|
    {
      ghost var done := out[..ptr2];
      if Peek(ptr) != '\\' {
        NotMalformed(ptr[1..], held);
        PrependTwice(done, [ptr[0]], Unescape(ptr[1..], held));
        if ptr2 == len {
          TooLong(len, done, [ptr[0]], Unescape(ptr[1..], held));
          return Undefined;
        }
        out[ptr2] := ptr[0];
        assert out[..ptr2 + 1] == done + [ptr[0]];
        ptr, ptr2 := ptr[1..], ptr2 + 1;
      } else {
        var e := ParseEscape(ptr[1..], held);
        if e.Ok? {
          NotMalformed(e.rest, e.value.held);
          PrependTwice(done, e.value.text, Unescape(e.rest, e.value.held));
          if ptr2 + |e.value.text| > len {
            TooLong(len, done, e.value.text, Unescape(e.rest, e.value.held));
          }
        }
        var defined;
        defined, ptr, ptr2, held := ReadEscape(ptr[1..], out, ptr2, held);
        if !defined {
          return Undefined;
        }
      }
    }
    var text := out[..ptr2];
    assert text + [] == text;
    out[ptr2] := '\0';
    if Peek(ptr) == '\"' {
      ptr := ptr[1..];
    }
    r := Ok(text, ptr);
  }

  lemma PrependNothing(r: Parsed<string>)
    ensures Prepend([], r) == r
  {
    if r.Ok? {
      assert [] + r.value == r.value;
    }
  }

  lemma PrependTwice(a: string, b: string, r: Parsed<string>)
    ensures Prepend(a, Prepend(b, r)) == Prepend(a + b, r)
  {
    if r.Ok? {
      assert a + (b + r.value) == a + b + r.value;
    }
  }

  /** What is defined of an escape: it has a meaning, and its bytes leave room for the terminator. */
  predicate Writes(e: Parsed<Bytes>, p: nat, size: nat) { e.Ok? && p + |e.value.text| < size }

  /** The escape after a backslash, written to position p of the buffer. */
  method ReadEscape(s: string, out: array<char>, p: nat, h: Held)
      returns (defined: bool, rest: string, q: nat, held: Held)
    requires p < out.Length
    modifies out
    ensures defined == Writes(ParseEscape(s, h), p, out.Length)
    ensures var e := ParseEscape(s, h); defined ==>
      && rest == e.rest && held == e.value.held && q == p + |e.value.text| < out.Length
      && out[..q] == old(out[..p]) + e.value.text
  {
    rest, q, held := s, p, h;
    if Peek(s) == '\0' {
      return false, rest, q, held;
    }
    if s[0] == 'u' {
      defined, rest, q, held := ReadUnicode(s[1..], out, p, h);
      return;
    }
    defined := q + 1 < out.Length;
    if !defined {
      return;
    }
    match s[0] {
      case 'b' => out[q] := '\U{0008}';
      case 'f' => out[q] := '\U{000c}';
      case 'n' => out[q] := '\n';
      case 'r' => out[q] := '\r';
      case 't' => out[q] := '\t';
      case c => out[q] := c;
    }
    rest, q := s[1..], q + 1;
  }

  method ReadUnicode(s: string, out: array<char>, p: nat, h: Held)
      returns (defined: bool, rest: string, q: nat, held: Held)
    requires p < out.Length
    modifies out
    ensures defined == Writes(ParseUnicode(s, h), p, out.Length)
    ensures var e := ParseUnicode(s, h); defined ==>
      && rest == e.rest && held == e.value.held && q == p + |e.value.text| < out.Length
      && out[..q] == old(out[..p]) + e.value.text
  {
    rest, q, held := s, p, h.(uc := Scanned(s, h.uc));
    if held.uc.None? || !HasFour(rest) {
      return false, rest, q, held;
    }
    var uc := held.uc.value;
    defined, rest := true, rest[4..];
    if IsLowSurrogate(uc) || uc == 0 {
      return;
    }
    if IsHighSurrogate(uc) {
      if Peek(rest) != '\\' || Peek(rest[1..]) != 'u' {
        return;
      }
      assert rest[2..] == s[6..];
      held := held.(uc2 := Scanned(rest[2..], held.uc2));
      if held.uc2.None? || !HasFour(rest[2..]) {
        return false, rest, q, held;
      }
      var uc2 := held.uc2.value;
      rest := rest[6..];
      assert rest == s[6..][4..];
      if !IsLowSurrogate(uc2) {
        return;
      }
      uc := Or(Or(0x1_0000, Shl(And(uc, 0x3FF), 10)), And(uc2, 0x3FF));
    }
    defined := p + |CodeBytes(uc)| < out.Length;
    if defined {
      q, uc := PutBytes(out, p, uc);
      held := held.(uc := Some(uc));
    }
  }

  // ---------- UTF-8 ----------

  lemma ContinuationBits(uc: nat)
    ensures And(Or(uc, 0x80), 0xBF) == 0x80 + uc % 64
  {
    var low, high := uc % 64, uc / 64;
    assert Pow2(6) == 64;
    OrConcat(2, low, high, 6);
    OrComm(uc, 0x80);
    assert Or(uc, 0x80) == low + Shl(Or(2, high), 6);
    AndConcat(low, Or(2, high), 0x3F, 2, 6);
    AndLowMask(low, 6);
    DivModUnique(low, 64, 0, low);
    AndTwo(high);
  }

  lemma AndTwo(x: nat)
    ensures And(Or(2, x), 2) == 2
  {
    assert And(Or(2, x) / 2, 1) == 1;
  }

  lemma LeadBits(x: nat)
    ensures Or(x, 0) == x
    ensures x < 32 ==> Or(x, 0xC0) == 0xC0 + x
    ensures x < 16 ==> Or(x, 0xE0) == 0xE0 + x
    ensures x < 8 ==> Or(x, 0xF0) == 0xF0 + x
  {
    assert Pow2(5) == 32 && Pow2(4) == 16 && Pow2(3) == 8;
    if x < 32 {
      OrDisjoint(x, 6, 5);
    }
    if x < 16 {
      OrDisjoint(x, 14, 4);
    }
    if x < 8 {
      OrDisjoint(x, 30, 3);
    }
  }

  const FIRST_BYTE_MARK := [0x00, 0x00, 0xC0, 0xE0, 0xF0]

  function CodeLength(uc: nat): nat {
    if uc < 0x80 then 1 else if uc < 0x800 then 2 else if uc < 0x1_0000 then 3 else 4
  }

  /** The bytes are written from the last to the first. */
  method PutBytes(out: array<char>, p: nat, code: nat) returns (q: nat, uc: nat)
    requires p + |CodeBytes(code)| < out.Length
    modifies out
    ensures q == p + |CodeBytes(code)| && out[..q] == old(out[..p]) + CodeBytes(code) && uc == LeftOver(code)
  {
    uc := code;
    var len := CodeLength(uc);
    q := p + len;
    var k := q;
    if len == 4 {
      k, uc := PutContinuation(out, k, uc);
    }
    if len >= 3 {
      k, uc := PutContinuation(out, k, uc);
    }
    if len >= 2 {
      k, uc := PutContinuation(out, k, uc);
    }
    k := PutLead(out, k, uc, len);
    LeadIs(code);
    assert old(out[..p]) == out[..p];
  }

  /** The first byte of a sequence of len bytes. */
  function Lead(uc: nat, len: nat): char
    requires 1 <= len <= 4
  {
    (Or(uc, FIRST_BYTE_MARK[len]) % 0x100) as char
  }

  /** The mark does not overlap a code that is short enough. */
  lemma LeadSum(x: nat, len: nat)
    requires 1 <= len <= 4 && x < (if len == 1 then 128 else if len == 2 then 32 else if len == 3 then 16 else 8)
    ensures Lead(x, len) == (x + FIRST_BYTE_MARK[len]) as char
  {
    LeadBits(x);
  }

  lemma LeftOverBound(code: nat)
    requires code < 0x20_0000
    ensures var x, len := LeftOver(code), CodeLength(code);
      x < (if len == 1 then 128 else if len == 2 then 32 else if len == 3 then 16 else 8)
  {
  }

  lemma LeadIs(code: nat)
    ensures Lead(LeftOver(code), CodeLength(code)) == CodeBytes(code)[0]
  {
    if code < 0x20_0000 {
      LeftOverBound(code);
      LeadSum(LeftOver(code), CodeLength(code));
    } else {
      ThreeShifts(code);
      assert Shr(code, 18) == code / 0x4_0000 by { Pow2Small(); }
    }
  }

  method PutLead(out: array<char>, k: nat, uc: nat, len: nat) returns (k': nat)
    requires 1 <= len <= 4 && 0 < k <= out.Length
    modifies out
    ensures k' == k - 1 && out[k'] == Lead(uc, len)
    ensures forall i :: 0 <= i < out.Length && i != k' ==> out[i] == old(out[i])
  {
    k' := k - 1;
    out[k'] := (Or(uc, FIRST_BYTE_MARK[len]) % 0x100) as char;
  }

  method PutContinuation(out: array<char>, k: nat, uc: nat) returns (k': nat, uc': nat)
    requires 0 < k <= out.Length
    modifies out
    ensures k' == k - 1 && uc' == uc / 64 && out[k'] == Continuation(uc)
    ensures forall i :: 0 <= i < out.Length && i != k' ==> out[i] == old(out[i])
  {
    ContinuationBits(uc);
    k' := k - 1;
    out[k'] := And(Or(uc, 0x80), 0xBF) as char;
    uc' := Shr(uc, 6);
    assert Pow2(6) == 64;
  }

  // ---------- Values ----------

  method ReadValue(value: string) returns (r: Parsed<Json>)
    ensures r == ParseValue(value)
    decreases |value|, 0
  {
    if "null" <= value {
      return Ok(Null, value[4..]);
    }
    if "false" <= value {
      return Ok(False, value[5..]);
    }
    if "true" <= value {
      return Ok(True, value[4..]);
    }
    if Peek(value) == '\"' {
      var s := ReadString(value);
      return match s
        case Ok(text, t) => Ok(Str(text), t)
        case Malformed(at) => Malformed(at)
        case Undefined => Undefined;
    }
    if Peek(value) == '-' || IsDigit(Peek(value)) {
      var item, num := ReadNumber(value);
      return Ok(item, num);
    }
    if Peek(value) == '[' {
      r := ReadArray(value);
      return;
    }
    if Peek(value) == '{' {
      r := ReadObject(value);
      return;
    }
    r := Malformed(value);
  }

  method ReadArray(start: string) returns (r: Parsed<Json>)
    requires Peek(start) == '['
    ensures r == ParseArray(start[1..])
    decreases |start| - 1, 3
  {
    var value := SkipSpace(start[1..]);
    if Peek(value) == ']' {
      return Ok(Array([]), value[1..]);
    }
    var items: seq<Json> := [];
    value := SkipSpace(value);
    r := ReadValue(value);
    if !r.Ok? {
      return;
    }
    items := items + [r.value];
    value := SkipSpace(r.rest);
    while Peek(value) == ','
      invariant |value| < |start| - 1
      invariant ParseArray(start[1..]) == AfterItem(value, items)
      decreases |value|
    {
      value := SkipSpace(value[1..]);
      r := ReadValue(value);
      if !r.Ok? {
        return;
      }
      items := items + [r.value];
      value := SkipSpace(r.rest);
    }
    r := if Peek(value) == ']' then Ok(Array(items), value[1..]) else Malformed(value);
  }

  /** The rest of an array after an item and the white space behind it. */
  function AfterItem(s: string, items: seq<Json>): Parsed<Json> {
    if Peek(s) == ',' then ParseItems(s[1..], items)
    else if Peek(s) == ']' then Ok(Array(items), s[1..])
    else Malformed(s)
  }

  method ReadMember(start: string) returns (r: Parsed<Member>)
    ensures r == ParseMember(start)
    decreases |start|, 1
  {
    var value := SkipSpace(start);
    var s := ReadString(value);
    if !s.Ok? {
      return match s case Malformed(at) => Malformed(at) case _ => Undefined;
    }
    value := SkipSpace(s.rest);
    if Peek(value) != ':' {
      return Malformed(value);
    }
    value := SkipSpace(value[1..]);
    var v := ReadValue(value);
    r := match v
      case Ok(item, t) => Ok(Member(s.value, item), t)
      case Malformed(at) => Malformed(at)
      case Undefined => Undefined;
  }

  method ReadObject(start: string) returns (r: Parsed<Json>)
    requires Peek(start) == '{'
    ensures r == ParseObject(start[1..])
    decreases |start| - 1, 3
  {
    var value := SkipSpace(start[1..]);
    if Peek(value) == '}' {
      return Ok(Object([]), value[1..]);
    }
    var members: seq<Member> := [];
    var m := ReadMember(value);
    if !m.Ok? {
      return match m case Malformed(at) => Malformed(at) case _ => Undefined;
    }
    members := members + [m.value];
    value := SkipSpace(m.rest);
    while Peek(value) == ','
      invariant |value| < |start| - 1
      invariant ParseObject(start[1..]) == AfterMember(value, members)
      decreases |value|
    {
      m := ReadMember(value[1..]);
      if !m.Ok? {
        return match m case Malformed(at) => Malformed(at) case _ => Undefined;
      }
      members := members + [m.value];
      value := SkipSpace(m.rest);
    }
    r := if Peek(value) == '}' then Ok(Object(members), value[1..]) else Malformed(value);
  }

  function AfterMember(s: string, members: seq<Member>): Parsed<Json> {
    if Peek(s) == ',' then ParseMembers(s[1..], members)
    else if Peek(s) == '}' then Ok(Object(members), s[1..])
    else Malformed(s)
  }

  method ReadText(value: string) returns (r: Parsed<Json>)
    ensures r == Parse(value)
  {
    var start := SkipSpace(value);
    r := ReadValue(start);
  }
}
