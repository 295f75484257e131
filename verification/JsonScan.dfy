/** The conversion %4x of sscanf, section 7.21.6.2 of the C standard: which number it takes from a text. */
module JsonScan {
  import opened Characters
  import opened Collections

  predicate IsBlank(c: char) { c == ' ' || '\t' <= c <= '\r' }

  function SkipBlanks(s: string): string {
    if s != [] && IsBlank(s[0]) then SkipBlanks(s[1..]) else s
  }

  predicate AllHex(s: string) { forall i :: 0 <= i < |s| ==> IsHex(s[i]) }

  /** The hexadecimal digits in front, as many as the width allows. */
  function HexDigits(s: string, width: nat): (r: string)
    ensures AllHex(r) && |r| <= width
  {
    if width == 0 || s == [] || !IsHex(s[0]) then [] else [s[0]] + HexDigits(s[1..], width - 1)
  }

  function HexNumber(s: string): nat
    requires AllHex(s)
  {
    if s == [] then 0 else 16 * HexNumber(s[..|s| - 1]) + HexValue(s[|s| - 1])
  }

  predicate IsSigned(s: string) { s != [] && (s[0] == '+' || s[0] == '-') }

  predicate IsPrefixed(s: string) { |s| >= 2 && s[0] == '0' && (s[1] == 'x' || s[1] == 'X') }

  /** White space is skipped, and does not count. A sign and a prefix count among the four characters; without a digit
      behind them there is no conversion. A negative number is taken modulo 2^32. */
  function Convert(s: string): Option<nat> {
    var t := SkipBlanks(s);
    var u, width := if IsSigned(t) then t[1..] else t, if IsSigned(t) then 3 else 4;
    var digits := if IsPrefixed(u) then HexDigits(u[2..], width - 2) else HexDigits(u, width);
    if digits == [] then None else Some(WithSign(IsSigned(t) && t[0] == '-', HexNumber(digits)))
  }

  function WithSign(negative: bool, n: nat): nat {
    (if negative then 0 - n else n) % 0x1_0000_0000
  }

  /** A variable that a conversion assigns keeps its value if there is none. */
  function Scanned(s: string, before: Option<nat>): Option<nat> {
    if Convert(s).Some? then Convert(s) else before
  }

  // ---------- What is converted ----------

  lemma HexNumberBound(s: string)
    requires AllHex(s) && |s| <= 4
    ensures HexNumber(s) < if |s| == 4 then 0x1_0000 else if |s| == 3 then 0x1000 else if |s| == 2 then 0x100
                           else if |s| == 1 then 0x10 else 1
  {
    if s != [] {
      HexNumberBound(s[..|s| - 1]);
    }
  }

  /** The number has 16 bits, or it is a negative one of three digits. */
  lemma ConvertBound(s: string)
    requires Convert(s).Some?
    ensures var v := Convert(s).value; v < 0x1_0000 || 0xFFFF_F000 < v < 0x1_0000_0000
  {
    var t := SkipBlanks(s);
    var u, width := if IsSigned(t) then t[1..] else t, if IsSigned(t) then 3 else 4;
    HexNumberBound(if IsPrefixed(u) then HexDigits(u[2..], width - 2) else HexDigits(u, width));
  }

  predicate AllBlank(s: string) { forall i :: 0 <= i < |s| ==> IsBlank(s[i]) }

  lemma {:induction false} BlanksSkipped(blanks: string, s: string)
    requires AllBlank(blanks)
    ensures SkipBlanks(blanks + s) == SkipBlanks(s)
  {
    if blanks == [] {
      assert blanks + s == s;
    } else {
      BlanksSkipped(blanks[1..], s);
      assert (blanks + s)[1..] == blanks[1..] + s;
    }
  }

  lemma {:induction false} DigitsTaken(digits: string, rest: string, width: nat)
    requires AllHex(digits) && |digits| <= width
    requires |digits| == width || rest == [] || !IsHex(rest[0])
    ensures HexDigits(digits + rest, width) == digits
  {
    if digits == [] {
      assert digits + rest == rest;
    } else {
      DigitsTaken(digits[1..], rest, width - 1);
      assert (digits + rest)[1..] == digits[1..] + rest;
    }
  }

  predicate IsSign(sign: string) { sign == "" || sign == "+" || sign == "-" }

  predicate IsPrefix(prefix: string) { prefix == "" || prefix == "0x" || prefix == "0X" }

  /** The parts of a number: the digits are all there are, as far as four characters reach, and without a prefix they do
      not begin one. */
  predicate IsItem(sign: string, prefix: string, digits: string, rest: string) {
    && IsSign(sign) && IsPrefix(prefix) && AllHex(digits) && |sign| + |prefix| + |digits| <= 4
    && (|sign| + |prefix| + |digits| == 4 || rest == [] || !IsHex(rest[0]))
    && (prefix == "" ==> !IsPrefixed(digits + rest))
  }

  lemma ItemSplits(sign: string, prefix: string, digits: string, rest: string)
    requires IsItem(sign, prefix, digits, rest)
    requires digits != [] || prefix != "" || rest == [] || (!IsBlank(rest[0]) && (sign == "" ==> !IsSigned(rest)))
    ensures var t := sign + (prefix + (digits + rest));
      && SkipBlanks(t) == t && IsSigned(t) == (sign != "")
      && (sign != "" ==> t[0] == sign[0] && t[1..] == prefix + (digits + rest))
      && (sign == "" ==> t == prefix + (digits + rest))
  {
    var u := prefix + (digits + rest);
    assert prefix == "" ==> u == digits + rest;
    assert digits == [] ==> digits + rest == rest;
  }

  lemma DigitsFound(prefix: string, digits: string, rest: string, width: nat)
    requires IsPrefix(prefix) && AllHex(digits) && |prefix| + |digits| <= width
    requires |prefix| + |digits| == width || rest == [] || !IsHex(rest[0])
    requires prefix == "" ==> !IsPrefixed(digits + rest)
    ensures var u := prefix + (digits + rest);
      && IsPrefixed(u) == (prefix != "")
      && digits == if prefix == "" then HexDigits(u, width) else HexDigits(u[2..], width - 2)
  {
    var v := digits + rest;
    DigitsTaken(digits, rest, width - |prefix|);
    if prefix == "" {
      assert prefix + v == v;
    } else {
      PrefixBefore(prefix, v);
    }
  }

  lemma PrefixBefore(prefix: string, v: string)
    requires IsPrefix(prefix) && prefix != ""
    ensures IsPrefixed(prefix + v) && (prefix + v)[2..] == v
  {
  }

  /** White space and a number are converted to the number. */
  lemma ItemConverted(blanks: string, sign: string, prefix: string, digits: string, rest: string)
    requires AllBlank(blanks) && IsItem(sign, prefix, digits, rest)
    requires digits != []
    ensures Convert(blanks + (sign + (prefix + (digits + rest)))) == Some(WithSign(sign == "-", HexNumber(digits)))
  {
    BlanksSkipped(blanks, sign + (prefix + (digits + rest)));
    ItemSplits(sign, prefix, digits, rest);
    DigitsFound(prefix, digits, rest, 4 - |sign|);
  }

  lemma PlainSign(n: nat)
    requires n < 0x1_0000
    ensures WithSign(false, n) == n
  {
  }

  lemma NoParts(t: string)
    ensures [] + ("" + ("" + t)) == t
  {
  }

  /** Digits alone. */
  lemma {:induction false} DigitsConverted(digits: string, rest: string)
    requires AllHex(digits) && 0 < |digits| <= 4 && (|digits| == 4 || rest == [] || !IsHex(rest[0]))
    requires !IsPrefixed(digits + rest)
    ensures Convert(digits + rest) == Some(HexNumber(digits)) && HexNumber(digits) < 0x1_0000
  {
    var n := HexNumber(digits);
    HexNumberBound(digits);
    PlainSign(n);
    ItemConverted([], "", "", digits, rest);
    NoParts(digits + rest);
  }

  lemma {:induction false} BlanksSplit(s: string) returns (blanks: string)
    ensures AllBlank(blanks) && s == blanks + SkipBlanks(s)
  {
    if s != [] && IsBlank(s[0]) {
      var more := BlanksSplit(s[1..]);
      blanks := [s[0]] + more;
      assert s == [s[0]] + s[1..];
      Assoc([s[0]], more, SkipBlanks(s[1..]));
    } else {
      blanks := [];
    }
  }

  lemma {:induction false} DigitsSplit(s: string, width: nat) returns (rest: string)
    ensures var d := HexDigits(s, width);
      s == d + rest && (|d| == width || rest == [] || !IsHex(rest[0]))
  {
    if width == 0 || s == [] || !IsHex(s[0]) {
      rest := s;
    } else {
      rest := DigitsSplit(s[1..], width - 1);
      assert s == [s[0]] + s[1..];
      Assoc([s[0]], HexDigits(s[1..], width - 1), rest);
    }
  }

  lemma ItemSplit(t: string) returns (sign: string, u: string)
    ensures IsSign(sign) && t == sign + u && |sign| <= 1 && (sign != "" <==> IsSigned(t))
    ensures u == if IsSigned(t) then t[1..] else t
    ensures sign == "-" <==> IsSigned(t) && t[0] == '-'
  {
    if !IsSigned(t) {
      sign, u := "", t;
    } else {
      sign, u := if t[0] == '+' then "+" else "-", t[1..];
    }
  }

  lemma PrefixSplit(u: string) returns (prefix: string, v: string)
    ensures IsPrefix(prefix) && u == prefix + v && (prefix != "" <==> IsPrefixed(u))
    ensures |prefix| == (if IsPrefixed(u) then 2 else 0) && v == if IsPrefixed(u) then u[2..] else u
  {
    if !IsPrefixed(u) {
      prefix, v := "", u;
    } else {
      prefix, v := if u[1] == 'x' then "0x" else "0X", u[2..];
    }
  }

  lemma ConvertSplit(s: string) returns (blanks: string, sign: string, prefix: string, digits: string, rest: string)
    requires Convert(s).Some?
    ensures AllBlank(blanks) && IsItem(sign, prefix, digits, rest) && digits != []
    ensures s == blanks + (sign + (prefix + (digits + rest)))
  {
    blanks := BlanksSplit(s);
    var u, v;
    sign, u := ItemSplit(SkipBlanks(s));
    prefix, v := PrefixSplit(u);
    var width: nat := 4 - |sign| - |prefix|;
    digits := HexDigits(v, width);
    rest := DigitsSplit(v, width);
  }

  /** A text is converted to a number if and only if it is white space and an item with that number. */
  lemma ConvertIff(s: string, v: nat)
    ensures Convert(s) == Some(v) <==>
      exists blanks, sign, prefix, digits, rest ::
        && AllBlank(blanks) && IsItem(sign, prefix, digits, rest) && digits != []
        && s == blanks + (sign + (prefix + (digits + rest))) && v == WithSign(sign == "-", HexNumber(digits))
  {
    if Convert(s).Some? {
      var blanks, sign, prefix, digits, rest := ConvertSplit(s);
      ItemConverted(blanks, sign, prefix, digits, rest);
    }
    forall blanks, sign, prefix, digits, rest | AllBlank(blanks) && IsItem(sign, prefix, digits, rest) && digits != []
        && s == blanks + (sign + (prefix + (digits + rest)))
      ensures Convert(s) == Some(WithSign(sign == "-", HexNumber(digits)))
    {
      ItemConverted(blanks, sign, prefix, digits, rest);
    }
  }

  // ---------- What is not looked at ----------

  /** A character at which every conversion ends. */
  predicate Stops(end: string) {
    end == [] || !(IsBlank(end[0]) || IsSigned(end) || IsHex(end[0]) || end[0] == 'x' || end[0] == 'X')
  }

  lemma {:induction false} BlanksFront(s: string, end: string)
    requires Stops(end)
    ensures SkipBlanks(s + end) == SkipBlanks(s) + end
  {
    if s == [] {
      assert s + end == end && [] + end == end;
    } else if IsBlank(s[0]) {
      BlanksFront(s[1..], end);
      assert (s + end)[1..] == s[1..] + end;
    }
  }

  lemma {:induction false} DigitsFront(s: string, end: string, width: nat)
    requires Stops(end)
    ensures HexDigits(s + end, width) == HexDigits(s, width)
  {
    if s == [] {
      assert s + end == end;
    } else if width > 0 && IsHex(s[0]) {
      DigitsFront(s[1..], end, width - 1);
      assert (s + end)[1..] == s[1..] + end;
    }
  }

  /** What is behind such a character makes no difference. */
  lemma ConvertFront(s: string, end: string)
    requires Stops(end)
    ensures Convert(s + end) == Convert(s)
  {
    BlanksFront(s, end);
    var t := SkipBlanks(s);
    assert t == [] ==> t + end == end;
    assert t != [] ==> (t + end)[1..] == t[1..] + end;
    var u, width := if IsSigned(t) then t[1..] else t, if IsSigned(t) then 3 else 4;
    PrefixFront(u, end);
    if IsPrefixed(u) {
      DigitsFront(u[2..], end, width - 2);
    } else {
      DigitsFront(u, end, width);
    }
  }

  lemma PrefixFront(u: string, end: string)
    requires Stops(end)
    ensures IsPrefixed(u + end) == IsPrefixed(u) && (IsPrefixed(u) ==> (u + end)[2..] == u[2..] + end)
  {
    assert u == [] ==> u + end == end;
    assert |u| == 1 && end != [] ==> (u + end)[1] == end[0];
  }

  /** Two characters that a negative number begins with: neither ends a string. */
  lemma NegativeBegins(s: string, end: string)
    requires |s| >= 2 && Convert(s + end).Some? && Convert(s + end).value >= 0x1_0000
    ensures forall i :: 0 <= i < 2 ==> IsBlank(s[i]) || IsHex(s[i]) || s[i] == '-'
  {
    var t := SkipBlanks(s + end);
    var u, width := if IsSigned(t) then t[1..] else t, if IsSigned(t) then 3 else 4;
    HexNumberBound(if IsPrefixed(u) then HexDigits(u[2..], width - 2) else HexDigits(u, width));
    assert IsSigned(t) && t[0] == '-' && u != [] && IsHex(u[0]);
    if IsBlank(s[0]) {
      assert SkipBlanks((s + end)[1..]) == t;
    }
  }
}
