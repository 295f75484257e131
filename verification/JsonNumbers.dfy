/** Which decimal a number in a JSON text is read as by parse_number of 3rd/json/src/cJSON.c. */
module JsonNumbers {
  import opened Characters
  import opened JsonText

  predicate Decimals(s: string) { forall i :: 0 <= i < |s| ==> IsDigit(s[i]) }

  /** The number that digits stand for, the most significant first. */
  function ValueOf(s: string): nat
    requires Decimals(s)
  {
    if s == [] then 0 else 10 * ValueOf(s[..|s| - 1]) + (s[|s| - 1] - '0') as nat
  }

  lemma ValueNext(s: string, c: char)
    requires Decimals(s) && IsDigit(c)
    ensures Decimals(s + [c]) && ValueOf(s + [c]) == 10 * ValueOf(s) + (c - '0') as nat
  {
    assert (s + [c])[..|s|] == s;
  }

  /** Digits are read up to the first character that is none. */
  lemma {:induction false} DigitsRead(before: string, s: string, rest: string)
    requires Decimals(before) && Decimals(s) && !IsDigit(Peek(rest))
    ensures Decimals(before + s) && ReadDigits(s + rest, ValueOf(before)) == Digits(ValueOf(before + s), rest)
    decreases |s|
  {
    if s == [] {
      assert before + s == before && s + rest == rest;
    } else {
      ValueNext(before, s[0]);
      DigitsRead(before + [s[0]], s[1..], rest);
      assert (before + [s[0]]) + s[1..] == before + s;
      assert (s + rest)[1..] == s[1..] + rest && (s + rest)[0] == s[0];
    }
  }

  /** The digits before the point: no zero in front of others. */
  predicate WholePart(s: string) { s == "0" || (s != [] && Decimals(s) && s[0] != '0') }

  /** What the parser accepts for them: also one zero in front, and nothing. */
  predicate Leading(s: string) { Decimals(s) && (|s| >= 2 && s[0] == '0' ==> s[1] != '0') }

  /** Nothing follows that would be read along. */
  predicate EndsWhole(s: string, rest: string) {
    if s == "" || s == "0" then !('1' <= Peek(rest) <= '9') && (s == "" ==> Peek(rest) != '0') else !IsDigit(Peek(rest))
  }

  lemma {:induction false} ZeroInFront(s: string)
    requires Decimals(s)
    ensures Decimals(['0'] + s) && ValueOf(['0'] + s) == ValueOf(s)
  {
    if s == [] {
      ValueNext([], '0');
      assert ['0'] + s == [] + ['0'];
    } else {
      var front, last := s[..|s| - 1], s[|s| - 1];
      ZeroInFront(front);
      ValueNext(['0'] + front, last);
      ValueNext(front, last);
      assert front + [last] == s && (['0'] + front) + [last] == ['0'] + s;
    }
  }

  lemma WholeRead(s: string, rest: string)
    requires Leading(s) && EndsWhole(s, rest)
    ensures ReadWhole(s + rest) == Digits(ValueOf(s), rest)
  {
    assert ValueOf([]) == 0;
    if s == [] {
      assert s + rest == rest;
    } else {
      assert (s + rest)[0] == s[0] && (s + rest)[1..] == s[1..] + rest;
      if s[0] == '0' {
        ZeroInFront(s[1..]);
        assert ['0'] + s[1..] == s;
        if |s| == 1 {
          assert s[1..] + rest == rest;
        } else {
          DigitsRead([], s[1..], rest);
          assert [] + s[1..] == s[1..];
        }
      } else {
        DigitsRead([], s, rest);
        assert [] + s == s;
      }
    }
  }

  function FractionText(fraction: string): string { if fraction == [] then [] else ['.'] + fraction }

  lemma PointRead(whole: string, fraction: string, rest: string, t: string)
    requires Decimals(whole) && Decimals(fraction) && fraction != [] && !IsDigit(Peek(rest))
    requires t == ['.'] + (fraction + rest)
    ensures Decimals(whole + fraction)
    ensures ReadFraction(Digits(ValueOf(whole), t)) == Digits(ValueOf(whole + fraction), rest)
  {
    DigitsRead(whole, fraction, rest);
    assert t[0] == '.' && t[1..] == fraction + rest && (fraction + rest)[0] == fraction[0];
  }

  predicate StartsFraction(s: string) { Peek(s) == '.' && IsDigit(Peek(s[1..])) }

  lemma FractionRead(whole: string, fraction: string, rest: string)
    requires Decimals(whole) && Decimals(fraction)
    requires if fraction == [] then !StartsFraction(rest) else !IsDigit(Peek(rest))
    ensures Decimals(whole + fraction)
    ensures ReadFraction(Digits(ValueOf(whole), FractionText(fraction) + rest))
      == Digits(ValueOf(whole + fraction), rest)
  {
    if fraction == [] {
      assert whole + fraction == whole && FractionText(fraction) + rest == rest;
    } else {
      assert FractionText(fraction) + rest == ['.'] + (fraction + rest);
      PointRead(whole, fraction, rest, FractionText(fraction) + rest);
    }
  }

  /** What follows e or E; the parser accepts an exponent without digits. */
  datatype Exponent = NoExponent | Exponent(e: char, sign: string, digits: string)

  predicate ValidExponent(x: Exponent) {
    x.NoExponent? || ((x.e == 'e' || x.e == 'E') && x.sign in {"", "+", "-"} && Decimals(x.digits))
  }

  function ExponentText(x: Exponent): string { if x.NoExponent? then [] else [x.e] + (x.sign + x.digits) }

  function PowerOf(x: Exponent): int
    requires ValidExponent(x)
  {
    if x.NoExponent? then 0 else if x.sign == "-" then 0 - ValueOf(x.digits) else ValueOf(x.digits)
  }

  lemma PowerIs(s: string, u: string, d: Digits, exponent: int)
    requires (Peek(s) == 'e' || Peek(s) == 'E') && d == ReadDigits(u, 0)
    requires u == if Peek(s[1..]) == '-' || Peek(s[1..]) == '+' then s[2..] else s[1..]
    requires exponent == if Peek(s[1..]) == '-' then 0 - d.value else d.value
    ensures ReadExponent(s) == Power(ToInt32(exponent), d.rest)
  {
  }

  lemma SignRead(e: char, sign: string, u: string, t: string)
    requires sign in {"", "+", "-"} && (sign == "" ==> Peek(u) != '-' && Peek(u) != '+') && t == [e] + (sign + u)
    ensures u == if Peek(t[1..]) == '-' || Peek(t[1..]) == '+' then t[2..] else t[1..]
    ensures (Peek(t[1..]) == '-') == (sign == "-")
  {
    assert t[1..] == sign + u;
  }

  lemma ExponentDigits(digits: string, rest: string)
    requires Decimals(digits) && !IsDigit(Peek(rest))
    ensures ReadDigits(digits + rest, 0) == Digits(ValueOf(digits), rest)
    ensures Peek(digits + rest) == if digits == [] then Peek(rest) else digits[0]
  {
    DigitsRead([], digits, rest);
    assert [] + digits == digits && ValueOf([]) == 0;
    assert digits == [] ==> digits + rest == rest;
  }

  lemma PowerRead(e: char, sign: string, digits: string, rest: string)
    requires (e == 'e' || e == 'E') && sign in {"", "+", "-"} && Decimals(digits)
    requires !IsDigit(Peek(rest)) && (sign == "" && digits == [] ==> Peek(rest) != '-' && Peek(rest) != '+')
    ensures ReadExponent([e] + (sign + (digits + rest)))
      == Power(ToInt32(if sign == "-" then 0 - ValueOf(digits) else ValueOf(digits)), rest)
  {
    var t, u := [e] + (sign + (digits + rest)), digits + rest;
    ExponentDigits(digits, rest);
    SignRead(e, sign, u, t);
    PowerIs(t, u, Digits(ValueOf(digits), rest), if sign == "-" then 0 - ValueOf(digits) else ValueOf(digits));
  }

  /** Nothing follows that would be read along. */
  predicate EndsExponent(x: Exponent, rest: string) {
    if x.NoExponent? then Peek(rest) != 'e' && Peek(rest) != 'E'
    else !IsDigit(Peek(rest)) && (x.sign == "" && x.digits == [] ==> Peek(rest) != '-' && Peek(rest) != '+')
  }

  lemma ExponentRead(x: Exponent, rest: string)
    requires ValidExponent(x) && EndsExponent(x, rest)
    ensures ReadExponent(ExponentText(x) + rest) == Power(ToInt32(PowerOf(x)), rest)
  {
    if x.NoExponent? {
      assert ExponentText(x) + rest == rest;
    } else {
      PowerRead(x.e, x.sign, x.digits, rest);
      assert ExponentText(x) + rest == [x.e] + (x.sign + (x.digits + rest));
    }
  }

  /** The text behind a number in a list. */
  predicate EndsText(rest: string) {
    !IsDigit(Peek(rest)) && Peek(rest) !in {'-', '+', '.', 'e', 'E'}
  }

  /** The text behind any number: nothing that would be read along. */
  predicate EndsNumeral(whole: string, fraction: string, x: Exponent, rest: string) {
    && EndsExponent(x, rest)
    && (x.NoExponent? ==>
          if fraction == [] then EndsWhole(whole, rest) && !StartsFraction(rest) else !IsDigit(Peek(rest)))
  }

  function NumberText(negative: bool, whole: string, fraction: string, x: Exponent, rest: string): string {
    (if negative then "-" else "") + (whole + (FractionText(fraction) + (ExponentText(x) + rest)))
  }

  lemma ParseIs(t: string, u: string, negative: bool, whole: Digits, all: Digits, scale: int, power: Power)
    requires negative == (Peek(t) == '-') && u == (if negative then t[1..] else t)
    requires whole == ReadWhole(u) && all == ReadFraction(whole) && power == ReadExponent(all.rest)
    requires scale == if all.rest == whole.rest then 0 else |whole.rest| - 1 - |all.rest|
    ensures ParseNumber(t) == Parsed.Ok(Number(negative, all.value, scale, power.exponent), power.rest)
  {
  }

  lemma SignOf(negative: bool, digits: string, t: string)
    requires (!negative ==> Peek(digits) != '-') && t == (if negative then "-" else "") + digits
    ensures negative == (Peek(t) == '-') && digits == (if negative then t[1..] else t)
  {
  }

  lemma ScaleOf(fraction: string, tail: string)
    ensures var t := FractionText(fraction) + tail;
      |fraction| == if tail == t then 0 else |t| - 1 - |tail|
  {
  }

  lemma BehindWhole(whole: string, fraction: string, x: Exponent, rest: string)
    requires Leading(whole) && Decimals(fraction) && ValidExponent(x) && EndsNumeral(whole, fraction, x, rest)
    ensures var tail := ExponentText(x) + rest;
      && (if fraction == [] then !StartsFraction(tail) else !IsDigit(Peek(tail)))
      && EndsWhole(whole, FractionText(fraction) + tail)
  {
    var tail := ExponentText(x) + rest;
    assert Peek(tail) == if x.NoExponent? then Peek(rest) else x.e;
    assert x.NoExponent? ==> tail == rest;
    assert Peek(FractionText(fraction) + tail) == if fraction == [] then Peek(tail) else '.';
  }

  /** The parser accepts a number without digits before the point only behind a minus sign. */
  predicate AcceptedNumber(negative: bool, whole: string, fraction: string, x: Exponent) {
    Leading(whole) && Decimals(fraction) && ValidExponent(x) && (whole == "" ==> negative)
  }

  /** A number is read as the digits before and after the point, the number of those after it, and the exponent with
      its sign: an integer if the last two are zero, and otherwise the double of that decimal. */
  lemma NumberRead(negative: bool, whole: string, fraction: string, x: Exponent, rest: string)
    requires AcceptedNumber(negative, whole, fraction, x) && EndsNumeral(whole, fraction, x, rest)
    ensures Decimals(whole + fraction)
    ensures ParseNumber(NumberText(negative, whole, fraction, x, rest))
      == Parsed.Ok(Number(negative, ValueOf(whole + fraction), |fraction|, ToInt32(PowerOf(x))), rest)
  {
    var tail := ExponentText(x) + rest;
    var behind := FractionText(fraction) + tail;
    BehindWhole(whole, fraction, x, rest);
    WholeRead(whole, behind);
    FractionRead(whole, fraction, tail);
    ExponentRead(x, rest);
    ScaleOf(fraction, tail);
    assert whole != [] ==> (whole + behind)[0] == whole[0];
    SignOf(negative, whole + behind, NumberText(negative, whole, fraction, x, rest));
    ParseIs(NumberText(negative, whole, fraction, x, rest), whole + behind, negative, Digits(ValueOf(whole), behind),
      Digits(ValueOf(whole + fraction), tail), |fraction|, Power(ToInt32(PowerOf(x)), rest));
  }

  // ---------- Every number that is accepted ----------

  /** The digits at the front. */
  function Front(s: string): (n: nat)
    ensures n <= |s| && Decimals(s[..n]) && !IsDigit(Peek(s[n..]))
  {
    if IsDigit(Peek(s)) then Front(s[1..]) + 1 else 0
  }

  lemma WholeSplit(s: string) returns (whole: string, rest: string)
    ensures s == whole + rest && Leading(whole) && EndsWhole(whole, rest)
    ensures IsDigit(Peek(s)) ==> whole != ""
  {
    var t := if Peek(s) == '0' then s[1..] else s;
    var n := if '1' <= Peek(t) <= '9' then Front(t) else 0;
    whole, rest := (if Peek(s) == '0' then ['0'] else []) + t[..n], t[n..];
  }

  lemma FractionSplit(s: string) returns (fraction: string, rest: string)
    ensures s == FractionText(fraction) + rest && Decimals(fraction)
    ensures if fraction == [] then !StartsFraction(rest) else !IsDigit(Peek(rest))
    ensures fraction == [] ==> rest == s
    ensures fraction != [] ==> Peek(s) == '.'
  {
    if StartsFraction(s) {
      var t := s[1..];
      var n := Front(t);
      fraction, rest := t[..n], t[n..];
      assert fraction + rest == t && s == ['.'] + t;
      assert (['.'] + fraction) + rest == ['.'] + (fraction + rest);
    } else {
      fraction, rest := [], s;
    }
  }

  lemma ExponentSplit(s: string) returns (x: Exponent, rest: string)
    ensures s == ExponentText(x) + rest && ValidExponent(x) && EndsExponent(x, rest)
    ensures x.NoExponent? ==> rest == s
  {
    if Peek(s) == 'e' || Peek(s) == 'E' {
      var sign, t := SignSplit(s[1..]);
      var n := Front(t);
      x, rest := Exponent(s[0], sign, t[..n]), t[n..];
      JoinExponent(s[0], sign, t[..n], rest);
      assert t[..n] + rest == t && s == [s[0]] + s[1..];
    } else {
      x, rest := NoExponent, s;
    }
  }

  lemma SignSplit(s: string) returns (sign: string, rest: string)
    ensures s == sign + rest && sign in {"", "+", "-"} && (sign == "" ==> Peek(rest) != '-' && Peek(rest) != '+')
  {
    if Peek(s) == '-' || Peek(s) == '+' {
      sign, rest := [s[0]], s[1..];
    } else {
      sign, rest := "", s;
    }
  }

  lemma JoinExponent(e: char, sign: string, digits: string, rest: string)
    ensures ([e] + (sign + digits)) + rest == [e] + (sign + (digits + rest))
  {
  }

  lemma NumeralEnds(whole: string, fraction: string, x: Exponent, behind: string, tail: string, rest: string)
    requires EndsWhole(whole, behind) && EndsExponent(x, rest) && (x.NoExponent? ==> rest == tail)
    requires if fraction == [] then behind == tail && !StartsFraction(tail) else !IsDigit(Peek(tail))
    ensures EndsNumeral(whole, fraction, x, rest)
  {
  }

  lemma SignJoins(s: string)
    ensures var negative := Peek(s) == '-'; s == (if negative then "-" else "") + if negative then s[1..] else s
  {
  }

  /** What parse_number reads is a number of the grammar with its extensions. */
  lemma NumberSplit(s: string) returns (negative: bool, whole: string, fraction: string, x: Exponent, rest: string)
    requires Peek(s) == '-' || IsDigit(Peek(s))
    ensures AcceptedNumber(negative, whole, fraction, x) && EndsNumeral(whole, fraction, x, rest)
    ensures s == NumberText(negative, whole, fraction, x, rest)
  {
    negative := Peek(s) == '-';
    SignJoins(s);
    var behind, tail;
    whole, behind := WholeSplit(if negative then s[1..] else s);
    fraction, tail := FractionSplit(behind);
    x, rest := ExponentSplit(tail);
    NumeralEnds(whole, fraction, x, behind, tail, rest);
  }
}
