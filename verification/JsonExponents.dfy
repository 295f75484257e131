/** A number of RFC 8259 whose exponent does not fit an int. */
module JsonExponents {
  import opened Bits
  import opened Characters
  import opened JsonGrammar
  import opened JsonMeaning
  import opened JsonNumbers
  import JsonRoundTrip
  import opened JsonText

  lemma DecimalNext(n: nat, front: string, d: nat)
    requires n > 0 && d < 10 && Decimal(n) == front
    ensures Decimal(10 * n + d) == front + [Digit(d)]
  {
    DivModUnique(10 * n + d, 10, n, d);
  }

  lemma BigExponent(digits: string, power: nat)
    requires digits == "4294967296" && power == 4294967296
    ensures Decimal(power) == digits
  {
    DecimalNext(4, "4", 2);
    DecimalNext(42, "42", 9);
    DecimalNext(429, "429", 4);
    DecimalNext(4294, "4294", 9);
    DecimalNext(42949, "42949", 6);
    DecimalNext(429496, "429496", 7);
    DecimalNext(4294967, "4294967", 2);
    DecimalNext(42949672, "42949672", 9);
    DecimalNext(429496729, "429496729", 6);
  }

  function PowerOfTen(one: string, digits: string): Syntax { Numeral(false, one, [], Exponent('e', "", digits)) }

  lemma PowerText(one: string, digits: string, text: string)
    requires text == one + (['e'] + digits)
    ensures Written(PowerOfTen(one, digits)) == text
  {
    assert "" + (one + ([] + ((['e'] + ("" + digits)) + []))) == text;
  }

  lemma PowerParts(one: string, digits: string, power: nat)
    requires one == Decimal(1) && digits == Decimal(power)
    ensures var e := PowerOfTen(one, digits);
      Standard(e) && Accepted(e) && Tree(e) == Number(false, 1, 0, ToInt32(power)) && (Exact(e) <==> FitsInt(power))
  {
    JsonRoundTrip.DecimalIs(1);
    JsonRoundTrip.DecimalIs(power);
    assert one + [] == one;
  }

  lemma PowerParsed(e: Syntax, text: string, v: Json)
    requires Standard(e) && Accepted(e) && Written(e) == text && Tree(e) == v
    ensures Parse(text) == Ok(v, [])
  {
    StandardMeasured(e, []);
    TextParsed(e, [], []);
    assert [] + (text + []) == text;
  }

  /** The text 1e4294967296 of RFC 8259 is read as 1. */
  lemma ExponentBreaks(power: nat, one: string, digits: string, text: string)
    requires power == 4294967296 && one == "1" && digits == "4294967296" && text == one + (['e'] + digits)
    ensures var e := PowerOfTen(one, digits); Standard(e) && Written(e) == text && !Exact(e)
    ensures Parse(text) == Ok(Int(1, false), [])
  {
    BigExponent(digits, power);
    DivModUnique(power, 0x1_0000_0000, 1, 0);
    PowerText(one, digits, text);
    PowerParts(one, digits, power);
    PowerParsed(PowerOfTen(one, digits), text, Int(1, false));
  }
}
