/** The texts of RFC 8259 and what they stand for, with numbers of any size: exactly which of them the parser of
    3rd/json/src/cJSON.c reads as what they stand for. */
module JsonMeaning {
  import opened Bits
  import opened JsonBuffers
  import opened JsonDecimals
  import opened JsonGrammar
  import opened JsonNumbers
  import opened JsonStrings
  import opened JsonText

  /** A number is a decimal in lowest terms, so that the same number has the same value, and the characters of a string
      are in UTF-8. */
  datatype Value =
    | Nothing
    | Truth(b: bool)
    | Numeric(number: Scaled)
    | Characters(bytes: string)
    | Values(values: seq<Value>)
    | Entries(entries: seq<Entry>)

  datatype Entry = Entry(name: string, value: Value)

  // ---------- The standard ----------

  predicate Blank(s: string) { forall i :: 0 <= i < |s| ==> s[i] in {' ', '\t', '\n', '\r'} }

  predicate Standard(e: Syntax)
    decreases e, 1
  {
    match e
    case Word(value) => value.Null? || value.False? || value.True?
    case Numeral(_, whole, fraction, power) =>
      WholePart(whole) && Decimals(fraction) && ValidExponent(power) && (power.Exponent? ==> power.digits != [])
    case Text(pieces) => StandardPieces(pieces)
    case Open(_) => false
    case List(inside, elements) => Blank(inside) && StandardElements(elements)
    case Record(inside, fields) => Blank(inside) && StandardFields(fields)
  }

  predicate StandardElements(elements: seq<Element>)
    decreases elements, 0
  {
    elements == [] || (StandardElement(elements[0]) && StandardElements(elements[1..]))
  }

  predicate StandardElement(e: Element)
    decreases e, 2
  {
    Blank(e.before) && Standard(e.value) && Blank(e.after)
  }

  predicate StandardFields(fields: seq<Field>)
    decreases fields, 0
  {
    fields == [] || (StandardField(fields[0]) && StandardFields(fields[1..]))
  }

  predicate StandardField(f: Field)
    decreases f, 3
  {
    Blank(f.before) && StandardPieces(f.name) && Blank(f.after) && StandardElement(f.element)
  }

  /** The texts of the standard are accepted. */
  lemma {:induction false} StandardAccepts(e: Syntax)
    requires Standard(e)
    ensures Accepted(e) && !e.Open?
    decreases e, 1
  {
    match e
    case Word(_) =>
    case Numeral(_, _, _, _) =>
    case Text(pieces) => StandardAccepted(pieces, UNSET);
    case List(_, elements) => ElementsAccept(elements);
    case Record(_, fields) => FieldsAccept(fields);
  }

  lemma {:induction false} ElementsAccept(elements: seq<Element>)
    requires StandardElements(elements)
    ensures AcceptedElements(elements)
    decreases elements, 0
  {
    if elements != [] {
      StandardAccepts(elements[0].value);
      ElementsAccept(elements[1..]);
    }
  }

  lemma {:induction false} FieldsAccept(fields: seq<Field>)
    requires StandardFields(fields)
    ensures AcceptedFields(fields)
    decreases fields, 0
  {
    if fields != [] {
      assert StandardField(fields[0]) && StandardElement(fields[0].element);
      StandardAccepted(fields[0].name, UNSET);
      StandardAccepts(fields[0].element.value);
      FieldsAccept(fields[1..]);
    }
  }

  /** Their strings fit, whatever follows. */
  lemma {:induction false} StandardMeasured(e: Syntax, rest: string)
    requires Standard(e)
    ensures Accepted(e) && Measured(e, rest)
    decreases e, 1
  {
    StandardAccepts(e);
    match e
    case Text(pieces) => StandardFits(pieces, ['\"'] + rest);
    case List(_, elements) => ElementsMeasured(elements, rest);
    case Record(_, fields) => FieldsMeasured(fields, rest);
    case _ =>
  }

  lemma {:induction false} ElementsMeasured(elements: seq<Element>, rest: string)
    requires StandardElements(elements)
    ensures AcceptedElements(elements) && MeasuredElements(elements, rest)
    decreases elements, 0
  {
    ElementsAccept(elements);
    if elements != [] {
      StandardMeasured(elements[0].value, BehindFirst(elements, rest));
      ElementsMeasured(elements[1..], rest);
    }
  }

  lemma {:induction false} FieldsMeasured(fields: seq<Field>, rest: string)
    requires StandardFields(fields)
    ensures AcceptedFields(fields) && MeasuredFields(fields, rest)
    decreases fields, 0
  {
    FieldsAccept(fields);
    if fields != [] {
      assert StandardField(fields[0]) && StandardElement(fields[0].element);
      StandardFits(fields[0].name, ['\"'] + BehindName(fields, rest));
      StandardMeasured(fields[0].element.value, BehindField(fields, rest));
      FieldsMeasured(fields[1..], rest);
    }
  }

  // ---------- Meaning ----------

  function Signed(negative: bool, n: nat): int { if negative then 0 - n else n }

  function Meaning(e: Syntax): Value
    requires Standard(e)
    decreases e, 1
  {
    match e
    case Word(value) => if value.Null? then Nothing else Truth(value.True?)
    case Numeral(negative, whole, fraction, power) =>
      Numeric(Lowest(Signed(negative, ValueOf(whole + fraction)), PowerOf(power) - |fraction|))
    case Text(pieces) => Characters(StringCharacters(pieces))
    case List(_, elements) => Values(MeaningElements(elements))
    case Record(_, fields) => Entries(MeaningFields(fields))
  }

  function MeaningElements(elements: seq<Element>): seq<Value>
    requires StandardElements(elements)
    decreases elements, 0
  {
    if elements == [] then [] else [MeaningElement(elements[0])] + MeaningElements(elements[1..])
  }

  function MeaningElement(e: Element): Value
    requires StandardElement(e)
    decreases e, 2
  {
    Meaning(e.value)
  }

  function MeaningFields(fields: seq<Field>): seq<Entry>
    requires StandardFields(fields)
    decreases fields, 0
  {
    if fields == [] then [] else [MeaningField(fields[0])] + MeaningFields(fields[1..])
  }

  function MeaningField(f: Field): Entry
    requires StandardField(f)
    decreases f, 3
  {
    Entry(StringCharacters(f.name), MeaningElement(f.element))
  }

  /** What a tree says: a stored integer is the u64, or the int64 with the same bits if it is marked as signed. */
  function Stored(v: Json): Value
    decreases v
  {
    match v
    case Null => Nothing
    case False => Truth(false)
    case True => Truth(true)
    case Int(value, signed) => Numeric(Lowest(if signed then ToInt64(value) else value, 0))
    case Double(negative, mantissa, exponent) => Numeric(Lowest(Signed(negative, mantissa), exponent))
    case Str(text) => Characters(text)
    case Array(items) => Values(StoredItems(items))
    case Object(members) => Entries(StoredMembers(members))
  }

  function StoredItems(items: seq<Json>): seq<Value>
    decreases items
  {
    if items == [] then [] else [Stored(items[0])] + StoredItems(items[1..])
  }

  function StoredMembers(members: seq<Member>): seq<Entry>
    decreases members
  {
    if members == [] then [] else [StoredMember(members[0])] + StoredMembers(members[1..])
  }

  function StoredMember(m: Member): Entry
    decreases m
  {
    Entry(m.name, Stored(m.value))
  }

  // ---------- What is read as what it stands for ----------

  /** The integers that fit: below 2^64, and with a minus sign up to 2^63. */
  predicate FitsWord(negative: bool, n: nat) {
    if negative then n <= 0x8000_0000_0000_0000 else n < 0x1_0000_0000_0000_0000
  }

  predicate FitsInt(x: int) { -0x8000_0000 <= x < 0x8000_0000 }

  /** Integers and exponents fit, other than those of zero, and strings have no escape that is dropped or misread. */
  predicate Exact(e: Syntax)
    requires Standard(e)
    decreases e, 1
  {
    match e
    case Word(_) => true
    case Numeral(negative, whole, fraction, power) =>
      var n := ValueOf(whole + fraction);
      n != 0 ==> FitsInt(PowerOf(power)) && (fraction == [] && PowerOf(power) == 0 ==> FitsWord(negative, n))
    case Text(pieces) => KeptPieces(pieces)
    case List(_, elements) => ExactElements(elements)
    case Record(_, fields) => ExactFields(fields)
  }

  predicate ExactElements(elements: seq<Element>)
    requires StandardElements(elements)
    decreases elements, 0
  {
    elements == [] || (ExactElement(elements[0]) && ExactElements(elements[1..]))
  }

  predicate ExactElement(e: Element)
    requires StandardElement(e)
    decreases e, 2
  {
    Exact(e.value)
  }

  predicate ExactFields(fields: seq<Field>)
    requires StandardFields(fields)
    decreases fields, 0
  {
    fields == [] || (ExactField(fields[0]) && ExactFields(fields[1..]))
  }

  predicate ExactField(f: Field)
    requires StandardField(f)
    decreases f, 3
  {
    KeptPieces(f.name) && ExactElement(f.element)
  }

  /** The integer that is stored for the digits of n. */
  function Kept(negative: bool, n: nat): int {
    var v := Number(negative, n, 0, 0).value;
    if negative then ToInt64(v) else v
  }

  /** It is the one of the text if and only if that fits. */
  lemma KeptIff(negative: bool, n: nat)
    ensures Kept(negative, n) == Signed(negative, n) <==> FitsWord(negative, n)
    ensures -0x1_0000_0000_0000_0000 < Kept(negative, n) < 0x1_0000_0000_0000_0000
  {
    var m := 0x1_0000_0000_0000_0000;
    if FitsWord(negative, n) {
      DivModUnique(Signed(negative, n), m, if negative && n > 0 then -1 else 0,
        if negative && n > 0 then m - n else n);
    } else {
      DivModBounds(n, m);
    }
  }

  /** The stored integer is the integer of the text if and only if that fits. */
  lemma IntegerIff(negative: bool, n: nat)
    ensures Stored(Number(negative, n, 0, 0)) == Numeric(Lowest(Signed(negative, n), 0)) <==> FitsWord(negative, n)
  {
    KeptIff(negative, n);
    SameExponent(Kept(negative, n), Signed(negative, n), 0);
  }

  /** What an integer loses in 64 bits is a multiple of 2^64. */
  lemma KeptLow(negative: bool, n: nat) returns (w: int)
    ensures Signed(negative, n) == Kept(negative, n) + w * 0x1_0000_0000_0000_0000
    ensures Signed(negative, n) % 0x1_0000_0000_0000_0000 == 0 ==> Kept(negative, n) == 0
  {
    var x, m := Signed(negative, n), 0x1_0000_0000_0000_0000;
    w := x / m + if negative && x % m >= 0x8000_0000_0000_0000 then 1 else 0;
  }

  /** An exponent that does not fit and is zero in 32 bits makes an integer of another number. */
  lemma WrappedInteger(negative: bool, n: nat, power: int)
    requires n != 0 && ToInt32(power) == 0 && !FitsInt(power)
    ensures Stored(Number(negative, n, 0, 0)) != Numeric(Lowest(Signed(negative, n), power))
  {
    KeptIff(negative, n);
    var w := KeptLow(negative, n);
    NotShifted(Kept(negative, n), Signed(negative, n), power, w);
  }

  lemma NumeralIff(negative: bool, n: nat, scale: nat, power: int)
    ensures Stored(Number(negative, n, scale, ToInt32(power))) == Numeric(Lowest(Signed(negative, n), power - scale))
      <==> (n != 0 ==> FitsInt(power) && (scale == 0 && power == 0 ==> FitsWord(negative, n)))
  {
    var kept := ToInt32(power);
    assert FitsInt(power) <==> kept == power;
    if n == 0 {
      IntegerIff(negative, n);
    } else if scale != 0 || kept != 0 {
      if kept < power {
        OtherExponent(Signed(negative, n), kept - scale, power - scale);
      } else if kept > power {
        OtherExponent(Signed(negative, n), power - scale, kept - scale);
      }
    } else if power == 0 {
      IntegerIff(negative, n);
    } else {
      WrappedInteger(negative, n, power);
    }
  }

  lemma {:induction false} MeaningIff(e: Syntax)
    requires Standard(e)
    ensures Accepted(e)
    ensures Stored(Tree(e)) == Meaning(e) <==> Exact(e)
    decreases e, 1
  {
    StandardAccepts(e);
    match e
    case Word(_) =>
    case Numeral(negative, whole, fraction, power) =>
      NumeralIff(negative, ValueOf(whole + fraction), |fraction|, PowerOf(power));
    case Text(pieces) => PiecesIff(pieces, UNSET);
    case List(_, elements) => ElementsIff(elements);
    case Record(_, fields) => FieldsIff(fields);
  }

  lemma ConsSame<T>(x: T, a: seq<T>, y: T, b: seq<T>)
    ensures [x] + a == [y] + b <==> x == y && a == b
  {
    if [x] + a == [y] + b {
      assert ([x] + a)[0] == x && ([x] + a)[1..] == a && ([y] + b)[0] == y && ([y] + b)[1..] == b;
    }
  }

  lemma StoredItemsCons(v: Json, items: seq<Json>)
    ensures StoredItems([v] + items) == [Stored(v)] + StoredItems(items)
  {
    assert ([v] + items)[1..] == items;
  }

  lemma StoredMembersCons(m: Member, members: seq<Member>)
    ensures StoredMembers([m] + members) == [StoredMember(m)] + StoredMembers(members)
  {
    assert ([m] + members)[1..] == members;
  }

  lemma {:induction false} ElementsIff(elements: seq<Element>)
    requires StandardElements(elements)
    ensures AcceptedElements(elements)
    ensures StoredItems(TreeElements(elements)) == MeaningElements(elements) <==> ExactElements(elements)
    decreases elements, 0
  {
    ElementsAccept(elements);
    if elements != [] {
      var e, more := elements[0], elements[1..];
      MeaningIff(e.value);
      ElementsIff(more);
      StoredItemsCons(TreeElement(e), TreeElements(more));
      ConsSame(Stored(TreeElement(e)), StoredItems(TreeElements(more)), MeaningElement(e), MeaningElements(more));
    }
  }

  lemma FieldIff(f: Field)
    requires StandardField(f) && AcceptedField(f)
    requires Stored(TreeElement(f.element)) == MeaningElement(f.element) <==> ExactElement(f.element)
    ensures StoredMember(TreeField(f)) == MeaningField(f) <==> ExactField(f)
  {
    PiecesIff(f.name, UNSET);
  }

  lemma {:induction false} FieldsIff(fields: seq<Field>)
    requires StandardFields(fields)
    ensures AcceptedFields(fields)
    ensures StoredMembers(TreeFields(fields)) == MeaningFields(fields) <==> ExactFields(fields)
    decreases fields, 0
  {
    FieldsAccept(fields);
    if fields != [] {
      var f, more := fields[0], fields[1..];
      assert StandardField(f) && StandardElement(f.element);
      MeaningIff(f.element.value);
      FieldIff(f);
      FieldsIff(more);
      StoredMembersCons(TreeField(f), TreeFields(more));
      ConsSame(StoredMember(TreeField(f)), StoredMembers(TreeFields(more)), MeaningField(f), MeaningFields(more));
    }
  }

  /** cJSON_Parse of a text of RFC 8259: always a tree, which says what the text stands for if and only if its integers
      fit and its strings have no escape of NUL and no pair with bit 6 set in the first half. */
  lemma StandardIff(e: Syntax, before: string, after: string)
    requires Standard(e) && Blank(before) && Blank(after)
    ensures Accepted(e) && Parse(before + (Written(e) + after)) == Ok(Tree(e), after)
    ensures Stored(Tree(e)) == Meaning(e) <==> Exact(e)
  {
    MeaningIff(e);
    StandardMeasured(e, after);
    TextParsed(e, before, after);
  }
}
