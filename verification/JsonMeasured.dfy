/** Whether the strings of a text fit their buffers depends on what follows the text only as far as the first pass over
    a string, which may run on behind it, comes to an end there. */
module JsonMeasured {
  import opened Collections
  import opened JsonAccepted
  import opened JsonBuffers
  import opened JsonGrammar
  import opened JsonNumbers
  import opened JsonStrings
  import opened JsonText

  /** The text up to its terminator ends in a backslash. */
  predicate Trailing(s: string) {
    Peek(s) != '\0' && if Peek(s[1..]) == '\0' then s[0] == '\\' else Trailing(s[1..])
  }

  /** Where the first pass ends in the one text, it ends in the other. */
  ghost predicate Safer(s: string, t: string) {
    forall skipping :: Room(s, skipping) >= 0 ==> Room(t, skipping) >= 0
  }

  lemma {:induction false} RoomJoin(a: string, s: string, t: string, skipping: bool)
    requires Safer(s, t) && Room(a + s, skipping) >= 0
    ensures Room(a + t, skipping) >= 0
  {
    if a == [] {
      assert a + s == s && a + t == t;
    } else {
      assert (a + s)[0] == a[0] == (a + t)[0] && (a + s)[1..] == a[1..] + s && (a + t)[1..] == a[1..] + t;
      if a[0] != '\0' && (skipping || a[0] != '\"') {
        RoomJoin(a[1..], s, t, !skipping && a[0] == '\\');
      }
    }
  }

  lemma SaferJoin(a: string, s: string, t: string)
    requires Safer(s, t)
    ensures Safer(a + s, a + t)
  {
    forall skipping | Room(a + s, skipping) >= 0 ensures Room(a + t, skipping) >= 0 {
      RoomJoin(a, s, t, skipping);
    }
  }

  lemma {:induction false} RoomEnds(s: string, skipping: bool)
    requires !Trailing(s) && (skipping ==> Peek(s) != '\0')
    ensures Room(s, skipping) >= 0
  {
    if Peek(s) != '\0' && (skipping || s[0] != '\"') {
      RoomEnds(s[1..], !skipping && s[0] == '\\');
    }
  }

  /** A text with a bracket at its end, and behind it a text in which the first pass ends. */
  lemma SaferText(s: string, y: string, c: char, v: string)
    requires NulFree(y) && (c == ']' || c == '}') && Room(v, false) >= 0
    ensures Safer(s, y + ([c] + v))
  {
    var t := [c] + v;
    assert t[1..] == v;
    forall skipping ensures Room(y + t, skipping) >= 0 {
      RoomOver(y, t, skipping);
    }
  }

  lemma FitsElsewhere(pieces: seq<Piece>, s: string, t: string)
    requires AcceptedPieces(pieces, UNSET) && Fits(pieces, s) && Safer(s, t)
    ensures Fits(pieces, t)
  {
    FitsIff(pieces, s);
    FitsIff(pieces, t);
  }

  /** A string that is not closed at the end of the text fits if it is closed. */
  lemma FitsClosed(pieces: seq<Piece>, s: string, t: string)
    requires AcceptedPieces(pieces, UNSET) && Fits(pieces, s) && Peek(s) == '\0' && Peek(t) == '\"'
    ensures Fits(pieces, t)
  {
    FitsIff(pieces, s);
    FitsIff(pieces, t);
  }

  lemma BehindFirstParts(elements: seq<Element>, rest: string)
    requires elements != []
    ensures BehindFirst(elements, rest)
      == (elements[0].after + if |elements| == 1 then [] else [','] + ElementsText(elements[1..])) + ([']'] + rest)
  {
    var close := [']'] + rest;
    if |elements| == 1 {
      assert elements[0].after + [] == elements[0].after;
    } else {
      JoinMore(elements[0].after, [','], ElementsText(elements[1..]), close);
    }
  }

  lemma BehindFieldParts(fields: seq<Field>, rest: string)
    requires fields != []
    ensures BehindField(fields, rest)
      == (fields[0].element.after + if |fields| == 1 then [] else [','] + FieldsText(fields[1..])) + (['}'] + rest)
  {
    var close := ['}'] + rest;
    if |fields| == 1 {
      assert fields[0].element.after + [] == fields[0].element.after;
    } else {
      JoinMore(fields[0].element.after, [','], FieldsText(fields[1..]), close);
    }
  }

  lemma SaferBehindFirst(elements: seq<Element>, s: string, t: string)
    requires elements != [] && Safer(s, t)
    ensures Safer(BehindFirst(elements, s), BehindFirst(elements, t))
  {
    var y := elements[0].after + if |elements| == 1 then [] else [','] + ElementsText(elements[1..]);
    BehindFirstParts(elements, s);
    BehindFirstParts(elements, t);
    SaferJoin([']'], s, t);
    SaferJoin(y, [']'] + s, [']'] + t);
  }

  lemma SaferBehindField(fields: seq<Field>, s: string, t: string)
    requires fields != [] && Safer(s, t)
    ensures Safer(BehindField(fields, s), BehindField(fields, t))
  {
    var y := fields[0].element.after + if |fields| == 1 then [] else [','] + FieldsText(fields[1..]);
    BehindFieldParts(fields, s);
    BehindFieldParts(fields, t);
    SaferJoin(['}'], s, t);
    SaferJoin(y, ['}'] + s, ['}'] + t);
  }

  lemma SaferBehindName(fields: seq<Field>, s: string, t: string)
    requires fields != [] && Safer(s, t)
    ensures Safer(BehindName(fields, s), BehindName(fields, t))
  {
    var f := fields[0];
    var value := Written(f.element.value);
    var x, y := BehindField(fields, s), BehindField(fields, t);
    SaferBehindField(fields, s, t);
    SaferJoin(value, x, y);
    SaferJoin(f.element.before, value + x, value + y);
    SaferJoin([':'], f.element.before + (value + x), f.element.before + (value + y));
    SaferJoin(f.after, [':'] + (f.element.before + (value + x)), [':'] + (f.element.before + (value + y)));
  }

  /** The strings of a value fit with another text behind it. */
  lemma {:induction false} Remeasured(e: Syntax, s: string, t: string)
    requires Accepted(e) && Measured(e, s) && Safer(s, t)
    ensures Measured(e, t)
    decreases e, 1
  {
    match e
    case Text(pieces) =>
      SaferJoin(['\"'], s, t);
      FitsElsewhere(pieces, ['\"'] + s, ['\"'] + t);
    case Open(pieces) => FitsElsewhere(pieces, s, t);
    case List(_, elements) => ElementsRemeasured(elements, s, t);
    case Record(_, fields) => FieldsRemeasured(fields, s, t);
    case _ =>
  }

  lemma {:induction false} ElementsRemeasured(elements: seq<Element>, s: string, t: string)
    requires AcceptedElements(elements) && MeasuredElements(elements, s) && Safer(s, t)
    ensures MeasuredElements(elements, t)
    decreases elements, 0
  {
    if elements != [] {
      assert AcceptedElement(elements[0]);
      SaferBehindFirst(elements, s, t);
      Remeasured(elements[0].value, BehindFirst(elements, s), BehindFirst(elements, t));
      ElementsRemeasured(elements[1..], s, t);
    }
  }

  lemma {:induction false} FieldsRemeasured(fields: seq<Field>, s: string, t: string)
    requires AcceptedFields(fields) && MeasuredFields(fields, s) && Safer(s, t)
    ensures MeasuredFields(fields, t)
    decreases fields, 0
  {
    if fields != [] {
      var f := fields[0];
      assert AcceptedField(f) && AcceptedElement(f.element);
      SaferBehindField(fields, s, t);
      SaferBehindName(fields, s, t);
      SaferJoin(['\"'], BehindName(fields, s), BehindName(fields, t));
      FitsElsewhere(f.name, ['\"'] + BehindName(fields, s), ['\"'] + BehindName(fields, t));
      Remeasured(f.element.value, BehindField(fields, s), BehindField(fields, t));
      FieldsRemeasured(fields[1..], s, t);
    }
  }

  // ---------- There is no terminator in a text of the grammar ----------

  lemma JoinNulFree(a: string, b: string)
    requires NulFree(a) && NulFree(b)
    ensures NulFree(a + b)
  {
  }

  lemma NumberNulFree(negative: bool, whole: string, fraction: string, power: Exponent)
    requires AcceptedNumber(negative, whole, fraction, power)
    ensures NulFree(NumberText(negative, whole, fraction, power, []))
  {
    var exponent := ExponentText(power) + [];
    assert NulFree(whole) && NulFree(FractionText(fraction)) && NulFree(exponent);
    JoinNulFree(FractionText(fraction), exponent);
    JoinNulFree(whole, FractionText(fraction) + exponent);
  }

  lemma {:induction false} WrittenNulFree(e: Syntax)
    requires Accepted(e)
    ensures NulFree(Written(e))
    decreases e, 1
  {
    match e
    case Word(value) =>
    case Numeral(negative, whole, fraction, power) => NumberNulFree(negative, whole, fraction, power);
    case Text(pieces) => PiecesNulFree(pieces, UNSET);
    case Open(pieces) => PiecesNulFree(pieces, UNSET);
    case List(_, elements) => ElementsNulFree(elements);
    case Record(_, fields) => FieldsNulFree(fields);
  }

  lemma {:induction false} ElementsNulFree(elements: seq<Element>)
    requires AcceptedElements(elements)
    ensures NulFree(ElementsText(elements))
    decreases elements, 0
  {
    if elements != [] {
      assert AcceptedElement(elements[0]);
      WrittenNulFree(elements[0].value);
      ElementsNulFree(elements[1..]);
    }
  }

  lemma FieldNulFree(f: Field)
    requires AcceptedField(f) && NulFree(PiecesText(f.name)) && NulFree(Written(f.element.value))
    requires Space(f.element.before) && Space(f.element.after)
    ensures NulFree(FieldText(f))
  {
    assert NulFree(ElementText(f.element));
    assert NulFree(StringText(f.name));
  }

  lemma {:induction false} FieldsNulFree(fields: seq<Field>)
    requires AcceptedFields(fields)
    ensures NulFree(FieldsText(fields))
    decreases fields, 0
  {
    if fields != [] {
      var f := fields[0];
      assert AcceptedField(f) && AcceptedElement(f.element);
      PiecesNulFree(f.name, UNSET);
      WrittenNulFree(f.element.value);
      FieldNulFree(f);
      FieldsNulFree(fields[1..]);
    }
  }
}
