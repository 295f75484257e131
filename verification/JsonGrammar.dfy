/** The texts that the parser of 3rd/json/src/cJSON.c accepts: the grammar of RFC 8259 with extensions, which are any
    control character as white space or in a string, any letter behind a backslash, halves of surrogate pairs, Unicode
    escapes with anything that sscanf converts, a missing quote at the end of the text, and numbers like "-" and
    "01". */
module JsonGrammar {
  import opened Characters
  import opened Collections
  import opened JsonNumbers
  import opened JsonStrings
  import opened JsonText

  // ---------- Syntax ----------

  /** Open is a string whose closing quote is missing. */
  datatype Syntax =
    | Word(value: Json)
    | Numeral(negative: bool, whole: string, fraction: string, power: Exponent)
    | Text(pieces: seq<Piece>)
    | Open(pieces: seq<Piece>)
    | List(inside: string, elements: seq<Element>)
    | Record(inside: string, fields: seq<Field>)

  /** A value with the white space around it. */
  datatype Element = Element(before: string, value: Syntax, after: string)

  datatype Field = Field(before: string, name: seq<Piece>, after: string, element: Element)

  predicate Space(s: string) { forall i :: 0 <= i < |s| ==> '\0' < s[i] <= ' ' }

  predicate Accepted(e: Syntax)
    decreases e, 1
  {
    match e
    case Word(value) => value.Null? || value.False? || value.True?
    case Numeral(negative, whole, fraction, power) => AcceptedNumber(negative, whole, fraction, power)
    case Text(pieces) => AcceptedPieces(pieces, UNSET)
    case Open(pieces) => AcceptedPieces(pieces, UNSET)
    case List(inside, elements) => Space(inside) && AcceptedElements(elements)
    case Record(inside, fields) => Space(inside) && AcceptedFields(fields)
  }

  predicate AcceptedElements(elements: seq<Element>)
    decreases elements, 0
  {
    elements == [] || (AcceptedElement(elements[0]) && AcceptedElements(elements[1..]))
  }

  predicate AcceptedElement(e: Element)
    decreases e, 2
  {
    Space(e.before) && Accepted(e.value) && !e.value.Open? && Space(e.after)
  }

  predicate AcceptedFields(fields: seq<Field>)
    decreases fields, 0
  {
    fields == [] || (AcceptedField(fields[0]) && AcceptedFields(fields[1..]))
  }

  predicate AcceptedField(f: Field)
    decreases f, 3
  {
    Space(f.before) && AcceptedPieces(f.name, UNSET) && Space(f.after) && AcceptedElement(f.element)
  }

  // ---------- Text ----------

  function WordText(value: Json): string {
    if value.Null? then "null" else if value.False? then "false" else "true"
  }

  function Written(e: Syntax): string
    decreases e, 1
  {
    match e
    case Word(value) => WordText(value)
    case Numeral(negative, whole, fraction, power) => NumberText(negative, whole, fraction, power, [])
    case Text(pieces) => StringText(pieces)
    case Open(pieces) => ['\"'] + PiecesText(pieces)
    case List(inside, elements) => ['['] + (if elements == [] then inside else ElementsText(elements)) + [']']
    case Record(inside, fields) => ['{'] + (if fields == [] then inside else FieldsText(fields)) + ['}']
  }

  function ElementText(e: Element): string
    decreases e, 2
  {
    e.before + Written(e.value) + e.after
  }

  function ElementsText(elements: seq<Element>): string
    decreases elements, 0
  {
    if elements == [] then [] else
      ElementText(elements[0]) + if |elements| == 1 then [] else [','] + ElementsText(elements[1..])
  }

  function FieldText(f: Field): string
    decreases f, 3
  {
    f.before + StringText(f.name) + f.after + [':'] + ElementText(f.element)
  }

  function FieldsText(fields: seq<Field>): string
    decreases fields, 0
  {
    if fields == [] then [] else
      FieldText(fields[0]) + if |fields| == 1 then [] else [','] + FieldsText(fields[1..])
  }

  // ---------- What stands behind a value ----------

  /** What is behind the first element, rest being the text behind the bracket. */
  function NextElement(elements: seq<Element>, rest: string): string {
    if |elements| <= 1 then [']'] + rest else [','] + (ElementsText(elements[1..]) + ([']'] + rest))
  }

  /** The text of a list behind its first value. */
  function BehindFirst(elements: seq<Element>, rest: string): string
    requires elements != []
  {
    elements[0].after + NextElement(elements, rest)
  }

  function NextField(fields: seq<Field>, rest: string): string {
    if |fields| <= 1 then ['}'] + rest else [','] + (FieldsText(fields[1..]) + (['}'] + rest))
  }

  function BehindField(fields: seq<Field>, rest: string): string
    requires fields != []
  {
    fields[0].element.after + NextField(fields, rest)
  }

  /** The text of a record behind the name of its first field. */
  function BehindName(fields: seq<Field>, rest: string): string
    requires fields != []
  {
    var f := fields[0];
    f.after + ([':'] + (f.element.before + (Written(f.element.value) + BehindField(fields, rest))))
  }

  /** Every string fits its buffer. What follows the value matters: the first pass over a string may end there. */
  predicate Measured(e: Syntax, rest: string)
    requires Accepted(e)
    decreases e, 1
  {
    match e
    case Text(pieces) => Fits(pieces, ['\"'] + rest)
    case Open(pieces) => Fits(pieces, rest)
    case List(_, elements) => MeasuredElements(elements, rest)
    case Record(_, fields) => MeasuredFields(fields, rest)
    case _ => true
  }

  predicate MeasuredElements(elements: seq<Element>, rest: string)
    requires AcceptedElements(elements)
    decreases elements, 0
  {
    elements == []
    || (assert AcceptedElement(elements[0]);
      Measured(elements[0].value, BehindFirst(elements, rest)) && MeasuredElements(elements[1..], rest))
  }

  predicate MeasuredFields(fields: seq<Field>, rest: string)
    requires AcceptedFields(fields)
    decreases fields, 1
  {
    fields == [] || (MeasuredField(fields, rest) && MeasuredFields(fields[1..], rest))
  }

  /** The first of the fields. */
  predicate MeasuredField(fields: seq<Field>, rest: string)
    requires fields != [] && AcceptedFields(fields)
    decreases fields, 0
  {
    assert AcceptedField(fields[0]) && AcceptedElement(fields[0].element);
    && Fits(fields[0].name, ['\"'] + BehindName(fields, rest))
    && Measured(fields[0].element.value, BehindField(fields, rest))
  }

  // ---------- Trees ----------

  /** What the parser makes of a text. */
  function Tree(e: Syntax): Json
    requires Accepted(e)
    decreases e, 1
  {
    match e
    case Word(value) => value
    case Numeral(negative, whole, fraction, power) =>
      Number(negative, ValueOf(whole + fraction), |fraction|, ToInt32(PowerOf(power)))
    case Text(pieces) => Str(PiecesBytes(pieces, UNSET))
    case Open(pieces) => Str(PiecesBytes(pieces, UNSET))
    case List(_, elements) => Array(TreeElements(elements))
    case Record(_, fields) => Object(TreeFields(fields))
  }

  function TreeElements(elements: seq<Element>): seq<Json>
    requires AcceptedElements(elements)
    decreases elements, 0
  {
    if elements == [] then [] else [TreeElement(elements[0])] + TreeElements(elements[1..])
  }

  function TreeElement(e: Element): Json
    requires AcceptedElement(e)
    decreases e, 2
  {
    Tree(e.value)
  }

  function TreeFields(fields: seq<Field>): seq<Member>
    requires AcceptedFields(fields)
    decreases fields, 0
  {
    if fields == [] then [] else [TreeField(fields[0])] + TreeFields(fields[1..])
  }

  function TreeField(f: Field): Member
    requires AcceptedField(f)
    decreases f, 3
  {
    Member(PiecesBytes(f.name, UNSET), TreeElement(f.element))
  }

  // ---------- Values ----------

  lemma {:induction false} SkipSpace(space: string, s: string)
    requires Space(space)
    ensures Skip(space + s) == Skip(s)
  {
    if space == [] {
      assert space + s == s;
    } else {
      SkipSpace(space[1..], s);
      assert (space + s)[0] == space[0] && (space + s)[1..] == space[1..] + s;
    }
  }

  /** A text that is neither white space nor the end of a list. */
  predicate Begun(t: string) { t != [] && t[0] > ' ' && t[0] != ']' && t[0] != '}' }

  lemma NumberJoins(negative: bool, whole: string, fraction: string, power: Exponent, rest: string)
    ensures NumberText(negative, whole, fraction, power, []) + rest
      == NumberText(negative, whole, fraction, power, rest)
  {
    var sign, point, exponent := if negative then "-" else "", FractionText(fraction), ExponentText(power);
    assert exponent + [] == exponent;
    Assoc(sign, whole + (point + exponent), rest);
    Assoc(whole, point + exponent, rest);
    Assoc(point, exponent, rest);
  }

  lemma NumberBegins(negative: bool, whole: string, fraction: string, power: Exponent, rest: string)
    requires AcceptedNumber(negative, whole, fraction, power)
    ensures var t := NumberText(negative, whole, fraction, power, rest); t != [] && (t[0] == '-' || IsDigit(t[0]))
  {
  }

  lemma ValueBegins(e: Syntax, rest: string)
    requires Accepted(e)
    ensures Begun(Written(e) + rest) && Skip(Written(e) + rest) == Written(e) + rest
  {
    if e.Numeral? {
      NumberBegins(e.negative, e.whole, e.fraction, e.power, []);
    }
    assert (Written(e) + rest)[0] == Written(e)[0];
  }

  /** What may follow a value. */
  predicate Ends(e: Syntax, rest: string) {
    match e
    case Numeral(_, whole, fraction, power) => EndsNumeral(whole, fraction, power, rest)
    case Open(_) => Peek(rest) == '\0'
    case _ => true
  }

  /** Every text of the grammar whose strings fit their buffers is read as its tree, and reading stops at its end. */
  lemma {:induction false} ValueRead(e: Syntax, rest: string)
    requires Accepted(e) && Ends(e, rest)
    ensures ParseValue(Written(e) + rest) == if Measured(e, rest) then Ok(Tree(e), rest) else Undefined
    decreases e, 1
  {
    match e
    case Word(value) => WordRead(value, rest);
    case Numeral(negative, whole, fraction, power) => NumberValueRead(negative, whole, fraction, power, rest);
    case Text(pieces) => TextRead(pieces, rest);
    case Open(pieces) => OpenTextRead(pieces, rest);
    case List(inside, elements) => ListRead(inside, elements, rest);
    case Record(inside, fields) => RecordRead(inside, fields, rest);
  }

  lemma WordRead(value: Json, rest: string)
    requires value.Null? || value.False? || value.True?
    ensures ParseValue(WordText(value) + rest) == Ok(value, rest)
  {
    var t := WordText(value) + rest;
    assert t[0] == WordText(value)[0] && t[|WordText(value)|..] == rest;
  }

  lemma NumberStarts(t: string)
    requires t != [] && (t[0] == '-' || IsDigit(t[0]))
    ensures ParseValue(t) == ParseNumber(t)
  {
  }

  lemma NumberValueRead(negative: bool, whole: string, fraction: string, power: Exponent, rest: string)
    requires AcceptedNumber(negative, whole, fraction, power) && EndsNumeral(whole, fraction, power, rest)
    ensures ParseValue(NumberText(negative, whole, fraction, power, []) + rest)
      == Ok(Tree(Numeral(negative, whole, fraction, power)), rest)
  {
    var t := NumberText(negative, whole, fraction, power, rest);
    NumberJoins(negative, whole, fraction, power, rest);
    NumberBegins(negative, whole, fraction, power, rest);
    NumberStarts(t);
    NumberRead(negative, whole, fraction, power, rest);
  }

  lemma TextRead(pieces: seq<Piece>, rest: string)
    requires AcceptedPieces(pieces, UNSET)
    ensures ParseValue(StringText(pieces) + rest)
      == if Fits(pieces, ['\"'] + rest) then Ok(Str(PiecesBytes(pieces, UNSET)), rest) else Undefined
  {
    StringRead(pieces, rest);
    assert (StringText(pieces) + rest)[0] == '\"';
  }

  lemma OpenTextRead(pieces: seq<Piece>, rest: string)
    requires AcceptedPieces(pieces, UNSET) && Peek(rest) == '\0'
    ensures ParseValue((['\"'] + PiecesText(pieces)) + rest)
      == if Fits(pieces, rest) then Ok(Str(PiecesBytes(pieces, UNSET)), rest) else Undefined
  {
    OpenRead(pieces, rest);
    assert ((['\"'] + PiecesText(pieces)) + rest)[0] == '\"';
  }

  lemma Bracket(t: string)
    requires t != []
    ensures t[0] == '[' ==> ParseValue(t) == ParseArray(t[1..])
    ensures t[0] == '{' ==> ParseValue(t) == ParseObject(t[1..])
  {
  }

  lemma Bracketed(open: char, s: string, close: char, rest: string)
    ensures var t := ([open] + s + [close]) + rest; t[0] == open && t[1..] == s + ([close] + rest)
  {
  }

  // ---------- Lists ----------

  lemma ElementsSplit(elements: seq<Element>, rest: string)
    requires elements != []
    ensures ElementsText(elements) + ([']'] + rest)
      == elements[0].before + (Written(elements[0].value) + BehindFirst(elements, rest))
  {
    var e, close := elements[0], [']'] + rest;
    var more := ElementsText(elements[1..]);
    var tail := if |elements| == 1 then [] else [','] + more;
    JoinElement(e.before, Written(e.value), e.after, tail, close);
    if |elements| == 1 {
      assert tail + close == close;
    } else {
      Assoc([','], more, close);
    }
  }

  lemma JoinElement(a: string, b: string, c: string, tail: string, close: string)
    ensures ((a + b + c) + tail) + close == a + (b + (c + (tail + close)))
  {
  }

  /** Behind a value there is white space and then a comma or the bracket. */
  lemma BehindSpace(after: string, next: string)
    requires Space(after) && next != [] && next[0] in {',', ']', '}'}
    ensures EndsText(after + next) && Skip(after + next) == next
  {
    SkipSpace(after, next);
    assert (after + next)[0] == if after == [] then next[0] else after[0];
  }

  lemma ListBegins(elements: seq<Element>, rest: string)
    requires elements != [] && AcceptedElements(elements)
    ensures var t := Written(elements[0].value) + BehindFirst(elements, rest);
      Skip(ElementsText(elements) + ([']'] + rest)) == t && Begun(t) && Skip(t) == t
  {
    var t := Written(elements[0].value) + BehindFirst(elements, rest);
    ElementsSplit(elements, rest);
    SkipSpace(elements[0].before, t);
    ValueBegins(elements[0].value, BehindFirst(elements, rest));
  }

  lemma {:induction false} ListRead(inside: string, elements: seq<Element>, rest: string)
    requires Space(inside) && AcceptedElements(elements)
    ensures ParseValue(Written(List(inside, elements)) + rest)
      == if MeasuredElements(elements, rest) then Ok(Array(TreeElements(elements)), rest) else Undefined
    decreases elements, 1
  {
    var t, close := Written(List(inside, elements)) + rest, [']'] + rest;
    Bracketed('[', if elements == [] then inside else ElementsText(elements), ']', rest);
    Bracket(t);
    if elements == [] {
      SkipSpace(inside, close);
      assert close[1..] == rest;
    } else {
      ListBegins(elements, rest);
      ElementsRead(elements, [], Skip(t[1..]), rest);
      assert [] + TreeElements(elements) == TreeElements(elements);
    }
  }

  lemma {:induction false} ElementsRead(elements: seq<Element>, before: seq<Json>, s: string, rest: string)
    requires elements != [] && AcceptedElements(elements)
    requires Skip(s) == Written(elements[0].value) + BehindFirst(elements, rest)
    ensures ParseItems(s, before)
      == if MeasuredElements(elements, rest) then Ok(Array(before + TreeElements(elements)), rest) else Undefined
    decreases elements, 0
  {
    var e, behind, next := elements[0], BehindFirst(elements, rest), NextElement(elements, rest);
    BehindSpace(e.after, next);
    ValueRead(e.value, behind);
    var v := TreeElement(e);
    if |elements| == 1 {
      assert next[1..] == rest && TreeElements(elements) == [v];
    } else {
      assert next[1..] == ElementsText(elements[1..]) + ([']'] + rest);
      ListBegins(elements[1..], rest);
      ElementsRead(elements[1..], before + [v], next[1..], rest);
      assert before + [v] + TreeElements(elements[1..]) == before + TreeElements(elements);
    }
  }

  // ---------- Records ----------

  lemma JoinField(a: string, b: string, c: string, d: string, e: string, f: string, tail: string, close: string)
    ensures ((a + b + c + [':'] + (d + e + f)) + tail) + close
      == a + (b + (c + ([':'] + (d + (e + (f + (tail + close)))))))
  {
  }

  lemma BehindFieldIs(fields: seq<Field>, tail: string, rest: string)
    requires fields != [] && tail == if |fields| == 1 then [] else [','] + FieldsText(fields[1..])
    ensures BehindField(fields, rest) == fields[0].element.after + (tail + (['}'] + rest))
  {
    if |fields| == 1 {
      assert tail + (['}'] + rest) == ['}'] + rest;
    } else {
      Assoc([','], FieldsText(fields[1..]), ['}'] + rest);
    }
  }

  lemma FieldParts(f: Field, element: string, text: string)
    requires element == ElementText(f.element) && text == FieldText(f)
    ensures element == f.element.before + Written(f.element.value) + f.element.after
    ensures text == f.before + StringText(f.name) + f.after + [':'] + element
  {
  }

  lemma FieldsNext(fields: seq<Field>, text: string, tail: string)
    requires fields != [] && text == FieldText(fields[0])
    requires tail == if |fields| == 1 then [] else [','] + FieldsText(fields[1..])
    ensures FieldsText(fields) == text + tail
  {
  }

  lemma FieldsSplit(fields: seq<Field>, rest: string)
    requires fields != []
    ensures FieldsText(fields) + (['}'] + rest)
      == fields[0].before + (StringText(fields[0].name) + BehindName(fields, rest))
  {
    var f := fields[0];
    var tail := if |fields| == 1 then [] else [','] + FieldsText(fields[1..]);
    FieldParts(f, ElementText(f.element), FieldText(f));
    FieldsNext(fields, FieldText(f), tail);
    BehindFieldIs(fields, tail, rest);
    JoinField(f.before, StringText(f.name), f.after, f.element.before, Written(f.element.value), f.element.after, tail,
      ['}'] + rest);
  }

  lemma RecordBegins(fields: seq<Field>, rest: string)
    requires fields != [] && AcceptedFields(fields)
    ensures var t := StringText(fields[0].name) + BehindName(fields, rest);
      Skip(FieldsText(fields) + (['}'] + rest)) == t && Skip(t) == t && Peek(t) == '\"'
  {
    var t := StringText(fields[0].name) + BehindName(fields, rest);
    FieldsSplit(fields, rest);
    SkipSpace(fields[0].before, t);
    assert t[0] == '\"';
  }

  lemma {:induction false} RecordRead(inside: string, fields: seq<Field>, rest: string)
    requires Space(inside) && AcceptedFields(fields)
    ensures ParseValue(Written(Record(inside, fields)) + rest)
      == if MeasuredFields(fields, rest) then Ok(Object(TreeFields(fields)), rest) else Undefined
    decreases fields, 2
  {
    var t, close := Written(Record(inside, fields)) + rest, ['}'] + rest;
    Bracketed('{', if fields == [] then inside else FieldsText(fields), '}', rest);
    Bracket(t);
    if fields == [] {
      SkipSpace(inside, close);
      assert close[1..] == rest;
    } else {
      RecordBegins(fields, rest);
      FieldsRead(fields, [], Skip(t[1..]), rest);
      assert [] + TreeFields(fields) == TreeFields(fields);
    }
  }

  lemma NextMember(s: string, before: seq<Member>, m: Member, t: string, next: string)
    requires ParseMember(s) == Ok(m, t) && Skip(t) == next && next != []
    ensures next[0] == ',' ==> ParseMembers(s, before) == ParseMembers(next[1..], before + [m])
    ensures next[0] == '}' ==> ParseMembers(s, before) == Ok(Object(before + [m]), next[1..])
  {
  }

  lemma BehindFieldEnds(fields: seq<Field>, rest: string)
    requires fields != [] && AcceptedFields(fields)
    ensures EndsText(BehindField(fields, rest)) && Skip(BehindField(fields, rest)) == NextField(fields, rest)
  {
    assert AcceptedField(fields[0]) && AcceptedElement(fields[0].element);
    BehindSpace(fields[0].element.after, NextField(fields, rest));
  }

  lemma NextFieldParts(fields: seq<Field>, rest: string)
    requires fields != [] && AcceptedFields(fields)
    ensures var next := NextField(fields, rest);
      && next != [] && next[0] == (if |fields| == 1 then '}' else ',')
      && next[1..] == if |fields| == 1 then rest else FieldsText(fields[1..]) + (['}'] + rest)
    ensures TreeFields(fields) == [TreeField(fields[0])] + TreeFields(fields[1..])
  {
    assert NextField(fields, rest)[1..] == if |fields| == 1 then rest else FieldsText(fields[1..]) + (['}'] + rest);
  }

  lemma {:induction false} FieldsRead(fields: seq<Field>, before: seq<Member>, s: string, rest: string)
    requires fields != [] && AcceptedFields(fields)
    requires Skip(s) == StringText(fields[0].name) + BehindName(fields, rest)
    ensures ParseMembers(s, before)
      == if MeasuredFields(fields, rest) then Ok(Object(before + TreeFields(fields)), rest) else Undefined
    decreases fields, 1
  {
    var next, m, more := NextField(fields, rest), TreeField(fields[0]), fields[1..];
    BehindFieldEnds(fields, rest);
    FieldRead(fields, s, rest);
    NextFieldParts(fields, rest);
    if MeasuredField(fields, rest) {
      NextMember(s, before, m, BehindField(fields, rest), next);
      Assoc(before, [m], TreeFields(more));
      if more == [] {
        assert before + [m] + TreeFields(more) == before + [m];
      } else {
        RecordBegins(more, rest);
        FieldsRead(more, before + [m], next[1..], rest);
      }
    }
  }

  lemma {:induction false} FieldRead(fields: seq<Field>, s: string, rest: string)
    requires fields != [] && AcceptedFields(fields) && EndsText(BehindField(fields, rest))
    requires Skip(s) == StringText(fields[0].name) + BehindName(fields, rest)
    ensures ParseMember(s)
      == if MeasuredField(fields, rest) then Ok(TreeField(fields[0]), BehindField(fields, rest)) else Undefined
    decreases fields, 0
  {
    var f, behind := fields[0], BehindField(fields, rest);
    assert AcceptedField(f) && AcceptedElement(f.element);
    var value := Written(f.element.value) + behind;
    var colon := [':'] + (f.element.before + value);
    StringRead(f.name, BehindName(fields, rest));
    SkipSpace(f.after, colon);
    assert Skip(colon) == colon && colon[1..] == f.element.before + value;
    SkipSpace(f.element.before, value);
    ValueBegins(f.element.value, behind);
    ValueRead(f.element.value, behind);
  }

  /** cJSON_Parse of a text of the grammar, with white space before. */
  lemma TextParsed(e: Syntax, before: string, rest: string)
    requires Accepted(e) && Space(before) && Ends(e, rest)
    ensures Parse(before + (Written(e) + rest)) == if Measured(e, rest) then Ok(Tree(e), rest) else Undefined
  {
    SkipSpace(before, Written(e) + rest);
    ValueBegins(e, rest);
    ValueRead(e, rest);
  }
}
