/** The parser of 3rd/json/src/cJSON.c accepts no other texts than those of JsonGrammar. */
module JsonAccepted {
  import opened Characters
  import opened Collections
  import opened JsonGrammar
  import opened JsonNumbers
  import opened JsonStrings
  import opened JsonText

  lemma {:induction false} SkipSplit(s: string) returns (space: string)
    ensures s == space + Skip(s) && Space(space)
  {
    if Peek(s) != '\0' && Peek(s) <= ' ' {
      var more := SkipSplit(s[1..]);
      space := [s[0]] + more;
      Assoc([s[0]], more, Skip(s[1..]));
      assert [s[0]] + s[1..] == s;
    } else {
      space := [];
    }
  }

  /** A value that is accepted is a text of the grammar. */
  lemma {:induction false} ValueSplit(s: string) returns (e: Syntax, rest: string)
    requires ParseValue(s).Ok?
    ensures Accepted(e) && Ends(e, rest) && s == Written(e) + rest
    ensures Measured(e, rest) && ParseValue(s) == Ok(Tree(e), rest)
    decreases |s|, 1
  {
    if "null" <= s || "false" <= s || "true" <= s {
      var v := ParseValue(s).value;
      e, rest := Word(v), s[|WordText(v)|..];
    } else if Peek(s) == '\"' {
      e, rest := TextSplit(s);
    } else if Peek(s) == '-' || IsDigit(Peek(s)) {
      e, rest := NumeralSplit(s);
    } else if Peek(s) == '[' {
      e, rest := ListSplit(s);
    } else {
      e, rest := RecordSplit(s);
    }
    ValueRead(e, rest);
  }

  lemma NumeralSplit(s: string) returns (e: Syntax, rest: string)
    requires Peek(s) == '-' || IsDigit(Peek(s))
    ensures Accepted(e) && Ends(e, rest) && s == Written(e) + rest
  {
    var negative, whole, fraction, x;
    negative, whole, fraction, x, rest := NumberSplit(s);
    e := Numeral(negative, whole, fraction, x);
    NumberJoins(negative, whole, fraction, x, rest);
  }

  lemma TextSplit(s: string) returns (e: Syntax, rest: string)
    requires Peek(s) == '\"' && ParseString(s).Ok?
    ensures Accepted(e) && (e.Text? || e.Open?) && Ends(e, rest) && s == Written(e) + rest
  {
    var pieces, end := PiecesSplit(s[1..], UNSET);
    assert s == ['\"'] + s[1..];
    if Peek(end) == '\"' {
      e, rest := Text(pieces), end[1..];
      assert end == ['\"'] + rest;
      JoinQuotes(PiecesText(pieces), rest);
    } else {
      e, rest := Open(pieces), end;
      Assoc(['\"'], PiecesText(pieces), rest);
    }
  }

  lemma Closed(open: char, s: string, inside: string, close: char, rest: string)
    requires s != [] && s[0] == open && s[1..] == inside + ([close] + rest)
    ensures s == ([open] + inside + [close]) + rest
  {
  }

  lemma EmptyJoins(s: string, open: char, space: string, t: string, close: char)
    requires s != [] && s[0] == open && s[1..] == space + t && t != [] && t[0] == close
    ensures s == ([open] + space + [close]) + t[1..]
  {
    assert t == [close] + t[1..];
    Closed(open, s, space, close, t[1..]);
  }

  lemma ListSplit(s: string) returns (e: Syntax, rest: string)
    requires Peek(s) == '[' && ParseArray(s[1..]).Ok?
    ensures Accepted(e) && e.List? && s == Written(e) + rest
    decreases |s|, 0
  {
    var space := SkipSplit(s[1..]);
    var t := Skip(s[1..]);
    if Peek(t) == ']' {
      e, rest := List(space, []), t[1..];
      EmptyJoins(s, '[', space, t, ']');
    } else {
      var elements;
      elements, rest := ElementsSplitOff(t, []);
      e := List([], SpacedElements(space, elements));
      ListJoins(s, space, t, elements, rest);
    }
  }

  /** More white space in front of a list. */
  function SpacedElements(space: string, elements: seq<Element>): seq<Element>
    requires elements != []
  {
    [elements[0].(before := space + elements[0].before)] + elements[1..]
  }

  lemma ListJoins(s: string, space: string, t: string, elements: seq<Element>, rest: string)
    requires s != [] && s[0] == '[' && s[1..] == space + t && Space(space)
    requires elements != [] && AcceptedElements(elements) && t == ElementsText(elements) + ([']'] + rest)
    ensures var e := List([], SpacedElements(space, elements)); Accepted(e) && s == Written(e) + rest
  {
    var all := SpacedElements(space, elements);
    FirstElement(elements, space, [']'] + rest);
    Closed('[', s, ElementsText(all), ']', rest);
  }

  lemma FirstElement(elements: seq<Element>, space: string, rest: string)
    requires elements != [] && AcceptedElements(elements) && Space(space)
    ensures var all := SpacedElements(space, elements);
      AcceptedElements(all) && space + (ElementsText(elements) + rest) == ElementsText(all) + rest
  {
    var all := SpacedElements(space, elements);
    assert all[1..] == elements[1..];
    var e, tail := elements[0], if |elements| == 1 then [] else [','] + ElementsText(elements[1..]);
    JoinFirst(space, e.before, Written(e.value) + e.after, tail, rest);
    assert ElementText(e) == e.before + (Written(e.value) + e.after);
    assert ElementText(all[0]) == (space + e.before) + (Written(e.value) + e.after);
  }

  lemma JoinFirst(space: string, before: string, text: string, tail: string, rest: string)
    ensures space + (((before + text) + tail) + rest) == (((space + before) + text) + tail) + rest
  {
  }

  /** Behind an item there is a comma and more items, or the bracket. */
  lemma ItemsNext(s: string, items: seq<Json>)
    requires ParseItems(s, items).Ok?
    ensures var p := ParseValue(Skip(s));
      && p.Ok? && Skip(p.rest) != [] && |Skip(p.rest)| <= |s|
      && if Peek(Skip(p.rest)) == ',' then ParseItems(Skip(p.rest)[1..], items + [p.value]).Ok?
         else Skip(p.rest)[0] == ']'
  {
  }

  lemma {:induction false} ElementsSplitOff(s: string, items: seq<Json>) returns (elements: seq<Element>, rest: string)
    requires ParseItems(s, items).Ok?
    ensures elements != [] && AcceptedElements(elements) && s == ElementsText(elements) + ([']'] + rest)
    decreases |s|, 3
  {
    ItemsNext(s, items);
    var element, u := ElementSplit(s);
    var more;
    if Peek(u) == ',' {
      more, rest := ElementsSplitOff(u[1..], items + [TreeElement(element)]);
      assert u == [','] + u[1..];
    } else {
      more, rest := [], u[1..];
      assert u == [']'] + rest;
    }
    ElementsFront(element, more, [']'] + rest);
    elements := [element] + more;
  }

  lemma ElementJoins(s: string, e: Element, t: string, u: string)
    requires s == e.before + (Written(e.value) + t) && t == e.after + u
    ensures s == ElementText(e) + u
  {
  }

  lemma ElementsFront(e: Element, more: seq<Element>, end: string)
    requires AcceptedElement(e) && AcceptedElements(more)
    ensures AcceptedElements([e] + more)
    ensures ElementText(e) + (if more == [] then end else [','] + (ElementsText(more) + end))
      == ElementsText([e] + more) + end
  {
    assert ([e] + more)[1..] == more;
    if more == [] {
      assert ElementText(e) + [] == ElementText(e);
    } else {
      JoinMore(ElementText(e), [','], ElementsText(more), end);
    }
  }

  lemma FieldsFront(f: Field, more: seq<Field>, end: string)
    requires AcceptedField(f) && AcceptedFields(more)
    ensures AcceptedFields([f] + more)
    ensures FieldText(f) + (if more == [] then end else [','] + (FieldsText(more) + end))
      == FieldsText([f] + more) + end
  {
    assert ([f] + more)[1..] == more;
    if more == [] {
      assert FieldText(f) + [] == FieldText(f);
    } else {
      JoinMore(FieldText(f), [','], FieldsText(more), end);
    }
  }

  lemma JoinMore(a: string, comma: string, b: string, end: string)
    ensures a + (comma + (b + end)) == (a + (comma + b)) + end
  {
  }

  lemma RecordSplit(s: string) returns (e: Syntax, rest: string)
    requires Peek(s) == '{' && ParseObject(s[1..]).Ok?
    ensures Accepted(e) && e.Record? && s == Written(e) + rest
    decreases |s|, 0
  {
    var space := SkipSplit(s[1..]);
    var t := Skip(s[1..]);
    if Peek(t) == '}' {
      e, rest := Record(space, []), t[1..];
      EmptyJoins(s, '{', space, t, '}');
    } else {
      var fields;
      fields, rest := FieldsSplitOff(t, []);
      e := Record([], SpacedFields(space, fields));
      RecordJoins(s, space, t, fields, rest);
    }
  }

  function SpacedFields(space: string, fields: seq<Field>): seq<Field>
    requires fields != []
  {
    [fields[0].(before := space + fields[0].before)] + fields[1..]
  }

  lemma RecordJoins(s: string, space: string, t: string, fields: seq<Field>, rest: string)
    requires s != [] && s[0] == '{' && s[1..] == space + t && Space(space)
    requires fields != [] && AcceptedFields(fields) && t == FieldsText(fields) + (['}'] + rest)
    ensures var e := Record([], SpacedFields(space, fields)); Accepted(e) && s == Written(e) + rest
  {
    var all := SpacedFields(space, fields);
    FirstField(fields, space, ['}'] + rest);
    Closed('{', s, FieldsText(all), '}', rest);
  }

  lemma FirstField(fields: seq<Field>, space: string, rest: string)
    requires fields != [] && AcceptedFields(fields) && Space(space)
    ensures var all := SpacedFields(space, fields);
      AcceptedFields(all) && space + (FieldsText(fields) + rest) == FieldsText(all) + rest
  {
    var all := SpacedFields(space, fields);
    assert all[1..] == fields[1..];
    var f, tail := fields[0], if |fields| == 1 then [] else [','] + FieldsText(fields[1..]);
    var text := StringText(f.name) + f.after + [':'] + ElementText(f.element);
    JoinFirst(space, f.before, text, tail, rest);
    assert FieldText(f) == f.before + text;
    assert FieldText(all[0]) == (space + f.before) + text;
  }

  lemma MembersNext(s: string, members: seq<Member>)
    requires ParseMembers(s, members).Ok?
    ensures var p := ParseMember(s);
      && p.Ok? && Skip(p.rest) != [] && |Skip(p.rest)| < |s|
      && if Peek(Skip(p.rest)) == ',' then ParseMembers(Skip(p.rest)[1..], members + [p.value]).Ok?
         else Skip(p.rest)[0] == '}'
  {
  }

  lemma {:induction false} FieldsSplitOff(s: string, members: seq<Member>) returns (fields: seq<Field>, rest: string)
    requires ParseMembers(s, members).Ok?
    ensures fields != [] && AcceptedFields(fields) && s == FieldsText(fields) + (['}'] + rest)
    decreases |s|, 2
  {
    MembersNext(s, members);
    var f, u := FieldSplit(s);
    var more;
    more, rest := FieldsBehind(u, members + [TreeField(f)]);
    FieldsFront(f, more, ['}'] + rest);
    fields := [f] + more;
  }

  /** What follows a field. */
  lemma {:induction false} FieldsBehind(u: string, members: seq<Member>) returns (more: seq<Field>, rest: string)
    requires u != [] && if u[0] == ',' then ParseMembers(u[1..], members).Ok? else u[0] == '}'
    ensures AcceptedFields(more)
    ensures u == if more == [] then ['}'] + rest else [','] + (FieldsText(more) + (['}'] + rest))
    decreases |u|, 3
  {
    if u[0] == ',' {
      more, rest := FieldsSplitOff(u[1..], members);
      assert u == [','] + u[1..];
    } else {
      more, rest := [], u[1..];
    }
  }

  /** A name, a colon and a value, with the white space around them. */
  lemma FieldSplit(s: string) returns (f: Field, u: string)
    requires ParseMember(s).Ok? && (Peek(Skip(ParseMember(s).rest)) == ',' || Peek(Skip(ParseMember(s).rest)) == '}')
    ensures AcceptedField(f) && s == FieldText(f) + u
    ensures ParseMember(s).value == TreeField(f) && u == Skip(ParseMember(s).rest)
    decreases |s|, 1
  {
    var before := SkipSplit(s);
    var name, t := NameSplit(Skip(s));
    var after := SkipSplit(t);
    var colon := Skip(t);
    var element;
    element, u := ElementSplit(colon[1..]);
    f := Field(before, name, after, element);
    FieldJoins(s, f, t, colon, u);
  }

  lemma NameSplit(s: string) returns (name: seq<Piece>, t: string)
    requires ParseString(s).Ok? && Peek(Skip(ParseString(s).rest)) == ':'
    ensures AcceptedPieces(name, UNSET) && s == StringText(name) + t
    ensures ParseString(s) == Ok(PiecesBytes(name, UNSET), t)
  {
    var e;
    e, t := TextSplit(s);
    NameRead(s, e, t);
    name := e.pieces;
  }

  /** A value with the white space around it that a comma or a bracket ends. */
  lemma ElementSplit(s: string) returns (element: Element, u: string)
    requires ParseValue(Skip(s)).Ok? && Peek(Skip(ParseValue(Skip(s)).rest)) in {',', ']', '}'}
    ensures AcceptedElement(element) && s == ElementText(element) + u
    ensures ParseValue(Skip(s)).value == TreeElement(element) && u == Skip(ParseValue(Skip(s)).rest)
    decreases |s|, 2
  {
    var before := SkipSplit(s);
    var e, t := ValueSplit(Skip(s));
    var after := SkipSplit(t);
    element, u := Element(before, e, after), Skip(t);
    ElementJoins(s, element, t, u);
  }

  lemma FieldJoins(s: string, f: Field, t: string, colon: string, u: string)
    requires s == f.before + (StringText(f.name) + t) && t == f.after + colon
    requires colon != [] && colon[0] == ':' && colon[1..] == ElementText(f.element) + u
    ensures s == FieldText(f) + u
  {
    assert colon == [':'] + colon[1..];
    JoinParts(f.before, StringText(f.name), f.after, [':'], ElementText(f.element), u);
  }

  lemma JoinParts(a: string, b: string, c: string, d: string, e: string, u: string)
    ensures a + (b + (c + (d + (e + u)))) == (a + b + c + d + e) + u
  {
  }

  lemma NameRead(s: string, name: Syntax, t: string)
    requires Accepted(name) && (name.Text? || name.Open?) && Ends(name, t) && s == Written(name) + t
    ensures ParseString(s) == if Measured(name, t) then Ok(PiecesBytes(name.pieces, UNSET), t) else Undefined
  {
    if name.Text? {
      StringRead(name.pieces, t);
    } else {
      OpenRead(name.pieces, t);
    }
  }

  /** The texts that cJSON_Parse accepts are those of the grammar with its extensions in which every string fits its
      buffer, and the tree that it gives is the one that the grammar has for them. */
  lemma ParseIff(text: string, v: Json, rest: string)
    ensures Parse(text) == Ok(v, rest) <==>
      exists before, e :: Space(before) && Accepted(e) && Ends(e, rest) && Measured(e, rest) && Tree(e) == v
        && text == before + (Written(e) + rest)
  {
    if Parse(text) == Ok(v, rest) {
      var before := SkipSplit(text);
      var e, r := ValueSplit(Skip(text));
      assert r == rest && Tree(e) == v;
    }
    forall before, e | Space(before) && Accepted(e) && Ends(e, rest) && Measured(e, rest)
        && text == before + (Written(e) + rest)
      ensures Parse(text) == Ok(Tree(e), rest)
    {
      TextParsed(e, before, rest);
    }
  }
}
