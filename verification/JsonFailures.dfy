/** Where the parser of 3rd/json/src/cJSON.c fails: what stands before the place is the beginning of a text that it
    accepts, and it fails there whatever follows. */
module JsonFailures {
  import opened Collections
  import opened JsonBuffers
  import opened JsonAccepted
  import opened JsonGrammar
  import opened JsonMeasured
  import opened JsonStrings
  import opened JsonText

  predicate Worded(s: string) { "null" <= s || "false" <= s || "true" <= s }

  /** The two texts start with the same two characters, and both or none with one of the three words. */
  predicate Same(u: string, v: string) {
    Peek(u) == Peek(v) && (Peek(u) != '\0' ==> Peek(u[1..]) == Peek(v[1..])) && (Worded(u) <==> Worded(v))
  }

  /** It fails at u; if u ends in a backslash, the first pass over a string before it may run past the terminator. */
  predicate Stuck<T>(r: Parsed<T>, u: string) {
    match r
    case Ok(_, _) => false
    case Malformed(at) => at == u
    case Undefined => Trailing(u)
  }

  ghost predicate ValueStuck(before: string, at: string) {
    forall u :: Same(u, at) ==> Stuck(ParseValue(before + u), u)
  }

  ghost predicate ItemsStuck(before: string, at: string) {
    forall u, items :: Same(u, at) ==> Stuck(ParseItems(before + u, items), u)
  }

  ghost predicate MemberStuck(before: string, at: string) {
    forall u :: Same(u, at) ==> Stuck(ParseMember(before + u), u)
  }

  ghost predicate MembersStuck(before: string, at: string) {
    forall u, members :: Same(u, at) ==> Stuck(ParseMembers(before + u, members), u)
  }

  lemma SaferSame(u: string, at: string)
    requires Same(u, at) && !Trailing(u)
    ensures Safer(at, u)
  {
    forall skipping | Room(at, skipping) >= 0 ensures Room(u, skipping) >= 0 {
      RoomEnds(u, skipping);
    }
  }

  // ---------- White space ----------

  lemma {:induction false} SkipTwice(s: string)
    ensures Skip(Skip(s)) == Skip(s)
  {
    if Peek(s) != '\0' && Peek(s) <= ' ' {
      SkipTwice(s[1..]);
    }
  }

  lemma Unspaced(s: string)
    ensures Skip(s) == s <==> !(Peek(s) != '\0' && Peek(s) <= ' ')
  {
  }

  lemma FrontUnspaced(b: string, u: string, at: string)
    requires Same(u, at) && Skip(b + at) == b + at
    ensures Skip(b + u) == b + u && Peek(b + u) == Peek(b + at)
  {
    Unspaced(b + at);
    Unspaced(b + u);
    if b == [] {
      assert b + u == u && b + at == at;
    } else {
      assert (b + u)[0] == b[0] == (b + at)[0];
    }
  }

  lemma PeekFront(a: string, u: string)
    ensures Peek(a + u) == if a == [] then Peek(u) else a[0]
  {
    assert a == [] ==> a + u == u;
  }

  lemma SkipFront(space: string, b: string, u: string, at: string)
    requires Space(space) && Same(u, at) && Skip(b + at) == b + at
    ensures Skip((space + b) + u) == b + u && Peek(b + u) == Peek(b + at)
  {
    FrontUnspaced(b, u, at);
    SkipSpace(space, b + u);
    Assoc(space, b, u);
  }

  // ---------- Elements and fields ----------

  /** An element that u follows; it may be a string that is not closed. */
  predicate LooseElement(e: Element, u: string) {
    Space(e.before) && Accepted(e.value) && Space(e.after) && Ends(e.value, e.after + u)
  }

  predicate LooseField(f: Field, u: string) {
    Space(f.before) && AcceptedPieces(f.name, UNSET) && Space(f.after) && LooseElement(f.element, u)
  }

  lemma EndsSame(e: Syntax, after: string, u: string, v: string)
    requires Space(after) && Ends(e, after + v) && Same(u, v)
    ensures Ends(e, after + u)
  {
    if after == [] {
      assert after + u == u && after + v == v;
    } else {
      assert (after + u)[0] == after[0] == (after + v)[0];
    }
  }

  lemma ElementRead(e: Element, u: string)
    requires LooseElement(e, u) && Skip(u) == u
    ensures ParseValue(Skip(ElementText(e) + u))
      == if Measured(e.value, e.after + u) then Ok(Tree(e.value), e.after + u) else Undefined
    ensures Skip(e.after + u) == u
  {
    var t := Written(e.value) + (e.after + u);
    assert ElementText(e) + u == e.before + t;
    SkipSpace(e.before, t);
    ValueBegins(e.value, e.after + u);
    ValueRead(e.value, e.after + u);
    SkipSpace(e.after, u);
  }

  /** The name of a field fits, with t behind the colon. */
  predicate NameFits(f: Field, t: string)
    requires AcceptedPieces(f.name, UNSET)
  {
    Fits(f.name, ['\"'] + (f.after + ([':'] + t)))
  }

  lemma NamePart(f: Field, t: string)
    requires Space(f.before) && AcceptedPieces(f.name, UNSET) && Space(f.after)
    ensures var s := (f.before + StringText(f.name) + f.after + [':']) + t;
      && ParseString(Skip(s))
        == (if NameFits(f, t) then Ok(PiecesBytes(f.name, UNSET), f.after + ([':'] + t)) else Undefined)
      && Skip(f.after + ([':'] + t)) == [':'] + t
  {
    var colon := [':'] + t;
    var u := StringText(f.name) + (f.after + colon);
    JoinName(f.before, StringText(f.name), f.after, t);
    SkipSpace(f.before, u);
    assert u[0] == '\"';
    StringRead(f.name, f.after + colon);
    SkipSpace(f.after, colon);
  }

  lemma JoinName(a: string, b: string, c: string, t: string)
    ensures (a + b + c + [':']) + t == a + (b + (c + ([':'] + t)))
  {
  }

  /** A name and a colon, and then what stands for a value. */
  lemma MemberValue(f: Field, t: string)
    requires Space(f.before) && AcceptedPieces(f.name, UNSET) && Space(f.after)
    ensures ParseMember((f.before + StringText(f.name) + f.after + [':']) + t)
      == if !NameFits(f, t) then Undefined else match ParseValue(Skip(t)) {
        case Ok(v, w) => Ok(Member(PiecesBytes(f.name, UNSET), v), w)
        case Malformed(at) => Malformed(at)
        case Undefined => Undefined
      }
  {
    NamePart(f, t);
    assert ([':'] + t)[1..] == t;
  }

  lemma FieldIsRead(f: Field, u: string)
    requires LooseField(f, u) && Skip(u) == u
    ensures ParseMember(FieldText(f) + u)
      == if NameFits(f, ElementText(f.element) + u) && Measured(f.element.value, f.element.after + u)
         then Ok(Member(PiecesBytes(f.name, UNSET), Tree(f.element.value)), f.element.after + u) else Undefined
    ensures Skip(f.element.after + u) == u
  {
    var name := f.before + StringText(f.name) + f.after + [':'];
    Assoc(name, ElementText(f.element), u);
    MemberValue(f, ElementText(f.element) + u);
    ElementRead(f.element, u);
  }

  // ---------- Lists ----------

  lemma ItemsOn(e: Element, u: string, items: seq<Json>)
    requires LooseElement(e, u) && Skip(u) == u
    ensures ParseItems(ElementText(e) + u, items)
      == if !Measured(e.value, e.after + u) then Undefined
         else if Peek(u) == ',' then ParseItems(u[1..], items + [Tree(e.value)])
         else if Peek(u) == ']' then Ok(Array(items + [Tree(e.value)]), u[1..])
         else Malformed(u)
  {
    ElementRead(e, u);
  }

  lemma ItemStuck(space: string, b: string, at: string)
    requires Space(space) && ValueStuck(b, at) && Skip(b + at) == b + at
    ensures ItemsStuck(space + b, at)
  {
    forall u, items: seq<Json> | Same(u, at) ensures Stuck(ParseItems((space + b) + u, items), u) {
      SkipFront(space, b, u, at);
      assert Stuck(ParseValue(b + u), u);
    }
  }

  lemma ItemsLater(e: Element, b: string, items: seq<Json>)
    requires AcceptedElement(e)
    ensures ParseItems(ElementText(e) + ([','] + b), items)
      == if Measured(e.value, e.after + ([','] + b)) then ParseItems(b, items + [TreeElement(e)]) else Undefined
  {
    var next := [','] + b;
    assert next[1..] == b;
    BehindSpace(e.after, next);
    Unspaced(next);
    ItemsOn(e, next, items);
  }

  lemma ItemsStuckLater(e: Element, b: string, at: string)
    requires AcceptedElement(e) && Measured(e.value, e.after + ([','] + (b + at))) && ItemsStuck(b, at)
    ensures ItemsStuck(ElementText(e) + ([','] + b), at)
  {
    forall u, items: seq<Json> | Same(u, at)
      ensures Stuck(ParseItems((ElementText(e) + ([','] + b)) + u, items), u)
    {
      JoinComma(ElementText(e), b, u);
      ItemsLater(e, b + u, items);
      if !Trailing(u) {
        MeasuredLater(e, b, u, at);
      }
    }
  }

  lemma MeasuredLater(e: Element, b: string, u: string, at: string)
    requires Accepted(e.value) && Measured(e.value, e.after + ([','] + (b + at))) && Same(u, at) && !Trailing(u)
    ensures Measured(e.value, e.after + ([','] + (b + u)))
  {
    SaferSame(u, at);
    SaferJoin(b, at, u);
    SaferJoin([','], b + at, b + u);
    SaferJoin(e.after, [','] + (b + at), [','] + (b + u));
    Remeasured(e.value, e.after + ([','] + (b + at)), e.after + ([','] + (b + u)));
  }

  lemma MeasuredSame(e: Syntax, after: string, u: string, at: string)
    requires Accepted(e) && Measured(e, after + at) && Same(u, at) && !Trailing(u)
    ensures Measured(e, after + u)
  {
    SaferSame(u, at);
    SaferJoin(after, at, u);
    Remeasured(e, after + at, after + u);
  }

  lemma ItemsStuckBehind(e: Element, at: string)
    requires LooseElement(e, at) && Measured(e.value, e.after + at)
    requires Skip(at) == at && Peek(at) != ',' && Peek(at) != ']'
    ensures ItemsStuck(ElementText(e), at)
  {
    forall u, items: seq<Json> | Same(u, at) ensures Stuck(ParseItems(ElementText(e) + u, items), u) {
      if !Trailing(u) {
        MeasuredSame(e.value, e.after, u, at);
      }
      EndsSame(e.value, e.after, u, at);
      Unspaced(at);
      Unspaced(u);
      ItemsOn(e, u, items);
    }
  }

  /** A value that fits with any text behind it, or rather any in which the first pass ends, as it does in []. */
  ghost predicate Sound(e: Syntax) {
    Accepted(e) && !e.Open? && forall v :: Room(v, false) >= 0 ==> Measured(e, v)
  }

  ghost predicate SoundElements(elements: seq<Element>) {
    elements != [] && AcceptedElements(elements) && forall v :: Room(v, false) >= 0 ==> MeasuredElements(elements, v)
  }

  ghost predicate SoundFields(fields: seq<Field>) {
    fields != [] && AcceptedFields(fields) && forall v :: Room(v, false) >= 0 ==> MeasuredFields(fields, v)
  }

  /** What is measured somewhere fits in front of a text of the grammar and a bracket. */
  lemma MeasuredInside(e: Syntax, s: string, y: string, c: char, v: string)
    requires Accepted(e) && Measured(e, s) && NulFree(y) && (c == ']' || c == '}') && Room(v, false) >= 0
    ensures Measured(e, y + ([c] + v))
  {
    SaferText(s, y, c, v);
    Remeasured(e, s, y + ([c] + v));
  }

  lemma ConsSoundElements(e: Element, more: seq<Element>, s: string)
    requires AcceptedElement(e) && Measured(e.value, s) && (more == [] || SoundElements(more))
    ensures SoundElements([e] + more)
  {
    var all := [e] + more;
    assert all[1..] == more;
    ElementsNulFree(more);
    var y := e.after + if more == [] then [] else [','] + ElementsText(more);
    forall v | Room(v, false) >= 0 ensures MeasuredElements(all, v) {
      BehindFirstParts(all, v);
      MeasuredInside(e.value, s, y, ']', v);
    }
  }

  /** A value that fits by itself, as the only element. */
  lemma OneSoundElement(space: string, e: Syntax)
    requires Space(space) && Sound(e)
    ensures SoundElements([Element(space, e, [])])
  {
    assert Room([], false) == 0;
    assert Measured(e, []);
    ConsSoundElements(Element(space, e, []), [], []);
    assert [Element(space, e, [])] + [] == [Element(space, e, [])];
  }

  /** A string that is not closed can be. */
  lemma ElementCloses(e: Element, u: string) returns (closed: Element, quote: string)
    requires LooseElement(e, u) && Measured(e.value, e.after + u)
    ensures AcceptedElement(closed) && ElementText(closed) == ElementText(e) + quote
    ensures exists s :: Measured(closed.value, s)
  {
    if e.value.Open? {
      PeekFront(e.after, u);
      closed, quote := Element(e.before, Text(e.value.pieces), []), "\"";
      assert ElementText(closed) == ElementText(e) + quote;
      FitsClosed(e.value.pieces, e.after + u, ['\"'] + []);
      assert Measured(closed.value, []);
    } else {
      closed, quote := e, "";
      assert ElementText(e) + [] == ElementText(e);
    }
  }

  lemma ElementSplits(s: string) returns (e: Element, u: string)
    requires ParseValue(Skip(s)).Ok?
    ensures LooseElement(e, u) && s == ElementText(e) + u && Skip(u) == u
    ensures ParseValue(Skip(s)).value == Tree(e.value) && u == Skip(ParseValue(Skip(s)).rest)
    ensures Measured(e.value, e.after + u)
    decreases |s|, 2
  {
    var before := SkipSplit(s);
    var value, t := ValueSplit(Skip(s));
    var after := SkipSplit(t);
    e, u := Element(before, value, after), Skip(t);
    SkipTwice(t);
    ElementJoins(s, e, t, u);
  }

  lemma LaterElements(e: Element, more: seq<Element>, b: string, m: string)
    requires AcceptedElement(e) && AcceptedElements(more) && more != [] && ElementsText(more) + [']'] == b + m
    ensures AcceptedElements([e] + more)
    ensures ElementsText([e] + more) + [']'] == (ElementText(e) + ([','] + b)) + m
  {
    ElementsFront(e, more, [']']);
    assert (ElementText(e) + ([','] + b)) + m == ElementText(e) + ([','] + (b + m));
  }

  lemma OneElement(e: Element)
    requires AcceptedElement(e)
    ensures AcceptedElements([e]) && ElementsText([e]) == ElementText(e)
  {
    assert [e][1..] == [] && ElementText(e) + [] == ElementText(e);
  }

  lemma FirstItemFails(s: string) returns (before: string, more: string, elements: seq<Element>)
    requires ParseValue(Skip(s)).Malformed?
    ensures var at := ParseValue(Skip(s)).at; s == before + at && Skip(at) == at && ItemsStuck(before, at)
    ensures SoundElements(elements) && ElementsText(elements) + [']'] == before + more
    decreases |s|, 2
  {
    var space := SkipSplit(s);
    SkipTwice(s);
    var b, m, e := ValueFails(Skip(s));
    var at, element := ParseValue(Skip(s)).at, Element(space, e, []);
    ItemStuck(space, b, at);
    Assoc(space, b, at);
    OneElement(element);
    OneSoundElement(space, e);
    before, more, elements := space + b, m + [']'], [element];
    JoinItem(space, b, m);
  }

  lemma JoinItem(space: string, b: string, m: string)
    ensures (space + (b + m) + []) + [']'] == (space + b) + (m + [']'])
  {
  }

  lemma LastItemFails(e: Element, u: string) returns (more: string, elements: seq<Element>)
    requires LooseElement(e, u) && Measured(e.value, e.after + u)
    requires Skip(u) == u && Peek(u) != ',' && Peek(u) != ']'
    ensures ItemsStuck(ElementText(e), u) && SoundElements(elements)
    ensures ElementsText(elements) + [']'] == ElementText(e) + more
  {
    ItemsStuckBehind(e, u);
    var closed, quote := ElementCloses(e, u);
    var s :| Measured(closed.value, s);
    ConsSoundElements(closed, [], s);
    assert [closed] + [] == [closed];
    OneElement(closed);
    more, elements := quote + [']'], [closed];
    Assoc(ElementText(e), quote, [']']);
  }

  lemma LaterItemFails(e: Element, u: string, es: seq<Element>, b: string, m: string, at: string)
    requires LooseElement(e, u) && Measured(e.value, e.after + u) && Peek(u) == ',' && u[1..] == b + at
    requires SoundElements(es) && ElementsText(es) + [']'] == b + m && ItemsStuck(b, at)
    ensures ItemsStuck(ElementText(e) + ([','] + b), at) && SoundElements([e] + es)
    ensures ElementsText([e] + es) + [']'] == (ElementText(e) + ([','] + b)) + m
  {
    Unclosed(e, u);
    assert u == [','] + (b + at);
    ItemsStuckLater(e, b, at);
    LaterElements(e, es, b, m);
    ConsSoundElements(e, es, e.after + u);
  }

  lemma {:induction false} ItemsFail(s: string, items: seq<Json>)
      returns (before: string, more: string, elements: seq<Element>)
    requires ParseItems(s, items).Malformed?
    ensures var at := ParseItems(s, items).at; s == before + at && Skip(at) == at && ItemsStuck(before, at)
    ensures SoundElements(elements) && ElementsText(elements) + [']'] == before + more
    decreases |s|, 3
  {
    if ParseValue(Skip(s)).Malformed? {
      before, more, elements := FirstItemFails(s);
    } else {
      var e, u := ElementSplits(s);
      ItemsOn(e, u, items);
      if Peek(u) == ',' {
        var b, m, es := ItemsFail(u[1..], items + [Tree(e.value)]);
        var at := ParseItems(u[1..], items + [Tree(e.value)]).at;
        LaterItemFails(e, u, es, b, m, at);
        before, more, elements := ElementText(e) + ([','] + b), m, [e] + es;
        JoinLater(ElementText(e), u, b, at);
      } else {
        more, elements := LastItemFails(e, u);
        before := ElementText(e);
      }
    }
  }

  lemma JoinLater(text: string, u: string, b: string, at: string)
    requires u != [] && u[0] == ',' && u[1..] == b + at
    ensures text + u == (text + ([','] + b)) + at
  {
    assert u == [','] + u[1..];
  }

  /** A string that is not closed is the end of the text. */
  lemma Unclosed(e: Element, u: string)
    requires LooseElement(e, u) && (Peek(u) == ',' || Peek(u) == '}')
    ensures AcceptedElement(e)
  {
    assert e.value.Open? ==> Peek(e.after + u) == '\0';
    PeekFront(e.after, u);
  }

  // ---------- Values ----------

  lemma StringNotMalformed(s: string)
    requires Peek(s) == '\"'
    ensures !ParseString(s).Malformed?
  {
    NotMalformed(s[1..], UNSET);
  }

  lemma ListStarts(x: string, t: string)
    requires Skip(x) == t && Peek(t) != ']'
    ensures ParseValue(['['] + x) == ParseItems(t, [])
  {
    var s := ['['] + x;
    assert s[0] == '[' && s[1..] == x;
    Bracket(s);
  }

  lemma RecordStarts(x: string, t: string)
    requires Skip(x) == t && Peek(t) != '}'
    ensures ParseValue(['{'] + x) == ParseMembers(t, [])
  {
    var s := ['{'] + x;
    assert s[0] == '{' && s[1..] == x;
    Bracket(s);
  }

  lemma ListStuck(space: string, b: string, at: string)
    requires Space(space) && ItemsStuck(b, at) && Skip(b + at) == b + at && Peek(b + at) != ']'
    ensures ValueStuck(['['] + (space + b), at)
  {
    forall u | Same(u, at) ensures Stuck(ParseValue((['['] + (space + b)) + u), u) {
      SkipFront(space, b, u, at);
      Assoc(['['], space + b, u);
      ListStarts((space + b) + u, b + u);
    }
  }

  lemma RecordStuck(space: string, b: string, at: string)
    requires Space(space) && MembersStuck(b, at) && Skip(b + at) == b + at && Peek(b + at) != '}'
    ensures ValueStuck(['{'] + (space + b), at)
  {
    forall u | Same(u, at) ensures Stuck(ParseValue((['{'] + (space + b)) + u), u) {
      SkipFront(space, b, u, at);
      Assoc(['{'], space + b, u);
      RecordStarts((space + b) + u, b + u);
    }
  }

  /** What does not begin a value. */
  lemma NoValue(s: string)
    requires ParseValue(s).Malformed? && Peek(s) != '[' && Peek(s) != '{'
    ensures ParseValue(s).at == s && ValueStuck([], s)
  {
    if Peek(s) == '\"' {
      StringNotMalformed(s);
    }
    forall u | Same(u, s) ensures Stuck(ParseValue([] + u), u) {
      assert [] + u == u;
    }
  }

  lemma SpacedList(space: string, elements: seq<Element>, b: string, m: string)
    requires Space(space) && SoundElements(elements) && ElementsText(elements) + [']'] == b + m
    ensures var e := List([], SpacedElements(space, elements));
      Sound(e) && Written(e) == (['['] + (space + b)) + m
  {
    var all := SpacedElements(space, elements);
    FirstElement(elements, space, [']']);
    assert all[1..] == elements[1..] && AcceptedElements(all);
    forall v | Room(v, false) >= 0 ensures MeasuredElements(all, v) {
      assert MeasuredElements(elements, v) && BehindFirst(all, v) == BehindFirst(elements, v);
    }
    assert ['['] + ElementsText(all) + [']'] == ['['] + (space + (ElementsText(elements) + [']']));
    assert ['['] + (space + (b + m)) == (['['] + (space + b)) + m;
  }

  lemma SpacedRecord(space: string, fields: seq<Field>, b: string, m: string)
    requires Space(space) && SoundFields(fields) && FieldsText(fields) + ['}'] == b + m
    ensures var e := Record([], SpacedFields(space, fields));
      Sound(e) && Written(e) == (['{'] + (space + b)) + m
  {
    var all := SpacedFields(space, fields);
    FirstField(fields, space, ['}']);
    assert all[1..] == fields[1..] && AcceptedFields(all);
    forall v | Room(v, false) >= 0 ensures MeasuredFields(all, v) {
      assert MeasuredFields(fields, v) && MeasuredField(fields, v);
      assert BehindField(all, v) == BehindField(fields, v) && BehindName(all, v) == BehindName(fields, v);
      assert MeasuredField(all, v);
    }
    assert ['{'] + FieldsText(all) + ['}'] == ['{'] + (space + (FieldsText(fields) + ['}']));
    assert ['{'] + (space + (b + m)) == (['{'] + (space + b)) + m;
  }

  lemma JoinOpen(open: string, space: string, b: string, at: string)
    ensures (open + (space + b)) + at == open + (space + (b + at))
  {
  }

  lemma ArrayFails(s: string, x: string) returns (before: string, more: string, e: Syntax)
    requires s == ['['] + x && ParseValue(s).Malformed?
    ensures var at := ParseValue(s).at; s == before + at && Skip(at) == at && ValueStuck(before, at)
    ensures Sound(e) && Written(e) == before + more
    decreases |s|, 0
  {
    assert s[0] == '[' && s[1..] == x;
    Bracket(s);
    var space := SkipSplit(x);
    var t := Skip(x);
    SkipTwice(x);
    ListStarts(x, t);
    var b, m, elements := ItemsFail(t, []);
    var at := ParseItems(t, []).at;
    ListStuck(space, b, at);
    SpacedList(space, elements, b, m);
    before, more, e := ['['] + (space + b), m, List([], SpacedElements(space, elements));
    JoinOpen(['['], space, b, at);
  }

  lemma ObjectFails(s: string, x: string) returns (before: string, more: string, e: Syntax)
    requires s == ['{'] + x && ParseValue(s).Malformed?
    ensures var at := ParseValue(s).at; s == before + at && Skip(at) == at && ValueStuck(before, at)
    ensures Sound(e) && Written(e) == before + more
    decreases |s|, 0
  {
    assert s[0] == '{' && s[1..] == x;
    Bracket(s);
    var space := SkipSplit(x);
    var t := Skip(x);
    SkipTwice(x);
    RecordStarts(x, t);
    var b, m, fields := MembersFail(t, []);
    var at := ParseMembers(t, []).at;
    RecordStuck(space, b, at);
    SpacedRecord(space, fields, b, m);
    before, more, e := ['{'] + (space + b), m, Record([], SpacedFields(space, fields));
    JoinOpen(['{'], space, b, at);
  }

  lemma {:induction false} ValueFails(s: string) returns (before: string, more: string, e: Syntax)
    requires ParseValue(s).Malformed? && Skip(s) == s
    ensures var at := ParseValue(s).at; s == before + at && Skip(at) == at && ValueStuck(before, at)
    ensures Sound(e) && Written(e) == before + more
    decreases |s|, 1
  {
    if Peek(s) == '[' {
      assert s == ['['] + s[1..];
      before, more, e := ArrayFails(s, s[1..]);
    } else if Peek(s) == '{' {
      assert s == ['{'] + s[1..];
      before, more, e := ObjectFails(s, s[1..]);
    } else {
      NoValue(s);
      before, more, e := [], "null", Word(Null);
    }
  }

  // ---------- Members ----------

  lemma MembersOn(f: Field, u: string, members: seq<Member>)
    requires LooseField(f, u) && Skip(u) == u
    ensures var m := Member(PiecesBytes(f.name, UNSET), Tree(f.element.value));
      ParseMembers(FieldText(f) + u, members)
      == if !NameFits(f, ElementText(f.element) + u) || !Measured(f.element.value, f.element.after + u) then Undefined
         else if Peek(u) == ',' then ParseMembers(u[1..], members + [m])
         else if Peek(u) == '}' then Ok(Object(members + [m]), u[1..])
         else Malformed(u)
  {
    FieldIsRead(f, u);
  }

  lemma MembersStuckFirst(b: string, at: string)
    requires MemberStuck(b, at)
    ensures MembersStuck(b, at)
  {
    forall u, members: seq<Member> | Same(u, at) ensures Stuck(ParseMembers(b + u, members), u) {
      assert Stuck(ParseMember(b + u), u);
    }
  }

  /** The strings of a field fit, with u behind it. */
  predicate FieldFits(f: Field, u: string)
    requires AcceptedPieces(f.name, UNSET) && Accepted(f.element.value)
  {
    NameFits(f, ElementText(f.element) + u) && Measured(f.element.value, f.element.after + u)
  }

  lemma FieldSafer(f: Field, u: string, v: string)
    requires AcceptedPieces(f.name, UNSET) && Accepted(f.element.value) && FieldFits(f, u) && Safer(u, v)
    ensures FieldFits(f, v)
  {
    SaferJoin(f.element.after, u, v);
    Remeasured(f.element.value, f.element.after + u, f.element.after + v);
    var x, y := ElementText(f.element) + u, ElementText(f.element) + v;
    SaferJoin(ElementText(f.element), u, v);
    NameSafer(f, x, y);
  }

  lemma NameSafer(f: Field, x: string, y: string)
    requires AcceptedPieces(f.name, UNSET) && NameFits(f, x) && Safer(x, y)
    ensures NameFits(f, y)
  {
    SaferJoin([':'], x, y);
    SaferJoin(f.after, [':'] + x, [':'] + y);
    SaferJoin(['\"'], f.after + ([':'] + x), f.after + ([':'] + y));
    FitsElsewhere(f.name, ['\"'] + (f.after + ([':'] + x)), ['\"'] + (f.after + ([':'] + y)));
  }

  lemma MembersLater(f: Field, b: string, members: seq<Member>)
    requires AcceptedField(f) && AcceptedElement(f.element)
    ensures ParseMembers(FieldText(f) + ([','] + b), members)
      == if FieldFits(f, [','] + b) then ParseMembers(b, members + [TreeField(f)]) else Undefined
  {
    var next := [','] + b;
    assert next[1..] == b;
    BehindSpace(f.element.after, next);
    Unspaced(next);
    MembersOn(f, next, members);
  }

  lemma MembersStuckLater(f: Field, b: string, at: string)
    requires AcceptedField(f) && AcceptedElement(f.element) && FieldFits(f, [','] + (b + at)) && MembersStuck(b, at)
    ensures MembersStuck(FieldText(f) + ([','] + b), at)
  {
    forall u, members: seq<Member> | Same(u, at)
      ensures Stuck(ParseMembers((FieldText(f) + ([','] + b)) + u, members), u)
    {
      JoinComma(FieldText(f), b, u);
      MembersLater(f, b + u, members);
      if !Trailing(u) {
        SaferSame(u, at);
        SaferJoin(b, at, u);
        SaferJoin([','], b + at, b + u);
        FieldSafer(f, [','] + (b + at), [','] + (b + u));
      }
    }
  }

  lemma JoinComma(text: string, b: string, u: string)
    ensures (text + ([','] + b)) + u == text + ([','] + (b + u))
  {
  }

  lemma MembersStuckBehind(f: Field, at: string)
    requires LooseField(f, at) && FieldFits(f, at) && Skip(at) == at && Peek(at) != ',' && Peek(at) != '}'
    ensures MembersStuck(FieldText(f), at)
  {
    forall u, members: seq<Member> | Same(u, at)
      ensures Stuck(ParseMembers(FieldText(f) + u, members), u)
    {
      if !Trailing(u) {
        SaferSame(u, at);
        FieldSafer(f, at, u);
      }
      EndsSame(f.element.value, f.element.after, u, at);
      Unspaced(at);
      Unspaced(u);
      MembersOn(f, u, members);
    }
  }

  lemma NoName(space: string, at: string)
    requires Space(space) && Skip(at) == at && Peek(at) != '\"'
    ensures MemberStuck(space, at)
  {
    forall u | Same(u, at) ensures Stuck(ParseMember(space + u), u) {
      Unspaced(at);
      Unspaced(u);
      SkipSpace(space, u);
    }
  }

  /** A name, which may not be closed, and no colon behind it. */
  lemma ColonMissing(space: string, name: Syntax, after: string, u: string)
    requires Space(space) && Accepted(name) && (name.Text? || name.Open?) && Space(after) && Ends(name, after + u)
    requires Skip(u) == u && Peek(u) != ':'
    ensures ParseMember((space + (Written(name) + after)) + u)
      == if Measured(name, after + u) then Parsed.Malformed(u) else Undefined
  {
    var t := Written(name) + (after + u);
    JoinOpen(space, Written(name), after, u);
    SkipSpace(space, t);
    ValueBegins(name, after + u);
    NameRead(t, name, after + u);
    SkipSpace(after, u);
  }

  lemma NoColon(space: string, name: Syntax, after: string, at: string)
    requires Space(space) && Accepted(name) && (name.Text? || name.Open?) && Space(after) && Ends(name, after + at)
    requires Measured(name, after + at) && Skip(at) == at && Peek(at) != ':'
    ensures MemberStuck(space + (Written(name) + after), at)
  {
    forall u | Same(u, at) ensures Stuck(ParseMember((space + (Written(name) + after)) + u), u) {
      if !Trailing(u) {
        MeasuredSame(name, after, u, at);
      }
      EndsSame(name, after, u, at);
      Unspaced(at);
      Unspaced(u);
      ColonMissing(space, name, after, u);
    }
  }

  lemma MemberStuckValue(f: Field, space: string, b: string, at: string)
    requires Space(f.before) && AcceptedPieces(f.name, UNSET) && Space(f.after) && Space(space)
    requires NameFits(f, (space + b) + at) && ValueStuck(b, at) && Skip(b + at) == b + at
    ensures MemberStuck((f.before + StringText(f.name) + f.after + [':']) + (space + b), at)
  {
    var name := f.before + StringText(f.name) + f.after + [':'];
    forall u | Same(u, at) ensures Stuck(ParseMember((name + (space + b)) + u), u) {
      Assoc(name, space + b, u);
      SkipFront(space, b, u, at);
      MemberValue(f, (space + b) + u);
      if !Trailing(u) {
        SaferSame(u, at);
        SaferJoin(space + b, at, u);
        NameSafer(f, (space + b) + at, (space + b) + u);
      }
    }
  }

  lemma ConsSoundFields(f: Field, more: seq<Field>, s: string, t: string)
    requires AcceptedField(f) && AcceptedElement(f.element) && Fits(f.name, ['\"'] + s) && Measured(f.element.value, t)
    requires more == [] || SoundFields(more)
    ensures SoundFields([f] + more)
  {
    var all, value := [f] + more, Written(f.element.value);
    assert all[1..] == more && AcceptedFields(all);
    FieldsNulFree(more);
    WrittenNulFree(f.element.value);
    var y := f.element.after + if more == [] then [] else [','] + FieldsText(more);
    forall v | Room(v, false) >= 0 ensures MeasuredFields(all, v) {
      BehindFieldParts(all, v);
      MeasuredInside(f.element.value, t, y, '}', v);
      NameInside(f, s, value, y, v);
      assert BehindName(all, v) == f.after + ([':'] + (f.element.before + (value + (y + (['}'] + v)))));
      assert MeasuredField(all, v);
    }
  }

  lemma NameInside(f: Field, s: string, value: string, y: string, v: string)
    requires AcceptedPieces(f.name, UNSET) && Fits(f.name, ['\"'] + s)
    requires Space(f.after) && Space(f.element.before) && NulFree(value) && NulFree(y) && Room(v, false) >= 0
    ensures Fits(f.name, ['\"'] + (f.after + ([':'] + (f.element.before + (value + (y + (['}'] + v)))))))
  {
    var x, end := f.after + [':'] + f.element.before + value + y, ['}'] + v;
    JoinNulFree(f.after + [':'] + f.element.before + value, y);
    JoinEnd(f.after, f.element.before, value, y, end);
    SaferText(s, x, '}', v);
    SaferJoin(['\"'], s, x + end);
    FitsElsewhere(f.name, ['\"'] + s, ['\"'] + (x + end));
  }

  lemma JoinEnd(a: string, b: string, c: string, d: string, end: string)
    ensures (a + [':'] + b + c + d) + end == a + ([':'] + (b + (c + (d + end))))
  {
  }

  lemma NullField(before: string, pieces: seq<Piece>, after: string) returns (f: Field)
    requires Space(before) && AcceptedPieces(pieces, UNSET) && Space(after)
    requires exists s :: Fits(pieces, ['\"'] + s)
    ensures SoundFields([f]) && FieldText(f) == before + (StringText(pieces) + (after + ":null"))
  {
    f := Field(before, pieces, after, Element([], Word(Null), []));
    assert AcceptedElement(f.element);
    var s :| Fits(pieces, ['\"'] + s);
    ConsSoundFields(f, [], s, []);
    assert [f] + [] == [f];
    FieldParts(f, ElementText(f.element), FieldText(f));
    assert ElementText(f.element) == "null";
    assert before + StringText(pieces) + after + [':'] + "null" == before + (StringText(pieces) + (after + ":null"));
  }

  lemma EmptyFits()
    ensures AcceptedPieces([], UNSET) && Fits([], ['\"'] + [])
  {
  }

  lemma NameFails(s: string) returns (before: string, more: string, f: Field)
    requires ParseMember(s).Malformed? && Peek(Skip(s)) != '\"'
    ensures var at := ParseMember(s).at; s == before + at && Skip(at) == at && MemberStuck(before, at)
    ensures SoundFields([f]) && FieldText(f) == before + more
  {
    before := SkipSplit(s);
    SkipTwice(s);
    NoName(before, Skip(s));
    EmptyFits();
    f := NullField(before, [], []);
    more := StringText([]) + ([] + ":null");
  }

  lemma ColonFails(s: string) returns (before: string, more: string, f: Field)
    requires ParseString(Skip(s)).Ok? && Peek(Skip(ParseString(Skip(s)).rest)) != ':'
    ensures var at := ParseMember(s).at; s == before + at && Skip(at) == at && MemberStuck(before, at)
    ensures SoundFields([f]) && FieldText(f) == before + more
  {
    var space := SkipSplit(s);
    var name, t := TextSplit(Skip(s));
    NameRead(Skip(s), name, t);
    var after := SkipSplit(t);
    var at := Skip(t);
    SkipTwice(t);
    NoColon(space, name, after, at);
    NameCloses(name, t);
    f := NullField(space, name.pieces, after);
    before := space + (Written(name) + after);
    JoinOpen(space, Written(name), after, at);
    PeekFront(after, at);
    more := if name.Open? then "\":null" else ":null";
    ColonText(space, name, after);
  }

  lemma NameCloses(name: Syntax, t: string)
    requires Accepted(name) && (name.Text? || name.Open?) && Ends(name, t) && Measured(name, t)
    ensures exists s :: Fits(name.pieces, ['\"'] + s)
  {
    if name.Open? {
      FitsClosed(name.pieces, t, ['\"'] + []);
    }
  }

  lemma ColonText(space: string, name: Syntax, after: string)
    requires name.Text? || (name.Open? && after == [])
    ensures space + (StringText(name.pieces) + (after + ":null"))
      == (space + (Written(name) + after)) + if name.Open? then "\":null" else ":null"
  {
  }

  lemma MemberFails(s: string) returns (before: string, more: string, f: Field)
    requires ParseMember(s).Malformed?
    ensures var at := ParseMember(s).at; s == before + at && Skip(at) == at && MemberStuck(before, at)
    ensures SoundFields([f]) && FieldText(f) == before + more
    decreases |s|, 2
  {
    if Peek(Skip(s)) != '\"' {
      before, more, f := NameFails(s);
    } else {
      StringNotMalformed(Skip(s));
      var r := ParseString(Skip(s));
      if Peek(Skip(r.rest)) != ':' {
        before, more, f := ColonFails(s);
      } else {
        before, more, f := MemberValueFails(s);
      }
    }
  }

  lemma MemberFront(s: string, space: string, name: string, t: string, after: string, colon: string)
    requires s == space + (name + t) && t == after + colon && colon != [] && colon[0] == ':'
    ensures s == (space + name + after + [':']) + colon[1..]
  {
    assert colon == [':'] + colon[1..];
    JoinName(space, name, after, colon[1..]);
  }

  lemma MemberValueFails(s: string) returns (before: string, more: string, f: Field)
    requires ParseMember(s).Malformed? && ParseString(Skip(s)).Ok? && Peek(Skip(ParseString(Skip(s)).rest)) == ':'
    ensures var at := ParseMember(s).at; s == before + at && Skip(at) == at && MemberStuck(before, at)
    ensures SoundFields([f]) && FieldText(f) == before + more
    decreases |s|, 1
  {
    var space := SkipSplit(s);
    var name, t := NameSplit(Skip(s));
    var after := SkipSplit(t);
    var x := Skip(t)[1..];
    MemberFront(s, space, StringText(name), t, after, Skip(t));
    before, more, f := InnerFails(s, space, name, after, x);
  }

  lemma InnerFails(s: string, space: string, name: seq<Piece>, after: string, x: string)
      returns (before: string, more: string, f: Field)
    requires Space(space) && AcceptedPieces(name, UNSET) && Space(after) && ParseMember(s).Malformed?
    requires s == (space + StringText(name) + after + [':']) + x
    ensures var at := ParseMember(s).at; s == before + at && Skip(at) == at && MemberStuck(before, at)
    ensures SoundFields([f]) && FieldText(f) == before + more
    decreases |s|, 0
  {
    MemberValue(Field(space, name, after, Element([], Word(Null), [])), x);
    var inner := SkipSplit(x);
    SkipTwice(x);
    var b, m, e := ValueFails(Skip(x));
    var at := ParseValue(Skip(x)).at;
    f := Field(space, name, after, Element(inner, e, []));
    assert AcceptedElement(f.element);
    assert x == (inner + b) + at by {
      Assoc(inner, b, at);
    }
    assert NameFits(f, x);
    MemberStuckValue(f, inner, b, at);
    assert Room([], false) == 0;
    assert Measured(e, []);
    ConsSoundFields(f, [], after + ([':'] + x), []);
    assert [f] + [] == [f];
    var front := space + StringText(name) + after + [':'];
    before, more := front + (inner + b), m;
    MemberText(f, inner, b, m);
    JoinOpen(front, inner, b, at);
  }

  lemma MemberText(f: Field, inner: string, b: string, m: string)
    requires f.element.before == inner && Written(f.element.value) == b + m && f.element.after == []
    ensures FieldText(f) == ((f.before + StringText(f.name) + f.after + [':']) + (inner + b)) + m
  {
    FieldParts(f, ElementText(f.element), FieldText(f));
    assert ElementText(f.element) == (inner + b) + m;
    Assoc(f.before + StringText(f.name) + f.after + [':'], inner + b, m);
  }

  lemma FieldCloses(f: Field, u: string) returns (closed: Field, quote: string)
    requires LooseField(f, u) && FieldFits(f, u)
    ensures SoundFields([closed]) && FieldText(closed) == FieldText(f) + quote
  {
    var e;
    e, quote := ElementCloses(f.element, u);
    closed := f.(element := e);
    var s :| Measured(e.value, s);
    ConsSoundFields(closed, [], f.after + ([':'] + (ElementText(f.element) + u)), s);
    assert [closed] + [] == [closed];
    Assoc(f.before + StringText(f.name) + f.after + [':'], ElementText(f.element), quote);
  }

  lemma FieldSplits(s: string) returns (f: Field, u: string)
    requires ParseMember(s).Ok?
    ensures LooseField(f, u) && s == FieldText(f) + u && Skip(u) == u
    ensures ParseMember(s).value == Member(PiecesBytes(f.name, UNSET), Tree(f.element.value))
    ensures u == Skip(ParseMember(s).rest) && FieldFits(f, u)
  {
    var before := SkipSplit(s);
    var name, t := NameSplit(Skip(s));
    var after := SkipSplit(t);
    var colon := Skip(t);
    var element;
    element, u := ElementSplits(colon[1..]);
    f := Field(before, name, after, element);
    FieldJoins(s, f, t, colon, u);
    FieldIsRead(f, u);
  }

  lemma LaterFields(f: Field, more: seq<Field>, b: string, m: string)
    requires AcceptedField(f) && AcceptedFields(more) && more != [] && FieldsText(more) + ['}'] == b + m
    ensures AcceptedFields([f] + more)
    ensures FieldsText([f] + more) + ['}'] == (FieldText(f) + ([','] + b)) + m
  {
    FieldsFront(f, more, ['}']);
    assert (FieldText(f) + ([','] + b)) + m == FieldText(f) + ([','] + (b + m));
  }

  lemma OneField(f: Field)
    requires AcceptedField(f)
    ensures AcceptedFields([f]) && FieldsText([f]) == FieldText(f)
  {
    assert [f][1..] == [] && FieldText(f) + [] == FieldText(f);
  }

  lemma FirstMemberFails(s: string) returns (before: string, more: string, fields: seq<Field>)
    requires ParseMember(s).Malformed?
    ensures var at := ParseMember(s).at; s == before + at && Skip(at) == at && MembersStuck(before, at)
    ensures SoundFields(fields) && FieldsText(fields) + ['}'] == before + more
    decreases |s|, 3
  {
    var m, f;
    before, m, f := MemberFails(s);
    MembersStuckFirst(before, ParseMember(s).at);
    OneField(f);
    more, fields := m + ['}'], [f];
    Assoc(before, m, ['}']);
  }

  lemma LastMemberFails(f: Field, u: string) returns (more: string, fields: seq<Field>)
    requires LooseField(f, u) && FieldFits(f, u) && Skip(u) == u && Peek(u) != ',' && Peek(u) != '}'
    ensures MembersStuck(FieldText(f), u) && SoundFields(fields)
    ensures FieldsText(fields) + ['}'] == FieldText(f) + more
  {
    MembersStuckBehind(f, u);
    var closed, quote := FieldCloses(f, u);
    OneField(closed);
    more, fields := quote + ['}'], [closed];
    Assoc(FieldText(f), quote, ['}']);
  }

  lemma LaterMemberFails(f: Field, u: string, fs: seq<Field>, b: string, m: string, at: string)
    requires LooseField(f, u) && FieldFits(f, u) && Peek(u) == ',' && u[1..] == b + at
    requires SoundFields(fs) && FieldsText(fs) + ['}'] == b + m && MembersStuck(b, at)
    ensures MembersStuck(FieldText(f) + ([','] + b), at) && SoundFields([f] + fs)
    ensures FieldsText([f] + fs) + ['}'] == (FieldText(f) + ([','] + b)) + m
  {
    Unclosed(f.element, u);
    assert u == [','] + (b + at);
    MembersStuckLater(f, b, at);
    LaterFields(f, fs, b, m);
    ConsSoundFields(f, fs, f.after + ([':'] + (ElementText(f.element) + u)), f.element.after + u);
  }

  lemma {:induction false} MembersFail(s: string, members: seq<Member>)
      returns (before: string, more: string, fields: seq<Field>)
    requires ParseMembers(s, members).Malformed?
    ensures var at := ParseMembers(s, members).at; s == before + at && Skip(at) == at && MembersStuck(before, at)
    ensures SoundFields(fields) && FieldsText(fields) + ['}'] == before + more
    decreases |s|, 4
  {
    if ParseMember(s).Malformed? {
      before, more, fields := FirstMemberFails(s);
    } else {
      var f, u := FieldSplits(s);
      var m := Member(PiecesBytes(f.name, UNSET), Tree(f.element.value));
      MembersOn(f, u, members);
      if Peek(u) == ',' {
        var b, rest, fs := MembersFail(u[1..], members + [m]);
        var at := ParseMembers(u[1..], members + [m]).at;
        LaterMemberFails(f, u, fs, b, rest, at);
        before, more, fields := FieldText(f) + ([','] + b), rest, [f] + fs;
        JoinLater(FieldText(f), u, b, at);
      } else {
        more, fields := LastMemberFails(f, u);
        before := FieldText(f);
      }
    }
  }

  /** When cJSON_Parse fails, what stands before the place is the beginning of a text that is accepted, and with the
      same characters there it fails at the same place whatever follows: so the place is the first that is wrong. Only
      behind a text that ends in a backslash may it read on instead, in the first pass over a string. */
  lemma FailurePlace(text: string, at: string)
    requires Parse(text) == Malformed(at)
    ensures exists before, more ::
      && text == before + at && Parse(before + more).Ok?
      && forall u :: Same(u, at) ==> Stuck(Parse(before + u), u)
  {
    var space := SkipSplit(text);
    SkipTwice(text);
    var b, more, e := ValueFails(Skip(text));
    Assoc(space, b, at);
    StuckBehind(space, b, at);
    GoesOn(space, b, more, e);
    assert text == (space + b) + at;
  }

  lemma StuckBehind(space: string, b: string, at: string)
    requires Space(space) && ValueStuck(b, at) && Skip(b + at) == b + at
    ensures forall u :: Same(u, at) ==> Stuck(Parse((space + b) + u), u)
  {
    forall u | Same(u, at) ensures Stuck(Parse((space + b) + u), u) {
      SkipFront(space, b, u, at);
      assert Stuck(ParseValue(b + u), u);
    }
  }

  lemma GoesOn(space: string, b: string, more: string, e: Syntax)
    requires Space(space) && Sound(e) && Written(e) == b + more
    ensures var end := if e.Numeral? then ['\0'] else []; Parse((space + b) + (more + end)).Ok?
  {
    var end := if e.Numeral? then ['\0'] else [];
    Assoc(space, b, more + end);
    Assoc(b, more, end);
    assert Room(end, false) >= 0;
    TextParsed(e, space, end);
  }
}
