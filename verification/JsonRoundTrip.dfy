/** What the JSON printer writes is a text of the grammar, and the parser reads it back. */
module JsonRoundTrip {
  import opened Bits
  import opened Characters
  import opened JsonBuffers
  import opened JsonGrammar
  import opened JsonMeaning
  import opened JsonNumbers
  import opened JsonStrings
  import opened JsonText

  // ---------- Numbers ----------

  lemma {:induction false} ReadDecimal(n: nat, s: string)
    ensures IsDigit(Decimal(n)[0]) && (Decimal(n)[0] == '0' <==> n == 0)
    ensures ReadDigits(Decimal(n) + s, 0) == ReadDigits(s, n)
  {
    var t := Decimal(n) + s;
    if n < 10 {
      assert t[0] == Digit(n) && t[1..] == s;
    } else {
      var u := [Digit(n % 10)] + s;
      ReadDecimal(n / 10, u);
      assert t == Decimal(n / 10) + u;
      assert u[0] == Digit(n % 10) && u[1..] == s;
    }
  }

  /** What may follow a number: nothing that would belong to it. */
  predicate EndsNumber(s: string) {
    !IsDigit(Peek(s)) && Peek(s) != 'e' && Peek(s) != 'E' && (Peek(s) == '.' ==> !IsDigit(Peek(s[1..])))
  }

  lemma ReadWholeDecimal(n: nat, s: string)
    requires EndsNumber(s)
    ensures ReadWhole(Decimal(n) + s) == Digits(n, s)
  {
    ReadDecimal(n, s);
    var t := Decimal(n) + s;
    assert t[0] == Decimal(n)[0];
    if n == 0 {
      assert t[1..] == s;
    } else {
      assert ReadDigits(s, n) == Digits(n, s);
    }
  }

  lemma DecimalTrip(n: nat, negative: bool, s: string)
    requires EndsNumber(s)
    ensures ParseNumber((if negative then ['-'] else []) + (Decimal(n) + s)) == Ok(Number(negative, n, 0, 0), s)
  {
    var t := Decimal(n) + s;
    ReadWholeDecimal(n, s);
    ReadDecimal(n, s);
    if negative {
      assert (['-'] + t)[1..] == t;
    } else {
      assert [] + t == t && t[0] == Decimal(n)[0];
    }
  }

  /** The sign is lost if a signed number is not negative. */
  function NormalInt(value: u64, signed: bool): Json {
    Int(value, signed && value >= 0x8000_0000_0000_0000)
  }

  lemma IntNumber(value: u64, signed: bool, x: int, n: nat)
    requires x == (if signed then ToInt64(value) else value) && n == if x < 0 then 0 - x else x
    ensures Number(x < 0, n, 0, 0) == NormalInt(value, signed)
    ensures if x < 0 then n <= 0x8000_0000_0000_0000 else n < 0x1_0000_0000_0000_0000
  {
    DivModUnique(if x < 0 then 0 - n else n, 0x1_0000_0000_0000_0000, if x < 0 then -1 else 0, value);
  }

  lemma SignedText(x: int, n: nat, rest: string)
    requires n == if x < 0 then 0 - x else x
    ensures SignedDecimal(x) + rest == (if x < 0 then ['-'] else []) + (Decimal(n) + rest)
    ensures (SignedDecimal(x) + rest)[0] == if x < 0 then '-' else Decimal(n)[0]
  {
    assert "-" == ['-'];
  }

  lemma IntTrip(value: u64, signed: bool, rest: string)
    requires EndsNumber(rest)
    ensures var t := PrintInt(value, signed) + rest;
      && (t[0] == '-' || IsDigit(t[0]))
      && ParseNumber(t) == Ok(NormalInt(value, signed), rest)
  {
    var x := if signed then ToInt64(value) else value;
    var n: nat := if x < 0 then 0 - x else x;
    IntNumber(value, signed, x, n);
    SignedText(x, n, rest);
    ReadDecimal(n, rest);
    DecimalTrip(n, x < 0, rest);
  }

  // ---------- Trees ----------

  /** The tree with the signs as the parser sets them. */
  function Normal(v: Json): Json
    decreases v
  {
    match v
    case Int(value, signed) => NormalInt(value, signed)
    case Array(items) => Array(NormalItems(items))
    case Object(members) => Object(NormalMembers(members))
    case _ => v
  }

  function NormalItems(items: seq<Json>): seq<Json>
    decreases items
  {
    if items == [] then [] else [Normal(items[0])] + NormalItems(items[1..])
  }

  function NormalMembers(members: seq<Member>): seq<Member>
    decreases members
  {
    if members == [] then [] else [NormalMember(members[0])] + NormalMembers(members[1..])
  }

  function NormalMember(m: Member): Member
    decreases m
  {
    Member(m.name, Normal(m.value))
  }

  /** Every integer marked as signed is negative. */
  ghost predicate Canonical(v: Json) {
    match v
    case Int(value, signed) => signed ==> value >= 0x8000_0000_0000_0000
    case Array(items) => forall i :: 0 <= i < |items| ==> Canonical(items[i])
    case Object(members) => forall i :: 0 <= i < |members| ==> Canonical(members[i].value)
    case _ => true
  }

  lemma {:induction false} NormalIff(v: Json)
    ensures Normal(v) == v <==> Canonical(v)
    decreases v, 1
  {
    match v
    case Array(items) => NormalItemsAt(items);
      forall i | 0 <= i < |items| ensures NormalItems(items)[i] == items[i] <==> Canonical(items[i]) {
        NormalIff(items[i]);
      }
    case Object(members) => NormalMembersAt(members);
      forall i | 0 <= i < |members| ensures NormalMembers(members)[i] == members[i] <==> Canonical(members[i].value) {
        NormalIff(members[i].value);
      }
    case _ =>
  }

  lemma {:induction false} NormalItemsAt(items: seq<Json>)
    ensures |NormalItems(items)| == |items|
    ensures forall i :: 0 <= i < |items| ==> NormalItems(items)[i] == Normal(items[i])
  {
    if items != [] {
      NormalItemsAt(items[1..]);
      forall i | 0 < i < |items| ensures NormalItems(items)[i] == Normal(items[i]) {
        assert NormalItems(items)[i] == NormalItems(items[1..])[i - 1];
      }
    }
  }

  lemma {:induction false} NormalMembersAt(members: seq<Member>)
    ensures |NormalMembers(members)| == |members|
    ensures forall i :: 0 <= i < |members| ==> NormalMembers(members)[i] == NormalMember(members[i])
  {
    if members != [] {
      NormalMembersAt(members[1..]);
      forall i | 0 < i < |members| ensures NormalMembers(members)[i] == NormalMember(members[i]) {
        assert NormalMembers(members)[i] == NormalMembers(members[1..])[i - 1];
      }
    }
  }

  // ---------- The printed text in the grammar ----------

  lemma HexDigitValue(d: nat)
    requires d < 16
    ensures IsHex(HexDigit(d)) && HexValue(HexDigit(d)) == d
  {
  }

  function PieceOf(c: char): Piece
    requires c != '\0'
  {
    if IsPlain(c) then Raw(c) else if ShortEscape(c) != 'u' then Short(ShortEscape(c)) else Unicode(Hex4(c as int))
  }

  lemma PieceIs(c: char)
    requires c != '\0'
    ensures var p := PieceOf(c);
      StandardPiece(p) && KeptPiece(p) && PieceText(p) == EscapeChar(c) && PieceCharacters(p) == [c]
  {
    if !IsPlain(c) && ShortEscape(c) == 'u' {
      HexDigitValue(c as int / 16);
      HexDigitValue(c as int % 16);
      assert ReadHex4(Hex4(c as int)) == c as int;
    }
  }

  function PiecesOf(s: string): seq<Piece>
    requires NulFree(s)
  {
    if s == [] then [] else [PieceOf(s[0])] + PiecesOf(s[1..])
  }

  lemma {:induction false} PiecesStand(s: string)
    requires NulFree(s)
    ensures var ps := PiecesOf(s);
      StandardPieces(ps) && KeptPieces(ps) && PiecesText(ps) == Escape(s) && StringCharacters(ps) == s
  {
    if s != [] {
      PieceIs(s[0]);
      PiecesStand(s[1..]);
      var ps := PiecesOf(s);
      assert ps[0] == PieceOf(s[0]) && ps[1..] == PiecesOf(s[1..]);
      assert [s[0]] + s[1..] == s;
    }
  }

  lemma PiecesAre(s: string, h: Held)
    requires NulFree(s)
    ensures var ps := PiecesOf(s);
      && StandardPieces(ps) && AcceptedPieces(ps, h) && KeptPieces(ps)
      && PiecesText(ps) == Escape(s) && PiecesBytes(ps, h) == s
  {
    PiecesStand(s);
    PiecesIff(PiecesOf(s), h);
  }

  /** A text of the standard that is read as what it stands for. */
  predicate Proper(e: Syntax) { Standard(e) && Accepted(e) && Exact(e) }

  predicate ProperElement(e: Element) { StandardElement(e) && AcceptedElement(e) && ExactElement(e) }

  predicate ProperElements(es: seq<Element>) { StandardElements(es) && AcceptedElements(es) && ExactElements(es) }

  predicate ProperField(f: Field) { StandardField(f) && AcceptedField(f) && ExactField(f) }

  predicate ProperFields(fs: seq<Field>) { StandardFields(fs) && AcceptedFields(fs) && ExactFields(fs) }

  ghost function SyntaxOf(v: Json, depth: nat, fmt: bool): Syntax
    requires Plain(v)
    decreases v
  {
    match v
    case Int(value, signed) =>
      var x := if signed then ToInt64(value) else value;
      Numeral(x < 0, Decimal(if x < 0 then 0 - x else x), [], NoExponent)
    case Str(s) => Text(PiecesOf(s))
    case Array(items) => List([], ElementsOf(items, depth + 1, fmt, []))
    case Object(members) => Record(Line(fmt) + Indent(depth, fmt), FieldsOf(members, depth + 1, fmt, depth))
    case _ => Word(v)
  }

  /** The formatted output has a blank before every item but the first. */
  ghost function ElementsOf(items: seq<Json>, depth: nat, fmt: bool, before: string): seq<Element>
    requires PlainItems(items)
    decreases items
  {
    if items == [] then [] else
      [Element(before, SyntaxOf(items[0], depth, fmt), [])]
      + ElementsOf(items[1..], depth, fmt, if fmt then [' '] else [])
  }

  /** It has a line for every member, and one for the bracket. */
  ghost function FieldsOf(members: seq<Member>, depth: nat, fmt: bool, outer: nat): seq<Field>
    requires PlainMembers(members)
    decreases members
  {
    if members == [] then [] else
      [FieldOf(members[0], depth, fmt, if |members| == 1 then Line(fmt) + Indent(outer, fmt) else [])]
      + FieldsOf(members[1..], depth, fmt, outer)
  }

  ghost function FieldOf(m: Member, depth: nat, fmt: bool, after: string): Field
    requires NulFree(m.name) && Plain(m.value)
    decreases m
  {
    Field(Line(fmt) + Indent(depth, fmt), PiecesOf(m.name), [],
      Element(if fmt then ['\t'] else [], SyntaxOf(m.value, depth, fmt), after))
  }

  lemma {:induction false} DecimalIs(n: nat)
    ensures Decimals(Decimal(n)) && ValueOf(Decimal(n)) == n && WholePart(Decimal(n))
  {
    ReadDecimal(n, []);
    if n < 10 {
      assert ValueOf([]) == 0;
      ValueNext([], Digit(n));
      assert [] + [Digit(n)] == Decimal(n);
    } else {
      DecimalIs(n / 10);
      ValueNext(Decimal(n / 10), Digit(n % 10));
    }
  }

  /** e is the text of the tree v, and proper. */
  ghost predicate Gives(e: Syntax, text: string, v: Json) { Proper(e) && Written(e) == text && Tree(e) == v }

  ghost predicate GivesElements(es: seq<Element>, text: string, items: seq<Json>) {
    && ProperElements(es) && TreeElements(es) == items && (es == [] <==> items == [])
    && (es != [] ==> ElementsText(es) == text)
  }

  ghost predicate GivesFields(fs: seq<Field>, text: string, members: seq<Member>) {
    && ProperFields(fs) && TreeFields(fs) == members && (fs == [] <==> members == [])
    && (fs != [] ==> FieldsText(fs) == text)
  }

  lemma DigitsText(negative: bool, digits: string)
    ensures NumberText(negative, digits, [], NoExponent, []) == (if negative then "-" else "") + digits
  {
    assert digits + ([] + ([] + [])) == digits;
  }

  lemma NumeralGives(negative: bool, n: nat)
    requires FitsWord(negative, n)
    ensures Gives(Numeral(negative, Decimal(n), [], NoExponent), (if negative then "-" else "") + Decimal(n),
      Number(negative, n, 0, 0))
  {
    var digits := Decimal(n);
    DecimalIs(n);
    DigitsText(negative, digits);
    assert digits + [] == digits;
  }

  lemma SignedIs(x: int, n: nat)
    requires n == if x < 0 then 0 - x else x
    ensures SignedDecimal(x) == (if x < 0 then "-" else "") + Decimal(n)
  {
    assert "" + Decimal(n) == Decimal(n);
  }

  lemma IntGives(value: u64, signed: bool, x: int, n: nat)
    requires x == (if signed then ToInt64(value) else value) && n == if x < 0 then 0 - x else x
    ensures Gives(Numeral(x < 0, Decimal(n), [], NoExponent), PrintInt(value, signed), NormalInt(value, signed))
  {
    IntNumber(value, signed, x, n);
    NumeralGives(x < 0, n);
    SignedIs(x, n);
  }

  lemma TextGives(s: string)
    requires NulFree(s)
    ensures Gives(Text(PiecesOf(s)), PrintString(s), Str(s))
  {
    PiecesAre(s, UNSET);
  }

  lemma WordGives(v: Json)
    requires v.Null? || v.False? || v.True?
    ensures Gives(Word(v), WordText(v), v)
  {
  }

  /** What is printed is a text of the grammar that is read as what it stands for, and its tree is the one printed but
      for the signs. */
  lemma {:induction false} Conforms(v: Json, depth: nat, fmt: bool)
    requires Plain(v)
    ensures Gives(SyntaxOf(v, depth, fmt), PrintValue(v, depth, fmt), Normal(v))
    decreases v, 2
  {
    match v
    case Int(value, signed) =>
      var x := if signed then ToInt64(value) else value;
      IntGives(value, signed, x, if x < 0 then 0 - x else x);
    case Str(s) => TextGives(s);
    case Array(items) => ArrayConforms(items, depth, fmt);
    case Object(members) => ObjectConforms(members, depth, fmt);
    case _ => WordGives(v);
  }

  lemma ListGives(es: seq<Element>, text: string, items: seq<Json>)
    requires GivesElements(es, text, items) && (es == [] ==> text == [])
    ensures Gives(List([], es), ['['] + text + [']'], Array(items))
  {
  }

  lemma {:induction false} ArrayConforms(items: seq<Json>, depth: nat, fmt: bool)
    requires PlainItems(items)
    ensures Gives(SyntaxOf(Array(items), depth, fmt), PrintValue(Array(items), depth, fmt), Normal(Array(items)))
    decreases items, 1
  {
    var text := PrintItems(items, depth + 1, fmt);
    ElementsConform(items, depth + 1, fmt, []);
    assert [] + text == text;
    ListGives(ElementsOf(items, depth + 1, fmt, []), text, NormalItems(items));
  }

  lemma ItemText(before: string, value: string, space: string, tail: string)
    ensures (before + value + []) + ([','] + (space + tail)) == before + (value + ([','] + space) + tail)
    ensures (before + value + []) + [] == before + (value + [] + [])
  {
  }

  lemma NextElement(before: string, e: Syntax, value: string, v: Json, more: seq<Element>, space: string, tail: string,
                    items: seq<Json>)
    requires Blank(before) && Gives(e, value, v)
    requires GivesElements(more, space + tail, items) && (more == [] ==> tail == [])
    ensures GivesElements([Element(before, e, [])] + more,
      before + (value + (if more == [] then [] else [','] + space) + tail), [v] + items)
  {
    var first := Element(before, e, []);
    var es := [first] + more;
    assert es[1..] == more && ProperElement(first);
    ItemText(before, value, space, tail);
  }

  lemma {:induction false} ElementsConform(items: seq<Json>, depth: nat, fmt: bool, before: string)
    requires PlainItems(items) && Blank(before)
    ensures GivesElements(ElementsOf(items, depth, fmt, before), before + PrintItems(items, depth, fmt),
      NormalItems(items))
    decreases items, 0
  {
    if items != [] {
      var space := if fmt then [' '] else [];
      Conforms(items[0], depth, fmt);
      ElementsConform(items[1..], depth, fmt, space);
      NextElement(before, SyntaxOf(items[0], depth, fmt), PrintValue(items[0], depth, fmt), Normal(items[0]),
        ElementsOf(items[1..], depth, fmt, space), space, PrintItems(items[1..], depth, fmt), NormalItems(items[1..]));
      assert [','] + space == if fmt then [',', ' '] else [','];
    }
  }

  lemma RecordGives(fs: seq<Field>, line: string, text: string, indent: string, members: seq<Member>)
    requires GivesFields(fs, line + text + indent, members) && (fs == [] ==> text == []) && Blank(line + indent)
    ensures Gives(Record(line + indent, fs), ['{'] + line + text + indent + ['}'], Object(members))
  {
    var inside := line + indent;
    assert line + [] + indent == inside;
    assert ['{'] + line + text + indent + ['}'] == ['{'] + (line + text + indent) + ['}'];
  }

  lemma {:induction false} ObjectConforms(members: seq<Member>, depth: nat, fmt: bool)
    requires PlainMembers(members)
    ensures Gives(SyntaxOf(Object(members), depth, fmt), PrintValue(Object(members), depth, fmt),
      Normal(Object(members)))
    decreases members, 1
  {
    FieldsConform(members, depth + 1, fmt, depth);
    RecordGives(FieldsOf(members, depth + 1, fmt, depth), Line(fmt), PrintMembers(members, depth + 1, fmt),
      Indent(depth, fmt), NormalMembers(members));
  }

  lemma FieldProper(f: Field, v: Json, name: string)
    requires Blank(f.before) && Blank(f.after) && ProperElement(f.element) && Tree(f.element.value) == v
    requires StandardPieces(f.name) && AcceptedPieces(f.name, UNSET) && KeptPieces(f.name)
    requires PiecesBytes(f.name, UNSET) == name
    ensures ProperField(f) && TreeField(f) == Member(name, v)
  {
  }

  lemma FieldGives(before: string, pieces: seq<Piece>, name: string, tab: string, e: Syntax, value: string, v: Json,
                   after: string)
    requires Blank(before) && Blank(tab) && Blank(after) && Gives(e, value, v)
    requires StandardPieces(pieces) && AcceptedPieces(pieces, UNSET) && KeptPieces(pieces)
    requires PiecesBytes(pieces, UNSET) == name
    ensures var f := Field(before, pieces, [], Element(tab, e, after));
      && ProperField(f) && TreeField(f) == Member(name, v)
      && FieldText(f) == before + StringText(pieces) + [] + [':'] + (tab + value + after)
  {
    var f := Field(before, pieces, [], Element(tab, e, after));
    FieldProper(f, v, name);
    FieldParts(f, ElementText(f.element), FieldText(f));
  }

  lemma FieldIs(m: Member, depth: nat, fmt: bool, after: string)
    requires NulFree(m.name) && Plain(m.value) && Blank(after)
    requires Gives(SyntaxOf(m.value, depth, fmt), PrintValue(m.value, depth, fmt), Normal(m.value))
    ensures var f := FieldOf(m, depth, fmt, after);
      && ProperField(f) && TreeField(f) == NormalMember(m)
      && FieldText(f) == Line(fmt) + PrintMember(m, depth, fmt) + after
  {
    var tab, value := if fmt then ['\t'] else [], PrintValue(m.value, depth, fmt);
    PiecesAre(m.name, UNSET);
    FieldGives(Line(fmt) + Indent(depth, fmt), PiecesOf(m.name), m.name, tab, SyntaxOf(m.value, depth, fmt), value,
      Normal(m.value), after);
    JoinMember(Line(fmt), Indent(depth, fmt), PrintString(m.name), tab, value, after);
  }

  lemma JoinMember(line: string, indent: string, name: string, tab: string, value: string, after: string)
    ensures (line + indent) + name + [] + [':'] + (tab + value + after)
      == line + (indent + name + [':'] + tab + value) + after
  {
  }

  lemma MembersText(line: string, member: string, tail: string, indent: string)
    ensures (line + member + []) + ([','] + (line + tail + indent)) == line + (member + [','] + line + tail) + indent
    ensures (line + member + (line + indent)) + [] == line + (member + [] + line + []) + indent
  {
  }

  lemma NextField(f: Field, m: Member, text: string, more: seq<Field>, line: string, tail: string, indent: string,
                  members: seq<Member>)
    requires ProperField(f) && TreeField(f) == m
    requires FieldText(f) == line + text + (if more == [] then line + indent else [])
    requires GivesFields(more, line + tail + indent, members) && (more == [] ==> tail == [])
    ensures GivesFields([f] + more, line + (text + (if more == [] then [] else [',']) + line + tail) + indent,
      [m] + members)
  {
    var fs := [f] + more;
    assert fs[1..] == more;
    MembersText(line, text, tail, indent);
  }

  lemma FirstMember(members: seq<Member>, depth: nat, fmt: bool, outer: nat, m: Member, more: seq<Member>)
    requires PlainMembers(members) && members != [] && m == members[0] && more == members[1..]
    ensures PlainMembers(more) && NulFree(m.name) && Plain(m.value)
    ensures var after := if more == [] then Line(fmt) + Indent(outer, fmt) else [];
      FieldsOf(members, depth, fmt, outer) == [FieldOf(m, depth, fmt, after)] + FieldsOf(more, depth, fmt, outer)
    ensures PrintMembers(members, depth, fmt) == PrintMember(m, depth, fmt) + (if more == [] then [] else [','])
      + Line(fmt) + PrintMembers(more, depth, fmt)
    ensures NormalMembers(members) == [NormalMember(m)] + NormalMembers(more)
  {
  }

  lemma {:induction false} FieldsConform(members: seq<Member>, depth: nat, fmt: bool, outer: nat)
    requires PlainMembers(members)
    ensures GivesFields(FieldsOf(members, depth, fmt, outer),
      Line(fmt) + PrintMembers(members, depth, fmt) + Indent(outer, fmt), NormalMembers(members))
    decreases members, 0
  {
    if members != [] {
      var m, more, line, indent := members[0], members[1..], Line(fmt), Indent(outer, fmt);
      var after := if more == [] then line + indent else [];
      FirstMember(members, depth, fmt, outer, m, more);
      Conforms(m.value, depth, fmt);
      FieldIs(m, depth, fmt, after);
      FieldsConform(more, depth, fmt, outer);
      var text, tail := PrintMember(m, depth, fmt), PrintMembers(more, depth, fmt);
      assert more == [] ==> tail == [];
      NextField(FieldOf(m, depth, fmt, after), NormalMember(m), text, FieldsOf(more, depth, fmt, outer), line, tail,
        indent, NormalMembers(more));
    }
  }

  // ---------- What the printed text stands for ----------

  /** The signs that are lost make no difference to what a tree says. */
  lemma {:induction false} StoredNormal(v: Json)
    ensures Stored(Normal(v)) == Stored(v)
    decreases v, 1
  {
    match v
    case Array(items) => StoredNormalItems(items);
    case Object(members) => StoredNormalMembers(members);
    case _ =>
  }

  lemma {:induction false} StoredNormalItems(items: seq<Json>)
    ensures StoredItems(NormalItems(items)) == StoredItems(items)
    decreases items, 0
  {
    if items != [] {
      StoredNormal(items[0]);
      StoredNormalItems(items[1..]);
      StoredItemsCons(Normal(items[0]), NormalItems(items[1..]));
    }
  }

  lemma {:induction false} StoredNormalMembers(members: seq<Member>)
    ensures StoredMembers(NormalMembers(members)) == StoredMembers(members)
    decreases members, 0
  {
    if members != [] {
      StoredNormal(members[0].value);
      StoredNormalMembers(members[1..]);
      StoredMembersCons(NormalMember(members[0]), NormalMembers(members[1..]));
    }
  }

  /** By RFC 8259, the printed text stands for what the tree says, and parsing it gives a tree that says the same. */
  lemma PrintedMeans(v: Json, depth: nat, fmt: bool)
    requires Plain(v)
    ensures var e := SyntaxOf(v, depth, fmt);
      Standard(e) && Written(e) == PrintValue(v, depth, fmt) && Meaning(e) == Stored(v) == Stored(Normal(v))
  {
    Conforms(v, depth, fmt);
    MeaningIff(SyntaxOf(v, depth, fmt));
    StoredNormal(v);
  }

  // ---------- Round trip ----------

  /** A printed string is read back, whatever follows it. */
  lemma StringTrip(text: string, rest: string)
    requires NulFree(text)
    ensures ParseString(PrintString(text) + rest) == Ok(text, rest)
  {
    PiecesAre(text, UNSET);
    StandardFits(PiecesOf(text), ['\"'] + rest);
    StringRead(PiecesOf(text), rest);
  }

  lemma TextTrip(e: Syntax, text: string, v: Json, rest: string)
    requires Gives(e, text, v) && Ends(e, rest)
    ensures ParseValue(text + rest) == Ok(v, rest)
  {
    StandardMeasured(e, rest);
    ValueRead(e, rest);
  }

  /** Parsing what was printed gives the tree, and stops where the printed text ends. */
  lemma ValueTrip(v: Json, depth: nat, fmt: bool, rest: string)
    requires Plain(v) && (v.Int? ==> EndsNumber(rest))
    ensures ParseValue(PrintValue(v, depth, fmt) + rest) == Ok(Normal(v), rest)
  {
    if v.Int? {
      IntTrip(v.value, v.signed, rest);
      NumberStarts(PrintInt(v.value, v.signed) + rest);
    } else {
      Conforms(v, depth, fmt);
      TextTrip(SyntaxOf(v, depth, fmt), PrintValue(v, depth, fmt), Normal(v), rest);
    }
  }

  /** cJSON_Parse of cJSON_Print or cJSON_PrintUnformatted: the tree comes back
      unchanged if and only if no number that is not negative is marked as signed. */
  lemma RoundTrip(v: Json, fmt: bool)
    requires Plain(v)
    ensures Parse(PrintValue(v, 0, fmt)) == Ok(Normal(v), [])
    ensures Parse(PrintValue(v, 0, fmt)) == Ok(v, []) <==> Canonical(v)
  {
    var text := PrintValue(v, 0, fmt);
    Conforms(v, 0, fmt);
    WholeTrip(SyntaxOf(v, 0, fmt), text, Normal(v));
    NormalIff(v);
  }

  lemma WholeTrip(e: Syntax, text: string, v: Json)
    requires Gives(e, text, v)
    ensures Parse(text) == Ok(v, [])
  {
    StandardMeasured(e, []);
    TextParsed(e, [], []);
    assert [] + (text + []) == text;
  }
}
