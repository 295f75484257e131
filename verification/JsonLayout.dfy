/** The printed text of JSON trees, character by character. */
module JsonLayout {
  import opened Bits
  import opened Characters
  import opened JsonText

  // ---------- Strings ----------

  /** A string is printed character by character, between quotes. */
  lemma {:induction false} StringParts(a: string, b: string)
    ensures PrintString([]) == "\"\"" && |PrintString(a)| >= 2
    ensures PrintString(a + b) == PrintString(a)[..|PrintString(a)| - 1] + PrintString(b)[1..]
  {
    if a == [] {
      assert a + b == b;
    } else {
      StringParts(a[1..], b);
      assert (a + b)[1..] == a[1..] + b;
      EscapedParts(EscapeChar(a[0]), Escape(a[1..]), Escape(b), Escape(a[1..] + b));
    }
  }

  lemma EscapedParts(first: string, rest: string, more: string, all: string)
    requires ['\"'] + all + ['\"']
      == (['\"'] + rest + ['\"'])[..|rest| + 1] + (['\"'] + more + ['\"'])[1..]
    ensures ['\"'] + (first + all) + ['\"']
      == (['\"'] + (first + rest) + ['\"'])[..|first| + |rest| + 1] + (['\"'] + more + ['\"'])[1..]
  {
    var q: string := ['\"'];
    assert (q + rest + q)[..|rest| + 1] == q + rest && (q + more + q)[1..] == more + q;
    assert (q + (first + rest) + q)[..|first| + |rest| + 1] == q + (first + rest);
    assert (q + all + q)[1..] == (q + rest + (more + q))[1..];
    assert (q + all + q)[1..] == all + q && (q + rest + (more + q))[1..] == rest + (more + q);
    assert q + (first + all) + q == q + first + (all + q);
  }

  lemma OneCharacter(c: char)
    ensures PrintString([c]) == ['\"'] + EscapeChar(c) + ['\"']
  {
    var s: string := [c];
    assert s[1..] == [] && EscapeChar(c) + [] == EscapeChar(c);
    assert Escape(s) == EscapeChar(c);
  }

  /** From U+0020 on a character is printed as it is, but for the quote and the backslash. */
  lemma PlainPrinted(c: char)
    requires c >= '\U{0020}' && c != '\"' && c != '\\'
    ensures PrintString([c]) == ['\"', c, '\"']
  {
    OneCharacter(c);
  }

  /** Seven characters have an escape of two characters. */
  lemma ShortPrinted()
    ensures PrintString("\"") == "\"\\\"\"" && PrintString("\\") == "\"\\\\\""
    ensures PrintString("\U{0008}") == "\"\\b\"" && PrintString("\U{000c}") == "\"\\f\""
    ensures PrintString("\n") == "\"\\n\"" && PrintString("\r") == "\"\\r\"" && PrintString("\t") == "\"\\t\""
  {
    OneCharacter('\"');
    OneCharacter('\\');
    OneCharacter('\U{0008}');
    OneCharacter('\U{000c}');
    OneCharacter('\n');
    OneCharacter('\r');
    OneCharacter('\t');
  }

  /** The other control characters have their number in hexadecimal digits, in lower case. */
  lemma ControlPrinted(c: char)
    requires c < '\U{0020}' && c !in "\U{0008}\U{000c}\n\r\t"
    ensures PrintString([c]) == "\"\\u00" + ["01"[c as nat / 16], "0123456789abcdef"[c as nat % 16]] + "\""
  {
    OneCharacter(c);
    assert HexDigit(c as nat % 16) == "0123456789abcdef"[c as nat % 16];
  }

  /** A text without control characters, quotes and backslashes is printed as it is. */
  lemma {:induction false} PlainText(s: string)
    requires forall i :: 0 <= i < |s| ==> s[i] >= '\U{0020}' && s[i] != '\"' && s[i] != '\\'
    ensures PrintString(s) == "\"" + s + "\""
  {
    if s != [] {
      assert s == [s[0]] + s[1..];
      PlainText(s[1..]);
      PlainPrinted(s[0]);
      StringParts([s[0]], s[1..]);
    }
  }

  // ---------- Words and numbers ----------

  lemma WordsPrinted(depth: nat, fmt: bool)
    ensures PrintValue(Null, depth, fmt) == "null"
    ensures PrintValue(False, depth, fmt) == "false"
    ensures PrintValue(True, depth, fmt) == "true"
  {
  }

  /** A number is printed by its decimal digits, the last of which is its remainder by ten, without leading zeros. */
  lemma DigitsPrinted(n: nat, d: nat, signed: bool, depth: nat, fmt: bool)
    requires d < 10 && 10 * n + d < 0x8000_0000_0000_0000
    ensures PrintValue(Int(10 * n + d, signed), depth, fmt)
      == (if n == 0 then "" else PrintValue(Int(n, signed), depth, fmt)) + ["0123456789"[d]]
  {
    DivModUnique(10 * n + d, 10, n, d);
    assert Digit(d) == "0123456789"[d];
  }

  /** The same up to 2^64 - 1. */
  lemma UnsignedPrinted(n: nat, d: nat, depth: nat, fmt: bool)
    requires d < 10 && 0 < 10 * n + d < 0x1_0000_0000_0000_0000
    ensures PrintValue(Int(10 * n + d, false), depth, fmt)
      == (if n == 0 then "" else PrintValue(Int(n, false), depth, fmt)) + ["0123456789"[d]]
  {
    DivModUnique(10 * n + d, 10, n, d);
    assert Digit(d) == "0123456789"[d];
  }

  /** A negative number is its complement in 64 bits. */
  lemma NegativePrinted(n: nat, depth: nat, fmt: bool)
    requires 0 < n <= 0x8000_0000_0000_0000
    ensures PrintValue(Int(0x1_0000_0000_0000_0000 - n, true), depth, fmt)
      == "-" + PrintValue(Int(n, false), depth, fmt)
  {
  }

  // ---------- Arrays and objects ----------

  function Joined(parts: seq<string>, between: string): string {
    if parts == [] then [] else if |parts| == 1 then parts[0] else parts[0] + between + Joined(parts[1..], between)
  }

  /** Between two parts, and nowhere else. */
  lemma JoinedParts(first: string, parts: seq<string>, between: string)
    ensures Joined([], between) == [] && Joined([first], between) == first
    ensures parts != [] ==> Joined([first] + parts, between) == first + between + Joined(parts, between)
  {
    assert ([first] + parts)[1..] == parts;
  }

  /** The printed values, one for one. */
  ghost predicate ItemTexts(items: seq<Json>, depth: nat, fmt: bool, texts: seq<string>)
    requires PlainItems(items)
  {
    |texts| == |items| && forall i :: 0 <= i < |items| ==> texts[i] == PrintValue(items[i], depth, fmt)
  }

  lemma {:induction false} ItemsJoined(items: seq<Json>, depth: nat, fmt: bool, texts: seq<string>)
    requires PlainItems(items) && ItemTexts(items, depth, fmt, texts)
    ensures PrintItems(items, depth, fmt) == Joined(texts, if fmt then ", " else ",")
  {
    if items != [] {
      ItemsJoined(items[1..], depth, fmt, texts[1..]);
      var text, rest := PrintValue(items[0], depth, fmt), PrintItems(items[1..], depth, fmt);
      assert ", " == [',', ' '] && "," == [','];
      assert text + [] + [] == text;
    }
  }

  /** An array, with a comma between its items, and a blank behind each comma if it is formatted. */
  lemma ArrayPrinted(items: seq<Json>, depth: nat, fmt: bool, texts: seq<string>)
    requires PlainItems(items) && |texts| == |items|
    requires forall i :: 0 <= i < |items| ==> texts[i] == PrintValue(items[i], depth + 1, fmt)
    ensures PrintValue(Array(items), depth, fmt) == "[" + Joined(texts, if fmt then ", " else ",") + "]"
  {
    ItemsJoined(items, depth + 1, fmt, texts);
    assert "[" == ['['] && "]" == [']'];
  }

  predicate AllTabs(s: string, n: nat) { |s| == n && forall i :: 0 <= i < n ==> s[i] == '\t' }

  lemma TabsAre(s: string, n: nat)
    requires AllTabs(s, n)
    ensures Tabs(n) == s
  {
  }

  /** The members' lines: tabs, the name, a colon and a tab, the value. */
  ghost predicate MemberLines(members: seq<Member>, depth: nat, lead: string, lines: seq<string>)
    requires PlainMembers(members)
  {
    && |lines| == |members|
    && forall i :: 0 <= i < |members| ==>
         lines[i] == lead + PrintString(members[i].name) + ":\t" + PrintValue(members[i].value, depth, true)
  }

  lemma LineIs(m: Member, depth: nat, lead: string)
    requires NulFree(m.name) && Plain(m.value) && AllTabs(lead, depth)
    ensures PrintMember(m, depth, true) == lead + PrintString(m.name) + ":\t" + PrintValue(m.value, depth, true)
  {
    TabsAre(lead, depth);
    var front: string := lead + PrintString(m.name);
    assert ":\t" == [':'] + ['\t'];
    assert front + ":\t" == front + [':'] + ['\t'];
  }

  lemma LinesNext(line: string, rest: string, last: bool)
    ensures line + (if last then [] else [',']) + ['\n'] + rest == line + (if last then "\n" else ",\n") + rest
  {
    assert ",\n" == [','] + ['\n'];
    assert line + (if last then [] else [',']) + ['\n'] == line + (if last then "\n" else ",\n");
  }

  lemma {:induction false} LinesJoined(members: seq<Member>, depth: nat, lead: string, lines: seq<string>)
    requires PlainMembers(members) && AllTabs(lead, depth) && MemberLines(members, depth, lead, lines)
    ensures PrintMembers(members, depth, true) == Joined(lines, ",\n") + (if members == [] then "" else "\n")
  {
    if members != [] {
      LineIs(members[0], depth, lead);
      LinesJoined(members[1..], depth, lead, lines[1..]);
      LinesNext(lines[0], PrintMembers(members[1..], depth, true), |members| == 1);
      if |members| > 1 {
        var rest := Joined(lines[1..], ",\n");
        assert lines[0] + ",\n" + (rest + "\n") == lines[0] + ",\n" + rest + "\n";
      }
    }
  }

  /** A formatted object has a line for every member, with one tab more than the bracket's line. */
  lemma ObjectPrinted(members: seq<Member>, depth: nat, lead: string, close: string, lines: seq<string>)
    requires |lead| == depth + 1 && (forall i :: 0 <= i < |lead| ==> lead[i] == '\t')
    requires |close| == depth && (forall i :: 0 <= i < |close| ==> close[i] == '\t')
    requires PlainMembers(members) && |lines| == |members|
    requires forall i :: 0 <= i < |members| ==>
      lines[i] == lead + PrintString(members[i].name) + ":\t" + PrintValue(members[i].value, depth + 1, true)
    ensures PrintValue(Object(members), depth, true)
      == "{\n" + Joined(lines, ",\n") + (if members == [] then "" else "\n") + close + "}"
  {
    LinesJoined(members, depth + 1, lead, lines);
    TabsAre(close, depth);
    var body := PrintMembers(members, depth + 1, true);
    assert "{\n" == ['{'] + ['\n'] && "}" == ['}'];
    assert "{\n" + (Joined(lines, ",\n") + (if members == [] then "" else "\n"))
      == "{\n" + Joined(lines, ",\n") + (if members == [] then "" else "\n");
  }

  /** The members without a blank: the name, a colon, the value. */
  ghost predicate MemberTexts(members: seq<Member>, depth: nat, texts: seq<string>)
    requires PlainMembers(members)
  {
    && |texts| == |members|
    && forall i :: 0 <= i < |members| ==>
         texts[i] == PrintString(members[i].name) + ":" + PrintValue(members[i].value, depth, false)
  }

  lemma TextIs(m: Member, depth: nat)
    requires NulFree(m.name) && Plain(m.value)
    ensures PrintMember(m, depth, false) == PrintString(m.name) + ":" + PrintValue(m.value, depth, false)
  {
    var name := PrintString(m.name);
    assert [] + name + [':'] + [] == name + ":";
  }

  lemma {:induction false} TextsJoined(members: seq<Member>, depth: nat, texts: seq<string>)
    requires PlainMembers(members) && MemberTexts(members, depth, texts)
    ensures PrintMembers(members, depth, false) == Joined(texts, ",")
  {
    if members != [] {
      TextIs(members[0], depth);
      TextsJoined(members[1..], depth, texts[1..]);
      var text, rest := texts[0], PrintMembers(members[1..], depth, false);
      assert text + [','] + [] + rest == text + "," + rest && text + [] + [] + [] == text;
    }
  }

  /** An object that is not formatted has a comma between its members and nothing else. */
  lemma CompactObjectPrinted(members: seq<Member>, depth: nat, texts: seq<string>)
    requires PlainMembers(members) && |texts| == |members|
    requires forall i :: 0 <= i < |members| ==>
      texts[i] == PrintString(members[i].name) + ":" + PrintValue(members[i].value, depth + 1, false)
    ensures PrintValue(Object(members), depth, false) == "{" + Joined(texts, ",") + "}"
  {
    TextsJoined(members, depth + 1, texts);
    var body := PrintMembers(members, depth + 1, false);
    assert ['{'] + [] + body + [] + ['}'] == "{" + body + "}";
  }

  // ---------- No white space ----------

  /** Where a scan of the text is: outside of strings, in one, or behind a backslash in one. */
  datatype Place = Outside | Inside | Skipping

  function Next(c: char, at: Place): Place {
    match at
    case Outside => if c == '\"' then Inside else Outside
    case Inside => if c == '\"' then Outside else if c == '\\' then Skipping else Inside
    case Skipping => Inside
  }

  function PlaceAfter(s: string, at: Place): Place {
    if s == [] then at else PlaceAfter(s[1..], Next(s[0], at))
  }

  /** The characters outside of strings. */
  function Bare(s: string, at: Place): string {
    if s == [] then [] else (if at.Outside? then [s[0]] else []) + Bare(s[1..], Next(s[0], at))
  }

  predicate NoSpace(s: string) { forall i :: 0 <= i < |s| ==> s[i] > ' ' }

  /** A text that starts and ends outside of strings and has no white space there. */
  predicate Compact(s: string) { PlaceAfter(s, Outside) == Outside && NoSpace(Bare(s, Outside)) }

  lemma {:induction false} Scanned(a: string, b: string, at: Place)
    ensures PlaceAfter(a + b, at) == PlaceAfter(b, PlaceAfter(a, at))
    ensures Bare(a + b, at) == Bare(a, at) + Bare(b, PlaceAfter(a, at))
  {
    if a == [] {
      assert a + b == b;
    } else {
      var next := Next(a[0], at);
      Scanned(a[1..], b, next);
      assert (a + b)[1..] == a[1..] + b && (a + b)[0] == a[0];
      assert PlaceAfter(a, at) == PlaceAfter(a[1..], next);
    }
  }

  lemma CompactJoin(a: string, b: string)
    requires Compact(a) && Compact(b)
    ensures Compact(a + b)
  {
    Scanned(a, b, Outside);
  }

  lemma CompactOne(c: char)
    requires c > ' ' && c != '\"'
    ensures Compact([c]) && Compact([])
  {
    assert [c][1..] == [];
  }

  lemma {:induction false} CompactPlain(s: string)
    requires NoSpace(s) && '\"' !in s
    ensures Compact(s)
  {
    if s != [] {
      CompactPlain(s[1..]);
      CompactOne(s[0]);
      CompactJoin([s[0]], s[1..]);
      assert [s[0]] + s[1..] == s;
    }
  }

  lemma CharScanned(c: char)
    ensures PlaceAfter(EscapeChar(c), Inside) == Inside && Bare(EscapeChar(c), Inside) == []
  {
    var s := EscapeChar(c);
    if IsPlain(c) {
      assert s[1..] == [];
    } else if ShortEscape(c) != 'u' {
      var t: string := s[1..];
      assert t == [ShortEscape(c)] && t[1..] == [];
      assert PlaceAfter(s, Inside) == PlaceAfter(t, Skipping) && Bare(s, Inside) == Bare(t, Skipping);
    } else {
      var t := Hex4(c as int);
      assert s[1..] == ['u'] + t && (['u'] + t)[1..] == t;
      DigitsScanned(t);
    }
  }

  lemma {:induction false} DigitsScanned(s: string)
    requires forall i :: 0 <= i < |s| ==> s[i] != '\"' && s[i] != '\\'
    ensures PlaceAfter(s, Inside) == Inside && Bare(s, Inside) == []
  {
    if s != [] {
      DigitsScanned(s[1..]);
    }
  }

  lemma {:induction false} EscapeScanned(s: string)
    ensures PlaceAfter(Escape(s), Inside) == Inside && Bare(Escape(s), Inside) == []
  {
    if s != [] {
      CharScanned(s[0]);
      EscapeScanned(s[1..]);
      Scanned(EscapeChar(s[0]), Escape(s[1..]), Inside);
    }
  }

  lemma CompactString(s: string)
    ensures Compact(PrintString(s))
  {
    EscapeScanned(s);
    var quote: string := ['\"'];
    assert quote[1..] == [];
    Scanned(quote, Escape(s), Outside);
    Scanned(quote + Escape(s), quote, Outside);
  }

  lemma {:induction false} CompactDecimal(n: nat)
    ensures Compact(Decimal(n))
  {
    if n < 10 {
      CompactOne(Digit(n));
    } else {
      CompactDecimal(n / 10);
      CompactOne(Digit(n % 10));
      CompactJoin(Decimal(n / 10), [Digit(n % 10)]);
    }
  }

  lemma CompactInt(value: u64, signed: bool)
    ensures Compact(PrintInt(value, signed))
  {
    var x := if signed then ToInt64(value) else value;
    CompactDecimal(if x < 0 then 0 - x else x);
    CompactOne('-');
    if x < 0 {
      CompactJoin("-", Decimal(0 - x));
    }
  }

  lemma CompactWord(v: Json)
    requires v.Null? || v.False? || v.True?
    ensures Compact(PrintValue(v, 0, false))
  {
    CompactPlain(PrintValue(v, 0, false));
  }

  /** Unformatted text has no white space outside of strings. */
  lemma {:induction false} NoWhiteSpace(v: Json, depth: nat)
    requires Plain(v)
    ensures Compact(PrintValue(v, depth, false))
    decreases v
  {
    match v
    case Int(value, signed) => CompactInt(value, signed);
    case Str(s) => CompactString(s);
    case Array(items) =>
      CompactItems(items, depth + 1);
      Bracketed('[', PrintItems(items, depth + 1, false), ']');
    case Object(members) =>
      CompactMembers(members, depth + 1);
      var body := PrintMembers(members, depth + 1, false);
      Bracketed('{', body, '}');
      assert ['{'] + [] + body + [] + ['}'] == ['{'] + body + ['}'];
    case _ => CompactWord(v);
  }

  lemma Bracketed(open: char, s: string, close: char)
    requires open > ' ' && open != '\"' && close > ' ' && close != '\"' && Compact(s)
    ensures Compact([open] + s + [close])
  {
    CompactOne(open);
    CompactOne(close);
    CompactJoin([open], s);
    CompactJoin([open] + s, [close]);
  }

  lemma {:induction false} CompactItems(items: seq<Json>, depth: nat)
    requires PlainItems(items)
    ensures Compact(PrintItems(items, depth, false))
    decreases items
  {
    if items != [] {
      NoWhiteSpace(items[0], depth);
      CompactItems(items[1..], depth);
      CompactFollowed(PrintValue(items[0], depth, false), |items| == 1, PrintItems(items[1..], depth, false));
    }
  }

  /** A part, a comma but behind the last part, and the rest. */
  lemma CompactFollowed(part: string, last: bool, rest: string)
    requires Compact(part) && Compact(rest)
    ensures Compact(part + (if last then [] else [',']) + rest)
  {
    CompactOne(',');
    CompactJoin(part, if last then [] else [',']);
    CompactJoin(part + (if last then [] else [',']), rest);
  }

  lemma {:induction false} CompactMembers(members: seq<Member>, depth: nat)
    requires PlainMembers(members)
    ensures Compact(PrintMembers(members, depth, false))
    decreases members
  {
    if members != [] {
      var m := members[0];
      CompactString(m.name);
      NoWhiteSpace(m.value, depth);
      CompactMembers(members[1..], depth);
      CompactOne(':');
      CompactJoin(PrintString(m.name), ":");
      CompactJoin(PrintString(m.name) + ":", PrintValue(m.value, depth, false));
      TextIs(m, depth);
      CompactFollowed(PrintMember(m, depth, false), |members| == 1, PrintMembers(members[1..], depth, false));
      var front: string := PrintMember(m, depth, false) + (if |members| == 1 then [] else [',']);
      assert front + [] == front;
    }
  }

  // ---------- An example ----------

  /** One member. */
  lemma MemberPrinted(m: Member, name: string, value: string)
    requires NulFree(m.name) && Plain(m.value) && PrintString(m.name) == name && PrintValue(m.value, 1, true) == value
    ensures PrintValue(Object([m]), 0, true) == "{\n" + ("\t" + name + ":\t" + value) + "\n}"
  {
    var line := "\t" + name + ":\t" + value;
    ObjectPrinted([m], 0, "\t", [], [line]);
    assert "{\n" + line + "\n" + [] + "}" == "{\n" + line + "\n}";
  }

  lemma CompactMemberPrinted(m: Member, name: string, value: string)
    requires NulFree(m.name) && Plain(m.value) && PrintString(m.name) == name && PrintValue(m.value, 1, false) == value
    ensures PrintValue(Object([m]), 0, false) == "{" + (name + ":" + value) + "}"
  {
    CompactObjectPrinted([m], 0, [name + ":" + value]);
  }

  lemma ExamplePrinted()
    ensures var v := Object([Member("a b", Int(1, false))]);
      Plain(v) && PrintValue(v, 0, true) == "{\n\t\"a b\":\t1\n}" && PrintValue(v, 0, false) == "{\"a b\":1}"
  {
    var name: string := "a b";
    OnePrinted();
    PlainText(name);
    ExampleTexts(Member(name, Int(1, false)), "\"a b\"", "1");
    ExampleIs("\"a b\"", "1");
  }

  lemma ExampleTexts(m: Member, name: string, value: string)
    requires NulFree(m.name) && Plain(m.value) && PrintString(m.name) == name
    requires PrintValue(m.value, 1, true) == PrintValue(m.value, 1, false) == value
    ensures Plain(Object([m])) && PrintValue(Object([m]), 0, true) == "{\n" + ("\t" + name + ":\t" + value) + "\n}"
    ensures PrintValue(Object([m]), 0, false) == "{" + (name + ":" + value) + "}"
  {
    MemberPrinted(m, name, value);
    CompactMemberPrinted(m, name, value);
  }

  lemma ExampleIs(name: string, value: string)
    requires name == "\"a b\"" && value == "1"
    ensures "{\n" + ("\t" + name + ":\t" + value) + "\n}" == "{\n\t\"a b\":\t1\n}"
    ensures "{" + (name + ":" + value) + "}" == "{\"a b\":1}"
  {
  }

  lemma OnePrinted()
    ensures Plain(Int(1, false)) && PrintValue(Int(1, false), 1, true) == PrintValue(Int(1, false), 1, false) == "1"
  {
    UnsignedPrinted(0, 1, 1, true);
    UnsignedPrinted(0, 1, 1, false);
  }
}
