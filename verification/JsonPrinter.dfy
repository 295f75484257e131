/** The printing routines of 3rd/json/src/cJSON.c: every routine measures its
    text, allocates a buffer and fills it. Index checks prove that the
    lengths computed cover what is written. */
module JsonPrinter {
  import opened Bits
  import opened Characters
  import opened JsonText

  /** a holds the C string s. */
  ghost predicate CString(a: array<char>, s: string)
    reads a
  {
    |s| < a.Length && a[..|s|] == s && a[|s|] == '\0' && NulFree(s)
  }

  method StrLen(a: array<char>, ghost s: string) returns (n: nat)
    requires CString(a, s)
    ensures n == |s|
  {
    n := 0;
    assert forall k :: 0 <= k < |s| ==> a[k] == s[k];
    while a[n] != '\0'
      invariant n <= |s|
      decreases |s| - n
    {
      n := n + 1;
    }
  }

  /** strcpy to position p of a buffer */
  method StrCpy(out: array<char>, p: nat, src: array<char>, ghost s: string) returns (q: nat)
    requires CString(src, s) && src != out && p + |s| < out.Length
    modifies out
    ensures q == p + |s| && out[..q] == old(out[..p]) + s && out[q] == '\0'
  {
    var n := StrLen(src, s);
    q := p;
    while q < p + n
      invariant p <= q <= p + n
      invariant out[..q] == old(out[..p]) + s[..q - p]
    {
      assert src[..|s|][q - p] == src[q - p];
      out[q] := src[q - p];
      q := q + 1;
    }
    out[q] := '\0';
  }

  /** sprintf to position p of a buffer */
  method Sprintf(out: array<char>, p: nat, s: string) returns (q: nat)
    requires p + |s| < out.Length
    modifies out
    ensures q == p + |s| && out[..q] == old(out[..p]) + s && out[q] == '\0'
  {
    q := p;
    while q < p + |s|
      invariant p <= q <= p + |s|
      invariant out[..q] == old(out[..p]) + s[..q - p]
    {
      out[q] := s[q - p];
      q := q + 1;
    }
    out[q] := '\0';
  }

  method Put(out: array<char>, p: nat, c: char) returns (q: nat)
    requires p < out.Length
    modifies out
    ensures q == p + 1 && out[..q] == old(out[..p]) + [c]
  {
    out[p] := c;
    q := p + 1;
  }

  method PutLast(out: array<char>, p: nat, c: char) returns (q: nat)
    requires p + 1 < out.Length
    modifies out
    ensures q == p + 1 && out[..q] == old(out[..p]) + [c] && out[q] == '\0'
  {
    q := Put(out, p, c);
    out[q] := '\0';
  }

  /** Moving a part from what is left to what is done. */
  lemma MovePart(done: string, part: string, rest: string, all: string)
    requires done + (part + rest) == all
    ensures (done + part) + rest == all && |done| + |part| + |rest| == |all|
  {
    assert done + (part + rest) == (done + part) + rest;
  }

  // ---------- What is printed has no NUL ----------

  lemma {:induction false} EscapeNulFree(s: string)
    requires NulFree(s)
    ensures NulFree(PrintString(s)) && NulFree(Escape(s))
  {
    if s != [] {
      EscapeNulFree(s[1..]);
    }
  }

  lemma {:induction false} DecimalNulFree(n: nat)
    ensures NulFree(Decimal(n))
  {
    if n >= 10 {
      DecimalNulFree(n / 10);
    }
  }

  // ---------- Strings ----------

  method MeasureString(str: string) returns (len: nat)
    requires NulFree(str)
    ensures len == |Escape(str)|
  {
    var i := 0;
    len := 0;
    while i < |str|
      invariant i <= |str|
      invariant len + |Escape(str[i..])| == |Escape(str)|
    {
      assert str[i..][1..] == str[i + 1..];
      len := len + 1;
      if str[i] in "\"\\\U{0008}\U{000c}\n\r\t" {
        len := len + 1;
      } else if str[i] < 32 as char {
        len := len + 5;
      }
      i := i + 1;
    }
  }

  method PrintStringPtr(str: string) returns (out: array<char>)
    requires NulFree(str)
    ensures fresh(out) && CString(out, PrintString(str)) && out.Length == |PrintString(str)| + 1
  {
    var len := MeasureString(str);
    out := new char[len + 3];
    out[0] := '\"';
    var p := PutAllEscaped(out, 1, str);
    p := PutLast(out, p, '\"');
    EscapeNulFree(str);
  }

  method PutAllEscaped(out: array<char>, start: nat, str: string) returns (p: nat)
    requires start + |Escape(str)| < out.Length
    modifies out
    ensures p == start + |Escape(str)| && out[..p] == old(out[..start]) + Escape(str)
  {
    ghost var before, rest := out[..start], Escape(str);
    ghost var all := before + rest;
    var i: nat := 0;
    p := start;
    while i < |str|
      invariant i <= |str| && rest == Escape(str[i..])
      invariant p + |rest| == |all| && out[..p] + rest == all
    {
      EscapeStep(str, i);
      ghost var done := out[..p];
      rest := Escape(str[i + 1..]);
      p := PutEscaped(out, p, str[i]);
      MovePart(done, EscapeChar(str[i]), rest, all);
      i := i + 1;
    }
  }

  lemma EscapeStep(str: string, i: nat)
    requires i < |str|
    ensures Escape(str[i..]) == EscapeChar(str[i]) + Escape(str[i + 1..])
  {
    assert str[i..][1..] == str[i + 1..];
  }

  /** One character of a string, escaped if necessary. */
  method PutEscaped(out: array<char>, p: nat, c: char) returns (q: nat)
    requires p + |EscapeChar(c)| < out.Length
    modifies out
    ensures q == p + |EscapeChar(c)| && out[..q] == old(out[..p]) + EscapeChar(c)
  {
    if c > 31 as char && c != '\"' && c != '\\' {
      q := Put(out, p, c);
    } else {
      q := Put(out, p, '\\');
      match c {
        case '\\' => q := Put(out, q, '\\');
        case '\"' => q := Put(out, q, '\"');
        case '\U{0008}' => q := Put(out, q, 'b');
        case '\U{000c}' => q := Put(out, q, 'f');
        case '\n' => q := Put(out, q, 'n');
        case '\r' => q := Put(out, q, 'r');
        case '\t' => q := Put(out, q, 't');
        case _ => q := Sprintf(out, q, ['u'] + Hex4(c as int));
      }
    }
  }

  // ---------- Integers ----------

  /** (int32) of a u64 */
  function ToInt32(v: u64): int {
    var low := v % 0x1_0000_0000;
    if low < 0x8000_0000 then low else low - 0x1_0000_0000
  }

  lemma ToInt32Exact(v: u64)
    requires -0x8000_0000 <= ToInt64(v) < 0x8000_0000
    ensures ToInt32(v) == ToInt64(v)
  {
    var m := 0x1_0000_0000;
    if v < 0x8000_0000_0000_0000 {
      DivModUnique(v, m, 0, v);
    } else {
      DivModUnique(v, m, m - 1, v - (m - 1) * m);
    }
  }

  function Pow10(k: nat): (r: nat)
    ensures r > 0
  {
    if k == 0 then 1 else 10 * Pow10(k - 1)
  }

  lemma {:induction false} DecimalLength(n: nat, k: nat)
    requires n < Pow10(k) && k > 0
    ensures |Decimal(n)| <= k
  {
    if n >= 10 {
      DecimalLength(n / 10, k - 1);
    }
  }

  lemma U64Length(n: nat)
    requires n <= 0x1_0000_0000_0000_0000
    ensures |Decimal(n)| <= 20
  {
    assert Pow10(5) == 100000;
    assert Pow10(10) == 100000 * 100000;
    assert Pow10(15) == 100000 * 100000 * 100000;
    assert Pow10(20) == 100000 * 100000 * 100000 * 100000;
    DecimalLength(n, 20);
  }

  lemma IntText(value: u64, signed: bool)
    ensures |PrintInt(value, signed)| <= 21 && NulFree(PrintInt(value, signed))
  {
    var x := if signed then ToInt64(value) else value;
    var n: nat := if x < 0 then -x else x;
    U64Length(n);
    DecimalNulFree(n);
  }

  method PrintIntText(value: u64, signed: bool) returns (out: array<char>)
    ensures fresh(out) && CString(out, PrintInt(value, signed))
  {
    out := new char[22];
    IntText(value, signed);
    var v64 := ToInt64(value);
    var text: string;
    if signed {
      if v64 <= 0x7FFF_FFFF && v64 >= -0x8000_0000 {
        ToInt32Exact(value);
        text := SignedDecimal(ToInt32(value));
      } else {
        text := SignedDecimal(v64);
      }
    } else {
      if value <= 0xFFFF_FFFF {
        DivModUnique(value, 0x1_0000_0000, 0, value);
        text := SignedDecimal(value % 0x1_0000_0000);
      } else {
        text := SignedDecimal(value);
      }
    }
    var q := Sprintf(out, 0, text);
  }

  // ---------- Arrays and objects ----------

  lemma {:induction false} PrintNulFree(v: Json, depth: nat, fmt: bool)
    requires Plain(v)
    ensures NulFree(PrintValue(v, depth, fmt))
    decreases v
  {
    match v
    case Int(value, signed) => IntText(value, signed);
    case Str(s) => EscapeNulFree(s);
    case Array(items) => ItemsNulFree(items, depth + 1, fmt);
    case Object(members) => MembersNulFree(members, depth + 1, fmt);
    case _ =>
  }

  lemma {:induction false} ItemsNulFree(items: seq<Json>, depth: nat, fmt: bool)
    requires PlainItems(items)
    ensures NulFree(PrintItems(items, depth, fmt))
    decreases items
  {
    if items != [] {
      PrintNulFree(items[0], depth, fmt);
      ItemsNulFree(items[1..], depth, fmt);
    }
  }

  lemma {:induction false} MembersNulFree(members: seq<Member>, depth: nat, fmt: bool)
    requires PlainMembers(members)
    ensures NulFree(PrintMembers(members, depth, fmt))
    decreases members
  {
    if members != [] {
      MemberNulFree(members[0], depth, fmt);
      MembersNulFree(members[1..], depth, fmt);
    }
  }

  lemma {:induction false} MemberNulFree(m: Member, depth: nat, fmt: bool)
    requires NulFree(m.name) && Plain(m.value)
    ensures NulFree(PrintMember(m, depth, fmt))
    decreases m
  {
    EscapeNulFree(m.name);
    PrintNulFree(m.value, depth, fmt);
  }

  method Print(v: Json, depth: nat, fmt: bool) returns (out: array<char>)
    requires Plain(v)
    ensures fresh(out) && CString(out, PrintValue(v, depth, fmt))
    decreases v, 1
  {
    match v {
      case Null => out := StrDup("null");
      case False => out := StrDup("false");
      case True => out := StrDup("true");
      case Int(value, signed) => out := PrintIntText(value, signed);
      case Str(s) => out := PrintStringPtr(s);
      case Array(items) => out := PrintArray(items, depth, fmt);
      case Object(members) => out := PrintObject(members, depth, fmt);
    }
  }

  method StrDup(s: string) returns (out: array<char>)
    requires NulFree(s)
    ensures fresh(out) && CString(out, s)
  {
    out := new char[|s| + 1];
    var q := Sprintf(out, 0, s);
  }

  /** The buffers hold the texts of the first items. */
  ghost predicate ItemsHeld(entries: seq<array<char>>, items: seq<Json>, depth: nat, fmt: bool)
    requires PlainItems(items)
    reads entries
  {
    |entries| <= |items| && forall k :: 0 <= k < |entries| ==> CString(entries[k], PrintValue(items[k], depth, fmt))
  }

  lemma ItemsHeldExtend(entries: seq<array<char>>, items: seq<Json>, ret: array<char>, depth: nat, fmt: bool)
    requires PlainItems(items) && ItemsHeld(entries, items, depth, fmt) && |entries| < |items|
    requires CString(ret, PrintValue(items[|entries|], depth, fmt))
    ensures ItemsHeld(entries + [ret], items, depth, fmt)
  {
  }

  /** The texts of the items, and the length of the buffer for all of them. */
  method ItemTexts(items: seq<Json>, depth: nat, fmt: bool) returns (entries: seq<array<char>>, len: nat)
    requires PlainItems(items)
    ensures |entries| == |items| && ItemsHeld(entries, items, depth, fmt)
    ensures len >= |PrintItems(items, depth, fmt)| + 3
    decreases items, 0
  {
    entries, len := [], 5;
    var i := 0;
    while i < |items|
      invariant i <= |items| && |entries| == i && ItemsHeld(entries, items, depth, fmt)
      invariant len + |PrintItems(items[i..], depth, fmt)| >= |PrintItems(items, depth, fmt)| + 3
    {
      var ret := Print(items[i], depth, fmt);
      ItemsHeldExtend(entries, items, ret, depth, fmt);
      entries := entries + [ret];
      var n := StrLen(ret, PrintValue(items[i], depth, fmt));
      ItemLength(items, i, depth, fmt);
      len := len + n + 2 + (if fmt then 1 else 0);
      i := i + 1;
    }
  }

  lemma ItemLength(items: seq<Json>, i: nat, depth: nat, fmt: bool)
    requires i < |items| && PlainItems(items)
    ensures |PrintItems(items[i..], depth, fmt)|
         <= |PrintValue(items[i], depth, fmt)| + 2 + (if fmt then 1 else 0) + |PrintItems(items[i + 1..], depth, fmt)|
  {
    ItemsStep(items, i, depth, fmt);
  }

  function Separator(last: bool, fmt: bool): string { if last then [] else if fmt then [',', ' '] else [','] }

  lemma ItemsStep(items: seq<Json>, i: nat, depth: nat, fmt: bool)
    requires i < |items| && PlainItems(items)
    ensures PrintItems(items[i..], depth, fmt)
         == (PrintValue(items[i], depth, fmt) + Separator(i + 1 == |items|, fmt))
          + PrintItems(items[i + 1..], depth, fmt)
  {
    assert items[i..][1..] == items[i + 1..];
  }

  method PutItem(out: array<char>, p: nat, entry: array<char>, ghost v: Json, last: bool, depth: nat, fmt: bool)
      returns (q: nat)
    requires Plain(v) && CString(entry, PrintValue(v, depth, fmt)) && entry != out
    requires p + |PrintValue(v, depth, fmt) + Separator(last, fmt)| < out.Length
    modifies out
    ensures q == p + |PrintValue(v, depth, fmt) + Separator(last, fmt)|
    ensures out[..q] == old(out[..p]) + (PrintValue(v, depth, fmt) + Separator(last, fmt))
  {
    q := StrCpy(out, p, entry, PrintValue(v, depth, fmt));
    if !last {
      q := Put(out, q, ',');
      if fmt {
        q := Put(out, q, ' ');
      }
      out[q] := '\0';
    }
  }

  method PutItems(out: array<char>, start: nat, entries: seq<array<char>>, items: seq<Json>, depth: nat, fmt: bool)
      returns (p: nat)
    requires PlainItems(items) && |entries| == |items| && ItemsHeld(entries, items, depth, fmt) && out !in entries
    requires start + |PrintItems(items, depth, fmt)| < out.Length
    modifies out
    ensures p == start + |PrintItems(items, depth, fmt)|
      && out[..p] == old(out[..start]) + PrintItems(items, depth, fmt)
  {
    ghost var before, rest := out[..start], PrintItems(items, depth, fmt);
    ghost var all := before + rest;
    var i: nat := 0;
    p := start;
    while i < |items|
      invariant i <= |items| && rest == PrintItems(items[i..], depth, fmt)
      invariant p + |rest| == |all| && out[..p] + rest == all
      invariant ItemsHeld(entries, items, depth, fmt)
    {
      ItemsStep(items, i, depth, fmt);
      ghost var done := out[..p];
      ghost var part := PrintValue(items[i], depth, fmt) + Separator(i + 1 == |items|, fmt);
      rest := PrintItems(items[i + 1..], depth, fmt);
      p := PutItem(out, p, entries[i], items[i], i == |items| - 1, depth, fmt);
      MovePart(done, part, rest, all);
      i := i + 1;
    }
  }

  method PrintArray(items: seq<Json>, depth: nat, fmt: bool) returns (out: array<char>)
    requires PlainItems(items)
    ensures fresh(out) && CString(out, PrintValue(Array(items), depth, fmt))
    decreases items, 1
  {
    var entries, len := ItemTexts(items, depth + 1, fmt);
    out := new char[len];
    var end := ComposeArray(out, entries, items, depth + 1, fmt);
    ArrayText(items, depth, fmt);
  }

  method ComposeArray(out: array<char>, entries: seq<array<char>>, items: seq<Json>, depth: nat, fmt: bool)
      returns (p: nat)
    requires PlainItems(items) && |entries| == |items| && ItemsHeld(entries, items, depth, fmt) && out !in entries
    requires |PrintItems(items, depth, fmt)| + 3 <= out.Length
    modifies out
    ensures p == |PrintItems(items, depth, fmt)| + 2 && out[p] == '\0'
    ensures out[..p] == ['['] + PrintItems(items, depth, fmt) + [']']
  {
    p := Put(out, 0, '[');
    out[p] := '\0';
    p := PutItems(out, p, entries, items, depth, fmt);
    p := PutLast(out, p, ']');
  }

  lemma ArrayText(items: seq<Json>, depth: nat, fmt: bool)
    requires PlainItems(items)
    ensures PrintValue(Array(items), depth, fmt) == ['['] + PrintItems(items, depth + 1, fmt) + [']']
    ensures NulFree(PrintValue(Array(items), depth, fmt))
  {
    PrintNulFree(Array(items), depth, fmt);
  }

  method MemberText(m: Member, depth: nat, fmt: bool) returns (str: array<char>, ret: array<char>, n: nat)
    requires NulFree(m.name) && Plain(m.value)
    ensures CString(str, PrintString(m.name)) && CString(ret, PrintValue(m.value, depth, fmt))
    ensures n == |PrintString(m.name)| + |PrintValue(m.value, depth, fmt)|
    decreases m
  {
    str := PrintStringPtr(m.name);
    ret := Print(m.value, depth, fmt);
    var retLength := StrLen(ret, PrintValue(m.value, depth, fmt));
    var strLength := StrLen(str, PrintString(m.name));
    n := retLength + strLength;
  }

  /** The buffers hold the names and the values of the first members. */
  ghost predicate Texts(names: seq<array<char>>, entries: seq<array<char>>, members: seq<Member>, depth: nat, fmt: bool)
    requires PlainMembers(members)
    reads names, entries
  {
    && |names| == |entries| <= |members|
    && forall k :: 0 <= k < |names| ==>
         CString(names[k], PrintString(members[k].name))
           && CString(entries[k], PrintValue(members[k].value, depth, fmt))
  }

  lemma TextsExtend(names: seq<array<char>>, entries: seq<array<char>>, members: seq<Member>,
                    str: array<char>, ret: array<char>, depth: nat, fmt: bool)
    requires PlainMembers(members) && Texts(names, entries, members, depth, fmt) && |names| < |members|
    requires CString(str, PrintString(members[|names|].name))
      && CString(ret, PrintValue(members[|names|].value, depth, fmt))
    ensures Texts(names + [str], entries + [ret], members, depth, fmt)
  {
    var allNames, allEntries := names + [str], entries + [ret];
    forall k | 0 <= k < |allNames|
      ensures CString(allNames[k], PrintString(members[k].name))
      ensures CString(allEntries[k], PrintValue(members[k].value, depth, fmt))
    {
      if k < |names| {
        assert allNames[k] == names[k] && allEntries[k] == entries[k];
      }
    }
  }

  /** The texts of the names and the values, and the length of the buffer for all of them. */
  method MemberTexts(members: seq<Member>, depth: nat, fmt: bool)
      returns (names: seq<array<char>>, entries: seq<array<char>>, len: nat)
    requires PlainMembers(members)
    ensures |names| == |members| && Texts(names, entries, members, depth, fmt)
    ensures len >= |PrintMembers(members, depth, fmt)| + 7 + (if fmt then depth else 0)
    decreases members, 0
  {
    names, entries, len := [], [], 7;
    var i := 0;
    if fmt {
      len := len + depth;
    }
    while i < |members|
      invariant i <= |members| && |names| == i && Texts(names, entries, members, depth, fmt)
      invariant len + |PrintMembers(members[i..], depth, fmt)| >= |PrintMembers(members, depth, fmt)| + 7
        + (if fmt then depth else 0)
    {
      var str, ret, n := MemberText(members[i], depth, fmt);
      TextsExtend(names, entries, members, str, ret, depth, fmt);
      names, entries := names + [str], entries + [ret];
      MemberLength(members, i, depth, fmt);
      len := len + n + 2 + (if fmt then 2 + depth else 0);
      i := i + 1;
    }
  }

  lemma MemberLength(members: seq<Member>, i: nat, depth: nat, fmt: bool)
    requires i < |members| && PlainMembers(members)
    ensures |PrintMembers(members[i..], depth, fmt)|
         <= |PrintValue(members[i].value, depth, fmt)| + |PrintString(members[i].name)| + 2
          + (if fmt then 2 + depth else 0)
          + |PrintMembers(members[i + 1..], depth, fmt)|
  {
    MembersStep(members, i, depth, fmt);
  }

  method PutTabs(out: array<char>, p: nat, n: nat) returns (q: nat)
    requires p + n <= out.Length
    modifies out
    ensures q == p + n && out[..q] == old(out[..p]) + Tabs(n)
  {
    q := p;
    for j := 0 to n
      invariant q == p + j && out[..q] == old(out[..p]) + Tabs(j)
    {
      q := Put(out, q, '\t');
    }
  }

  /** The text of a member before its value. */
  function NameText(name: string, depth: nat, fmt: bool): string {
    Indent(depth, fmt) + PrintString(name) + [':'] + (if fmt then ['\t'] else [])
  }

  method PutName(out: array<char>, p: nat, name: array<char>, ghost text: string, depth: nat, fmt: bool)
      returns (q: nat)
    requires name != out && CString(name, PrintString(text)) && p + |NameText(text, depth, fmt)| < out.Length
    modifies out
    ensures q == p + |NameText(text, depth, fmt)| && out[..q] == old(out[..p]) + NameText(text, depth, fmt)
  {
    q := PutIndent(out, p, depth, fmt);
    q := StrCpy(out, q, name, PrintString(text));
    q := PutColon(out, q, fmt);
  }

  method PutColon(out: array<char>, p: nat, fmt: bool) returns (q: nat)
    requires p + 1 < out.Length
    modifies out
    ensures q == p + (if fmt then 2 else 1)
    ensures out[..q] == old(out[..p]) + [':'] + (if fmt then ['\t'] else [])
  {
    q := Put(out, p, ':');
    if fmt {
      q := Put(out, q, '\t');
    }
  }

  method PutIndent(out: array<char>, p: nat, n: nat, fmt: bool) returns (q: nat)
    requires p + |Indent(n, fmt)| <= out.Length
    modifies out
    ensures q == p + |Indent(n, fmt)| && out[..q] == old(out[..p]) + Indent(n, fmt)
  {
    q := p;
    if fmt {
      q := PutTabs(out, q, n);
    }
  }

  /** What follows a member. */
  function LineEnd(last: bool, fmt: bool): string { (if last then [] else [',']) + Line(fmt) }

  method PutLineEnd(out: array<char>, p: nat, last: bool, fmt: bool) returns (q: nat)
    requires p + |LineEnd(last, fmt)| < out.Length
    modifies out
    ensures q == p + |LineEnd(last, fmt)| && out[..q] == old(out[..p]) + LineEnd(last, fmt)
  {
    q := p;
    if !last {
      q := Put(out, q, ',');
    }
    if fmt {
      q := Put(out, q, '\n');
    }
    out[q] := '\0';
  }

  ghost function LineText(m: Member, last: bool, depth: nat, fmt: bool): string
    requires NulFree(m.name) && Plain(m.value)
  {
    NameText(m.name, depth, fmt) + PrintValue(m.value, depth, fmt) + LineEnd(last, fmt)
  }

  lemma MembersStep(members: seq<Member>, i: nat, depth: nat, fmt: bool)
    requires i < |members| && PlainMembers(members)
    ensures PrintMembers(members[i..], depth, fmt)
         == LineText(members[i], i + 1 == |members|, depth, fmt) + PrintMembers(members[i + 1..], depth, fmt)
  {
    assert members[i..][1..] == members[i + 1..];
  }

  method PutMember(out: array<char>, p: nat, name: array<char>, entry: array<char>, ghost m: Member, last: bool,
                   depth: nat, fmt: bool)
      returns (q: nat)
    requires NulFree(m.name) && Plain(m.value) && name != out && entry != out
    requires CString(name, PrintString(m.name)) && CString(entry, PrintValue(m.value, depth, fmt))
    requires p + |LineText(m, last, depth, fmt)| < out.Length
    modifies out
    ensures q == p + |LineText(m, last, depth, fmt)| && out[..q] == old(out[..p]) + LineText(m, last, depth, fmt)
  {
    q := PutName(out, p, name, m.name, depth, fmt);
    q := StrCpy(out, q, entry, PrintValue(m.value, depth, fmt));
    q := PutLineEnd(out, q, last, fmt);
  }

  method PutMemberAt(out: array<char>, p: nat, names: seq<array<char>>, entries: seq<array<char>>,
                     members: seq<Member>, i: nat, depth: nat, fmt: bool) returns (q: nat)
    requires PlainMembers(members) && i < |names| == |members| && Texts(names, entries, members, depth, fmt)
    requires out !in names && out !in entries
    requires p + |LineText(members[i], i + 1 == |members|, depth, fmt)| < out.Length
    modifies out
    ensures Texts(names, entries, members, depth, fmt)
    ensures q == p + |LineText(members[i], i + 1 == |members|, depth, fmt)|
    ensures out[..q] == old(out[..p]) + LineText(members[i], i + 1 == |members|, depth, fmt)
  {
    q := PutMember(out, p, names[i], entries[i], members[i], i == |members| - 1, depth, fmt);
  }

  /** One member more, of a text whose remainder is given. */
  method PutNextMember(out: array<char>, p: nat, names: seq<array<char>>, entries: seq<array<char>>,
                       members: seq<Member>, i: nat, depth: nat, fmt: bool, ghost rest: string)
      returns (q: nat, ghost next: string)
    requires PlainMembers(members) && i < |names| == |members| && Texts(names, entries, members, depth, fmt)
    requires out !in names && out !in entries
    requires rest == PrintMembers(members[i..], depth, fmt) && p + |rest| < out.Length
    modifies out
    ensures next == PrintMembers(members[i + 1..], depth, fmt) && Texts(names, entries, members, depth, fmt)
    ensures q + |next| == p + |rest| && out[..q] + next == old(out[..p]) + rest
  {
    MembersStep(members, i, depth, fmt);
    ghost var done := out[..p];
    ghost var part := LineText(members[i], i + 1 == |members|, depth, fmt);
    next := PrintMembers(members[i + 1..], depth, fmt);
    MovePart(done, part, next, done + rest);
    q := PutMemberAt(out, p, names, entries, members, i, depth, fmt);
  }

  method PutMembers(out: array<char>, start: nat, names: seq<array<char>>, entries: seq<array<char>>,
                    members: seq<Member>, depth: nat, fmt: bool) returns (p: nat)
    requires PlainMembers(members) && |names| == |members| && Texts(names, entries, members, depth, fmt)
    requires out !in names && out !in entries
    requires start + |PrintMembers(members, depth, fmt)| < out.Length
    modifies out
    ensures p == start + |PrintMembers(members, depth, fmt)|
    ensures out[..p] == old(out[..start]) + PrintMembers(members, depth, fmt)
  {
    ghost var rest := PrintMembers(members, depth, fmt);
    ghost var all := out[..start] + rest;
    p := start;
    assert members[0..] == members;
    for i := 0 to |members|
      invariant rest == PrintMembers(members[i..], depth, fmt) && Texts(names, entries, members, depth, fmt)
      invariant p + |rest| == |all| < out.Length && out[..p] + rest == all
    {
      p, rest := PutNextMember(out, p, names, entries, members, i, depth, fmt, rest);
    }
  }

  method PrintObject(members: seq<Member>, depth: nat, fmt: bool) returns (out: array<char>)
    requires PlainMembers(members)
    ensures fresh(out) && CString(out, PrintValue(Object(members), depth, fmt))
    decreases members, 1
  {
    var names, entries, len := MemberTexts(members, depth + 1, fmt);
    out := new char[len];
    var end := ComposeObject(out, names, entries, members, depth, fmt);
    ObjectText(members, depth, fmt);
  }

  method ComposeObject(out: array<char>, names: seq<array<char>>, entries: seq<array<char>>, members: seq<Member>,
                       depth: nat, fmt: bool)
      returns (p: nat)
    requires PlainMembers(members) && |names| == |members| && Texts(names, entries, members, depth + 1, fmt)
    requires out !in names && out !in entries
    requires |PrintMembers(members, depth + 1, fmt)| + 4 + (if fmt then depth else 0) <= out.Length
    modifies out
    ensures p < out.Length && out[p] == '\0'
    ensures out[..p] == ObjectParts(members, depth, fmt)
  {
    p := PutOpen(out, fmt);
    ghost var open := out[..p];
    p := PutMembers(out, p, names, entries, members, depth + 1, fmt);
    ghost var body := out[..p];
    assert body == open + PrintMembers(members, depth + 1, fmt);
    p := PutClose(out, p, depth, fmt);
    assert out[..p] == body + Indent(depth, fmt) + ['}'];
  }

  ghost function ObjectParts(members: seq<Member>, depth: nat, fmt: bool): string
    requires PlainMembers(members)
  {
    ['{'] + Line(fmt) + PrintMembers(members, depth + 1, fmt) + Indent(depth, fmt) + ['}']
  }

  lemma ObjectText(members: seq<Member>, depth: nat, fmt: bool)
    requires PlainMembers(members)
    ensures PrintValue(Object(members), depth, fmt) == ObjectParts(members, depth, fmt)
    ensures NulFree(PrintValue(Object(members), depth, fmt))
  {
    PrintNulFree(Object(members), depth, fmt);
  }

  method PutOpen(out: array<char>, fmt: bool) returns (p: nat)
    requires out.Length > 2
    modifies out
    ensures 1 <= p <= 2 && out[..p] == ['{'] + Line(fmt)
  {
    out[0] := '{';
    p := 1;
    if fmt {
      p := Put(out, p, '\n');
    }
    out[p] := '\0';
  }

  method PutClose(out: array<char>, p: nat, depth: nat, fmt: bool) returns (q: nat)
    requires p + (if fmt then depth else 0) + 2 <= out.Length
    modifies out
    ensures q == p + (if fmt then depth else 0) + 1 && out[q] == '\0'
    ensures out[..q] == old(out[..p]) + Indent(depth, fmt) + ['}']
  {
    q := PutIndent(out, p, depth, fmt);
    q := PutLast(out, q, '}');
  }
}
