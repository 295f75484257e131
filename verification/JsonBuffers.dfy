/** The two passes of parse_string of 3rd/json/src/cJSON.c over a string: the first measures the buffer that the second
    writes to. Exactly when a write leaves the buffer, and when the first pass runs past the terminator. */
module JsonBuffers {
  import opened Characters
  import opened Collections
  import opened JsonScan
  import opened JsonStrings
  import opened JsonText

  /** How the first pass comes over a text: it stops at a quote, or goes on, perhaps with a backslash whose character is
      still to be skipped. */
  datatype Passed = Stopped(units: nat) | Going(units: nat, skipping: bool)

  function Over(s: string, skipping: bool): Passed {
    if s == [] then Going(0, skipping)
    else if skipping then Over(s[1..], false)
    else if s[0] == '\"' then Stopped(0)
    else OneMore(Over(s[1..], s[0] == '\\'))
  }

  function OneMore(p: Passed): Passed {
    if p.Stopped? then Stopped(p.units + 1) else Going(p.units + 1, p.skipping)
  }

  function Onward(p: Passed, s: string): Passed {
    if p.Stopped? then p else Plus(p.units, Over(s, p.skipping))
  }

  function Plus(units: nat, p: Passed): Passed {
    if p.Stopped? then Stopped(units + p.units) else Going(units + p.units, p.skipping)
  }

  lemma {:induction false} OverJoin(a: string, b: string, skipping: bool)
    ensures Over(a + b, skipping) == Onward(Over(a, skipping), b)
  {
    if a == [] {
      assert a + b == b;
    } else {
      assert (a + b)[1..] == a[1..] + b;
      OverJoin(a[1..], b, !skipping && a[0] == '\\');
    }
  }

  lemma {:induction false} RoomNegative(s: string, skipping: bool)
    ensures Room(s, skipping) >= -1
  {
    if Peek(s) != '\0' {
      RoomNegative(s[1..], !skipping && s[0] == '\\');
    }
  }

  /** What the first pass counts over a text and what is behind it. */
  function RoomBehind(p: Passed, end: string): int {
    if p.Stopped? then p.units
    else if Room(end, p.skipping) < 0 then -1 else p.units + Room(end, p.skipping)
  }

  lemma {:induction false} RoomOver(s: string, end: string, skipping: bool)
    requires NulFree(s)
    ensures Room(s + end, skipping) == RoomBehind(Over(s, skipping), end)
  {
    if s == [] {
      assert s + end == end;
      RoomNegative(end, skipping);
    } else {
      assert (s + end)[1..] == s[1..] + end;
      RoomOver(s[1..], end, !skipping && s[0] == '\\');
    }
  }

  // ---------- What is counted is enough ----------

  function One(b: bool): nat { if b then 1 else 0 }

  /** A unit has at most two characters. */
  lemma {:induction false} UnitsBound(s: string, skipping: bool)
    requires Over(s, skipping).Going?
    ensures var p := Over(s, skipping); 2 * p.units + One(skipping) >= |s| + One(p.skipping)
  {
    if s != [] {
      UnitsBound(s[1..], !skipping && s[0] == '\\');
    }
  }

  lemma PieceNulFree(p: Piece, next: string, h: Held)
    requires AcceptedPiece(p, next, h)
    ensures NulFree(PieceText(p))
  {
  }

  lemma {:induction false} PiecesNulFree(pieces: seq<Piece>, h: Held)
    requires AcceptedPieces(pieces, h)
    ensures NulFree(PiecesText(pieces))
  {
    if pieces != [] {
      var next := PiecesText(pieces[1..]);
      PieceNulFree(pieces[0], next, h);
      PiecesNulFree(pieces[1..], PieceBytes(pieces[0], next, h).held);
    }
  }

  /** The bytes so far are covered by the units so far, with one to spare while a character is to be skipped. */
  predicate Covers(before: bool, p: Passed, bytes: nat) {
    p.Going? ==> p.units + One(before) >= bytes + One(p.skipping)
  }

  lemma NegativeCovers(hex: string, next: string, h: Held, skipping: bool)
    requires IsFour(hex) && Convert(hex + next).Some? && Convert(hex + next).value >= 0x1_0000
    ensures Covers(skipping, Over(ESCAPE + hex, skipping), 4)
  {
    NegativeBegins(hex, next);
    var front, back := ESCAPE + hex[..2], hex[2..];
    assert ESCAPE + hex == front + back;
    assert front[1..][0] == 'u' && front[2..] == hex[..2] && hex[..2][1..] == [hex[1]] && [hex[1]][1..] == [];
    assert front[1..][1..] == hex[..2];
    assert Over([hex[1]], false) == Going(1, false);
    assert Over(hex[..2], false) == Going(2, false);
    assert Over(front, skipping) == Going(3, false);
    OverJoin(front, back, skipping);
    if Over(back, false).Going? {
      UnitsBound(back, false);
    }
  }

  lemma UnicodeCovers(hex: string, next: string, h: Held, skipping: bool)
    requires AcceptedPiece(Unicode(hex), next, h) && Small(h)
    ensures Covers(skipping, Over(PieceText(Unicode(hex)), skipping), |PieceBytes(Unicode(hex), next, h).text|)
  {
    var p := Over(ESCAPE + hex, skipping);
    assert ESCAPE + hex == ['\\', 'u'] + hex;
    if p.Going? {
      UnitsBound(ESCAPE + hex, skipping);
      if Code(Unicode(hex), next, h).value >= 0x1_0000 {
        NegativeCovers(hex, next, h, skipping);
      }
    }
  }

  lemma PieceCovers(p: Piece, next: string, h: Held, skipping: bool)
    requires AcceptedPiece(p, next, h) && Small(h)
    ensures Covers(skipping, Over(PieceText(p), skipping), |PieceBytes(p, next, h).text|)
  {
    match p
    case Raw(c) => assert [c][1..] == [];
    case Short(letter) =>
      var t := ['\\', letter];
      assert t[1..] == [letter] && [letter][1..] == [];
      assert Over([letter], true) == Going(0, false);
      assert Over([letter], false).Going? ==> Over([letter], false) == Going(1, letter == '\\');
    case Unicode(hex) => UnicodeCovers(hex, next, h, skipping);
    case Pair(high, low) =>
      if Over(PieceText(p), skipping).Going? {
        UnitsBound(PieceText(p), skipping);
      }
  }

  lemma PieceSmall(p: Piece, next: string, h: Held)
    requires AcceptedPiece(p, next, h) && Small(h)
    ensures Small(PieceBytes(p, next, h).held)
  {
    PieceRead(p, next, h);
  }

  /** As long as the first pass does not stop, it counts enough. */
  lemma {:induction false} PiecesCover(pieces: seq<Piece>, h: Held, skipping: bool)
    requires AcceptedPieces(pieces, h) && Small(h)
    ensures Covers(skipping, Over(PiecesText(pieces), skipping), |PiecesBytes(pieces, h)|)
  {
    if pieces != [] {
      var p, more, next := pieces[0], pieces[1..], PiecesText(pieces[1..]);
      var held := PieceBytes(p, next, h).held;
      PieceCovers(p, next, h, skipping);
      PieceSmall(p, next, h);
      OverJoin(PieceText(p), next, skipping);
      var first := Over(PieceText(p), skipping);
      if first.Going? {
        PiecesCover(more, held, first.skipping);
      }
    }
  }

  // ---------- When the buffer is long enough ----------

  /** A string is read if and only if the first pass ends, and if it stops at a quote within the string, it has counted
      as many units as there are bytes. */
  lemma FitsIff(pieces: seq<Piece>, end: string)
    requires AcceptedPieces(pieces, UNSET)
    ensures var p := Over(PiecesText(pieces), false);
      Fits(pieces, end) <==>
        if p.Stopped? then p.units >= |PiecesBytes(pieces, UNSET)| else Room(end, p.skipping) >= 0
  {
    PiecesNulFree(pieces, UNSET);
    RoomOver(PiecesText(pieces), end, false);
    PiecesCover(pieces, UNSET, false);
    var p := Over(PiecesText(pieces), false);
    if p.Going? {
      RoomNegative(end, p.skipping);
    }
  }

  /** A quote in the text at which the first pass stops: it is the first one that the pass does not skip. */
  predicate StopsAt(s: string, j: nat) {
    j < |s| && s[j] == '\"' && Over(s[..j], false).Going? && !Over(s[..j], false).skipping
  }

  lemma {:induction false} StopPlace(s: string, skipping: bool) returns (j: nat)
    requires Over(s, skipping).Stopped?
    ensures j < |s| && s[j] == '\"' && Over(s[..j], skipping) == Going(Over(s, skipping).units, false)
  {
    if !skipping && s[0] == '\"' {
      j := 0;
    } else {
      var more := s[1..];
      var k := StopPlace(more, !skipping && s[0] == '\\');
      j := k + 1;
      assert s[..j][1..] == more[..k];
    }
  }

  lemma StopUnits(s: string, j: nat)
    requires StopsAt(s, j)
    ensures Over(s, false) == Stopped(Over(s[..j], false).units)
  {
    assert s == s[..j] + s[j..];
    OverJoin(s[..j], s[j..], false);
  }

  /** A write leaves the buffer if and only if the text of the string, between its quotes, has a quote at which the
      first pass stops, and the string has more bytes than the first pass has counted up to there. The second pass reads
      over such a quote when it is one of the four characters behind \u. */
  lemma LeavesIff(pieces: seq<Piece>, end: string)
    requires AcceptedPieces(pieces, UNSET)
    ensures var text := PiecesText(pieces);
      0 <= Room(text + end, false) < |PiecesBytes(pieces, UNSET)| <==>
        exists j: nat :: StopsAt(text, j) && Over(text[..j], false).units < |PiecesBytes(pieces, UNSET)|
  {
    var text := PiecesText(pieces);
    PiecesNulFree(pieces, UNSET);
    RoomOver(text, end, false);
    PiecesCover(pieces, UNSET, false);
    if Over(text, false).Stopped? {
      var j := StopPlace(text, false);
      assert StopsAt(text, j);
    } else {
      RoomNegative(end, Over(text, false).skipping);
    }
    forall j: nat | StopsAt(text, j) ensures Over(text, false) == Stopped(Over(text[..j], false).units) {
      StopUnits(text, j);
    }
  }

  /** The first pass runs past the terminator if and only if it does not stop in the string and skips the closing quote,
      or there is none, and then comes upon the terminator with a character to skip. */
  lemma RunsPastIff(pieces: seq<Piece>, end: string)
    requires AcceptedPieces(pieces, UNSET) && Closes(end)
    ensures Room(PiecesText(pieces) + end, false) < 0 <==>
      var p := Over(PiecesText(pieces), false);
      p.Going? && p.skipping && (Peek(end) == '\0' || Room(end[1..], false) < 0)
  {
    PiecesNulFree(pieces, UNSET);
    RoomOver(PiecesText(pieces), end, false);
  }

  // ---------- Escapes without a quote ----------

  predicate Clear(s: string) { '\"' !in s && '\\' !in s }

  /** No quote and no backslash among the four characters of an escape. */
  predicate ClearPiece(p: Piece) {
    match p
    case Unicode(hex) => Clear(hex)
    case Pair(high, low) => Clear(high) && Clear(low)
    case _ => true
  }

  predicate ClearPieces(pieces: seq<Piece>) {
    pieces == [] || (ClearPiece(pieces[0]) && ClearPieces(pieces[1..]))
  }

  lemma {:induction false} ClearOver(s: string)
    requires Clear(s)
    ensures Over(s, false) == Going(|s|, false)
  {
    if s != [] {
      ClearOver(s[1..]);
    }
  }

  lemma EscapeOver(s: string)
    requires Clear(s)
    ensures Over(ESCAPE + s, false) == Going(|s| + 1, false)
  {
    ClearOver(s);
    assert (ESCAPE + s)[1..][1..] == s;
  }

  lemma PieceGoes(p: Piece, next: string, h: Held)
    requires AcceptedPiece(p, next, h) && ClearPiece(p)
    ensures var o := Over(PieceText(p), false); o.Going? && !o.skipping
  {
    match p
    case Raw(c) => assert [c][1..] == [];
    case Short(letter) =>
      assert ['\\', letter][1..] == [letter] && [letter][1..] == [];
      assert Over([letter], true) == Going(0, false);
    case Unicode(hex) => EscapeOver(hex);
    case Pair(high, low) =>
      EscapeOver(high);
      EscapeOver(low);
      OverJoin(ESCAPE + high, ESCAPE + low, false);
      assert (ESCAPE + high) + (ESCAPE + low) == ESCAPE + high + ESCAPE + low;
  }

  lemma {:induction false} PiecesGo(pieces: seq<Piece>, h: Held)
    requires AcceptedPieces(pieces, h) && ClearPieces(pieces)
    ensures var o := Over(PiecesText(pieces), false); o.Going? && !o.skipping
  {
    if pieces != [] {
      var next := PiecesText(pieces[1..]);
      PieceGoes(pieces[0], next, h);
      PiecesGo(pieces[1..], PieceBytes(pieces[0], next, h).held);
      OverJoin(PieceText(pieces[0]), next, false);
    }
  }

  /** Such a string fits its buffer, whatever follows. */
  lemma ClearFits(pieces: seq<Piece>, end: string)
    requires AcceptedPieces(pieces, UNSET) && ClearPieces(pieces) && Closes(end)
    ensures Fits(pieces, end)
  {
    PiecesGo(pieces, UNSET);
    FitsIff(pieces, end);
  }

  lemma HexClear(s: string)
    requires IsHex4(s)
    ensures Clear(s)
  {
    forall i | 0 <= i < |s| ensures s[i] != '\"' && s[i] != '\\' {
      assert s[i] == s[0] || s[i] == s[1] || s[i] == s[2] || s[i] == s[3];
    }
  }

  lemma {:induction false} StandardClear(pieces: seq<Piece>)
    requires StandardPieces(pieces)
    ensures ClearPieces(pieces)
  {
    if pieces != [] {
      match pieces[0] {
        case Unicode(hex) => HexClear(hex);
        case Pair(high, low) => HexClear(high); HexClear(low);
        case _ =>
      }
      StandardClear(pieces[1..]);
    }
  }

  lemma StandardFits(pieces: seq<Piece>, end: string)
    requires StandardPieces(pieces) && Closes(end)
    ensures AcceptedPieces(pieces, UNSET) && Fits(pieces, end)
  {
    StandardAccepted(pieces, UNSET);
    StandardClear(pieces);
    ClearFits(pieces, end);
  }

  /** A string of RFC 8259 is read as the characters that it stands for if and only if it has no escape of NUL and no
      pair of escapes whose first half has bit 6 set. */
  lemma StringIff(pieces: seq<Piece>, rest: string)
    requires StandardPieces(pieces)
    ensures ParseString(StringText(pieces) + rest) == Ok(StringCharacters(pieces), rest) <==> KeptPieces(pieces)
  {
    PiecesIff(pieces, UNSET);
    StandardFits(pieces, ['\"'] + rest);
    StringRead(pieces, rest);
  }

  // ---------- A quote behind \u ----------

  function Raws(s: string): seq<Piece> {
    if s == [] then [] else [Raw(s[0])] + Raws(s[1..])
  }

  predicate ReadAs(pieces: seq<Piece>, h: Held, text: string, bytes: string) {
    AcceptedPieces(pieces, h) && PiecesText(pieces) == text && PiecesBytes(pieces, h) == bytes
  }

  lemma RawFirst(c: char, more: seq<Piece>, h: Held, text: string, bytes: string)
    requires c != '\"' && c != '\\' && c != '\0' && ReadAs(more, h, text, bytes)
    ensures ReadAs([Raw(c)] + more, h, [c] + text, [c] + bytes)
  {
    var all := [Raw(c)] + more;
    assert all[1..] == more;
  }

  lemma {:induction false} RawsFirst(s: string, more: seq<Piece>, h: Held, text: string, bytes: string)
    requires Clear(s) && NulFree(s) && ReadAs(more, h, text, bytes)
    ensures ReadAs(Raws(s) + more, h, s + text, s + bytes)
  {
    if s == [] {
      assert Raws(s) + more == more && s + text == text && s + bytes == bytes;
    } else {
      var t := s[1..];
      RawsFirst(t, more, h, text, bytes);
      RawFirst(s[0], Raws(t) + more, h, t + text, t + bytes);
      RawsStep(s, more, text, bytes);
    }
  }

  lemma {:induction false} RawsStep(s: string, more: seq<Piece>, text: string, bytes: string)
    requires s != []
    ensures Raws(s) + more == [Raw(s[0])] + (Raws(s[1..]) + more)
    ensures s + text == [s[0]] + (s[1..] + text) && s + bytes == [s[0]] + (s[1..] + bytes)
  {
    Assoc([Raw(s[0])], Raws(s[1..]), more);
    assert [s[0]] + s[1..] == s;
    Assoc([s[0]], s[1..], text);
    Assoc([s[0]], s[1..], bytes);
  }

  /** The bytes of a code alone. */
  function Alone(uc: nat): string { if uc == 0 || 0xD800 <= uc < 0xE000 then [] else UnitText(uc) }

  /** An escape with a quote among its four characters, behind what is converted. */
  lemma QuoteEscape(digits: string, more: string, b: string, uc: nat)
    requires |digits| + 1 + |more| == 4 && NulFree(digits) && NulFree(more) && Clear(b) && NulFree(b)
    requires Convert(digits) == Some(uc)
    ensures var hex := digits + (['\"'] + more);
      ReadAs([Unicode(hex)] + Raws(b), UNSET, (ESCAPE + hex) + b, Alone(uc) + b)
  {
    var quote := ['\"'] + more;
    var hex := digits + quote;
    var p := Unicode(hex);
    var all := [p] + Raws(b);
    assert all[1..] == Raws(b);
    ConvertFront(digits, quote + b);
    Assoc(digits, quote, b);
    RawsFirst(b, [], UNSET, [], []);
    RawsEnd(b);
    assert Code(p, b, UNSET) == Some(uc);
    assert !StartsUnicode(b) by {
      assert b != [] ==> b[0] != '\\';
    }
    RawsFirst(b, [], PieceBytes(p, b, UNSET).held, [], []);
  }

  lemma RawsEnd(b: string)
    ensures Raws(b) + [] == Raws(b) && b + [] == b
  {
  }

  lemma StopsBehind(a: string, digits: string, more: string)
    requires Clear(a) && Clear(digits)
    ensures Over(a + ((ESCAPE + digits) + (['\"'] + more)), false) == Stopped(|a| + 1 + |digits|)
  {
    var back := ['\"'] + more;
    ClearOver(a);
    EscapeOver(digits);
    OverJoin(ESCAPE + digits, back, false);
    OverJoin(a, (ESCAPE + digits) + back, false);
  }

  lemma StoppedRead(pieces: seq<Piece>, text: string, bytes: string, units: nat, rest: string)
    requires ReadAs(pieces, UNSET, text, bytes) && Over(text, false) == Stopped(units)
    ensures ParseString((['\"'] + text + ['\"']) + rest) == if |bytes| <= units then Ok(bytes, rest) else Undefined
  {
    FitsIff(pieces, ['\"'] + rest);
    StringRead(pieces, rest);
  }

  /** Plain text, \u, a number, a quote, and plain text again: the quote ends the first pass but not the second. The
      string is read if and only if the bytes of the number and of the text behind are no more than the digits and
      one. */
  lemma QuotePassed(a: string, digits: string, more: string, b: string, uc: nat, rest: string)
    requires Clear(a) && NulFree(a) && Clear(b) && NulFree(b)
    requires |digits| + 1 + |more| == 4 && Clear(digits) && NulFree(digits) && NulFree(more)
    requires Convert(digits) == Some(uc)
    ensures var text := a + ((ESCAPE + (digits + (['\"'] + more))) + b);
      ParseString((['\"'] + text + ['\"']) + rest)
      == if |Alone(uc)| + |b| <= 1 + |digits| then Ok(a + (Alone(uc) + b), rest) else Undefined
  {
    var hex := digits + (['\"'] + more);
    var tail := [Unicode(hex)] + Raws(b);
    QuoteEscape(digits, more, b, uc);
    RawsFirst(a, tail, UNSET, (ESCAPE + hex) + b, Alone(uc) + b);
    StopsBehind(a, digits, more + b);
    JoinQuote(digits, more, b);
    StoppedRead(Raws(a) + tail, a + ((ESCAPE + hex) + b), a + (Alone(uc) + b), |a| + 1 + |digits|, rest);
  }

  lemma JoinQuote(digits: string, more: string, b: string)
    ensures (ESCAPE + digits) + (['\"'] + (more + b)) == (ESCAPE + (digits + (['\"'] + more))) + b
  {
  }
}
