/** The strings of JSON: the characters of section 7 of RFC 8259 and what else parse_string of
    3rd/json/src/cJSON.c accepts, what it makes of them, and which of them it reads as what they stand for. */
module JsonStrings {
  import opened Bits
  import opened Characters
  import opened Collections
  import opened JsonCodePoints
  import opened JsonScan
  import opened JsonText

  // ---------- Syntax ----------

  /** A piece of a string; a pair is two Unicode escapes, the first of them the first half of a surrogate pair. */
  datatype Piece = Raw(c: char) | Short(letter: char) | Unicode(hex: string) | Pair(high: string, low: string)

  predicate IsHex4(s: string) { |s| == 4 && StartsHex4(s) }

  /** The characters of RFC 8259. Half a surrogate pair stands for no character (section 8.2). */
  predicate StandardPiece(p: Piece) {
    match p
    case Raw(c) => c >= ' ' && c != '\"' && c != '\\'
    case Short(letter) => letter in {'\"', '\\', '/', 'b', 'f', 'n', 'r', 't'}
    case Unicode(hex) => IsHex4(hex) && !(0xD800 <= ReadHex4(hex) < 0xE000)
    case Pair(high, low) =>
      IsHex4(high) && IsHex4(low) && IsHighSurrogate(ReadHex4(high)) && IsLowSurrogate(ReadHex4(low))
  }

  predicate StandardPieces(pieces: seq<Piece>) {
    pieces == [] || (StandardPiece(pieces[0]) && StandardPieces(pieces[1..]))
  }

  function PieceText(p: Piece): string {
    match p
    case Raw(c) => [c]
    case Short(letter) => ['\\', letter]
    case Unicode(hex) => ['\\', 'u'] + hex
    case Pair(high, low) => ['\\', 'u'] + high + ['\\', 'u'] + low
  }

  function PiecesText(pieces: seq<Piece>): string {
    if pieces == [] then [] else PieceText(pieces[0]) + PiecesText(pieces[1..])
  }

  function StringText(pieces: seq<Piece>): string { ['\"'] + PiecesText(pieces) + ['\"'] }

  const ESCAPE := ['\\', 'u']

  // ---------- What is accepted ----------

  predicate IsFour(s: string) { |s| == 4 && NulFree(s) }

  /** What the variable uc holds for an escape with the text next behind it. */
  function Code(p: Piece, next: string, h: Held): Option<nat>
    requires p.Unicode? || p.Pair?
  {
    Scanned(if p.Unicode? then p.hex + next else p.high + (ESCAPE + (p.low + next)), h.uc)
  }

  /** The parser takes control characters, any letter behind a backslash, and behind \u any four characters, if sscanf
      converts a number there or has done so before. It does not matter whether the number is in the four characters. A
      first half with another escape behind it is a pair, whatever that escape is. */
  predicate AcceptedPiece(p: Piece, next: string, h: Held) {
    match p
    case Raw(c) => c != '\0' && c != '\"' && c != '\\'
    case Short(letter) => letter != '\0' && letter != 'u'
    case Unicode(hex) =>
      && IsFour(hex) && Code(p, next, h).Some?
      && (IsHighSurrogate(Code(p, next, h).value) ==> !StartsUnicode(next))
    case Pair(high, low) =>
      && IsFour(high) && IsFour(low) && Code(p, next, h).Some? && IsHighSurrogate(Code(p, next, h).value)
      && Scanned(low + next, h.uc2).Some?
  }

  predicate AcceptedPieces(pieces: seq<Piece>, h: Held) {
    pieces == [] ||
    (var next := PiecesText(pieces[1..]);
      AcceptedPiece(pieces[0], next, h) && AcceptedPieces(pieces[1..], PieceBytes(pieces[0], next, h).held))
  }

  /** The bytes of a code that is no half of a pair: those of a negative number are the first byte ff and three more. */
  function UnitText(uc: nat): string {
    if uc < 0x1_0000 then Utf8(uc)
    else ['\U{ff}', '\U{bf}', (0x80 + uc / 64 % 64) as char, (0x80 + uc % 64) as char]
  }

  /** What a piece is read as: NUL and half pairs are dropped, and so is the escape behind a first half if it is not a
      second half. */
  function PieceBytes(p: Piece, next: string, h: Held): Bytes
    requires AcceptedPiece(p, next, h)
  {
    match p
    case Raw(c) => Bytes([c], h)
    case Short(letter) => Bytes([Letter(letter)], h)
    case Unicode(_) =>
      var uc := Code(p, next, h).value;
      if uc == 0 || 0xD800 <= uc < 0xE000 then Bytes([], h.(uc := Some(uc)))
      else Bytes(UnitText(uc), h.(uc := Some(LeftOver(uc))))
    case Pair(_, low) =>
      var uc, uc2 := Code(p, next, h).value, Scanned(low + next, h.uc2).value;
      if !IsLowSurrogate(uc2) then Bytes([], Held(Some(uc), Some(uc2)))
      else
        PairReadBound(uc, uc2);
        Bytes(Utf8(PairRead(uc, uc2)), Held(Some(LeftOver(PairRead(uc, uc2))), Some(uc2)))
  }

  function PiecesBytes(pieces: seq<Piece>, h: Held): string
    requires AcceptedPieces(pieces, h)
  {
    if pieces == [] then [] else
      var bytes := PieceBytes(pieces[0], PiecesText(pieces[1..]), h);
      bytes.text + PiecesBytes(pieces[1..], bytes.held)
  }

  // ---------- Meaning ----------

  function Letter(letter: char): char {
    match letter
    case 'b' => '\U{0008}'
    case 'f' => '\U{000c}'
    case 'n' => '\U{000a}'
    case 'r' => '\U{000d}'
    case 't' => '\U{0009}'
    case _ => letter
  }

  /** What a piece stands for, in UTF-8. */
  function PieceCharacters(p: Piece): string
    requires StandardPiece(p)
  {
    match p
    case Raw(c) => [c]
    case Short(letter) => [Letter(letter)]
    case Unicode(hex) => Utf8(ReadHex4(hex))
    case Pair(high, low) =>
      assert PairCodePoint(ReadHex4(high), ReadHex4(low)) < 0x11_0000;
      Utf8(PairCodePoint(ReadHex4(high), ReadHex4(low)))
  }

  function StringCharacters(pieces: seq<Piece>): string
    requires StandardPieces(pieces)
  {
    if pieces == [] then [] else PieceCharacters(pieces[0]) + StringCharacters(pieces[1..])
  }

  /** The code point that a pair is read as. */
  function PairRead(uc: nat, uc2: nat): nat
    requires IsHighSurrogate(uc) && IsLowSurrogate(uc2)
  {
    PairCodePoint(uc, uc2) - 0x1_0000 * (uc / 64 % 2)
  }

  lemma PairReadBound(uc: nat, uc2: nat)
    requires IsHighSurrogate(uc) && IsLowSurrogate(uc2)
    ensures 0x1_0000 <= PairRead(uc, uc2) < 0x11_0000
  {
    if uc < 0xD840 {
      assert uc / 64 == 864;
    }
  }

  // ---------- Reading ----------

  /** The variables hold what is left of a code, or one of which nothing is used up. */
  predicate Small(h: Held) { h.uc.Some? ==> h.uc.value < 0x1_0000 }

  lemma ThreeShifts(x: nat)
    ensures x / 64 / 64 / 64 == x / 0x4_0000 && x / 64 / 64 == x / 0x1000
  {
    var a, b, c := x % 64, x / 64 % 64, x / 64 / 64 % 64;
    DivModUnique(x, 0x1000, x / 64 / 64, 64 * b + a);
    DivModUnique(x, 0x4_0000, x / 64 / 64 / 64, 0x1000 * c + 64 * b + a);
  }

  lemma NegativeLead()
    ensures Or(0x3FFF, 0xF0) == 0x3FFF
  {
    assert Pow2(4) == 16;
    OrComm(0x3FFF, 0xF0);
    OrConcat(0xF, 0xF, 0x3FF, 4);
    assert Or(3, 0xFF) == 0xFF;
    assert Or(0xF, 0x3FF) == 0x3FF;
  }

  lemma NegativeBytes(uc: nat)
    requires 0xFFFF_F000 < uc < 0x1_0000_0000
    ensures CodeBytes(uc) == UnitText(uc) && LeftOver(uc) == 0x3FFF
  {
    ThreeShifts(uc);
    DivModUnique(uc, 0x1000, 0xF_FFFF, uc - 0xFFFF_F000);
    DivModUnique(uc, 0x4_0000, 0x3FFF, uc - 0xFFFC_0000);
    assert Shr(uc, 18) == 0x3FFF by { Pow2Small(); }
    NegativeLead();
    assert Continuation(0xF_FFFF) == '\U{bf}';
  }

  lemma CodeIs(uc: nat)
    requires uc < 0x1_0000 || 0xFFFF_F000 < uc < 0x1_0000_0000
    ensures CodeBytes(uc) == UnitText(uc) && LeftOver(uc) < 0x1_0000
  {
    if uc >= 0x1_0000 {
      NegativeBytes(uc);
    }
  }

  lemma CodeBound(s: string, before: Option<nat>)
    requires Scanned(s, before).Some? && (before.Some? ==> before.value < 0x1_0000)
    ensures var uc := Scanned(s, before).value; uc < 0x1_0000 || 0xFFFF_F000 < uc < 0x1_0000_0000
  {
    if Convert(s).Some? {
      ConvertBound(s);
    }
  }

  lemma {:induction false} FourSplit(hex: string, rest: string)
    requires IsFour(hex)
    ensures HasFour(hex + rest) && (hex + rest)[4..] == rest && (hex + rest)[..4] == hex
  {
  }

  lemma UnicodeRead(hex: string, rest: string, h: Held)
    requires AcceptedPiece(Unicode(hex), rest, h) && Small(h)
    ensures var r := PieceBytes(Unicode(hex), rest, h); ParseUnicode(hex + rest, h) == Ok(r, rest) && Small(r.held)
  {
    FourSplit(hex, rest);
    CodeBound(hex + rest, h.uc);
    CodeIs(Scanned(hex + rest, h.uc).value);
  }

  lemma LowRead(uc: nat, low: string, rest: string, before: Option<nat>)
    requires IsHighSurrogate(uc) && IsFour(low) && Scanned(low + rest, before).Some?
    ensures var uc2 := Scanned(low + rest, before).value;
      ParseLow(uc, low + rest, before)
      == if !IsLowSurrogate(uc2) then Ok(Bytes([], Held(Some(uc), Some(uc2))), rest)
         else Ok(Bytes(CodeBytes(PairValue(uc, uc2)), Held(Some(LeftOver(PairValue(uc, uc2))), Some(uc2))), rest)
  {
    FourSplit(low, rest);
  }

  lemma PairStarts(high: string, u: string)
    requires IsFour(high)
    ensures var s := high + (ESCAPE + u); HasFour(s) && StartsUnicode(s[4..]) && s[6..] == u
  {
    FourSplit(high, ESCAPE + u);
    assert (ESCAPE + u)[1..][0] == 'u' && (ESCAPE + u)[2..] == u;
  }

  lemma PairIsRead(high: string, low: string, rest: string, h: Held)
    requires AcceptedPiece(Pair(high, low), rest, h)
    ensures var r := PieceBytes(Pair(high, low), rest, h);
      ParseUnicode(high + (ESCAPE + (low + rest)), h) == Ok(r, rest) && Small(r.held)
  {
    var uc, uc2 := Code(Pair(high, low), rest, h).value, Scanned(low + rest, h.uc2).value;
    PairStarts(high, low + rest);
    LowRead(uc, low, rest, h.uc2);
    if IsLowSurrogate(uc2) {
      PairReadIs(uc, uc2);
    }
  }

  lemma PairReadIs(uc: nat, uc2: nat)
    requires IsHighSurrogate(uc) && IsLowSurrogate(uc2)
    ensures PairValue(uc, uc2) == PairRead(uc, uc2)
    ensures CodeBytes(PairValue(uc, uc2)) == Utf8(PairRead(uc, uc2)) && LeftOver(PairRead(uc, uc2)) < 0x1_0000
  {
    PairReadBound(uc, uc2);
    PairIff(uc, uc2);
  }

  lemma EscapeRead(letter: char, rest: string, h: Held)
    requires AcceptedPiece(Short(letter), rest, h)
    ensures Unescape(['\\', letter] + rest, h) == Prepend([Letter(letter)], Unescape(rest, h))
  {
    var t := ['\\', letter] + rest;
    assert t[0] == '\\' && t[1..][0] == letter && t[1..][1..] == rest;
    assert Unescaped(letter) == Letter(letter);
  }

  lemma UnicodeEscape(u: string, bytes: Bytes, rest: string, h: Held)
    requires ParseUnicode(u, h) == Ok(bytes, rest)
    ensures Unescape(ESCAPE + u, h) == Prepend(bytes.text, Unescape(rest, bytes.held))
  {
    var t := ESCAPE + u;
    assert t[0] == '\\' && t[1..][0] == 'u' && t[1..][1..] == u;
  }

  lemma PieceRead(p: Piece, rest: string, h: Held)
    requires AcceptedPiece(p, rest, h) && Small(h)
    ensures var r := PieceBytes(p, rest, h);
      Unescape(PieceText(p) + rest, h) == Prepend(r.text, Unescape(rest, r.held)) && Small(r.held)
  {
    match p
    case Raw(c) => assert ([c] + rest)[1..] == rest;
    case Short(letter) => EscapeRead(letter, rest, h);
    case Unicode(hex) =>
      UnicodeRead(hex, rest, h);
      UnicodeEscape(hex + rest, PieceBytes(p, rest, h), rest, h);
      Assoc(ESCAPE, hex, rest);
    case Pair(high, low) =>
      PairIsRead(high, low, rest, h);
      UnicodeEscape(high + (ESCAPE + (low + rest)), PieceBytes(p, rest, h), rest, h);
      JoinPair(ESCAPE, high, low, rest);
  }

  lemma JoinPair(u: string, high: string, low: string, rest: string)
    ensures (u + high + u + low) + rest == u + (high + (u + (low + rest)))
  {
  }

  /** The closing quote, or the end of the text. */
  predicate Closes(end: string) { Peek(end) == '\"' || Peek(end) == '\0' }

  lemma UnicodeFront(next: string, end: string)
    requires Closes(end)
    ensures StartsUnicode(next + end) == StartsUnicode(next)
  {
    assert next == [] ==> next + end == end;
    assert |next| == 1 ==> (next + end)[1..] == end && next[1..] == [];
    assert |next| > 1 ==> (next + end)[1] == next[1];
  }

  /** What is behind the end of a string makes no difference to its pieces. */
  lemma PieceFront(p: Piece, next: string, end: string, h: Held)
    requires Closes(end)
    ensures AcceptedPiece(p, next + end, h) == AcceptedPiece(p, next, h)
    ensures AcceptedPiece(p, next, h) ==> PieceBytes(p, next + end, h) == PieceBytes(p, next, h)
  {
    UnicodeFront(next, end);
    match p
    case Unicode(hex) =>
      ConvertFront(hex + next, end);
      Assoc(hex, next, end);
    case Pair(high, low) =>
      ConvertFront(high + (ESCAPE + (low + next)), end);
      ConvertFront(low + next, end);
      JoinPairFront(high, low, next, end);
    case _ =>
  }

  lemma JoinPairFront(high: string, low: string, next: string, end: string)
    ensures (high + (ESCAPE + (low + next))) + end == high + (ESCAPE + (low + (next + end)))
    ensures (low + next) + end == low + (next + end)
  {
  }

  lemma {:induction false} PiecesRead(pieces: seq<Piece>, h: Held, end: string)
    requires AcceptedPieces(pieces, h) && Small(h) && Closes(end)
    ensures Unescape(PiecesText(pieces) + end, h)
      == Ok(PiecesBytes(pieces, h), if Peek(end) == '\"' then end[1..] else end)
  {
    if pieces == [] {
      assert PiecesText(pieces) + end == end;
    } else {
      var p, next := pieces[0], PiecesText(pieces[1..]);
      PieceFront(p, next, end, h);
      PieceRead(p, next + end, h);
      PiecesRead(pieces[1..], PieceBytes(p, next, h).held, end);
      Assoc(PieceText(p), next, end);
    }
  }

  lemma QuoteRead(s: string)
    ensures ParseString(['\"'] + s) == InBuffer(Room(s, false), Unescape(s, UNSET))
  {
    assert (['\"'] + s)[1..] == s;
  }

  /** The buffer is long enough for what the string is read as. */
  predicate Fits(pieces: seq<Piece>, end: string)
    requires AcceptedPieces(pieces, UNSET)
  {
    Room(PiecesText(pieces) + end, false) >= |PiecesBytes(pieces, UNSET)|
  }

  /** A string is read piece by piece, if it fits its buffer. */
  lemma StringRead(pieces: seq<Piece>, rest: string)
    requires AcceptedPieces(pieces, UNSET)
    ensures ParseString(StringText(pieces) + rest)
      == if Fits(pieces, ['\"'] + rest) then Ok(PiecesBytes(pieces, UNSET), rest) else Undefined
  {
    var text, end := PiecesText(pieces), ['\"'] + rest;
    assert end[1..] == rest;
    PiecesRead(pieces, UNSET, end);
    QuoteRead(text + end);
    JoinQuotes(text, rest);
  }

  lemma JoinQuotes(text: string, rest: string)
    ensures (['\"'] + text + ['\"']) + rest == ['\"'] + (text + (['\"'] + rest))
  {
  }

  /** At the end of the text the closing quote may be missing. */
  lemma OpenRead(pieces: seq<Piece>, rest: string)
    requires AcceptedPieces(pieces, UNSET) && Peek(rest) == '\0'
    ensures ParseString((['\"'] + PiecesText(pieces)) + rest)
      == if Fits(pieces, rest) then Ok(PiecesBytes(pieces, UNSET), rest) else Undefined
  {
    PiecesRead(pieces, UNSET, rest);
    QuoteRead(PiecesText(pieces) + rest);
    Assoc(['\"'], PiecesText(pieces), rest);
  }

  // ---------- Every string that is accepted ----------

  lemma HexSplit(s: string)
    requires HasFour(s)
    ensures IsFour(s[..4]) && s == s[..4] + s[4..]
  {
  }

  lemma PairSplit(s: string, h: Held) returns (p: Piece, rest: string)
    requires ParseUnicode(s, h).Ok? && IsHighSurrogate(Scanned(s, h.uc).value) && StartsUnicode(s[4..])
    ensures p.Pair? && AcceptedPiece(p, rest, h) && ESCAPE + s == PieceText(p) + rest
    ensures ParseUnicode(s, h).rest == rest
  {
    var t := s[6..];
    HexSplit(s);
    HexSplit(t);
    p, rest := Pair(s[..4], t[..4]), t[4..];
    assert s[4..][1..][0] == 'u';
    assert s[4..] == ESCAPE + t;
    JoinPair(ESCAPE, s[..4], t[..4], rest);
  }

  lemma UnicodeSplit(s: string, h: Held) returns (p: Piece, rest: string)
    requires ParseUnicode(s, h).Ok?
    ensures (p.Unicode? || p.Pair?) && AcceptedPiece(p, rest, h) && ESCAPE + s == PieceText(p) + rest
    ensures ParseUnicode(s, h).rest == rest
  {
    if IsHighSurrogate(Scanned(s, h.uc).value) && StartsUnicode(s[4..]) {
      p, rest := PairSplit(s, h);
    } else {
      HexSplit(s);
      p, rest := Unicode(s[..4]), s[4..];
      Assoc(ESCAPE, s[..4], rest);
    }
  }

  lemma EscapeSplit(s: string, h: Held) returns (p: Piece, rest: string)
    requires Peek(s) == '\\' && ParseEscape(s[1..], h).Ok?
    ensures AcceptedPiece(p, rest, h) && s == PieceText(p) + rest && ParseEscape(s[1..], h).rest == rest
  {
    assert s[1..][1..] == s[2..];
    if s[1] == 'u' {
      assert s == ESCAPE + s[2..];
      p, rest := UnicodeSplit(s[2..], h);
    } else {
      p, rest := Short(s[1]), s[2..];
    }
  }

  lemma PieceSplit(s: string, h: Held) returns (p: Piece, rest: string)
    requires Unescape(s, h).Ok? && !Closes(s)
    ensures AcceptedPiece(p, rest, h) && s == PieceText(p) + rest
  {
    if s[0] == '\\' {
      p, rest := EscapeSplit(s, h);
    } else {
      p, rest := Raw(s[0]), s[1..];
    }
  }

  lemma {:induction false} NotMalformed(s: string, h: Held)
    ensures !Unescape(s, h).Malformed?
    decreases |s|
  {
    if Peek(s) != '\0' && s[0] != '\"' {
      if s[0] != '\\' {
        NotMalformed(s[1..], h);
      } else {
        var e := ParseEscape(s[1..], h);
        if e.Ok? {
          NotMalformed(e.rest, e.value.held);
        }
      }
    }
  }

  lemma {:induction false} PiecesSplit(s: string, h: Held) returns (pieces: seq<Piece>, end: string)
    requires Unescape(s, h).Ok? && Small(h)
    ensures AcceptedPieces(pieces, h) && Closes(end) && s == PiecesText(pieces) + end
    decreases |s|
  {
    if Closes(s) {
      pieces, end := [], s;
    } else {
      var p, rest := PieceSplit(s, h);
      PieceRead(p, rest, h);
      var more;
      more, end := PiecesSplit(rest, PieceBytes(p, rest, h).held);
      PieceFront(p, PiecesText(more), end, h);
      pieces := [p] + more;
      assert pieces[1..] == more;
      Assoc(PieceText(p), PiecesText(more), end);
    }
  }

  // ---------- Strings that are read as what they stand for ----------

  lemma Hex4Converts(s: string)
    requires StartsHex4(s)
    ensures Convert(s) == Some(ReadHex4(s))
  {
    var digits := s[..4];
    assert digits + s[4..] == s && !IsPrefixed(s);
    HexFour(digits);
    DigitsConverted(digits, s[4..]);
  }

  lemma HexNext(s: string, n: nat)
    requires s != [] && AllHex(s) && HexNumber(s[..|s| - 1]) == n
    ensures HexNumber(s) == 16 * n + HexValue(s[|s| - 1])
  {
  }

  lemma HexTwo(s: string)
    requires |s| == 2 && AllHex(s)
    ensures HexNumber(s) == 0x10 * HexValue(s[0]) + HexValue(s[1])
  {
    HexNext(s[..1], 0);
    HexNext(s, HexValue(s[0]));
  }

  lemma HexFour(s: string)
    requires |s| == 4 && AllHex(s)
    ensures HexNumber(s) == ReadHex4(s)
  {
    var three := s[..3];
    assert three[..2] == s[..2];
    HexTwo(s[..2]);
    HexNext(three, 0x10 * HexValue(s[0]) + HexValue(s[1]));
    HexNext(s, 0x100 * HexValue(s[0]) + 0x10 * HexValue(s[1]) + HexValue(s[2]));
  }

  /** Four digits are converted whatever is behind them. */
  lemma HexCode(hex: string, next: string, before: Option<nat>)
    requires IsHex4(hex)
    ensures Scanned(hex + next, before) == Some(ReadHex4(hex)) && IsFour(hex)
  {
    Hex4Converts(hex + next);
    assert ReadHex4(hex + next) == ReadHex4(hex);
  }

  /** Not NUL, and not a pair whose first half has bit 6 set. */
  predicate KeptPiece(p: Piece)
    requires StandardPiece(p)
  {
    match p
    case Unicode(hex) => ReadHex4(hex) != 0
    case Pair(high, low) => ReadHex4(high) / 64 % 2 == 0
    case _ => true
  }

  predicate KeptPieces(pieces: seq<Piece>)
    requires StandardPieces(pieces)
  {
    pieces == [] || (KeptPiece(pieces[0]) && KeptPieces(pieces[1..]))
  }

  lemma StandardCode(p: Piece, next: string, h: Held)
    requires StandardPiece(p)
    ensures AcceptedPiece(p, next, h)
    ensures p.Unicode? ==> Code(p, next, h).value == ReadHex4(p.hex)
    ensures p.Pair? ==>
      Code(p, next, h).value == ReadHex4(p.high) && Scanned(p.low + next, h.uc2).value == ReadHex4(p.low)
  {
    if p.Unicode? {
      HexCode(p.hex, next, h.uc);
    } else if p.Pair? {
      HexCode(p.high, ESCAPE + (p.low + next), h.uc);
      HexCode(p.low, next, h.uc2);
    }
  }

  lemma {:induction false} StandardAccepted(pieces: seq<Piece>, h: Held)
    requires StandardPieces(pieces)
    ensures AcceptedPieces(pieces, h)
  {
    if pieces != [] {
      var next := PiecesText(pieces[1..]);
      StandardCode(pieces[0], next, h);
      StandardAccepted(pieces[1..], PieceBytes(pieces[0], next, h).held);
    }
  }

  lemma PieceIff(p: Piece, next: string, h: Held)
    requires StandardPiece(p)
    ensures AcceptedPiece(p, next, h) && |PieceBytes(p, next, h).text| <= |PieceCharacters(p)|
    ensures PieceBytes(p, next, h).text == PieceCharacters(p) <==> KeptPiece(p)
  {
    StandardCode(p, next, h);
    if p.Pair? {
      var uc, uc2 := ReadHex4(p.high), ReadHex4(p.low);
      PairReadBound(uc, uc2);
      Utf8Decodes(PairRead(uc, uc2));
      Utf8Decodes(PairCodePoint(uc, uc2));
    }
  }

  lemma SameParts(a: string, b: string, x: string, y: string)
    requires |a| <= |b| && |x| <= |y|
    ensures a + x == b + y <==> a == b && x == y
  {
    if a + x == b + y {
      assert |a| == |b|;
      assert a == (a + x)[..|a|] && x == (a + x)[|a|..] && b == (b + y)[..|a|] && y == (b + y)[|a|..];
    }
  }

  lemma {:induction false} PiecesIff(pieces: seq<Piece>, h: Held)
    requires StandardPieces(pieces)
    ensures AcceptedPieces(pieces, h) && |PiecesBytes(pieces, h)| <= |StringCharacters(pieces)|
    ensures PiecesBytes(pieces, h) == StringCharacters(pieces) <==> KeptPieces(pieces)
  {
    StandardAccepted(pieces, h);
    if pieces != [] {
      var p, more, next := pieces[0], pieces[1..], PiecesText(pieces[1..]);
      var held := PieceBytes(p, next, h).held;
      PieceIff(p, next, h);
      PiecesIff(more, held);
      SameParts(PieceBytes(p, next, h).text, PieceCharacters(p), PiecesBytes(more, held), StringCharacters(more));
    }
  }

  /** NUL and the second half of a pair are dropped. */
  lemma UnicodeDropped(hex: string, rest: string, h: Held)
    requires IsHex4(hex) && (ReadHex4(hex) == 0 || IsLowSurrogate(ReadHex4(hex))) && Small(h)
    ensures Unescape(ESCAPE + (hex + rest), h) == Unescape(rest, h.(uc := Some(ReadHex4(hex))))
  {
    HexCode(hex, rest, h.uc);
    UnicodeRead(hex, rest, h);
    var held := h.(uc := Some(ReadHex4(hex)));
    UnicodeEscape(hex + rest, Bytes([], held), rest, h);
    DroppedNothing(Unescape(rest, held));
  }

  /** So is the first half of a pair, with the escape behind it if that is not a second half. */
  lemma HalfDropped(high: string, other: string, rest: string, h: Held)
    requires IsHex4(high) && IsHighSurrogate(ReadHex4(high)) && IsHex4(other) && !IsLowSurrogate(ReadHex4(other))
    ensures Unescape(ESCAPE + (high + (ESCAPE + (other + rest))), h)
      == Unescape(rest, Held(Some(ReadHex4(high)), Some(ReadHex4(other))))
  {
    HexCode(high, ESCAPE + (other + rest), h.uc);
    HexCode(other, rest, h.uc2);
    PairIsRead(high, other, rest, h);
    var held := Held(Some(ReadHex4(high)), Some(ReadHex4(other)));
    UnicodeEscape(high + (ESCAPE + (other + rest)), Bytes([], held), rest, h);
    DroppedNothing(Unescape(rest, held));
  }

  lemma DroppedNothing(r: Parsed<string>)
    ensures Prepend([], r) == r
  {
    assert r.Ok? ==> [] + r.value == r.value;
  }
}
