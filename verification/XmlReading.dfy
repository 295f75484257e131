/** What ReadText of 3rd/xml makes of any text up to its end tag, well written or not: characters, entities, references,
    and ampersands that start none of these, which are dropped. */
module XmlReading {
  import opened XmlReferences
  import opened XmlText

  /** A character with all its bytes, an entity, the digits of a reference with what stands between its start and its
      semicolon, or an ampersand that starts nothing. */
  datatype Piece = Plain(bytes: string) | Named(i: nat) | Numbered(hex: bool, digits: string) | Stray

  function PieceText(p: Piece): string {
    match p
    case Plain(bytes) => bytes
    case Named(i) => if i < |ENTITIES| then ENTITIES[i].str else []
    case Numbered(hex, digits) => (if hex then "&#x" else "&#") + (digits + [';'])
    case Stray => ['&']
  }

  /** Behind the ampersand there is neither a number sign with more text behind it nor the name of an entity. */
  predicate StartsNothing(more: string) {
    && !(|more| > 1 && more[0] == '#')
    && forall i :: 0 <= i < |ENTITIES| ==> !(ENTITIES[i].str <= ['&'] + more)
  }

  /** The digits are those behind the last x or number sign. */
  predicate Good(p: Piece, endTag: string, utf8: bool) {
    match p
    case Plain(bytes) =>
      bytes != [] && bytes != "&" && !(endTag <= bytes) && |bytes| == if utf8 then SequenceLength(bytes[0]) else 1
    case Named(i) => i < |ENTITIES|
    case Numbered(hex, digits) =>
      && ';' !in digits && (!hex && digits != [] ==> digits[0] != 'x')
      && (if hex then AllDigits(AfterLast(digits, 'x'), 16) else AllDigits(AfterLast(digits, '#'), 10))
    case Stray => true
  }

  function Value(p: Piece, endTag: string, utf8: bool): string
    requires Good(p, endTag, utf8)
  {
    match p
    case Plain(bytes) => bytes
    case Named(i) => [ENTITIES[i].chr]
    case Numbered(hex, digits) =>
      var n := if hex then NumberOf(AfterLast(digits, 'x'), 16) else NumberOf(AfterLast(digits, '#'), 10);
      CodePoint(n % 0x1_0000_0000, utf8)
    case Stray => []
  }

  /** The pieces and what follows them. */
  function PiecesText(pieces: seq<Piece>, end: string): string {
    if pieces == [] then end else PieceText(pieces[0]) + PiecesText(pieces[1..], end)
  }

  predicate GoodPieces(pieces: seq<Piece>, end: string, endTag: string, utf8: bool) {
    pieces == [] ||
    (Good(pieces[0], endTag, utf8) && GoodPieces(pieces[1..], end, endTag, utf8)
     && (pieces[0].Stray? ==> StartsNothing(PiecesText(pieces[1..], end))))
  }

  function Values(pieces: seq<Piece>, end: string, endTag: string, utf8: bool): string
    requires GoodPieces(pieces, end, endTag, utf8)
  {
    if pieces == [] then [] else Value(pieces[0], endTag, utf8) + Values(pieces[1..], end, endTag, utf8)
  }

  // ---------- Reading ----------

  lemma {:induction false} NoEntity(p: string, i: nat)
    requires i <= |ENTITIES| && p != [] && forall j :: i <= j < |ENTITIES| ==> !(ENTITIES[j].str <= p)
    ensures MatchEntity(p, i) == Char([], p[1..])
    decreases |ENTITIES| - i
  {
    if i < |ENTITIES| {
      NoEntity(p, i + 1);
    }
  }

  lemma StrayRead(more: string, utf8: bool)
    requires StartsNothing(more)
    ensures CharAt(['&'] + more, utf8) == Char([], more)
  {
    var p := ['&'] + more;
    NoEntity(p, 0);
    assert p[1..] == more && (|more| > 1 ==> p[1] == more[0]);
  }

  lemma PlainRead(bytes: string, more: string, endTag: string, utf8: bool)
    requires Good(Plain(bytes), endTag, utf8)
    ensures CharAt(bytes + more, utf8) == Char(bytes, more)
  {
    var p := bytes + more;
    assert p[0] == bytes[0] && p[..|bytes|] == bytes && p[|bytes|..] == more;
    assert |bytes| == 1 ==> bytes == [bytes[0]];
  }

  lemma NumberedRead(hex: bool, digits: string, more: string, endTag: string, utf8: bool)
    requires Good(Numbered(hex, digits), endTag, utf8)
    ensures CharAt(PieceText(Numbered(hex, digits)) + more, utf8)
      == Char(Value(Numbered(hex, digits), endTag, utf8), more)
  {
    JoinReference(if hex then "&#x" else "&#", digits, more);
    if hex {
      HexReference(digits, more, utf8);
    } else {
      DecimalReference(digits, more, utf8);
    }
  }

  lemma JoinReference(front: string, digits: string, more: string)
    ensures (front + (digits + [';'])) + more == front + (digits + ([';'] + more))
  {
  }

  lemma PieceRead(p: Piece, more: string, endTag: string, utf8: bool)
    requires Good(p, endTag, utf8) && (p.Stray? ==> StartsNothing(more))
    ensures CharAt(PieceText(p) + more, utf8) == Char(Value(p, endTag, utf8), more)
  {
    match p
    case Plain(bytes) => PlainRead(bytes, more, endTag, utf8);
    case Named(i) => EntityRead(i, more, utf8);
    case Numbered(hex, digits) => NumberedRead(hex, digits, more, endTag, utf8);
    case Stray => StrayRead(more, utf8);
  }

  lemma PieceStarts(p: Piece, more: string, endTag: string, utf8: bool)
    requires Good(p, endTag, utf8) && IsEnd(endTag)
    ensures PieceText(p) != [] && !(endTag <= PieceText(p) + more)
  {
    assert PieceText(p) != [] && (p.Plain? || PieceText(p)[0] == '&');
    assert (PieceText(p) + more)[0] == PieceText(p)[0];
  }

  /** The pieces are read one after the other, up to the end. */
  lemma {:induction false} PiecesRead(pieces: seq<Piece>, end: string, endTag: string, utf8: bool)
    requires GoodPieces(pieces, end, endTag, utf8) && IsEnd(endTag) && (end == [] || endTag <= end)
    ensures ReadUntil(PiecesText(pieces, end), endTag, utf8)
      == Text(Values(pieces, end, endTag, utf8), At(end))
  {
    if pieces != [] {
      var more := PiecesText(pieces[1..], end);
      PiecesRead(pieces[1..], end, endTag, utf8);
      PieceRead(pieces[0], more, endTag, utf8);
      PieceStarts(pieces[0], more, endTag, utf8);
    }
  }

  // ---------- Every text that is read ----------

  lemma {:induction false} EntitySplit(p: string, i: nat) returns (piece: Piece)
    requires i <= |ENTITIES| && p != [] && p[0] == '&' && !(|p| > 2 && p[1] == '#')
    requires forall j :: 0 <= j < i ==> !(ENTITIES[j].str <= p)
    ensures piece.Named? || piece.Stray?
    ensures if piece.Named? then piece.i < |ENTITIES| && ENTITIES[piece.i].str <= p else StartsNothing(p[1..])
    decreases |ENTITIES| - i
  {
    if i == |ENTITIES| {
      piece := Stray;
      assert ['&'] + p[1..] == p;
    } else if ENTITIES[i].str <= p {
      piece := Named(i);
    } else {
      piece := EntitySplit(p, i + 1);
    }
  }

  /** A reference that is read has a semicolon, and digits in front of it. */
  lemma NumberedSplit(p: string, hex: bool, utf8: bool) returns (digits: string, rest: string)
    requires |p| > (if hex then 3 else 2) && p[0] == '&' && p[1] == '#' && (p[2] == 'x') == hex && CharAt(p, utf8).Char?
    ensures p == PieceText(Numbered(hex, digits)) + rest && Good(Numbered(hex, digits), "<", utf8)
  {
    var n := if hex then 3 else 2;
    var k := IndexOf(p[n..], ';');
    SemicolonFound(p, hex, utf8);
    digits, rest := p[n..][..k], p[n..][k + 1..];
    ReferenceSplit(p, if hex then "&#x" else "&#", n, k);
    assert digits != [] ==> digits[0] == p[n];
    if hex {
      HexReference(digits, rest, utf8);
    } else {
      DecimalReference(digits, rest, utf8);
    }
  }

  lemma SemicolonFound(p: string, hex: bool, utf8: bool)
    requires |p| > (if hex then 3 else 2) && p[0] == '&' && p[1] == '#' && (p[2] == 'x') == hex && CharAt(p, utf8).Char?
    ensures var t := p[if hex then 3 else 2..]; IndexOf(t, ';') < |t|
  {
  }

  lemma ReferenceSplit(p: string, front: string, n: nat, k: nat)
    requires n == |front| && front <= p && k == IndexOf(p[n..], ';') < |p[n..]|
    ensures var digits, rest := p[n..][..k], p[n..][k + 1..];
      && ';' !in digits && p == front + (digits + ([';'] + rest)) && p == (front + (digits + [';'])) + rest
  {
    var t := p[n..];
    assert t == t[..k] + ([';'] + t[k + 1..]) && p == front + t;
    JoinReference(front, t[..k], t[k + 1..]);
  }

  lemma PieceSplit(p: string, endTag: string, utf8: bool) returns (piece: Piece, rest: string)
    requires p != [] && !(endTag <= p) && IsEnd(endTag) && CharAt(p, utf8).Char?
    ensures Good(piece, endTag, utf8) && p == PieceText(piece) + rest && (piece.Stray? ==> StartsNothing(rest))
  {
    var length := if utf8 then SequenceLength(p[0]) else 1;
    if p[0] != '&' {
      piece, rest := Plain(p[..length]), p[length..];
      assert p[..length][0] == p[0];
    } else if |p| > 2 && p[1] == '#' {
      var digits;
      digits, rest := NumberedSplit(p, p[2] == 'x', utf8);
      piece := Numbered(p[2] == 'x', digits);
    } else {
      piece := EntitySplit(p, 0);
      rest := p[|PieceText(piece)|..];
      assert piece.Stray? ==> p == ['&'] + p[1..];
    }
  }

  lemma {:induction false} PiecesSplit(p: string, endTag: string, utf8: bool) returns (pieces: seq<Piece>, end: string)
    requires IsEnd(endTag) && ReadUntil(p, endTag, utf8).stop.At?
    ensures (end == [] || endTag <= end) && GoodPieces(pieces, end, endTag, utf8)
    ensures p == PiecesText(pieces, end)
    decreases |p|
  {
    if p == [] || endTag <= p {
      pieces, end := [], p;
    } else {
      var piece, rest := PieceSplit(p, endTag, utf8);
      PieceRead(piece, rest, endTag, utf8);
      var more;
      more, end := PiecesSplit(rest, endTag, utf8);
      pieces := [piece] + more;
      assert pieces[1..] == more;
    }
  }

  /** Reading stops at the end tag, or at the end of the document, if and only if the text up to there consists of such
      pieces, and gives what they stand for. */
  lemma ReadIff(p: string, endTag: string, utf8: bool, text: string, end: string)
    requires IsEnd(endTag)
    ensures ReadUntil(p, endTag, utf8) == Text(text, At(end)) <==>
      (end == [] || endTag <= end) && exists pieces ::
        && GoodPieces(pieces, end, endTag, utf8)
        && p == PiecesText(pieces, end) && text == Values(pieces, end, endTag, utf8)
  {
    if ReadUntil(p, endTag, utf8) == Text(text, At(end)) {
      var pieces, stop := PiecesSplit(p, endTag, utf8);
      PiecesRead(pieces, stop, endTag, utf8);
    }
    if end == [] || endTag <= end {
      forall pieces | GoodPieces(pieces, end, endTag, utf8) && p == PiecesText(pieces, end)
        ensures ReadUntil(p, endTag, utf8) == Text(Values(pieces, end, endTag, utf8), At(end))
      {
        PiecesRead(pieces, end, endTag, utf8);
      }
    }
  }
}
