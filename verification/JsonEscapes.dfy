/** Escapes without four hexadecimal digits: what 3rd/json/src/cJSON.c makes of them, and texts for which it leaves its
    buffer or the text. */
module JsonEscapes {
  import opened Characters
  import opened Collections
  import opened JsonBuffers
  import opened JsonScan
  import opened JsonStrings
  import opened JsonText

  lemma ClearRead(pieces: seq<Piece>, text: string, bytes: string, rest: string)
    requires ReadAs(pieces, UNSET, text, bytes) && ClearPieces(pieces)
    ensures ParseString((['\"'] + text + ['\"']) + rest) == Ok(bytes, rest)
  {
    ClearFits(pieces, ['\"'] + rest);
    StringRead(pieces, rest);
  }

  lemma PlainBehind(b: string)
    requires Clear(b)
    ensures !StartsUnicode(b) && ClearPieces(Raws(b))
  {
    assert b != [] ==> b[0] != '\\';
    RawsClear(b);
  }

  lemma {:induction false} RawsClear(b: string)
    ensures ClearPieces(Raws(b))
  {
    if b != [] {
      RawsClear(b[1..]);
    }
  }

  lemma EscapeFirst(hex: string, b: string, uc: nat, h: Held)
    requires IsFour(hex) && Clear(b) && NulFree(b) && Scanned(hex + b, h.uc) == Some(uc)
    ensures ReadAs([Unicode(hex)] + Raws(b), h, (ESCAPE + hex) + b, Alone(uc) + b)
  {
    var p := Unicode(hex);
    var all := [p] + Raws(b);
    assert all[1..] == Raws(b);
    PlainBehind(b);
    RawsFirst(b, [], h, [], []);
    RawsEnd(b);
    assert Code(p, b, h) == Some(uc);
    RawsFirst(b, [], PieceBytes(p, b, h).held, [], []);
  }

  /** An escape and plain text behind it: four characters are skipped, whatever has been converted of them, and of the
      text behind them if they are white space. */
  lemma OneEscape(hex: string, b: string, uc: nat, rest: string)
    requires IsFour(hex) && Clear(hex) && Clear(b) && NulFree(b) && Convert(hex + b) == Some(uc)
    ensures ParseString((['\"'] + ((ESCAPE + hex) + b) + ['\"']) + rest) == Ok(Alone(uc) + b, rest)
  {
    EscapeFirst(hex, b, uc, UNSET);
    PlainBehind(b);
    var pieces := [Unicode(hex)] + Raws(b);
    assert pieces[1..] == Raws(b);
    ClearRead(pieces, (ESCAPE + hex) + b, Alone(uc) + b, rest);
  }

  /** What the variable holds behind an escape that is no half of a pair. */
  function HeldBehind(uc: nat): nat { if uc == 0 || IsLowSurrogate(uc) then uc else LeftOver(uc) }

  /** Where nothing is converted, what is left of the escape before is used again. */
  lemma HeldUsed(hex: string, other: string, b: string, uc: nat, rest: string)
    requires IsFour(hex) && Clear(hex) && IsFour(other) && Clear(other) && Clear(b) && NulFree(b)
    requires Convert(hex + ((ESCAPE + other) + b)) == Some(uc) && !IsHighSurrogate(uc) && Convert(other + b) == None
    ensures ParseString((['\"'] + ((ESCAPE + hex) + ((ESCAPE + other) + b)) + ['\"']) + rest)
      == Ok(Alone(uc) + (Alone(HeldBehind(uc)) + b), rest)
  {
    var p, more, next := Unicode(hex), [Unicode(other)] + Raws(b), (ESCAPE + other) + b;
    var held := Held(Some(HeldBehind(uc)), None);
    EscapeFirst(other, b, HeldBehind(uc), held);
    var pieces := [p] + more;
    assert pieces[1..] == more && more[1..] == Raws(b);
    assert PieceBytes(p, next, UNSET) == Bytes(Alone(uc), held);
    PlainBehind(b);
    ClearRead(pieces, (ESCAPE + hex) + next, Alone(uc) + (Alone(HeldBehind(uc)) + b), rest);
  }

  lemma StringParsed(text: string, s: string, rest: string)
    requires ParseString(text) == Ok(s, rest) && Peek(text) == '\"'
    ensures Parse(text) == Ok(Str(s), rest)
  {
  }

  lemma StringUndefined(text: string)
    requires ParseString(text) == Undefined && Peek(text) == '\"'
    ensures Parse(text) == Undefined
  {
  }

  lemma OneDigit(d: char, rest: string)
    requires IsHex(d) && (rest == [] || (!IsHex(rest[0]) && rest[0] != 'x' && rest[0] != 'X'))
    ensures Convert([d] + rest) == Some(HexValue(d))
  {
    assert !IsPrefixed([d] + rest);
    DigitsConverted([d], rest);
    assert [d][..0] == [];
  }

  lemma EscapeText(hex: string)
    ensures (['\"'] + ((ESCAPE + hex) + []) + ['\"']) + [] == ['\"', '\\', 'u'] + hex + ['\"']
  {
    assert (ESCAPE + hex) + [] == ESCAPE + hex;
  }

  lemma EscapeParsed(text: string, hex: string, uc: nat)
    requires IsFour(hex) && Clear(hex) && Convert(hex) == Some(uc) && text == ['\"', '\\', 'u'] + hex + ['\"']
    ensures Parse(text) == Ok(Str(Alone(uc)), [])
  {
    assert hex + [] == hex && Alone(uc) + [] == Alone(uc);
    OneEscape(hex, [], uc, []);
    EscapeText(hex);
    StringParsed(text, Alone(uc), []);
  }

  /** One digit is enough; the three characters behind it are skipped. */
  lemma OneDigitAccepted(text: string)
    requires text == "\"\\u1zzz\""
    ensures Parse(text) == Ok(Str(['\U{1}']), [])
  {
    assert "1zzz" == ['1'] + "zzz";
    OneDigit('1', "zzz");
    EscapeParsed(text, "1zzz", 1);
  }

  lemma QuotedText(digits: string, more: string, b: string)
    ensures (['\"'] + ([] + ((ESCAPE + (digits + (['\"'] + more))) + b)) + ['\"']) + []
      == ['\"', '\\', 'u'] + digits + ['\"'] + more + b + ['\"']
  {
    var inner := (ESCAPE + (digits + (['\"'] + more))) + b;
    assert [] + inner == inner;
    assert inner == ['\\', 'u'] + digits + ['\"'] + more + b;
  }

  lemma QuotedParsed(text: string, digits: string, more: string, b: string, uc: nat)
    requires |digits| + 1 + |more| == 4 && Clear(digits) && NulFree(digits) && NulFree(more) && Clear(b) && NulFree(b)
    requires Convert(digits) == Some(uc) && |Alone(uc)| + |b| > 1 + |digits|
    requires text == ['\"', '\\', 'u'] + digits + ['\"'] + more + b + ['\"']
    ensures Parse(text) == Undefined
  {
    QuotePassed([], digits, more, b, uc, []);
    QuotedText(digits, more, b);
    StringUndefined(text);
  }

  /** The first pass stops at the inner quote and counts two; the second writes four bytes and the terminator. */
  lemma BufferLeft(text: string)
    requires text == "\"\\u1\"AAAAA\""
    ensures Parse(text) == Undefined
  {
    OneDigit('1', []);
    assert ['1'] + [] == "1";
    QuotedParsed(text, "1", "AA", "AAA", 1);
  }

  /** The first pass skips the terminator. */
  lemma TextLeft(text: string)
    requires text == "\"\\"
    ensures Parse(text) == Undefined
  {
    assert text[1..] == ['\\'] && ['\\'][1..] == [];
    assert Room(['\\'], false) == -1;
    StringUndefined(text);
  }
}
