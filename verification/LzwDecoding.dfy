/** What the decoder makes of codes from any writer, also of one that goes on when the table is full, which Appendix F
    of GIF89a allows: the law is over the codes alone, without a table. */
module LzwDecoding {
  import opened Bits
  import opened LzwModel
  import opened LzwRoundTrip

  // ---------- The law ----------

  /** Code i behind a clear code is a literal, or an entry that exists when it is read: entry j comes from the codes j
      and j + 1, as long as there is room for it. */
  predicate Readable(min: nat, codes: seq<nat>, i: nat)
    requires i < |codes|
  {
    codes[i] < ClearCode(min) || FirstFree(min) <= codes[i] < Least(FirstFree(min) + i, MAX_LZW_CODE)
  }

  predicate AllReadable(min: nat, codes: seq<nat>) {
    forall i :: 0 <= i < |codes| ==> Readable(min, codes, i)
  }

  function Least(a: nat, b: nat): nat { if a < b then a else b }

  /** c is a literal or the entry of two of the codes. */
  predicate Entered(min: nat, codes: seq<nat>, c: nat) {
    c < ClearCode(min) || FirstFree(min) <= c < FirstFree(min) + |codes| - 1
  }

  /** The first pixel of what c stands for. */
  function First(min: nat, codes: seq<nat>, c: nat): byte
    requires AllReadable(min, codes) && Entered(min, codes, c)
  {
    if c < ClearCode(min) then c % 256
    else
      assert Readable(min, codes, c - FirstFree(min));
      First(min, codes, codes[c - FirstFree(min)])
  }

  /** What c stands for: an entry is what its first code stands for and the first pixel of what its second one stands
      for. */
  function StringOf(min: nat, codes: seq<nat>, c: nat): Text
    requires AllReadable(min, codes) && Entered(min, codes, c)
  {
    if c < ClearCode(min) then [c % 256]
    else
      var j := c - FirstFree(min);
      assert Readable(min, codes, j) && Readable(min, codes, j + 1);
      StringOf(min, codes, codes[j]) + [First(min, codes, codes[j + 1])]
  }

  lemma {:induction false} FirstOf(min: nat, codes: seq<nat>, c: nat)
    requires AllReadable(min, codes) && Entered(min, codes, c)
    ensures StringOf(min, codes, c) != [] && StringOf(min, codes, c)[0] == First(min, codes, c)
  {
    if c >= ClearCode(min) {
      assert Readable(min, codes, c - FirstFree(min));
      FirstOf(min, codes, codes[c - FirstFree(min)]);
    }
  }

  /** LZW: entry j is what code j stands for, and the first pixel of what the next code stands for. */
  lemma EntryLaw(min: nat, codes: seq<nat>, j: nat)
    requires AllReadable(min, codes) && j + 1 < |codes|
    ensures Readable(min, codes, j) && Readable(min, codes, j + 1)
    ensures StringOf(min, codes, codes[j + 1]) != []
    ensures StringOf(min, codes, FirstFree(min) + j)
      == StringOf(min, codes, codes[j]) + [StringOf(min, codes, codes[j + 1])[0]]
  {
    assert Readable(min, codes, j) && Readable(min, codes, j + 1);
    FirstOf(min, codes, codes[j + 1]);
  }

  /** What the codes stand for, one after the other. */
  function TextOf(min: nat, codes: seq<nat>, n: nat): Text
    requires AllReadable(min, codes) && n <= |codes|
  {
    if n == 0 then [] else
      assert Readable(min, codes, n - 1);
      TextOf(min, codes, n - 1) + StringOf(min, codes, codes[n - 1])
  }

  /** The number of binary digits. */
  function Digits(n: nat): nat { if n == 0 then 0 else Digits(n / 2) + 1 }

  /** The width of code i behind a clear code: what the greatest code needs that the codes before it have entered. */
  function WidthOf(min: nat, i: nat): nat {
    Digits(Least(FirstFree(min) + if i == 0 then 0 else i - 1, MAX_LZW_CODE - 1))
  }

  function Coded(min: nat, codes: seq<nat>): seq<Code> {
    seq(|codes|, i requires 0 <= i < |codes| => Code(codes[i], WidthOf(min, i)))
  }

  // ---------- Widths ----------

  lemma {:induction false} DigitsAre(n: nat, w: nat)
    requires w > 0
    ensures Digits(n) == w <==> Pow2(w - 1) <= n < Pow2(w)
  {
    if n > 1 && w > 1 {
      DigitsAre(n / 2, w - 1);
      assert Pow2(w) == 2 * Pow2(w - 1) && Pow2(w - 1) == 2 * Pow2(w - 2);
    } else if n > 1 {
      assert Digits(n / 2) > 0;
    } else if w > 1 {
      Pow2Monotone(1, w - 1);
    }
  }

  // ---------- The decoder ----------

  function NextCode(min: nat, n: nat): nat { Least(FirstFree(min) + if n == 0 then 0 else n - 1, MAX_LZW_CODE) }

  /** The decoder after n codes. */
  ghost predicate After(min: nat, codes: seq<nat>, n: nat, d: Decoder)
    requires AllReadable(min, codes) && n <= |codes|
  {
    && DecOk(min, d) && !d.done && d.nextCode == NextCode(min, n) && d.codeSize == WidthOf(min, n)
    && d.oldCode == (if n == 0 then MAX_LZW_CODE else codes[n - 1])
    && forall c :: 0 <= c < MAX_LZW_CODE && ValidCode(min, d.nextCode, c) ==> Holds(min, codes, d, c)
  }

  ghost predicate Holds(min: nat, codes: seq<nat>, d: Decoder, c: nat)
    requires AllReadable(min, codes) && |d.strings| == MAX_LZW_CODE
  {
    c < MAX_LZW_CODE && Entered(min, codes, c) && d.strings[c] == StringOf(min, codes, c)
  }

  lemma DigitsNext(m: nat, next: nat, w: nat)
    requires w > 0 && Digits(m) == w && (next == m || next == m + 1)
    ensures Pow2(w - 1) <= m < Pow2(w)
    ensures Digits(next) == w + if next == Pow2(w) then 1 else 0
  {
    DigitsAre(m, w);
    assert Pow2(w + 1) == 2 * Pow2(w);
    DigitsAre(next, if next == Pow2(w) then w + 1 else w);
  }

  /** The greatest code that has been entered, or the first free one. */
  function Greatest(min: nat, n: nat): nat { Least(NextCode(min, n), MAX_LZW_CODE - 1) }

  lemma GreatestNext(min: nat, n: nat)
    requires CodeSizeOk(min)
    ensures WidthOf(min, n) == Digits(Greatest(min, n)) > 0
    ensures Greatest(min, n + 1) == Greatest(min, n) || Greatest(min, n + 1) == Greatest(min, n) + 1
    ensures Greatest(min, n + 1) == Greatest(min, n) + 1 <==>
      n > 0 && NextCode(min, n) < NextCode(min, n + 1) < MAX_LZW_CODE
    ensures Greatest(min, n) < MAX_LZW_CODE
    ensures NextCode(min, n + 1) < MAX_LZW_CODE ==> Greatest(min, n + 1) == NextCode(min, n + 1)
  {
    FirstFreeFits(min);
  }

  lemma WidthStep(min: nat, n: nat, w: nat)
    requires CodeSizeOk(min) && w == WidthOf(min, n)
    ensures 0 < w <= 12 && Pow2(w - 1) <= Greatest(min, n) < Pow2(w)
    ensures WidthOf(min, n + 1)
      == w + if n > 0 && NextCode(min, n) < NextCode(min, n + 1) == Pow2(w) < MAX_LZW_CODE then 1 else 0
  {
    GreatestNext(min, n);
    GreatestNext(min, n + 1);
    DigitsNext(Greatest(min, n), Greatest(min, n + 1), w);
    assert Pow2(12) == 4096;
    if w > 12 {
      Pow2Monotone(12, w - 1);
    }
  }

  /** A code of the sequence is one that the decoder takes for a string. */
  lemma CodeTaken(min: nat, codes: seq<nat>, n: nat, d: Decoder)
    requires CodeSizeOk(min) && AllReadable(min, codes) && n < |codes| && After(min, codes, n, d)
    ensures codes[n] < Pow2(d.codeSize) && codes[n] <= d.nextCode && codes[n] < MAX_LZW_CODE
    ensures codes[n] != EndCode(min) && codes[n] != ClearCode(min) && Entered(min, codes, codes[n])
    ensures codes[n] == d.nextCode ==> n > 0 && d.nextCode < MAX_LZW_CODE
    ensures codes[n] != d.nextCode ==> ValidCode(min, d.nextCode, codes[n])
  {
    assert Readable(min, codes, n);
    FirstFreeFits(min);
    WidthStep(min, n, d.codeSize);
  }

  /** The new entry. */
  lemma EntryMade(min: nat, codes: seq<nat>, n: nat, d: Decoder)
    requires CodeSizeOk(min) && AllReadable(min, codes) && 0 < n < |codes| && After(min, codes, n, d)
    requires d.nextCode < MAX_LZW_CODE
    ensures d.oldCode < MAX_LZW_CODE && codes[n] < MAX_LZW_CODE && Entered(min, codes, d.nextCode)
    ensures d.strings[d.oldCode] + [Head(d.strings[if codes[n] == d.nextCode then d.oldCode else codes[n]])]
      == StringOf(min, codes, d.nextCode)
  {
    var last, code := codes[n - 1], codes[n];
    assert Readable(min, codes, n - 1) && ValidCode(min, d.nextCode, last);
    assert Holds(min, codes, d, last);
    FirstOf(min, codes, last);
    CodeTaken(min, codes, n, d);
    assert d.nextCode == FirstFree(min) + (n - 1);
    if code != d.nextCode {
      assert Holds(min, codes, d, code);
      FirstOf(min, codes, code);
    }
    EntryIs(min, codes, n, d.nextCode);
  }

  lemma EntryIs(min: nat, codes: seq<nat>, n: nat, c: nat)
    requires CodeSizeOk(min) && AllReadable(min, codes) && 0 < n < |codes| && c == FirstFree(min) + (n - 1)
    ensures Entered(min, codes, c) && Entered(min, codes, codes[n - 1]) && Entered(min, codes, codes[n])
    ensures StringOf(min, codes, c) == StringOf(min, codes, codes[n - 1]) + [First(min, codes, codes[n])]
    ensures First(min, codes, c) == First(min, codes, codes[n - 1])
  {
    assert Readable(min, codes, n - 1) && Readable(min, codes, n);
  }

  lemma StepParts(min: nat, d: Decoder, code: nat)
    requires CodeSizeOk(min) && DecOk(min, d) && code < Pow2(d.codeSize) <= MAX_LZW_CODE
    requires code <= d.nextCode && code != EndCode(min) && code != ClearCode(min)
    ensures var grow := d.oldCode != MAX_LZW_CODE && d.nextCode < MAX_LZW_CODE;
      var next := if grow then d.nextCode + 1 else d.nextCode;
      var (d', text) := DecStep(min, d, code);
      && !d.done == !d'.done && d'.nextCode == next && d'.oldCode == code && text == d'.strings[code]
      && d'.codeSize == d.codeSize + (if grow && next < MAX_LZW_CODE && next == Pow2(d.codeSize) then 1 else 0)
      && d'.strings == (if grow then d.strings[d.nextCode :=
           d.strings[d.oldCode] + [Head(d.strings[if code == d.nextCode then d.oldCode else code])]] else d.strings)
  {
  }

  lemma AfterStep(min: nat, codes: seq<nat>, n: nat, d: Decoder)
    requires CodeSizeOk(min) && AllReadable(min, codes) && n < |codes| && After(min, codes, n, d)
    ensures codes[n] < Pow2(d.codeSize) && Entered(min, codes, codes[n])
    ensures var (d', text) := DecStep(min, d, codes[n]);
      After(min, codes, n + 1, d') && text == StringOf(min, codes, codes[n])
  {
    CodeTaken(min, codes, n, d);
    DecBounds(min, d);
    StepParts(min, d, codes[n]);
    WidthStep(min, n, d.codeSize);
    var (d', text) := DecStep(min, d, codes[n]);
    if n > 0 && d.nextCode < MAX_LZW_CODE {
      EntryMade(min, codes, n, d);
    }
    if n > 0 {
      assert Readable(min, codes, n - 1);
    }
    assert d'.nextCode == NextCode(min, n + 1);
    forall c | 0 <= c < MAX_LZW_CODE && ValidCode(min, d'.nextCode, c) ensures Holds(min, codes, d', c) {
      if c != d.nextCode || d'.nextCode == d.nextCode {
        assert ValidCode(min, d.nextCode, c);
        assert Holds(min, codes, d, c);
      }
    }
    assert ValidCode(min, d'.nextCode, codes[n]);
    assert Holds(min, codes, d', codes[n]);
  }

  /** Cleared tables, with strings left over from before. */
  lemma AfterClear(min: nat, codes: seq<nat>, d: Decoder)
    requires CodeSizeOk(min) && AllReadable(min, codes) && DecOk(min, d) && !d.done
    ensures DecOk(min, ClearedDecoder(min, d)) && After(min, codes, 0, ClearedDecoder(min, d))
  {
    FirstFreeFits(min);
    DigitsAre(FirstFree(min), min + 1);
    var d' := ClearedDecoder(min, d);
    forall c | 0 <= c < MAX_LZW_CODE && ValidCode(min, d'.nextCode, c) ensures Holds(min, codes, d', c) {
    }
  }

  lemma NextBits(coded: seq<Code>, m: nat)
    requires m < |coded|
    ensures CodeBits(coded[..m + 1]) == CodeBits(coded[..m]) + CodeBits([coded[m]])
  {
    assert coded[..m + 1] == coded[..m] + [coded[m]];
    CodeBitsConcat(coded[..m], [coded[m]]);
  }

  /** One code more. */
  lemma NextRead(min: nat, codes: seq<nat>, m: nat, before: Decoded, c: Code)
    requires CodeSizeOk(min) && AllReadable(min, codes) && m < |codes| && After(min, codes, m, before.decoder)
    requires before.rest == [] && before.text == TextOf(min, codes, m) && c == Code(codes[m], WidthOf(min, m))
    ensures var r := Resumed(min, before, CodeBits([c]));
      r.rest == [] && r.text == TextOf(min, codes, m + 1) && After(min, codes, m + 1, r.decoder)
  {
    AfterStep(min, codes, m, before.decoder);
    RunOne(min, before.decoder, c);
    assert [] + CodeBits([c]) == CodeBits([c]);
  }

  /** The codes behind a clear code are decoded to what they stand for, as many as there are. */
  lemma {:induction false} CodesDecoded(min: nat, codes: seq<nat>, n: nat, d: Decoder)
    requires CodeSizeOk(min) && AllReadable(min, codes) && n <= |codes| && After(min, codes, 0, d)
    ensures var r := DecRun(min, d, CodeBits(Coded(min, codes)[..n]));
      r.rest == [] && r.text == TextOf(min, codes, n) && After(min, codes, n, r.decoder)
    decreases n
  {
    var coded := Coded(min, codes);
    if n > 0 {
      var m := n - 1;
      CodesDecoded(min, codes, m, d);
      NextBits(coded, m);
      DecRunConcat(min, d, CodeBits(coded[..m]), CodeBits([coded[m]]));
      NextRead(min, codes, m, DecRun(min, d, CodeBits(coded[..m])), coded[m]);
    } else {
      assert coded[..0] == [] && CodeBits([]) == [];
    }
  }

  // ---------- Whole images ----------

  /** Every segment starts with a clear code, and an end code follows the last; k is the number of codes read since the
      last clear code. */
  function Stream(min: nat, k: nat, segments: seq<seq<nat>>): seq<Code>
    decreases |segments|
  {
    if segments == [] then [Code(EndCode(min), WidthOf(min, k))]
    else [Code(ClearCode(min), WidthOf(min, k))] + (Coded(min, segments[0]) + Stream(min, |segments[0]|, segments[1..]))
  }

  predicate SegmentsReadable(min: nat, segments: seq<seq<nat>>) {
    segments == [] || (AllReadable(min, segments[0]) && SegmentsReadable(min, segments[1..]))
  }

  function TextOfSegments(min: nat, segments: seq<seq<nat>>): Text
    requires SegmentsReadable(min, segments)
  {
    if segments == [] then [] else
      TextOf(min, segments[0], |segments[0]|) + TextOfSegments(min, segments[1..])
  }

  lemma EndRead(min: nat, d: Decoder, padding: seq<bool>)
    requires CodeSizeOk(min) && DecOk(min, d) && !d.done
    ensures var r := DecRun(min, d, CodeBits([Code(EndCode(min), d.codeSize)]) + padding);
      r.decoder.done && r.rest == padding && r.text == []
  {
    var c := Code(EndCode(min), d.codeSize);
    FirstFreeFits(min);
    Pow2Monotone(min + 1, d.codeSize);
    CodeBitsOne(c);
    DecRunCode(min, d, c, padding);
  }

  lemma ClearRead(min: nat, d: Decoder, bits: seq<bool>)
    requires CodeSizeOk(min) && DecOk(min, d) && !d.done
    ensures DecOk(min, ClearedDecoder(min, d))
    ensures DecRun(min, d, CodeBits([Code(ClearCode(min), d.codeSize)]) + bits)
      == DecRun(min, ClearedDecoder(min, d), bits)
  {
    var c := Code(ClearCode(min), d.codeSize);
    FirstFreeFits(min);
    Pow2Monotone(min + 1, d.codeSize);
    CodeBitsOne(c);
    DecRunCode(min, d, c, bits);
    var r := DecRun(min, ClearedDecoder(min, d), bits);
    assert [] + r.text == r.text;
  }

  lemma SegmentRead(min: nat, d: Decoder, codes: seq<nat>, bits: seq<bool>)
    requires CodeSizeOk(min) && AllReadable(min, codes) && After(min, codes, 0, d)
    ensures var d' := DecRun(min, d, CodeBits(Coded(min, codes))).decoder;
      && After(min, codes, |codes|, d')
      && DecRun(min, d, CodeBits(Coded(min, codes)) + bits)
        == var r := DecRun(min, d', bits); Decoded(r.decoder, r.rest, TextOf(min, codes, |codes|) + r.text)
  {
    var coded := Coded(min, codes);
    CodesDecoded(min, codes, |codes|, d);
    assert coded[..|codes|] == coded;
    DecRunConcat(min, d, CodeBits(coded), bits);
    assert [] + bits == bits;
  }

  lemma StreamBits(clear: Code, coded: seq<Code>, more: seq<Code>, padding: seq<bool>)
    ensures CodeBits([clear] + (coded + more)) + padding
      == CodeBits([clear]) + (CodeBits(coded) + (CodeBits(more) + padding))
  {
    CodeBitsConcat([clear], coded + more);
    CodeBitsConcat(coded, more);
    JoinBits(CodeBits([clear]), CodeBits(coded), CodeBits(more), padding);
  }

  lemma JoinBits(a: seq<bool>, b: seq<bool>, c: seq<bool>, d: seq<bool>)
    ensures (a + (b + c)) + d == a + (b + (c + d))
  {
  }

  lemma {:induction false} SegmentsDecoded(min: nat, d: Decoder, k: nat, segments: seq<seq<nat>>, padding: seq<bool>)
    requires CodeSizeOk(min) && DecOk(min, d) && !d.done && d.codeSize == WidthOf(min, k)
    requires SegmentsReadable(min, segments)
    ensures var r := DecRun(min, d, CodeBits(Stream(min, k, segments)) + padding);
      r.decoder.done && r.rest == padding && r.text == TextOfSegments(min, segments)
    decreases |segments|
  {
    if segments == [] {
      EndRead(min, d, padding);
    } else {
      var codes, coded := segments[0], Coded(min, segments[0]);
      var more, clear := Stream(min, |codes|, segments[1..]), Code(ClearCode(min), d.codeSize);
      StreamBits(clear, coded, more, padding);
      ClearRead(min, d, CodeBits(coded) + (CodeBits(more) + padding));
      var d' := ClearedDecoder(min, d);
      AfterClear(min, codes, d);
      SegmentRead(min, d', codes, CodeBits(more) + padding);
      SegmentsDecoded(min, DecRun(min, d', CodeBits(coded)).decoder, |codes|, segments[1..], padding);
    }
  }

  /** The code data of an image from any writer: the decoder gives what the codes stand for, and stops at the end
      code. */
  lemma AnyImage(min: nat, d: Decoder, segments: seq<seq<nat>>, padding: seq<bool>)
    requires CodeSizeOk(min) && DecOk(min, d) && !d.done && d.codeSize == min + 1 && SegmentsReadable(min, segments)
    ensures var r := DecRun(min, d, CodeBits(Stream(min, 0, segments)) + padding);
      r.decoder.done && r.rest == padding && r.text == TextOfSegments(min, segments)
  {
    FirstFreeFits(min);
    DigitsAre(FirstFree(min), min + 1);
    SegmentsDecoded(min, d, 0, segments, padding);
  }

  // ---------- Codes that do not exist ----------

  /** A code above the next one ends the decoding, like the end code: nothing that follows is looked at. */
  lemma UnknownRead(min: nat, d: Decoder, code: nat, bits: seq<bool>)
    requires CodeSizeOk(min) && DecOk(min, d) && !d.done && d.nextCode < code < Pow2(d.codeSize)
    ensures DecRun(min, d, CodeBits([Code(code, d.codeSize)]) + bits) == Decoded(d.(done := true), bits, [])
  {
    var c := Code(code, d.codeSize);
    CodeBitsOne(c);
    DecRunCode(min, d, c, bits);
  }

  /** Behind the codes of any writer: the text is that of the codes before. */
  lemma UnknownStops(min: nat, codes: seq<nat>, code: nat, d: Decoder, bits: seq<bool>)
    requires CodeSizeOk(min) && AllReadable(min, codes) && After(min, codes, 0, d)
    requires NextCode(min, |codes|) < code < Pow2(WidthOf(min, |codes|))
    ensures var c := Code(code, WidthOf(min, |codes|));
      var r := DecRun(min, d, CodeBits(Coded(min, codes)) + (CodeBits([c]) + bits));
      r.decoder.done && r.rest == bits && r.text == TextOf(min, codes, |codes|)
  {
    var c := Code(code, WidthOf(min, |codes|));
    SegmentRead(min, d, codes, CodeBits([c]) + bits);
    UnknownRead(min, DecRun(min, d, CodeBits(Coded(min, codes))).decoder, code, bits);
  }

  // ---------- The first code behind a clear code ----------

  /** The first free code has no entry yet when it is the first one behind a clear code. It is not refused: the decoder
      gives the string that this entry had before the table was cleared, and takes it for what the code stands for. */
  lemma LeftOverRead(min: nat, d: Decoder, bits: seq<bool>)
    requires CodeSizeOk(min) && DecOk(min, d) && !d.done
    ensures FirstFree(min) < MAX_LZW_CODE && DecOk(min, ClearedDecoder(min, d).(oldCode := FirstFree(min)))
    ensures var clear, c := Code(ClearCode(min), d.codeSize), Code(FirstFree(min), min + 1);
      var r := DecRun(min, ClearedDecoder(min, d).(oldCode := FirstFree(min)), bits);
      DecRun(min, d, CodeBits([clear]) + (CodeBits([c]) + bits))
      == Decoded(r.decoder, r.rest, d.strings[FirstFree(min)] + r.text)
  {
    var c := Code(FirstFree(min), min + 1);
    FirstFreeFits(min);
    assert Pow2(min + 1) == 2 * Pow2(min);
    ClearRead(min, d, CodeBits([c]) + bits);
    CodeBitsOne(c);
    DecRunCode(min, ClearedDecoder(min, d), c, bits);
  }

  /** Behind codes of any writer, two at least, that string is the one of the first entry they made: what the first of
      them stands for, and the first pixel of what the second one stands for. */
  lemma LeftOverEntry(min: nat, codes: seq<nat>, d: Decoder)
    requires CodeSizeOk(min) && AllReadable(min, codes) && |codes| >= 2 && After(min, codes, 0, d)
    ensures Entered(min, codes, FirstFree(min))
    ensures var w := WidthOf(min, |codes|);
      var bits := CodeBits(Coded(min, codes)) + (CodeBits([Code(ClearCode(min), w)])
        + (CodeBits([Code(FirstFree(min), min + 1)]) + []));
      DecRun(min, d, bits).text == TextOf(min, codes, |codes|) + StringOf(min, codes, FirstFree(min))
  {
    var clear, c := Code(ClearCode(min), WidthOf(min, |codes|)), Code(FirstFree(min), min + 1);
    FirstFreeFits(min);
    SegmentRead(min, d, codes, CodeBits([clear]) + (CodeBits([c]) + []));
    var d' := DecRun(min, d, CodeBits(Coded(min, codes))).decoder;
    assert ValidCode(min, d'.nextCode, FirstFree(min)) && Holds(min, codes, d', FirstFree(min));
    LeftOverRead(min, d', []);
    var text := d'.strings[FirstFree(min)];
    assert text + [] == text;
  }

  /** The same code twice behind a clear code: the second time the string has its own first pixel behind it, or a 0 if
      it is empty, as it is in a new object. */
  lemma LeftOverTwice(min: nat, d: Decoder)
    requires CodeSizeOk(min) && DecOk(min, d) && !d.done
    ensures FirstFree(min) < MAX_LZW_CODE
    ensures var clear, c := Code(ClearCode(min), d.codeSize), Code(FirstFree(min), min + 1);
      var s := d.strings[FirstFree(min)];
      DecRun(min, d, CodeBits([clear]) + (CodeBits([c]) + CodeBits([c]))).text
      == s + (s + [if s == [] then 0 else s[0]])
  {
    var free := FirstFree(min);
    var c := Code(free, min + 1);
    FirstFreeFits(min);
    assert Pow2(min + 1) == 2 * Pow2(min);
    LeftOverRead(min, d, CodeBits([c]));
    var again := ClearedDecoder(min, d).(oldCode := free);
    CodeBitsOne(c);
    DecRunCode(min, again, c, []);
    var s := d.strings[free];
    var (next, text) := DecStep(min, again, free);
    assert text == s + [if s == [] then 0 else s[0]];
    assert CodeBits([c]) + [] == CodeBits([c]) && text + [] == text;
    assert DecRun(min, next, []).text == [];
  }
}
