/** The decoder run on the encoder's bits gives back the pixels.  The invariant
    relates an encoder to a decoder that has read every code emitted so far: the
    decoder lacks exactly the encoder's newest entry, whose last pixel is the first
    pixel of the string the encoder is still matching. */
module LzwRoundTrip {
  import opened Bits
  import opened LzwModel

  predicate ValidCode(min: nat, nextCode: nat, c: nat) {
    c < ClearCode(min) || FirstFree(min) <= c < nextCode
  }

  /** The string of code c, given that the string being matched starts with h. */
  ghost function Denotes(d: Decoder, h: byte, c: nat): Text
    requires |d.strings| == MAX_LZW_CODE && c < MAX_LZW_CODE
  {
    if d.oldCode < MAX_LZW_CODE && c == d.nextCode then d.strings[d.oldCode] + [h] else d.strings[c]
  }

  ghost predicate EntryOk(min: nat, e: Encoder, d: Decoder, h: byte, k: nat)
    requires |d.strings| == MAX_LZW_CODE && |e.strmap| == MAP_SIZE && k < MAP_SIZE
    requires e.nextCode < MAX_LZW_CODE
  {
    e.strmap[k] > 0 ==>
      && FirstFree(min) <= e.strmap[k] < e.nextCode
      && ValidCode(min, e.nextCode, k / 256)
      && Denotes(d, h, e.strmap[k]) == Denotes(d, h, k / 256) + [k % 256]
  }

  ghost predicate Sim(min: nat, e: Encoder, d: Decoder, h: byte) {
    && EncOk(min, e) && DecOk(min, d) && !d.done
    && e.codeSize == d.codeSize
    && e.nextCode == (if d.oldCode == MAX_LZW_CODE then d.nextCode else d.nextCode + 1)
    && (d.oldCode == MAX_LZW_CODE ==> d.nextCode == FirstFree(min))
    && (d.oldCode < MAX_LZW_CODE ==> ValidCode(min, d.nextCode, d.oldCode))
    && (forall c :: 0 <= c < ClearCode(min) ==> c < 256 ==> d.strings[c] == [c])
    && (forall c :: 0 <= c < MAX_LZW_CODE && ValidCode(min, d.nextCode, c) ==> d.strings[c] != [])
    && (forall k :: 0 <= k < MAP_SIZE ==> EntryOk(min, e, d, h, k))
    && ValidCode(min, e.nextCode, e.prefix)
    && Denotes(d, h, e.prefix) != [] && Denotes(d, h, e.prefix)[0] == h
  }

  /** Reading the code of the string being matched: the decoder outputs that string and
      fills in the entry it lacked, so that the two tables agree. */
  lemma SimDecode(min: nat, e: Encoder, d: Decoder, h: byte)
    requires CodeSizeOk(min) && Sim(min, e, d, h)
    ensures e.prefix < Pow2(d.codeSize)
    ensures var (d', text) := DecStep(min, d, e.prefix);
      && !d'.done && DecOk(min, d')
      && text == Denotes(d, h, e.prefix)
      && d'.nextCode == e.nextCode && d'.oldCode == e.prefix
      && d'.codeSize == (if e.nextCode == Pow2(e.codeSize) then e.codeSize + 1 else e.codeSize)
      && forall c :: 0 <= c < MAX_LZW_CODE && ValidCode(min, e.nextCode, c) ==>
           d'.strings[c] == Denotes(d, h, c)
  {
    FirstFreeFits(min);
    DecBounds(min, d);
  }

  lemma SimExtend(min: nat, e: Encoder, d: Decoder, h: byte, px: byte)
    requires CodeSizeOk(min) && Sim(min, e, d, h) && px < ClearCode(min)
    requires e.started && e.strmap[Key(e.prefix, px)] > 0
    ensures var e' := EncStep(min, e, px).0;
      Sim(min, e', d, h) && Denotes(d, h, e'.prefix) == Denotes(d, h, e.prefix) + [px]
  {
    var key := Key(e.prefix, px);
    assert key / 256 == e.prefix && key % 256 == px;
    assert EntryOk(min, e, d, h, key);
    var e' := EncStep(min, e, px).0;
    EncStepOk(min, e, px);
    forall k | 0 <= k < MAP_SIZE ensures EntryOk(min, e', d, h, k) {
      assert EntryOk(min, e, d, h, k);
    }
  }

  /** After the decoder has caught up, a string starting with px is being matched. */
  lemma SimCaughtUp(min: nat, e: Encoder, d: Decoder, h: byte, px: byte)
    requires CodeSizeOk(min) && Sim(min, e, d, h)
    ensures e.prefix < Pow2(d.codeSize)
    ensures var d' := DecStep(min, d, e.prefix).0;
      && (forall c :: 0 <= c < MAX_LZW_CODE && ValidCode(min, e.nextCode, c) ==>
           d'.strings[c] != [] && Denotes(d', px, c) == Denotes(d, h, c))
      && (forall c :: 0 <= c < ClearCode(min) ==> c < 256 ==> d'.strings[c] == [c])
      && Denotes(d', px, e.nextCode) == Denotes(d, h, e.prefix) + [px]
  {
    SimDecode(min, e, d, h);
    var d' := DecStep(min, d, e.prefix).0;
    forall c | 0 <= c < MAX_LZW_CODE && ValidCode(min, e.nextCode, c)
      ensures d'.strings[c] != [] && Denotes(d', px, c) == Denotes(d, h, c)
    {
      assert d'.strings[c] == Denotes(d, h, c);
    }
  }

  lemma EntriesAfterEmit(min: nat, e: Encoder, d: Decoder, h: byte, px: byte, e': Encoder, d': Decoder, k: nat)
    requires |e.strmap| == |e'.strmap| == MAP_SIZE && |d.strings| == |d'.strings| == MAX_LZW_CODE
    requires FirstFree(min) <= e.nextCode && e'.nextCode == e.nextCode + 1 < MAX_LZW_CODE
    requires e.prefix < e.nextCode && ValidCode(min, e.nextCode, e.prefix)
    requires e'.strmap == e.strmap[Key(e.prefix, px) := e.nextCode]
    requires forall c :: 0 <= c < MAX_LZW_CODE && ValidCode(min, e.nextCode, c) ==>
           Denotes(d', px, c) == Denotes(d, h, c)
    requires Denotes(d', px, e.nextCode) == Denotes(d, h, e.prefix) + [px]
    requires k < MAP_SIZE && EntryOk(min, e, d, h, k)
    ensures EntryOk(min, e', d', px, k)
  {
    var key := Key(e.prefix, px);
    assert key / 256 == e.prefix && key % 256 == px;
  }

  lemma SimEmit(min: nat, e: Encoder, d: Decoder, h: byte, px: byte)
    requires CodeSizeOk(min) && Sim(min, e, d, h) && px < ClearCode(min)
    requires e.started && e.strmap[Key(e.prefix, px)] <= 0 && e.nextCode + 1 < MAX_LZW_CODE
    ensures e.prefix < Pow2(d.codeSize)
    ensures var e' := EncStep(min, e, px).0;
      var (d', text) := DecStep(min, d, e.prefix);
      && Sim(min, e', d', px) && Denotes(d', px, e'.prefix) == [px]
      && text == Denotes(d, h, e.prefix)
  {
    SimDecode(min, e, d, h);
    SimCaughtUp(min, e, d, h, px);
    FirstFreeFits(min);
    var e' := EncStep(min, e, px).0;
    var d' := DecStep(min, d, e.prefix).0;
    EncStepOk(min, e, px);
    forall k | 0 <= k < MAP_SIZE ensures EntryOk(min, e', d', px, k) {
      assert EntryOk(min, e, d, h, k);
      EntriesAfterEmit(min, e, d, h, px, e', d', k);
    }
  }

  /** Freshly cleared tables match, whatever strings the decoder's table holds. */
  lemma SimFresh(min: nat, started: bool, d: Decoder, px: byte)
    requires CodeSizeOk(min) && px < ClearCode(min) && DecOk(min, d) && !d.done
    ensures var e := ClearedEncoder(min, started).(prefix := px);
      var d' := ClearedDecoder(min, d);
      Sim(min, e, d', px) && Denotes(d', px, px) == [px]
  {
    FirstFreeFits(min);
    var e := ClearedEncoder(min, started).(prefix := px);
    var d' := ClearedDecoder(min, d);
    forall k | 0 <= k < MAP_SIZE ensures EntryOk(min, e, d', px, k) {
      assert e.strmap[k] == -1;
    }
  }

  /** The dictionary is full: a clear code follows and both sides start afresh. */
  lemma SimRestart(min: nat, e: Encoder, d: Decoder, h: byte, px: byte)
    requires CodeSizeOk(min) && Sim(min, e, d, h) && px < ClearCode(min)
    requires e.started && e.strmap[Key(e.prefix, px)] <= 0 && e.nextCode + 1 == MAX_LZW_CODE
    ensures e.prefix < Pow2(d.codeSize)
    ensures var e' := EncStep(min, e, px).0;
      var (d', text) := DecStep(min, d, e.prefix);
      && !d'.done && ClearCode(min) < Pow2(d'.codeSize)
      && var (d'', none) := DecStep(min, d', ClearCode(min));
      && Sim(min, e', d'', px) && Denotes(d'', px, e'.prefix) == [px]
      && text == Denotes(d, h, e.prefix) && none == []
  {
    SimDecode(min, e, d, h);
    SimFresh(min, true, DecStep(min, d, e.prefix).0, px);
  }

  // ---------- Runs ----------

  /** The string the encoder is matching, seen through the decoder's table. */
  ghost function Pending(e: Encoder, d: Decoder, h: byte): Text
    requires |d.strings| == MAX_LZW_CODE && e.prefix < MAX_LZW_CODE
  {
    if e.started then Denotes(d, h, e.prefix) else []
  }

  lemma RunOne(min: nat, d: Decoder, c: Code)
    requires CodeSizeOk(min) && DecOk(min, d) && !d.done
    requires c.width == d.codeSize && c.value < Pow2(c.width)
    ensures var (d', text) := DecStep(min, d, c.value);
      DecRun(min, d, CodeBits([c])) == Decoded(DecRun(min, d', []).decoder, [], text)
      && DecRun(min, d', []) == Decoded(d', [], [])
  {
    CodeBitsOne(c);
    DecRunCode(min, d, c, []);
    assert BitString(c.value, c.width) + [] == BitString(c.value, c.width);
    var (d', text) := DecStep(min, d, c.value);
    assert text + [] == text;
  }

  lemma RunTwo(min: nat, d: Decoder, c1: Code, c2: Code)
    requires CodeSizeOk(min) && DecOk(min, d) && !d.done
    requires c1.width == d.codeSize && c1.value < Pow2(c1.width)
    requires var d' := DecStep(min, d, c1.value).0;
      !d'.done && c2.width == d'.codeSize && c2.value < Pow2(c2.width)
    ensures var (d', text) := DecStep(min, d, c1.value);
      var (d'', more) := DecStep(min, d', c2.value);
      DecRun(min, d, CodeBits([c1, c2])) == Decoded(d'', [], text + more)
  {
    assert [c1, c2] == [c1] + [c2];
    CodeBitsConcat([c1], [c2]);
    CodeBitsOne(c1);
    DecRunCode(min, d, c1, CodeBits([c2]));
    RunOne(min, DecStep(min, d, c1.value).0, c2);
  }

  /** The first pixel of the string that is matched after a pixel. */
  function HeadAfter(min: nat, e: Encoder, h: byte, px: byte): byte
    requires |e.strmap| == MAP_SIZE
  {
    if e.started && EncStep(min, e, px).1 == [] then h else px
  }

  /** One pixel on the encoder's side, its codes read on the decoder's side. */
  lemma SimStep(min: nat, e: Encoder, d: Decoder, h: byte, px: byte) returns (h': byte)
    requires CodeSizeOk(min) && Sim(min, e, d, h) && px < ClearCode(min)
    requires !e.started ==> e == ClearedEncoder(min, false) && d.oldCode == MAX_LZW_CODE
    ensures var (e', codes) := EncStep(min, e, px);
      var r := DecRun(min, d, CodeBits(codes));
      && Sim(min, e', r.decoder, h') && r.rest == [] && e'.started
      && r.text + Pending(e', r.decoder, h') == Pending(e, d, h) + [px]
      && h' == HeadAfter(min, e, h, px)
  {
    if !e.started {
      h' := px;
      SimFirst(min, e, d, h, px);
    } else if e.strmap[Key(e.prefix, px)] > 0 {
      h' := h;
      SimExtend(min, e, d, h, px);
      assert DecRun(min, d, CodeBits([])) == Decoded(d, [], []);
    } else {
      h' := px;
      SimEmitRun(min, e, d, h, px);
    }
  }

  lemma SimFirst(min: nat, e: Encoder, d: Decoder, h: byte, px: byte)
    requires CodeSizeOk(min) && Sim(min, e, d, h) && px < ClearCode(min)
    requires e == ClearedEncoder(min, false) && d.oldCode == MAX_LZW_CODE
    ensures var (e', codes) := EncStep(min, e, px);
      && DecRun(min, d, CodeBits(codes)) == Decoded(d, [], [])
      && Sim(min, e', d, px) && Denotes(d, px, e'.prefix) == [px]
  {
    FirstFreeFits(min);
    var e' := EncStep(min, e, px).0;
    forall k | 0 <= k < MAP_SIZE ensures EntryOk(min, e', d, px, k) {
      assert e'.strmap[k] == -1;
    }
  }

  lemma SimEmitRun(min: nat, e: Encoder, d: Decoder, h: byte, px: byte)
    requires CodeSizeOk(min) && Sim(min, e, d, h) && px < ClearCode(min)
    requires e.started && e.strmap[Key(e.prefix, px)] <= 0
    ensures var (e', codes) := EncStep(min, e, px);
      var r := DecRun(min, d, CodeBits(codes));
      && Sim(min, e', r.decoder, px) && r.rest == []
      && r.text == Denotes(d, h, e.prefix) && Denotes(r.decoder, px, e'.prefix) == [px]
  {
    if e.nextCode + 1 == MAX_LZW_CODE {
      SimRestart(min, e, d, h, px);
      RestartRun(min, e, d, h, px);
    } else {
      SimEmit(min, e, d, h, px);
      RunOne(min, d, Code(e.prefix, e.codeSize));
    }
  }

  lemma RestartRun(min: nat, e: Encoder, d: Decoder, h: byte, px: byte)
    requires CodeSizeOk(min) && Sim(min, e, d, h)
    requires e.started && e.strmap[Key(e.prefix, px)] <= 0 && e.nextCode + 1 == MAX_LZW_CODE
    requires e.prefix < Pow2(d.codeSize)
    requires var d' := DecStep(min, d, e.prefix).0;
      !d'.done && ClearCode(min) < Pow2(d'.codeSize)
    ensures var d' := DecStep(min, d, e.prefix).0;
      DecRun(min, d, CodeBits(EncStep(min, e, px).1))
        == Decoded(DecStep(min, d', ClearCode(min)).0, [], Denotes(d, h, e.prefix))
  {
    SimDecode(min, e, d, h);
    var (d', text) := DecStep(min, d, e.prefix);
    RunTwo(min, d, Code(e.prefix, e.codeSize), Code(ClearCode(min), d'.codeSize));
    assert DecStep(min, d', ClearCode(min)).1 == [];
    assert text + [] == text;
  }

  lemma TextSnoc(all: Text, t1: Text, p1: Text, t2: Text, p2: Text, px: byte)
    requires t1 + p1 == all && t2 + p2 == p1 + [px]
    ensures (t1 + t2) + p2 == all + [px]
  {
    assert (t1 + t2) + p2 == t1 + (t2 + p2);
    assert t1 + (p1 + [px]) == (t1 + p1) + [px];
  }

  /** Encoder and decoder have both dealt with the given pixels, which follow a lead. */
  ghost predicate InStep(min: nat, e0: Encoder, d0: Decoder, lead: Text, pixels: Text, h: byte)
    requires CodeSizeOk(min) && DecOk(min, d0) && |e0.strmap| == MAP_SIZE
  {
    var (e, codes) := EncRun(min, e0, pixels);
    var r := DecRun(min, d0, CodeBits(codes));
    && Sim(min, e, r.decoder, h) && r.rest == []
    && r.text + Pending(e, r.decoder, h) == lead + pixels
    && (pixels != [] ==> e.started)
    && (!e.started ==> e == ClearedEncoder(min, false) && r.decoder.oldCode == MAX_LZW_CODE)
  }

  lemma RunsSnoc(min: nat, e0: Encoder, d0: Decoder, pixels: Text, px: byte)
    requires CodeSizeOk(min) && DecOk(min, d0) && |e0.strmap| == MAP_SIZE
    requires DecRun(min, d0, CodeBits(EncRun(min, e0, pixels).1)).rest == []
    ensures var (e1, codes) := EncRun(min, e0, pixels);
      var r1 := DecRun(min, d0, CodeBits(codes));
      var (e2, more) := EncStep(min, e1, px);
      var r2 := DecRun(min, r1.decoder, CodeBits(more));
      && EncRun(min, e0, pixels + [px]) == (e2, codes + more)
      && DecRun(min, d0, CodeBits(codes + more)) == Decoded(r2.decoder, r2.rest, r1.text + r2.text)
  {
    var (e1, codes) := EncRun(min, e0, pixels);
    var more := EncStep(min, e1, px).1;
    EncRunSnoc(min, e0, pixels, px);
    CodeBitsConcat(codes, more);
    DecRunConcat(min, d0, CodeBits(codes), CodeBits(more));
    assert [] + CodeBits(more) == CodeBits(more);
  }

  lemma InStepIs(min: nat, e0: Encoder, d0: Decoder, lead: Text, pixels: Text, h: byte, e: Encoder, codes: seq<Code>,
                 r: Decoded)
    requires CodeSizeOk(min) && DecOk(min, d0) && |e0.strmap| == MAP_SIZE && |r.decoder.strings| == MAX_LZW_CODE
    requires EncRun(min, e0, pixels) == (e, codes) && DecRun(min, d0, CodeBits(codes)) == r
    requires Sim(min, e, r.decoder, h) && r.rest == [] && r.text + Pending(e, r.decoder, h) == lead + pixels
    requires pixels != [] ==> e.started
    requires !e.started ==> e == ClearedEncoder(min, false) && r.decoder.oldCode == MAX_LZW_CODE
    ensures InStep(min, e0, d0, lead, pixels, h)
  {
  }

  lemma InStepNext(min: nat, e0: Encoder, d0: Decoder, lead: Text, pixels: Text, h: byte, px: byte)
      returns (h': byte)
    requires CodeSizeOk(min) && DecOk(min, d0) && |e0.strmap| == MAP_SIZE && px < ClearCode(min)
    requires InStep(min, e0, d0, lead, pixels, h)
    ensures InStep(min, e0, d0, lead, pixels + [px], h') && h' == HeadAfter(min, EncRun(min, e0, pixels).0, h, px)
  {
    var (e1, codes) := EncRun(min, e0, pixels);
    var r1 := DecRun(min, d0, CodeBits(codes));
    h' := SimStep(min, e1, r1.decoder, h, px);
    RunsSnoc(min, e0, d0, pixels, px);
    var (e2, more) := EncStep(min, e1, px);
    var r2 := DecRun(min, r1.decoder, CodeBits(more));
    TextSnoc(lead + pixels, r1.text, Pending(e1, r1.decoder, h), r2.text, Pending(e2, r2.decoder, h'), px);
    var all := pixels + [px];
    assert (lead + pixels) + [px] == lead + all;
    InStepIs(min, e0, d0, lead, all, h', e2, codes + more, Decoded(r2.decoder, r2.rest, r1.text + r2.text));
  }

  lemma InStepStart(min: nat, started: bool, d: Decoder)
    requires CodeSizeOk(min) && DecOk(min, d) && !d.done
    ensures DecOk(min, ClearedDecoder(min, d))
    ensures InStep(min, ClearedEncoder(min, started), ClearedDecoder(min, d), if started then [0] else [], [], 0)
  {
    FirstFreeFits(min);
    SimFresh(min, started, d, 0);
    var d0 := ClearedDecoder(min, d);
    assert DecRun(min, d0, CodeBits([])) == Decoded(d0, [], []);
  }

  /** Encoder and decoder stay in step over any further pixels. */
  lemma {:induction false} SimRun(min: nat, e0: Encoder, d0: Decoder, lead: Text, pixels: Text, h0: byte)
      returns (h: byte)
    requires CodeSizeOk(min) && DecOk(min, d0) && |e0.strmap| == MAP_SIZE
    requires forall i :: 0 <= i < |pixels| ==> pixels[i] < ClearCode(min)
    requires InStep(min, e0, d0, lead, [], h0)
    ensures InStep(min, e0, d0, lead, pixels, h)
  {
    if pixels == [] {
      h := h0;
    } else {
      var before, px := pixels[..|pixels| - 1], pixels[|pixels| - 1];
      h := SimRun(min, e0, d0, lead, before, h0);
      assert pixels == before + [px];
      h := InStepNext(min, e0, d0, lead, before, h, px);
    }
  }

  /** All codes of an image: clear, the strings, the last string, end of information. */
  function ImageCodes(min: nat, started: bool, pixels: Text): seq<Code> {
    var (e, codes) := EncRun(min, ClearedEncoder(min, started), pixels);
    [Code(ClearCode(min), min + 1)] + codes + FinalCodes(min, e)
  }

  /** The code of the last string and the end code. */
  function FinalCodes(min: nat, e: Encoder): seq<Code> {
    [Code(e.prefix, e.codeSize), Code(EndCode(min), e.codeSize)]
  }

  /** What decoding an image yields.  A used object, or an image without pixels, leaves a
      code for pixel 0 in front. */
  function ImageText(started: bool, pixels: Text): Text {
    if started || pixels == [] then [0] + pixels else pixels
  }

  /** The last string's code and the end code: the decoder outputs that string and
      nothing more, even where it would read the end code one bit wider. */
  lemma SimEnd(min: nat, e: Encoder, d: Decoder, h: byte, pad: nat)
    requires CodeSizeOk(min) && Sim(min, e, d, h)
    ensures var tail := CodeBits(FinalCodes(min, e));
      DecRun(min, d, tail + BitString(0, pad)).text == Denotes(d, h, e.prefix)
  {
    SimDecode(min, e, d, h);
    FirstFreeFits(min);
    var c, end := Code(e.prefix, e.codeSize), Code(EndCode(min), e.codeSize);
    assert [c, end] == [c] + [end];
    CodeBitsConcat([c], [end]);
    CodeBitsOne(c);
    CodeBitsOne(end);
    var (d', text) := DecStep(min, d, e.prefix);
    var zeros := BitString(0, pad);
    var bits := BitString(end.value, end.width) + zeros;
    assert CodeBits([c, end]) + zeros == BitString(c.value, c.width) + bits;
    DecRunCode(min, d, c, bits);
    EndCodeStops(min, d', e.codeSize, pad);
    assert text + [] == text;
  }

  lemma EndCodeBits(v: nat, w: nat, n: nat, pad: nat)
    requires v < Pow2(w) && (n == w || n == w + 1) && n <= w + pad
    ensures v < Pow2(n) && (BitString(v, w) + BitString(0, pad))[..n] == BitString(v, n)
  {
    var a, b := BitString(v, w), BitString(0, pad);
    if n == w {
      assert (a + b)[..n] == a;
    } else {
      NextZero(v, w, n);
      assert b == [false] + BitString(0, pad - 1);
      assert (a + b)[..n] == a + [false];
    }
  }

  lemma NextZero(v: nat, w: nat, n: nat)
    requires v < Pow2(w) && n == w + 1
    ensures v < Pow2(n) && BitString(v, n) == BitString(v, w) + [false]
  {
    BitStringConcat(v, 0, w, 1);
    assert BitString(0, 1) == [false] + [];
    Pow2Monotone(w, n);
  }

  lemma EndCodeText(min: nat, d: Decoder, n: nat, bits: seq<bool>)
    requires CodeSizeOk(min) && DecOk(min, d) && !d.done
    requires EndCode(min) < Pow2(n) && d.codeSize == n
    ensures DecRun(min, d, BitString(EndCode(min), n) + bits).text == []
  {
    DecRunCode(min, d, Code(EndCode(min), n), bits);
    assert DecStep(min, d, EndCode(min)) == (d.(done := true), []);
  }

  lemma EndCodeStops(min: nat, d: Decoder, w: nat, pad: nat)
    requires CodeSizeOk(min) && DecOk(min, d) && !d.done
    requires EndCode(min) < Pow2(w) && (d.codeSize == w || d.codeSize == w + 1)
    ensures DecRun(min, d, BitString(EndCode(min), w) + BitString(0, pad)).text == []
  {
    var bits := BitString(EndCode(min), w) + BitString(0, pad);
    var n := d.codeSize;
    if n <= w + pad {
      EndCodeBits(EndCode(min), w, n, pad);
      EndCodeText(min, d, n, bits[n..]);
      assert bits[..n] + bits[n..] == bits;
    } else {
      TooShort(min, d, bits);
    }
  }

  lemma TooShort(min: nat, d: Decoder, bits: seq<bool>)
    requires CodeSizeOk(min) && DecOk(min, d) && |bits| < d.codeSize
    ensures DecRun(min, d, bits).text == []
  {
  }

  /** The codes after the clear code, read by a decoder with cleared tables. */
  lemma StringsDecode(min: nat, started: bool, d: Decoder, pixels: Text, pad: nat)
    requires CodeSizeOk(min) && DecOk(min, d) && !d.done
    requires forall i :: 0 <= i < |pixels| ==> pixels[i] < ClearCode(min)
    ensures DecOk(min, ClearedDecoder(min, d))
    ensures var (e, codes) := EncRun(min, ClearedEncoder(min, started), pixels);
      var tail := FinalCodes(min, e);
      DecRun(min, ClearedDecoder(min, d), CodeBits(codes) + (CodeBits(tail) + BitString(0, pad))).text
        == ImageText(started, pixels)
  {
    InStepStart(min, started, d);
    var d0 := ClearedDecoder(min, d);
    var h := SimRun(min, ClearedEncoder(min, started), d0, if started then [0] else [], pixels, 0);
    var (e, codes) := EncRun(min, ClearedEncoder(min, started), pixels);
    var tail := CodeBits(FinalCodes(min, e)) + BitString(0, pad);
    var r := DecRun(min, d0, CodeBits(codes));
    DecRunConcat(min, d0, CodeBits(codes), tail);
    assert [] + tail == tail;
    SimEnd(min, e, r.decoder, h, pad);
    LastString(min, started, d0, pixels, h);
  }

  lemma LastString(min: nat, started: bool, d0: Decoder, pixels: Text, h: byte)
    requires CodeSizeOk(min) && DecOk(min, d0)
    requires InStep(min, ClearedEncoder(min, started), d0, if started then [0] else [], pixels, h)
    ensures var (e, codes) := EncRun(min, ClearedEncoder(min, started), pixels);
      var r := DecRun(min, d0, CodeBits(codes));
      r.text + Denotes(r.decoder, h, e.prefix) == ImageText(started, pixels)
  {
    var (e, codes) := EncRun(min, ClearedEncoder(min, started), pixels);
    var r := DecRun(min, d0, CodeBits(codes));
    if !e.started {
      FirstFreeFits(min);
      assert e.prefix == 0 && Denotes(r.decoder, h, 0) == [0];
      assert pixels == [] && r.text == [];
    } else if !started && pixels != [] {
      assert [] + pixels == pixels;
    }
  }

  /** The decoder, started on cleared tables and fed an image's codes padded with zero bits,
      outputs the image. */
  lemma ImageDecodes(min: nat, started: bool, d: Decoder, pixels: Text, pad: nat)
    requires CodeSizeOk(min) && DecOk(min, d) && !d.done && d.codeSize == min + 1
    requires forall i :: 0 <= i < |pixels| ==> pixels[i] < ClearCode(min)
    ensures DecRun(min, d, CodeBits(ImageCodes(min, started, pixels)) + BitString(0, pad)).text
         == ImageText(started, pixels)
  {
    FirstFreeFits(min);
    StringsDecode(min, started, d, pixels, pad);
    var clear := Code(ClearCode(min), min + 1);
    var (e, codes) := EncRun(min, ClearedEncoder(min, started), pixels);
    var tail := FinalCodes(min, e);
    ImageBits(clear, codes, tail, BitString(0, pad));
    DecRunCode(min, d, clear, CodeBits(codes) + (CodeBits(tail) + BitString(0, pad)));
    assert DecStep(min, d, clear.value) == (ClearedDecoder(min, d), []);
    assert [] + ImageText(started, pixels) == ImageText(started, pixels);
  }

  lemma ImageBits(clear: Code, codes: seq<Code>, tail: seq<Code>, zeros: seq<bool>)
    ensures CodeBits([clear] + codes + tail) + zeros
         == BitString(clear.value, clear.width) + (CodeBits(codes) + (CodeBits(tail) + zeros))
  {
    CodeBitsConcat([clear] + codes, tail);
    CodeBitsConcat([clear], codes);
    CodeBitsOne(clear);
  }
}
