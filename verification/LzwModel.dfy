/** The LZW code stream of GIF as two state machines, one per direction.  The machines
    take one pixel or one code at a time; LzwCodec runs them over byte buffers. */
module LzwModel {
  import opened Bits

  const MAX_LZW_CODE: nat := 4096

  type Text = seq<byte>

  function ClearCode(min: nat): nat { Pow2(min) }
  function EndCode(min: nat): nat { Pow2(min) + 1 }
  function FirstFree(min: nat): nat { Pow2(min) + 2 }

  /** Minimum code sizes for which the first free code fits the initial width. */
  predicate CodeSizeOk(min: nat) { 2 <= min <= 11 }

  lemma FirstFreeFits(min: nat)
    requires CodeSizeOk(min)
    ensures 4 <= Pow2(min) && FirstFree(min) < Pow2(min + 1) <= MAX_LZW_CODE
  {
    Pow2Monotone(2, min);
    Pow2Monotone(min + 1, 12);
    assert Pow2(2) == 4 && Pow2(12) == 4096;
  }

  // ---------- Encoder ----------

  datatype Code = Code(value: nat, width: nat)

  /** The bits of a code sequence, in transmission order. */
  function CodeBits(codes: seq<Code>): seq<bool> {
    if codes == [] then []
    else CodeBits(codes[..|codes| - 1]) + BitString(codes[|codes| - 1].value, codes[|codes| - 1].width)
  }

  lemma {:induction false} CodeBitsConcat(a: seq<Code>, b: seq<Code>)
    ensures CodeBits(a + b) == CodeBits(a) + CodeBits(b)
  {
    if b == [] {
      assert a + b == a;
    } else {
      assert (a + b)[..|a + b| - 1] == a + b[..|b| - 1];
      CodeBitsConcat(a, b[..|b| - 1]);
    }
  }

  lemma CodeBitsOne(c: Code)
    ensures CodeBits([c]) == BitString(c.value, c.width)
  {
    assert [c][..0] == [];
    assert CodeBits([c]) == [] + BitString(c.value, c.width);
  }

  const MAP_SIZE: nat := 0x100000

  /** The dictionary maps (code of a string, next pixel) to the code of the longer
      string, or to a non-positive number. */
  datatype Encoder = Encoder(started: bool, prefix: nat, nextCode: nat, codeSize: nat, strmap: seq<int>)

  function EmptyMap(): seq<int> { seq(MAP_SIZE, _ => -1) }

  /** The state ClearCompressorTable leaves. */
  function ClearedEncoder(min: nat, started: bool): Encoder {
    Encoder(started, 0, FirstFree(min), min + 1, EmptyMap())
  }

  function Key(prefix: nat, px: byte): nat { (prefix % MAX_LZW_CODE) * 256 + px }

  /** One pixel: either it extends the current string to one in the dictionary, or the
      current string's code is emitted and the extended string becomes a new entry. */
  function EncStep(min: nat, e: Encoder, px: byte): (r: (Encoder, seq<Code>))
    requires |e.strmap| == MAP_SIZE
    ensures |r.0.strmap| == MAP_SIZE
  {
    var key := Key(e.prefix, px);
    if !e.started then (e.(started := true, prefix := px), [])
    else if e.strmap[key] > 0 then (e.(prefix := e.strmap[key]), [])
    else
      var codeSize := if e.nextCode == Pow2(e.codeSize) then e.codeSize + 1 else e.codeSize;
      if e.nextCode + 1 == MAX_LZW_CODE then
        (ClearedEncoder(min, true).(prefix := px),
         [Code(e.prefix, e.codeSize), Code(ClearCode(min), codeSize)])
      else
        (Encoder(true, px, e.nextCode + 1, codeSize, e.strmap[key := e.nextCode]),
         [Code(e.prefix, e.codeSize)])
  }

  function EncRun(min: nat, e: Encoder, pixels: Text): (r: (Encoder, seq<Code>))
    requires |e.strmap| == MAP_SIZE
    ensures |r.0.strmap| == MAP_SIZE
  {
    if pixels == [] then (e, [])
    else
      var (e1, codes) := EncRun(min, e, pixels[..|pixels| - 1]);
      var (e2, more) := EncStep(min, e1, pixels[|pixels| - 1]);
      (e2, codes + more)
  }

  lemma EncRunSnoc(min: nat, e: Encoder, pixels: Text, px: byte)
    requires |e.strmap| == MAP_SIZE
    ensures EncRun(min, e, pixels + [px])
         == var (e1, codes) := EncRun(min, e, pixels);
            var (e2, more) := EncStep(min, e1, px);
            (e2, codes + more)
  {
    assert (pixels + [px])[..|pixels|] == pixels;
  }

  /** The encoder goes on with more pixels. */
  function Continued(min: nat, r: (Encoder, seq<Code>), more: Text): (Encoder, seq<Code>)
    requires |r.0.strmap| == MAP_SIZE
  {
    (EncRun(min, r.0, more).0, r.1 + EncRun(min, r.0, more).1)
  }

  lemma ContinuedSnoc(min: nat, r: (Encoder, seq<Code>), more: Text, px: byte)
    requires |r.0.strmap| == MAP_SIZE
    ensures Continued(min, r, more + [px])
         == var q := Continued(min, r, more); (EncStep(min, q.0, px).0, q.1 + EncStep(min, q.0, px).1)
  {
    EncRunSnoc(min, r.0, more, px);
    var (e, codes) := EncRun(min, r.0, more);
    assert r.1 + (codes + EncStep(min, e, px).1) == (r.1 + codes) + EncStep(min, e, px).1;
  }

  lemma {:induction false} EncRunConcat(min: nat, e: Encoder, a: Text, b: Text)
    requires |e.strmap| == MAP_SIZE
    ensures EncRun(min, e, a + b) == Continued(min, EncRun(min, e, a), b)
  {
    if b == [] {
      assert a + b == a;
      assert EncRun(min, e, a).1 + [] == EncRun(min, e, a).1;
    } else {
      var b', px := b[..|b| - 1], b[|b| - 1];
      assert a + b == (a + b') + [px] && b == b' + [px];
      EncRunSnoc(min, e, a + b', px);
      EncRunConcat(min, e, a, b');
      ContinuedSnoc(min, EncRun(min, e, a), b', px);
    }
  }

  /** The number of buffered bits after a step. The code of a string leaves less than a byte,
      but a clear code after it stays in the buffer. */
  function SizeStep(size: nat, codes: seq<Code>): nat {
    if codes == [] then size
    else if |codes| == 1 then (size + codes[0].width) % 8
    else (size + codes[0].width) % 8 + codes[1].width
  }

  lemma SizeStepCodes(size: nat, c: Code, d: Code)
    ensures SizeStep(size, [c]) == (size + c.width) % 8
    ensures SizeStep(size, [c, d]) == (size + c.width) % 8 + d.width
  {
  }

  /** The codes of a step that emits one. */
  function EmittedCodes(min: nat, e: Encoder): seq<Code> {
    var codeSize := if e.nextCode == Pow2(e.codeSize) then e.codeSize + 1 else e.codeSize;
    if e.nextCode + 1 == MAX_LZW_CODE then [Code(e.prefix, e.codeSize), Code(ClearCode(min), codeSize)]
    else [Code(e.prefix, e.codeSize)]
  }

  lemma EncStepEmits(min: nat, e: Encoder, px: byte)
    requires |e.strmap| == MAP_SIZE && e.started && e.strmap[Key(e.prefix, px)] <= 0
    ensures EncStep(min, e, px).1 == EmittedCodes(min, e)
  {
  }

  function SizeRun(min: nat, e: Encoder, size: nat, pixels: Text): nat
    requires |e.strmap| == MAP_SIZE
  {
    if pixels == [] then size
    else
      var before := pixels[..|pixels| - 1];
      SizeStep(SizeRun(min, e, size, before), EncStep(min, EncRun(min, e, before).0, pixels[|pixels| - 1]).1)
  }

  lemma SizeRunSnoc(min: nat, e: Encoder, size: nat, pixels: Text, px: byte)
    requires |e.strmap| == MAP_SIZE
    ensures SizeRun(min, e, size, pixels + [px])
         == SizeStep(SizeRun(min, e, size, pixels), EncStep(min, EncRun(min, e, pixels).0, px).1)
  {
    assert (pixels + [px])[..|pixels|] == pixels;
  }

  lemma {:induction false} SizeRunConcat(min: nat, e: Encoder, size: nat, a: Text, b: Text)
    requires |e.strmap| == MAP_SIZE
    ensures SizeRun(min, e, size, a + b) == SizeRun(min, EncRun(min, e, a).0, SizeRun(min, e, size, a), b)
  {
    if b == [] {
      assert a + b == a;
    } else {
      var b', px := b[..|b| - 1], b[|b| - 1];
      assert a + b == (a + b') + [px];
      SizeRunSnoc(min, e, size, a + b', px);
      SizeRunConcat(min, e, size, a, b');
      EncRunConcat(min, e, a, b');
    }
  }

  /** What the words of the encoder are bounded by. */
  ghost predicate EncOk(min: nat, e: Encoder) {
    && |e.strmap| == MAP_SIZE
    && min + 1 <= e.codeSize <= 12
    && FirstFree(min) <= e.nextCode < MAX_LZW_CODE
    && e.nextCode <= Pow2(e.codeSize)
    && e.prefix < e.nextCode
    && forall k :: 0 <= k < MAP_SIZE ==> e.strmap[k] < e.nextCode
  }

  lemma EncStepOk(min: nat, e: Encoder, px: byte)
    requires CodeSizeOk(min) && EncOk(min, e) && px < ClearCode(min)
    ensures EncOk(min, EncStep(min, e, px).0)
  {
    FirstFreeFits(min);
    assert Pow2(12) == 4096;
    if e.nextCode == Pow2(e.codeSize) {
      Pow2Monotone(e.codeSize, 12);
      assert e.codeSize < 12;
    }
  }

  // ---------- Decoder ----------

  datatype Decoder = Decoder(done: bool, nextCode: nat, codeSize: nat, oldCode: nat, strings: seq<Text>)

  /** The single-pixel strings every table starts from. */
  function Literals(min: nat, strings: seq<Text>): (r: seq<Text>)
    requires |strings| == MAX_LZW_CODE
    ensures |r| == MAX_LZW_CODE
  {
    seq(MAX_LZW_CODE, i requires 0 <= i < MAX_LZW_CODE => if i < ClearCode(min) then [i % 256] else strings[i])
  }

  /** The state ClearDecompressorTable leaves; stale strings stay. */
  function ClearedDecoder(min: nat, d: Decoder): Decoder
    requires |d.strings| == MAX_LZW_CODE
  {
    Decoder(d.done, FirstFree(min), min + 1, MAX_LZW_CODE, Literals(min, d.strings))
  }

  ghost predicate DecOk(min: nat, d: Decoder) {
    && |d.strings| == MAX_LZW_CODE
    && min + 1 <= d.codeSize <= 12
    && FirstFree(min) <= d.nextCode <= Pow2(d.codeSize)
    && (d.nextCode == Pow2(d.codeSize) ==> d.codeSize == 12)
    && d.oldCode <= MAX_LZW_CODE
  }

  lemma DecBounds(min: nat, d: Decoder)
    requires DecOk(min, d)
    ensures Pow2(d.codeSize) <= MAX_LZW_CODE
  {
    Pow2Monotone(d.codeSize, 12);
    assert Pow2(12) == 4096;
  }

  /** s[0] of a possibly empty string. */
  function Head(s: Text): byte { if s == [] then 0 else s[0] }

  /** The next code and the width stay in their bounds. */
  lemma GrowthOk(min: nat, d: Decoder, next: nat, codeSize: nat)
    requires DecOk(min, d) && (next == d.nextCode || (next == d.nextCode + 1 && d.nextCode < MAX_LZW_CODE))
    requires codeSize ==
      d.codeSize + if next == d.nextCode + 1 && next < MAX_LZW_CODE && next == Pow2(d.codeSize) then 1 else 0
    ensures min + 1 <= codeSize <= 12 && FirstFree(min) <= next <= Pow2(codeSize)
    ensures next == Pow2(codeSize) ==> codeSize == 12
  {
    DecBounds(min, d);
    assert Pow2(12) == 4096;
    assert Pow2(d.codeSize + 1) == 2 * Pow2(d.codeSize);
    if d.codeSize < 12 {
      Pow2Monotone(d.codeSize, 11);
      assert Pow2(11) == 2048;
    }
  }

  /** One code: the decoder after it and the pixels it stands for. */
  function DecStep(min: nat, d: Decoder, code: nat): (r: (Decoder, Text))
    requires CodeSizeOk(min) && DecOk(min, d) && code < Pow2(d.codeSize)
    ensures DecOk(min, r.0)
  {
    DecBounds(min, d);
    FirstFreeFits(min);
    if code > d.nextCode || code == EndCode(min) then (d.(done := true), [])
    else if code == ClearCode(min) then (ClearedDecoder(min, d), [])
    else
      var grow := d.oldCode != MAX_LZW_CODE && d.nextCode < MAX_LZW_CODE;
      var next := if grow then d.nextCode + 1 else d.nextCode;
      var strings :=
        if grow then
          d.strings[d.nextCode :=
            d.strings[d.oldCode] + [Head(d.strings[if code == d.nextCode then d.oldCode else code])]]
        else d.strings;
      var codeSize := if grow && next < MAX_LZW_CODE && next == Pow2(d.codeSize) then d.codeSize + 1 else d.codeSize;
      GrowthOk(min, d, next, codeSize);
      (Decoder(d.done, next, codeSize, code, strings), strings[code])
  }

  lemma {:induction false} BitValueBound(b: seq<bool>)
    ensures BitValue(b) < Pow2(|b|)
  {
    if b != [] {
      BitValueBound(b[1..]);
    }
  }

  datatype Decoded = Decoded(decoder: Decoder, rest: seq<bool>, text: Text)

  /** Decoding goes on until the end code, an invalid code, or too few bits for a code. */
  function DecRun(min: nat, d: Decoder, bits: seq<bool>): (r: Decoded)
    requires CodeSizeOk(min) && DecOk(min, d)
    ensures DecOk(min, r.decoder)
    ensures !r.decoder.done ==> |r.rest| < r.decoder.codeSize
    decreases |bits|
  {
    if d.done || |bits| < d.codeSize then Decoded(d, bits, [])
    else
      BitValueBound(bits[..d.codeSize]);
      var (d', text) := DecStep(min, d, BitValue(bits[..d.codeSize]));
      var r := DecRun(min, d', bits[d.codeSize..]);
      Decoded(r.decoder, r.rest, text + r.text)
  }

  /** Decoding may be interrupted after any bit and resumed later. */
  lemma {:induction false} DecRunConcat(min: nat, d: Decoder, a: seq<bool>, b: seq<bool>)
    requires CodeSizeOk(min) && DecOk(min, d)
    ensures DecRun(min, d, a + b) == Resumed(min, DecRun(min, d, a), b)
    decreases |a|
  {
    if !d.done && |a| >= d.codeSize {
      var w := d.codeSize;
      assert (a + b)[..w] == a[..w] && (a + b)[w..] == a[w..] + b;
      BitValueBound(a[..w]);
      var first := DecStep(min, d, BitValue(a[..w]));
      DecRunConcat(min, first.0, a[w..], b);
      ResumedAfter(min, DecRun(min, first.0, a[w..]), first.1, b);
    } else {
      var s := DecRun(min, d, a + b);
      assert [] + s.text == s.text;
    }
  }

  /** The decoder goes on with more bits. */
  function Resumed(min: nat, r: Decoded, more: seq<bool>): Decoded
    requires CodeSizeOk(min) && DecOk(min, r.decoder)
  {
    var s := DecRun(min, r.decoder, r.rest + more);
    Decoded(s.decoder, s.rest, r.text + s.text)
  }

  lemma ResumedAfter(min: nat, r: Decoded, text: Text, more: seq<bool>)
    requires CodeSizeOk(min) && DecOk(min, r.decoder)
    ensures Resumed(min, Decoded(r.decoder, r.rest, text + r.text), more)
         == var q := Resumed(min, r, more); Decoded(q.decoder, q.rest, text + q.text)
  {
    var s := DecRun(min, r.decoder, r.rest + more);
    assert text + (r.text + s.text) == (text + r.text) + s.text;
  }

  /** A code of the decoder's current width at the front of the bits is taken as one step. */
  lemma DecRunCode(min: nat, d: Decoder, c: Code, bits: seq<bool>)
    requires CodeSizeOk(min) && DecOk(min, d) && !d.done
    requires c.width == d.codeSize && c.value < Pow2(c.width)
    ensures DecRun(min, d, BitString(c.value, c.width) + bits)
         == var (d', text) := DecStep(min, d, c.value);
            var r := DecRun(min, d', bits);
            Decoded(r.decoder, r.rest, text + r.text)
  {
    var w, all := c.width, BitString(c.value, c.width) + bits;
    assert all[..w] == BitString(c.value, w) && all[w..] == bits;
    BitValueOfBitString(c.value, w);
  }
}
