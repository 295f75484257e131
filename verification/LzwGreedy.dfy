/** The law of LZW itself, over the strings that the codes stand for: every code that has been given
    out is in the dictionary, no two codes stand for the same string, and a code is written only
    where no code stands for a longer piece of the image.  Equal pixels therefore cost few codes. */
module LzwGreedy {
  import opened Bits
  import opened LzwModel
  import opened LzwRoundTrip

  /** Some code stands for the string s. */
  ghost predicate Known(min: nat, e: Encoder, d: Decoder, h: byte, s: Text)
    requires |d.strings| == MAX_LZW_CODE
  {
    exists c :: 0 <= c < MAX_LZW_CODE && ValidCode(min, e.nextCode, c) && Denotes(d, h, c) == s
  }

  /** The codes of pixels that are bytes, and of entries. */
  predicate Plain(min: nat, c: nat) { c < 256 || FirstFree(min) <= c }

  /** The keys of the entries continue plain codes. */
  ghost predicate PlainKeys(min: nat, e: Encoder) {
    && Plain(min, e.prefix)
    && forall k :: 0 <= k < |e.strmap| && e.strmap[k] > 0 ==> Plain(min, k / 256)
  }

  /** Every code given out has its entry. */
  ghost predicate AllEntered(min: nat, e: Encoder) {
    forall c :: FirstFree(min) <= c < e.nextCode ==> c in e.strmap
  }

  ghost predicate Distinct(min: nat, n: nat, d: Decoder, h: byte)
    requires |d.strings| == MAX_LZW_CODE
  {
    forall a, b :: 0 <= a < MAX_LZW_CODE && 0 <= b < MAX_LZW_CODE && ValidCode(min, n, a) && ValidCode(min, n, b) ==>
      Plain(min, a) && Plain(min, b) && Denotes(d, h, a) == Denotes(d, h, b) ==> a == b
  }

  ghost predicate SinglePixels(min: nat, d: Decoder)
    requires |d.strings| == MAX_LZW_CODE
  {
    forall c :: 0 <= c < ClearCode(min) && c < MAX_LZW_CODE ==> |d.strings[c]| == 1
  }

  ghost predicate Learned(min: nat, e: Encoder, d: Decoder, h: byte)
    requires |d.strings| == MAX_LZW_CODE
  {
    PlainKeys(min, e) && AllEntered(min, e) && Distinct(min, e.nextCode, d, h) && SinglePixels(min, d)
  }

  /** An entry is the only code for the string of its key. */
  lemma NoEntry(min: nat, e: Encoder, d: Decoder, h: byte, px: byte, c: nat)
    requires CodeSizeOk(min) && Sim(min, e, d, h) && Learned(min, e, d, h) && px < ClearCode(min)
    requires e.strmap[Key(e.prefix, px)] <= 0
    requires FirstFree(min) <= c < e.nextCode
    ensures Denotes(d, h, c) != Denotes(d, h, e.prefix) + [px]
  {
    assert c in e.strmap;
    var k :| 0 <= k < MAP_SIZE && e.strmap[k] == c;
    assert EntryOk(min, e, d, h, k);
    assert k / 256 == e.prefix && k % 256 == px ==> Key(e.prefix, px) == k;
    if Denotes(d, h, c) == Denotes(d, h, e.prefix) + [px] {
      SnocSame(Denotes(d, h, k / 256), k % 256, Denotes(d, h, e.prefix), px);
    }
  }

  lemma SnocSame(s: Text, x: byte, t: Text, y: byte)
    requires s + [x] == t + [y]
    ensures s == t && x == y
  {
    assert s == (s + [x])[..|s + [x]| - 1] == (t + [y])[..|t + [y]| - 1] == t;
    assert (s + [x])[|s|] == x;
  }

  /** Greedy: where the dictionary has no entry for the key, no code stands for the longer string. */
  lemma NotKnown(min: nat, e: Encoder, d: Decoder, h: byte, px: byte)
    requires CodeSizeOk(min) && Sim(min, e, d, h) && Learned(min, e, d, h) && px < ClearCode(min)
    requires e.strmap[Key(e.prefix, px)] <= 0
    ensures !Known(min, e, d, h, Denotes(d, h, e.prefix) + [px])
  {
    var longer := Denotes(d, h, e.prefix) + [px];
    forall c | 0 <= c < MAX_LZW_CODE && ValidCode(min, e.nextCode, c) ensures Denotes(d, h, c) != longer {
      if c < ClearCode(min) {
        assert |Denotes(d, h, c)| == 1 && |longer| > 1;
      } else {
        NoEntry(min, e, d, h, px, c);
      }
    }
  }

  // ---------- Steps ----------

  lemma LearnedFresh(min: nat, started: bool, d: Decoder, px: byte)
    requires CodeSizeOk(min) && px < ClearCode(min) && DecOk(min, d) && !d.done
    ensures var e := ClearedEncoder(min, started).(prefix := px);
      Learned(min, e, ClearedDecoder(min, d), px)
  {
    FirstFreeFits(min);
  }

  lemma LearnedFirst(min: nat, e: Encoder, d: Decoder, h: byte, px: byte)
    requires CodeSizeOk(min) && Sim(min, e, d, h) && Learned(min, e, d, h) && px < ClearCode(min)
    requires e == ClearedEncoder(min, false) && d.oldCode == MAX_LZW_CODE
    ensures Learned(min, EncStep(min, e, px).0, d, px)
  {
    FirstFreeFits(min);
  }

  lemma LearnedExtend(min: nat, e: Encoder, d: Decoder, h: byte, px: byte)
    requires CodeSizeOk(min) && Sim(min, e, d, h) && Learned(min, e, d, h) && px < ClearCode(min)
    requires e.started && e.strmap[Key(e.prefix, px)] > 0
    ensures Learned(min, EncStep(min, e, px).0, d, h)
  {
    assert EntryOk(min, e, d, h, Key(e.prefix, px));
  }

  lemma EnteredAfterEmit(min: nat, e: Encoder, e': Encoder, px: byte)
    requires |e.strmap| == MAP_SIZE && e'.strmap == e.strmap[Key(e.prefix, px) := e.nextCode]
    requires e.strmap[Key(e.prefix, px)] <= 0 && e'.nextCode == e.nextCode + 1 && AllEntered(min, e)
    ensures AllEntered(min, e')
  {
    var key := Key(e.prefix, px);
    forall c | FirstFree(min) <= c < e'.nextCode ensures c in e'.strmap {
      if c == e.nextCode {
        assert e'.strmap[key] == c;
      } else {
        assert c in e.strmap;
        var k :| 0 <= k < MAP_SIZE && e.strmap[k] == c;
        assert e'.strmap[k] == c;
      }
    }
  }

  lemma DistinctAfterEmit(min: nat, n: nat, d: Decoder, h: byte, d': Decoder, px: byte, longer: Text)
    requires |d.strings| == |d'.strings| == MAX_LZW_CODE && FirstFree(min) <= n < MAX_LZW_CODE
    requires Distinct(min, n, d, h)
    requires forall c :: 0 <= c < MAX_LZW_CODE && ValidCode(min, n, c) ==>
      Denotes(d', px, c) == Denotes(d, h, c) && Denotes(d, h, c) != longer
    requires Denotes(d', px, n) == longer
    ensures Distinct(min, n + 1, d', px)
  {
    forall a, b | 0 <= a < MAX_LZW_CODE && 0 <= b < MAX_LZW_CODE && ValidCode(min, n + 1, a)
        && ValidCode(min, n + 1, b) && Plain(min, a) && Plain(min, b) && Denotes(d', px, a) == Denotes(d', px, b)
      ensures a == b
    {
      assert a != n ==> ValidCode(min, n, a);
      assert b != n ==> ValidCode(min, n, b);
    }
  }

  lemma KeysAfterEmit(min: nat, e: Encoder, e': Encoder, px: byte)
    requires |e.strmap| == MAP_SIZE && e'.strmap == e.strmap[Key(e.prefix, px) := e.nextCode]
    requires e.prefix < MAX_LZW_CODE && e'.prefix == px && PlainKeys(min, e)
    ensures PlainKeys(min, e')
  {
    var key := Key(e.prefix, px);
    assert key / 256 == e.prefix;
  }

  lemma PixelsAfterEmit(min: nat, e: Encoder, d: Decoder, h: byte)
    requires CodeSizeOk(min) && Sim(min, e, d, h) && SinglePixels(min, d) && e.prefix < Pow2(d.codeSize)
    ensures SinglePixels(min, DecStep(min, d, e.prefix).0)
  {
    SimDecode(min, e, d, h);
    var d' := DecStep(min, d, e.prefix).0;
    forall c | 0 <= c < ClearCode(min) && c < MAX_LZW_CODE ensures |d'.strings[c]| == 1 {
      assert ValidCode(min, e.nextCode, c);
      assert d'.strings[c] == Denotes(d, h, c);
    }
  }

  lemma LearnedEmit(min: nat, e: Encoder, d: Decoder, h: byte, px: byte)
    requires CodeSizeOk(min) && Sim(min, e, d, h) && Learned(min, e, d, h) && px < ClearCode(min)
    requires e.started && e.strmap[Key(e.prefix, px)] <= 0 && e.nextCode + 1 < MAX_LZW_CODE
    requires e.prefix < Pow2(d.codeSize)
    ensures Learned(min, EncStep(min, e, px).0, DecStep(min, d, e.prefix).0, px)
  {
    FirstFreeFits(min);
    SimCaughtUp(min, e, d, h, px);
    var e', d' := EncStep(min, e, px).0, DecStep(min, d, e.prefix).0;
    assert e'.strmap == e.strmap[Key(e.prefix, px) := e.nextCode];
    KeysAfterEmit(min, e, e', px);
    EnteredAfterEmit(min, e, e', px);
    NotKnown(min, e, d, h, px);
    DistinctAfterEmit(min, e.nextCode, d, h, d', px, Denotes(d, h, e.prefix) + [px]);
    PixelsAfterEmit(min, e, d, h);
  }

  /** Encoder and decoder are in step, and the table holds all that was seen. */
  ghost predicate Ready(min: nat, e: Encoder, d: Decoder, h: byte)
  {
    && CodeSizeOk(min) && Sim(min, e, d, h) && Learned(min, e, d, h)
    && (!e.started ==> e == ClearedEncoder(min, false) && d.oldCode == MAX_LZW_CODE)
  }

  /** The decoder after the codes that the encoder writes for a pixel. */
  ghost function Follows(min: nat, e: Encoder, d: Decoder, px: byte): Decoder
    requires CodeSizeOk(min) && DecOk(min, d) && |e.strmap| == MAP_SIZE
  {
    DecRun(min, d, CodeBits(EncStep(min, e, px).1)).decoder
  }

  lemma EmitFollows(min: nat, e: Encoder, d: Decoder, h: byte, px: byte)
    requires Ready(min, e, d, h) && px < ClearCode(min)
    requires e.started && e.strmap[Key(e.prefix, px)] <= 0
    ensures Learned(min, EncStep(min, e, px).0, Follows(min, e, d, px), px)
  {
    SimDecode(min, e, d, h);
    var d' := DecStep(min, d, e.prefix).0;
    if e.nextCode + 1 == MAX_LZW_CODE {
      SimRestart(min, e, d, h, px);
      RestartRun(min, e, d, h, px);
      LearnedFresh(min, true, d', px);
      FirstFreeFits(min);
    } else {
      LearnedEmit(min, e, d, h, px);
      RunOne(min, d, Code(e.prefix, e.codeSize));
    }
  }

  /** One pixel: the tables stay in step and complete. */
  lemma ReadyStep(min: nat, e: Encoder, d: Decoder, h: byte, px: byte)
    requires Ready(min, e, d, h) && px < ClearCode(min)
    ensures Ready(min, EncStep(min, e, px).0, Follows(min, e, d, px), HeadAfter(min, e, h, px))
  {
    var h' := SimStep(min, e, d, h, px);
    if !e.started {
      SimFirst(min, e, d, h, px);
      LearnedFirst(min, e, d, h, px);
    } else if e.strmap[Key(e.prefix, px)] > 0 {
      LearnedExtend(min, e, d, h, px);
      assert DecRun(min, d, CodeBits([])) == Decoded(d, [], []);
    } else {
      EmitFollows(min, e, d, h, px);
    }
  }

  /** A code is written before a pixel exactly if no code stands for the string matched so far followed by the
      pixel, and that string is what it stands for. */
  lemma Greedy(min: nat, e: Encoder, d: Decoder, h: byte, px: byte)
    requires Ready(min, e, d, h) && px < ClearCode(min)
    ensures var codes := EncStep(min, e, px).1;
      && (codes != [] <==> e.started && !Known(min, e, d, h, Pending(e, d, h) + [px]))
      && (codes != [] ==> DecRun(min, d, CodeBits(codes)).text == Pending(e, d, h))
  {
    if e.started && e.strmap[Key(e.prefix, px)] > 0 {
      SimExtend(min, e, d, h, px);
      var c := e.strmap[Key(e.prefix, px)];
      assert ValidCode(min, e.nextCode, c) && Denotes(d, h, c) == Denotes(d, h, e.prefix) + [px];
    } else if e.started {
      NotKnown(min, e, d, h, px);
      SimEmitRun(min, e, d, h, px);
    }
  }

  // ---------- Runs ----------

  lemma ReadyStart(min: nat, started: bool, d: Decoder)
    requires CodeSizeOk(min) && DecOk(min, d) && !d.done
    ensures DecOk(min, ClearedDecoder(min, d))
    ensures Ready(min, ClearedEncoder(min, started), ClearedDecoder(min, d), 0)
  {
    FirstFreeFits(min);
    SimFresh(min, started, d, 0);
    LearnedFresh(min, started, d, 0);
  }

  /** The state after some pixels, with the decoder that has read their codes. */
  ghost predicate ReadyAfter(min: nat, e0: Encoder, d0: Decoder, pixels: Text, h: byte)
    requires CodeSizeOk(min) && DecOk(min, d0) && |e0.strmap| == MAP_SIZE
  {
    var (e, codes) := EncRun(min, e0, pixels);
    Ready(min, e, DecRun(min, d0, CodeBits(codes)).decoder, h)
  }

  lemma ReadyNext(min: nat, e0: Encoder, d0: Decoder, lead: Text, pixels: Text, h: byte, px: byte) returns (h': byte)
    requires CodeSizeOk(min) && DecOk(min, d0) && |e0.strmap| == MAP_SIZE && px < ClearCode(min)
    requires InStep(min, e0, d0, lead, pixels, h) && ReadyAfter(min, e0, d0, pixels, h)
    ensures InStep(min, e0, d0, lead, pixels + [px], h') && ReadyAfter(min, e0, d0, pixels + [px], h')
  {
    var (e, codes) := EncRun(min, e0, pixels);
    h' := InStepNext(min, e0, d0, lead, pixels, h, px);
    ReadyStep(min, e, DecRun(min, d0, CodeBits(codes)).decoder, h, px);
    RunsSnoc(min, e0, d0, pixels, px);
  }

  lemma {:induction false} ReadyRun(min: nat, e0: Encoder, d0: Decoder, lead: Text, pixels: Text, h0: byte)
      returns (h: byte)
    requires CodeSizeOk(min) && DecOk(min, d0) && |e0.strmap| == MAP_SIZE
    requires forall i :: 0 <= i < |pixels| ==> pixels[i] < ClearCode(min)
    requires InStep(min, e0, d0, lead, [], h0) && ReadyAfter(min, e0, d0, [], h0)
    ensures InStep(min, e0, d0, lead, pixels, h) && ReadyAfter(min, e0, d0, pixels, h)
  {
    if pixels == [] {
      h := h0;
    } else {
      var before, px := pixels[..|pixels| - 1], pixels[|pixels| - 1];
      h := ReadyRun(min, e0, d0, lead, before, h0);
      h := ReadyNext(min, e0, d0, lead, before, h, px);
      assert before + [px] == pixels;
    }
  }

  /** So it is after any pixels of an image. */
  lemma ReadyImage(min: nat, started: bool, d: Decoder, pixels: Text) returns (h: byte)
    requires CodeSizeOk(min) && DecOk(min, d) && !d.done
    requires forall i :: 0 <= i < |pixels| ==> pixels[i] < ClearCode(min)
    ensures DecOk(min, ClearedDecoder(min, d))
    ensures ReadyAfter(min, ClearedEncoder(min, started), ClearedDecoder(min, d), pixels, h)
    ensures InStep(min, ClearedEncoder(min, started), ClearedDecoder(min, d), if started then [0] else [], pixels, h)
  {
    var e0, d0, lead := ClearedEncoder(min, started), ClearedDecoder(min, d), if started then [0] else [];
    ReadyStart(min, started, d);
    InStepStart(min, started, d);
    assert DecRun(min, d0, CodeBits([])) == Decoded(d0, [], []);
    h := ReadyRun(min, e0, d0, lead, pixels, 0);
  }

  /** LZW's law for the next pixel of any image, seen through the decoder that has read the codes so far: each code
      given out is in the dictionary, and a code is written exactly if no code stands for the longer string. */
  lemma LongestMatch(min: nat, started: bool, d: Decoder, pixels: Text, px: byte) returns (h: byte)
    requires CodeSizeOk(min) && DecOk(min, d) && !d.done && px < ClearCode(min)
    requires forall i :: 0 <= i < |pixels| ==> pixels[i] < ClearCode(min)
    ensures DecOk(min, ClearedDecoder(min, d))
    ensures var (e, codes) := EncRun(min, ClearedEncoder(min, started), pixels);
      var r := DecRun(min, ClearedDecoder(min, d), CodeBits(codes));
      Sim(min, e, r.decoder, h) &&
      var matched := Pending(e, r.decoder, h);
      && r.text + matched == (if started then [0] else []) + pixels
      && (forall c :: FirstFree(min) <= c < e.nextCode ==> c in e.strmap)
      && (EncStep(min, e, px).1 != [] <==> e.started && !Known(min, e, r.decoder, h, matched + [px]))
  {
    h := ReadyImage(min, started, d, pixels);
    var (e, codes) := EncRun(min, ClearedEncoder(min, started), pixels);
    Greedy(min, e, DecRun(min, ClearedDecoder(min, d), CodeBits(codes)).decoder, h, px);
  }

  // ---------- Equal pixels ----------

  function Repeat(px: byte, n: nat): Text { seq(n, _ => px) }

  lemma RepeatNext(px: byte, n: nat)
    ensures Repeat(px, n + 1) == Repeat(px, n) + [px]
  {
  }

  /** Codes stand for all runs of up to n pixels px, and a run of j of them is being matched. */
  ghost predicate RunsKnown(min: nat, e: Encoder, d: Decoder, h: byte, px: byte, n: nat, j: nat)
    requires Ready(min, e, d, h)
  {
    && e.started && 1 <= j <= n && Pending(e, d, h) == Repeat(px, j)
    && forall i :: 1 <= i <= n ==> Known(min, e, d, h, Repeat(px, i))
  }

  /** Writing a code keeps what the codes stand for and adds the string that was not found. */
  lemma KnownAfterEmit(min: nat, e: Encoder, d: Decoder, h: byte, px: byte, s: Text)
    requires Ready(min, e, d, h) && px < ClearCode(min)
    requires e.started && e.strmap[Key(e.prefix, px)] <= 0 && e.nextCode + 1 < MAX_LZW_CODE
    requires Known(min, e, d, h, s) || s == Pending(e, d, h) + [px]
    ensures Known(min, EncStep(min, e, px).0, Follows(min, e, d, px), px, s)
  {
    SimCaughtUp(min, e, d, h, px);
    RunOne(min, d, Code(e.prefix, e.codeSize));
    var e', d' := EncStep(min, e, px).0, DecStep(min, d, e.prefix).0;
    if s == Pending(e, d, h) + [px] {
      assert ValidCode(min, e'.nextCode, e.nextCode) && Denotes(d', px, e.nextCode) == s;
    } else {
      var c :| 0 <= c < MAX_LZW_CODE && ValidCode(min, e.nextCode, c) && Denotes(d, h, c) == s;
      assert ValidCode(min, e'.nextCode, c) && Denotes(d', px, c) == s;
    }
  }

  /** After a code a single pixel is being matched. */
  lemma AfterEmit(min: nat, e: Encoder, d: Decoder, h: byte, px: byte)
    requires Ready(min, e, d, h) && px < ClearCode(min)
    requires e.started && e.strmap[Key(e.prefix, px)] <= 0
    ensures Ready(min, EncStep(min, e, px).0, Follows(min, e, d, px), px)
    ensures var e', d' := EncStep(min, e, px).0, Follows(min, e, d, px);
      e'.started && Pending(e', d', px) == Repeat(px, 1) && Known(min, e', d', px, Repeat(px, 1))
  {
    ReadyStep(min, e, d, h, px);
    SimEmitRun(min, e, d, h, px);
    FirstFreeFits(min);
    var e', d' := EncStep(min, e, px).0, Follows(min, e, d, px);
    assert [px] == Repeat(px, 1);
    assert ValidCode(min, e'.nextCode, e'.prefix);
  }

  /** A run is given up only where no longer one is known. */
  lemma RunFull(min: nat, e: Encoder, d: Decoder, h: byte, px: byte, n: nat, j: nat)
    requires Ready(min, e, d, h) && px < ClearCode(min) && RunsKnown(min, e, d, h, px, n, j)
    requires e.strmap[Key(e.prefix, px)] <= 0
    ensures n == j
  {
    NotKnown(min, e, d, h, px);
    RepeatNext(px, j);
  }

  lemma RunEmit(min: nat, e: Encoder, d: Decoder, h: byte, px: byte, n: nat, j: nat)
    requires Ready(min, e, d, h) && px < ClearCode(min) && RunsKnown(min, e, d, h, px, n, j)
    requires e.strmap[Key(e.prefix, px)] <= 0 && e.nextCode + 1 < MAX_LZW_CODE
    ensures Ready(min, EncStep(min, e, px).0, Follows(min, e, d, px), px)
    ensures n == j && RunsKnown(min, EncStep(min, e, px).0, Follows(min, e, d, px), px, px, n + 1, 1)
  {
    AfterEmit(min, e, d, h, px);
    RunFull(min, e, d, h, px, n, j);
    RepeatNext(px, j);
    forall i | 1 <= i <= n + 1 ensures Known(min, EncStep(min, e, px).0, Follows(min, e, d, px), px, Repeat(px, i)) {
      KnownAfterEmit(min, e, d, h, px, Repeat(px, i));
    }
  }

  lemma RunExtend(min: nat, e: Encoder, d: Decoder, h: byte, px: byte, n: nat, j: nat)
    requires Ready(min, e, d, h) && px < ClearCode(min) && RunsKnown(min, e, d, h, px, n, j)
    requires e.strmap[Key(e.prefix, px)] > 0
    ensures Ready(min, EncStep(min, e, px).0, d, h) && Follows(min, e, d, px) == d
    ensures RunsKnown(min, EncStep(min, e, px).0, d, h, px, if j == n then n + 1 else n, j + 1)
  {
    ReadyStep(min, e, d, h, px);
    assert DecRun(min, d, CodeBits([])) == Decoded(d, [], []);
    SimExtend(min, e, d, h, px);
    RepeatNext(px, j);
    var e' := EncStep(min, e, px).0;
    assert ValidCode(min, e'.nextCode, e'.prefix);
    forall i | 1 <= i <= if j == n then n + 1 else n ensures Known(min, e', d, h, Repeat(px, i)) {
      if i <= n {
        assert Known(min, e, d, h, Repeat(px, i));
      }
    }
  }

  /** After m equal pixels, t codes have been written: the runs they stand for grow by at least one each time. */
  ghost predicate Costs(min: nat, e: Encoder, d: Decoder, h: byte, px: byte, m: nat, t: nat, n: nat, j: nat)
  {
    && Ready(min, e, d, h)
    && (t > 0 ==> RunsKnown(min, e, d, h, px, n, j) && t <= n && t * (t - 1) + 2 * j <= 2 * m)
  }

  predicate Writes(e: Encoder, px: byte)
    requires |e.strmap| == MAP_SIZE
  {
    e.started && e.strmap[Key(e.prefix, px)] <= 0
  }

  lemma CostsStep(min: nat, e: Encoder, d: Decoder, h: byte, px: byte, m: nat, t: nat, n: nat, j: nat)
      returns (n': nat, j': nat)
    requires Costs(min, e, d, h, px, m, t, n, j) && px < ClearCode(min)
    requires Writes(e, px) ==> e.nextCode + 1 < MAX_LZW_CODE
    ensures var e' := EncStep(min, e, px).0;
      var more := if Writes(e, px) then 1 else 0;
      && |EncStep(min, e, px).1| == more && e'.nextCode == e.nextCode + more
      && Costs(min, e', Follows(min, e, d, px), HeadAfter(min, e, h, px), px, m + 1, t + more, n', j')
  {
    ReadyStep(min, e, d, h, px);
    n', j' := n, j;
    if Writes(e, px) {
      if t > 0 {
        RunEmit(min, e, d, h, px, n, j);
        n', j' := n + 1, 1;
        assert (t + 1) * t == t * (t - 1) + 2 * t;
      } else {
        AfterEmit(min, e, d, h, px);
        n', j' := 1, 1;
      }
    } else if t > 0 {
      RunExtend(min, e, d, h, px, n, j);
      n', j' := if j == n then n + 1 else n, j + 1;
    }
  }

  lemma Grows(t: nat, k: nat)
    requires k < t
    ensures (k + 1) * k <= t * (t - 1)
  {
    assert t * (t - 1) - (k + 1) * k == (t - k - 1) * (t + k);
  }

  lemma CodeCosts(min: nat, e: Encoder, d: Decoder, h: byte, px: byte, m: nat, t: nat, n: nat, j: nat, k: nat)
    requires Costs(min, e, d, h, px, m, t, n, j) && px < ClearCode(min) && Writes(e, px)
    requires 2 * (m + 1) <= k * (k + 1)
    ensures t + 1 <= k
  {
    if t > 0 {
      RunFull(min, e, d, h, px, n, j);
    }
    assert (t + 1) * t == t * (t - 1) + 2 * t;
    if k < t + 1 {
      Grows(t + 1, k);
    }
  }

  /** The codes written for m equal pixels, from any state that encoder and decoder get into. */
  ghost predicate RepeatCosts(min: nat, e0: Encoder, px: byte, m: nat, k: nat, d: Decoder, h: byte, n: nat, j: nat)
    requires |e0.strmap| == MAP_SIZE
  {
    var (e, codes) := EncRun(min, e0, Repeat(px, m));
    Costs(min, e, d, h, px, m, |codes|, n, j) && |codes| <= k && e.nextCode == e0.nextCode + |codes|
  }

  lemma RepeatIs(min: nat, e0: Encoder, px: byte, m: nat, k: nat, d: Decoder, h: byte, n: nat, j: nat,
                 e: Encoder, codes: seq<Code>, t: nat)
    requires |e0.strmap| == MAP_SIZE && EncRun(min, e0, Repeat(px, m)) == (e, codes) && |codes| == t
    requires Costs(min, e, d, h, px, m, t, n, j) && t <= k && e.nextCode == e0.nextCode + t
    ensures RepeatCosts(min, e0, px, m, k, d, h, n, j)
  {
  }

  /** One code more stays within the bound, and the table has room for its entry. */
  lemma RoomFor(min: nat, e0: Encoder, e: Encoder, d: Decoder, h: byte, px: byte,
                m: nat, t: nat, n: nat, j: nat, k: nat)
    requires Costs(min, e, d, h, px, m, t, n, j) && px < ClearCode(min) && t <= k && e.nextCode == e0.nextCode + t
    requires 2 * (m + 1) <= k * (k + 1) && e0.nextCode + k < MAX_LZW_CODE
    ensures t + (if Writes(e, px) then 1 else 0) <= k
    ensures Writes(e, px) ==> e.nextCode + 1 < MAX_LZW_CODE
  {
    if Writes(e, px) {
      CodeCosts(min, e, d, h, px, m, t, n, j, k);
    }
  }

  lemma RepeatStep(min: nat, e0: Encoder, px: byte, m: nat, k: nat, d: Decoder, h: byte, n: nat, j: nat)
      returns (d': Decoder, h': byte, n': nat, j': nat)
    requires |e0.strmap| == MAP_SIZE && e0.nextCode + k < MAX_LZW_CODE && px < ClearCode(min)
    requires RepeatCosts(min, e0, px, m, k, d, h, n, j) && 2 * (m + 1) <= k * (k + 1)
    ensures RepeatCosts(min, e0, px, m + 1, k, d', h', n', j')
  {
    var (e, codes) := EncRun(min, e0, Repeat(px, m));
    RepeatNext(px, m);
    EncRunSnoc(min, e0, Repeat(px, m), px);
    var t := |codes|;
    RoomFor(min, e0, e, d, h, px, m, t, n, j, k);
    n', j' := CostsStep(min, e, d, h, px, m, t, n, j);
    d', h' := Follows(min, e, d, px), HeadAfter(min, e, h, px);
    var (e', more) := EncStep(min, e, px);
    RepeatIs(min, e0, px, m + 1, k, d', h', n', j', e', codes + more, t + |more|);
  }

  lemma {:induction false} RepeatRun(min: nat, e0: Encoder, d0: Decoder, h0: byte, px: byte, m: nat, k: nat)
      returns (d: Decoder, h: byte, n: nat, j: nat)
    requires Ready(min, e0, d0, h0) && px < ClearCode(min) && 2 * m <= k * (k + 1) && e0.nextCode + k < MAX_LZW_CODE
    ensures RepeatCosts(min, e0, px, m, k, d, h, n, j)
  {
    if m == 0 {
      d, h, n, j := d0, h0, 0, 0;
    } else {
      d, h, n, j := RepeatRun(min, e0, d0, h0, px, m - 1, k);
      d, h, n, j := RepeatStep(min, e0, px, m - 1, k, d, h, n, j);
    }
  }

  /** After any pixels, k * (k + 1) / 2 equal ones cost at most k codes, and one more for the last string, as long
      as the table has room for k entries. */
  lemma EqualPixels(min: nat, started: bool, pixels: Text, px: byte, m: nat, k: nat)
    requires CodeSizeOk(min) && px < ClearCode(min)
    requires forall i :: 0 <= i < |pixels| ==> pixels[i] < ClearCode(min)
    requires m <= k * (k + 1) / 2
    requires EncRun(min, ClearedEncoder(min, started), pixels).0.nextCode + k < MAX_LZW_CODE
    ensures |EncRun(min, EncRun(min, ClearedEncoder(min, started), pixels).0, Repeat(px, m)).1| <= k
  {
    FirstFreeFits(min);
    var d := Decoder(false, FirstFree(min), min + 1, MAX_LZW_CODE, seq(MAX_LZW_CODE, _ => []));
    var h := ReadyImage(min, started, d, pixels);
    var (e, codes) := EncRun(min, ClearedEncoder(min, started), pixels);
    var t := DecRun(min, ClearedDecoder(min, d), CodeBits(codes)).decoder;
    var d', h', n, j := RepeatRun(min, e, t, h, px, m, k);
  }

  lemma RunIs(min: nat, e0: Encoder, pixels: Text, px: byte, all: Text, e: Encoder, codes: seq<Code>,
              e': Encoder, more: seq<Code>, written: seq<Code>)
    requires |e0.strmap| == |e.strmap| == MAP_SIZE && all == pixels + [px] && written == codes + more
    requires EncRun(min, e0, pixels) == (e, codes) && EncStep(min, e, px) == (e', more)
    ensures EncRun(min, e0, all) == (e', written)
  {
    EncRunSnoc(min, e0, pixels, px);
  }

  /** Four equal pixels: the second and the third are one code. */
  lemma FourPixels()
    ensures ImageCodes(2, false, [1, 1, 1, 1]) == [Code(4, 3), Code(1, 3), Code(6, 3), Code(1, 3), Code(5, 3)]
  {
    assert Pow2(2) == 4 && Pow2(3) == 8;
    var e0 := ClearedEncoder(2, false);
    var e1 := e0.(started := true, prefix := 1);
    var e2 := Encoder(true, 1, 7, 3, e0.strmap[257 := 6]);
    var e3 := e2.(prefix := 6);
    var e4 := Encoder(true, 1, 8, 3, e2.strmap[1537 := 7]);
    var first, second := [Code(1, 3)], [Code(1, 3), Code(6, 3)];
    RunIs(2, e0, [], 1, [1], e0, [], e1, [], []);
    RunIs(2, e0, [1], 1, [1, 1], e1, [], e2, first, first);
    RunIs(2, e0, [1, 1], 1, [1, 1, 1], e2, first, e3, [], first);
    RunIs(2, e0, [1, 1, 1], 1, [1, 1, 1, 1], e3, first, e4, [Code(6, 3)], second);
  }

  lemma CodesNext(codes: seq<Code>, more: seq<Code>, c: Code)
    requires more == codes + [c]
    ensures CodeBits(more) == CodeBits(codes) + BitString(c.value, c.width)
  {
    assert more[..|more| - 1] == codes;
  }

  lemma FiveCodes(a: Code, b: Code, c: Code, d: Code, e: Code)
    ensures CodeBits([a, b, c, d, e]) == BitString(a.value, a.width) + BitString(b.value, b.width)
      + BitString(c.value, c.width) + BitString(d.value, d.width) + BitString(e.value, e.width)
  {
    CodeBitsOne(a);
    CodesNext([a], [a, b], b);
    CodesNext([a, b], [a, b, c], c);
    CodesNext([a, b, c], [a, b, c, d], d);
    CodesNext([a, b, c, d], [a, b, c, d, e], e);
  }

  lemma TwoBytes(a: byte, b: byte)
    ensures BitsOfBytes([a, b]) == BitString(a, 8) + BitString(b, 8)
  {
    assert [a, b][..1] == [a] && [a][..0] == [];
    assert BitsOfBytes([a]) == [] + BitString(a, 8);
  }

  lemma ThreeBits()
    ensures BitString(4, 3) == [false, false, true] && BitString(1, 3) == [true, false, false]
    ensures BitString(6, 3) == [false, true, true] && BitString(5, 3) == [true, false, true]
  {
  }

  lemma FourBits()
    ensures BitString(0xc, 4) == [false, false, true, true] && BitString(8, 4) == [false, false, false, true]
    ensures BitString(3, 4) == [true, true, false, false] && BitString(5, 4) == [true, false, true, false]
  {
  }

  lemma TwoHalves(v: nat, low: nat, high: nat, n: nat)
    requires n == 8 && low < 16 && v == low + 16 * high
    ensures BitString(v, n) == BitString(low, 4) + BitString(high, 4)
  {
    Pow2Small();
    DivModUnique(v, 16, high, low);
    BitStringSplit(v, 4, n);
  }

  lemma CodesWritten(codes: seq<Code>, bits: seq<bool>)
    requires codes == [Code(4, 3), Code(1, 3), Code(6, 3), Code(1, 3), Code(5, 3)]
    requires bits == [false, false, true] + [true, false, false] + [false, true, true] + [true, false, false]
      + [true, false, true]
    ensures CodeBits(codes) == bits
  {
    FiveCodes(codes[0], codes[1], codes[2], codes[3], codes[4]);
    ThreeBits();
  }

  lemma BytesWritten(bytes: seq<byte>, bits: seq<bool>)
    requires bytes == [0x8c, 0x53]
    requires bits == ([false, false, true, true] + [false, false, false, true])
      + ([true, true, false, false] + [true, false, true, false])
    ensures BitsOfBytes(bytes) == bits
  {
    TwoBytes(bytes[0], bytes[1]);
    FourBits();
    TwoHalves(bytes[0], 0xc, 8, 8);
    TwoHalves(bytes[1], 3, 5, 8);
  }

  lemma FourPixelsBits(codes: seq<Code>, bytes: seq<byte>, bits: seq<bool>)
    requires codes == [Code(4, 3), Code(1, 3), Code(6, 3), Code(1, 3), Code(5, 3)] && bytes == [0x8c, 0x53]
    requires bits == [false, false, true, true, false, false, false, true, true, true, false, false, true, false, true]
    ensures CodeBits(codes) + [false] == BitsOfBytes(bytes)
  {
    CodesWritten(codes, bits);
    BytesWritten(bytes, bits + [false]);
  }

  /** As bytes, first bit lowest: the fifteen bits of the codes and a zero. */
  lemma FourPixelsBytes(codes: seq<Code>)
    requires codes == ImageCodes(2, false, [1, 1, 1, 1])
    ensures CodeBits(codes) + [false] == BitsOfBytes([0x8c, 0x53])
  {
    FourPixels();
    FourPixelsBits(codes, [0x8c, 0x53],
      [false, false, true, true, false, false, false, true, true, true, false, false, true, false, true]);
  }

  // ---------- Widths ----------

  /** width is the number of bits of the greatest code given out. */
  predicate Width(width: nat, greatest: nat) { width > 0 && Pow2(width - 1) <= greatest < Pow2(width) }

  lemma WidthsStep(min: nat, e: Encoder, px: byte)
    requires CodeSizeOk(min) && |e.strmap| == MAP_SIZE
    requires FirstFree(min) <= e.nextCode < MAX_LZW_CODE && Width(e.codeSize, e.nextCode - 1)
    ensures var (e', codes) := EncStep(min, e, px);
      && FirstFree(min) <= e'.nextCode < MAX_LZW_CODE && Width(e'.codeSize, e'.nextCode - 1)
      && |codes| <= 2 && (|codes| > 0 ==> Width(codes[0].width, e.nextCode - 1))
      && (|codes| > 1 ==> codes[1].value == ClearCode(min) && Width(codes[1].width, e.nextCode))
  {
    FirstFreeFits(min);
    Pow2Monotone(min, min + 1);
    assert Pow2(e.codeSize) == 2 * Pow2(e.codeSize - 1);
    assert Pow2(e.codeSize + 1) == 2 * Pow2(e.codeSize);
  }

  /** Along every image a code is written with the number of bits of the greatest code given out so far, and the
      clear code of a restart with the number of bits of the code that would have been next. */
  lemma {:induction false} Widths(min: nat, started: bool, pixels: Text, px: byte)
    requires CodeSizeOk(min)
    ensures var e := EncRun(min, ClearedEncoder(min, started), pixels).0;
      var codes := EncStep(min, e, px).1;
      && FirstFree(min) <= e.nextCode < MAX_LZW_CODE && Width(e.codeSize, e.nextCode - 1)
      && |codes| <= 2 && (|codes| > 0 ==> Width(codes[0].width, e.nextCode - 1))
      && (|codes| > 1 ==> codes[1].value == ClearCode(min) && Width(codes[1].width, e.nextCode))
    decreases |pixels|
  {
    var e0 := ClearedEncoder(min, started);
    if pixels == [] {
      FirstFreeFits(min);
      WidthsStep(min, e0, px);
    } else {
      var before, last := pixels[..|pixels| - 1], pixels[|pixels| - 1];
      Widths(min, started, before, last);
      WidthsStep(min, EncRun(min, e0, before).0, last);
      WidthsStep(min, EncRun(min, e0, pixels).0, px);
    }
  }

  // ---------- Restarts ----------

  /** The codes written since the table was last restarted. */
  function CodesSince(min: nat, started: bool, pixels: Text): nat {
    if pixels == [] then 0 else
      var before, last := pixels[..|pixels| - 1], pixels[|pixels| - 1];
      var codes := EncStep(min, EncRun(min, ClearedEncoder(min, started), before).0, last).1;
      if |codes| == 2 then 0 else CodesSince(min, started, before) + |codes|
  }

  lemma RestartStep(min: nat, e: Encoder, px: byte)
    requires CodeSizeOk(min) && |e.strmap| == MAP_SIZE
    ensures var (e', codes) := EncStep(min, e, px);
      && |codes| <= 2 && (|codes| == 2 <==> codes != [] && e.nextCode == 4095)
      && (|codes| == 2 ==> codes[1].value == Pow2(min) && e'.nextCode == Pow2(min) + 2)
      && (|codes| != 2 ==> e'.nextCode == e.nextCode + |codes|)
  {
  }

  /** The table is restarted, with a clear code, behind every 4094 - 2^min codes and nowhere else. */
  lemma {:induction false} RestartIff(min: nat, started: bool, pixels: Text, px: byte)
    requires CodeSizeOk(min)
    ensures var e := EncRun(min, ClearedEncoder(min, started), pixels).0;
      var codes := EncStep(min, e, px).1;
      && e.nextCode == Pow2(min) + 2 + CodesSince(min, started, pixels)
      && |codes| <= 2 && (|codes| == 2 ==> codes[1].value == Pow2(min))
      && (|codes| == 2 <==> codes != [] && CodesSince(min, started, pixels) + 1 == 4094 - Pow2(min))
    decreases |pixels|
  {
    FirstFreeFits(min);
    if pixels != [] {
      var before, last := pixels[..|pixels| - 1], pixels[|pixels| - 1];
      RestartIff(min, started, before, last);
      RestartStep(min, EncRun(min, ClearedEncoder(min, started), before).0, last);
    }
    RestartStep(min, EncRun(min, ClearedEncoder(min, started), pixels).0, px);
  }
}
