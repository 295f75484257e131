/** Whole images: the calls that compress one row by row, the block loop of
    ddgif/src/ddgif.cpp that decompresses one, and the round trip between them. */
module LzwSession {
  import opened Bits
  import opened Collections
  import opened Streams
  import opened LzwModel
  import opened LzwRoundTrip
  import opened LzwCodec

  predicate InRange(pixels: Text, bound: nat) {
    forall i :: 0 <= i < |pixels| ==> pixels[i] < bound
  }

  /** The decoder after Initialize on an object whose table held the given strings. */
  function FreshDecoder(min: nat, strings: seq<Text>): Decoder
    requires |strings| == MAX_LZW_CODE
  {
    Decoder(false, FirstFree(min), min + 1, MAX_LZW_CODE, Literals(min, strings))
  }

  lemma FreshDecoderOk(min: nat, strings: seq<Text>)
    requires CodeSizeOk(min) && |strings| == MAX_LZW_CODE
    ensures DecOk(min, FreshDecoder(min, strings))
  {
    FirstFreeFits(min);
  }

  /** The bytes of the last call, by the number of bits buffered before it. */
  function FinalLength(size: nat, codeSize: nat): nat { (size + 2 * codeSize + 7) / 8 }

  /** tail is the number of bytes that the last call writes. */
  method CompressImage(t: StringTable, min: nat, rows: seq<Text>)
      returns (bytes: seq<byte>, ghost pad: nat, ghost tail: nat)
    requires t.m_strings.Length == MAX_LZW_CODE && t.m_strmap.Length == MAP_SIZE
    requires CodeSizeOk(min)
    requires forall i :: 0 <= i < |rows| ==> InRange(rows[i], Pow2(min))
    modifies t, t.m_strings, t.m_strmap
    ensures pad < 8
    ensures BitsOfBytes(bytes)
         == CodeBits(ImageCodes(min, old(t.firstPixelPassed), Join(rows))) + BitString(0, pad)
    ensures tail == TailLength(min, old(t.firstPixelPassed), Join(rows))
  {
    t.Initialize(min);
    t.CompressStart();
    ghost var clear := t.PartialBits();
    bytes := [];
    NoCodes(clear);
    var i := 0;
    while i < |rows|
      invariant 0 <= i <= |rows| && t.CanCompress() && t.m_minCodeSize == min && !t.m_done
      invariant Written(t, old(t.firstPixelPassed), clear, Join(rows[..i]), bytes)
      invariant t.m_partialSize == ImageSize(min, old(t.firstPixelPassed), Join(rows[..i]))
    {
      assert rows[..i + 1][..i] == rows[..i];
      bytes := CompressSizedRow(t, old(t.firstPixelPassed), clear, Join(rows[..i]), bytes, rows[i]);
      i := i + 1;
    }
    assert rows[..i] == rows;
    ghost var codes := EncRun(min, ClearedEncoder(min, old(t.firstPixelPassed)), Join(rows)).1;
    ghost var mid, last := t.PartialBits(), FinalCodes(min, t.Enc());
    var out;
    out, pad := t.CompressEnd();
    tail := |out|;
    ImageEnd(ClearMarker(min), bytes, mid, codes, out, last, pad, clear);
    bytes := bytes + out;
  }

  /** The pixels compressed so far have led to the object's state and the given bytes. */
  ghost predicate Written(t: StringTable, used: bool, clear: seq<bool>, pixels: Text, bytes: seq<byte>)
    reads t, t.m_strmap
    requires t.Valid() && t.PartialOk()
  {
    var r := EncRun(t.m_minCodeSize, ClearedEncoder(t.m_minCodeSize, used), pixels);
    t.Enc() == r.0 && BitsOfBytes(bytes) + t.PartialBits() == clear + CodeBits(r.1)
  }

  /** The bits buffered after these pixels of an image. */
  function ImageSize(min: nat, used: bool, pixels: Text): nat {
    SizeRun(min, ClearedEncoder(min, used), min + 1, pixels)
  }

  function TailLength(min: nat, used: bool, pixels: Text): nat {
    FinalLength(ImageSize(min, used, pixels), EncRun(min, ClearedEncoder(min, used), pixels).0.codeSize)
  }

  method CompressRow(t: StringTable, ghost used: bool, ghost clear: seq<bool>, ghost pixels: Text,
                     before: seq<byte>, row: Text) returns (bytes: seq<byte>)
    requires t.CanCompress() && !t.m_done && InRange(row, t.m_clearCode)
    requires Written(t, used, clear, pixels, before)
    modifies t, t.m_strmap
    ensures t.CanCompress() && !t.m_done && t.m_minCodeSize == old(t.m_minCodeSize)
    ensures Written(t, used, clear, pixels + row, bytes)
    ensures t.m_partialSize == SizeRun(t.m_minCodeSize, old(t.Enc()), old(t.m_partialSize), row)
  {
    ghost var min, mid, e := t.m_minCodeSize, t.PartialBits(), t.Enc();
    t.FillInputBuffer(row);
    var ok, out := t.Compress();
    RowCompressed(min, ClearedEncoder(min, used), clear, pixels, row, before, out, mid, t.PartialBits());
    bytes := before + out;
  }

  /** The same with the number of buffered bits. */
  method CompressSizedRow(t: StringTable, ghost used: bool, ghost clear: seq<bool>, ghost pixels: Text,
                          before: seq<byte>, row: Text) returns (bytes: seq<byte>)
    requires t.CanCompress() && !t.m_done && InRange(row, t.m_clearCode)
    requires Written(t, used, clear, pixels, before) && t.m_partialSize == ImageSize(t.m_minCodeSize, used, pixels)
    modifies t, t.m_strmap
    ensures t.CanCompress() && !t.m_done && t.m_minCodeSize == old(t.m_minCodeSize)
    ensures Written(t, used, clear, pixels + row, bytes)
      && t.m_partialSize == ImageSize(t.m_minCodeSize, used, pixels + row)
  {
    ImageSizeNext(t.m_minCodeSize, used, pixels, row, t.Enc(), t.m_partialSize);
    bytes := CompressRow(t, used, clear, pixels, before, row);
  }

  lemma ImageSizeNext(min: nat, used: bool, pixels: Text, row: Text, e: Encoder, size: nat)
    requires |e.strmap| == MAP_SIZE && e == EncRun(min, ClearedEncoder(min, used), pixels).0
    requires size == ImageSize(min, used, pixels)
    ensures SizeRun(min, e, size, row) == ImageSize(min, used, pixels + row)
  {
    SizeRunConcat(min, ClearedEncoder(min, used), min + 1, pixels, row);
  }

  lemma RowCompressed(min: nat, e0: Encoder, clear: seq<bool>, pixels: Text, row: Text,
                      before: seq<byte>, out: seq<byte>, mid: seq<bool>, end: seq<bool>)
    requires |e0.strmap| == MAP_SIZE
    requires var (e, codes) := EncRun(min, e0, pixels);
      && BitsOfBytes(before) + mid == clear + CodeBits(codes)
      && (BitsOfBytes(out) + end == mid + CodeBits(EncRun(min, e, row).1)
          || (row == [] && out == [] && end == mid))
    ensures var (e, codes) := EncRun(min, e0, pixels + row);
      && e == EncRun(min, EncRun(min, e0, pixels).0, row).0
      && BitsOfBytes(before + out) + end == clear + CodeBits(codes)
  {
    var (e, codes) := EncRun(min, e0, pixels);
    EncRunConcat(min, e0, pixels, row);
    NoCodes(mid);
    BitsAppend(clear, before, mid, out, end, codes, EncRun(min, e, row).1);
  }

  function ClearMarker(min: nat): Code { Code(ClearCode(min), min + 1) }

  lemma ImageEnd(first: Code, bytes: seq<byte>, mid: seq<bool>, codes: seq<Code>, out: seq<byte>,
                 last: seq<Code>, pad: nat, clear: seq<bool>)
    requires clear == CodeBits([first])
    requires BitsOfBytes(bytes) + mid == clear + CodeBits(codes)
    requires BitsOfBytes(out) == mid + CodeBits(last) + BitString(0, pad)
    ensures BitsOfBytes(bytes + out) == CodeBits([first] + codes + last) + BitString(0, pad)
  {
    BitsOfBytesConcat(bytes, out);
    CodeBitsConcat([first] + codes, last);
    CodeBitsConcat([first], codes);
    Assoc(BitsOfBytes(bytes), mid, CodeBits(last));
    Assoc(BitsOfBytes(bytes), mid + CodeBits(last), BitString(0, pad));
  }

  /** Decoding block after block, carrying the incomplete code over. */
  function FeedBlocks(min: nat, d: Decoder, bits: seq<bool>, blocks: seq<Text>): (r: Decoded)
    requires CodeSizeOk(min) && DecOk(min, d)
    ensures DecOk(min, r.decoder)
  {
    if blocks == [] then DecRun(min, d, bits)
    else
      var r := FeedBlocks(min, d, bits, blocks[..|blocks| - 1]);
      var s := DecRun(min, r.decoder, r.rest + BitsOfBytes(blocks[|blocks| - 1]));
      Decoded(s.decoder, s.rest, r.text + s.text)
  }

  /** How the data is cut into blocks makes no difference. */
  lemma {:induction false} FeedBlocksIsDecRun(min: nat, d: Decoder, bits: seq<bool>, blocks: seq<Text>)
    requires CodeSizeOk(min) && DecOk(min, d)
    ensures FeedBlocks(min, d, bits, blocks) == DecRun(min, d, bits + BitsOfBytes(Join(blocks)))
  {
    if blocks == [] {
      assert bits + BitsOfBytes([]) == bits;
    } else {
      var before, last := blocks[..|blocks| - 1], blocks[|blocks| - 1];
      FeedBlocksIsDecRun(min, d, bits, before);
      BitsOfBytesConcat(Join(before), last);
      Assoc(bits, BitsOfBytes(Join(before)), BitsOfBytes(last));
      DecRunConcat(min, d, bits + BitsOfBytes(Join(before)), BitsOfBytes(last));
    }
  }

  method DecompressImage(t: StringTable, min: nat, blocks: seq<Text>) returns (pixels: Text)
    requires t.m_strings.Length == MAX_LZW_CODE && t.m_strmap.Length == MAP_SIZE
    requires CodeSizeOk(min)
    modifies t, t.m_strings, t.m_strmap
    ensures DecOk(min, FreshDecoder(min, old(t.m_strings[..])))
    ensures pixels == FeedBlocks(min, FreshDecoder(min, old(t.m_strings[..])), [], blocks).text
  {
    ghost var d0 := FreshDecoder(min, t.m_strings[..]);
    FreshDecoderOk(min, t.m_strings[..]);
    t.Initialize(min);
    pixels := [];
    var i := 0;
    while i < |blocks|
      invariant 0 <= i <= |blocks| && t.CanDecompress() && t.m_minCodeSize == min
      invariant Read(t, FeedBlocks(min, d0, [], blocks[..i]), pixels)
    {
      assert blocks[..i + 1][..i] == blocks[..i];
      pixels := DecompressBlock(t, blocks[i], pixels, FeedBlocks(min, d0, [], blocks[..i]));
      i := i + 1;
    }
    assert blocks[..i] == blocks;
  }

  /** The object has decoded up to r, and the pixels are what that gave. */
  ghost predicate Read(t: StringTable, r: Decoded, pixels: Text)
    reads t, t.m_strings
    requires t.PartialOk()
  {
    pixels == r.text && t.Dec() == r.decoder && (!t.m_done ==> t.PartialBits() == r.rest)
  }

  method DecompressBlock(t: StringTable, block: Text, before: Text, ghost r: Decoded) returns (pixels: Text)
    requires t.CanDecompress() && Read(t, r, before)
    modifies t, t.m_strings
    ensures t.CanDecompress() && t.m_minCodeSize == old(t.m_minCodeSize)
    ensures var s := DecRun(t.m_minCodeSize, r.decoder, r.rest + BitsOfBytes(block));
      Read(t, Decoded(s.decoder, s.rest, r.text + s.text), pixels)
  {
    t.FillInputBuffer(block);
    var ok, text := t.Decompress();
    assert before + [] == before && r.rest + BitsOfBytes([]) == r.rest;
    pixels := before + text;
    while ok
      invariant t.CanDecompress() && t.m_minCodeSize == old(t.m_minCodeSize)
      invariant ok ==> t.m_done || t.m_bufferSize == 0
      invariant var s := DecRun(t.m_minCodeSize, r.decoder, r.rest + BitsOfBytes(block));
        Read(t, Decoded(s.decoder, s.rest, r.text + s.text), pixels)
      decreases ok
    {
      ok, text := t.Decompress();
      assert pixels + [] == pixels;
      pixels := pixels + text;
    }
  }

  /** Round trip: an image compressed by one object and decompressed by any other, with the
      data cut into blocks in any way, comes back as it was if and only if the compressing
      object was fresh and the image has a pixel.  Otherwise a pixel 0 appears in front. */
  lemma RoundTrip(min: nat, used: bool, pixels: Text, bytes: seq<byte>, pad: nat, blocks: seq<Text>, strings: seq<Text>)
    requires CodeSizeOk(min) && InRange(pixels, Pow2(min)) && |strings| == MAX_LZW_CODE
    requires BitsOfBytes(bytes) == CodeBits(ImageCodes(min, used, pixels)) + BitString(0, pad)
    requires Join(blocks) == bytes
    ensures DecOk(min, FreshDecoder(min, strings))
    ensures var text := FeedBlocks(min, FreshDecoder(min, strings), [], blocks).text;
      && text == ImageText(used, pixels)
      && (text == pixels <==> !used && pixels != [])
  {
    FreshDecoderOk(min, strings);
    var d := FreshDecoder(min, strings);
    FeedBlocksIsDecRun(min, d, [], blocks);
    assert [] + BitsOfBytes(bytes) == BitsOfBytes(bytes);
    ImageDecodes(min, used, d, pixels, pad);
    assert |[0] + pixels| != |pixels|;
  }
}
