/** How many bytes StringTable::CompressEnd writes (ddgif/src/string_table.cpp:74-101). */
module LzwFinalBytes {
  import opened Bits
  import opened LzwModel
  import opened LzwSession

  // ---------- The bits in the buffer ----------

  /** The codes that the last pixel made the encoder emit. */
  function LastCodes(min: nat, used: bool, pixels: Text): seq<Code> {
    if pixels == [] then [] else
      EncStep(min, EncRun(min, ClearedEncoder(min, used), pixels[..|pixels| - 1]).0, pixels[|pixels| - 1]).1
  }

  /** The last pixel filled the table: its code was followed by a clear code. */
  predicate RestartsLast(min: nat, used: bool, pixels: Text) { |LastCodes(min, used, pixels)| == 2 }

  /** No code has been emitted, so the buffer holds the first clear code. */
  predicate Unwritten(used: bool, pixels: Text) { |pixels| + (if used then 1 else 0) <= 1 }

  predicate AtStart(min: nat, e: Encoder) {
    e.strmap == EmptyMap() && e.codeSize == min + 1 && e.nextCode == FirstFree(min)
  }

  /** The encoder and the number of buffered bits: the clear code alone, what is left of a byte and a
      clear code of 12 bits right after a restart, or less than a byte. */
  ghost predicate Buffered(min: nat, e: Encoder, size: nat, last: seq<Code>, unwritten: bool) {
    && EncOk(min, e)
    && if unwritten then AtStart(min, e) && size == min + 1 && |last| == 0
       else if |last| == 2 then AtStart(min, e) && e.started && 12 <= size < 20
       else |last| <= 1 && e.started && size < 8
  }

  /** A restart happens at twelve bits. */
  lemma EmittedSize(min: nat, e: Encoder, size: nat)
    requires CodeSizeOk(min) && EncOk(min, e)
    ensures var codes := EmittedCodes(min, e);
      && 1 <= |codes| <= 2 && (|codes| == 2 <==> e.nextCode + 1 == MAX_LZW_CODE)
      && (|codes| == 1 ==> SizeStep(size, codes) < 8) && (|codes| == 2 ==> 12 <= SizeStep(size, codes) < 20)
  {
    assert Pow2(12) == 4096 && Pow2(11) == 2048;
    if e.codeSize < 12 {
      Pow2Monotone(e.codeSize, 11);
    }
  }

  lemma BufferedNext(min: nat, e: Encoder, size: nat, last: seq<Code>, unwritten: bool, px: byte)
    requires CodeSizeOk(min) && px < ClearCode(min) && Buffered(min, e, size, last, unwritten)
    ensures var (next, codes) := EncStep(min, e, px);
      Buffered(min, next, SizeStep(size, codes), codes, unwritten && !e.started)
  {
    EncStepOk(min, e, px);
    EmittedSize(min, e, size);
    if e.started && e.strmap[Key(e.prefix, px)] <= 0 {
      EncStepEmits(min, e, px);
    }
  }

  lemma {:induction false} ImageBuffered(min: nat, used: bool, pixels: Text)
    requires CodeSizeOk(min) && InRange(pixels, ClearCode(min))
    ensures var e := EncRun(min, ClearedEncoder(min, used), pixels).0;
      && Buffered(min, e, ImageSize(min, used, pixels), LastCodes(min, used, pixels), Unwritten(used, pixels))
      && (e.started <==> used || pixels != [])
  {
    FirstFreeFits(min);
    if pixels != [] {
      var before, px := pixels[..|pixels| - 1], pixels[|pixels| - 1];
      ImageBuffered(min, used, before);
      BufferedNext(min, EncRun(min, ClearedEncoder(min, used), before).0, ImageSize(min, used, before),
        LastCodes(min, used, before), Unwritten(used, before), px);
    }
  }

  /** The comment counts less than a byte in the buffer and two codes: at most four bytes. Right after
      a restart the clear code is in the buffer as well, and at the beginning nothing but the clear code:
      five bytes come of a restart with r bits left over if and only if r + 2 * min > 18, and of an image
      without a code from min = 10 on, which no GIF has. */
  lemma TailIff(min: nat, used: bool, pixels: Text)
    requires CodeSizeOk(min) && InRange(pixels, ClearCode(min))
    ensures RestartsLast(min, used, pixels) ==> 12 <= ImageSize(min, used, pixels) < 20
    ensures TailLength(min, used, pixels) > 4
      <==> (RestartsLast(min, used, pixels) && ImageSize(min, used, pixels) - 12 + 2 * min > 18)
           || (Unwritten(used, pixels) && min >= 10)
    ensures min <= 8 ==> (TailLength(min, used, pixels) > 4
      <==> RestartsLast(min, used, pixels) && ImageSize(min, used, pixels) - 12 + 2 * min > 18)
  {
    ImageBuffered(min, used, pixels);
  }

  // ---------- An image that ends at a restart ----------

  const PAIRS: nat := 3838

  /** Pixels from below 8 and from 16 up in turn, such that no two neighbouring pairs are equal. */
  function Pixel(n: nat): (px: byte)
    ensures n < PAIRS + 2 ==> if n % 2 == 0 then px < 8 else 16 <= px
  {
    if n % 2 == 0 then n / 2 / 240 % 256 else 16 + n / 2 % 240
  }

  function Image(n: nat): (s: Text)
    ensures |s| == n
  {
    seq(n, i requires 0 <= i < n => Pixel(i))
  }

  /** The place of a pair in the image. */
  function Index(x: int, y: int): int {
    if x < 16 then 2 * (240 * x + (y - 16)) else 2 * (240 * (if x == 255 then y - 1 else y) + (x - 16)) + 1
  }

  lemma IndexOfPair(n: nat)
    requires n < PAIRS
    ensures Index(Pixel(n), Pixel(n + 1)) == n
  {
    var m := n / 2;
    DivModBounds(m, 240);
    if n % 2 == 0 {
      DivModUnique(n + 1, 2, m, 1);
    } else {
      DivModUnique(n + 1, 2, m + 1, 0);
      IndexAfterOdd(m, m / 240, m % 240);
    }
  }

  lemma IndexAfterOdd(m: nat, q: nat, r: nat)
    requires m == 240 * q + r && r < 240
    ensures (m + 1) / 240 == if r == 239 then q + 1 else q
  {
    if r == 239 {
      DivModUnique(m + 1, 240, q + 1, 0);
    } else {
      DivModUnique(m + 1, 240, q, r + 1);
    }
  }

  function PairKey(n: nat): nat { Key(Pixel(n), Pixel(n + 1)) }

  lemma PairKeysDiffer(i: nat, j: nat)
    requires i < j < PAIRS
    ensures PairKey(i) != PairKey(j) && PairKey(i) < MAP_SIZE
  {
    IndexOfPair(i);
    IndexOfPair(j);
    PairOfKey(i);
    PairOfKey(j);
  }

  lemma PairOfKey(i: nat)
    ensures PairKey(i) / 256 == Pixel(i) && PairKey(i) % 256 == Pixel(i + 1) && PairKey(i) < MAP_SIZE
  {
    DivModUnique(PairKey(i), 256, Pixel(i), Pixel(i + 1));
  }

  /** The width of the codes at a next code. */
  function Width(nextCode: nat): nat {
    if nextCode <= 512 then 9 else if nextCode <= 1024 then 10 else if nextCode <= 2048 then 11 else 12
  }

  /** The bits of the clear code and of n codes after it. */
  function BitCount(n: nat): nat {
    if n <= 255 then 9 + 9 * n
    else if n <= 767 then 2304 + 10 * (n - 255)
    else if n <= 1791 then 7424 + 11 * (n - 767)
    else 18688 + 12 * (n - 1791)
  }

  /** After n pixels every pair so far is an entry, and no pair to come is. */
  ghost predicate Follows(e: Encoder, n: nat) {
    && 0 < n <= PAIRS && |e.strmap| == MAP_SIZE
    && e.started && e.prefix == Pixel(n - 1) && e.nextCode == 257 + n && e.codeSize == Width(257 + n)
    && forall i :: n - 1 <= i < PAIRS ==> e.strmap[PairKey(i)] <= 0
  }

  lemma Widths()
    ensures Pow2(9) == 512 && Pow2(10) == 1024 && Pow2(11) == 2048 && Pow2(12) == 4096 && Pow2(8) == 256
  {
  }

  lemma FollowsStep(e: Encoder, n: nat)
    requires Follows(e, n)
    ensures EncStep(8, e, Pixel(n)).1 == EmittedCodes(8, e)
    ensures n < PAIRS ==> Follows(EncStep(8, e, Pixel(n)).0, n + 1) && |EmittedCodes(8, e)| == 1
    ensures n == PAIRS ==> EncStep(8, e, Pixel(n)).0.codeSize == 9
    ensures n == PAIRS ==> |EmittedCodes(8, e)| == 2 && EmittedCodes(8, e)[1].width == 12
    ensures EmittedCodes(8, e)[0].width == Width(257 + n)
  {
    Widths();
    assert e.strmap[PairKey(n - 1)] <= 0;
    EncStepEmits(8, e, Pixel(n));
    if n < PAIRS {
      var next := EncStep(8, e, Pixel(n)).0;
      forall i | n <= i < PAIRS ensures next.strmap[PairKey(i)] <= 0 {
        PairKeysDiffer(n - 1, i);
      }
    }
  }

  lemma FollowsSize(e: Encoder, n: nat, size: nat)
    requires Follows(e, n)
    ensures SizeStep(size, EncStep(8, e, Pixel(n)).1) == (size + Width(257 + n)) % 8 + if n == PAIRS then 12 else 0
  {
    FollowsStep(e, n);
  }

  function EncoderAfter(n: nat): Encoder { EncRun(8, ClearedEncoder(8, false), Image(n)).0 }

  /** One pixel more of the image. */
  lemma NextPixel(n: nat)
    ensures |EncoderAfter(n).strmap| == MAP_SIZE && EncoderAfter(n + 1) == EncStep(8, EncoderAfter(n), Pixel(n)).0
    ensures ImageSize(8, false, Image(n + 1))
         == SizeStep(ImageSize(8, false, Image(n)), EncStep(8, EncoderAfter(n), Pixel(n)).1)
  {
    var e0 := ClearedEncoder(8, false);
    assert Image(n + 1) == Image(n) + [Pixel(n)];
    EncRunSnoc(8, e0, Image(n), Pixel(n));
    SizeRunSnoc(8, e0, 9, Image(n), Pixel(n));
  }

  lemma {:induction false} ImageState(n: nat)
    requires 0 < n <= PAIRS
    ensures Follows(EncoderAfter(n), n)
  {
    NextPixel(n - 1);
    if n == 1 {
      assert Image(0) == [];
      FirstPixel();
    } else {
      ImageState(n - 1);
      FollowsStep(EncoderAfter(n - 1), n - 1);
    }
  }

  /** The bits in the buffer along the image. */
  lemma {:induction false} ImageBits(n: nat)
    requires 0 < n <= PAIRS
    ensures ImageSize(8, false, Image(n)) == if n == 1 then 9 else BitCount(n - 1) % 8
  {
    if n == 1 {
      FirstBits();
    } else {
      ImageBits(n - 1);
      NextBits(n - 1);
      BitsNext(n - 1, ImageSize(8, false, Image(n - 1)));
    }
  }

  lemma FirstBits()
    ensures ImageSize(8, false, Image(1)) == 9
  {
    NextPixel(0);
    assert Image(0) == [];
    FirstPixel();
  }

  lemma NextBits(n: nat)
    requires 0 < n <= PAIRS
    ensures ImageSize(8, false, Image(n + 1))
         == (ImageSize(8, false, Image(n)) + Width(257 + n)) % 8 + if n == PAIRS then 12 else 0
  {
    ImageState(n);
    NextPixel(n);
    FollowsSize(EncoderAfter(n), n, ImageSize(8, false, Image(n)));
  }

  lemma BitsNext(n: nat, size: nat)
    requires 0 < n < PAIRS && size == if n == 1 then 9 else BitCount(n - 1) % 8
    ensures (size + Width(257 + n)) % 8 == BitCount(n) % 8
  {
    BitCountStep(n);
  }

  lemma FirstPixel()
    ensures var r := EncStep(8, ClearedEncoder(8, false), Pixel(0)); r.1 == [] && Follows(r.0, 1)
  {
    Widths();
    var e := EncStep(8, ClearedEncoder(8, false), Pixel(0)).0;
    forall i | 0 <= i < PAIRS ensures e.strmap[PairKey(i)] <= 0 {
      PairOfKey(i);
    }
  }

  lemma BitCountStep(n: nat)
    requires 0 < n <= PAIRS
    ensures BitCount(n) == BitCount(n - 1) + Width(257 + n)
    ensures (BitCount(n - 1) % 8 + Width(257 + n)) % 8 == BitCount(n) % 8
  {
    AddModulo(BitCount(n - 1), Width(257 + n));
  }

  lemma AddModulo(a: nat, b: nat)
    ensures (a % 8 + b) % 8 == (a + b) % 8
  {
    var c := a % 8 + b;
    DivModUnique(a + b, 8, a / 8 + c / 8, c % 8);
  }

  /** After 3839 pixels the table restarts, and five bytes are left for the last call. */
  lemma FiveBytes()
    ensures TailLength(8, false, Image(PAIRS + 1)) == 5
  {
    LastBits();
    LastWidth();
  }

  lemma LastBits()
    ensures ImageSize(8, false, Image(PAIRS + 1)) == 16
  {
    var n := PAIRS;
    ImageBits(n);
    NextBits(n);
    BitCountStep(n);
    assert BitCount(n) % 8 == 4;
  }

  lemma LastWidth()
    ensures EncoderAfter(PAIRS + 1).codeSize == 9
  {
    NextPixel(PAIRS);
    ImageState(PAIRS);
    FollowsStep(EncoderAfter(PAIRS), PAIRS);
  }
}
