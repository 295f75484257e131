/** ddgif/src/string_table.cpp: the LZW compressor and decompressor, 8 bits per pixel,
    with output buffers that never fill up. */
module LzwCodec {
  import opened Bits
  import opened Collections
  import opened LzwModel
  import opened LzwRoundTrip

  class StringTable {
    var m_done: bool
    var m_minCodeSize: nat
    var m_clearCode: nat
    var m_endCode: nat
    var m_nextCode: nat
    var m_prefix: nat
    var m_codeSize: nat
    var m_codeMask: nat
    var m_oldCode: nat
    var m_partial: nat
    var m_partialSize: int
    var firstPixelPassed: bool
    const m_strings: array<Text>
    const m_strmap: array<int>
    var m_buffer: seq<byte>
    var m_bufferSize: nat
    var m_bufferPos: nat

    ghost predicate Valid()
      reads this
    {
      && m_strings.Length == MAX_LZW_CODE && m_strmap.Length == MAP_SIZE
      && CodeSizeOk(m_minCodeSize)
      && m_clearCode == ClearCode(m_minCodeSize) && m_endCode == EndCode(m_minCodeSize)
      && m_bufferSize <= |m_buffer|
      && (m_bufferSize > 0 ==> m_bufferPos <= m_bufferSize)
    }

    ghost function Enc(): Encoder
      reads this, m_strmap
    {
      Encoder(firstPixelPassed, m_prefix, m_nextCode, m_codeSize, m_strmap[..])
    }

    ghost function Dec(): Decoder
      reads this, m_strings
    {
      Decoder(m_done, m_nextCode, m_codeSize, m_oldCode, m_strings[..])
    }

    /** The bit buffer holds m_partialSize bits and nothing above them. */
    ghost predicate PartialOk()
      reads this
    {
      0 <= m_partialSize && m_partial < Pow2(m_partialSize)
    }

    ghost function PartialBits(): seq<bool>
      reads this
      requires m_partialSize >= 0
    {
      BitString(m_partial, m_partialSize)
    }

    /** Input that FillInputBuffer supplied and no call has consumed. */
    ghost function Unread(): seq<byte>
      reads this
      requires Valid()
    {
      if m_bufferSize == 0 then [] else m_buffer[m_bufferPos..m_bufferSize]
    }

    ghost predicate CanCompress()
      reads this, m_strmap
    {
      Valid() && PartialOk() && m_partialSize <= 19 && EncOk(m_minCodeSize, Enc())
    }

    ghost predicate CanDecompress()
      reads this, m_strings
    {
      && Valid() && PartialOk() && DecOk(m_minCodeSize, Dec())
      && (!m_done ==> m_partialSize < m_codeSize)
      && m_codeMask == Pow2(m_codeSize) - 1
    }

    constructor ()
      ensures fresh(m_strings) && fresh(m_strmap)
      ensures m_strings.Length == MAX_LZW_CODE && m_strmap.Length == MAP_SIZE
      ensures !firstPixelPassed
    {
      m_strings := new Text[MAX_LZW_CODE](_ => []);
      m_strmap := new int[MAP_SIZE];
      m_buffer := [];
      firstPixelPassed := false;
    }

    method Initialize(minCodeSize: nat)
      requires m_strings.Length == MAX_LZW_CODE && m_strmap.Length == MAP_SIZE
      requires CodeSizeOk(minCodeSize)
      modifies this, m_strings, m_strmap
      ensures Valid() && m_minCodeSize == minCodeSize && m_bufferSize == 0
      ensures CanCompress() && CanDecompress() && m_partialSize == 0
      ensures firstPixelPassed == old(firstPixelPassed)
      ensures Enc() == ClearedEncoder(minCodeSize, firstPixelPassed)
      ensures Dec() == Decoder(false, FirstFree(minCodeSize), minCodeSize + 1, MAX_LZW_CODE,
                               Literals(minCodeSize, old(m_strings[..])))
    {
      FirstFreeFits(minCodeSize);
      m_done := false;
      m_minCodeSize := minCodeSize;
      m_clearCode := Min(Pow2(m_minCodeSize), MAX_LZW_CODE);
      m_endCode := m_clearCode + 1;
      m_partial := 0;
      m_partialSize := 0;
      m_bufferSize := 0;
      ClearCompressorTable();
      ClearDecompressorTable();
    }

    /** The caller copies its data into the returned buffer; here it passes the data. */
    method FillInputBuffer(data: seq<byte>)
      requires Valid()
      modifies this`m_buffer, this`m_bufferSize, this`m_bufferPos
      ensures Valid() && Unread() == data
      ensures m_bufferSize == |data|
    {
      m_buffer := data;
      m_bufferSize := |data|;
      m_bufferPos := 0;
    }

    method ClearCompressorTable()
      requires Valid()
      modifies this`m_nextCode, this`m_prefix, this`m_codeSize, m_strmap
      ensures Valid() && Enc() == ClearedEncoder(m_minCodeSize, firstPixelPassed)
    {
      forall i | 0 <= i < m_strmap.Length {
        m_strmap[i] := -1;
      }
      m_nextCode := m_endCode + 1;
      m_prefix := 0;
      m_codeSize := m_minCodeSize + 1;
      assert m_strmap[..] == EmptyMap();
    }

    method ClearDecompressorTable()
      requires Valid()
      modifies this`m_nextCode, this`m_codeSize, this`m_codeMask, this`m_oldCode, m_strings
      ensures Valid() && m_codeMask == Pow2(m_codeSize) - 1
      ensures Dec() == ClearedDecoder(m_minCodeSize, old(Dec()))
    {
      FirstFreeFits(m_minCodeSize);
      ghost var was := m_strings[..];
      var i := 0;
      while i < m_clearCode
        invariant 0 <= i <= m_clearCode
        invariant forall j :: 0 <= j < MAX_LZW_CODE ==> m_strings[j] == if j < i then [j % 256] else was[j]
      {
        m_strings[i] := [i % 256];
        i := i + 1;
      }
      m_nextCode := m_endCode + 1;
      m_codeSize := m_minCodeSize + 1;
      m_codeMask := Pow2(m_codeSize) - 1;
      m_oldCode := MAX_LZW_CODE;
      assert m_strings[..] == Literals(m_minCodeSize, was);
    }

    /** m_partial |= code << m_partialSize; m_partialSize += m_codeSize; within 31 bits. */
    method PutCode(code: nat)
      requires PartialOk() && code < Pow2(m_codeSize) && m_partialSize + m_codeSize <= 31
      modifies this`m_partial, this`m_partialSize
      ensures PartialOk() && m_partialSize == old(m_partialSize) + m_codeSize
      ensures PartialBits() == old(PartialBits()) + BitString(code, m_codeSize)
      ensures m_partial < 0x8000_0000
    {
      OrBits(m_partial, code, m_partialSize, m_codeSize);
      m_partial := Or(m_partial, Shl(code, m_partialSize));
      m_partialSize := m_partialSize + m_codeSize;
      IntBits(m_partial, m_partialSize);
    }

    /** Move the full bytes of the bit buffer to the output. */
    method TakeBytes() returns (out: seq<byte>)
      requires PartialOk()
      modifies this`m_partial, this`m_partialSize
      ensures PartialOk() && m_partialSize == old(m_partialSize) % 8
      ensures BitsOfBytes(out) + PartialBits() == old(PartialBits())
    {
      out := [];
      NoCodes(PartialBits());
      ghost var bits := PartialBits();
      while m_partialSize >= 8
        invariant PartialOk() && old(m_partialSize) == 8 * |out| + m_partialSize
        invariant BitsOfBytes(out) + PartialBits() == bits
      {
        NextByte(bits, out, m_partial, m_partialSize);
        out := out + [m_partial % 256];
        m_partial := m_partial / 256;
        m_partialSize := m_partialSize - 8;
      }
      DivModUnique(old(m_partialSize), 8, |out|, m_partialSize);
    }

    method CompressStart()
      requires Valid() && PartialOk() && m_partialSize == 0 && m_codeSize == m_minCodeSize + 1
      modifies this`m_partial, this`m_partialSize, this`m_nextCode, this`m_prefix, this`m_codeSize, m_strmap
      ensures CanCompress() && Enc() == ClearedEncoder(m_minCodeSize, firstPixelPassed)
      ensures PartialBits() == CodeBits([Code(ClearCode(m_minCodeSize), m_minCodeSize + 1)])
      ensures m_partialSize == m_minCodeSize + 1
    {
      FirstFreeFits(m_minCodeSize);
      CodeBitsOne(Code(ClearCode(m_minCodeSize), m_minCodeSize + 1));
      PutCode(m_clearCode);
      ClearCompressorTable();
    }

    /** Compress the unread input.  The output together with the bits still buffered is the
        old bits followed by the codes of the pixels. */
    method Compress() returns (ok: bool, out: seq<byte>)
      requires CanCompress()
      requires forall i :: m_bufferPos <= i < m_bufferSize ==> m_buffer[i] < m_clearCode
      modifies this`m_partial, this`m_partialSize, this`m_prefix, this`m_nextCode, this`m_codeSize,
               this`firstPixelPassed, this`m_bufferPos, this`m_bufferSize, m_strmap
      ensures CanCompress() && m_minCodeSize == old(m_minCodeSize) && m_done == old(m_done)
      ensures ok == (old(m_bufferSize) != 0 && !old(m_done))
      ensures !ok ==>
        out == [] && Enc() == old(Enc()) && PartialBits() == old(PartialBits()) && m_partialSize == old(m_partialSize)
      ensures ok ==>
        var (e, codes) := EncRun(m_minCodeSize, old(Enc()), old(Unread()));
        && Enc() == e && m_bufferSize == 0
        && m_partialSize == SizeRun(m_minCodeSize, old(Enc()), old(m_partialSize), old(Unread()))
        && BitsOfBytes(out) + PartialBits() == old(PartialBits()) + CodeBits(codes)
    {
      out := [];
      if m_bufferSize == 0 || m_done {
        return false, out;
      }
      ghost var r := EncRun(m_minCodeSize, Enc(), Unread());
      ghost var size := SizeRun(m_minCodeSize, Enc(), m_partialSize, Unread());
      out := CompressInput();
      assert Enc() == r.0 && m_partialSize == size;
      m_bufferSize := 0;
      ok := true;
    }

    /** The pixel loop of Compress. */
    method CompressInput() returns (out: seq<byte>)
      requires CanCompress() && m_bufferSize > 0
      requires forall i :: m_bufferPos <= i < m_bufferSize ==> m_buffer[i] < m_clearCode
      modifies this`m_partial, this`m_partialSize, this`m_prefix, this`m_nextCode, this`m_codeSize,
               this`firstPixelPassed, this`m_bufferPos, m_strmap
      ensures CanCompress()
      ensures var (e, codes) := EncRun(m_minCodeSize, old(Enc()), old(Unread()));
        Enc() == e && BitsOfBytes(out) + PartialBits() == old(PartialBits()) + CodeBits(codes)
      ensures m_partialSize == SizeRun(m_minCodeSize, old(Enc()), old(m_partialSize), old(Unread()))
    {
      out := [];
      ghost var e0, bits, size, start := Enc(), PartialBits(), m_partialSize, m_bufferPos;
      NoCodes(bits);
      while m_bufferPos < m_bufferSize
        invariant CanCompress() && start <= m_bufferPos <= m_bufferSize
        invariant Compressed(e0, bits, start, out) && Sized(e0, size, start)
      {
        out := CompressSized(e0, bits, size, start, out);
      }
    }

    /** From encoder state e0 and buffered bits, the pixels read since position start led to
        this object's state and the given output. */
    ghost predicate Compressed(e0: Encoder, bits: seq<bool>, start: nat, out: seq<byte>)
      reads this, m_strmap
      requires Valid() && PartialOk() && |e0.strmap| == MAP_SIZE
      requires start <= m_bufferPos <= |m_buffer|
    {
      var r := EncRun(m_minCodeSize, e0, m_buffer[start..m_bufferPos]);
      Enc() == r.0 && BitsOfBytes(out) + PartialBits() == bits + CodeBits(r.1)
    }

    /** The number of buffered bits after the pixels read since position start. */
    ghost predicate Sized(e0: Encoder, size: nat, start: nat)
      reads this
      requires |e0.strmap| == MAP_SIZE && start <= m_bufferPos <= |m_buffer|
    {
      m_partialSize == SizeRun(m_minCodeSize, e0, size, m_buffer[start..m_bufferPos])
    }

    method CompressSized(ghost e0: Encoder, ghost bits: seq<bool>, ghost size: nat, ghost start: nat, before: seq<byte>)
        returns (out: seq<byte>)
      requires CanCompress() && |e0.strmap| == MAP_SIZE && start <= m_bufferPos < m_bufferSize
      requires m_buffer[m_bufferPos] < m_clearCode && Compressed(e0, bits, start, before) && Sized(e0, size, start)
      modifies this`m_partial, this`m_partialSize, this`m_prefix, this`m_nextCode, this`m_codeSize,
               this`firstPixelPassed, this`m_bufferPos, m_strmap
      ensures CanCompress() && m_bufferPos == old(m_bufferPos) + 1
      ensures Compressed(e0, bits, start, out) && Sized(e0, size, start)
    {
      ghost var pos, was := m_bufferPos, m_partialSize;
      ghost var r := EncRun(m_minCodeSize, e0, m_buffer[start..pos]);
      ghost var step := EncStep(m_minCodeSize, r.0, m_buffer[pos]);
      out := CompressNext(bits, before, r.1, step);
      CompressedNow(e0, bits, start, pos, out, r, step);
      SizedNext(e0, size, start, pos, r.0, was, step.1);
    }

    lemma CompressedNow(e0: Encoder, bits: seq<bool>, start: nat, pos: nat, out: seq<byte>, r: (Encoder, seq<Code>),
                        step: (Encoder, seq<Code>))
      requires Valid() && PartialOk() && |e0.strmap| == MAP_SIZE && start <= pos < m_bufferPos <= |m_buffer|
      requires m_bufferPos == pos + 1 && r == EncRun(m_minCodeSize, e0, m_buffer[start..pos])
      requires step == EncStep(m_minCodeSize, r.0, m_buffer[pos]) && Enc() == step.0
      requires BitsOfBytes(out) + PartialBits() == bits + CodeBits(r.1 + step.1)
      ensures Compressed(e0, bits, start, out)
    {
      NextRun(m_minCodeSize, e0, m_buffer, start, pos, r.0, r.1);
    }

    lemma SizedNext(e0: Encoder, size: nat, start: nat, pos: nat, e: Encoder, was: nat, codes: seq<Code>)
      requires |e0.strmap| == MAP_SIZE && start <= pos < m_bufferPos <= |m_buffer| && m_bufferPos == pos + 1
      requires e == EncRun(m_minCodeSize, e0, m_buffer[start..pos]).0
      requires codes == EncStep(m_minCodeSize, e, m_buffer[pos]).1
      requires was == SizeRun(m_minCodeSize, e0, size, m_buffer[start..pos]) && m_partialSize == SizeStep(was, codes)
      ensures Sized(e0, size, start)
    {
      NextSize(m_minCodeSize, e0, size, m_buffer, start, pos, e, SizeStep(was, codes));
    }

    /** The pixel loop's step, behind the bits of the codes written before. */
    method CompressNext(ghost bits: seq<bool>, before: seq<byte>, ghost codes: seq<Code>,
                        ghost step: (Encoder, seq<Code>))
        returns (out: seq<byte>)
      requires CanCompress() && m_bufferPos < m_bufferSize && m_buffer[m_bufferPos] < m_clearCode
      requires BitsOfBytes(before) + PartialBits() == bits + CodeBits(codes)
      requires step == EncStep(m_minCodeSize, Enc(), m_buffer[m_bufferPos])
      modifies this`m_partial, this`m_partialSize, this`m_prefix, this`m_nextCode, this`m_codeSize,
               this`firstPixelPassed, this`m_bufferPos, m_strmap
      ensures CanCompress() && m_bufferPos == old(m_bufferPos) + 1 && Enc() == step.0
      ensures BitsOfBytes(out) + PartialBits() == bits + CodeBits(codes + step.1)
      ensures m_partialSize == SizeStep(old(m_partialSize), step.1)
    {
      var ch := m_buffer[m_bufferPos];
      ghost var mid := PartialBits();
      m_bufferPos := m_bufferPos + 1;
      var bytes := CompressPixel(ch, step);
      BitsAppend(bits, before, mid, bytes, PartialBits(), codes, step.1);
      out := before + bytes;
    }

    /** The body of the pixel loop of Compress. */
    method CompressPixel(ch: byte, ghost step: (Encoder, seq<Code>)) returns (out: seq<byte>)
      requires CanCompress() && ch < m_clearCode && step == EncStep(m_minCodeSize, Enc(), ch)
      modifies this`m_partial, this`m_partialSize, this`m_prefix, this`m_nextCode, this`m_codeSize,
               this`firstPixelPassed, m_strmap
      ensures CanCompress()
      ensures Enc() == step.0 && m_partialSize == SizeStep(old(m_partialSize), step.1)
      ensures BitsOfBytes(out) + PartialBits() == old(PartialBits()) + CodeBits(step.1)
    {
      out := [];
      NoCodes(PartialBits());
      EncStepOk(m_minCodeSize, Enc(), ch);
      KeyBits(m_prefix, ch);
      var nextprefix := And(Shl(m_prefix, 8), 0xFFF00) + ch;
      if firstPixelPassed {
        if m_strmap[nextprefix] > 0 {
          m_prefix := m_strmap[nextprefix];
        } else {
          out := EmitString(nextprefix, ch, step);
        }
      } else {
        firstPixelPassed := true;
        m_prefix := ch;
      }
    }

    /** EmitPrefix as a step of the encoder. */
    method EmitString(nextprefix: nat, ch: byte, ghost step: (Encoder, seq<Code>)) returns (out: seq<byte>)
      requires CanCompress() && ch < m_clearCode && firstPixelPassed && step == EncStep(m_minCodeSize, Enc(), ch)
      requires nextprefix == Key(m_prefix, ch) && m_strmap[nextprefix] <= 0
      modifies this`m_partial, this`m_partialSize, this`m_prefix, this`m_nextCode, this`m_codeSize, m_strmap
      ensures Valid() && PartialOk() && m_partialSize <= 19
      ensures Enc() == step.0 && m_partialSize == SizeStep(old(m_partialSize), step.1)
      ensures BitsOfBytes(out) + PartialBits() == old(PartialBits()) + CodeBits(step.1)
    {
      EncStepEmits(m_minCodeSize, Enc(), ch);
      EmitSizeStep(m_minCodeSize, Enc(), ch, m_partialSize);
      out := EmitPrefix(nextprefix, ch);
    }

    /** Output the code of the current string and enter its extension into the table. */
    method EmitPrefix(nextprefix: nat, ch: byte) returns (out: seq<byte>)
      requires CanCompress() && ch < m_clearCode && firstPixelPassed
      requires nextprefix == Key(m_prefix, ch) && m_strmap[nextprefix] <= 0
      modifies this`m_partial, this`m_partialSize, this`m_prefix, this`m_nextCode, this`m_codeSize, m_strmap
      ensures Valid() && PartialOk() && m_partialSize <= 19
      ensures Enc() == EncStep(m_minCodeSize, old(Enc()), ch).0
      ensures BitsOfBytes(out) + PartialBits()
           == old(PartialBits()) + CodeBits(EmittedCodes(m_minCodeSize, old(Enc())))
      ensures m_partialSize == EmitSize(old(m_partialSize), old(m_codeSize), old(m_nextCode))
    {
      ghost var c, bits := Code(m_prefix, m_codeSize), PartialBits();
      out := EmitEntry(nextprefix);
      if m_nextCode == MAX_LZW_CODE {
        Restart(bits, out, c);
      }
      m_prefix := ch;
    }

    method EmitEntry(nextprefix: nat) returns (out: seq<byte>)
      requires CanCompress() && nextprefix < MAP_SIZE
      modifies this`m_partial, this`m_partialSize, this`m_nextCode, this`m_codeSize, m_strmap
      ensures Valid() && PartialOk() && m_partialSize == (old(m_partialSize) + old(m_codeSize)) % 8
      ensures Enc() == Entered(old(Enc()), nextprefix)
      ensures m_codeSize <= 12 && m_clearCode < Pow2(m_codeSize)
      ensures BitsOfBytes(out) + PartialBits() == old(PartialBits()) + CodeBits([Code(m_prefix, old(m_codeSize))])
    {
      GrowthBound(m_minCodeSize, Enc());
      out := EmitCode();
      AddEntry(nextprefix);
    }

    /** The current string's code goes into the buffer, and whole bytes go to the output. */
    method EmitCode() returns (out: seq<byte>)
      requires PartialOk() && m_prefix < Pow2(m_codeSize) && m_partialSize + m_codeSize <= 31
      modifies this`m_partial, this`m_partialSize
      ensures PartialOk() && m_partialSize == (old(m_partialSize) + m_codeSize) % 8
      ensures BitsOfBytes(out) + PartialBits() == old(PartialBits()) + CodeBits([Code(m_prefix, m_codeSize)])
    {
      PutCode(m_prefix);
      CodeBitsOne(Code(m_prefix, m_codeSize));
      out := TakeBytes();
    }

    /** The clear code stays in the buffer. */
    method Restart(ghost bits: seq<bool>, ghost out: seq<byte>, ghost c: Code)
      requires Valid() && PartialOk() && m_partialSize < 8 && m_codeSize <= 12 && m_clearCode < Pow2(m_codeSize)
      requires BitsOfBytes(out) + PartialBits() == bits + CodeBits([c])
      modifies this`m_partial, this`m_partialSize, this`m_prefix, this`m_nextCode, this`m_codeSize, m_strmap
      ensures Valid() && Enc() == ClearedEncoder(m_minCodeSize, firstPixelPassed)
      ensures PartialOk() && m_partialSize == old(m_partialSize) + old(m_codeSize)
      ensures BitsOfBytes(out) + PartialBits() == bits + CodeBits([c, Code(m_clearCode, old(m_codeSize))])
    {
      ghost var mid := PartialBits();
      PutCode(m_clearCode);
      SecondCode(bits, out, mid, c, Code(m_clearCode, m_codeSize), PartialBits());
      ClearCompressorTable();
    }

    /** Enter the next code into the table, growing the code size when it is used up. */
    method AddEntry(nextprefix: nat)
      requires nextprefix < m_strmap.Length
      modifies this`m_nextCode, this`m_codeSize, m_strmap
      ensures m_strmap[..] == old(m_strmap[..])[nextprefix := old(m_nextCode)]
      ensures m_nextCode == old(m_nextCode) + 1
      ensures m_codeSize == old(m_codeSize) + (if old(m_nextCode) == Pow2(old(m_codeSize)) then 1 else 0)
    {
      m_strmap[nextprefix] := m_nextCode;
      if m_nextCode == Pow2(m_codeSize) {
        m_codeSize := m_codeSize + 1;
      }
      m_nextCode := m_nextCode + 1;
    }

    /** The last string and the end code, padded with zero bits to a whole byte. */
    method CompressEnd() returns (out: seq<byte>, ghost pad: nat)
      requires CanCompress()
      modifies this`m_partial, this`m_partialSize
      ensures pad < 8
      ensures BitsOfBytes(out)
        == old(PartialBits()) + CodeBits(FinalCodes(m_minCodeSize, old(Enc()))) + BitString(0, pad)
      ensures |out| == (old(m_partialSize) + 2 * m_codeSize + 7) / 8
    {
      GrowthBound(m_minCodeSize, Enc());
      ghost var c, bits := Code(m_prefix, m_codeSize), PartialBits();
      PutCode(m_prefix);
      CodeBitsOne(c);
      out := TakeBytes();
      ghost var mid := PartialBits();
      PutCode(m_endCode);
      ghost var end := Code(m_endCode, m_codeSize);
      SecondCode(bits, out, mid, c, end, PartialBits());
      TwoCodesLength(c, end);
      ghost var last := PartialBits();
      var bytes, zeros := PadOut();
      pad := zeros;
      PaddedEnd(bits + CodeBits([c, end]), out, last, bytes, pad);
      out := out + bytes;
    }

    /** Output all remaining bits; the size may end up negative. */
    method PadOut() returns (out: seq<byte>, ghost pad: nat)
      requires PartialOk()
      modifies this`m_partial, this`m_partialSize
      ensures pad < 8
      ensures BitsOfBytes(out) == old(PartialBits()) + BitString(0, pad)
    {
      ghost var bits := PartialBits();
      out, pad := [], 0;
      NoCodes(bits);
      while m_partialSize > 0
        invariant 0 <= pad < 8
        invariant if m_partialSize >= 0 then pad == 0 && PartialOk() else pad == -m_partialSize
        invariant if m_partialSize >= 0
          then BitsOfBytes(out) + PartialBits() == bits
          else BitsOfBytes(out) == bits + BitString(0, pad)
      {
        if m_partialSize >= 8 {
          NextByte(bits, out, m_partial, m_partialSize);
        } else {
          LastByte(bits, out, m_partial, m_partialSize);
          pad := 8 - m_partialSize;
        }
        out := out + [m_partial % 256];
        m_partial := m_partial / 256;
        m_partialSize := m_partialSize - 8;
      }
      assert pad == 0 ==> BitString(0, pad) == [];
    }

    /** Decompress the unread input.  The output and the new state are those of decoding the
        buffered bits followed by the bits of the input. */
    method Decompress() returns (ok: bool, out: seq<byte>)
      requires CanDecompress()
      modifies this`m_done, this`m_partial, this`m_partialSize, this`m_nextCode, this`m_codeSize,
               this`m_codeMask, this`m_oldCode, this`m_bufferPos, this`m_bufferSize, m_strings
      ensures CanDecompress()
      ensures ok == (old(m_bufferSize) != 0 && !old(m_done))
      ensures !ok ==> out == [] && Dec() == old(Dec()) && PartialBits() == old(PartialBits())
      ensures ok ==>
        var r := DecRun(m_minCodeSize, old(Dec()), old(PartialBits()) + BitsOfBytes(old(Unread())));
        && out == r.text && Dec() == r.decoder
        && (!m_done ==> PartialBits() == r.rest && m_bufferSize == 0)
    {
      out := [];
      if m_bufferSize == 0 || m_done {
        return false, out;
      }
      out := DecodeInput();
      if !m_done {
        m_bufferSize := 0;
      }
      ok := true;
    }

    /** The byte loop of Decompress. */
    method DecodeInput() returns (out: seq<byte>)
      requires CanDecompress() && m_bufferSize > 0 && !m_done
      modifies this`m_done, this`m_partial, this`m_partialSize, this`m_nextCode, this`m_codeSize,
               this`m_codeMask, this`m_oldCode, this`m_bufferPos, m_strings
      ensures CanDecompress()
      ensures var r := DecRun(m_minCodeSize, old(Dec()), old(PartialBits()) + BitsOfBytes(old(Unread())));
        && out == r.text && Dec() == r.decoder && (!m_done ==> PartialBits() == r.rest)
    {
      out := [];
      ghost var all := Left();
      assert out + all.text == all.text;
      while m_bufferPos < m_bufferSize && !m_done
        invariant CanDecompress() && m_bufferPos <= m_bufferSize && Decoding(all, out)
        decreases m_bufferSize - m_bufferPos, !m_done
      {
        out := DecodeNext(all, out);
      }
      NothingLeft(PartialBits(), out);
    }

    /** What decoding the buffered bits and the unread input will yield. */
    ghost function Left(): Decoded
      reads this, m_strings
      requires CanDecompress() && m_bufferPos <= m_bufferSize
    {
      DecRun(m_minCodeSize, Dec(), PartialBits() + BitsOfBytes(m_buffer[m_bufferPos..m_bufferSize]))
    }

    /** The given output is the part of the whole result that has been produced. */
    ghost predicate Decoding(all: Decoded, out: Text)
      reads this, m_strings
      requires CanDecompress() && m_bufferPos <= m_bufferSize
    {
      && all.decoder == Left().decoder && all.text == out + Left().text
      && (!m_done ==> all.rest == Left().rest)
    }

    /** The body of the byte loop. */
    method DecodeNext(ghost all: Decoded, before: seq<byte>) returns (out: seq<byte>)
      requires CanDecompress() && m_bufferPos < m_bufferSize && !m_done && Decoding(all, before)
      modifies this`m_done, this`m_partial, this`m_partialSize, this`m_nextCode, this`m_codeSize,
               this`m_codeMask, this`m_oldCode, this`m_bufferPos, m_strings
      ensures CanDecompress() && m_bufferPos <= m_bufferSize && Decoding(all, out)
      ensures m_bufferPos == old(m_bufferPos) + (if m_done then 0 else 1)
    {
      ghost var next := FirstByte(m_buffer, m_bufferPos, m_bufferSize);
      Assoc(PartialBits(), BitString(m_buffer[m_bufferPos], 8), next);
      var text := DecodeByte(m_buffer[m_bufferPos], next);
      ResumeTwice(before, text, DecRun(m_minCodeSize, Dec(), PartialBits() + next));
      out := before + text;
      if !m_done {
        m_bufferPos := m_bufferPos + 1;
      }
    }

    /** One input byte: buffer its bits, then take the codes they complete. */
    method DecodeByte(b: byte, ghost rest: seq<bool>) returns (out: seq<byte>)
      requires CanDecompress() && !m_done
      modifies this`m_done, this`m_partial, this`m_partialSize, this`m_nextCode, this`m_codeSize,
               this`m_codeMask, this`m_oldCode, m_strings
      ensures CanDecompress()
      ensures DecRun(m_minCodeSize, old(Dec()), (old(PartialBits()) + BitString(b, 8)) + rest)
           == Resume(out, DecRun(m_minCodeSize, Dec(), PartialBits() + rest))
    {
      PutByte(b);
      out := DecodeBits(rest);
    }

    /** The inner loop of Decompress: take codes while the bit buffer holds a whole one. */
    method DecodeBits(ghost rest: seq<bool>) returns (out: seq<byte>)
      requires Valid() && PartialOk() && DecOk(m_minCodeSize, Dec()) && !m_done
      requires m_codeMask == Pow2(m_codeSize) - 1
      modifies this`m_done, this`m_partial, this`m_partialSize, this`m_nextCode, this`m_codeSize,
               this`m_codeMask, this`m_oldCode, m_strings
      ensures CanDecompress()
      ensures DecRun(m_minCodeSize, old(Dec()), old(PartialBits()) + rest)
           == Resume(out, DecRun(m_minCodeSize, Dec(), PartialBits() + rest))
    {
      out := [];
      ghost var all := DecRun(m_minCodeSize, Dec(), PartialBits() + rest);
      while m_partialSize >= m_codeSize
        invariant Valid() && PartialOk() && DecOk(m_minCodeSize, Dec()) && !m_done
        invariant m_codeMask == Pow2(m_codeSize) - 1
        invariant all == Resume(out, DecRun(m_minCodeSize, Dec(), PartialBits() + rest))
        decreases m_partialSize
      {
        var text := DecodeOne(rest);
        ResumeTwice(out, text, DecRun(m_minCodeSize, Dec(), PartialBits() + rest));
        out := out + text;
        if m_done {
          return;
        }
      }
    }

    method DecodeOne(ghost rest: seq<bool>) returns (text: seq<byte>)
      requires Valid() && PartialOk() && DecOk(m_minCodeSize, Dec()) && !m_done
      requires m_codeMask == Pow2(m_codeSize) - 1 && m_codeSize <= m_partialSize
      modifies this`m_done, this`m_partial, this`m_partialSize, this`m_nextCode, this`m_codeSize,
               this`m_codeMask, this`m_oldCode, m_strings
      ensures Valid() && PartialOk() && DecOk(m_minCodeSize, Dec()) && m_codeMask == Pow2(m_codeSize) - 1
      ensures m_partialSize < old(m_partialSize)
      ensures DecRun(m_minCodeSize, old(Dec()), old(PartialBits()) + rest)
           == Resume(text, DecRun(m_minCodeSize, Dec(), PartialBits() + rest))
    {
      ghost var d := Dec();
      var code := GetCode();
      Assoc(BitString(code, d.codeSize), PartialBits(), rest);
      DecRunCode(m_minCodeSize, d, Code(code, d.codeSize), PartialBits() + rest);
      text := DecodeCode(code);
    }

    method PutByte(b: byte)
      requires PartialOk() && m_partialSize < 12
      modifies this`m_partial, this`m_partialSize
      ensures PartialOk() && PartialBits() == old(PartialBits()) + BitString(b, 8) && m_partial < 0x8000_0000
    {
      assert Pow2(8) == 256;
      OrBits(m_partial, b, m_partialSize, 8);
      m_partial := Or(m_partial, Shl(b, m_partialSize));
      m_partialSize := m_partialSize + 8;
      IntBits(m_partial, m_partialSize);
    }

    method GetCode() returns (code: nat)
      requires PartialOk() && m_codeSize <= m_partialSize && m_codeMask == Pow2(m_codeSize) - 1
      modifies this`m_partial, this`m_partialSize
      ensures PartialOk() && code < Pow2(m_codeSize)
      ensures old(PartialBits()) == BitString(code, m_codeSize) + PartialBits()
    {
      AndLowMask(m_partial, m_codeSize);
      ShrBound(m_partial, m_codeSize, m_partialSize);
      BitStringSplit(m_partial, m_codeSize, m_partialSize);
      code := And(m_partial, m_codeMask);
      m_partial := Shr(m_partial, m_codeSize);
      m_partialSize := m_partialSize - m_codeSize;
    }

    /** What Decompress does with one code. */
    method DecodeCode(code: nat) returns (text: seq<byte>)
      requires Valid() && DecOk(m_minCodeSize, Dec()) && !m_done
      requires code < Pow2(m_codeSize) && m_codeMask == Pow2(m_codeSize) - 1
      modifies this`m_done, this`m_nextCode, this`m_codeSize, this`m_codeMask, this`m_oldCode, m_strings
      ensures Valid() && m_codeMask == Pow2(m_codeSize) - 1
      ensures (Dec(), text) == DecStep(m_minCodeSize, old(Dec()), code)
    {
      text := [];
      if code > m_nextCode || code == m_endCode {
        m_done := true;
        return;
      }
      if code == m_clearCode {
        ClearDecompressorTable();
        return;
      }
      text := DecodeKnown(code);
    }

    /** A code that stands for a string. */
    method DecodeKnown(code: nat) returns (text: seq<byte>)
      requires Valid() && DecOk(m_minCodeSize, Dec()) && code < Pow2(m_codeSize) && m_codeMask == Pow2(m_codeSize) - 1
      requires code <= m_nextCode && code != m_endCode && code != m_clearCode
      modifies this`m_nextCode, this`m_codeSize, this`m_codeMask, this`m_oldCode, m_strings
      ensures Valid() && m_codeMask == Pow2(m_codeSize) - 1
      ensures (Dec(), text) == DecStep(m_minCodeSize, old(Dec()), code)
    {
      ghost var d := Dec();
      DecBounds(m_minCodeSize, d);
      if m_oldCode != MAX_LZW_CODE && m_nextCode < MAX_LZW_CODE {
        EnterString(code);
      }
      text := m_strings[code];
      if m_oldCode != MAX_LZW_CODE && m_nextCode < MAX_LZW_CODE {
        NextEntry();
      }
      KnownStep(m_minCodeSize, d, code, m_strings[..], m_nextCode, m_codeSize);
      m_oldCode := code;
    }

    /** The previous string and the first pixel of the one that code stands for. */
    method EnterString(code: nat)
      requires m_strings.Length == MAX_LZW_CODE && m_oldCode < MAX_LZW_CODE && code <= m_nextCode < MAX_LZW_CODE
      modifies m_strings
      ensures m_strings[..] == old(m_strings[..])[m_nextCode :=
        old(m_strings[m_oldCode]) + [Head(old(m_strings[if code == m_nextCode then m_oldCode else code]))]]
    {
      m_strings[m_nextCode] := m_strings[m_oldCode] + [Head(m_strings[if code == m_nextCode then m_oldCode else code])];
    }

    /** Advance to the next free code, and to one more bit when it has outgrown the mask. */
    method NextEntry()
      requires m_nextCode < MAX_LZW_CODE && 0 < m_nextCode < Pow2(m_codeSize)
      requires m_codeMask == Pow2(m_codeSize) - 1
      modifies this`m_nextCode, this`m_codeSize, this`m_codeMask
      ensures m_nextCode == old(m_nextCode) + 1 && m_codeMask == Pow2(m_codeSize) - 1
      ensures m_codeSize == old(m_codeSize)
                + (if m_nextCode < MAX_LZW_CODE && m_nextCode == Pow2(old(m_codeSize)) then 1 else 0)
    {
      m_nextCode := m_nextCode + 1;
      if m_nextCode < MAX_LZW_CODE {
        MaskTest(m_nextCode, m_codeSize);
        if And(m_nextCode, m_codeMask) == 0 {
          m_codeSize := m_codeSize + 1;
          m_codeMask := Or(m_codeMask, m_nextCode);
        }
      }
    }
  }

  /** The decoder's step with a code that stands for a string, by its parts. */
  lemma KnownStep(min: nat, d: Decoder, code: nat, strings: seq<Text>, next: nat, codeSize: nat)
    requires CodeSizeOk(min) && DecOk(min, d) && code < Pow2(d.codeSize) <= MAX_LZW_CODE
    requires code <= d.nextCode && code != EndCode(min) && code != ClearCode(min)
    requires var grow := d.oldCode != MAX_LZW_CODE && d.nextCode < MAX_LZW_CODE;
      && next == (if grow then d.nextCode + 1 else d.nextCode)
      && strings == (if grow then d.strings[d.nextCode :=
           d.strings[d.oldCode] + [Head(d.strings[if code == d.nextCode then d.oldCode else code])]] else d.strings)
      && codeSize == d.codeSize + if grow && next < MAX_LZW_CODE && next == Pow2(d.codeSize) then 1 else 0
    ensures DecStep(min, d, code) == (Decoder(d.done, next, codeSize, code, strings), strings[code])
  {
  }

  lemma NoCodes(bits: seq<bool>)
    ensures BitsOfBytes([]) + bits == bits + CodeBits([]) == bits
  {
  }

  lemma BitsAppend(bits: seq<bool>, out: seq<byte>, mid: seq<bool>, bytes: seq<byte>, end: seq<bool>,
                   codes: seq<Code>, more: seq<Code>)
    requires BitsOfBytes(out) + mid == bits + CodeBits(codes)
    requires BitsOfBytes(bytes) + end == mid + CodeBits(more)
    ensures BitsOfBytes(out + bytes) + end == bits + CodeBits(codes + more)
  {
    BitsOfBytesConcat(out, bytes);
    CodeBitsConcat(codes, more);
    Regroup(BitsOfBytes(out), BitsOfBytes(bytes), end, mid, CodeBits(more), bits, CodeBits(codes));
  }

  /** The next pixel of a buffer. */
  lemma NextRun(min: nat, e0: Encoder, buffer: Text, start: nat, pos: nat, e: Encoder, codes: seq<Code>)
    requires |e0.strmap| == MAP_SIZE && start <= pos < |buffer| && EncRun(min, e0, buffer[start..pos]) == (e, codes)
    ensures var step := EncStep(min, e, buffer[pos]);
      EncRun(min, e0, buffer[start..pos + 1]) == (step.0, codes + step.1)
  {
    assert buffer[start..pos + 1] == buffer[start..pos] + [buffer[pos]];
    EncRunSnoc(min, e0, buffer[start..pos], buffer[pos]);
  }

  lemma PaddedEnd(all: seq<bool>, out: seq<byte>, last: seq<bool>, bytes: seq<byte>, pad: nat)
    requires BitsOfBytes(out) + last == all
    requires BitsOfBytes(bytes) == last + BitString(0, pad) && pad < 8
    ensures BitsOfBytes(out + bytes) == all + BitString(0, pad)
    ensures |out + bytes| == (|all| + 7) / 8
  {
    BitsOfBytesConcat(out, bytes);
    Assoc(BitsOfBytes(out), last, BitString(0, pad));
  }

  lemma TwoCodesLength(c1: Code, c2: Code)
    ensures |CodeBits([c1, c2])| == c1.width + c2.width
  {
    assert [c1, c2] == [c1] + [c2];
    CodeBitsConcat([c1], [c2]);
    CodeBitsOne(c1);
    CodeBitsOne(c2);
  }

  lemma Regroup(o: seq<bool>, b: seq<bool>, end: seq<bool>, mid: seq<bool>, ms: seq<bool>, bits: seq<bool>,
                cs: seq<bool>)
    requires o + mid == bits + cs && b + end == mid + ms
    ensures (o + b) + end == bits + (cs + ms)
  {
    assert (o + b) + end == o + (mid + ms);
    assert (bits + cs) + ms == bits + (cs + ms);
  }

  lemma SecondCode(bits: seq<bool>, out: seq<byte>, mid: seq<bool>, c1: Code, c2: Code, end: seq<bool>)
    requires BitsOfBytes(out) + mid == bits + CodeBits([c1])
    requires end == mid + BitString(c2.value, c2.width)
    ensures BitsOfBytes(out) + end == bits + CodeBits([c1, c2])
  {
    CodeBitsOne(c2);
    NoCodes(end);
    assert [c1, c2] == [c1] + [c2] && out + [] == out;
    BitsAppend(bits, out, mid, [], end, [c1], [c2]);
  }

  lemma OrBits(x: nat, y: nat, s: nat, w: nat)
    requires x < Pow2(s) && y < Pow2(w)
    ensures Or(x, Shl(y, s)) < Pow2(s + w)
    ensures BitString(Or(x, Shl(y, s)), s + w) == BitString(x, s) + BitString(y, w)
  {
    var v := x + y * Pow2(s);
    assert Or(x, Shl(y, s)) == v by { OrDisjoint(x, y, s); }
    assert v < Pow2(s + w) by { ConcatBound(x, y, s, w); }
    BitStringConcat(x, y, s, w);
  }

  lemma IntBits(v: nat, n: nat)
    requires v < Pow2(n) && n <= 31
    ensures v < 0x8000_0000
  {
    Pow2Monotone(n, 31);
    Pow2Values();
  }

  lemma KeyBits(prefix: nat, ch: byte)
    requires prefix < MAX_LZW_CODE
    ensures And(Shl(prefix, 8), 0xFFF00) + ch == Key(prefix, ch)
  {
    AndShl(prefix, 0xFFF, 8);
    AndLowMask(prefix, 12);
    assert Pow2(12) == 4096 && Pow2(8) == 256;
  }

  lemma GrowthBound(min: nat, e: Encoder)
    requires CodeSizeOk(min) && EncOk(min, e)
    ensures e.nextCode == Pow2(e.codeSize) ==> e.codeSize < 12
    ensures e.prefix < Pow2(e.codeSize) && ClearCode(min) + 1 < Pow2(e.codeSize)
  {
    assert Pow2(12) == 4096;
  }

  /** The test that the next code has outgrown the mask, and the mask after it. */
  lemma MaskTest(code: nat, width: nat)
    requires 0 < code <= Pow2(width)
    ensures And(code, Pow2(width) - 1) == 0 <==> code == Pow2(width)
    ensures code == Pow2(width) ==> Or(Pow2(width) - 1, code) == Pow2(width + 1) - 1
  {
    AndLowMask(code, width);
    OrDisjoint(Pow2(width) - 1, 1, width);
    if code == Pow2(width) {
      DivModUnique(code, Pow2(width), 1, 0);
    } else {
      DivModUnique(code, Pow2(width), 0, code);
    }
  }

  lemma FirstByte(buffer: seq<byte>, pos: nat, size: nat) returns (next: seq<bool>)
    requires pos < size <= |buffer|
    ensures next == BitsOfBytes(buffer[pos + 1..size])
    ensures BitsOfBytes(buffer[pos..size]) == BitString(buffer[pos], 8) + next
  {
    next := BitsOfBytes(buffer[pos + 1..size]);
    assert buffer[pos..size] == [buffer[pos]] + buffer[pos + 1..size];
    BitsOfBytesConcat([buffer[pos]], buffer[pos + 1..size]);
    BitsOfByte([], buffer[pos]);
    assert [] + [buffer[pos]] == [buffer[pos]] && [] + BitString(buffer[pos], 8) == BitString(buffer[pos], 8);
  }

  lemma NothingLeft(bits: seq<bool>, out: Text)
    ensures bits + BitsOfBytes([]) == bits && out + [] == out
  {
  }

  /** Text already output in front of what is still to be decoded. */
  ghost function Resume(out: Text, r: Decoded): Decoded {
    Decoded(r.decoder, r.rest, out + r.text)
  }

  lemma ResumeTwice(a: Text, b: Text, r: Decoded)
    ensures Resume(a, Resume(b, r)) == Resume(a + b, r)
  {
    Assoc(a, b, r.text);
  }

  lemma BitsOfByte(out: seq<byte>, b: byte)
    ensures BitsOfBytes(out + [b]) == BitsOfBytes(out) + BitString(b, 8)
  {
    assert (out + [b])[..|out|] == out;
  }

  lemma ShrBound(v: nat, k: nat, n: nat)
    requires v < Pow2(n) && k <= n
    ensures Shr(v, k) < Pow2(n - k)
  {
    Pow2Add(n - k, k);
    if Shr(v, k) >= Pow2(n - k) {
      MulLe(Pow2(n - k), Shr(v, k), Pow2(k));
    }
  }

  lemma LowByte(v: nat)
    ensures Low(v, 8) == v % 256 && Shr(v, 8) == v / 256
  {
    assert Pow2(8) == 256;
  }

  /** Moving the low byte of the bit buffer to the output. */
  lemma NextByte(bits: seq<bool>, out: seq<byte>, v: nat, n: nat)
    requires v < Pow2(n) && n >= 8
    requires BitsOfBytes(out) + BitString(v, n) == bits
    ensures v / 256 < Pow2(n - 8)
    ensures BitsOfBytes(out + [v % 256]) + BitString(v / 256, n - 8) == bits
  {
    LowByte(v);
    BitsOfByte(out, v % 256);
    ShrBound(v, 8, n);
    BitStringSplit(v, 8, n);
    Assoc(BitsOfBytes(out), BitString(v % 256, 8), BitString(v / 256, n - 8));
  }

  lemma ZeroExtend(o: seq<bool>, v: nat, n: nat, k: nat)
    requires v < Pow2(n) && n <= k
    ensures o + BitString(v, k) == (o + BitString(v, n)) + BitString(0, k - n)
  {
    BitStringConcat(v, 0, n, k - n);
    var a, b := BitString(v, n), BitString(0, k - n);
    assert (o + a) + b == o + (a + b);
  }

  /** Moving the last bits to the output. */
  lemma LastByte(bits: seq<bool>, out: seq<byte>, v: nat, n: nat)
    requires v < Pow2(n) && n < 8
    requires BitsOfBytes(out) + BitString(v, n) == bits
    ensures BitsOfBytes(out + [v % 256]) == bits + BitString(0, 8 - n)
  {
    assert v < 256 by {
      Pow2Monotone(n, 8);
      assert Pow2(8) == 256;
    }
    assert v % 256 == v;
    BitsOfByte(out, v);
    ZeroExtend(BitsOfBytes(out), v, n, 8);
  }

  /** The encoder with the next code entered at a key. */
  function Entered(e: Encoder, key: nat): Encoder
    requires key < |e.strmap|
  {
    Encoder(e.started, e.prefix, e.nextCode + 1, if e.nextCode == Pow2(e.codeSize) then e.codeSize + 1 else e.codeSize,
      e.strmap[key := e.nextCode])
  }

  /** The number of buffered bits after a code, with the clear code if the table is full. */
  function EmitSize(size: nat, codeSize: nat, nextCode: nat): nat {
    (size + codeSize) % 8
    + if nextCode + 1 != MAX_LZW_CODE then 0 else if nextCode == Pow2(codeSize) then codeSize + 1 else codeSize
  }

  lemma EmitSizeStep(min: nat, e: Encoder, px: byte, size: nat)
    requires |e.strmap| == MAP_SIZE && e.started && e.strmap[Key(e.prefix, px)] <= 0
    ensures SizeStep(size, EncStep(min, e, px).1) == EmitSize(size, e.codeSize, e.nextCode)
  {
    EncStepEmits(min, e, px);
    var codeSize := if e.nextCode == Pow2(e.codeSize) then e.codeSize + 1 else e.codeSize;
    SizeStepCodes(size, Code(e.prefix, e.codeSize), Code(ClearCode(min), codeSize));
  }

  lemma NextSize(min: nat, e: Encoder, size: nat, buffer: seq<byte>, start: nat, pos: nat, now: Encoder, next: nat)
    requires |e.strmap| == MAP_SIZE && start <= pos < |buffer| && now == EncRun(min, e, buffer[start..pos]).0
    requires next == SizeStep(SizeRun(min, e, size, buffer[start..pos]), EncStep(min, now, buffer[pos]).1)
    ensures SizeRun(min, e, size, buffer[start..pos + 1]) == next
  {
    assert buffer[start..pos + 1] == buffer[start..pos] + [buffer[pos]];
    SizeRunSnoc(min, e, size, buffer[start..pos], buffer[pos]);
  }
}
