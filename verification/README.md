# Verified model of the repository's algorithms

This project models, in Dafny, the self-contained algorithms of a C/C++ utility
collection and proves what they promise: a GIF LZW codec; ChaCha20-Poly1305, the
database page cipher built on it and RC4; multi-precision and limb arithmetic for P-256
and P-224; two SHA-1 programs; a shared-memory message protocol and a typed message
format with its framing; and the text forms of JSON and XML.
`dafny verify dfyconfig.toml` checks all of it.

## How the model is built

- Machine words are integers with their C ranges (`byte`, `u32`, `u64` in `Bits.dfy`).
  Wrap-around is written out with `%`; where no wrap-around is written, its absence is
  proved. `&`, `|`, `^` and shifts are functions on integers. Code that works in place
  keeps its arrays, and methods are proved against functions of their inputs.
- `LzwModel`, `LzwRoundTrip`: encoder and decoder as state machines over pixels and over
  bits, and the simulation between them (the decoder's table lags one entry behind).
  `LzwGreedy` has the law of LZW itself, over the strings that the codes stand for, and
  `LzwDecoding` the law of decoding, over the codes of any writer.
  `LzwCodec.StringTable` is the C++ class with its fields, 32-bit window and tables;
  `LzwSession` is the life of one image, `LzwFinalBytes` its last bytes. Pixels have eight
  bits; code sizes are 2 to 11 (a GIF has 2 to 8).
- `Poly1305Limbs`, `Poly1305`: the polynomial of RFC 8439, section 2.5, and the 26-bit
  limbs; `Poly1305Messages` has the tag block by block. The message is read in place; the tag buffer may follow it in the same array,
  as it does in a page, but may not overlap it.
- `ChaCha20` (RFC 8439, sections 2.3 and 2.4), `Rng`, `PageCodec`. Properties of the
  stream, the random source and the page hold of any block function and any tag function;
  the methods take the functions as ghost parameters and require them to be ChaCha20 and
  Poly1305. `ChaChaPolyExists` shows that this can be met. The operating system's entropy
  is a function from the number of seeds already drawn to the next seed. `ChaChaWords` has
  the rounds as a round on the columns of a matrix, over words of any type. The MD5-based
  initial vector of a page without reserved bytes is a parameter.
- `Rc4`: the calls of `rc4.c` and the one-call form of `codec.c` over one state machine;
  `Streams` has what holds of any machine that gives a byte per step.
- `P256Number`, `P256Digits`, `P256Modular`, `P256Arith`, `P256Inverse`, `P256Fermat`:
  32-bit digits (`p256.c`). The constant-time selections are modelled with their masks.
- `Limbs`, `P224Field`, `P224Curve`: 28-bit limbs modulo 2^224 - 2^96 + 1 (FIPS 186-4,
  section D.1.2.2). `FelemField`, `FelemSpread`, `FelemReduce`, `FelemProduct`, `FelemCurve`:
  29- and 28-bit limbs in Montgomery form modulo the P-256 prime (section D.1.2.3).
  `Jacobian` states the doubling formulas over the integers and what they mean on the curve,
  `JacobianTangent` the tangent law, which they are an instance of. `P224Meaning`, `FelemMeaning`
  and `Residues` state what limbs stand for, in numbers.
- `Sha1Rounds` (FIPS 180-4, sections 4 to 6), `ShaContext`, `Sha1Context`: the contexts of
  `sha.c` and `sha1.c` as classes, each with the message so far as a ghost field;
  `Sha1Agreement` compares them.
- `Sha1Digests`, `ChaChaAnswers`: the published examples. Computing with the integer operators is
  too costly in a proof, with bit vectors it is not: `WordBits` proves for words of any type, and
  `BitVectors` for 32-bit vectors, that their operators are those on integers; `Sha1Words` and
  `ChaChaWords` have the rounds over such words. The lemmas of `Sha1Answers` and `ChaChaAnswers`
  are a few rounds each, from one literal state to the next.
- `SharedMemoryIpc`: the protocol as a state machine over interleaved steps, one byte
  copied per step, with any number of clients and separate sizes for clients and server.
  `size_t` arithmetic in the size checks is taken not to wrap.
- `Pickles`, `PickleObjects`: the records of typed values and the two classes that write
  and read them; `MessageFrames`: the splitting of a stream into messages and the channel
  that does it read by read; `MessageLimits` is about its size limit;
  `PickleMessages` puts them together; `PickleLayout` has the bytes written, `PickleReads` what is
  read from any bytes.
- `JsonText`: trees, their text and the parser as functions. `JsonGrammar`, with `JsonStrings` and
  `JsonNumbers`, has the texts that the parser accepts as a grammar of its own, which is that of
  RFC 8259 with the extensions of the source, and `JsonAccepted` proves that there are no others.
  `JsonScan` has the conversion `%4x` of `sscanf`, which reads the number of a `\u`, as the C
  standard has it. A string is passed over twice, first to measure its buffer and then to fill it;
  `JsonBuffers` is about where the two passes part, `JsonMeasured` about what follows a text, where
  the first pass may end, and `JsonEscapes` has the escapes without four hexadecimal digits. What C
  leaves undefined is an outcome of its own: reading past the terminator, using a variable that
  nothing was assigned to, writing past the buffer.
  `JsonMeaning` has RFC 8259 itself: which of these texts are standard, what they stand for, with
  integers of any size, and which of them are read as that. `JsonRoundTrip` has the printed text
  as texts of the standard; `JsonDecimals` has decimals in lowest terms, `JsonCodePoints` is about
  UTF-16 and UTF-8, and `JsonFailures` about the place where parsing fails.
  `JsonPrinter` and `JsonParser` are the routines with their buffers. `JsonLayout` has the printed
  text character by character, `JsonReading` what is read from texts of any kind. A number with a
  fraction or an exponent is kept as its decimal; the text is a sequence of bytes.
- `XmlText`: the writer and the reader of text between tags and in attributes;
  `XmlReferences`: what a character reference is read as, decimal or hexadecimal; `XmlReading`:
  what any text is read as; `XmlLayout`: both character by character.

## Findings

- LZW: an image comes back as it was exactly when the compressor object has not been used
  before and the image has a pixel; otherwise a pixel 0 appears in front
  (`LzwSession.RoundTrip`), because `firstPixelPassed` is never reset. The comment at
  ddgif/src/string_table.cpp:98-99 says the last call writes at most four bytes. For code sizes
  2 to 8 it writes more if and only if the last pixel restarted the table and, with r bits left
  over, r + 2 * min > 18 (`LzwFinalBytes.TailIff`): never up to code size 5.
  `LzwFinalBytes.FiveBytes` is an image for which it writes five. The decoder does not refuse
  the first free code behind a clear code but gives the string left over from the cleared table
  (`LzwDecoding.LeftOverRead`).
- Poly1305: `h0` is left above 26 bits between blocks and after the final reduction; the
  column sums still fit 64 bits and the tag is exact.
- Pages: decryption restores every byte if and only if the page is not page 1 or starts
  with the database header; page 1 gets the header in any case. In legacy mode the first 16
  bytes of page 1 are encrypted and then overwritten.
- RC4: a call whose position and length together reach 2^32 does nothing and says nothing;
  a sequence of calls acts as one call if and only if that does not happen (`Rc4.RunIff`).
- `p256_mod` is a remainder only for numbers below twice the modulus (`P256Arith.ModIff`).
  `p256_modinv_vartime` returns a multiple of the gcd's inverse: an inverse if and only if
  the number has no divisor in common with the modulus (`P256Inverse.InverseIffCoprime`); its
  loop ends if and only if the number is not 0 (`P256Inverse.EndsIff`).
- P-224: the bounds given before `Reduce` are exceeded by its callers (`<< 3` needs limbs up
  to 2^32 - 16, and a difference can reach 2^31 + 2^30 + 7); limbs up to 2^32 - 16 are safe,
  and the limbs of a product leave just that room.
- P-256 limbs, where a comment at a routine admits more than the routine carries:
  `felem_sum` is right if and only if no limb sum with its carry reaches 2^32
  (`FelemField.Sum`, `SumBreaks`). `felem_scalar_8` always has the right value, but its limbs
  are within their bounds if and only if limb 7 leaves room for the cancelled carry
  (`FelemField.Scalar8`, `Scalar8Breaks`). `felem_reduce_degree` is right if and only if the
  quotient, a function of the number of its words, is below 2^260: always below
  2^517 - 2^513 and never from 2^517 on (`FelemReduce.ReducibleBelow`, `ReduceDegreeBreaks`).
  Products of limbs within the bounds are far below that. The carry that cancels at 2^257 can
  exceed the commented 8, which does no harm. In the elimination an odd word can become -1,
  wrapped around; the word below it then carries into it, so the result is exact.
- SHA-1: `sha1.c` refuses a message of 2^61 bytes or more, `sha.c` gives the digest of a length
  taken modulo 2^64; on all shorter messages they agree (`Sha1Agreement.Compare`).
- Shared memory: a send that is too large consumes the send event for good. A client can send
  again if and only if every message that clients have waited with fits both sizes
  (`SendsAgainIff`); from the start two steps are enough to get stuck (`StuckInTwo`).
- Messages: a message within the size limit is refused if the read that completes it brings
  along so much of the next that both exceed the limit (`MessageFrames.WithinLimitRefused`,
  `RefusedInReads`), and that is the only way (`MessageFrames.DeliveredIff`). A payload of 2^32
  bytes or more is sent cut off to its size modulo 2^32, as a message like any other, and its
  items cannot be read back; a receiver reads only messages whose size is an int
  (`PickleMessages.SentIff`).
- JSON: a number that is not negative loses its signed mark, and that is all a round trip
  changes (`JsonRoundTrip.RoundTrip`). A surrogate pair is put together with `|` where it
  needs `+`, which is right for half of the pairs (`JsonCodePoints.PairIff`).
  `\u0000` and half pairs are dropped, a first half together with the escape behind it
  (`JsonStrings.UnicodeDropped`, `HalfDropped`). An integer is stored modulo 2^64, which is what
  the text says if and only if it is below 2^64, or with a minus sign at most 2^63
  (`JsonMeaning.IntegerIff`). An exponent is an int and wraps around at 2^31, so that
  `1e4294967296` is read as 1 (`JsonExponents.ExponentBreaks`). In C both overflows are
  undefined; the model has what wrapping around gives. A text of RFC 8259 is read as what it
  stands for if and only if it has none of these four (`JsonMeaning.StandardIff`); a number zero
  may have any exponent. The parser also accepts other texts, among them `01`, `-`, a
  string at the end without its closing quote, and any four characters behind `\u` if `sscanf`
  converts a number there, of one digit or with blanks and a sign, or has done so in an earlier
  escape of the string (`JsonAccepted.ParseIff` has them all; `JsonEscapes.OneDigitAccepted`,
  `HeldUsed`).
- JSON strings: a quote among these four characters ends the pass that measures the buffer, but
  not the one that fills it. The second pass writes past the buffer if and only if the string has
  more bytes than were counted up to such a quote (`JsonBuffers.LeavesIff`, `QuotePassed`), as in
  `"\u1"AAAAA"` (`JsonEscapes.BufferLeft`). Without a quote or a backslash among the four, and so
  in any text of RFC 8259, the buffer is long enough (`ClearFits`). Behind a backslash the first
  pass may run past the terminator, as in the text `"\` (`RunsPastIff`, `JsonEscapes.TextLeft`).
- XML: text that contains `&#x` does not come back, all other text does, NUL included, in UTF-8
  if its byte sequences are whole (`XmlText.RoundTrip`): the writer copies what looks like a
  reference, and the reader takes it for one up to the next semicolon of the document. An
  ampersand that starts neither an entity nor a reference is dropped (`XmlReading.ReadIff`).
  The writer has the length of the text in an int: of 2^31 bytes or more it writes nothing or
  only the beginning, so that such text does not come back either.

## Model

| member | source | states |
|---|---|---|
| LzwRoundTrip.SimStep | ddgif/src/string_table.cpp:103-251 | one encoder step keeps the decoder, fed the emitted bits, one entry behind: same widths, and every map entry denotes the decoder's string, also at code == next code and at the restart at 4096 |
| LzwRoundTrip.StringsDecode | ddgif/src/string_table.cpp:64-259 | the codes of all pixels decode to the pixels, whatever padding follows; with a leading 0 for a reused encoder |
| LzwRoundTrip.ImageDecodes | ddgif/src/string_table.cpp:64-259 | the whole bit stream of an image, clear code and end code included, decodes to the image text and the decoder stops there |
| LzwGreedy.LearnedEmit | ddgif/src/string_table.cpp:133-143 | writing a code keeps three things: every code given out has its entry, no two codes stand for the same string, and a single pixel is all that a literal stands for |
| LzwGreedy.Greedy | ddgif/src/string_table.cpp:117-151 | in every state that encoder and decoder get into, a code is written before a pixel if and only if no code stands for the string matched so far and that pixel, and it stands for that string |
| LzwGreedy.LongestMatch | ddgif/src/string_table.cpp:64-195 | the same along every image, for the decoder that has read the codes so far, and that every code from the first free one on is in the dictionary |
| LzwGreedy.EqualPixels | ddgif/src/string_table.cpp:103-195 | after any pixels, k * (k + 1) / 2 equal ones cost at most k codes, as long as the table has room for k entries |
| LzwGreedy.FourPixels | ddgif/src/string_table.cpp:64-195 | the pixels 1 1 1 1 with code size 2 are the codes 4 1 6 1 5 |
| LzwGreedy.FourPixelsBytes | ddgif/src/string_table.cpp:64-195 | these codes, three bits each and the first bit lowest, are the bytes 8c 53 |
| LzwGreedy.Widths | ddgif/src/string_table.cpp:103-195 | along every image a code is written with the bits of the greatest code given out, and the clear code of a restart with those of the code that would be next |
| LzwGreedy.RestartIff | ddgif/src/string_table.cpp:139-166 | the table is restarted, with the clear code, behind every 4094 - 2^min codes and nowhere else |
| LzwDecoding.EntryLaw | ddgif/src/string_table.cpp:222-232 | entry j stands for what code j stands for and the first pixel of what code j + 1 stands for, the entry itself included |
| LzwDecoding.CodesDecoded | ddgif/src/string_table.cpp:197-259 | any codes behind a clear code, each a literal or an entry that exists when it is read, also with a full table, decode to what they stand for; code i has the bits of the greatest code entered before it |
| LzwDecoding.AnyImage | ddgif/src/string_table.cpp:197-259 | the code data of any writer, with clear codes wherever it likes, decodes to what the codes stand for, up to the end code |
| LzwDecoding.LeftOverRead | ddgif/src/string_table.cpp:212-251 | the first free code as the first one behind a clear code gives the string that its entry had before the table was cleared |
| LzwDecoding.LeftOverEntry | ddgif/src/string_table.cpp:212-251 | behind codes of any writer that string is the one of the first entry they made |
| LzwDecoding.LeftOverTwice | ddgif/src/string_table.cpp:212-251 | that code twice gives the string, and then the string with its own first pixel behind it, or with a 0 if it is empty |
| LzwDecoding.UnknownStops | ddgif/src/string_table.cpp:212-216 | a code above the next one ends the decoding with the text of the codes before it, whatever follows |
| LzwModel.EncRunConcat | ddgif/src/string_table.cpp:103-195 | compressing in several calls writes the codes that one call would write |
| LzwModel.DecRunConcat | ddgif/src/string_table.cpp:197-259 | decoding resumes across input buffers as if the bits had come at once |
| LzwSession.FeedBlocksIsDecRun | ddgif/src/string_table.cpp:197-259 | how the data is cut into blocks, one call of Decompress each, makes no difference |
| LzwSession.RoundTrip | ddgif/src/string_table.cpp:64-259 | the decompressed image is the compressed image if and only if the encoder was unused and there is a pixel |
| LzwCodec.StringTable.Initialize | ddgif/src/string_table.cpp:27-45 | the object is in the encoder's and the decoder's cleared state, with nothing buffered |
| LzwCodec.StringTable.CompressStart | ddgif/src/string_table.cpp:64-72 | the clear code is appended to the buffered bits |
| LzwCodec.StringTable.Compress | ddgif/src/string_table.cpp:103-195 | bytes written and bits kept are the bits held before and the codes of the pixels; the number of bits kept |
| LzwCodec.StringTable.EmitPrefix | ddgif/src/string_table.cpp:123-151 | one code is written, one entry added or the table restarted, no 32-bit overflow of the bit window |
| LzwCodec.StringTable.CompressEnd | ddgif/src/string_table.cpp:74-101 | the bytes written are the buffered bits, the last prefix, the end code and zero padding below eight bits; their number |
| LzwCodec.StringTable.Decompress | ddgif/src/string_table.cpp:197-259 | the text is the decoder's run over the bits kept and the bits of the buffer, and the rest is kept |
| LzwCodec.StringTable.DecodeCode | ddgif/src/string_table.cpp:222-251 | one code is one decoder step on the string table in place |
| LzwSession.CompressImage | ddgif/src/string_table.cpp:64-195 | the bytes of an image written row by row are the image's codes and padding; the last call writes TailLength of them |
| LzwSession.DecompressImage | ddgif/src/string_table.cpp:197-259 | the pixels read block by block are the decoder's run over all blocks |
| LzwFinalBytes.ImageBuffered | ddgif/src/string_table.cpp:64-195 | along every image the buffered bits are the first clear code alone, less than a byte, or less than a byte and a clear code of twelve bits, the last exactly when the last pixel restarted the table |
| LzwFinalBytes.TailIff | ddgif/src/string_table.cpp:74-101 | for every image with code size 2 to 8 the last call writes more than four bytes if and only if the last pixel restarted the table and r + 2 * min > 18, r being the bits left over before the clear code; for larger sizes also, from 10 on, if no code has been written |
| LzwFinalBytes.FiveBytes | ddgif/src/string_table.cpp:74-195 | an image of 3839 pixels for whose compression the last call writes five bytes |
| Poly1305Limbs.PolynomialStep | 3rd/sqlite3_key/src/src/chacha20poly1305.c:159-184 | one more coefficient is one Horner step of the reference polynomial |
| Poly1305Limbs.KeyLimbs | 3rd/sqlite3_key/src/src/chacha20poly1305.c:154-158 | the masked 26-bit limbs are the limbs of the clamped key |
| Poly1305Limbs.MessageLimbs | 3rd/sqlite3_key/src/src/chacha20poly1305.c:162-166 | the five limbs of a block are the block's number with the high bit |
| Poly1305Limbs.ProductFold | 3rd/sqlite3_key/src/src/chacha20poly1305.c:168-174 | the folded columns are the product modulo 2^130 - 5 |
| Poly1305.ColumnBounds | 3rd/sqlite3_key/src/src/chacha20poly1305.c:168-180 | no column overflows 64 bits with the limbs as they are left between blocks |
| Poly1305.Block | 3rd/sqlite3_key/src/src/chacha20poly1305.c:161-180 | one block adds its number and multiplies by the key modulo 2^130 - 5, within the limb bounds |
| Poly1305.Carry | 3rd/sqlite3_key/src/src/chacha20poly1305.c:176-180 | the partial carry keeps the value modulo 2^130 - 5 |
| Poly1305.Freeze | 3rd/sqlite3_key/src/src/chacha20poly1305.c:196-201 | the final reduction leaves the least residue, up to a multiple of 2^130 |
| Poly1305.AddKey | 3rd/sqlite3_key/src/src/chacha20poly1305.c:203-206 | the four words are the sum with the second half of the key modulo 2^128 |
| Poly1305.Evaluate | 3rd/sqlite3_key/src/src/chacha20poly1305.c:152-194 | all blocks, and the padded last one, evaluate the polynomial modulo 2^130 - 5 |
| Poly1305.Authenticate | 3rd/sqlite3_key/src/src/chacha20poly1305.c:143-217 | for every message length and key the sixteen bytes are the tag of RFC 8439 and nothing else changes |
| Poly1305Answer.TagAnswer | 3rd/sqlite3_key/src/src/chacha20poly1305.c:143-217 | the tag of section 2.5.2 of RFC 8439 |
| Poly1305Messages.ClampMask | 3rd/sqlite3_key/src/src/chacha20poly1305.c:153-157 | the first half of the key is taken with the mask of section 2.5 of RFC 8439, as one number |
| Poly1305Messages.BlockAppended | 3rd/sqlite3_key/src/src/chacha20poly1305.c:163-192 | a block more, which only at the end may be shorter than 16 bytes, adds its number with a one bit above it and multiplies |
| Poly1305Messages.BlockTag | 3rd/sqlite3_key/src/src/chacha20poly1305.c:143-217 | the tag of one block of any length, modulo 2^130 - 5 and then 2^128 |
| Poly1305Messages.EmptyTag | 3rd/sqlite3_key/src/src/chacha20poly1305.c:143-217 | the tag of nothing is the second half of the key |
| ChaCha20.QuarterRoundInPlace | 3rd/sqlite3_key/src/src/chacha20poly1305.c:55-59 | the quarter round on four words of the array |
| ChaCha20.Block | 3rd/sqlite3_key/src/src/chacha20poly1305.c:52-74 | ten double rounds in place |
| ChaChaWords.DoubleRoundIs | 3rd/sqlite3_key/src/src/chacha20poly1305.c:60-72 | for all states: the first half of a double round is a round on the columns, and the second half is the same round on the matrix whose row i is rotated left by i words |
| ChaChaAnswers.QuarterRoundAnswer | 3rd/sqlite3_key/src/src/chacha20poly1305.c:55-59 | the quarter round of section 2.1.1 of RFC 8439, wherever its four words are |
| ChaChaAnswers.StateOfExample | 3rd/sqlite3_key/src/src/chacha20poly1305.c:86-105 | the state for the key, the nonce and the counter of section 2.3.2 of RFC 8439 |
| ChaChaAnswers.KeyBlockAnswer | 3rd/sqlite3_key/src/src/chacha20poly1305.c:52-74 | the key stream block of section 2.3.2 of RFC 8439 |
| ChaCha20.MaskWord | 3rd/sqlite3_key/src/src/chacha20poly1305.c:116-118 | XOR of a word is XOR of its four bytes in memory order |
| ChaCha20.XorBlock | 3rd/sqlite3_key/src/src/chacha20poly1305.c:106-119 | the word path XORs 64 bytes with the key stream block |
| ChaCha20.XorTail | 3rd/sqlite3_key/src/src/chacha20poly1305.c:124-137 | the tail path XORs up to 64 bytes with the same block |
| ChaCha20.Cipher | 3rd/sqlite3_key/src/src/chacha20poly1305.c:76-138 | every byte is XORed with the byte of one key stream at its index, the block counter wrapping around; nothing else changes |
| ChaCha20.MaskedByBlocks | 3rd/sqlite3_key/src/src/chacha20poly1305.c:76-138 | byte i is masked with byte i % 64 of the block for the counter i / 64 further on, modulo 2^32 |
| ChaCha20.BlocksDiffer | 3rd/sqlite3_key/src/src/chacha20poly1305.c:116-122 | no two of 2^32 successive blocks are made from the same state |
| ChaCha20.XorStreamTwice | 3rd/sqlite3_key/src/src/chacha20poly1305.c:76-138 | the cipher undoes itself |
| ChaCha20.XorStreamSplit | 3rd/sqlite3_key/src/src/chacha20poly1305.c:76-138 | the cipher may be applied in pieces cut after whole blocks, with the counter advanced |
| Rng.Source.Refill | 3rd/sqlite3_key/src/src/chacha20poly1305.c:363-374 | an empty buffer is enciphered again; a counter at zero draws a new seed |
| Rng.Source.Fill | 3rd/sqlite3_key/src/src/chacha20poly1305.c:349-380 | the bytes and the state after them are those of drawing n bytes one at a time |
| Rng.BytesSplit | 3rd/sqlite3_key/src/src/chacha20poly1305.c:349-380 | drawing n1 and then n2 bytes gives the bytes and the state of drawing n1 + n2 |
| Rng.OutputByte | 3rd/sqlite3_key/src/src/chacha20poly1305.c:349-380 | byte 64 * k + i after a seed is byte i of the old buffer XORed with byte i of the blocks 0 to k of the seed's key stream, and the next seed is drawn after 2^32 blocks |
| PageCodec.RoundTrip | 3rd/sqlite3_key/src/src/codec.c:1033-1156 | decrypting an encrypted page returns OK, with or without the tag check, and restores the data, page 1 with the database header |
| PageCodec.RestoredExactly | 3rd/sqlite3_key/src/src/codec.c:1128-1131 | the data is unchanged if and only if the page is not page 1 or had the header |
| PageCodec.CounterInjective | 3rd/sqlite3_key/src/src/codec.c:1058 | under one nonce no two pages have the same counter |
| PageCodec.KeysAreBlock | 3rd/sqlite3_key/src/src/codec.c:1058-1059 | the one-time keys of a page are the key stream block at its counter |
| PageCodec.SuccessiveBlocks | 3rd/sqlite3_key/src/src/codec.c:1058-1062 | the data of a page is masked from the next counter on, with the same nonce |
| PageCodec.SealedDetermines | 3rd/sqlite3_key/src/src/codec.c:1033-1089 | what is authenticated determines the nonce and the data, but for the header of page 1 |
| PageCodec.EncryptPage | 3rd/sqlite3_key/src/src/codec.c:1033-1089 | CORRUPT, with the page untouched, if and only if the cipher is legacy and the reserved bytes are not 32, or it is not legacy and they are from 1 to 31; otherwise OK, and the page is masked, stamped and, if anything is reserved, tagged with a nonce drawn from the random source |
| PageCodec.EncryptedLayout | 3rd/sqlite3_key/src/src/codec.c:1033-1089 | every byte of a page on disk: salt, clear header bytes on page 1, data masked with the key stream of which half a block is the key, nonce, and the tag of all that |
| PageCodec.DecryptPage | 3rd/sqlite3_key/src/src/codec.c:1091-1156 | the status and the body of the page; refused for its reserved bytes exactly as in writing; a wrong tag gives CORRUPT if it is checked; bytes after the body do not change |
| PageCodec.DecryptedLayout | 3rd/sqlite3_key/src/src/codec.c:1091-1156 | every byte of the body of a page, whatever its tag and whether or not it is checked: the text SQLite format 3 and a NUL at the start of page 1 if the page is accepted, the bytes up to 23 of page 1 as they are unless legacy, every other byte with its byte of the key stream |
| PageCodec.AcceptedIff | 3rd/sqlite3_key/src/src/codec.c:1091-1156 | with the check on, a page is accepted if and only if its tag is that of its other bytes under the first half of the block at its counter, or if it has no tag |
| PageCodec.TagDifference | 3rd/sqlite3_key/src/src/chacha20poly1305.c:219-239 | zero exactly for equal tags |
| P256Digits.MulAdd | 3rd/encrypt/src/p256.c:54-70 | top and c become top and c plus a times b, modulo 2^288, exactly if top is zero; no 64-bit overflow |
| P256Digits.SubTop | 3rd/encrypt/src/p256.c:72-91 | exact subtraction with top digits; the assert holds |
| P256Digits.SubM | 3rd/encrypt/src/p256.c:93-108 | subtraction of the modulus under a mask, modulo 2^288 |
| P256Digits.AddM | 3rd/encrypt/src/p256.c:110-125 | addition of the modulus under a mask, modulo 2^288 |
| P256Modular.Product | 3rd/encrypt/src/p256.c:133-145 | the seventeen digits and the top are the full product |
| P256Modular.ClearTop | 3rd/encrypt/src/p256.c:148-164 | one round takes off a multiple of the modulus and leaves no top digit; both asserts hold |
| P256Modular.ModMul | 3rd/encrypt/src/p256.c:127-175 | c = a * (top_b * 2^256 + b) mod MOD for every MOD whose top digit is all ones; c may be a or b |
| P256Number.EightDigits | 3rd/encrypt/src/p256.h:31-44 | what eight digits stand for |
| P256Modular.Settle | 3rd/encrypt/src/p256.c:170-172 | the masked subtraction and addition take off the modulus once if that is not negative |
| P256Arith.Mod | 3rd/encrypt/src/p256.c:372-377 | in, less the modulus if that is not negative |
| P256Arith.ModIff | 3rd/encrypt/src/p256.c:372-377 | that is the remainder if and only if in is below twice the modulus |
| P256Arith.Add | 3rd/encrypt/src/p256.c:250-261 | the sum and its carry, c may be a or b |
| P256Arith.Sub | 3rd/encrypt/src/p256.c:237-248 | the difference and its borrow, with or without a result array |
| P256Arith.Shr1 | 3rd/encrypt/src/p256.c:209-219 | half the number with a bit shifted in, in place |
| P256Inverse.EuclidStep | 3rd/encrypt/src/p256.c:340-367 | one round of the loop on the digits is one round on the numbers, for any numbers below 2^256 |
| P256Inverse.RoundKeeps | 3rd/encrypt/src/p256.c:340-367 | a round keeps U = R * a, V = S * a modulo MOD, common divisors, R, S < MOD and that not both are even, and makes U + V smaller |
| P256Inverse.EndsIff | 3rd/encrypt/src/p256.c:331-370 | the loop ends if and only if the number is not 0 |
| P256Inverse.NeverEnds | 3rd/encrypt/src/p256.c:340-367 | from V = 0 and an odd U no number of rounds changes U or V or ends the loop |
| P256Inverse.ModInvVartime | 3rd/encrypt/src/p256.c:331-370 | terminates for a > 0 and odd MOD > 1 with b < MOD and b * a = gcd(a, MOD) modulo MOD |
| P256Inverse.InverseIffCoprime | 3rd/encrypt/src/p256.c:331-370 | the result is an inverse if and only if the gcd is 1 |
| P256Inverse.GcdDivisors | 3rd/encrypt/src/p256.c:331-370 | what the result is a multiple of: a number is a divisor of the gcd if and only if it divides both |
| P256Fermat.GetBit | 3rd/encrypt/src/p256.c:43-46 | the bit of the number that the digits stand for |
| P256Fermat.Window4 | 3rd/encrypt/src/p256.c:321-324 | four bits form the next digit of the exponent to base 16 |
| P256Fermat.CopyConditional | 3rd/encrypt/src/p256.c:276-286 | copies under an all-ones mask, and leaves alone under a zero mask |
| P256Fermat.Set0ToIdx | 3rd/encrypt/src/p256.c:292-299 | entry 0 becomes entry idx, or 1 for idx 0 |
| P256Fermat.ModPower | 3rd/encrypt/src/p256.c:301-329 | the window loop computes the power for any exponent of eight digits |
| P256Fermat.ExponentValue | 3rd/encrypt/src/p256.c:20-25 | the digits of the exponent are the order of the base point less two |
| P256Fermat.ModInv | 3rd/encrypt/src/p256.c:301-329 | b = a to the n - 2 modulo MOD, n being the order of the base point |
| P224Field.Subtract | 3rd/encrypt/src/p224_ec.c:130-140 | difference modulo the prime, no limb under- or overflows for limbs below 2^30 |
| P224Field.ReflectLimb | 3rd/encrypt/src/p224_ec.c:172-178 | a limb above 2^224 is reflected off both terms of the prime without under- or overflow |
| P224Field.ReduceLarge | 3rd/encrypt/src/p224_ec.c:159-204 | fifteen columns below 2^62 become eight limbs with the bounds limb by limb, same value modulo the prime; the limbs are a function of the columns |
| P224Field.MulColumns | 3rd/encrypt/src/p224_ec.c:214-221 | the fifteen column sums |
| P224Field.SquareColumns | 3rd/encrypt/src/p224_ec.c:234-243 | the same fifteen sums as a product of equal factors |
| P224Field.ColumnsNumber | 3rd/encrypt/src/p224_ec.c:206-224 | the columns stand for the product |
| P224Field.Mul | 3rd/encrypt/src/p224_ec.c:206-224 | product modulo the prime for one factor below 2^29 and one below 2^30 per limb; the limbs are a function of the columns |
| P224Field.Square | 3rd/encrypt/src/p224_ec.c:226-246 | square modulo the prime, limb for limb what Mul gives for two equal factors |
| P224Field.Reduce | 3rd/encrypt/src/p224_ec.c:248-281 | limbs below 2^29, same value modulo the prime, for limbs up to 2^32 - 16 |
| P224Curve.Invert | 3rd/encrypt/src/p224_ec.c:283-332 | out is the power with the prime less two as exponent |
| P224Curve.DoubleJacobian | 3rd/encrypt/src/p224_ec.c:567-620 | the doubling formulas modulo the prime, with the input's bounds kept for the next doubling; out may be a |
| P224Meaning.IsIff | 3rd/encrypt/src/p224_ec.c:35-53 | what is said of the limbs, as numbers: eight of 28 bits, lowest first and below 2^29, modulo 2^224 - 2^96 + 1 |
| Jacobian.DoubleOnCurve | 3rd/encrypt/src/p224_ec.c:567-620 | the doubled point's defect in the curve equation is 64 * y^6 times the point's, for any b |
| Jacobian.DoubleStaysOnCurve | 3rd/encrypt/src/p256_ec.c:788-819 | modulo any m, the double of a point of the curve is on the curve |
| Jacobian.DoubleScaled | 3rd/encrypt/src/p256_ec.c:782-819 | other Jacobian coordinates of the same point give coordinates of the same double |
| JacobianTangent.OppositeOnTangent | 3rd/encrypt/src/p224_ec.c:567-620 | in any coordinates, the double with its ordinate reversed is on the line through the point whose slope is the implicit derivative |
| JacobianTangent.MeetsTwice | 3rd/encrypt/src/p256_ec.c:788-819 | that line meets the curve twice at the point and once at the abscissa of its double, as a polynomial identity that carries the point's own defect |
| JacobianTangent.DoubleOfTwo | 3rd/encrypt/src/p224_ec.c:567-620 | the double of (2, 1, 1) on the curve with b = -1 is (65, -521, 2) |
| Jacobian.DoubleFormulas | 3rd/encrypt/src/p224_ec.c:567-620 | the coordinates of the double as polynomials in those of the point |
| FelemField.ReduceCarry | 3rd/encrypt/src/p256_ec.c:179-200 | a carry of up to 16 at 2^257 is cancelled modulo the prime; the limbs are given exactly |
| FelemField.Sum | 3rd/encrypt/src/p256_ec.c:202-227 | the result is congruent to the sum if and only if no limb sum with the carry into it reaches 2^32 |
| FelemField.SumBreaks | 3rd/encrypt/src/p256_ec.c:202-227 | two inputs whose limb sums stay below 2^32, for which that is not so |
| FelemField.SumFitsIff | 3rd/encrypt/src/p256_ec.c:202-227 | what that means limb by limb, for limbs of 29 and 28 bits in turn |
| FelemField.LooseFits | 3rd/encrypt/src/p256_ec.c:202-227 | it is so for the limbs that the other routines leave |
| FelemField.DigitsUnique | 3rd/encrypt/src/p256_ec.c:179-227 | limbs of 29 and 28 bits and the carry above them are determined by the number, so the results above are functions of numbers |
| FelemField.Diff | 3rd/encrypt/src/p256_ec.c:239-267 | difference modulo the prime, the wrap-around of in - in2 undone by zero31 |
| FelemField.Scalar3 | 3rd/encrypt/src/p256_ec.c:658-683 | three times the value |
| FelemField.Scalar4 | 3rd/encrypt/src/p256_ec.c:685-714 | four times the value, the excess bits carried before they are shifted out |
| FelemField.Scalar8 | 3rd/encrypt/src/p256_ec.c:716-745 | eight times the value for all limbs that the comment admits; the result is within its bounds if and only if Roomy holds of the number, which compares the bits of limb 7 after the shift with the carry |
| FelemField.Scalar8Breaks | 3rd/encrypt/src/p256_ec.c:716-745 | limbs that the comment admits, for which the result is not within its bounds |
| FelemField.RoomyIff | 3rd/encrypt/src/p256_ec.c:716-745 | Roomy as numbers: limb 7 after the shift and 2^25 times the carry are at most 2^29, or there is no carry |
| FelemSpread.SpreadAll | 3rd/encrypt/src/p256_ec.c:289-329 | the seventeen 64-bit words as eighteen limbs of 29 and 28 bits, same number, for all words |
| FelemReduce.EliminateHighEven | 3rd/encrypt/src/p256_ec.c:394-407 | the terms of x times the prime from 2^224 on, for an even limb, words wrapping around |
| FelemReduce.EliminateHighOdd | 3rd/encrypt/src/p256_ec.c:419-433 | the same for an odd limb |
| FelemReduce.StageNext | 3rd/encrypt/src/p256_ec.c:347-389 | the bounds of all words through the elimination, and that a word at -1 is repaid by the one below |
| FelemReduce.EliminateAll | 3rd/encrypt/src/p256_ec.c:331-434 | nine limbs become zero, same number modulo the prime, every word exact modulo 2^32 |
| FelemReduce.ReduceDegree | 3rd/encrypt/src/p256_ec.c:269-462 | for all words: the limbs as a function of the number of tmp, within the bounds; out * 2^257 is that number modulo the prime if and only if Reducible holds of it |
| FelemReduce.MultiplierUnique | 3rd/encrypt/src/p256_ec.c:331-434 | the multiple of the prime that the elimination adds is determined by the number |
| FelemReduce.ReducedIff | 3rd/encrypt/src/p256_ec.c:436-462 | cutting the quotient off at 2^260 keeps its value if and only if it was smaller |
| FelemReduce.ReducibleBelow | 3rd/encrypt/src/p256_ec.c:269-288 | every number below 2^517 - 2^513 is reducible, none from 2^517 on is |
| FelemReduce.CutAt | 3rd/encrypt/src/p256_ec.c:436-462 | Reducible as numbers: the quotient is below 2^260; in any case the limbs are those of the quotient modulo 2^260 |
| FelemReduce.ReduceDegreeBreaks | 3rd/encrypt/src/p256_ec.c:269-288 | words below 2^64, as the comment admits, that are not |
| FelemProduct.ColumnsNumber | 3rd/encrypt/src/p256_ec.c:512-584 | the seventeen words stand for the product, odd limbs counted twice |
| FelemProduct.MulColumns | 3rd/encrypt/src/p256_ec.c:512-584 | the seventeen words |
| FelemProduct.SquareColumns | 3rd/encrypt/src/p256_ec.c:464-510 | the same seventeen words as for equal factors |
| FelemProduct.Mul | 3rd/encrypt/src/p256_ec.c:512-584 | out * 2^257 is the product modulo the prime; no word overflows 64 bits; the limbs are a function of the product |
| FelemProduct.Square | 3rd/encrypt/src/p256_ec.c:464-510 | out * 2^257 is the square modulo the prime, limb for limb what Mul gives for two equal factors |
| FelemCurve.PointDouble | 3rd/encrypt/src/p256_ec.c:788-819 | the doubling formulas on the values in Montgomery form, outputs ready for another doubling, outputs may be inputs |
| FelemCurve.Inv | 3rd/encrypt/src/p256_ec.c:590-656 | out is the power with the prime less two as exponent |
| FelemMeaning.HoldsIff | 3rd/encrypt/src/p256_ec.c:35-53 | what is said of the limbs, as numbers: nine of 29 and 28 bits in turn, below twice their size, whose number is 2^257 times the value, modulo the prime |
| SharedMemoryIpc.ClientKeeps | ddm/src/ipc/shared_memory_ipc.cpp:111-131 | every step of a send keeps the single owner and what the owner may rely on |
| SharedMemoryIpc.ServerKeeps | ddm/src/ipc/shared_memory_ipc.cpp:74-104 | every step of a receive keeps it too; the size and the bytes read are those written |
| SharedMemoryIpc.OneOwner | ddm/src/ipc/shared_memory_ipc.cpp:27-131 | in every run exactly one of send event, writing client, receive event, reading server, until a call fails after its wait, and none from then on |
| SharedMemoryIpc.Delivery | ddm/src/ipc/shared_memory_ipc.cpp:74-131 | the receives are a prefix of the completed sends and miss at most the last |
| SharedMemoryIpc.RejectsIff | ddm/src/ipc/shared_memory_ipc.cpp:95-98 | the server's size check fails in some run if and only if the clients' size is larger than the server's and holds a message |
| SharedMemoryIpc.StuckIff | ddm/src/ipc/shared_memory_ipc.cpp:74-131 | no process can take a step if and only if a call has failed after its wait |
| SharedMemoryIpc.SendsAgainIff | ddm/src/ipc/shared_memory_ipc.cpp:74-131 | after any run, some continuation lets a client send again if and only if every message that a client has waited with, and the four bytes of its size, fit both sizes |
| SharedMemoryIpc.Sticks | ddm/src/ipc/shared_memory_ipc.cpp:74-131 | a message that does not fit leaves the protocol stuck after a number of steps known in advance, refused by the client or rejected by the server |
| SharedMemoryIpc.StuckInTwo | ddm/src/ipc/shared_memory_ipc.cpp:111-131 | from the start, a wait and the check of a message that is too large are enough |
| SharedMemoryIpc.ForcedOnly | ddm/src/ipc/shared_memory_ipc.cpp:74-131 | while somebody owns the buffer, the owner's step is possible and no other |
| SharedMemoryIpc.Drains | ddm/src/ipc/shared_memory_ipc.cpp:74-131 | a message that fits is received after a number of steps known in advance, and the send event is set again |
| SharedMemoryIpc.FirstDelivered | ddm/src/ipc/shared_memory_ipc.cpp:27-131 | the first message that a client waits with is received in some run if and only if it and the four bytes of its size fit the sizes of both sides |
| JsonRoundTrip.RoundTrip | 3rd/json/src/cJSON.c:418-441 | parsing what was printed, formatted or not, gives the tree back; unchanged if and only if no number that is not negative is marked as signed |
| JsonAccepted.ParseIff | 3rd/json/src/cJSON.c:418-432 | a text is accepted, with nothing undefined, if and only if it is white space and a text of the grammar of RFC 8259 with the source's extensions in which every string fits its buffer; the tree is the grammar's, and reading stops at its end |
| JsonMeaning.StandardIff | 3rd/json/src/cJSON.c:418-432 | every text of RFC 8259 is parsed; the tree says what the text stands for, numbers of any size included, if and only if its integers fit 64 bits and its exponents an int, those of zero aside, and its strings have no escape of NUL and no pair with bit 6 set in the first half |
| JsonMeaning.NumeralIff | 3rd/json/src/cJSON.c:120-168 | the same for a number by its digits, its scale and its exponent |
| JsonMeaning.IntegerIff | 3rd/json/src/cJSON.c:153-158 | the stored integer is the text's if and only if that is below 2^64, or with a minus sign at most 2^63 |
| JsonDecimals.SameIff | 3rd/json/src/cJSON.c:160-165 | two decimals are the same in lowest terms if and only if they are the same number |
| JsonExponents.ExponentBreaks | 3rd/json/src/cJSON.c:143-158 | the text 1e4294967296 is read as the integer 1 |
| JsonFailures.FailurePlace | 3rd/json/src/cJSON.c:418-786 | what stands before the place of a failure is the beginning of a text that is accepted, and with the same characters there parsing fails at the same place whatever follows, or, if that ends in a backslash, may run past the terminator before |
| JsonMeasured.Remeasured | 3rd/json/src/cJSON.c:235-237 | the strings of a value that fit their buffers fit them with any other text behind the value in which the first pass comes to an end |
| JsonGrammar.TextParsed | 3rd/json/src/cJSON.c:418-432 | every text of the grammar with the extensions is parsed as its tree if its strings fit their buffers; otherwise what happens is undefined |
| JsonGrammar.ValueRead | 3rd/json/src/cJSON.c:444-786 | the same for a value and whatever follows that is not read along, with white space, escapes and numbers in any form that is accepted |
| JsonScan.ConvertIff | 3rd/json/src/cJSON.c:265-281 | sscanf takes a number from a text if and only if it begins with white space and an item: a sign, a prefix and digits, four characters at most; the number is that of the digits, modulo 2^32 with a minus sign |
| JsonScan.ConvertFront | 3rd/json/src/cJSON.c:265-281 | what stands behind a quote, a backslash or the terminator makes no difference to it |
| JsonStrings.StringRead | 3rd/json/src/cJSON.c:222-326 | a string with any characters and escapes that are accepted is read piece by piece if it fits its buffer |
| JsonBuffers.PiecesCover | 3rd/json/src/cJSON.c:235-326 | as long as the first pass does not stop at a quote within the string, it counts as many units as the second pass writes bytes, whatever is behind the `\u` and whatever is left over in the variables |
| JsonBuffers.FitsIff | 3rd/json/src/cJSON.c:235-326 | a string fits its buffer if and only if the first pass stops at a quote within it and has counted as many units as there are bytes, or passes over it and ends behind it |
| JsonBuffers.LeavesIff | 3rd/json/src/cJSON.c:235-326 | a write leaves the buffer if and only if there is a quote in the text of the string that the first pass does not skip, and the string has more bytes than units before that quote |
| JsonBuffers.QuotePassed | 3rd/json/src/cJSON.c:235-326 | plain text, `\u` with one to three characters that are a number and then a quote, and plain text again: read if and only if the bytes of the number and of the text behind are no more than the digits and one |
| JsonBuffers.RunsPastIff | 3rd/json/src/cJSON.c:235-237 | the first pass runs past the terminator if and only if it skips the closing quote, or there is none, and then comes to the terminator with a character to skip |
| JsonBuffers.ClearFits | 3rd/json/src/cJSON.c:235-326 | a string fits its buffer if no quote and no backslash is among the four characters of an escape |
| JsonEscapes.OneEscape | 3rd/json/src/cJSON.c:264-312 | an escape in front of plain text gives the bytes of the number converted and moves on by four characters, also if the number stands behind them |
| JsonEscapes.HeldUsed | 3rd/json/src/cJSON.c:264-312 | an escape from which nothing is converted gives what is left of the code of the one before |
| JsonEscapes.OneDigitAccepted | 3rd/json/src/cJSON.c:264-312 | a string of `\u1zzz` is accepted as the character 1 |
| JsonEscapes.BufferLeft | 3rd/json/src/cJSON.c:235-326 | a text for which a write leaves the buffer |
| JsonEscapes.TextLeft | 3rd/json/src/cJSON.c:235-237 | a text for which the first pass runs past the terminator |
| JsonBuffers.StringIff | 3rd/json/src/cJSON.c:222-326 | a string of RFC 8259 is read as the characters that it stands for, in UTF-8, if and only if it has no escape of NUL and no pair of escapes with bit 6 set in the first half |
| JsonStrings.UnicodeDropped | 3rd/json/src/cJSON.c:269-274 | the escapes of NUL and of the second half of a pair are dropped |
| JsonStrings.HalfDropped | 3rd/json/src/cJSON.c:276-284 | so is the first half of a pair, and with it the escape behind it that is not a second half |
| JsonRoundTrip.Conforms | 3rd/json/src/cJSON.c:444-786 | what is printed of a tree, formatted or not, is a text of RFC 8259 that is read as what it stands for, and its tree is the one printed but for the signs |
| JsonRoundTrip.PrintedMeans | 3rd/json/src/cJSON.c:444-786 | by RFC 8259, the printed text stands for what the tree says, and the tree parsed from it says the same |
| JsonRoundTrip.ValueTrip | 3rd/json/src/cJSON.c:444-786 | the same for a value at any depth, whatever text follows it |
| JsonRoundTrip.NormalIff | 3rd/json/src/cJSON.c:120-168 | what parsing changes in a tree, and that it changes nothing exactly in a canonical one |
| JsonRoundTrip.StringTrip | 3rd/json/src/cJSON.c:222-400 | a printed string is read back, whatever follows it |
| JsonRoundTrip.IntTrip | 3rd/json/src/cJSON.c:120-218 | a printed number is read back, with the sign mark only if it is negative |
| JsonNumbers.NumberRead | 3rd/json/src/cJSON.c:119-165 | every number that is accepted, up to what is not read along, is read as the digits before and after the point, the number of those after it, and the exponent with its sign in 32 bits |
| JsonCodePoints.PairIff | 3rd/json/src/cJSON.c:275-291 | a surrogate pair gives its code point if and only if bit 6 of the first half is clear, and 0x10000 less otherwise |
| JsonCodePoints.Utf8Decodes | 3rd/json/src/cJSON.c:293-312 | the bytes written for a code point are well-formed UTF-8 and decode to it |
| JsonPrinter.PrintStringPtr | 3rd/json/src/cJSON.c:328-394 | the buffer measured in a first pass is exactly as long as the escaped string that the second pass writes, with its terminator |
| JsonPrinter.PrintIntText | 3rd/json/src/cJSON.c:187-218 | the decimal digits of any signed or unsigned number and the terminator fit the 22 bytes of the buffer |
| JsonPrinter.Print | 3rd/json/src/cJSON.c:486-786 | the text of a tree, every write within the buffers allocated for it |
| JsonLayout.StringParts | 3rd/json/src/cJSON.c:328-394 | a printed string is the quote, what its characters are printed as, one by one, and the quote |
| JsonLayout.PlainPrinted | 3rd/json/src/cJSON.c:354-357 | a character from U+0020 on, other than the quote and the backslash, is printed as itself |
| JsonLayout.ShortPrinted | 3rd/json/src/cJSON.c:360-383 | the quote, the backslash and five control characters are printed as a backslash and a letter |
| JsonLayout.ControlPrinted | 3rd/json/src/cJSON.c:384-387 | every other control character is printed as a backslash, u00 and two lowercase hexadecimal digits |
| JsonLayout.PlainText | 3rd/json/src/cJSON.c:328-394 | a text without such characters is printed as it is, between quotes |
| JsonLayout.DigitsPrinted | 3rd/json/src/cJSON.c:187-217 | a number below 2^63 is printed by its decimal digits without leading zeros |
| JsonLayout.NegativePrinted | 3rd/json/src/cJSON.c:193-203 | a number from 2^63 on that is marked as signed is printed as a minus sign and its complement |
| JsonLayout.ArrayPrinted | 3rd/json/src/cJSON.c:562-630 | an array, with a comma between its items and, only if formatted, a blank behind each comma |
| JsonLayout.ObjectPrinted | 3rd/json/src/cJSON.c:693-789 | a formatted object: a newline behind the bracket, a line for each member with one tab more than the bracket has, a colon and a tab before the value, a comma at the end of all lines but the last, and the closing bracket behind its tabs |
| JsonLayout.CompactObjectPrinted | 3rd/json/src/cJSON.c:693-789 | an object that is not formatted has colons and commas between its names and values and nothing else |
| JsonLayout.NoWhiteSpace | 3rd/json/src/cJSON.c:444-789 | a text that is not formatted has no white space outside of strings |
| JsonLayout.ExamplePrinted | 3rd/json/src/cJSON.c:444-789 | the two texts of an object with one member whose name has a blank in it |
| JsonParser.ReadString | 3rd/json/src/cJSON.c:222-326 | the string or the failure of ParseString, every write within the measured buffer; undefined exactly where the source would write past it, read past the terminator or use a variable without a value |
| JsonParser.ReadNumber | 3rd/json/src/cJSON.c:120-168 | the number parsed, with its fraction as an integer and its exponent in 32 bits |
| JsonParser.ReadText | 3rd/json/src/cJSON.c:418-432 | the parsed tree, or the place of the failure |
| JsonReading.BlanksInFront | 3rd/json/src/cJSON.c:409-431 | characters up to U+0020, other than NUL, in front of a text make no difference |
| JsonReading.WordsRead | 3rd/json/src/cJSON.c:448-463 | null, false and true are read whatever follows them |
| JsonReading.NoValue | 3rd/json/src/cJSON.c:444-483 | a text that starts like no value fails where it starts |
| JsonReading.EmptyArray | 3rd/json/src/cJSON.c:532-534 | nothing but white space between brackets is an array without items |
| JsonReading.EmptyObject | 3rd/json/src/cJSON.c:643-645 | the same for an object |
| JsonReading.TwoItems | 3rd/json/src/cJSON.c:521-560 | two items with white space wherever the grammar has it |
| JsonReading.ItemsBroken | 3rd/json/src/cJSON.c:521-560 | an item with neither a comma nor a bracket behind it fails at what is there |
| JsonReading.TwoMembers | 3rd/json/src/cJSON.c:632-691 | two members in the order of the text |
| JsonReading.MemberRead | 3rd/json/src/cJSON.c:650-660 | a name, a colon and a value with white space between them |
| JsonReading.PlainStringRead | 3rd/json/src/cJSON.c:222-325 | a string without a backslash is read as it is |
| JsonReading.EscapeIsRead | 3rd/json/src/cJSON.c:251-316 | a letter behind a backslash is the control character it stands for or, other than u, itself |
| JsonReading.UnicodeIsRead | 3rd/json/src/cJSON.c:269-311 | an escape with four digits gives the bytes of its code, and nothing if it is NUL or half a pair |
| JsonReading.PairIsParsed | 3rd/json/src/cJSON.c:269-311 | two halves of a pair give the bytes of the code they are put together to |
| JsonReading.PairIs | 3rd/json/src/cJSON.c:284 | that code, with the halves 0xD800 + h and 0xDC00 + l, is 0x400 * h + l, and 0x10000 more if bit 6 of h is clear |
| JsonReading.BytesOfCode | 3rd/json/src/cJSON.c:287-310 | the one to four bytes of a code |
| JsonReading.FractionIsRead | 3rd/json/src/cJSON.c:120-167 | a decimal with a digit behind the point is kept as its digits and the exponent -1 |
| JsonReading.ExponentIsRead | 3rd/json/src/cJSON.c:142-166 | an exponent with either letter and any sign; 0 makes no difference |
| JsonReading.ShortForms | 3rd/json/src/cJSON.c:270 | one digit, with or without a sign and a prefix, is converted to its value, a negative one modulo 2^32; a prefix alone is not converted |
| JsonReading.SixBlanks | 3rd/json/src/cJSON.c:270 | six characters are skipped in front of the number of an escape |
| JsonReading.NotConverted | 3rd/json/src/cJSON.c:270 | what starts with no sign, digit or blank is not converted |
| Sha1Rounds.ChSelect | 3rd/encrypt/src/sha.c:53-54 | the program's form of the first function is FIPS 180-4's |
| Sha1Rounds.ChOr | 3rd/encrypt/src/sha1.c:251-253 | the other program's form of it too |
| Sha1Rounds.MajFactored | 3rd/encrypt/src/sha.c:57-58 | the program's form of the third function |
| Sha1Rounds.MajOr | 3rd/encrypt/src/sha1.c:274-276 | the other program's form of it |
| Sha1Rounds.AbsorbHash | 3rd/encrypt/src/sha1.c:149-192 | absorbing a padded message byte by byte is hashing it block by block |
| Sha1Words.CompressIs | 3rd/encrypt/src/sha.c:26-74 | the compression function, computed over words of any type that stand for 32-bit words |
| BitVectors.NumSum | 3rd/encrypt/src/sha.c:52-66 | the sum of 32-bit vectors is the sum of their numbers modulo 2^32 |
| Sha1Digests.AbcDigest | 3rd/encrypt/src/sha.c:26-134 | the digest that FIPS 180 gives for "abc" |
| Sha1Digests.LettersDigest | 3rd/encrypt/src/sha.c:26-134 | the digest that FIPS 180 gives for its message of 56 bytes, which takes two blocks |
| Sha1Digests.LengthField | 3rd/encrypt/src/sha.c:111-123 | every byte of the length field, for messages of any length: the bits modulo 2^64, highest byte first |
| ShaContext.Context.Transform | 3rd/encrypt/src/sha.c:26-74 | one block in place is the compression of FIPS 180-4, section 6.1.2 |
| ShaContext.Context.Update | 3rd/encrypt/src/sha.c:95-108 | the context holds the message so far; any chunk is appended to it |
| ShaContext.Context.Final | 3rd/encrypt/src/sha.c:111-134 | the digest of the message of FIPS 180-4, section 6.1.2, with the padding of section 5.1.1 and the length modulo 2^64 |
| Sha1Context.Context.ProcessMessageBlock | 3rd/encrypt/src/sha1.c:213-307 | one block in place is the same compression |
| Sha1Context.Context.CountByte | 3rd/encrypt/src/sha1.c:169-183 | the two words count the bits, and the context is marked when they overflow |
| Sha1Context.Context.Update | 3rd/encrypt/src/sha1.c:149-192 | the context holds the message so far, or is marked if that has 2^61 bytes or more |
| Sha1Context.Context.PadMessage | 3rd/encrypt/src/sha1.c:332-377 | one block or two, depending on the index, complete the hash |
| Sha1Context.Context.Final | 3rd/encrypt/src/sha1.c:106-125 | the digest, or a failure for a marked context |
| Sha1Agreement.ShaDigest | 3rd/encrypt/src/sha.c:84-134 | the digest does not depend on how the message is cut into chunks |
| Sha1Agreement.Sha1Digest | 3rd/encrypt/src/sha1.c:73-192 | the same; it succeeds if and only if the message has fewer than 2^61 bytes |
| Sha1Agreement.Compare | 3rd/encrypt/src/sha1.c:73-377 | the two programs agree on a message, each with chunks of its own, if and only if it has fewer than 2^61 bytes |
| Rc4.MixKey | 3rd/encrypt/src/rc4.c:75-99 | the table after the loop over the key is the key schedule |
| Rc4.ScheduleKeeps | 3rd/encrypt/src/rc4.c:75-99 | the table stays a permutation |
| Rc4.TakeKeeps | 3rd/encrypt/src/rc4.c:101-122 | and while bytes are taken from it |
| Rc4.FirstExchanges | 3rd/encrypt/src/rc4.c:75-99 | for every key whose first n exchanges stay apart, what the table is after them: entry k is exchanged with the entry at the sum of the numbers and key bytes up to k |
| Rc4.KeyExchanges | 3rd/encrypt/src/rc4.c:75-99 | the same for a key of any length, whose bytes are taken again from the start when they are used up |
| Rc4.StillBytes | 3rd/encrypt/src/rc4.c:75-122 | a key of 256 bytes whose key stream begins 2, 5, 7 |
| Rc4.IdentityBytes | 3rd/encrypt/src/rc4.c:101-122 | the first three bytes from a table that no key has mixed are 2, 5 and 7 |
| Rc4.Crypt | 3rd/encrypt/src/rc4.c:101-145 | a call masks its bytes with the key stream and advances the state, unless position and length together reach 2^32: then it does nothing |
| Rc4.RunIff | 3rd/encrypt/src/rc4.c:101-145 | calls one after the other act as one call if and only if the position stays below 2^32 |
| Rc4.CodecRC4 | 3rd/sqlite3_key/src/src/codec.c:7-53 | the one-call form masks with the same key stream |
| Rc4.RoundTrip | 3rd/encrypt/src/rc4.c:75-145 | decrypting in pieces of its own what was encrypted in pieces gives the text, and the cipher text is the one-call form's |
| MessageFrames.FindNextIff | 3rd/IPC/source/ipc_win/ipc_message.cpp:275-296 | a message is found if and only if the range begins with one |
| MessageFrames.SplitJoins | 3rd/IPC/source/ipc_win/ipc_pickle.cpp:376-399 | the messages found one after the other and the rest make up the range |
| MessageFrames.SplitUnique | 3rd/IPC/source/ipc_win/ipc_pickle.cpp:376-399 | messages followed by part of one are split into just these messages and that part |
| MessageFrames.SplitConcat | 3rd/IPC/source/ipc_win/ipc_message.cpp:275-296 | a stream that arrives in two parts is split as if it had come at once |
| MessageFrames.PrefixIsPartial | 3rd/IPC/source/ipc_win/ipc_message.cpp:275-296 | no message is found in part of one, and its size is known once its header is there |
| MessageFrames.Channel.TranslateInputData | 3rd/IPC/source/ipc_win/ipc_message.cpp:275-296 | one read of the channel, in ipc_channel_pipe.cpp: what is dispatched, what is kept, and when the read is refused |
| MessageFrames.DeliveredIff | 3rd/IPC/source/ipc_win/ipc_message.cpp:275-296 | messages within the limit come out of the reads as they were sent if and only if no read starts with kept bytes that it takes over the limit; otherwise a read is refused |
| MessageFrames.ShortDelivered | 3rd/IPC/source/ipc_win/ipc_message.cpp:275-296 | messages that are shorter than the limit by the size of the read buffer always come out |
| MessageFrames.WithinLimitRefused | 3rd/IPC/source/ipc_win/ipc_message.cpp:275-296 | a message within the limit is refused if the read that completes it brings the next message along and both exceed the limit |
| MessageFrames.RefusedInReads | 3rd/IPC/source/ipc_win/ipc_message.cpp:275-296 | some reads that all fit the read buffer do so, for any two such messages of which the second is shorter than the buffer |
| MessageLimits.RunIff | 3rd/IPC/source/ipc_win/ipc_message.cpp:275-296 | for any stream of bytes, all reads are accepted if and only if each has room and no message in part is known to be over the limit; then the messages at the front of the stream are dispatched |
| MessageLimits.NeverTooLong | 3rd/IPC/source/ipc_win/ipc_message.cpp:275-296 | with reads of at most the buffer's size no message over the limit is dispatched, whatever arrives |
| MessageLimits.TooLongRefused | 3rd/IPC/source/ipc_win/ipc_message.cpp:275-296 | a read is refused, at the latest the one that completes the header of a message over the limit |
| MessageLimits.HeaderSays | 3rd/IPC/source/ipc_win/ipc_pickle.cpp:360-399 | with 24 bytes or more the size of a message is 24 and the number in its first four bytes, and it is found if it is there as a whole; with fewer it is not known |
| MessageLimits.ReceiveRefused | 3rd/IPC/source/ipc_win/ipc_message.cpp:275-296 | a read is refused if and only if it brings the bytes kept over 134217728 or leaves a message in part that is longer |
| Pickles.AlignMask | 3rd/IPC/source/ipc_win/ipc_pickle.cpp:13-15 | the mask rounds up to a multiple of the unit |
| Pickles.ItemRead | 3rd/IPC/source/ipc_win/ipc_pickle.cpp:34-203 | a record that is there is read as the value written, and the index is behind its padding |
| PickleLayout.IntLayout | 3rd/IPC/source/ipc_win/ipc_pickle.h:219-221 | a number is four bytes, the lowest first, a negative one in two's complement |
| PickleLayout.ShortLayout | 3rd/IPC/source/ipc_win/ipc_pickle.cpp:340-357 | a number of two bytes is followed by two zeros |
| PickleLayout.TextLayout | 3rd/IPC/source/ipc_win/ipc_pickle.cpp:282-297 | a string is its length, its bytes and zeros up to a multiple of four |
| PickleLayout.WideLayout | 3rd/IPC/source/ipc_win/ipc_pickle.cpp:299-305 | each wide character of a string is two bytes, the lower first |
| PickleLayout.BoolLayout | 3rd/IPC/source/ipc_win/ipc_pickle.h:216-218 | a bool is 1, 0, 0, 0 or 0, 0, 0, 0 |
| PickleLayout.WordLayout | 3rd/IPC/source/ipc_win/ipc_pickle.cpp:340-357 | a number of four bytes, the lowest first |
| PickleLayout.LongLayout | 3rd/IPC/source/ipc_win/ipc_pickle.cpp:340-357 | a number of eight bytes, the lower four first |
| PickleLayout.RawLayout | 3rd/IPC/source/ipc_win/ipc_pickle.cpp:340-357 | bytes are followed by zeros up to a multiple of four |
| PickleReads.BytesRead | 3rd/IPC/source/ipc_win/ipc_pickle.cpp:48-77 | which bytes a read of any length gives and where the next one starts: behind the zeros, or at the end; a negative length or one that goes beyond the end fails for good |
| PickleReads.FixedIs | 3rd/IPC/source/ipc_win/ipc_pickle.cpp:34-66 | a number of any width is those bytes, the lowest first |
| PickleReads.IntIs | 3rd/IPC/source/ipc_win/ipc_pickle.cpp:34-97 | an int is the four bytes, lowest first, in two's complement |
| PickleReads.BoolIs | 3rd/IPC/source/ipc_win/ipc_pickle.cpp:34-93 | a bool is read as whether its byte is not 0 |
| PickleReads.TextIs | 3rd/IPC/source/ipc_win/ipc_pickle.cpp:169-181 | a string is an int and as many bytes |
| PickleReads.WideIs | 3rd/IPC/source/ipc_win/ipc_pickle.cpp:155-167 | a wide string is an int and twice as many bytes, if that is an int, two for each character |
| PickleLayout.FailsForGood | 3rd/IPC/source/ipc_win/ipc_pickle.cpp:48-89 | after a read that fails every other fails, but of an empty item; a wide string whose size is no int is the exception |
| Pickles.RoundTripIff | 3rd/IPC/source/ipc_win/ipc_pickle.cpp:34-357 | typed values are read back in order if and only if the payload is below 2^32 bytes, and reading ends at the end of the payload |
| Pickles.ReadAllWhole | 3rd/IPC/source/ipc_win/ipc_pickle.cpp:48-89 | the read index stays a multiple of four over any reads of a payload whose size is one, successful or not |
| PickleObjects.Pickle.Resize | 3rd/IPC/source/ipc_win/ipc_pickle.cpp:315-319 | the new capacity is a multiple of 64 and what was in the block stays as far as both blocks go |
| PickleObjects.Pickle.MakeRoom | 3rd/IPC/source/ipc_win/ipc_pickle.cpp:340-351 | room for the new size: where there was too little the capacity is doubled, which beyond 4096 is rounded up to 4096 less 64, or the size needed if that is larger, and rounded up to 64 |
| PickleObjects.Pickle.WriteBytesCommon | 3rd/IPC/source/ipc_win/ipc_pickle.cpp:340-357 | the padded bytes are appended to the payload, the header's size is the new size modulo 2^32 and the rest of the header stays |
| PickleObjects.Pickle.WriteText | 3rd/IPC/source/ipc_win/ipc_pickle.cpp:282-297 | the string, of 2^32 bytes or more its remainder, is one item more, and the payload stays the encoding of the items |
| PickleObjects.Pickle.WriteWide | 3rd/IPC/source/ipc_win/ipc_pickle.cpp:299-305 | the same for a wide string |
| PickleObjects.PickleIterator.ReadText | 3rd/IPC/source/ipc_win/ipc_pickle.cpp:169-181 | the string or the failure, and the read index |
| PickleObjects.PickleIterator.ReadWideText | 3rd/IPC/source/ipc_win/ipc_pickle.cpp:155-167 | the same for a wide string; a number of characters whose size is no int leaves the index alone |
| PickleMessages.SentIff | 3rd/IPC/source/ipc_win/ipc_pickle.h:127-130 | what a pickle with a message's header sends is a message; an iterator over the pickle reads its items back if and only if the payload is below 2^32 bytes, an iterator over the received message if and only if the message's size is an int |
| PickleMessages.SentIsFramed | 3rd/IPC/source/ipc_win/ipc_pickle.h:127-130 | the bytes sent are the header and the encoded items, cut at the size modulo 2^32 |
| PickleMessages.ReopenedIff | 3rd/IPC/source/ipc_win/ipc_pickle.cpp:225-245 | the payload that a pickle over received bytes finds, and when the items are read from it |
| PickleMessages.OpenedPayload | 3rd/IPC/source/ipc_win/ipc_pickle.cpp:225-245 | the payload found over any bytes below 2^31: as many at the end as the first four bytes say, if those before them are at least one and a multiple of four, and nothing otherwise |
| PickleMessages.Conversation | 3rd/IPC/source/ipc_win/ipc_pickle.cpp:19-399 | from typed writes to typed reads: messages of items, cut into reads that have room, all arrive in order and are read back |
| XmlText.EncodeString | 3rd/xml/src/tinyxml.cpp:52-133 | the loop writes Encoded of the characters below the length as an int |
| XmlLayout.CharacterWritten | 3rd/xml/src/tinyxml.cpp:56-132 | what every character is written as, where no hexadecimal reference could start: from U+0020 on, other than five, as itself |
| XmlLayout.UnchangedText | 3rd/xml/src/tinyxml.cpp:52-133 | text without these five and without control characters is written as it is |
| XmlLayout.ReferenceCopied | 3rd/xml/src/tinyxml.cpp:60-82 | what starts like a hexadecimal reference is copied up to its semicolon, whatever is in between |
| XmlLayout.OpenReferenceCopied | 3rd/xml/src/tinyxml.cpp:60-82 | without a semicolon it is copied up to the last character, which is written like any other |
| XmlLayout.LengthWraps | 3rd/xml/src/tinyxml.cpp:56 | what is written of text from 2^31 bytes on: the length is taken as an int |
| XmlText.GetEntity | 3rd/xml/src/tinyxmlparser.cpp:438-531 | the backward loops over the digits, in 32 bits, and the search of the table |
| XmlText.ReadText | 3rd/xml/src/tinyxmlparser.cpp:574-637 | the loop up to the end tag; where it stops, also without an end tag and past the terminator |
| XmlLayout.PlainRead | 3rd/xml/src/tinyxmlparser.cpp:574-637 | text up to the end tag is read as it is; without an end tag all of it is, and there is no place behind it |
| XmlLayout.EntitiesRead | 3rd/xml/src/tinyxmlparser.cpp:43-50 | the five names are read as their characters |
| XmlLayout.StrayDropped | 3rd/xml/src/tinyxmlparser.cpp:438-531 | an ampersand that starts neither a name nor a reference is dropped |
| XmlLayout.BadDecimal | 3rd/xml/src/tinyxmlparser.cpp:478-500 | a decimal reference with anything but digits is no character, and reading ends there |
| XmlLayout.BadHex | 3rd/xml/src/tinyxmlparser.cpp:451-477 | the same for a hexadecimal reference |
| XmlLayout.FrontIgnored | 3rd/xml/src/tinyxmlparser.cpp:451-500 | a reference is read from behind its last number sign, a hexadecimal one from behind its last x |
| XmlLayout.NoDigits | 3rd/xml/src/tinyxmlparser.cpp:464-509 | a reference without digits is the character 0 |
| XmlLayout.OpenReferenceRead | 3rd/xml/src/tinyxmlparser.cpp:451-486 | a reference without a semicolon is no character |
| XmlLayout.ReadingEnds | 3rd/xml/src/tinyxmlparser.cpp:574-637 | what is no character ends the text, and there is no place behind it |
| XmlLayout.CutOff | 3rd/xml/src/tinyxmlparser.cpp:574-637 | a byte sequence that is cut off takes the reader beyond the terminator |
| XmlLayout.SequenceIsRead | 3rd/xml/src/tinyxml.h:328-362 | in UTF-8 the first byte says how many bytes are taken as one character; there are that many or the terminator is run past |
| XmlText.EscapedRead | 3rd/xml/src/tinyxmlparser.cpp:438-531 | what stands for a character is read as that character |
| XmlText.AllShrink | 3rd/xml/src/tinyxmlparser.cpp:574-637 | text with a hexadecimal reference comes out shorter if reading stops at its end, or if there is no semicolon beyond it |
| XmlText.RoundTrip | 3rd/xml/src/tinyxmlparser.cpp:574-637 | text written and read comes back, with the reader behind the end tag, if and only if it is shorter than 2^31 bytes and has no place where a hexadecimal reference could start; in UTF-8 for text whose byte sequences are whole as far as it is written |
| XmlReferences.DecimalReference | 3rd/xml/src/tinyxmlparser.cpp:476-500 | a decimal reference is the number behind its last number sign, modulo 2^32, or nothing if there is anything but digits |
| XmlReferences.HexReference | 3rd/xml/src/tinyxmlparser.cpp:450-475 | the same for a hexadecimal reference |
| XmlReferences.ByteRead | 3rd/xml/src/tinyxmlparser.cpp:502-513 | outside UTF-8 a reference is the low byte of its number, so that one below 256 is that byte; in UTF-8 it is the sequence of its code point |
| XmlReferences.CodePointRead | 3rd/xml/src/tinyxmlparser.cpp:438-513 | every code point below 2^32 is read from its decimal and from its hexadecimal reference, in either case, with any leading zeros and whatever follows |
| XmlReading.ReadIff | 3rd/xml/src/tinyxmlparser.cpp:438-637 | reading stops at the end tag, or at the end of the document, if and only if the text up to there consists of characters, entities, references and ampersands that start neither, which give nothing; it gives what they stand for |
| XmlReferences.SequenceOfCodePoint | 3rd/xml/src/tinyxmlparser.cpp:66-129 | the first byte of a code point in UTF-8 tells how many bytes it has |
| XmlReferences.SpecialsWritten | 3rd/xml/src/tinyxml.cpp:83-107 | the five characters that XML has names for are written with these names |
| XmlReferences.ControlsWritten | 3rd/xml/src/tinyxml.cpp:108-123 | a control character is written as its number in two hexadecimal digits |
| XmlText.EncodedNulFree | 3rd/xml/src/tinyxml.cpp:52-133 | written text has a NUL in it only if the text had a place where a reference could start |

## Left out

- LzwCodec.StringTable.Compress: the caller's output buffer is large enough for all codes of a call; an output buffer that fills up in the middle of a call is not modelled.
- LzwCodec.StringTable.Decompress: the same for the pixels of a call; the code that is put back when the output buffer is full is not modelled.
- LzwSession.DecompressImage: reads each block in one call; the 4096-byte output buffer of the caller in ddgif.cpp and its early end after the last pixel are not modelled.
- LZW: bit depths below 8 and failing allocations.
- ChaCha20 and Poly1305: the wiping of temporaries; the operating system's entropy and its failures.
- codec.c: key derivation, the AES and SQLCipher pages, and the MD5-based initial vector.
- p256.c: `p256_shl`, `p256_shr`, `p256_cmp` and `p256_add_d`, which add nothing to the loops modelled.
- p224_ec.c: `Contract`, `IsZero` and the point addition that depends on them; scalar multiplication.
- p256_ec.c: point addition, the precomputed table, scalar multiplication and conversions.
- Primality of the moduli: the inversions are stated as powers, not as inverses.
- SharedMemoryIpc: creation failures, time-outs (a wait that fails changes nothing), handles closed while in use.
- MessageFrames.Channel.TranslateInputData: the listener that a message is given to does not call back into the channel; the pipe itself, the hello message and the output queue are not part of this model.
- PickleObjects.Pickle.WriteText: requires that the length converted to int is not negative; for a negative one the source copies bytes beyond the string.
- PickleObjects.Pickle.WriteWide: the same for the size in bytes.
- Pickles: Reserve, copies and assignment of pickles, and pickles over read-only data that are copied and written.
- JsonNumbers.NumberRead: the sum of the digits before the exponent is exact, as it is in a long double of 64 bits below 2^64; the rounding of a shorter one is not modelled.
- JsonScan.ConvertIff: a prefix without a digit is no conversion and a negative number is taken modulo 2^32, as the C standard has it where unsigned long has 32 bits; other libraries are not modelled.
- cJSON.c: printing of doubles, lengths beyond int, failing allocations, and the routines that edit trees.
- XmlText.RoundTrip: in UTF-8, text with cut-off byte sequences, which the reader may run past; condensed white space, end tags compared without case, and the rest of the parser.
- rc4.c and sha1.c: their test programs; SHA-256, HMAC, MD5 and AES.
- Timing, random number quality and any claim about cryptographic strength.
- Wrappers of Windows services, COM, sockets, registry, hooks, logging and the user interface code.
