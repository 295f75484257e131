/** The ChaCha20 stream cipher of 3rd/sqlite3_key/src/src/chacha20poly1305.c (RFC 8439, sections 2.1 to 2.4). */
module ChaCha20 {
  import opened Bits
  import opened Memory

  type Words = s: seq<u32> | |s| == 16 witness seq(16, _ => 0)

  // ---------- Block function ----------

  /** x[a] += x[b]; x[d] = (x[d] ^ x[a]) <<< r */
  function AddXorRotate(x: Words, a: nat, b: nat, d: nat, r: nat): Words
    requires a < 16 && b < 16 && d < 16 && 0 < r < 32
  {
    var y := x[a := Add32(x[a], x[b])];
    y[d := Rotl(Xor32(y[d], y[a]), r)]
  }

  function QuarterRound(x: Words, a: nat, b: nat, c: nat, d: nat): Words
    requires a < 16 && b < 16 && c < 16 && d < 16
  {
    AddXorRotate(AddXorRotate(AddXorRotate(AddXorRotate(x, a, b, d, 16), c, d, b, 12), a, b, d, 8), c, d, b, 7)
  }

  function DoubleRound(x: Words): Words {
    var x := QuarterRound(x, 0, 4, 8, 12);
    var x := QuarterRound(x, 1, 5, 9, 13);
    var x := QuarterRound(x, 2, 6, 10, 14);
    var x := QuarterRound(x, 3, 7, 11, 15);
    var x := QuarterRound(x, 0, 5, 10, 15);
    var x := QuarterRound(x, 1, 6, 11, 12);
    var x := QuarterRound(x, 2, 7, 8, 13);
    QuarterRound(x, 3, 4, 9, 14)
  }

  /** n steps f from s on. */
  function Iterated<S>(f: S -> S, s: S, n: nat): S
    decreases n, s
  {
    if n == 0 then s else f(Iterated(f, s, n - 1))
  }

  function Rounds(x: Words, n: nat): Words { Iterated(DoubleRound, x, n) }

  method QuarterRoundInPlace(x: array<u32>, a: nat, b: nat, c: nat, d: nat)
    requires x.Length == 16 && a < 16 && b < 16 && c < 16 && d < 16
    modifies x
    ensures x[..] == QuarterRound(old(x[..]), a, b, c, d)
  {
    StepInPlace(x, a, b, d, 16);
    StepInPlace(x, c, d, b, 12);
    StepInPlace(x, a, b, d, 8);
    StepInPlace(x, c, d, b, 7);
  }

  method StepInPlace(x: array<u32>, a: nat, b: nat, d: nat, r: nat)
    requires x.Length == 16 && a < 16 && b < 16 && d < 16 && 0 < r < 32
    modifies x
    ensures x[..] == AddXorRotate(old(x[..]), a, b, d, r)
  {
    x[a] := Add32(x[a], x[b]);
    x[d] := Xor32(x[d], x[a]);
    x[d] := Rotl(x[d], r);
  }

  method Block(x: array<u32>)
    requires x.Length == 16
    modifies x
    ensures x[..] == Rounds(old(x[..]), 10)
  {
    for i := 0 to 10
      invariant x[..] == Rounds(old(x[..]), i)
    {
      QuarterRoundInPlace(x, 0, 4, 8, 12);
      QuarterRoundInPlace(x, 1, 5, 9, 13);
      QuarterRoundInPlace(x, 2, 6, 10, 14);
      QuarterRoundInPlace(x, 3, 7, 11, 15);
      QuarterRoundInPlace(x, 0, 5, 10, 15);
      QuarterRoundInPlace(x, 1, 6, 11, 12);
      QuarterRoundInPlace(x, 2, 7, 8, 13);
      QuarterRoundInPlace(x, 3, 4, 9, 14);
    }
  }

  // ---------- Key stream ----------

  function InitialState(key: seq<byte>, nonce: seq<byte>, counter: u32): Words
    requires |key| >= 32 && |nonce| >= 12
  {
    [0x61707865, 0x3320646e, 0x79622d32, 0x6b206574,
     Load32(key, 0), Load32(key, 4), Load32(key, 8), Load32(key, 12),
     Load32(key, 16), Load32(key, 20), Load32(key, 24), Load32(key, 28),
     counter, Load32(nonce, 0), Load32(nonce, 4), Load32(nonce, 8)]
  }

  function AddWords(x: Words, y: Words): Words {
    seq(16, i requires 0 <= i < 16 => Add32(x[i], y[i]))
  }

  /** The key stream block of a state. */
  function KeyBlock(s: Words): Words { AddWords(Rounds(s, 10), s) }

  /** The state k blocks later; the block counter wraps around. */
  function Advance(s: Words, k: nat): Words {
    s[12 := (s[12] + k) % 0x1_0000_0000]
  }

  // What follows holds of any block function f in place of KeyBlock.

  /** Byte i of a block of words. */
  function BlockByte(words: Words, i: nat): byte
    requires i < 64
  {
    WordByte(words[i / 4], i % 4)
  }

  lemma BlockByteAt(words: Words, i: nat, k: nat)
    requires i < 16 && k < 4
    ensures BlockByte(words, 4 * i + k) == WordByte(words[i], k)
  {
    DivModUnique(4 * i + k, 4, i, k);
  }

  /** Byte i of the key stream that starts at state s. */
  function StreamByte(f: Words -> Words, s: Words, i: nat): byte {
    BlockByte(f(Advance(s, i / 64)), i % 64)
  }

  function XorStream(f: Words -> Words, s: Words, data: seq<byte>): (r: seq<byte>)
    ensures |r| == |data|
  {
    seq(|data|, i requires 0 <= i < |data| => Xor8(data[i], StreamByte(f, s, i)))
  }

  /** Block k of the key stream is the one for the counter k further on. */
  lemma BlockAt(key: seq<byte>, nonce: seq<byte>, counter: u32, k: nat)
    requires |key| >= 32 && |nonce| >= 12
    ensures Advance(InitialState(key, nonce, counter), k) == InitialState(key, nonce, (counter + k) % 0x1_0000_0000)
  {
  }

  /** Section 2.4 of RFC 8439: byte i is masked with byte i % 64 of the block for the counter i / 64 further on. */
  lemma MaskedByBlocks(f: Words -> Words, key: seq<byte>, nonce: seq<byte>, counter: u32, data: seq<byte>, i: nat)
    requires |key| >= 32 && |nonce| >= 12 && i < |data|
    ensures XorStream(f, InitialState(key, nonce, counter), data)[i]
      == Xor8(data[i], BlockByte(f(InitialState(key, nonce, (counter + i / 64) % 0x1_0000_0000)), i % 64))
  {
    BlockAt(key, nonce, counter, i / 64);
  }

  /** No two of 2^32 successive blocks are made from the same state. */
  lemma BlocksDiffer(s: Words, j: nat, k: nat)
    requires j < k < j + 0x1_0000_0000
    ensures Advance(s, j) != Advance(s, k)
  {
    var m, a, b := 0x1_0000_0000, s[12] + j, s[12] + k;
    assert Advance(s, j)[12] == a % m && Advance(s, k)[12] == b % m;
    SameLow(a, b, m);
  }

  lemma SameLow(a: nat, b: nat, m: nat)
    requires a < b < a + m
    ensures a % m != b % m
  {
    var q := a / m;
    assert a == q * m + a % m;
    if a % m + (b - a) < m {
      DivModUnique(b, m, q, a % m + (b - a));
    } else {
      DivModUnique(b, m, q + 1, a % m + (b - a) - m);
    }
  }

  /** Applying the cipher twice restores the data. */
  lemma XorStreamTwice(f: Words -> Words, s: Words, data: seq<byte>)
    ensures XorStream(f, s, XorStream(f, s, data)) == data
  {
    forall i | 0 <= i < |data| ensures XorStream(f, s, XorStream(f, s, data))[i] == data[i] {
      XorTwice(data[i], StreamByte(f, s, i));
    }
  }

  /** The cipher may be applied piecewise, cutting after k whole blocks. */
  lemma XorStreamSplit(f: Words -> Words, s: Words, a: seq<byte>, b: seq<byte>, k: nat)
    requires |a| == 64 * k
    ensures XorStream(f, s, a + b) == XorStream(f, s, a) + XorStream(f, Advance(s, k), b)
  {
    var left, right := XorStream(f, s, a + b), XorStream(f, s, a) + XorStream(f, Advance(s, k), b);
    forall i | 0 <= i < |a| + |b| ensures left[i] == right[i] {
      if i >= |a| {
        StreamByteLater(f, s, k, i - |a|);
      }
    }
  }

  lemma StreamByteLater(f: Words -> Words, s: Words, k: nat, i: nat)
    ensures StreamByte(f, s, 64 * k + i) == StreamByte(f, Advance(s, k), i)
  {
    DivModUnique(64 * k + i, 64, k + i / 64, i % 64);
    AdvanceTwice(s, k, i / 64);
  }

  lemma AdvanceTwice(s: Words, k: nat, l: nat)
    ensures Advance(Advance(s, k), l) == Advance(s, k + l)
  {
    var m := 0x1_0000_0000;
    var x := s[12] + k;
    DivModUnique(x + l, m, (x % m + l) / m + x / m, (x % m + l) % m);
  }

  lemma XorWord(w: u32, b0: byte, b1: byte, b2: byte, b3: byte)
    ensures var v := Xor32(w, Word(b0, b1, b2, b3));
      && WordByte(v, 0) == Xor8(b0, WordByte(w, 0)) && WordByte(v, 1) == Xor8(b1, WordByte(w, 1))
      && WordByte(v, 2) == Xor8(b2, WordByte(w, 2)) && WordByte(v, 3) == Xor8(b3, WordByte(w, 3))
  {
    WordOfBytes(w);
    XorWords(WordByte(w, 0), WordByte(w, 1), WordByte(w, 2), WordByte(w, 3), b0, b1, b2, b3);
    BytesOfWord(Xor8(b0, WordByte(w, 0)), Xor8(b1, WordByte(w, 1)), Xor8(b2, WordByte(w, 2)), Xor8(b3, WordByte(w, 3)));
  }

  lemma XorWords(w0: byte, w1: byte, w2: byte, w3: byte, b0: byte, b1: byte, b2: byte, b3: byte)
    ensures Xor(Word(w0, w1, w2, w3), Word(b0, b1, b2, b3))
         == Word(Xor8(b0, w0), Xor8(b1, w1), Xor8(b2, w2), Xor8(b3, w3))
  {
    var x3: int, y3: int := w3, b3;
    var x2: int, y2: int := w2 + 0x100 * x3, b2 + 0x100 * y3;
    var x1: int, y1: int := w1 + 0x100 * x2, b1 + 0x100 * y2;
    XorBytes(w0, b0, x1, y1);
    XorBytes(w1, b1, x2, y2);
    XorBytes(w2, b2, x3, y3);
    XorComm(w3, b3);
    assert Word(w0, w1, w2, w3) == w0 + 0x100 * x1 && Word(b0, b1, b2, b3) == b0 + 0x100 * y1;
  }

  lemma XorBytes(x: byte, y: byte, u: nat, v: nat)
    ensures Xor(x + 0x100 * u, y + 0x100 * v) == Xor8(y, x) + 0x100 * Xor(u, v)
  {
    assert Pow2(8) == 256;
    XorConcat(x, u, y, v, 8);
    XorComm(x, y);
  }

  // ---------- The cipher in place ----------

  /** f is the key stream block function. The methods below take it as a parameter. */
  ghost predicate IsKeyBlock(f: Words -> Words) {
    forall s :: Agrees(f, s)
  }

  ghost predicate Agrees(f: Words -> Words, s: Words) { f(s) == KeyBlock(s) }

  lemma KeyBlockAgrees()
    ensures IsKeyBlock(KeyBlock)
  {
    forall s ensures Agrees(KeyBlock, s) {
    }
  }

  /** Adding two states gives a key stream block. */
  ghost predicate AddsTo(key: Words, x: seq<u32>, y: seq<u32>) {
    |x| == |y| == 16 && forall i :: 0 <= i < 16 ==> key[i] == Add32(x[i], y[i])
  }

  lemma AddWordsAdds(x: Words, y: Words)
    ensures AddsTo(AddWords(x, y), x, y)
  {
  }

  lemma KeyBlockAdds(f: Words -> Words, s: Words, mixed: Words)
    requires IsKeyBlock(f) && mixed == Rounds(s, 10)
    ensures AddsTo(f(s), mixed, s)
  {
    AddWordsAdds(mixed, s);
    assert Agrees(f, s);
  }

  /** Bytes off..off+n of a buffer have been XORed with the first n key stream bytes. */
  ghost predicate Ciphered(before: seq<byte>, after: seq<byte>, off: nat, n: nat, f: Words -> Words, s: Words) {
    off + n <= |before| == |after|
    && forall j :: 0 <= j < |before| ==>
         after[j] == if off <= j < off + n then Xor8(before[j], StreamByte(f, s, j - off)) else before[j]
  }

  /** Bytes off..off+n of a buffer have been XORed with the first n bytes of a block. */
  ghost predicate Masked(before: seq<byte>, after: seq<byte>, off: nat, n: nat, key: Words) {
    n <= 64 && off + n <= |before| == |after|
    && forall j :: 0 <= j < |before| ==>
         after[j] == if off <= j < off + n then Xor8(before[j], BlockByte(key, j - off)) else before[j]
  }

  lemma CipheredAll(before: seq<byte>, after: seq<byte>, off: nat, n: nat, f: Words -> Words, s: Words)
    requires Ciphered(before, after, off, n, f, s)
    ensures after == before[..off] + XorStream(f, s, before[off..off + n]) + before[off + n..]
  {
  }

  /** Masking with the next block extends the ciphered part. */
  lemma CipheredBlock(b0: seq<byte>, b1: seq<byte>, b2: seq<byte>, off: nat, k: nat, n: nat,
                      f: Words -> Words, s: Words,
                      key: Words)
    requires Ciphered(b0, b1, off, 64 * k, f, s) && key == f(Advance(s, k)) && Masked(b1, b2, off + 64 * k, n, key)
    ensures Ciphered(b0, b2, off, 64 * k + n, f, s)
  {
    forall j | 0 <= j < |b0|
      ensures b2[j] == if off <= j < off + 64 * k + n then Xor8(b0[j], StreamByte(f, s, j - off)) else b0[j]
    {
      if off + 64 * k <= j < off + 64 * k + n {
        var i := j - off - 64 * k;
        DivModUnique(j - off, 64, k, i);
      }
    }
  }

  method CopyWords(from: array<u32>) returns (words: array<u32>)
    requires from.Length == 16
    ensures fresh(words) && words.Length == 16 && words[..] == from[..]
  {
    words := new u32[16];
    for i := 0 to 16
      invariant words[..i] == from[..i]
    {
      words[i] := from[i];
    }
  }

  /** Four bytes of the word path. */
  method MaskWord(buf: array<byte>, p: nat, words: array<u32>, i: nat)
    requires words.Length == 16 && i < 16 && p + 4 <= buf.Length
    modifies buf, words
    ensures forall j :: 0 <= j < 16 && j != i ==> words[j] == old(words[j])
    ensures forall j :: 0 <= j < buf.Length ==>
      buf[j] == if p <= j < p + 4 then Xor8(old(buf[j]), WordByte(old(words[i]), j - p)) else old(buf[j])
  {
    XorWord(words[i], buf[p], buf[p + 1], buf[p + 2], buf[p + 3]);
    words[i] := Xor32(words[i], Load32(buf[..], p));
    Store32(buf, p, words[i]);
  }

  /** Sixteen words of the word path: add the state, XOR with the buffer, store. */
  method MaskWords(buf: array<byte>, off: nat, words: array<u32>, state: array<u32>, ghost key: Words)
    requires words.Length == state.Length == 16 && off + 64 <= buf.Length && words != state
    requires AddsTo(key, words[..], state[..])
    modifies buf, words
    ensures Masked(old(buf[..]), buf[..], off, 64, key)
  {
    ghost var before := buf[..];
    for i := 0 to 16
      invariant state[..] == old(state[..])
      invariant forall j :: i <= j < 16 ==> words[j] == old(words[j])
      invariant Masked(before, buf[..], off, 4 * i, key)
    {
      ghost var middle := buf[..];
      words[i] := Add32(words[i], state[i]);
      MaskWord(buf, off + 4 * i, words, i);
      MaskedWord(before, middle, buf[..], off, i, key);
    }
  }

  lemma MaskedWord(b0: seq<byte>, b1: seq<byte>, b2: seq<byte>, off: nat, i: nat, key: Words)
    requires i < 16 && off + 64 <= |b0| && |b2| == |b0| && Masked(b0, b1, off, 4 * i, key)
    requires forall j :: 0 <= j < |b1| ==>
      b2[j] == if off + 4 * i <= j < off + 4 * i + 4 then Xor8(b1[j], WordByte(key[i], j - (off + 4 * i))) else b1[j]
    ensures Masked(b0, b2, off, 4 * (i + 1), key)
  {
    forall j | 0 <= j < |b0|
      ensures b2[j] == if off <= j < off + 4 * (i + 1) then Xor8(b0[j], BlockByte(key, j - off)) else b0[j]
    {
      if off + 4 * i <= j < off + 4 * i + 4 {
        BlockByteAt(key, i, j - off - 4 * i);
      }
    }
  }

  /** The word path: a whole block, four bytes at a time. */
  method XorBlock(buf: array<byte>, off: nat, state: array<u32>, ghost f: Words -> Words)
    requires state.Length == 16 && off + 64 <= buf.Length && IsKeyBlock(f)
    modifies buf
    ensures Masked(old(buf[..]), buf[..], off, 64, f(state[..]))
  {
    var words := CopyWords(state);
    Mix(words, state, f);
    MaskWords(buf, off, words, state, f(state[..]));
  }

  method Mix(words: array<u32>, state: array<u32>, ghost f: Words -> Words)
    requires words.Length == state.Length == 16 && words != state && words[..] == state[..] && IsKeyBlock(f)
    modifies words
    ensures AddsTo(f(state[..]), words[..], state[..])
  {
    Block(words);
    KeyBlockAdds(f, state[..], words[..]);
  }

  /** The words in memory order. */
  method StoreWords(bytes: array<byte>, state: array<u32>, words: array<u32>, ghost key: Words)
    requires words.Length == state.Length == 16 && bytes.Length == 64 && words != state
    requires AddsTo(key, state[..], words[..])
    modifies bytes, state
    ensures forall j :: 0 <= j < 64 ==> bytes[j] == BlockByte(key, j)
  {
    for i := 0 to 16
      invariant words[..] == old(words[..])
      invariant forall j :: i <= j < 16 ==> state[j] == old(state[j])
      invariant forall j :: 0 <= j < 4 * i ==> bytes[j] == BlockByte(key, j)
    {
      state[i] := Add32(state[i], words[i]);
      Store32(bytes, 4 * i, state[i]);
      forall j | 4 * i <= j < 4 * i + 4 ensures bytes[j] == BlockByte(key, j) {
        BlockByteAt(key, i, j - 4 * i);
      }
    }
  }

  /** The tail path: up to a block, byte by byte. */
  method XorTail(buf: array<byte>, off: nat, n: nat, state: array<u32>, ghost f: Words -> Words)
    requires state.Length == 16 && n <= 64 && off + n <= buf.Length && IsKeyBlock(f)
    modifies buf, state
    ensures Masked(old(buf[..]), buf[..], off, n, f(old(state[..])))
  {
    ghost var key := f(state[..]);
    var words := CopyWords(state);
    Mix(state, words, f);
    var bytes := new byte[64];
    StoreWords(bytes, state, words, key);
    MaskBytes(buf, off, n, bytes, key);
  }

  method MaskBytes(buf: array<byte>, off: nat, n: nat, bytes: array<byte>, ghost key: Words)
    requires bytes.Length == 64 && bytes != buf && n <= 64 && off + n <= buf.Length
    requires forall j :: 0 <= j < 64 ==> bytes[j] == BlockByte(key, j)
    modifies buf
    ensures Masked(old(buf[..]), buf[..], off, n, key)
  {
    for i := 0 to n
      invariant Masked(old(buf[..]), buf[..], off, i, key)
    {
      buf[off + i] := Xor8(buf[off + i], bytes[i]);
    }
  }

  method LoadState(key: seq<byte>, nonce: seq<byte>, counter: u32) returns (state: array<u32>)
    requires |key| >= 32 && |nonce| >= 12
    ensures fresh(state) && state.Length == 16 && state[..] == InitialState(key, nonce, counter)
  {
    state := new u32[16];
    state[0], state[1], state[2], state[3] := 0x61707865, 0x3320646e, 0x79622d32, 0x6b206574;
    state[4], state[5], state[6], state[7] := Load32(key, 0), Load32(key, 4), Load32(key, 8), Load32(key, 12);
    state[8], state[9], state[10], state[11] := Load32(key, 16), Load32(key, 20), Load32(key, 24), Load32(key, 28);
    state[12] := counter;
    state[13], state[14], state[15] := Load32(nonce, 0), Load32(nonce, 4), Load32(nonce, 8);
  }

  method Cipher(buf: array<byte>, off: nat, n: nat, key: seq<byte>, nonce: seq<byte>, counter: u32,
                ghost f: Words -> Words)
    requires |key| >= 32 && |nonce| >= 12 && off + n <= buf.Length && IsKeyBlock(f)
    modifies buf
    ensures Ciphered(old(buf[..]), buf[..], off, n, f, InitialState(key, nonce, counter))
  {
    var state := LoadState(key, nonce, counter);
    CipherBlocks(buf, off, n, state, InitialState(key, nonce, counter), f);
  }

  /** The block loop; the state's counter wraps around. */
  method CipherBlocks(buf: array<byte>, off: nat, n: nat, state: array<u32>, ghost s: Words, ghost f: Words -> Words)
    requires off + n <= buf.Length && state.Length == 16 && state[..] == s && IsKeyBlock(f)
    modifies buf, state
    ensures Ciphered(old(buf[..]), buf[..], off, n, f, s)
  {
    ghost var before := buf[..];
    var left, done := n, 0;
    assert Advance(s, 0) == s;
    while left > 64
      invariant left + 64 * done == n && state[..] == Advance(s, done)
      invariant Ciphered(before, buf[..], off, 64 * done, f, s)
    {
      CipherStep(buf, off, done, state, before, s, f);
      left, done := left - 64, done + 1;
    }
    ghost var middle := buf[..];
    XorTail(buf, off + 64 * done, left, state, f);
    CipheredBlock(before, middle, buf[..], off, done, left, f, s, f(Advance(s, done)));
  }

  method CipherStep(buf: array<byte>, off: nat, k: nat, state: array<u32>, ghost before: seq<byte>, ghost s: Words,
                    ghost f: Words -> Words)
    requires off + 64 * k + 64 <= buf.Length && state.Length == 16 && state[..] == Advance(s, k) && IsKeyBlock(f)
    requires Ciphered(before, buf[..], off, 64 * k, f, s)
    modifies buf, state
    ensures state[..] == Advance(s, k + 1) && Ciphered(before, buf[..], off, 64 * (k + 1), f, s)
  {
    ghost var middle := buf[..];
    XorBlock(buf, off + 64 * k, state, f);
    CipheredBlock(before, middle, buf[..], off, k, 64, f, s, f(Advance(s, k)));
    AdvanceTwice(s, k, 1);
    state[12] := Add32(state[12], 1);
  }
}
