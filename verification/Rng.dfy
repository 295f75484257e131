/** The random byte source of 3rd/sqlite3_key/src/src/chacha20poly1305.c. The
    operating system's entropy is a stream of seeds given from outside. */
module Rng {
  import opened Bits
  import opened ChaCha20
  import opened Streams

  datatype Seed = Seed(key: seq<byte>, nonce: seq<byte>)

  predicate SeedSized(s: Seed) { |s.key| == 32 && |s.nonce| == 12 }

  type Entropy = s: Seed | SeedSized(s) witness Seed(seq(32, _ => 0), seq(12, _ => 0))

  /** The static variables of the generator, and the number of seeds used. */
  datatype State = State(seed: Entropy, buffer: seq<byte>, counter: u32, available: nat, drawn: nat)

  predicate StateSized(s: State) { |s.buffer| == 64 && s.available <= 64 }

  type Generator = s: State | StateSized(s)
    witness State(Seed(seq(32, _ => 0), seq(12, _ => 0)), seq(64, _ => 0), 0, 0, 0)

  /** An empty buffer is enciphered again; a counter at zero takes a new seed first. */
  function Refilled(f: Words -> Words, entropy: nat -> Entropy, g: Generator): (r: Generator)
    ensures r.available == 64
  {
    var h := if g.counter == 0 then g.(seed := entropy(g.drawn), drawn := g.drawn + 1) else g;
    h.(buffer := XorStream(f, InitialState(h.seed.key, h.seed.nonce, h.counter), h.buffer),
       counter := Add32(h.counter, 1), available := 64)
  }

  /** The next byte. */
  function Next(f: Words -> Words, entropy: nat -> Entropy, g: Generator): (byte, Generator) {
    var h := if g.available == 0 then Refilled(f, entropy, g) else g;
    (h.buffer[64 - h.available], h.(available := h.available - 1))
  }

  /** The next n bytes, one at a time, and the generator after them. */
  function Bytes(f: Words -> Words, entropy: nat -> Entropy, g: Generator, n: nat): (r: (seq<byte>, Generator))
    ensures |r.0| == n
  {
    Take(h => Next(f, entropy, h), g, n)
  }

  /** Asking for n1 bytes and then for n2 is asking for n1 + n2. */
  lemma BytesSplit(f: Words -> Words, entropy: nat -> Entropy, g: Generator, n1: nat, n2: nat)
    ensures var first := Bytes(f, entropy, g, n1);
      var second := Bytes(f, entropy, first.1, n2);
      Bytes(f, entropy, g, n1 + n2) == (first.0 + second.0, second.1)
  {
    TakeSplit(h => Next(f, entropy, h), g, n1, n2);
  }

  /** What is left in the buffer comes out as one piece. */
  lemma {:induction false} BytesLeft(f: Words -> Words, entropy: nat -> Entropy, g: Generator, m: nat)
    requires m <= g.available
    ensures var from := 64 - g.available;
      Bytes(f, entropy, g, m) == (g.buffer[from..from + m], g.(available := g.available - m))
    decreases m
  {
    var from := 64 - g.available;
    if m == 0 {
      assert g.buffer[from..from + m] == [];
    } else {
      var h := g.(available := g.available - 1);
      assert Next(f, entropy, g) == (g.buffer[from], h);
      BytesLeft(f, entropy, h, m - 1);
      FirstOfPiece(g.buffer, from, m);
    }
  }

  lemma FirstOfPiece(buffer: seq<byte>, from: nat, m: nat)
    requires 0 < m && from + m <= |buffer|
    ensures buffer[from..from + m] == [buffer[from]] + buffer[from + 1..from + 1 + (m - 1)]
  {
  }

  /** An empty generator is refilled before it gives a byte. */
  lemma BytesOfEmpty(f: Words -> Words, entropy: nat -> Entropy, g: Generator, n: nat)
    requires g.available == 0 && n > 0
    ensures Bytes(f, entropy, g, n) == Bytes(f, entropy, Refilled(f, entropy, g), n)
  {
    assert Next(f, entropy, g) == Next(f, entropy, Refilled(f, entropy, g));
  }

  // ---------- The output in closed form ----------

  /** Byte i of a buffer after k blocks of a seed's key stream have been XORed onto it. */
  function Masked(f: Words -> Words, seed: Entropy, b: byte, i: nat, k: nat): byte
    requires k <= 0x1_0000_0000
  {
    if k == 0 then b
    else Xor8(Masked(f, seed, b, i, k - 1), StreamByte(f, InitialState(seed.key, seed.nonce, k - 1), i))
  }

  function Refills(f: Words -> Words, entropy: nat -> Entropy, g: Generator, k: nat): Generator {
    Iterated((h: Generator) => Refilled(f, entropy, h), g, k)
  }

  lemma RefillsNext(f: Words -> Words, entropy: nat -> Entropy, g: Generator, k: nat)
    ensures Refills(f, entropy, g, k + 1) == Refilled(f, entropy, Refills(f, entropy, g, k))
  {
  }

  /** A generator whose counter is 0 draws a seed, and then the next one after 2^32 blocks. */
  lemma {:induction false} RefillsState(f: Words -> Words, entropy: nat -> Entropy, g: Generator, k: nat)
    requires g.counter == 0 && 0 < k <= 0x1_0000_0000
    ensures var r := Refills(f, entropy, g, k);
      r.seed == entropy(g.drawn) && r.drawn == g.drawn + 1 && r.counter == k % 0x1_0000_0000 && r.available == 64
    decreases k
  {
    var before := Refills(f, entropy, g, k - 1);
    if k == 1 {
      assert before == g;
    } else {
      RefillsState(f, entropy, g, k - 1);
      DivModUnique(k - 1, 0x1_0000_0000, 0, k - 1);
    }
    assert Refills(f, entropy, g, k) == Refilled(f, entropy, before);
  }

  /** Every block is XORed onto the buffer that the one before has left. */
  lemma {:induction false} RefillsByte(f: Words -> Words, entropy: nat -> Entropy, g: Generator, k: nat, i: nat)
    requires g.counter == 0 && 0 < k <= 0x1_0000_0000 && i < 64
    ensures Refills(f, entropy, g, k).buffer[i] == Masked(f, entropy(g.drawn), g.buffer[i], i, k)
    decreases k
  {
    var before := Refills(f, entropy, g, k - 1);
    if k == 1 {
      assert before == g;
    } else {
      RefillsState(f, entropy, g, k - 1);
      RefillsByte(f, entropy, g, k - 1, i);
      DivModUnique(k - 1, 0x1_0000_0000, 0, k - 1);
    }
    assert Refills(f, entropy, g, k) == Refilled(f, entropy, before);
  }

  lemma BlockOut(f: Words -> Words, entropy: nat -> Entropy, g: Generator)
    requires g.available == 0
    ensures var h := Refilled(f, entropy, g); Bytes(f, entropy, g, 64) == (h.buffer, h.(available := 0))
  {
    var h := Refilled(f, entropy, g);
    BytesOfEmpty(f, entropy, g, 64);
    BytesLeft(f, entropy, h, 64);
    assert h.buffer[0..0 + 64] == h.buffer;
  }

  /** One block more. */
  lemma NextBlockOut(f: Words -> Words, entropy: nat -> Entropy, g: Generator, n: nat, h: Generator, r: Generator)
    requires Bytes(f, entropy, g, n).1 == h.(available := 0) && r == Refilled(f, entropy, h)
    ensures Bytes(f, entropy, g, n + 64).0[n..] == r.buffer && Bytes(f, entropy, g, n + 64).1 == r.(available := 0)
  {
    BytesSplit(f, entropy, g, n, 64);
    BlockOut(f, entropy, h.(available := 0));
    assert Refilled(f, entropy, h.(available := 0)) == r;
  }

  lemma {:induction false} BlocksOut(f: Words -> Words, entropy: nat -> Entropy, g: Generator, k: nat)
    requires g.available == 0
    ensures Bytes(f, entropy, g, 64 * k).1 == Refills(f, entropy, g, k).(available := 0)
    decreases k
  {
    if k > 0 {
      var n := k - 1;
      BlocksOut(f, entropy, g, n);
      RefillsNext(f, entropy, g, n);
      NextBlockOut(f, entropy, g, 64 * n, Refills(f, entropy, g, n), Refills(f, entropy, g, n + 1));
    }
  }

  lemma LastBlockOut(f: Words -> Words, entropy: nat -> Entropy, g: Generator, k: nat, n: nat, bytes: seq<byte>)
    requires g.available == 0 && n == k + 1 && bytes == Bytes(f, entropy, g, 64 * k + 64).0
    ensures bytes[64 * k..] == Refills(f, entropy, g, n).buffer
    ensures Bytes(f, entropy, g, 64 * k + 64).1 == Refills(f, entropy, g, n).(available := 0)
  {
    BlocksOut(f, entropy, g, k);
    RefillsNext(f, entropy, g, k);
    NextBlockOut(f, entropy, g, 64 * k, Refills(f, entropy, g, k), Refills(f, entropy, g, n));
  }

  /** Byte 64 * k + i after a seed is byte i of the old buffer XORed with byte i of the blocks 0 to k of the seed's key
      stream; the seed is drawn before the first byte, and lasts for 2^32 blocks. */
  lemma OutputByte(f: Words -> Words, entropy: nat -> Entropy, g: Generator, k: nat, i: nat)
    requires g.available == 0 && g.counter == 0 && k < 0x1_0000_0000 && i < 64
    ensures var (bytes, r) := Bytes(f, entropy, g, 64 * k + 64);
      && bytes[64 * k + i] == Masked(f, entropy(g.drawn), g.buffer[i], i, k + 1)
      && r.drawn == g.drawn + 1 && (r.counter == 0 <==> k + 1 == 0x1_0000_0000)
  {
    var n, bytes := k + 1, Bytes(f, entropy, g, 64 * k + 64).0;
    LastBlockOut(f, entropy, g, k, n, bytes);
    RefillsState(f, entropy, g, n);
    RefillsByte(f, entropy, g, n, i);
    LastBlock(n);
    AtEnd(bytes, 64 * k, Refills(f, entropy, g, n).buffer, i);
  }

  lemma AtEnd(bytes: seq<byte>, from: nat, last: seq<byte>, i: nat)
    requires from <= |bytes| && bytes[from..] == last && i < |last|
    ensures bytes[from + i] == last[i]
  {
  }

  lemma LastBlock(n: nat)
    requires 0 < n <= 0x1_0000_0000
    ensures n % 0x1_0000_0000 == 0 <==> n == 0x1_0000_0000
  {
  }

  class Source {
    const entropy: nat -> Entropy
    const buffer: array<byte>
    var seed: Entropy
    var counter: u32
    var available: nat
    var drawn: nat

    ghost predicate Valid()
      reads this, buffer
    {
      buffer.Length == 64 && available <= 64
    }

    ghost function Now(): Generator
      reads this, buffer
      requires Valid()
    {
      State(seed, buffer[..], counter, available, drawn)
    }

    constructor (entropy: nat -> Entropy)
      ensures Valid() && fresh(buffer) && this.entropy == entropy
      ensures counter == 0 && available == 0 && drawn == 0 && buffer[..] == seq(64, _ => 0)
    {
      this.entropy := entropy;
      buffer := new byte[64](_ => 0);
      seed := Seed(seq(32, _ => 0), seq(12, _ => 0));
      counter, available, drawn := 0, 0, 0;
    }

    method Refill(ghost f: Words -> Words)
      requires Valid() && available == 0 && IsKeyBlock(f)
      modifies this, buffer
      ensures Valid() && Now() == Refilled(f, entropy, old(Now()))
    {
      if counter == 0 {
        seed := entropy(drawn);
        drawn := drawn + 1;
      }
      ghost var before := buffer[..];
      Cipher(buffer, 0, 64, seed.key, seed.nonce, counter, f);
      CipheredAll(before, buffer[..], 0, 64, f, InitialState(seed.key, seed.nonce, counter));
      assert before[..0] == [] && before[0..64] == before && before[64..] == [];
      counter := Add32(counter, 1);
      available := 64;
    }

    /** Writes the next n bytes to out[off..off + n]. */
    method Fill(out: array<byte>, off: nat, n: nat, ghost f: Words -> Words)
      requires Valid() && IsKeyBlock(f) && off + n <= out.Length && out != buffer
      modifies this, buffer, out
      ensures Valid()
      ensures (out[off..off + n], Now()) == Bytes(f, entropy, old(Now()), n)
      ensures out[..off] == old(out[..off]) && out[off + n..] == old(out[off + n..])
    {
      var done := 0;
      assert out[off..off + done] == [];
      while done < n
        invariant done <= n && Valid()
        invariant (out[off..off + done], Now()) == Bytes(f, entropy, old(Now()), done)
        invariant out[..off] == old(out[..off]) && out[off + n..] == old(out[off + n..])
      {
        ghost var before := Now();
        var m := Piece(out, off + done, n - done, f);
        BytesSplit(f, entropy, old(Now()), done, m);
        JoinSlices(out[..], off, done, m);
        done := done + m;
      }
    }

    method Ready(ghost f: Words -> Words)
      requires Valid() && IsKeyBlock(f)
      modifies this, buffer
      ensures Valid() && available > 0
      ensures forall n: nat :: n > 0 ==> Bytes(f, entropy, Now(), n) == Bytes(f, entropy, old(Now()), n)
    {
      if available == 0 {
        ghost var before := Now();
        Refill(f);
        forall n: nat | n > 0 ensures Bytes(f, entropy, Now(), n) == Bytes(f, entropy, before, n) {
          BytesOfEmpty(f, entropy, before, n);
        }
      }
    }

    /** One round of the loop: what the buffer holds, up to n bytes. */
    method Piece(out: array<byte>, off: nat, n: nat, ghost f: Words -> Words) returns (m: nat)
      requires Valid() && IsKeyBlock(f) && 0 < n && off + n <= out.Length && out != buffer
      modifies this, buffer, out
      ensures Valid() && 0 < m <= n
      ensures (out[off..off + m], Now()) == Bytes(f, entropy, old(Now()), m)
      ensures out[..off] == old(out[..off]) && out[off + m..] == old(out[off + m..])
    {
      Ready(f);
      m := Min(available, n);
      BytesLeft(f, entropy, Now(), m);
      Copy(buffer, 64 - available, out, off, m);
      available := available - m;
    }
  }

  lemma JoinSlices(s: seq<byte>, off: nat, m: nat, n: nat)
    requires off + m + n <= |s|
    ensures s[off..off + (m + n)] == s[off..off + m] + s[off + m..off + m + n]
  {
  }

  /** memcpy of n bytes */
  method Copy(from: array<byte>, i: nat, to: array<byte>, j: nat, n: nat)
    requires from != to && i + n <= from.Length && j + n <= to.Length
    modifies to
    ensures to[j..j + n] == from[i..i + n] && to[..j] == old(to[..j]) && to[j + n..] == old(to[j + n..])
  {
    for k := 0 to n
      invariant to[..j] == old(to[..j]) && to[j + n..] == old(to[j + n..])
      invariant to[j..j + k] == from[i..i + k]
    {
      to[j + k] := from[i + k];
    }
  }
}
