/** RC4 as in 3rd/encrypt/src/rc4.c, call by call, and as in CodecRC4 of
    3rd/sqlite3_key/src/src/codec.c, in one call. */
module Rc4 {
  import opened Bits
  import opened Streams

  function Sum8(x: nat, y: nat): byte { (x + y) % 256 }

  type Box = s: seq<byte> | |s| == 256 witness seq(256, _ => 0)

  function Swap(s: Box, i: byte, j: byte): Box { s[i := s[j]][j := s[i]] }

  /** What the next byte of the key stream depends on. */
  datatype State = State(s: Box, i: byte, t: byte)

  function Next(st: State): (byte, State) {
    var t := Sum8(st.t, st.s[st.i]);
    var s := Swap(st.s, st.i, t);
    (s[Sum8(s[st.i], s[t])], State(s, Sum8(st.i, 1), t))
  }

  function Identity(): Box { seq(256, i requires 0 <= i < 256 => i) }

  /** The key repeated, a byte for every entry of the box. */
  function Repeated(key: seq<byte>): (ks: seq<byte>)
    requires key != []
    ensures |ks| == 256
  {
    seq(256, i requires 0 <= i < 256 => key[i % |key|])
  }

  datatype Mixed = Mixed(s: Box, t: byte)

  /** The box after as many swaps as there are key bytes. */
  function Schedule(ks: seq<byte>): Mixed
    requires |ks| <= 256
  {
    if ks == [] then Mixed(Identity(), 0) else
      var n := |ks| - 1;
      var before := Schedule(ks[..n]);
      var t := Sum8(Sum8(before.t, before.s[n]), ks[n]);
      Mixed(Swap(before.s, n, t), t)
  }

  function Start(key: seq<byte>): State
    requires key != []
  {
    State(Schedule(Repeated(key)).s, 1, 0)
  }

  // ---------- The box stays a permutation ----------

  /** All entries differ, so every byte is an entry. */
  ghost predicate Permutation(s: Box) { forall i, j :: 0 <= i < j < 256 ==> s[i] != s[j] }

  lemma SwapKeeps(s: Box, i: byte, j: byte)
    requires Permutation(s)
    ensures Permutation(Swap(s, i, j)) && multiset(Swap(s, i, j)) == multiset(s)
  {
  }

  lemma {:induction false} ScheduleKeeps(ks: seq<byte>)
    requires |ks| <= 256
    ensures Permutation(Schedule(ks).s)
  {
    if ks != [] {
      var n := |ks| - 1;
      ScheduleKeeps(ks[..n]);
      SwapKeeps(Schedule(ks[..n]).s, n, Schedule(ks).t);
    }
  }

  /** In every state that is reached the box is a permutation. */
  lemma {:induction false} TakeKeeps(st: State, n: nat)
    requires Permutation(st.s)
    ensures Permutation(Take(Next, st, n).1.s)
    decreases n
  {
    if n > 0 {
      SwapKeeps(st.s, st.i, Sum8(st.t, st.s[st.i]));
      TakeKeeps(Next(st).1, n - 1);
    }
  }

  // ---------- The key stream byte ----------

  /** After an exchange of two entries, the byte is the entry whose index is their sum, and nothing else moved. */
  lemma NextByte(st: State)
    ensures var (k, st') := Next(st);
      && st'.i == (st.i + 1) % 256 && st'.t == (st.t + st.s[st.i]) % 256
      && st'.s[st.i] == st.s[st'.t] && st'.s[st'.t] == st.s[st.i]
      && (forall x :: 0 <= x < 256 && x != st.i && x != st'.t ==> st'.s[x] == st.s[x])
      && st'.s[Sum8(st'.s[st.i], st'.s[st'.t])] == k
  {
  }

  /** A step by the entries that it looks at. */
  lemma StepIs(st: State, t: byte, a: byte, b: byte, c: byte, k: byte)
    requires st.s[st.i] == a && (st.t + a) % 256 == t && st.s[t] == b && (a + b) % 256 == c
    requires c != st.i && c != t && st.s[c] == k
    ensures var (k', st') := Next(st);
      && k' == k && st'.i == (st.i + 1) % 256 && st'.t == t && st'.s[st.i] == b && st'.s[t] == a
      && forall x :: 0 <= x < 256 && x != st.i && x != t ==> st'.s[x] == st.s[x]
  {
    NextByte(st);
  }

  lemma ThreeBytes(st: State, n: nat, k1: byte, k2: byte, k3: byte)
    requires n == 3 && Next(st).0 == k1 && Next(Next(st).1).0 == k2 && Next(Next(Next(st).1).1).0 == k3
    ensures Take(Next, st, n).0 == [k1, k2, k3]
  {
    var st1, st2 := Next(st).1, Next(Next(st).1).1;
    assert Take(Next, st2, n - 2).0 == [k3] + [];
    assert Take(Next, st1, n - 1).0 == [k2] + [k3];
    assert Take(Next, st, n).0 == [k1] + [k2, k3];
  }

  /** The first three bytes from the box that no key has mixed. */
  lemma IdentityBytes()
    ensures Take(Next, State(Identity(), 1, 0), 3).0 == [2, 5, 7]
  {
    var st := State(Identity(), 1, 0);
    StepIs(st, 1, 1, 1, 2, 2);
    StepIs(Next(st).1, 3, 2, 3, 5, 5);
    StepIs(Next(Next(st).1).1, 5, 2, 5, 7, 7);
    ThreeBytes(st, 3, 2, 5, 7);
  }

  // ---------- The key schedule ----------

  /** The entries that the first n exchanges reach, before they are taken modulo 256, if every one of them finds its
      own number in its place. */
  function Reached(ks: seq<byte>, n: nat): nat
    requires n <= |ks|
  {
    if n == 0 then 0 else Reached(ks, n - 1) + (n - 1) + ks[n - 1]
  }

  /** None of the first n exchanges goes where another one has been. */
  ghost predicate Apart(to: nat -> byte, n: nat) {
    && (forall k: nat | k < n :: n <= to(k))
    && forall i: nat, k: nat | i < k < n :: to(i) != to(k)
  }

  /** The first n entries have changed places with the entries they went to, and no other has moved. */
  ghost predicate Exchanged(s: Box, to: nat -> byte, n: nat)
    requires n <= 256
  {
    && (forall k: nat | k < n :: s[k] == to(k) && s[to(k)] == k)
    && forall x: nat | n <= x < 256 :: Free(to, x, n) ==> s[x] == x
  }

  ghost predicate Free(to: nat -> byte, x: nat, n: nat) { forall k: nat | k < n :: x != to(k) }

  lemma Exchange(s: Box, to: nat -> byte, m: nat)
    requires m < 256 && Exchanged(s, to, m) && Apart(to, m + 1)
    ensures s[m] == m && Exchanged(Swap(s, m, to(m)), to, m + 1)
  {
    assert m + 1 <= to(m);
    assert Free(to, m, m) && Free(to, to(m), m);
    assert s[m] == m && s[to(m)] == to(m);
    var r := Swap(s, m, to(m));
    forall k: nat | k < m + 1 ensures r[k] == to(k) && r[to(k)] == k {
      assert m + 1 <= to(k);
    }
    forall x: nat | m + 1 <= x < 256 && Free(to, x, m + 1) ensures r[x] == x {
      assert Free(to, x, m) && x != to(m);
    }
  }

  lemma SumsModulo(x: nat, y: nat, z: nat)
    ensures ((x % 256 + y) % 256 + z) % 256 == (x + y + z) % 256
  {
  }

  lemma NextExchange(b: Mixed, to: nat -> byte, m: nat, x: nat, k: byte)
    requires m < 256 && Exchanged(b.s, to, m) && Apart(to, m + 1) && b.t == x % 256 && to(m) == (x + m + k) % 256
    ensures var t := Sum8(Sum8(b.t, b.s[m]), k); t == to(m) && Exchanged(Swap(b.s, m, t), to, m + 1)
  {
    Exchange(b.s, to, m);
    SumsModulo(x, m, k);
  }

  ghost predicate Follows(ks: seq<byte>, to: nat -> byte, n: nat)
    requires n <= |ks|
  {
    forall k: nat | k < n :: to(k) == Reached(ks, k + 1) % 256
  }

  lemma Shorter(ks: seq<byte>, to: nat -> byte, m: nat)
    requires m < |ks| && Apart(to, m + 1) && Follows(ks, to, m + 1)
    ensures Apart(to, m) && Follows(ks, to, m) && to(m) == Reached(ks, m + 1) % 256
    ensures Reached(ks, m + 1) == Reached(ks, m) + m + ks[m]
  {
    assert to(m) == Reached(ks, m + 1) % 256;
  }

  /** For every key whose first n exchanges stay apart, entry k is exchanged with the entry whose number is the sum
      of the numbers and the key bytes up to k. */
  lemma {:induction false} FirstExchanges(ks: seq<byte>, to: nat -> byte, n: nat)
    requires n <= |ks| <= 256 && Apart(to, n) && Follows(ks, to, n)
    ensures Exchanged(Schedule(ks[..n]).s, to, n) && Schedule(ks[..n]).t == Reached(ks, n) % 256
  {
    if n > 0 {
      var m := n - 1;
      Shorter(ks, to, m);
      FirstExchanges(ks, to, m);
      ScheduleNext(ks, m);
      NextExchange(Schedule(ks[..m]), to, m, Reached(ks, m), ks[m]);
    }
  }

  /** The sum of the first n numbers and of the key's bytes, taken again from the start when they are used up. */
  function KeySum(key: seq<byte>, n: nat): nat
    requires key != []
  {
    if n == 0 then 0 else KeySum(key, n - 1) + (n - 1) + key[(n - 1) % |key|]
  }

  lemma {:induction false} ReachedIs(key: seq<byte>, n: nat)
    requires key != [] && n <= 256
    ensures Reached(Repeated(key), n) == KeySum(key, n)
  {
    if n > 0 {
      ReachedIs(key, n - 1);
    }
  }

  lemma KeyFollows(key: seq<byte>, ks: seq<byte>, to: nat -> byte, n: nat)
    requires key != [] && n <= 256 && ks == Repeated(key) && forall k: nat | k < n :: to(k) == KeySum(key, k + 1) % 256
    ensures Follows(ks, to, n) && Reached(ks, n) == KeySum(key, n)
  {
    forall k: nat | k < n ensures to(k) == Reached(ks, k + 1) % 256 {
      ReachedIs(key, k + 1);
    }
    ReachedIs(key, n);
  }

  /** The same for a key of any length. */
  lemma KeyExchanges(key: seq<byte>, to: nat -> byte, n: nat)
    requires key != [] && n <= 256 && Apart(to, n) && forall k: nat | k < n :: to(k) == KeySum(key, k + 1) % 256
    ensures Exchanged(Schedule(Repeated(key)[..n]).s, to, n)
    ensures Schedule(Repeated(key)[..n]).t == KeySum(key, n) % 256
  {
    var ks := Repeated(key);
    KeyFollows(key, ks, to, n);
    FirstExchanges(ks, to, n);
  }

  /** A key for which every entry is exchanged with itself. */
  predicate IsStill(key: seq<byte>) { |key| == 256 && forall i :: 0 <= i < 256 ==> key[i] == StillByte(i) }

  function StillByte(i: nat): byte
    requires i < 256
  {
    if i < 2 then 0 else 257 - i
  }

  lemma StillNext(m: nat, t: byte)
    requires m < 256 && t == if m == 0 then 0 else m - 1
    ensures Sum8(Sum8(t, m), StillByte(m)) == m && Swap(Identity(), m, m) == Identity()
  {
    SumsModulo(t, m, StillByte(m));
    DivModUnique(t + m + StillByte(m), 256, if m > 1 then 1 else 0, m);
  }

  lemma {:induction false} StaysStill(ks: seq<byte>, n: nat)
    requires IsStill(ks) && n <= 256
    ensures Schedule(ks[..n]) == Mixed(Identity(), if n == 0 then 0 else n - 1)
  {
    if n > 0 {
      StaysStill(ks, n - 1);
      ScheduleNext(ks, n - 1);
      StillNext(n - 1, Schedule(ks[..n - 1]).t);
    }
  }

  lemma StillStart(key: seq<byte>, n: nat)
    requires IsStill(key) && n == 256
    ensures Start(key) == State(Identity(), 1, 0)
  {
    assert Repeated(key) == key && key[..n] == key;
    StaysStill(key, n);
  }

  /** The key stream of that key, from the key on. */
  lemma StillBytes(key: seq<byte>)
    requires IsStill(key)
    ensures Take(Next, Start(key), 3).0 == [2, 5, 7]
  {
    StillStart(key, 256);
    IdentityBytes();
  }

  // ---------- Both programs ----------

  lemma ScheduleNext(ks: seq<byte>, n: nat)
    requires n < |ks| <= 256
    ensures var before := Schedule(ks[..n]);
      var t := Sum8(Sum8(before.t, before.s[n]), ks[n]);
      Schedule(ks[..n + 1]) == Mixed(Swap(before.s, n, t), t)
  {
    assert ks[..n + 1][..n] == ks[..n];
  }

  method SwapEntries(s: array<byte>, i: nat, j: nat)
    requires s.Length == 256 && i < 256 && j < 256
    modifies s
    ensures s[..] == Swap(old(s[..]), i, j)
  {
    var tmp := s[i];
    s[i] := s[j];
    s[j] := tmp;
  }

  /** The loops over the key in rc4_ks and CodecRC4 */
  method MixKey(s: array<byte>, key: seq<byte>)
    requires s.Length == 256 && key != [] && s[..] == Identity()
    modifies s
    ensures s[..] == Schedule(Repeated(key)).s
  {
    var t: byte := 0;
    ghost var ks := Repeated(key);
    for i := 0 to 256
      invariant Mixed(s[..], t) == Schedule(ks[..i])
    {
      ScheduleNext(ks, i);
      t := Sum8(Sum8(t, s[i]), key[i % |key|]);
      SwapEntries(s, i, t);
    }
    assert ks[..256] == ks;
  }

  /** One byte of the key stream. */
  method Step(s: array<byte>, i: byte, t: byte) returns (k: byte, t': byte)
    requires s.Length == 256
    modifies s
    ensures (k, State(s[..], Sum8(i, 1), t')) == Next(State(old(s[..]), i, t))
  {
    t' := Sum8(t, s[i]);
    SwapEntries(s, i, t');
    k := s[Sum8(s[i], s[t'])];
  }

  /** (uint8)i follows i. */
  lemma LowByte(i: nat)
    ensures (i + 1) % 256 == Sum8(i % 256, 1)
  {
    DivModUnique(i + 1, 256, i / 256 + (i % 256 + 1) / 256, (i % 256 + 1) % 256);
  }

  // ---------- rc4.c ----------

  class Context {
    const se: array<byte>
    const sd: array<byte>
    var pose: u32
    var posd: u32
    var te: byte
    var td: byte

    ghost predicate Valid()
      reads this
    {
      se.Length == 256 && sd.Length == 256 && se != sd
    }

    ghost function Encryption(): State
      requires Valid()
      reads this, se
    {
      State(se[..], pose % 256, te)
    }

    ghost function Decryption(): State
      requires Valid()
      reads this, sd
    {
      State(sd[..], posd % 256, td)
    }

    /** rc4_ks */
    constructor (key: seq<byte>)
      requires 0 < |key| <= 256
      ensures Valid() && fresh(se) && fresh(sd) && pose == posd == 1
      ensures Encryption() == Decryption() == Start(key)
    {
      se := new byte[256](i requires 0 <= i < 256 => i);
      sd := new byte[256];
      pose, posd, te, td := 1, 1, 0, 0;
      new;
      assert se[..] == Identity();
      MixKey(se, key);
      forall i | 0 <= i < 256 {
        sd[i] := se[i];
      }
      assert sd[..] == se[..];
    }

    /** A call works if the position after it still fits 32 bits. Otherwise it leaves everything as it was. */
    method Encrypt(src: array<byte>, dst: array<byte>, len: u32)
      requires Valid() && len <= src.Length && len <= dst.Length && src != se && src != sd && dst != se && dst != sd
      modifies this, se, dst
      ensures Valid() && Decryption() == old(Decryption()) && posd == old(posd)
      ensures dst[len..] == old(dst[len..])
      ensures if old(pose) + len < 0x1_0000_0000 then
          pose == old(pose) + len && Encryption() == Take(Next, old(Encryption()), len).1
          && dst[..len] == XorOutput(Next, old(Encryption()), old(src[..len]))
        else pose == old(pose) && Encryption() == old(Encryption()) && dst[..] == old(dst[..])
    {
      pose, te := Crypt(se, pose, te, src, dst, len);
    }

    method Decrypt(src: array<byte>, dst: array<byte>, len: u32)
      requires Valid() && len <= src.Length && len <= dst.Length && src != se && src != sd && dst != se && dst != sd
      modifies this, sd, dst
      ensures Valid() && Encryption() == old(Encryption()) && pose == old(pose)
      ensures dst[len..] == old(dst[len..])
      ensures if old(posd) + len < 0x1_0000_0000 then
          posd == old(posd) + len && Decryption() == Take(Next, old(Decryption()), len).1
          && dst[..len] == XorOutput(Next, old(Decryption()), old(src[..len]))
        else posd == old(posd) && Decryption() == old(Decryption()) && dst[..] == old(dst[..])
    {
      posd, td := Crypt(sd, posd, td, src, dst, len);
    }
  }

  /** The first n bytes are enciphered, the others are as they were. */
  ghost predicate Enciphered(now: seq<byte>, was: seq<byte>, data: seq<byte>, mask: seq<byte>, n: nat) {
    && |now| == |was| && |mask| == n <= |data| <= |was|
    && forall k :: 0 <= k < |now| ==> now[k] == if k < n then Xor8(data[k], mask[k]) else was[k]
  }

  /** One byte of a call: byte n, at position pos. */
  method CryptByte(s: array<byte>, pos: nat, t: byte, src: array<byte>, dst: array<byte>, n: nat, ghost st: State,
                   ghost data: seq<byte>, ghost was: seq<byte>) returns (t': byte)
    requires s.Length == 256 && s != src && s != dst && n < |data| <= src.Length && |data| <= dst.Length
    requires State(s[..], pos % 256, t) == Take(Next, st, n).1
    requires Enciphered(dst[..], was, data, Take(Next, st, n).0, n)
    requires forall k :: n <= k < |data| ==> src[k] == data[k]
    modifies s, dst
    ensures State(s[..], (pos + 1) % 256, t') == Take(Next, st, n + 1).1
    ensures Enciphered(dst[..], was, data, Take(Next, st, n + 1).0, n + 1)
    ensures forall k :: n < k < |data| ==> src[k] == data[k]
  {
    TakeNext(Next, st, n);
    LowByte(pos);
    var k;
    k, t' := Step(s, pos % 256, t);
    dst[n] := Xor8(src[n], k);
  }

  /** The loop of rc4_encrypt and rc4_decrypt; its bound is computed in 32 bits. src may be dst. */
  method Crypt(s: array<byte>, pos: u32, t: byte, src: array<byte>, dst: array<byte>, len: u32)
      returns (pos': u32, t': byte)
    requires s.Length == 256 && s != src && s != dst && len <= src.Length && len <= dst.Length
    modifies s, dst
    ensures dst[len..] == old(dst[len..])
    ensures var st := State(old(s[..]), pos % 256, t);
      if pos + len < 0x1_0000_0000 then
        pos' == pos + len && State(s[..], pos' % 256, t') == Take(Next, st, len).1
        && dst[..len] == XorOutput(Next, st, old(src[..len]))
      else pos' == pos && t' == t && s[..] == old(s[..]) && dst[..] == old(dst[..])
  {
    var end := Add32(len, pos);
    ghost var st, data, was := State(s[..], pos % 256, t), src[..len], dst[..];
    pos', t' := pos, t;
    WrappedEnd(len, pos);
    while pos' < end
      invariant pos <= pos' <= (if pos + len < 0x1_0000_0000 then end else pos)
      invariant State(s[..], pos' % 256, t') == Take(Next, st, pos' - pos).1
      invariant Enciphered(dst[..], was, data, Take(Next, st, pos' - pos).0, pos' - pos)
      invariant forall k :: pos' - pos <= k < len ==> src[k] == data[k]
    {
      t' := CryptByte(s, pos', t', src, dst, pos' - pos, st, data, was);
      pos' := pos' + 1;
    }
  }

  lemma WrappedEnd(len: u32, pos: u32)
    ensures Add32(len, pos) == if pos + len < 0x1_0000_0000 then pos + len else pos + len - 0x1_0000_0000
  {
    DivModUnique(len + pos, 0x1_0000_0000, if pos + len < 0x1_0000_0000 then 0 else 1, Add32(len, pos));
  }

  // ---------- codec.c ----------

  /** CodecRC4: the key stream is that of a context in its first state. textout may be textin. */
  method CodecRC4(key: seq<byte>, textin: array<byte>, textlen: nat, textout: array<byte>)
    requires key != [] && textlen <= textin.Length && textlen <= textout.Length
    modifies textout
    ensures textout[..textlen] == XorOutput(Next, Start(key), old(textin[..textlen]))
    ensures textout[textlen..] == old(textout[textlen..])
  {
    var rc4 := new byte[256](i requires 0 <= i < 256 => i);
    assert rc4[..] == Identity();
    MixKey(rc4, key);
    MaskText(rc4, textin, textlen, textout);
  }

  /** The loop over the text; a and b start at 0. */
  method MaskText(rc4: array<byte>, textin: array<byte>, textlen: nat, textout: array<byte>)
    requires rc4.Length == 256 && rc4 != textin && rc4 != textout
    requires textlen <= textin.Length && textlen <= textout.Length
    modifies rc4, textout
    ensures textout[..textlen] == XorOutput(Next, State(old(rc4[..]), 1, 0), old(textin[..textlen]))
    ensures textout[textlen..] == old(textout[textlen..])
  {
    ghost var st, data, rest := State(rc4[..], 1, 0), textin[..textlen], textout[..];
    var a, b: byte := 0, 0;
    for i := 0 to textlen
      invariant State(rc4[..], Sum8(a, 1), b) == Take(Next, st, i).1
      invariant forall k :: i <= k < textlen ==> textin[k] == data[k]
      invariant forall k :: 0 <= k < textout.Length ==>
        textout[k] == if k < i then Xor8(data[k], Take(Next, st, i).0[k]) else rest[k]
    {
      TakeNext(Next, st, i);
      a := Sum8(a, 1);
      var k;
      k, b := Step(rc4, a, b);
      textout[i] := Xor8(textin[i], k);
    }
  }

  // ---------- Sequences of calls ----------

  /** What a sequence of calls writes, and the state and the position after them; a call
      that would take the position to 2^32 writes nothing. */
  datatype Calls = Calls(written: seq<byte>, st: State, pos: nat)

  function Run(st: State, pos: nat, chunks: seq<seq<byte>>): Calls {
    if chunks == [] then Calls([], st, pos) else
      var r := Run(st, pos, chunks[..|chunks| - 1]);
      var last := chunks[|chunks| - 1];
      if r.pos + |last| >= 0x1_0000_0000 then r
      else Calls(r.written + XorOutput(Next, r.st, last), Take(Next, r.st, |last|).1, r.pos + |last|)
  }

  /** The calls act as one call on all the data if and only if the data ends before position 2^32. */
  lemma {:induction false} RunIff(st: State, pos: nat, chunks: seq<seq<byte>>)
    requires pos < 0x1_0000_0000
    ensures var r := Run(st, pos, chunks);
      && pos <= r.pos < 0x1_0000_0000 && r.pos - pos == |r.written| <= |Join(chunks)|
      && (pos + |Join(chunks)| < 0x1_0000_0000 ==>
          r.written == XorOutput(Next, st, Join(chunks)) && r.st == Take(Next, st, |Join(chunks)|).1)
      && (|r.written| == |Join(chunks)| <==> pos + |Join(chunks)| < 0x1_0000_0000)
  {
    if chunks != [] {
      var before, last := chunks[..|chunks| - 1], chunks[|chunks| - 1];
      RunIff(st, pos, before);
      XorOutputSplit(Next, st, Join(before), last);
    }
  }

  /** Decryption with chunks of its own undoes encryption, and both give what CodecRC4 gives. */
  lemma RoundTrip(key: seq<byte>, chunks: seq<seq<byte>>, pieces: seq<seq<byte>>)
    requires 0 < |key| <= 256 && 1 + |Join(chunks)| < 0x1_0000_0000
    requires Join(pieces) == Run(Start(key), 1, chunks).written
    ensures Run(Start(key), 1, pieces).written == Join(chunks)
    ensures Join(pieces) == XorOutput(Next, Start(key), Join(chunks))
  {
    RunIff(Start(key), 1, chunks);
    RunIff(Start(key), 1, pieces);
    XorOutputTwice(Next, Start(key), Join(chunks));
  }
}
