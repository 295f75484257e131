/** The ChaCha20-Poly1305 page cipher of 3rd/sqlite3_key/src/src/codec.c. */
module PageCodec {
  import opened Bits
  import opened Memory
  import opened Chacha = ChaCha20
  import opened Poly1305Limbs
  import Poly1305
  import Rng

  const NONCE_LEN := 16
  const RESERVED := 32
  const SALT_LEN := 16
  const PAGE1_OFFSET := 24

  type MacKey = k: seq<byte> | |k| == 32 witness seq(32, _ => 0)
  type MacTag = t: seq<byte> | |t| == 16 witness seq(16, _ => 0)

  /** The two primitives. The round trip holds of any; the routines use ChaCha20 and Poly1305. */
  datatype Suite = Suite(start: (seq<byte>, seq<byte>, u32) -> Words, block: Words -> Words,
                         mac: (seq<byte>, MacKey) -> MacTag)

  datatype Status = Ok | Corrupt

  datatype Cipher = Cipher(key: seq<byte>, salt: seq<byte>, legacy: bool) {
    predicate Valid() { |key| == 32 && |salt| == SALT_LEN }
  }

  /** "SQLite format 3" and a NUL, the first bytes of every database. */
  function Header(): (h: seq<byte>)
    ensures |h| == 16
  {
    [0x53, 0x51, 0x4c, 0x69, 0x74, 0x65, 0x20, 0x66, 0x6f, 0x72, 0x6d, 0x61, 0x74, 0x20, 0x33, 0]
  }

  // ---------- What the two routines compute ----------

  function Required(c: Cipher, reserved: nat): nat {
    if reserved == 0 && !c.legacy then 0 else RESERVED
  }

  /** The page has the reserved bytes that the cipher needs. */
  predicate Accepts(c: Cipher, reserved: nat) {
    if c.legacy then reserved == RESERVED else Required(c, reserved) <= reserved
  }

  function Offset(c: Cipher, page: u32): nat {
    if page == 1 && !c.legacy then PAGE1_OFFSET else 0
  }

  function Counter(nonce: seq<byte>, page: u32): u32
    requires |nonce| == NONCE_LEN
  {
    Xor32(Load32(nonce, 12), page)
  }

  function KeyState(p: Suite, c: Cipher, page: u32, nonce: seq<byte>): Words
    requires c.Valid() && |nonce| == NONCE_LEN
  {
    p.start(c.key, nonce, Counter(nonce, page))
  }

  /** The one-time keys of a page: 32 bytes for the tag, 32 bytes for the data. */
  function OneTimeKeys(p: Suite, c: Cipher, page: u32, nonce: seq<byte>): (r: seq<byte>)
    requires c.Valid() && |nonce| == NONCE_LEN
    ensures |r| == 64
  {
    XorStream(p.block, KeyState(p, c, page, nonce), seq(64, _ => 0))
  }

  function DataStream(p: Suite, c: Cipher, page: u32, nonce: seq<byte>): Words
    requires c.Valid() && |nonce| == NONCE_LEN
  {
    p.start(OneTimeKeys(p, c, page, nonce)[32..], nonce, Add32(Counter(nonce, page), 1))
  }

  /** All bytes from o on, XORed with a key stream. */
  function MaskFrom(f: Words -> Words, s: Words, o: nat, body: seq<byte>): (r: seq<byte>)
    requires o <= |body|
    ensures |r| == |body|
  {
    body[..o] + XorStream(f, s, body[o..])
  }

  /** The data bytes after the stream cipher, in either direction. */
  function Mask(p: Suite, c: Cipher, page: u32, nonce: seq<byte>, body: seq<byte>): (r: seq<byte>)
    requires c.Valid() && |nonce| == NONCE_LEN && Offset(c, page) <= |body|
    ensures |r| == |body|
  {
    MaskFrom(p.block, DataStream(p, c, page, nonce), Offset(c, page), body)
  }

  /** Page 1 starts with the salt on disk and with the header in memory. */
  function Stamp(page: u32, mark: seq<byte>, body: seq<byte>): (r: seq<byte>)
    requires |mark| == 16 && (page == 1 ==> |body| >= 16)
    ensures |r| == |body|
  {
    if page == 1 then mark + body[16..] else body
  }

  function Sealed(p: Suite, c: Cipher, page: u32, nonce: seq<byte>, body: seq<byte>): (r: seq<byte>)
    requires c.Valid() && |nonce| == NONCE_LEN && (page == 1 ==> |body| >= PAGE1_OFFSET)
    ensures |r| == |body|
  {
    Stamp(page, c.salt, Mask(p, c, page, nonce, body))
  }

  function PageTag(p: Suite, c: Cipher, page: u32, nonce: seq<byte>, sealed: seq<byte>): MacTag
    requires c.Valid() && |nonce| == NONCE_LEN
  {
    p.mac(sealed + nonce, OneTimeKeys(p, c, page, nonce)[..32])
  }

  /** The body of a page that was read with this nonce and tag. A wrong tag does not
      keep the body from being decrypted, but it keeps the header off page 1. */
  function Opened(p: Suite, c: Cipher, page: u32, nonce: seq<byte>, body: seq<byte>, tag: seq<byte>,
                  check: bool): (r: (Status, seq<byte>))
    requires c.Valid() && |nonce| == NONCE_LEN && (page == 1 ==> |body| >= PAGE1_OFFSET)
    ensures |r.1| == |body|
  {
    var clear := Mask(p, c, page, nonce, body);
    if check && tag != PageTag(p, c, page, nonce, body) then (Corrupt, clear) else (Ok, Stamp(page, Header(), clear))
  }

  /** A page of an accepted size holds its reserved bytes, and page 1 the database header. */
  predicate Fits(c: Cipher, page: u32, len: nat, reserved: nat) {
    Required(c, reserved) + (if page == 1 then PAGE1_OFFSET else 0) <= len
  }

  /** A page that holds a body, the nonce and the tag. */
  function Tagged(p: Suite, c: Cipher, page: u32, nonce: seq<byte>, body: seq<byte>): (r: seq<byte>)
    requires c.Valid() && |nonce| == NONCE_LEN && (page == 1 ==> |body| >= PAGE1_OFFSET)
    ensures |r| == |body| + RESERVED
  {
    var sealed := Sealed(p, c, page, nonce, body);
    sealed + nonce + PageTag(p, c, page, nonce, sealed)
  }

  /** Without reserved bytes a page is all body, and the nonce is the page's initial vector. */
  function Encrypted(p: Suite, c: Cipher, page: u32, data: seq<byte>, reserved: nat,
                     random: seq<byte>, iv: seq<byte>): (r: seq<byte>)
    requires c.Valid() && |random| == |iv| == NONCE_LEN && Fits(c, page, |data|, reserved)
    ensures |r| == |data|
  {
    if Required(c, reserved) == 0 then Sealed(p, c, page, iv, data)
    else Tagged(p, c, page, random, data[..|data| - RESERVED])
  }

  /** The status and the body; the bytes after the body do not change. */
  function Decrypted(p: Suite, c: Cipher, page: u32, data: seq<byte>, reserved: nat,
                     check: bool, iv: seq<byte>): (r: (Status, seq<byte>))
    requires c.Valid() && |iv| == NONCE_LEN && Fits(c, page, |data|, reserved)
    ensures |r.1| == |data| - Required(c, reserved)
  {
    if Required(c, reserved) == 0 then (Ok, Stamp(page, Header(), Mask(p, c, page, iv, data)))
    else
      var n := |data| - RESERVED;
      Opened(p, c, page, data[n..n + 16], data[..n], data[n + 16..], check)
  }

  // ---------- Round trip ----------

  /** Masking twice, with bytes below m overwritten in between, changes no byte from m on. */
  lemma MaskTwice(f: Words -> Words, s: Words, o: nat, body: seq<byte>, sealed: seq<byte>, m: nat)
    requires o <= |body| == |sealed| && m <= |body| && sealed[m..] == MaskFrom(f, s, o, body)[m..]
    ensures MaskFrom(f, s, o, sealed)[m..] == body[m..]
  {
    forall i | m <= i < |body| ensures MaskFrom(f, s, o, sealed)[i] == body[i] {
      assert sealed[i] == sealed[m..][i - m] == MaskFrom(f, s, o, body)[i];
      if i >= o {
        XorTwice(body[i], StreamByte(f, s, i - o));
      }
    }
  }

  lemma MaskOfSealed(p: Suite, c: Cipher, page: u32, nonce: seq<byte>, body: seq<byte>)
    requires c.Valid() && |nonce| == NONCE_LEN && (page == 1 ==> |body| >= PAGE1_OFFSET)
    ensures Stamp(page, Header(), Mask(p, c, page, nonce, Sealed(p, c, page, nonce, body)))
      == Stamp(page, Header(), body)
  {
    var sealed, m := Sealed(p, c, page, nonce, body), if page == 1 then 16 else 0;
    MaskTwice(p.block, DataStream(p, c, page, nonce), Offset(c, page), body, sealed, m);
    StampAgain(page, Header(), Mask(p, c, page, nonce, sealed), body);
  }

  lemma StampAgain(page: u32, mark: seq<byte>, a: seq<byte>, b: seq<byte>)
    requires |mark| == 16 && |a| == |b| && (page == 1 ==> |a| >= 16)
    requires a[if page == 1 then 16 else 0..] == b[if page == 1 then 16 else 0..]
    ensures Stamp(page, mark, a) == Stamp(page, mark, b)
  {
    assert a[0..] == a && b[0..] == b;
  }

  lemma OpenedOfSealed(p: Suite, c: Cipher, page: u32, nonce: seq<byte>, body: seq<byte>, check: bool)
    requires c.Valid() && |nonce| == NONCE_LEN && (page == 1 ==> |body| >= PAGE1_OFFSET)
    ensures var sealed := Sealed(p, c, page, nonce, body);
      Opened(p, c, page, nonce, sealed, PageTag(p, c, page, nonce, sealed), check) == (Ok, Stamp(page, Header(), body))
  {
    MaskOfSealed(p, c, page, nonce, body);
  }

  /** Decrypting an encrypted page succeeds whether or not the tag is checked, and
      gives back every data byte; page 1 gets the database header. */
  lemma TaggedTrip(p: Suite, c: Cipher, page: u32, random: seq<byte>, body: seq<byte>, check: bool)
    requires c.Valid() && |random| == NONCE_LEN && (page == 1 ==> |body| >= PAGE1_OFFSET)
    ensures var e, n := Tagged(p, c, page, random, body), |body|;
      Opened(p, c, page, e[n..n + 16], e[..n], e[n + 16..], check) == (Ok, Stamp(page, Header(), body))
  {
    var sealed := Sealed(p, c, page, random, body);
    OpenedOfSealed(p, c, page, random, body, check);
    Cut(sealed, random, PageTag(p, c, page, random, sealed));
  }

  lemma RoundTrip(p: Suite, c: Cipher, page: u32, data: seq<byte>, reserved: nat,
                  random: seq<byte>, iv: seq<byte>, check: bool)
    requires c.Valid() && |random| == |iv| == NONCE_LEN && Fits(c, page, |data|, reserved)
    ensures var e := Encrypted(p, c, page, data, reserved, random, iv);
      Decrypted(p, c, page, e, reserved, check, iv)
      == (Ok, Stamp(page, Header(), data[..|data| - Required(c, reserved)]))
  {
    if Required(c, reserved) > 0 {
      TaggedTrip(p, c, page, random, data[..|data| - RESERVED], check);
    } else {
      MaskOfSealed(p, c, page, iv, data);
      assert data[..|data|] == data;
    }
  }

  lemma Cut(a: seq<byte>, b: seq<byte>, c: seq<byte>)
    ensures var s := a + b + c;
      s[..|a|] == a && s[|a|..|a| + |b|] == b && s[|a| + |b|..] == c
  {
  }

  /** The data comes back unchanged exactly when page 1 held the database header. */
  lemma RestoredExactly(page: u32, body: seq<byte>)
    requires page == 1 ==> |body| >= 16
    ensures Stamp(page, Header(), body) == body <==> page != 1 || body[..16] == Header()
  {
    if page == 1 {
      assert body == body[..16] + body[16..];
      assert Stamp(page, Header(), body)[..16] == Header();
    }
  }

  // ---------- Which key stream, and what the tag vouches for ----------

  /** Under one nonce no two pages have the same counter. */
  lemma CounterInjective(nonce: seq<byte>, page: u32, page': u32)
    requires |nonce| == NONCE_LEN
    ensures Counter(nonce, page) == Counter(nonce, page') <==> page == page'
  {
    var word := Load32(nonce, 12);
    XorComm(word, page);
    XorComm(word, page');
    XorTwice(page, word);
    XorTwice(page', word);
  }

  /** What is authenticated determines the nonce and the data, but for the header of page 1. */
  lemma SealedDetermines(p: Suite, c: Cipher, page: u32, nonce: seq<byte>, body: seq<byte>,
                         nonce': seq<byte>, body': seq<byte>)
    requires c.Valid() && |nonce| == |nonce'| == NONCE_LEN
    requires page == 1 ==> |body| >= PAGE1_OFFSET && |body'| >= PAGE1_OFFSET
    ensures Sealed(p, c, page, nonce, body) + nonce == Sealed(p, c, page, nonce', body') + nonce' ==>
      nonce == nonce' && Stamp(page, Header(), body) == Stamp(page, Header(), body')
  {
    var sealed, sealed' := Sealed(p, c, page, nonce, body), Sealed(p, c, page, nonce', body');
    if sealed + nonce == sealed' + nonce' {
      assert sealed == (sealed + nonce)[..|sealed + nonce| - 16] == sealed';
      assert nonce == (sealed + nonce)[|sealed + nonce| - 16..] == nonce';
      MaskOfSealed(p, c, page, nonce, body);
      MaskOfSealed(p, c, page, nonce', body');
    }
  }

  // ---------- The routines ----------

  /** The suite is ChaCha20 and Poly1305. */
  ghost predicate IsChaChaPoly(p: Suite) {
    IsKeyBlock(p.block) && (forall msg, key :: MacAgrees(p, msg, key))
    && forall key, nonce, counter :: StartAgrees(p, key, nonce, counter)
  }

  ghost predicate StartAgrees(p: Suite, key: seq<byte>, nonce: seq<byte>, counter: u32) {
    |key| >= 32 && |nonce| >= 12 ==> p.start(key, nonce, counter) == InitialState(key, nonce, counter)
  }

  ghost predicate MacAgrees(p: Suite, msg: seq<byte>, key: MacKey) { p.mac(msg, key) == Tag(msg, key) }

  lemma XorWithZero(x: byte)
    ensures Xor8(0, x) == x
  {
  }

  /** The last row of a state. */
  lemma StartRow(p: Suite, key: seq<byte>, nonce: seq<byte>, counter: u32)
    requires IsChaChaPoly(p) && |key| >= 32 && |nonce| >= 12
    ensures var s := p.start(key, nonce, counter);
      s[12] == counter && s[13] == Load32(nonce, 0) && s[14] == Load32(nonce, 4) && s[15] == Load32(nonce, 8)
  {
    assert StartAgrees(p, key, nonce, counter);
  }

  lemma FirstBlock(f: Words -> Words, s: Words, i: nat)
    requires i < 64
    ensures XorStream(f, s, seq(64, _ => 0))[i] == BlockByte(f(s), i)
  {
    DivModUnique(i, 64, 0, i);
    XorWithZero(StreamByte(f, s, i));
    assert Advance(s, 0) == s;
  }

  /** The one-time keys are the block at a page's counter. */
  lemma KeysAreBlock(p: Suite, c: Cipher, page: u32, nonce: seq<byte>, i: nat)
    requires c.Valid() && |nonce| == NONCE_LEN && i < 64
    ensures OneTimeKeys(p, c, page, nonce)[i] == BlockByte(p.block(KeyState(p, c, page, nonce)), i)
  {
    FirstBlock(p.block, KeyState(p, c, page, nonce), i);
  }

  /** The data is masked from the block after it on, under the same nonce. */
  lemma SuccessiveBlocks(p: Suite, c: Cipher, page: u32, nonce: seq<byte>)
    requires IsChaChaPoly(p) && c.Valid() && |nonce| == NONCE_LEN
    ensures var keys, data := KeyState(p, c, page, nonce), DataStream(p, c, page, nonce);
      && keys[12] == Xor32(Load32(nonce, 12), page) && data[12] == Add32(keys[12], 1)
      && data[13] == keys[13] && data[14] == keys[14] && data[15] == keys[15]
  {
    var counter := Counter(nonce, page);
    StartRow(p, c.key, nonce, counter);
    StartRow(p, OneTimeKeys(p, c, page, nonce)[32..], nonce, Add32(counter, 1));
  }

  /** Bytes from..from + 32 of the block at a page's counter. */
  function HalfBlock(p: Suite, c: Cipher, page: u32, nonce: seq<byte>, from: nat): (key: MacKey)
    requires c.Valid() && |nonce| == NONCE_LEN && from <= 32
  {
    var block := p.block(p.start(c.key, nonce, Xor32(Load32(nonce, 12), page)));
    var bytes := seq(32, j requires 0 <= j < 32 => BlockByte(block, from + j));
    assert forall j :: 0 <= j < 32 ==> bytes[j] == BlockByte(block, from + j);
    bytes
  }

  lemma Halves(p: Suite, c: Cipher, page: u32, nonce: seq<byte>)
    requires c.Valid() && |nonce| == NONCE_LEN
    ensures OneTimeKeys(p, c, page, nonce)[..32] == HalfBlock(p, c, page, nonce, 0)
    ensures OneTimeKeys(p, c, page, nonce)[32..] == HalfBlock(p, c, page, nonce, 32)
  {
    forall i: nat | i < 64
      ensures OneTimeKeys(p, c, page, nonce)[i] == BlockByte(p.block(KeyState(p, c, page, nonce)), i)
    {
      KeysAreBlock(p, c, page, nonce, i);
    }
  }

  /** The key stream of a page's data: under the second half of that block, from the next counter on. */
  function DiskStream(p: Suite, c: Cipher, page: u32, nonce: seq<byte>): Words
    requires c.Valid() && |nonce| == NONCE_LEN
  {
    p.start(HalfBlock(p, c, page, nonce, 32), nonce, Add32(Xor32(Load32(nonce, 12), page), 1))
  }

  /** A byte of the page on disk, without the nonce and the tag: on page 1 the salt comes first, and but for the old
      format the eight bytes after it, which say how large a page is, can be read without the key. */
  function ByteOnDisk(p: Suite, c: Cipher, page: u32, nonce: seq<byte>, data: seq<byte>, i: nat): byte
    requires c.Valid() && |nonce| == NONCE_LEN && i < |data|
  {
    if page == 1 && i < 16 then c.salt[i]
    else if page == 1 && i < 24 && !c.legacy then data[i]
    else Xor8(data[i], StreamByte(p.block, DiskStream(p, c, page, nonce), if page == 1 && !c.legacy then i - 24 else i))
  }

  lemma DataStreamIs(p: Suite, c: Cipher, page: u32, nonce: seq<byte>)
    requires c.Valid() && |nonce| == NONCE_LEN
    ensures DataStream(p, c, page, nonce) == DiskStream(p, c, page, nonce)
  {
    Halves(p, c, page, nonce);
  }

  lemma MaskedBytes(p: Suite, c: Cipher, page: u32, nonce: seq<byte>, body: seq<byte>, i: nat)
    requires c.Valid() && |nonce| == NONCE_LEN && (page == 1 ==> |body| >= PAGE1_OFFSET) && i < |body|
    ensures var from := Offset(c, page);
      Mask(p, c, page, nonce, body)[i]
      == if i < from then body[i] else Xor8(body[i], StreamByte(p.block, DataStream(p, c, page, nonce), i - from))
  {
    var from := Offset(c, page);
    if i >= from {
      assert body[from..][i - from] == body[i];
    }
  }

  lemma StampedBytes(page: u32, header: seq<byte>, body: seq<byte>, i: nat)
    requires |header| == 16 && (page == 1 ==> |body| >= PAGE1_OFFSET) && i < |body|
    ensures Stamp(page, header, body)[i] == if page == 1 && i < 16 then header[i] else body[i]
  {
  }

  lemma DiskByte(p: Suite, c: Cipher, page: u32, nonce: seq<byte>, data: seq<byte>, i: nat, from: nat, stream: Words)
    requires c.Valid() && |nonce| == NONCE_LEN && i < |data| && from == Offset(c, page)
    requires stream == DataStream(p, c, page, nonce)
    ensures ByteOnDisk(p, c, page, nonce, data, i) == if page == 1 && i < 16 then c.salt[i] else
      if i < from then data[i] else Xor8(data[i], StreamByte(p.block, stream, i - from))
  {
    DataStreamIs(p, c, page, nonce);
  }

  lemma SealedBytes(p: Suite, c: Cipher, page: u32, nonce: seq<byte>, body: seq<byte>, i: nat)
    requires c.Valid() && |nonce| == NONCE_LEN && (page == 1 ==> |body| >= PAGE1_OFFSET) && i < |body|
    ensures Sealed(p, c, page, nonce, body)[i] == ByteOnDisk(p, c, page, nonce, body, i)
  {
    DiskByte(p, c, page, nonce, body, i, Offset(c, page), DataStream(p, c, page, nonce));
    MaskedBytes(p, c, page, nonce, body, i);
    StampedBytes(page, c.salt, Mask(p, c, page, nonce, body), i);
  }

  /** The page on disk: its bytes, then the nonce, then the tag of all that under the first half of the block at the
      page's counter; or its bytes alone, if nothing is reserved. */
  lemma EncryptedLayout(p: Suite, c: Cipher, page: u32, data: seq<byte>, reserved: nat,
                        random: seq<byte>, iv: seq<byte>)
    requires c.Valid() && |random| == |iv| == NONCE_LEN && Fits(c, page, |data|, reserved)
    ensures var e, bare := Encrypted(p, c, page, data, reserved, random, iv), reserved == 0 && !c.legacy;
      var n := if bare then |data| else |data| - 32;
      && |e| == |data|
      && (forall i: nat | i < n :: e[i] == ByteOnDisk(p, c, page, if bare then iv else random, data, i))
      && (!bare ==> e[n..n + 16] == random && e[n + 16..] == p.mac(e[..n + 16], HalfBlock(p, c, page, random, 0)))
  {
    var bare := reserved == 0 && !c.legacy;
    var n := if bare then |data| else |data| - 32;
    var nonce, body := if bare then iv else random, data[..n];
    assert bare ==> body == data;
    forall i: nat | i < n ensures Sealed(p, c, page, nonce, body)[i] == ByteOnDisk(p, c, page, nonce, data, i) {
      SealedBytes(p, c, page, nonce, body, i);
    }
    Halves(p, c, page, nonce);
    if !bare {
      var sealed := Sealed(p, c, page, nonce, body);
      Cut(sealed, nonce, PageTag(p, c, page, nonce, sealed));
      assert Encrypted(p, c, page, data, reserved, random, iv)[..n + 16] == sealed + nonce;
    }
  }

  lemma HeaderText(i: nat)
    requires i < 16
    ensures Header()[i] == ("SQLite format 3" + ['\0'])[i] as nat
  {
  }

  /** A decrypted byte, where ok says whether the page is accepted and mask is the byte of the key stream. */
  function ByteInMemory(page: u32, legacy: bool, ok: bool, x: byte, mask: byte, i: nat): byte {
    if ok && page == 1 && i < 16 then ("SQLite format 3" + ['\0'])[i] as nat
    else if page == 1 && i < 24 && !legacy then x
    else Xor8(x, mask)
  }

  lemma MemoryByte(page: u32, legacy: bool, ok: bool, x: byte, mask: byte, i: nat, from: nat)
    requires from == if page == 1 && !legacy then 24 else 0
    ensures ByteInMemory(page, legacy, ok, x, mask, i)
      == if page == 1 && i < 16 && ok then ("SQLite format 3" + ['\0'])[i] as nat
         else if i < from then x else Xor8(x, mask)
  {
  }

  lemma ClearByte(p: Suite, c: Cipher, page: u32, nonce: seq<byte>, body: seq<byte>, clear: seq<byte>, ok: bool, i: nat,
                  from: nat, mask: byte)
    requires c.Valid() && |nonce| == NONCE_LEN && (page == 1 ==> |body| >= PAGE1_OFFSET) && i < |body|
    requires clear == Mask(p, c, page, nonce, body) && from == (if page == 1 && !c.legacy then 24 else 0)
    requires i >= from ==> mask == StreamByte(p.block, DiskStream(p, c, page, nonce), i - from)
    ensures (if ok then Stamp(page, Header(), clear) else clear)[i]
      == ByteInMemory(page, c.legacy, ok, body[i], mask, i)
  {
    MaskedBytes(p, c, page, nonce, body, i);
    StampedBytes(page, Header(), clear, i);
    DataStreamIs(p, c, page, nonce);
    if i < 16 {
      HeaderText(i);
    }
  }

  lemma DecryptedBytes(p: Suite, c: Cipher, page: u32, data: seq<byte>, reserved: nat, check: bool, iv: seq<byte>,
                       n: nat, nonce: seq<byte>, i: nat, from: nat, mask: byte)
    requires c.Valid() && |iv| == NONCE_LEN && Fits(c, page, |data|, reserved)
    requires n == (if reserved == 0 && !c.legacy then |data| else |data| - 32)
    requires nonce == (if reserved == 0 && !c.legacy then iv else data[n..n + 16])
    requires i < n && from == (if page == 1 && !c.legacy then 24 else 0)
    requires i >= from ==> mask == StreamByte(p.block, DiskStream(p, c, page, nonce), i - from)
    ensures var d := Decrypted(p, c, page, data, reserved, check, iv);
      |d.1| == n && d.1[i] == ByteInMemory(page, c.legacy, d.0 == Ok, data[i], mask, i)
  {
    var body := data[..n];
    var clear := Mask(p, c, page, nonce, body);
    var d := Decrypted(p, c, page, data, reserved, check, iv);
    if Required(c, reserved) > 0 {
      DecryptedTagged(p, c, page, data, reserved, check, iv, nonce, body, data[n + 16..]);
    } else {
      assert body == data;
    }
    assert d.1 == if d.0 == Ok then Stamp(page, Header(), clear) else clear;
    ClearByte(p, c, page, nonce, body, clear, d.0 == Ok, i, from, mask);
  }

  /** A page that has been read, whatever its tag and whether or not that is checked: every byte is decrypted, but for
      the bytes of page 1 that can be read without the key; the header is put on page 1 if the page is accepted. */
  lemma DecryptedLayout(p: Suite, c: Cipher, page: u32, data: seq<byte>, reserved: nat, check: bool, iv: seq<byte>,
                        n: nat, nonce: seq<byte>, i: nat)
    requires c.Valid() && |iv| == NONCE_LEN && Fits(c, page, |data|, reserved)
    requires n == (if reserved == 0 && !c.legacy then |data| else |data| - 32)
    requires nonce == (if reserved == 0 && !c.legacy then iv else data[n..n + 16])
    requires i < n
    ensures var d := Decrypted(p, c, page, data, reserved, check, iv);
      var from := if page == 1 && !c.legacy then 24 else 0;
      && |d.1| == n
      && d.1[i] ==
           if page == 1 && i < 16 && d.0 == Ok then ("SQLite format 3" + ['\0'])[i] as nat
           else if i < from then data[i]
           else Xor8(data[i], StreamByte(p.block, DiskStream(p, c, page, nonce), i - from))
  {
    var from := if page == 1 && !c.legacy then 24 else 0;
    var mask: byte := if i >= from then StreamByte(p.block, DiskStream(p, c, page, nonce), i - from) else 0;
    DecryptedBytes(p, c, page, data, reserved, check, iv, n, nonce, i, from, mask);
    MemoryByte(page, c.legacy, Decrypted(p, c, page, data, reserved, check, iv).0 == Ok, data[i], mask, i, from);
  }

  /** With the check on, a page is accepted if and only if its tag is that of its other bytes under the first half of
      the block at its counter, or if it has none; with the check off, always. */
  lemma AcceptedIff(p: Suite, c: Cipher, page: u32, data: seq<byte>, reserved: nat, iv: seq<byte>)
    requires c.Valid() && |iv| == NONCE_LEN && Fits(c, page, |data|, reserved)
    ensures var bare, n := reserved == 0 && !c.legacy, |data| - 32;
      Decrypted(p, c, page, data, reserved, true, iv).0 == Ok <==>
        bare || data[n + 16..] == p.mac(data[..n + 16], HalfBlock(p, c, page, data[n..n + 16], 0))
    ensures Decrypted(p, c, page, data, reserved, false, iv).0 == Ok
  {
    if Required(c, reserved) != 0 {
      var n := |data| - 32;
      var nonce := data[n..n + 16];
      Halves(p, c, page, nonce);
      assert data[..n] + nonce == data[..n + 16];
    }
  }

  function Start(key: seq<byte>, nonce: seq<byte>, counter: u32): Words {
    if |key| >= 32 && |nonce| >= 12 then InitialState(key, nonce, counter) else seq(16, _ => 0)
  }

  lemma ChaChaPolyExists()
    ensures IsChaChaPoly(Suite(Start, KeyBlock, (msg, key) => Tag(msg, key)))
  {
    KeyBlockAgrees();
    var p := Suite(Start, KeyBlock, (msg, key) => Tag(msg, key));
    forall msg: seq<byte>, key: MacKey ensures MacAgrees(p, msg, key) {
    }
  }

  /** The stream cipher over bytes off..off + n of a buffer */
  method XorRange(buf: array<byte>, off: nat, n: nat, key: seq<byte>, nonce: seq<byte>, counter: u32, ghost p: Suite)
    requires |key| >= 32 && |nonce| >= 12 && off + n <= buf.Length && IsChaChaPoly(p)
    modifies buf
    ensures var was := old(buf[..]);
      buf[..] == was[..off] + XorStream(p.block, p.start(key, nonce, counter), was[off..off + n]) + was[off + n..]
  {
    ghost var was := buf[..];
    Chacha.Cipher(buf, off, n, key, nonce, counter, p.block);
    assert StartAgrees(p, key, nonce, counter);
    CipheredAll(was, buf[..], off, n, p.block, p.start(key, nonce, counter));
  }

  method Authenticate(buf: array<byte>, n: nat, key: MacKey, tag: array<byte>, t: nat, ghost p: Suite)
    requires n <= buf.Length && t + 16 <= tag.Length && (buf == tag ==> n <= t) && IsChaChaPoly(p)
    modifies tag
    ensures tag[..t] == old(tag[..t]) && tag[t + 16..] == old(tag[t + 16..])
    ensures tag[t..t + 16] == p.mac(old(buf[..n]), key)
  {
    ghost var msg := buf[..n];
    assert msg == buf[0..n];
    assert MacAgrees(p, msg, key);
    Poly1305.Authenticate(buf, 0, n, key, tag, t);
  }

  method DeriveKeys(c: Cipher, page: u32, nonce: seq<byte>, ghost p: Suite) returns (otk: array<byte>, counter: u32)
    requires c.Valid() && |nonce| == NONCE_LEN && IsChaChaPoly(p)
    ensures fresh(otk) && otk[..] == OneTimeKeys(p, c, page, nonce) && counter == Counter(nonce, page)
  {
    otk := new byte[64](_ => 0);
    ghost var zeros := otk[..];
    counter := Xor32(Load32(nonce, 12), page);
    XorRange(otk, 0, 64, c.key, nonce, counter, p);
    assert zeros == seq(64, _ => 0);
    assert zeros[..0] == [] && zeros[0..64] == zeros && zeros[64..] == [];
  }

  /** The stream cipher over the first n bytes of a page. */
  method MaskBody(c: Cipher, page: u32, data: array<byte>, n: nat, nonce: seq<byte>, otk: seq<byte>, counter: u32,
                  ghost body: seq<byte>, ghost p: Suite)
    requires c.Valid() && |nonce| == NONCE_LEN && IsChaChaPoly(p) && n <= data.Length && Offset(c, page) <= n
    requires otk == OneTimeKeys(p, c, page, nonce) && counter == Counter(nonce, page) && body == data[..n]
    modifies data
    ensures data[..n] == Mask(p, c, page, nonce, body) && data[n..] == old(data[n..])
  {
    ghost var before := data[..];
    var offset := if page == 1 then if c.legacy then 0 else PAGE1_OFFSET else 0;
    XorRange(data, offset, n - offset, otk[32..], nonce, Add32(counter, 1), p);
    assert before[offset..n] == body[offset..] && before[..offset] == body[..offset];
  }

  /** memcpy to the start of a page */
  method Mark(data: array<byte>, mark: seq<byte>)
    requires |mark| == 16 && data.Length >= 16
    modifies data
    ensures data[..] == mark + old(data[16..])
  {
    for i := 0 to 16
      invariant data[..i] == mark[..i] && data[16..] == old(data[16..])
    {
      data[i] := mark[i];
    }
    assert data[..] == data[..16] + data[16..];
  }

  lemma MarkedParts(before: seq<byte>, after: seq<byte>, mark: seq<byte>, n: nat)
    requires |mark| == 16 <= n <= |before| && after == mark + before[16..]
    ensures after[..n] == mark + before[..n][16..] && after[n..] == before[n..]
  {
    assert before[16..][..n - 16] == before[..n][16..] && before[16..][n - 16..] == before[n..];
  }

  method StampPage(page: u32, mark: seq<byte>, data: array<byte>, n: nat, ghost body: seq<byte>)
    requires |mark| == 16 && n <= data.Length && (page == 1 ==> n >= 16) && body == data[..n]
    modifies data
    ensures data[..n] == Stamp(page, mark, body) && data[n..] == old(data[n..])
  {
    if page == 1 {
      ghost var before := data[..];
      Mark(data, mark);
      MarkedParts(before, data[..], mark, n);
    }
  }

  method SealBody(c: Cipher, page: u32, data: array<byte>, n: nat, nonce: seq<byte>, ghost body: seq<byte>,
                  ghost p: Suite)
      returns (otk: array<byte>)
    requires c.Valid() && |nonce| == NONCE_LEN && IsChaChaPoly(p) && n <= data.Length
      && (page == 1 ==> n >= PAGE1_OFFSET)
    requires body == data[..n]
    modifies data
    ensures fresh(otk) && otk[..] == OneTimeKeys(p, c, page, nonce)
    ensures data[..n] == Sealed(p, c, page, nonce, body) && data[n..] == old(data[n..])
  {
    var counter;
    otk, counter := DeriveKeys(c, page, nonce, p);
    MaskBody(c, page, data, n, nonce, otk[..], counter, body, p);
    StampPage(page, c.salt, data, n, data[..n]);
  }

  /** Encrypts a page in place, unless its reserved bytes do not suit the cipher. Only a
      page with reserved bytes draws on the random source. */
  method EncryptPage(c: Cipher, page: u32, data: array<byte>, reserved: nat, rng: Rng.Source, iv: seq<byte>,
                     ghost p: Suite) returns (rc: Status)
    requires c.Valid() && |iv| == NONCE_LEN && (Accepts(c, reserved) ==> Fits(c, page, data.Length, reserved))
    requires rng.Valid() && rng.buffer != data && IsChaChaPoly(p)
    modifies data, rng, rng.buffer
    ensures rng.Valid()
    ensures rc == Corrupt <==> if c.legacy then reserved != 32 else 0 < reserved < 32
    ensures rc == Corrupt ==> data[..] == old(data[..])
    ensures var drawn := Rng.Bytes(p.block, rng.entropy, old(rng.Now()), 16);
      (rc == Ok ==> data[..] == Encrypted(p, c, page, old(data[..]), reserved, drawn.0, iv)) &&
      rng.Now() == if rc == Ok && (c.legacy || reserved > 0) then drawn.1 else old(rng.Now())
  {
    ghost var was := data[..];
    var nReserved := if reserved == 0 && !c.legacy then 0 else RESERVED;
    if (!c.legacy && nReserved > reserved) || (c.legacy && nReserved != reserved) {
      return Corrupt;
    }
    rc := Ok;
    if nReserved > 0 {
      EncryptDrawn(c, page, data, data.Length - nReserved, was[..|was| - RESERVED], rng, p);
    } else {
      EncryptOnly(c, page, data, was, iv, p);
    }
  }

  method EncryptOnly(c: Cipher, page: u32, data: array<byte>, ghost body: seq<byte>, iv: seq<byte>, ghost p: Suite)
    requires c.Valid() && |iv| == NONCE_LEN && (page == 1 ==> data.Length >= PAGE1_OFFSET) && IsChaChaPoly(p)
    requires body == data[..]
    modifies data
    ensures data[..] == Sealed(p, c, page, iv, body)
  {
    assert data[..data.Length] == data[..];
    var _ := SealBody(c, page, data, data.Length, iv, body, p);
    assert data[..data.Length] == data[..];
  }

  method EncryptDrawn(c: Cipher, page: u32, data: array<byte>, n: nat, ghost body: seq<byte>, rng: Rng.Source,
                      ghost p: Suite)
    requires c.Valid() && IsChaChaPoly(p) && data.Length == n + RESERVED && (page == 1 ==> n >= PAGE1_OFFSET)
    requires rng.Valid() && rng.buffer != data && body == data[..n]
    modifies data, rng, rng.buffer
    ensures rng.Valid()
    ensures var drawn := Rng.Bytes(p.block, rng.entropy, old(rng.Now()), 16);
      data[..] == Tagged(p, c, page, drawn.0, body) && rng.Now() == drawn.1
  {
    rng.Fill(data, n, 16, p.block);
    EncryptTagged(c, page, data, n, data[n..n + 16], body, p);
  }

  /** Encrypt and authenticate with the nonce that follows the body. */
  method EncryptTagged(c: Cipher, page: u32, data: array<byte>, n: nat, nonce: seq<byte>, ghost body: seq<byte>,
                       ghost p: Suite)
    requires c.Valid() && IsChaChaPoly(p) && data.Length == n + RESERVED && (page == 1 ==> n >= PAGE1_OFFSET)
    requires nonce == data[n..n + 16] && body == data[..n]
    modifies data
    ensures data[..] == Tagged(p, c, page, nonce, body)
  {
    assert data[n..][..16] == nonce;
    var otk := SealBody(c, page, data, n, nonce, body, p);
    AppendTag(data, n, otk[..32], data[..n], nonce, p);
  }

  method AppendTag(data: array<byte>, n: nat, key: MacKey, ghost sealed: seq<byte>, ghost nonce: seq<byte>,
                   ghost p: Suite)
    requires IsChaChaPoly(p) && data.Length == n + RESERVED && sealed == data[..n] && nonce == data[n..][..16]
    modifies data
    ensures data[..] == sealed + nonce + p.mac(sealed + nonce, key)
  {
    assert data[..n + 16] == sealed + nonce;
    Authenticate(data, n + 16, key, data, n + 16, p);
    assert data[..] == data[..n + 16] + data[n + 16..n + 32];
  }

  /** Decrypts a page in place, under the same condition. */
  method DecryptPage(c: Cipher, page: u32, data: array<byte>, reserved: nat, check: bool, iv: seq<byte>,
                     ghost p: Suite) returns (rc: Status)
    requires c.Valid() && |iv| == NONCE_LEN && (Accepts(c, reserved) ==> Fits(c, page, data.Length, reserved))
    requires IsChaChaPoly(p)
    modifies data
    ensures (if c.legacy then reserved != 32 else 0 < reserved < 32) ==> rc == Corrupt && data[..] == old(data[..])
    ensures (if c.legacy then reserved == 32 else reserved == 0 || reserved >= 32) ==>
      var n := if c.legacy || reserved > 0 then data.Length - 32 else data.Length;
      var d := Decrypted(p, c, page, old(data[..]), reserved, check, iv);
      rc == d.0 && data[..n] == d.1 && data[n..] == old(data[n..])
  {
    var nReserved := if reserved == 0 && !c.legacy then 0 else RESERVED;
    if (!c.legacy && nReserved > reserved) || (c.legacy && nReserved != reserved) {
      return Corrupt;
    }
    rc := DecryptAccepted(c, page, data, reserved, nReserved, check, iv, p);
  }

  method DecryptAccepted(c: Cipher, page: u32, data: array<byte>, ghost reserved: nat, nReserved: nat, check: bool,
                         iv: seq<byte>, ghost p: Suite) returns (rc: Status)
    requires c.Valid() && |iv| == NONCE_LEN && nReserved == Required(c, reserved)
    requires IsChaChaPoly(p) && Fits(c, page, data.Length, reserved)
    modifies data
    ensures var n := data.Length - nReserved;
      var d := Decrypted(p, c, page, old(data[..]), reserved, check, iv);
      rc == d.0 && data[..n] == d.1 && data[n..] == old(data[n..])
  {
    ghost var was := data[..];
    var n := data.Length - nReserved;
    if nReserved > 0 {
      ghost var nonce, body, tag := was[n..n + 16], was[..n], was[n + 16..];
      DecryptedTagged(p, c, page, was, reserved, check, iv, nonce, body, tag);
      rc := DecryptTagged(c, page, data, n, check, nonce, body, tag, p);
    } else {
      DecryptOnly(c, page, data, was, iv, p);
      rc := Ok;
    }
  }

  lemma DecryptedTagged(p: Suite, c: Cipher, page: u32, data: seq<byte>, reserved: nat, check: bool, iv: seq<byte>,
                        nonce: seq<byte>, body: seq<byte>, tag: seq<byte>)
    requires c.Valid() && |iv| == |nonce| == NONCE_LEN && Fits(c, page, |data|, reserved)
    requires Required(c, reserved) > 0
    requires var n := |data| - RESERVED;
      nonce == data[n..n + 16] && body == data[..n] && tag == data[n + 16..]
    ensures page == 1 ==> |body| >= PAGE1_OFFSET
    ensures Decrypted(p, c, page, data, reserved, check, iv) == Opened(p, c, page, nonce, body, tag, check)
  {
  }

  method DecryptOnly(c: Cipher, page: u32, data: array<byte>, ghost body: seq<byte>, iv: seq<byte>, ghost p: Suite)
    requires c.Valid() && |iv| == NONCE_LEN && (page == 1 ==> data.Length >= PAGE1_OFFSET) && IsChaChaPoly(p)
    requires body == data[..]
    modifies data
    ensures data[..data.Length] == Stamp(page, Header(), Mask(p, c, page, iv, body))
  {
    var n := data.Length;
    assert data[..n] == data[..];
    var otk, counter := DeriveKeys(c, page, iv, p);
    MaskBody(c, page, data, n, iv, otk[..], counter, body, p);
    StampPage(page, Header(), data, n, data[..n]);
  }

  method DecryptTagged(c: Cipher, page: u32, data: array<byte>, n: nat, check: bool, ghost nonce: seq<byte>,
                       ghost body: seq<byte>, ghost tag: seq<byte>, ghost p: Suite) returns (rc: Status)
    requires c.Valid() && IsChaChaPoly(p) && data.Length == n + RESERVED && (page == 1 ==> n >= PAGE1_OFFSET)
    requires nonce == data[n..n + 16] && body == data[..n] && tag == data[n + 16..]
    modifies data
    ensures var o := Opened(p, c, page, nonce, body, tag, check);
      rc == o.0 && data[..n] == o.1 && data[n..] == old(data[n..])
  {
    var stored, found := data[n..n + 16], data[n + 16..];
    var otk, counter := DeriveKeys(c, page, stored, p);
    var expected := TagOfPage(data, n, otk[..32], body, nonce, p);
    MaskBody(c, page, data, n, stored, otk[..], counter, body, p);
    rc := CheckTag(check, found, expected);
    if rc == Ok {
      StampPage(page, Header(), data, n, data[..n]);
    }
  }

  method TagOfPage(data: array<byte>, n: nat, key: MacKey, ghost body: seq<byte>, ghost nonce: seq<byte>,
                   ghost p: Suite)
      returns (tag: seq<byte>)
    requires IsChaChaPoly(p) && data.Length == n + RESERVED && body == data[..n] && nonce == data[n..n + 16]
    ensures tag == p.mac(body + nonce, key)
  {
    var t := new byte[16];
    assert data[..n + 16] == body + nonce;
    Authenticate(data, n + 16, key, t, 0, p);
    tag := t[0..16];
  }

  method CheckTag(check: bool, found: seq<byte>, tag: seq<byte>) returns (rc: Status)
    requires |found| == |tag| == 16
    ensures rc == if check && found != tag then Corrupt else Ok
  {
    rc := Ok;
    if check {
      var d := TagDifference(found, tag);
      if d != 0 {
        rc := Corrupt;
      }
    }
  }

  /** d |= x ^ y */
  function Accumulate(d: nat, x: byte, y: byte): (r: nat)
    ensures r == 0 <==> d == 0 && x == y
  {
    XorZero(x, y);
    OrZero(d, Xor(x, y));
    Or(d, Xor(x, y))
  }

  /** poly1305_tagcmp: zero exactly for equal tags */
  method TagDifference(a: seq<byte>, b: seq<byte>) returns (d: nat)
    requires |a| == |b| == 16
    ensures d == 0 <==> a == b
  {
    d := 0;
    d := Accumulate(d, a[0], b[0]);
    d := Accumulate(d, a[1], b[1]);
    d := Accumulate(d, a[2], b[2]);
    d := Accumulate(d, a[3], b[3]);
    d := Accumulate(d, a[4], b[4]);
    d := Accumulate(d, a[5], b[5]);
    d := Accumulate(d, a[6], b[6]);
    d := Accumulate(d, a[7], b[7]);
    d := Accumulate(d, a[8], b[8]);
    d := Accumulate(d, a[9], b[9]);
    d := Accumulate(d, a[10], b[10]);
    d := Accumulate(d, a[11], b[11]);
    d := Accumulate(d, a[12], b[12]);
    d := Accumulate(d, a[13], b[13]);
    d := Accumulate(d, a[14], b[14]);
    d := Accumulate(d, a[15], b[15]);
  }
}
