/** The two SHA-1 programs on the same message, cut into chunks in any way. */
module Sha1Agreement {
  import opened Bits
  import opened Sha1Rounds
  import opened Streams
  import ShaContext
  import Sha1Context

  lemma JoinStep(chunks: seq<seq<byte>>, k: nat)
    requires k < |chunks|
    ensures Join(chunks[..k + 1]) == Join(chunks[..k]) + chunks[k]
  {
    assert chunks[..k + 1][..k] == chunks[..k];
  }

  /** The unsigned length of a chunk has 32 bits. */
  ghost predicate Chunks(chunks: seq<seq<byte>>) {
    forall k :: 0 <= k < |chunks| ==> |chunks[k]| < 0x1_0000_0000
  }

  method ShaDigest(chunks: seq<seq<byte>>) returns (digest: seq<byte>)
    requires Chunks(chunks)
    ensures digest == DigestBytes(Hash(INITIAL, Join(chunks)))
  {
    var ctx := new ShaContext.Context();
    for k := 0 to |chunks|
      invariant ctx.Valid() && ctx.message == Join(chunks[..k]) && fresh(ctx) && fresh(ctx.state) && fresh(ctx.buf)
    {
      JoinStep(chunks, k);
      ctx.Update(chunks[k]);
    }
    assert chunks[..|chunks|] == chunks;
    ctx.Final();
    digest := ctx.buf[..20];
  }

  /** sha1_update has no failure result; sha1_final refuses the digest of a message
      whose length in bits does not fit the length field. */
  method Sha1Digest(chunks: seq<seq<byte>>) returns (ok: bool, digest: seq<byte>)
    requires Chunks(chunks)
    ensures ok <==> |Join(chunks)| < 0x2000_0000_0000_0000
    ensures ok ==> digest == DigestBytes(Hash(INITIAL, Join(chunks)))
  {
    var ctx := new Sha1Context.Context();
    var hash := new byte[20];
    for k := 0 to |chunks|
      invariant ctx.Valid() && !ctx.computed && fresh(ctx) && fresh(ctx.digest) && fresh(ctx.block) && hash != ctx.block
      invariant ctx.corrupted <==> 8 * |Join(chunks[..k])| >= Sha1Context.TOO_LONG
      invariant !ctx.corrupted ==> ctx.message == Join(chunks[..k])
    {
      JoinStep(chunks, k);
      ctx.Update(chunks[k]);
    }
    assert chunks[..|chunks|] == chunks;
    ok := ctx.Final(hash);
    digest := hash[..];
  }

  /** One message, cut in two ways and given to the two programs: they agree if and
      only if it is shorter than 2^61 bytes. */
  method Compare(a: seq<seq<byte>>, b: seq<seq<byte>>) returns (agree: bool)
    requires Chunks(a) && Chunks(b) && Join(a) == Join(b)
    ensures agree <==> |Join(a)| < 0x2000_0000_0000_0000
  {
    var x := ShaDigest(a);
    var ok, y := Sha1Digest(b);
    agree := ok && x == y;
  }
}
