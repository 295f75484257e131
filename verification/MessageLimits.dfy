/** The size limit of the channel, for any stream of bytes: what is dispatched, and when a read is refused. */
module MessageLimits {
  import opened Bits
  import opened Collections
  import opened Memory
  import opened MessageFrames
  import opened Streams

  /** After every read, the message in part is not known to be over the limit. */
  predicate AllFitting(before: seq<byte>, chunks: seq<seq<byte>>)
    decreases |chunks|
  {
    chunks == [] ||
    (FindNext(Split(before + chunks[0]).rest).messageSize <= LIMIT && AllFitting(before + chunks[0], chunks[1..]))
  }

  /** One read of any stream. */
  lemma ReceiveIff(before: seq<byte>, chunk: seq<byte>)
    ensures var r, after := Receive(Split(before).rest, chunk), Split(before + chunk);
      && (r.ok <==> Roomy(before, chunk) && FindNext(after.rest).messageSize <= LIMIT)
      && (r.ok ==> r.overflow == after.rest && Split(before).messages + r.messages == after.messages)
  {
    SplitConcat(before, chunk);
  }

  /** However a stream is cut into reads, all are accepted if and only if every read has room and no message in part is
      known to be over the limit; then what is dispatched are the messages at the front of the stream. */
  lemma {:induction false} RunIff(before: seq<byte>, chunks: seq<seq<byte>>)
    ensures var r, all := Run(Split(before).rest, chunks), Split(before + Join(chunks));
      && (r.ok <==> AllRoomy(before, chunks) && AllFitting(before, chunks))
      && (r.ok ==> r.overflow == all.rest && Split(before).messages + r.messages == all.messages)
    decreases |chunks|
  {
    if chunks == [] {
      assert before + [] == before && Split(before).messages + [] == Split(before).messages;
    } else {
      var c, cs := chunks[0], chunks[1..];
      assert chunks == [c] + cs;
      JoinFirst(c, cs);
      Assoc(before, c, Join(cs));
      ReceiveIff(before, c);
      var first := Receive(Split(before).rest, c);
      if first.ok {
        RunIff(before + c, cs);
        Assoc(Split(before).messages, first.messages, Run(first.overflow, cs).messages);
      }
    }
  }

  lemma {:induction false} SplitBound(range: seq<byte>)
    ensures AllWithin(Split(range).messages, |range|)
    decreases |range|
  {
    var info := FindNext(range);
    if info.messageFound {
      SplitBound(range[info.messageEnd..]);
    }
  }

  /** With reads of at most the buffer's size no message over the limit is dispatched, whatever arrives. */
  lemma {:induction false} NeverTooLong(overflow: seq<byte>, chunks: seq<seq<byte>>)
    requires AllWithin(chunks, READ)
    ensures AllWithin(Run(overflow, chunks).messages, LIMIT)
    decreases |chunks|
  {
    if chunks != [] {
      var c := chunks[0];
      SplitBound(overflow + c);
      assert AllWithin(Receive(overflow, c).messages, LIMIT);
      NeverTooLong(Receive(overflow, c).overflow, chunks[1..]);
    }
  }

  /** The size is in the header. */
  lemma SizeInHeader(m: seq<byte>, k: nat)
    requires HEADER <= k <= |m|
    ensures FindNext(m[..k]).messageSize == FindNext(m).messageSize
  {
    HeaderStays(m[..k], m[k..]);
    assert m[..k] + m[k..] == m;
  }

  lemma LongIsPartial(tail: seq<byte>)
    requires HEADER <= |tail| <= LIMIT && FindNext(tail).messageSize > LIMIT
    ensures !FindNext(tail).messageFound
  {
  }

  /** A read is refused, at the latest the one that completes the header of a message over the limit. */
  lemma {:induction false} LongRefused(messages: seq<seq<byte>>, tail: seq<byte>, before: seq<byte>,
                                       chunks: seq<seq<byte>>)
    requires AllMessages(messages) && |tail| >= HEADER && FindNext(tail).messageSize > LIMIT
    requires AllWithin(chunks, READ) && before + Join(chunks) == Join(messages) + tail
    requires |before| < |Join(messages)| + HEADER
    ensures !AllFitting(before, chunks) || !AllRoomy(before, chunks)
    decreases |chunks|
  {
    assert chunks == [] ==> before + Join(chunks) == before;
    if chunks != [] {
      var c, cs := chunks[0], chunks[1..];
      assert chunks == [c] + cs;
      JoinFirst(c, cs);
      Assoc(before, c, Join(cs));
      var now := before + c;
      if |now| < |Join(messages)| + HEADER {
        LongRefused(messages, tail, now, cs);
      } else {
        Back(now, Join(cs), Join(messages), tail);
        var part := now[|Join(messages)|..];
        assert part == tail[..|part|];
        SizeInHeader(tail, |part|);
        LongIsPartial(part);
        SplitUnique(messages, part);
      }
    }
  }

  /** From the start of a connection. */
  lemma TooLongRefused(messages: seq<seq<byte>>, tail: seq<byte>, chunks: seq<seq<byte>>)
    requires AllMessages(messages) && |tail| >= HEADER && FindNext(tail).messageSize > LIMIT
    requires AllWithin(chunks, READ) && Join(chunks) == Join(messages) + tail
    ensures !Run([], chunks).ok
  {
    assert [] + Join(chunks) == Join(chunks) && Split([]) == Pieces([], []);
    LongRefused(messages, tail, [], chunks);
    RunIff([], chunks);
  }

  // ---------- The header and the limit ----------

  /** The first four bytes of a header of 24 bytes are the size of the payload behind it, the lowest byte first. */
  lemma HeaderSays(range: seq<byte>)
    ensures |range| < 24 ==> FindNext(range) == MessageInfo(0, false, 0)
    ensures |range| >= 24 ==>
      var size := 24 + Word(range[0], range[1], range[2], range[3]);
      FindNext(range) == MessageInfo(size, |range| >= size, if |range| >= size then size else 0)
  {
  }

  /** A read is refused if and only if it brings the bytes kept over 128 megabytes, which without bytes kept it may, or
      a message in part is known to be longer; then nothing is kept. */
  lemma ReceiveRefused(kept: seq<byte>, input: seq<byte>)
    ensures var r, all := Receive(kept, input), Split(kept + input);
      var tooMuch := kept != [] && |kept| + |input| > 134217728;
      && (r.ok <==> !tooMuch && FindNext(all.rest).messageSize <= 134217728)
      && r.messages == (if tooMuch then [] else all.messages)
      && r.overflow == (if r.ok then all.rest else [])
  {
  }
}
