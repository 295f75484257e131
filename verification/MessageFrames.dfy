/** How a stream of bytes falls into messages: Pickle::PeekNext, Message::FindNext and the
    input loop of 3rd/IPC/source/ipc_win/ipc_channel_pipe.cpp. size_t has 64 bits. */
module MessageFrames {
  import opened Bits
  import opened Collections
  import opened Memory
  import opened Streams

  const SIZE_MAX: nat := 0xffff_ffff_ffff_ffff

  /** sizeof(Message::Header) */
  const HEADER: nat := 24

  /** ChannelPipe::kMaximumMessageSize */
  const LIMIT: nat := 0x800_0000

  /** ChannelPipe::kReadBufferSize */
  const READ: nat := 4096

  /** sizeof(Pickle::Header), which holds the payload's size */
  const SIZE_FIELD: nat := 4

  /** Pickle::PeekNext: the size of the pickle that begins the range, if its header is there. */
  function PeekNext(headerSize: nat, range: seq<byte>): Option<nat> {
    if |range| < SIZE_FIELD || |range| < headerSize then None
    else if Load32(range, 0) > SIZE_MAX - headerSize then Some(SIZE_MAX)
    else Some(headerSize + Load32(range, 0))
  }

  datatype MessageInfo = MessageInfo(messageSize: nat, messageFound: bool, messageEnd: nat)

  /** Message::FindNext */
  function FindNext(range: seq<byte>): (info: MessageInfo)
    ensures info.messageFound ==> HEADER <= info.messageEnd <= |range|
  {
    match PeekNext(HEADER, range)
    case None => MessageInfo(0, false, 0)
    case Some(size) => if |range| >= size then MessageInfo(size, true, size) else MessageInfo(size, false, 0)
  }

  /** A whole message: a header that gives the size of the payload, and the payload. */
  predicate IsMessage(m: seq<byte>) { |m| >= HEADER && |m| == HEADER + Load32(m, 0) }

  lemma HeaderStays(m: seq<byte>, more: seq<byte>)
    requires |m| >= 4
    ensures Load32(m + more, 0) == Load32(m, 0)
  {
  }

  lemma FoundIsMessage(range: seq<byte>, k: nat)
    requires k <= |range|
    ensures FindNext(range).messageFound && FindNext(range).messageEnd == k <==> IsMessage(range[..k])
  {
    if k >= HEADER {
      HeaderStays(range[..k], range[k..]);
      assert range[..k] + range[k..] == range;
    }
  }

  /** A message is found exactly if the range begins with one. */
  lemma FindNextIff(range: seq<byte>)
    ensures FindNext(range).messageFound <==> exists k :: 0 <= k <= |range| && IsMessage(range[..k])
  {
    forall k | 0 <= k <= |range|
      ensures FindNext(range).messageFound && FindNext(range).messageEnd == k <==> IsMessage(range[..k])
    {
      FoundIsMessage(range, k);
    }
    if FindNext(range).messageFound {
      assert IsMessage(range[..FindNext(range).messageEnd]);
    }
  }

  // ---------- Splitting a range ----------

  datatype Pieces = Pieces(messages: seq<seq<byte>>, rest: seq<byte>)

  /** The messages at the front of a range, and what is left. */
  function Split(range: seq<byte>): (r: Pieces)
    ensures |r.rest| <= |range|
    decreases |range|
  {
    var info := FindNext(range);
    if !info.messageFound then Pieces([], range) else
      var tail := Split(range[info.messageEnd..]);
      Pieces([range[..info.messageEnd]] + tail.messages, tail.rest)
  }

  predicate AllMessages(messages: seq<seq<byte>>) {
    forall i :: 0 <= i < |messages| ==> IsMessage(messages[i])
  }

  lemma Parted(messages: seq<seq<byte>>)
    requires messages != [] && AllMessages(messages)
    ensures messages == [messages[0]] + messages[1..] && AllMessages(messages[1..])
  {
  }

  lemma {:induction false} JoinFirst(x: seq<byte>, xs: seq<seq<byte>>)
    ensures Join([x] + xs) == x + Join(xs)
  {
    if xs == [] {
      assert Join([x]) == Join([x][..0]) + x;
      assert [x] + xs == [x] && [x][..0] == [] && x + Join(xs) == x;
    } else {
      var front, last := xs[..|xs| - 1], xs[|xs| - 1];
      JoinLast([x] + xs, [x] + front, last);
      JoinFirst(x, front);
      Assoc(x, Join(front), last);
    }
  }

  lemma JoinLast(xs: seq<seq<byte>>, front: seq<seq<byte>>, last: seq<byte>)
    requires xs == front + [last]
    ensures Join(xs) == Join(front) + last
  {
    assert xs[..|xs| - 1] == front;
  }

  lemma JoinFront(x: seq<byte>, xs: seq<seq<byte>>, rest: seq<byte>)
    ensures Join([x] + xs) + rest == x + (Join(xs) + rest)
  {
    JoinFirst(x, xs);
    Assoc(x, Join(xs), rest);
  }

  /** A message at the front of a range comes first, and the rest is split as it would be alone. */
  lemma SplitMessage(m: seq<byte>, more: seq<byte>, messages: seq<seq<byte>>, rest: seq<byte>)
    requires IsMessage(m) && Split(more) == Pieces(messages, rest)
    ensures Split(m + more) == Pieces([m] + messages, rest)
  {
    HeaderStays(m, more);
    assert (m + more)[..|m|] == m && (m + more)[|m|..] == more;
  }

  lemma SplitFound(range: seq<byte>)
    requires FindNext(range).messageFound
    ensures var k := FindNext(range).messageEnd;
      && 0 < k <= |range| && range == range[..k] + range[k..] && IsMessage(range[..k])
      && Split(range) == Pieces([range[..k]] + Split(range[k..]).messages, Split(range[k..]).rest)
  {
    FoundIsMessage(range, FindNext(range).messageEnd);
  }

  /** Nothing is lost or made up: the pieces make up the range. */
  lemma {:induction false} SplitJoins(range: seq<byte>)
    ensures Join(Split(range).messages) + Split(range).rest == range
    decreases |range|
  {
    if FindNext(range).messageFound {
      SplitFound(range);
      var k := FindNext(range).messageEnd;
      SplitJoins(range[k..]);
      JoinFront(range[..k], Split(range[k..]).messages, Split(range).rest);
    } else {
      assert Join([]) + range == range;
    }
  }

  /** The pieces are messages, and no message is left. */
  lemma {:induction false} SplitWhole(range: seq<byte>)
    ensures AllMessages(Split(range).messages) && !FindNext(Split(range).rest).messageFound
    decreases |range|
  {
    if FindNext(range).messageFound {
      SplitFound(range);
      SplitWhole(range[FindNext(range).messageEnd..]);
    }
  }

  /** Messages at the front of a range come out as they were put in. */
  lemma {:induction false} SplitAfter(messages: seq<seq<byte>>, more: seq<byte>)
    requires AllMessages(messages)
    ensures Split(Join(messages) + more) == Pieces(messages + Split(more).messages, Split(more).rest)
  {
    var after := Split(more);
    if messages == [] {
      assert Join(messages) + more == more && messages + after.messages == after.messages;
    } else {
      var m, ms := messages[0], messages[1..];
      Parted(messages);
      SplitAfter(ms, more);
      JoinFront(m, ms, more);
      SplitMessage(m, Join(ms) + more, ms + after.messages, after.rest);
      Assoc([m], ms, after.messages);
    }
  }

  /** There is one way only to split a range into messages and a part that begins with none. */
  lemma SplitUnique(messages: seq<seq<byte>>, tail: seq<byte>)
    requires AllMessages(messages) && !FindNext(tail).messageFound
    ensures Split(Join(messages) + tail) == Pieces(messages, tail)
  {
    SplitAfter(messages, tail);
    assert messages + [] == messages;
  }

  /** A range that arrives in two parts is split as if it had come at once. */
  lemma SplitConcat(a: seq<byte>, b: seq<byte>)
    ensures var first := Split(a);
      var second := Split(first.rest + b);
      Split(a + b) == Pieces(first.messages + second.messages, second.rest)
  {
    var first := Split(a);
    SplitJoins(a);
    SplitWhole(a);
    Assoc(Join(first.messages), first.rest, b);
    SplitAfter(first.messages, first.rest + b);
  }

  /** No message is found in the beginning of one, and its size is known as soon as its header is. */
  lemma PrefixIsPartial(m: seq<byte>, k: nat)
    requires IsMessage(m) && k < |m|
    ensures !FindNext(m[..k]).messageFound
    ensures FindNext(m[..k]).messageSize == if k < HEADER then 0 else |m|
  {
    if k >= HEADER {
      HeaderStays(m[..k], m[k..]);
      assert m[..k] + m[k..] == m;
    }
  }

  // ---------- The channel ----------

  /** What one read gives: whether it is accepted, the messages, and the bytes kept. */
  datatype Received = Received(ok: bool, messages: seq<seq<byte>>, overflow: seq<byte>)

  function Receive(overflow: seq<byte>, input: seq<byte>): Received {
    if overflow != [] && |overflow| + |input| > LIMIT then Received(false, [], []) else
      var r := Split(overflow + input);
      if FindNext(r.rest).messageSize > LIMIT then Received(false, r.messages, [])
      else Received(true, r.messages, r.rest)
  }

  class Channel {
    var overflow: seq<byte>
    /** The messages given to the listener or to its queue, in order. */
    var dispatched: seq<seq<byte>>

    constructor ()
      ensures overflow == [] && dispatched == []
    {
      overflow, dispatched := [], [];
    }

    method CheckMessageSize(size: nat) returns (ok: bool)
      modifies this`overflow
      ensures ok == (size <= LIMIT) && overflow == if ok then old(overflow) else []
    {
      if size <= LIMIT {
        return true;
      }
      overflow := [];
      ok := false;
    }

    /** The messages at the front are dispatched. */
    method TranslateRange(range: seq<byte>) returns (ok: bool)
      modifies this
      ensures dispatched == old(dispatched) + Split(range).messages
      ensures ok == (FindNext(Split(range).rest).messageSize <= LIMIT)
      ensures overflow == if ok then Split(range).rest else []
    {
      var p := range;
      var partial := false;
      while p != [] && !partial
        invariant dispatched + Split(p).messages == old(dispatched) + Split(range).messages
        invariant Split(p).rest == Split(range).rest && (partial ==> !FindNext(p).messageFound)
        invariant partial ==> FindNext(p).messageSize <= LIMIT
        decreases |p|, !partial
      {
        var info := FindNext(p);
        if info.messageFound {
          Assoc(dispatched, [p[..info.messageEnd]], Split(p[info.messageEnd..]).messages);
          dispatched := dispatched + [p[..info.messageEnd]];
          p := p[info.messageEnd..];
        } else {
          ok := CheckMessageSize(info.messageSize);
          if !ok {
            return;
          }
          partial := true;
        }
      }
      overflow := p;
      ok := true;
    }

    method TranslateInputData(input: seq<byte>) returns (ok: bool)
      modifies this
      ensures var r := Receive(old(overflow), input);
        ok == r.ok && overflow == r.overflow && dispatched == old(dispatched) + r.messages
    {
      if overflow == [] {
        assert overflow + input == input;
        ok := TranslateRange(input);
      } else {
        ok := CheckMessageSize(|overflow| + |input|);
        if !ok {
          return;
        }
        overflow := overflow + input;
        ok := TranslateRange(overflow);
      }
    }
  }

  // ---------- Reading a stream ----------

  /** Read after read, until one is refused and the channel closes. */
  function Run(overflow: seq<byte>, chunks: seq<seq<byte>>): Received
    decreases |chunks|
  {
    if chunks == [] then Received(true, [], overflow) else
      var first := Receive(overflow, chunks[0]);
      if !first.ok then first else
        var after := Run(first.overflow, chunks[1..]);
        Received(after.ok, first.messages + after.messages, after.overflow)
  }

  predicate AllWithin(messages: seq<seq<byte>>, limit: nat) {
    forall i :: 0 <= i < |messages| ==> |messages[i]| <= limit
  }

  /** The part of a message kept from the bytes read before leaves room for the next bytes. */
  predicate Roomy(before: seq<byte>, chunk: seq<byte>) {
    var kept := Split(before).rest;
    kept == [] || |kept| + |chunk| <= LIMIT
  }

  predicate AllRoomy(before: seq<byte>, chunks: seq<seq<byte>>)
    decreases |chunks|
  {
    chunks == [] || (Roomy(before, chunks[0]) && AllRoomy(before + chunks[0], chunks[1..]))
  }

  /** The bytes kept from the beginning of a stream of messages are part of one of them. */
  lemma {:induction false} KeptIsPart(messages: seq<seq<byte>>, before: seq<byte>, after: seq<byte>, limit: nat)
    requires AllMessages(messages) && AllWithin(messages, limit) && before + after == Join(messages)
    ensures var kept := Split(before).rest;
      (kept == [] || |kept| < limit) && FindNext(kept).messageSize <= limit
  {
    if messages == [] {
      assert before == [];
    } else {
      var m, ms := messages[0], messages[1..];
      Parted(messages);
      JoinFirst(m, ms);
      if |before| < |m| {
        Front(before, after, m, Join(ms));
        PrefixIsPartial(m, |before|);
      } else {
        var rest := before[|m|..];
        Back(before, after, m, Join(ms));
        KeptIsPart(ms, rest, after, limit);
        SplitMessage(m, rest, Split(rest).messages, Split(rest).rest);
      }
    }
  }

  lemma Front<T>(a: seq<T>, b: seq<T>, c: seq<T>, d: seq<T>)
    requires a + b == c + d && |a| < |c|
    ensures a == c[..|a|]
  {
    assert (a + b)[..|a|] == a && (c + d)[..|a|] == c[..|a|];
  }

  lemma Back<T>(a: seq<T>, b: seq<T>, c: seq<T>, d: seq<T>)
    requires a + b == c + d && |c| <= |a|
    ensures a == c + a[|c|..] && a[|c|..] + b == d
  {
    assert (a + b)[..|c|] == a[..|c|] && (c + d)[..|c|] == c;
    assert (a + b)[|c|..] == a[|c|..] + b && (c + d)[|c|..] == d;
  }

  /** One read of a stream of messages that follows what has been read before. */
  lemma ReceiveNext(messages: seq<seq<byte>>, before: seq<byte>, chunk: seq<byte>, after: seq<byte>)
    requires AllMessages(messages) && AllWithin(messages, LIMIT)
    requires before + (chunk + after) == Join(messages)
    ensures var r := Receive(Split(before).rest, chunk);
      && r.ok == Roomy(before, chunk)
      && (r.ok ==> r.overflow == Split(before + chunk).rest)
      && (r.ok ==> Split(before).messages + r.messages == Split(before + chunk).messages)
  {
    SplitConcat(before, chunk);
    Assoc(before, chunk, after);
    KeptIsPart(messages, before + chunk, after, LIMIT);
  }

  lemma {:induction false} RunFrom(messages: seq<seq<byte>>, before: seq<byte>, chunks: seq<seq<byte>>)
    requires AllMessages(messages) && AllWithin(messages, LIMIT) && before + Join(chunks) == Join(messages)
    ensures var r := Run(Split(before).rest, chunks);
      && r.ok == AllRoomy(before, chunks)
      && (r.ok ==> r.overflow == [] && Split(before).messages + r.messages == messages)
    decreases |chunks|
  {
    if chunks == [] {
      SplitUnique(messages, []);
      assert before + [] == before && Join(messages) + [] == Join(messages);
      assert Split(before).messages + [] == Split(before).messages;
    } else {
      var c, cs := chunks[0], chunks[1..];
      assert chunks == [c] + cs;
      JoinFirst(c, cs);
      ReceiveNext(messages, before, c, Join(cs));
      var first := Receive(Split(before).rest, c);
      if first.ok {
        Assoc(before, c, Join(cs));
        RunFrom(messages, before + c, cs);
        Assoc(Split(before).messages, first.messages, Run(first.overflow, cs).messages);
      }
    }
  }

  /** However a stream of messages within the limit is cut into reads, the messages come out
      as they went in if and only if no read starts with kept bytes that it takes over the limit;
      otherwise a read is refused. */
  lemma DeliveredIff(messages: seq<seq<byte>>, chunks: seq<seq<byte>>)
    requires AllMessages(messages) && AllWithin(messages, LIMIT) && Join(chunks) == Join(messages)
    ensures Run([], chunks) == Received(true, messages, []) <==> AllRoomy([], chunks)
    ensures Run([], chunks).ok <==> AllRoomy([], chunks)
  {
    assert [] + Join(chunks) == Join(messages);
    assert Split([]) == Pieces([], []);
    RunFrom(messages, [], chunks);
    var r := Run([], chunks);
    assert [] + r.messages == r.messages;
  }

  lemma {:induction false} ShortIsRoomy(messages: seq<seq<byte>>, before: seq<byte>, chunks: seq<seq<byte>>)
    requires AllMessages(messages) && AllWithin(messages, LIMIT - READ + 1) && AllWithin(chunks, READ)
    requires before + Join(chunks) == Join(messages)
    ensures AllRoomy(before, chunks)
    decreases |chunks|
  {
    if chunks != [] {
      var c, cs := chunks[0], chunks[1..];
      assert chunks == [c] + cs;
      JoinFirst(c, cs);
      Assoc(before, c, Join(cs));
      KeptIsPart(messages, before, Join(chunks), LIMIT - READ + 1);
      ShortIsRoomy(messages, before + c, cs);
    }
  }

  /** Reads fill at most the read buffer, so messages that much shorter always come through. */
  lemma ShortDelivered(messages: seq<seq<byte>>, chunks: seq<seq<byte>>)
    requires AllMessages(messages) && AllWithin(messages, LIMIT - READ + 1) && AllWithin(chunks, READ)
    requires Join(chunks) == Join(messages)
    ensures Run([], chunks) == Received(true, messages, [])
  {
    assert [] + Join(chunks) == Join(messages);
    ShortIsRoomy(messages, [], chunks);
    DeliveredIff(messages, chunks);
  }

  lemma {:induction false} LastRoomy(before: seq<byte>, chunks: seq<seq<byte>>, last: seq<byte>)
    requires AllRoomy(before, chunks + [last])
    ensures Roomy(before + Join(chunks), last)
    decreases |chunks|
  {
    var all := chunks + [last];
    if chunks == [] {
      assert before + Join(chunks) == before;
    } else {
      var c, cs := chunks[0], chunks[1..];
      assert chunks == [c] + cs && all[1..] == cs + [last];
      JoinFirst(c, cs);
      LastRoomy(before + c, cs, last);
      Assoc(before, c, Join(cs));
    }
  }

  /** Longer ones may not, though within the limit: however the beginning of a message is read, the
      read that completes it is refused if it brings a message too many for the limit. */
  lemma WithinLimitRefused(m: seq<byte>, next: seq<byte>, k: nat, chunks: seq<seq<byte>>)
    requires IsMessage(m) && IsMessage(next) && |m| <= LIMIT && |next| <= LIMIT
    requires 0 < k < |m| && |m| + |next| > LIMIT && Join(chunks) == m[..k]
    ensures !Run([], chunks + [m[k..] + next]).ok
  {
    var last := m[k..] + next;
    TwoMessages(m, next, k, chunks);
    DeliveredIff([m, next], chunks + [last]);
    PrefixIsPartial(m, k);
    assert !Roomy(m[..k], last);
    assert [] + Join(chunks) == m[..k];
    if AllRoomy([], chunks + [last]) {
      LastRoomy([], chunks, last);
    }
  }

  lemma TwoMessages(m: seq<byte>, next: seq<byte>, k: nat, chunks: seq<seq<byte>>)
    requires k < |m| && Join(chunks) == m[..k]
    ensures Join(chunks + [m[k..] + next]) == Join([m, next])
  {
    JoinLast(chunks + [m[k..] + next], chunks, m[k..] + next);
    JoinLast([m, next], [m], next);
    JoinLast([m], [], m);
    Assoc(m[..k], m[k..], next);
    assert m[..k] + m[k..] == m && [] + m == m;
  }

  /** Bytes as a pipe may give them: the read buffer filled again and again. */
  function Reads(b: seq<byte>): seq<seq<byte>>
    decreases |b|
  {
    if |b| <= READ then [b] else [b[..READ]] + Reads(b[READ..])
  }

  lemma {:induction false} ReadsJoin(b: seq<byte>)
    ensures Join(Reads(b)) == b && AllWithin(Reads(b), READ)
    decreases |b|
  {
    if |b| <= READ {
      JoinLast([b], [], b);
    } else {
      ReadsJoin(b[READ..]);
      JoinFirst(b[..READ], Reads(b[READ..]));
    }
  }

  ghost predicate Refuses(messages: seq<seq<byte>>, chunks: seq<seq<byte>>) {
    AllWithin(chunks, READ) && Join(chunks) == Join(messages) && !Run([], chunks).ok
  }

  /** Reads that fit the read buffer can refuse two messages within the limit as soon as both together
      exceed it and the second is shorter than the buffer. */
  lemma RefusedInReads(m: seq<byte>, next: seq<byte>)
    requires IsMessage(m) && IsMessage(next) && |m| <= LIMIT && |next| < READ && |m| + |next| > LIMIT
    ensures exists chunks :: Refuses([m, next], chunks)
  {
    var k := |m| - 1;
    var chunks, last := Reads(m[..k]), m[k..] + next;
    ReadsJoin(m[..k]);
    WithinLimitRefused(m, next, k, chunks);
    TwoMessages(m, next, k, chunks);
    assert Refuses([m, next], chunks + [last]);
  }
}
