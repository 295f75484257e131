/** Messages of typed values through a channel: what the writers of Pickles put into messages comes
    out of the reads of MessageFrames and of the iterators, however the stream is cut. */
module PickleMessages {
  import opened Bits
  import opened Collections
  import opened Memory
  import opened MessageFrames
  import opened Pickles
  import opened PickleObjects
  import opened Streams

  /** The payload up to the size that 32 bits hold. */
  function Cut(items: seq<Item>): (r: seq<byte>)
    ensures |r| < 0x1_0000_0000
  {
    DivModBounds(|Encode(items)|, TWO_32);
    Encode(items)[..|Encode(items)| % TWO_32]
  }

  lemma CutIff(items: seq<Item>)
    ensures Cut(items) == Encode(items) <==> |Encode(items)| < 0x1_0000_0000
    ensures Whole(|Cut(items)|)
  {
    var n := |Encode(items)|;
    EncodeWhole(items);
    SizeWhole(n);
    if n < TWO_32 {
      DivModUnique(n, TWO_32, 0, n);
    }
  }

  /** A message: the size, the other fields of the header, and the items as far as the size goes. */
  function Framed(head: seq<byte>, items: seq<Item>): seq<byte> {
    LeBytes(|Cut(items)|, 4) + head + Cut(items)
  }

  lemma LoadLe(b: seq<byte>, v: nat, rest: seq<byte>)
    requires v < TWO_32 && b == LeBytes(v, 4) + rest
    ensures Load32(b, 0) == v
  {
    assert Pow2(8 * 4) == TWO_32 by {
      Pow2Values();
    }
    LeOfLeBytes(v, 4);
    LeOf4(LeBytes(v, 4));
    assert Le(LeBytes(v, 4)[4..]) == 0;
    assert b[0] == LeBytes(v, 4)[0] && b[1] == LeBytes(v, 4)[1] && b[2] == LeBytes(v, 4)[2] && b[3] == LeBytes(v, 4)[3];
  }

  /** What is framed is a message, whatever is cut off. */
  lemma FramedIsMessage(head: seq<byte>, items: seq<Item>)
    requires |head| == HEADER - 4
    ensures IsMessage(Framed(head, items)) && Load32(Framed(head, items), 0) == |Cut(items)|
    ensures Framed(head, items)[HEADER..] == Cut(items)
  {
    Assoc(LeBytes(|Cut(items)|, 4), head, Cut(items));
    LoadLe(Framed(head, items), |Cut(items)|, head + Cut(items));
    PayloadBehind(LeBytes(|Cut(items)|, 4), head, Cut(items));
  }

  lemma PayloadBehind(size: seq<byte>, head: seq<byte>, payload: seq<byte>)
    ensures (size + head + payload)[|size| + |head|..] == payload
  {
  }

  /** The front of a block: the size, the rest of the header and n bytes of the payload. */
  lemma BlockFront(block: seq<byte>, headerSize: nat, n: nat, head: seq<byte>, payload: seq<byte>)
    requires 4 <= headerSize && n <= |payload| && headerSize + |payload| <= |block| && Load32(block, 0) == n
    requires head == block[4..headerSize] && payload == block[headerSize..headerSize + |payload|]
    ensures block[..headerSize + n] == LeBytes(n, 4) + head + payload[..n]
  {
    BytesOfLoad(block, n);
    var front := block[..headerSize + n];
    assert front == front[..4] + front[4..headerSize] + front[headerSize..];
    assert front[..4] == block[..4] && front[4..headerSize] == head && front[headerSize..] == payload[..n];
  }

  lemma CutSize(items: seq<Item>, payload: seq<byte>, n: nat)
    requires payload == Encode(items) && n == |payload| % TWO_32
    ensures n <= |payload| && Cut(items) == payload[..n] && |Cut(items)| == n
  {
    DivModBounds(|payload|, TWO_32);
  }

  /** A pickle sends its items framed by its header. */
  lemma SentIsFramed(pickle: Pickle)
    requires pickle.Valid()
    ensures pickle.Sent() == Framed(pickle.Head(), pickle.items)
  {
    var n, head, payload := pickle.PayloadSize(), pickle.Head(), pickle.Payload();
    CutSize(pickle.items, payload, n);
    BlockFront(pickle.block[..], pickle.headerSize, n, head, payload);
  }

  lemma BytesOfLoad(b: seq<byte>, v: nat)
    requires |b| >= 4 && Load32(b, 0) == v
    ensures b[..4] == LeBytes(v, 4)
  {
    LeOf4(b[..4]);
    assert Le(b[..4][4..]) == 0;
    LeBytesOfLe(b[..4]);
  }

  /** The size of the header of a pickle over received bytes, or 0 if something is wrong with them.
      The number of bytes is converted to int. */
  function HeaderSize(data: seq<byte>): (n: nat)
    ensures n <= |data|
  {
    DivModBounds(|data|, TWO_32);
    var len := |data| % TWO_32;
    if len < 4 || len >= 0x8000_0000 then 0 else
      var n := (len - Load32(data, 0)) % TWO_32;
      if n > len || !Whole(n) then 0 else n
  }

  /** The payload that an iterator over received bytes sees. */
  function ReceivedPayload(data: seq<byte>): seq<byte> {
    var n := HeaderSize(data);
    if n == 0 || n + Load32(data, 0) > |data| then [] else data[n..n + Load32(data, 0)]
  }

  /** The payload that a pickle finds in bytes it has not written: as many bytes at the end as the first four say, if
      those before them are at least one and a multiple of four, and nothing otherwise. */
  lemma OpenedPayload(data: seq<byte>, v: nat)
    requires 4 <= |data| < 0x8000_0000 && v == Word(data[0], data[1], data[2], data[3])
    ensures ReceivedPayload(data)
      == if v < |data| && (|data| - v) % 4 == 0 then data[|data| - v..] else []
  {
    var len := |data|;
    DivModUnique(len, TWO_32, 0, len);
    DivModUnique(len - v, TWO_32, if v <= len then 0 else -1, if v <= len then len - v else len - v + TWO_32);
    if v <= len {
      WholeIs(len - v);
    }
  }

  lemma TooFewBytes(data: seq<byte>)
    requires |data| < 4
    ensures ReceivedPayload(data) == []
  {
    DivModUnique(|data|, TWO_32, 0, |data|);
  }

  /** A message is opened if and only if its size is an int. */
  lemma MessageHeader(data: seq<byte>)
    requires IsMessage(data)
    ensures HeaderSize(data) == if |data| < 0x8000_0000 then HEADER else 0
  {
    var payload := Load32(data, 0);
    WholeIs(HEADER);
    if |data| < TWO_32 {
      DivModUnique(|data|, TWO_32, 0, |data|);
      DivModUnique(HEADER, TWO_32, 0, HEADER);
    } else {
      var len := |data| - TWO_32;
      DivModUnique(|data|, TWO_32, 1, len);
      DivModUnique(len - payload, TWO_32, -1, HEADER);
    }
  }

  lemma ReceivedIs(head: seq<byte>, items: seq<Item>)
    requires |head| == HEADER - 4
    ensures ReceivedPayload(Framed(head, items)) == if HEADER + |Cut(items)| < 0x8000_0000 then Cut(items) else []
  {
    var data := Framed(head, items);
    FramedIsMessage(head, items);
    MessageHeader(data);
    if HEADER + |Cut(items)| < 0x8000_0000 {
      assert data[HEADER..|data|] == data[HEADER..];
    }
  }

  /** Items cannot be read from fewer bytes than they have. */
  lemma NotRead(items: seq<Item>, p: seq<byte>)
    requires Whole(|p|) && |p| < |Encode(items)|
    ensures ReadAll(Kinds(items), p, 0).0 != Some(items)
  {
    if ReadAll(Kinds(items), p, 0).0 == Some(items) {
      AllConsume(items, p, 0);
    }
  }

  /** Received again, the items are read back if and only if the message's size is an int. */
  lemma ReopenedIff(head: seq<byte>, items: seq<Item>)
    requires |head| == HEADER - 4 && AllFit(items)
    ensures var p := ReceivedPayload(Framed(head, items));
      && (ReadAll(Kinds(items), p, 0).0 == Some(items) <==> HEADER + |Encode(items)| < 0x8000_0000)
      && (HEADER + |Encode(items)| < 0x8000_0000 ==> p == Encode(items))
  {
    ReceivedIs(head, items);
    CutIff(items);
    var p := ReceivedPayload(Framed(head, items));
    if HEADER + |Encode(items)| < 0x8000_0000 {
      EncodeWhole(items);
      AllRead(items, p, 0, |p|);
    } else {
      NotRead(items, p);
    }
  }

  /** What a pickle sends is a message. An iterator over the pickle reads its items back in order if and
      only if they have fewer than 2^32 bytes; an iterator over the received message, if and only if the
      size of the message is an int. */
  lemma SentIff(pickle: Pickle)
    requires pickle.Valid() && pickle.headerSize == HEADER
    ensures IsMessage(pickle.Sent())
    ensures ReadAll(Kinds(pickle.items), pickle.Sent()[HEADER..], 0).0 == Some(pickle.items)
      <==> pickle.writeOffset < 0x1_0000_0000
    ensures ReadAll(Kinds(pickle.items), ReceivedPayload(pickle.Sent()), 0).0 == Some(pickle.items)
      <==> HEADER + pickle.writeOffset < 0x8000_0000
  {
    SentIsFramed(pickle);
    FramedIsMessage(pickle.Head(), pickle.items);
    RoundTripIff(pickle.items);
    ReopenedIff(pickle.Head(), pickle.items);
  }

  /** What one side writes into one message. */
  datatype Letter = Letter(head: seq<byte>, items: seq<Item>)

  predicate Sendable(letter: Letter) {
    |letter.head| == HEADER - 4 && AllFit(letter.items) && HEADER + |Encode(letter.items)| <= LIMIT
  }

  predicate AllSendable(letters: seq<Letter>) { forall i :: 0 <= i < |letters| ==> Sendable(letters[i]) }

  function Envelopes(letters: seq<Letter>): (r: seq<seq<byte>>)
    ensures |r| == |letters|
  {
    seq(|letters|, i requires 0 <= i < |letters| => Framed(letters[i].head, letters[i].items))
  }

  lemma EnvelopesAreMessages(letters: seq<Letter>)
    requires AllSendable(letters)
    ensures AllMessages(Envelopes(letters)) && AllWithin(Envelopes(letters), LIMIT)
  {
    forall i | 0 <= i < |letters|
      ensures IsMessage(Envelopes(letters)[i]) && |Envelopes(letters)[i]| <= LIMIT
    {
      FramedIsMessage(letters[i].head, letters[i].items);
      CutIff(letters[i].items);
    }
  }

  /** The items of a message are read in order, and reading ends at its end. */
  ghost predicate Understood(letter: Letter, message: seq<byte>) {
    var p := ReceivedPayload(message);
    ReadAll(Kinds(letter.items), p, 0) == (Some(letter.items), |p|)
  }

  lemma LetterUnderstood(letter: Letter)
    requires Sendable(letter)
    ensures Understood(letter, Framed(letter.head, letter.items))
  {
    var p := Encode(letter.items);
    ReopenedIff(letter.head, letter.items);
    EncodeWhole(letter.items);
    AllRead(letter.items, p, 0, |p|);
  }

  /** From the typed writes on one side to the typed reads on the other: if every read has room for
      what it adds to the bytes kept, the messages arrive in order and every one of them is read back. */
  lemma Conversation(letters: seq<Letter>, chunks: seq<seq<byte>>)
    requires AllSendable(letters) && Join(chunks) == Join(Envelopes(letters)) && AllRoomy([], chunks)
    ensures var r := Run([], chunks);
      && r.ok && r.overflow == [] && |r.messages| == |letters|
      && forall i :: 0 <= i < |letters| ==> Understood(letters[i], r.messages[i])
  {
    EnvelopesAreMessages(letters);
    DeliveredIff(Envelopes(letters), chunks);
    forall i | 0 <= i < |letters| ensures Understood(letters[i], Run([], chunks).messages[i]) {
      LetterUnderstood(letters[i]);
    }
  }
}
