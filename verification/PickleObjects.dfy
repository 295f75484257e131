/** The classes Pickle and PickleIterator of 3rd/IPC/source/ipc_win over the functions of Pickles.
    The memory block of a pickle starts with the payload's size; the rest of the header belongs to
    the message. Allocations succeed. */
module PickleObjects {
  import opened Bits
  import opened Collections
  import opened Memory
  import opened Pickles

  /** Pickle::kPayloadUnit */
  const UNIT: nat := 64

  /** kPickleHeapAlign */
  const HEAP_ALIGN: nat := 4096

  /** Bytes in the place of as many others */
  predicate Spliced(before: seq<byte>, after: seq<byte>, at: nat, bytes: seq<byte>)
    requires at + |bytes| <= |before|
  {
    after == before[..at] + bytes + before[at + |bytes|..]
  }

  /** memcpy and memset into a block */
  method Copy(a: array<byte>, at: nat, bytes: seq<byte>)
    requires at + |bytes| <= a.Length
    modifies a
    ensures Spliced(old(a[..]), a[..], at, bytes)
  {
    var i := 0;
    assert a[..] == a[..at] + [] + a[at..];
    while i < |bytes|
      invariant i <= |bytes|
      invariant Spliced(old(a[..]), a[..], at, bytes[..i])
    {
      ghost var before := a[..];
      a[at + i] := bytes[i];
      Stored(before, a[..], old(a[..]), bytes, at, i);
      i := i + 1;
    }
    assert bytes[..|bytes|] == bytes;
  }

  lemma Stored(before: seq<byte>, after: seq<byte>, start: seq<byte>, bytes: seq<byte>, at: nat, i: nat)
    requires i < |bytes| && at + |bytes| <= |start|
    requires Spliced(start, before, at, bytes[..i]) && after == before[at + i := bytes[i]]
    ensures Spliced(start, after, at, bytes[..i + 1])
  {
    assert bytes[..i + 1] == bytes[..i] + [bytes[i]];
  }

  class Pickle {
    /** header_, with GetTotalAllocatedSize() bytes */
    var block: array<byte>
    const headerSize: nat
    /** capacity_after_header_ */
    var capacity: nat
    var writeOffset: nat
    /** The items written so far. */
    ghost var items: seq<Item>

    ghost predicate Allocated()
      reads this, block
    {
      headerSize >= 4 && block.Length == headerSize + capacity
    }

    ghost predicate Shaped()
      reads this, block
    {
      Allocated() && writeOffset <= capacity
    }

    ghost function PayloadSize(): u32
      reads this, block
      requires Shaped()
    {
      Load32(block[..], 0)
    }

    /** The bytes of the header behind the size */
    ghost function Head(): seq<byte>
      reads this, block
      requires Shaped()
    {
      block[4..headerSize]
    }

    ghost function Payload(): seq<byte>
      reads this, block
      requires Shaped()
    {
      block[headerSize..headerSize + writeOffset]
    }

    ghost predicate Valid()
      reads this, block
    {
      && Shaped()
      && PayloadSize() == writeOffset % TWO_32
      && AllFit(items) && Payload() == Encode(items)
    }

    /** data() up to size(): what is sent */
    ghost function Sent(): seq<byte>
      reads this, block
      requires Valid()
    {
      block[..headerSize + PayloadSize()]
    }

    constructor (size: nat)
      requires size >= 4
      ensures Valid() && fresh(block) && items == [] && headerSize == Align4(size) && capacity == 64
    {
      headerSize := Align4(size);
      capacity, writeOffset, items := 0, 0, [];
      block := new byte[Align4(size)];
      new;
      Resize(UNIT);
      SetPayloadSize(0);
    }

    method SetPayloadSize(size: u32)
      requires Shaped()
      modifies block
      ensures Shaped() && PayloadSize() == size && block[4..] == old(block[4..])
    {
      Store32(block, 0, size);
      assert Load32(block[..], 0) == Word(block[0], block[1], block[2], block[3]);
    }

    /** realloc: what was in the block stays, as far as the new block goes. */
    method Resize(newCapacity: nat)
      requires Allocated()
      modifies this`block, this`capacity
      ensures Allocated() && fresh(block) && capacity == Align(newCapacity, UNIT) >= newCapacity
      ensures var n := Min(old(block.Length), block.Length);
        block[..n] == old(block[..n])
    {
      AlignBounds(newCapacity, UNIT);
      capacity := Align(newCapacity, UNIT);
      var bigger := new byte[headerSize + capacity];
      var n := Min(block.Length, bigger.Length);
      Copy(bigger, 0, block[..n]);
      block := bigger;
    }

    /** Room for n bytes more, by doubling the capacity. */
    method MakeRoom(newSize: nat)
      requires Shaped()
      modifies this`block, this`capacity
      ensures Shaped() && newSize <= capacity && (block == old(block) || fresh(block))
      ensures newSize <= old(capacity) ==> capacity == old(capacity) && block == old(block)
      ensures newSize > old(capacity) ==>
        var doubled := 2 * old(capacity);
        var grown := if doubled > 4096 then Align(doubled, 4096) - 64 else doubled;
        capacity == Align(if grown > newSize then grown else newSize, 64)
      ensures Head() == old(Head()) && Payload() == old(Payload()) && PayloadSize() == old(PayloadSize())
    {
      if newSize > capacity {
        var newCapacity := capacity * 2;
        if newCapacity > HEAP_ALIGN {
          AlignBounds(newCapacity, HEAP_ALIGN);
          newCapacity := Align(newCapacity, HEAP_ALIGN) - UNIT;
        }
        Resize(if newCapacity > newSize then newCapacity else newSize);
        ghost var start := old(block[..]);
        Kept(block[..], start, headerSize, writeOffset);
      }
    }

    /** memcpy of the data and memset of the padding, behind the payload. */
    method PutPadded(data: seq<byte>)
      requires Shaped() && writeOffset + Align4(|data|) <= capacity
      modifies block
      ensures Spliced(old(block[..]), block[..], headerSize + writeOffset, Padded(data))
    {
      var write, zeros := headerSize + writeOffset, Zeros(Align4(|data|) - |data|);
      CopyBoth(block, write, data, zeros);
    }

    /** Behind the room that has been made. */
    method PutRecord(data: seq<byte>)
      requires Shaped() && writeOffset + Align4(|data|) <= capacity
      modifies this`writeOffset, block
      ensures Shaped() && Head() == old(Head()) && PayloadSize() == writeOffset % 0x1_0000_0000
      ensures Payload() == old(Payload()) + Padded(data)
    {
      ghost var before, record := block[..], Padded(data);
      PutPadded(data);
      ghost var padded := block[..];
      var newSize := writeOffset + Align4(|data|);
      SetPayloadSize(newSize % TWO_32);
      Appended(before, padded, block[..], record, headerSize, writeOffset);
      writeOffset := newSize;
    }

    method WriteBytesCommon(data: seq<byte>)
      requires Shaped()
      modifies this`block, this`capacity, this`writeOffset, block
      ensures Shaped() && (block == old(block) || fresh(block)) && Head() == old(Head())
      ensures Payload() == old(Payload()) + Padded(data) && PayloadSize() == writeOffset % 0x1_0000_0000
    {
      MakeRoom(writeOffset + Align4(|data|));
      PutRecord(data);
    }

    /** The item whose record has been put behind the payload is one of the items now. */
    ghost method Note(item: Item)
      requires Shaped() && PayloadSize() == writeOffset % TWO_32 && Fits(item)
      requires AllFit(items) && Payload() == Encode(items) + Record(item)
      modifies this`items
      ensures Valid() && items == old(items) + [item]
    {
      EncodeLast(items, item);
      items := items + [item];
    }

    method WriteInt(value: int)
      requires Valid() && Fits(Int(value))
      modifies this`block, this`capacity, this`writeOffset, this`items, block
      ensures Valid() && (block == old(block) || fresh(block)) && Head() == old(Head())
      ensures items == old(items) + [Int(value)]
    {
      WriteBytesCommon(IntBytes(value));
      PaddedFour(IntBytes(value));
      Note(Int(value));
    }

    /** A bool is written as an int. */
    method WriteBool(value: bool)
      requires Valid()
      modifies this`block, this`capacity, this`writeOffset, this`items, block
      ensures Valid() && (block == old(block) || fresh(block)) && Head() == old(Head())
      ensures items == old(items) + [Bool(value)]
    {
      WriteBytesCommon(IntBytes(if value then 1 else 0));
      PaddedFour(IntBytes(if value then 1 else 0));
      Note(Bool(value));
    }

    /** WritePOD: numbers of two, four or eight bytes. */
    method WriteFixed(width: nat, bits: nat)
      requires Valid() && Fits(Fixed(width, bits))
      modifies this`block, this`capacity, this`writeOffset, this`items, block
      ensures Valid() && (block == old(block) || fresh(block)) && Head() == old(Head())
      ensures items == old(items) + [Fixed(width, bits)]
    {
      WriteBytesCommon(LeBytes(bits, width));
      Note(Fixed(width, bits));
    }

    method WriteBytes(data: seq<byte>)
      requires Valid() && Fits(Raw(data))
      modifies this`block, this`capacity, this`writeOffset, this`items, block
      ensures Valid() && (block == old(block) || fresh(block)) && Head() == old(Head())
      ensures items == old(items) + [Raw(data)]
    {
      WriteBytesCommon(data);
      Note(Raw(data));
    }

    /** A number and bytes, in two writes. */
    method WriteSized(count: int, bytes: seq<byte>)
      requires Shaped()
      modifies this`block, this`capacity, this`writeOffset, block
      ensures Shaped() && (block == old(block) || fresh(block)) && Head() == old(Head())
      ensures Payload() == old(Payload()) + (IntBytes(count) + Padded(bytes))
      ensures PayloadSize() == writeOffset % 0x1_0000_0000
    {
      ghost var before := Payload();
      WriteBytesCommon(IntBytes(count));
      PaddedFour(IntBytes(count));
      WriteBytesCommon(bytes);
      assert before + IntBytes(count) + Padded(bytes) == before + (IntBytes(count) + Padded(bytes));
    }

    /** WriteString of a std::string, and WriteData. The length is converted to int: of a string of
        2^32 bytes or more only the remainder is written; a length that becomes negative is none. */
    method WriteText(value: seq<byte>)
      requires Valid() && |value| % TWO_32 < 0x8000_0000
      modifies this`block, this`capacity, this`writeOffset, this`items, block
      ensures Valid() && (block == old(block) || fresh(block)) && Head() == old(Head())
      ensures items == old(items) + [Text(value[..|value| % 0x1_0000_0000])]
    {
      DivModBounds(|value|, TWO_32);
      var size := |value| % TWO_32;
      WriteSized(size, value[..size]);
      Note(Text(value[..size]));
    }

    /** WriteString of a std::wstring; the same for its size in bytes. */
    method WriteWide(value: seq<u16>)
      requires Valid() && 2 * (|value| % TWO_32) < 0x8000_0000
      modifies this`block, this`capacity, this`writeOffset, this`items, block
      ensures Valid() && (block == old(block) || fresh(block)) && Head() == old(Head())
      ensures items == old(items) + [Wide(value[..|value| % 0x1_0000_0000])]
    {
      DivModBounds(|value|, TWO_32);
      var size := |value| % TWO_32;
      WriteSized(size, WideBytes(value[..size]));
      Note(Wide(value[..size]));
    }
  }

  lemma {:induction false} EncodeLast(items: seq<Item>, item: Item)
    ensures Encode(items + [item]) == Encode(items) + Record(item)
    decreases |items|
  {
    if items == [] {
      assert [] + [item] == [item] && [item][1..] == [];
      assert Record(item) + [] == Record(item) == [] + Record(item);
    } else {
      var first, rest := items[0], items[1..];
      assert items == [first] + rest;
      Assoc([first], rest, [item]);
      EncodeLast(rest, item);
      EncodeFront(first, rest + [item]);
      EncodeFront(first, rest);
      Assoc(Record(first), Encode(rest), Record(item));
    }
  }

  lemma Kept(after: seq<byte>, start: seq<byte>, headerSize: nat, writeOffset: nat)
    requires 4 <= headerSize && headerSize + writeOffset <= |start| <= |after| && after[..|start|] == start
    ensures after[4..headerSize] == start[4..headerSize] && Load32(after, 0) == Load32(start, 0)
    ensures after[headerSize..headerSize + writeOffset] == start[headerSize..headerSize + writeOffset]
  {
    assert forall i :: 0 <= i < |start| ==> after[i] == after[..|start|][i] == start[i];
  }

  method CopyBoth(a: array<byte>, at: nat, first: seq<byte>, second: seq<byte>)
    requires at + |first| + |second| <= a.Length
    modifies a
    ensures Spliced(old(a[..]), a[..], at, first + second)
  {
    ghost var before := a[..];
    Copy(a, at, first);
    ghost var copied := a[..];
    Copy(a, at + |first|, second);
    TwoCopies(before, copied, a[..], first, second, at);
  }

  lemma TwoCopies(before: seq<byte>, copied: seq<byte>, after: seq<byte>, a: seq<byte>, b: seq<byte>, at: nat)
    requires at + |a| + |b| <= |before| && Spliced(before, copied, at, a)
    requires |copied| == |before| && Spliced(copied, after, at + |a|, b)
    ensures Spliced(before, after, at, a + b)
  {
    assert copied[..at + |a|] == before[..at] + a;
    assert copied[at + |a| + |b|..] == before[at + |a| + |b|..];
  }

  /** Bytes appended to the payload, and a new size in the header. */
  lemma Appended(before: seq<byte>, padded: seq<byte>, after: seq<byte>, bytes: seq<byte>, headerSize: nat, offset: nat)
    requires 4 <= headerSize && headerSize + offset + |bytes| <= |before| == |after|
    requires Spliced(before, padded, headerSize + offset, bytes)
    requires after[4..] == padded[4..]
    ensures after[4..headerSize] == before[4..headerSize]
    ensures after[headerSize..headerSize + offset + |bytes|] == before[headerSize..headerSize + offset] + bytes
  {
    var end := headerSize + offset;
    var n := end + |bytes|;
    SliceOfRest(after, 4, 4, headerSize);
    SliceOfRest(padded, 4, 4, headerSize);
    SliceOfRest(after, 4, headerSize, n);
    SliceOfRest(padded, 4, headerSize, n);
    assert padded[4..headerSize] == before[4..headerSize];
    assert padded[headerSize..n] == before[headerSize..end] + bytes;
  }

  class PickleIterator {
    /** The payload, up to the size in the header */
    const payload: seq<byte>
    var readIndex: nat

    /** The index stays a multiple of four, if the payload is. */
    ghost predicate Valid()
      reads this
    {
      readIndex <= |payload| && (Whole(|payload|) ==> Whole(readIndex))
    }

    constructor (payload: seq<byte>)
      ensures Valid() && this.payload == payload && readIndex == 0
    {
      this.payload, readIndex := payload, 0;
    }

    method Skip(size: nat)
      requires Valid()
      modifies this
      ensures Valid() && readIndex == Advance(|payload|, old(readIndex), size)
    {
      var alignedSize := Align4(size);
      if Whole(|payload|) {
        AdvanceWhole(|payload|, readIndex, size);
      }
      readIndex := if |payload| - readIndex < alignedSize then |payload| else readIndex + alignedSize;
    }

    method GetReadPointerAndAdvance(n: int) returns (bytes: Option<seq<byte>>)
      requires Valid()
      modifies this
      ensures Valid() && (bytes, readIndex) == Grab(payload, old(readIndex), n)
    {
      if n < 0 || |payload| - readIndex < n {
        readIndex := |payload|;
        return None;
      }
      bytes := Some(payload[readIndex..readIndex + n]);
      Skip(n);
    }

    method ReadInt() returns (r: Option<int>)
      requires Valid()
      modifies this
      ensures Valid() && (r, readIndex) == ReadInt32(payload, old(readIndex))
    {
      var bytes := GetReadPointerAndAdvance(4);
      r := if bytes.None? then None else Some(ToInt32(Le(bytes.value)));
    }

    method ReadBool() returns (r: Option<Item>)
      requires Valid()
      modifies this
      ensures Valid() && (r, readIndex) == ReadAs(BoolKind, payload, old(readIndex))
    {
      var bytes := GetReadPointerAndAdvance(1);
      r := if bytes.None? then None else Some(Bool(bytes.value[0] != 0));
    }

    method ReadFixed(width: nat) returns (r: Option<Item>)
      requires Valid()
      modifies this
      ensures Valid() && (r, readIndex) == ReadAs(FixedKind(width), payload, old(readIndex))
    {
      var bytes := GetReadPointerAndAdvance(width);
      r := if bytes.None? then None else Some(Fixed(width, Le(bytes.value)));
    }

    method ReadText() returns (r: Option<Item>)
      requires Valid()
      modifies this
      ensures Valid() && (r, readIndex) == ReadAs(TextKind, payload, old(readIndex))
    {
      var n := ReadInt();
      if n.None? {
        return None;
      }
      var bytes := GetReadPointerAndAdvance(n.value);
      r := if bytes.None? then None else Some(Text(bytes.value));
    }

    method ReadWideText() returns (r: Option<Item>)
      requires Valid()
      modifies this
      ensures Valid() && (r, readIndex) == ReadAs(WideKind, payload, old(readIndex))
    {
      var n := ReadInt();
      if n.None? || !(-0x8000_0000 <= 2 * n.value < 0x8000_0000) {
        return None;
      }
      var bytes := GetReadPointerAndAdvance(2 * n.value);
      r := if bytes.None? then None else Some(Wide(Chars(bytes.value)));
    }

    method ReadBytes(length: int) returns (r: Option<Item>)
      requires Valid()
      modifies this
      ensures Valid() && (r, readIndex) == ReadAs(RawKind(length), payload, old(readIndex))
    {
      var bytes := GetReadPointerAndAdvance(length);
      r := if bytes.None? then None else Some(Raw(bytes.value));
    }
  }
}
