/** Typed values written one after the other into the payload of a message and read back:
    3rd/IPC/source/ipc_win/ipc_pickle.cpp and ipc_pickle.h. int and the payload size have 32 bits,
    wchar_t has 16; floating-point numbers are their bits. */
module Pickles {
  import opened Bits
  import opened Collections
  import opened Memory

  const TWO_32: nat := 0x1_0000_0000

  /** size rounded up to a multiple of unit */
  function Align(size: nat, unit: nat): nat
    requires unit > 0
  {
    (size + unit - 1) / unit * unit
  }

  lemma AlignBounds(size: nat, unit: nat)
    requires unit > 0
    ensures size <= Align(size, unit) < size + unit && Align(size, unit) % unit == 0
  {
    var x := size + unit - 1;
    DivModBounds(x, unit);
    DivModUnique(Align(size, unit), unit, x / unit, 0);
  }

  lemma TakeOne(n: int, q: int, p: int)
    requires n == q * p
    ensures n - p == (q - 1) * p
  {
  }

  lemma OnesAbove(k: nat, m: nat)
    ensures Pow2(m + k) - Pow2(k) == Shl(Ones(m), k)
  {
    Pow2Add(m, k);
    TakeOne(Pow2(m + k), Pow2(m), Pow2(k));
  }

  lemma LowAll(y: nat, m: nat)
    requires y < Pow2(m)
    ensures And(y, Ones(m)) == y
  {
    AndLowMask(y, m);
    DivModUnique(y, Pow2(m), 0, y);
  }

  lemma MaskHigh(x: nat, k: nat, m: nat, mask: nat)
    requires Shr(x, k) < Pow2(m) && mask == 0 + Shl(Ones(m), k)
    ensures And(x, mask) == Shl(Shr(x, k), k)
  {
    AndParts(x, 0, Ones(m), k);
    AndZero(Low(x, k));
    LowAll(Shr(x, k), m);
  }

  /** The mask of the program, ~(unit - 1) for a unit of k bits, in words of m + k bits. */
  lemma AlignMask(size: nat, k: nat, m: nat)
    requires size + Pow2(k) - 1 < Pow2(m + k)
    ensures Pow2(m + k) >= Pow2(k) && And(size + Pow2(k) - 1, Pow2(m + k) - Pow2(k)) == Align(size, Pow2(k))
  {
    var x := size + Pow2(k) - 1;
    OnesAbove(k, m);
    Pow2Add(m, k);
    DivBelow(x, Pow2(k), Pow2(m));
    MaskHigh(x, k, m, Pow2(m + k) - Pow2(k));
  }

  lemma AndZero(x: nat)
    ensures And(x, 0) == 0
  {
  }

  /** The same for the unit of the payload. */
  function Align4(size: nat): (r: nat)
    ensures size <= r < size + 4
  {
    if size == 0 then 0 else if size <= 4 then 4 else 4 + Align4(size - 4)
  }

  lemma {:induction false} Align4Is(size: nat)
    ensures Align4(size) == Align(size, 4)
  {
    if size > 4 {
      Align4Is(size - 4);
    }
  }

  // ---------- What is written ----------

  type u16 = x: int | 0 <= x < 0x1_0000

  datatype Item =
    | Bool(b: bool)
    | Int(i: int)
    | Fixed(width: nat, bits: nat)
    | Text(chars: seq<byte>)
    | Wide(wchars: seq<u16>)
    | Raw(bytes: seq<byte>)

  /** What the C types admit: sizes are converted to int, and a length in bytes is an int. */
  predicate Fits(item: Item) {
    match item
    case Bool(_) => true
    case Int(i) => -0x8000_0000 <= i < 0x8000_0000
    case Fixed(width, bits) => (width == 2 || width == 4 || width == 8) && bits < Pow2(8 * width)
    case Text(chars) => |chars| < 0x8000_0000
    case Wide(wchars) => 2 * |wchars| < 0x8000_0000
    case Raw(bytes) => |bytes| < 0x8000_0000
  }

  function Zeros(n: nat): (r: seq<byte>)
    ensures |r| == n
  {
    seq(n, _ => 0)
  }

  /** Bytes and the zeros up to a multiple of four. */
  function Padded(bytes: seq<byte>): (r: seq<byte>)
    ensures |r| == Align4(|bytes|)
  {
    bytes + Zeros(Align4(|bytes|) - |bytes|)
  }

  function WideBytes(wchars: seq<u16>): (r: seq<byte>)
    ensures |r| == 2 * |wchars|
  {
    if wchars == [] then [] else LeBytes(wchars[0], 2) + WideBytes(wchars[1..])
  }

  function IntBytes(i: int): (r: seq<byte>)
    ensures |r| == 4
  {
    LeBytes(i % TWO_32, 4)
  }

  /** What a typed write appends to the payload. */
  function Record(item: Item): seq<byte>
  {
    match item
    case Bool(b) => IntBytes(if b then 1 else 0)
    case Int(i) => IntBytes(i)
    case Fixed(width, bits) => Padded(LeBytes(bits, width))
    case Text(chars) => IntBytes(|chars|) + Padded(chars)
    case Wide(wchars) => IntBytes(|wchars|) + Padded(WideBytes(wchars))
    case Raw(bytes) => Padded(bytes)
  }

  function Encode(items: seq<Item>): seq<byte> {
    if items == [] then [] else Record(items[0]) + Encode(items[1..])
  }

  // ---------- What is read ----------

  datatype Kind = BoolKind | IntKind | FixedKind(width: nat) | TextKind | WideKind | RawKind(length: int)

  function KindOf(item: Item): Kind {
    match item
    case Bool(_) => BoolKind
    case Int(_) => IntKind
    case Fixed(width, _) => FixedKind(width)
    case Text(_) => TextKind
    case Wide(_) => WideKind
    case Raw(bytes) => RawKind(|bytes|)
  }

  function Kinds(items: seq<Item>): (r: seq<Kind>)
    ensures |r| == |items|
  {
    seq(|items|, i requires 0 <= i < |items| => KindOf(items[i]))
  }

  function ToInt32(v: nat): int {
    if v < 0x8000_0000 then v else v - TWO_32
  }

  /** The read index moved past size bytes and their padding, or to the end. */
  function Advance(end: nat, index: nat, size: nat): (next: nat)
    requires index <= end
    ensures index <= next <= end
  {
    if end - index < Align4(size) then end else index + Align4(size)
  }

  /** n bytes and the read index after them; without enough bytes left it goes to the end. */
  function Grab(p: seq<byte>, index: nat, n: int): (r: (Option<seq<byte>>, nat))
    requires index <= |p|
    ensures index <= r.1 <= |p| && (r.0.Some? ==> |r.0.value| == n)
  {
    if n < 0 || |p| - index < n then (None, |p|) else (Some(p[index..index + n]), Advance(|p|, index, n))
  }

  function ReadInt32(p: seq<byte>, index: nat): (r: (Option<int>, nat))
    requires index <= |p|
    ensures index <= r.1 <= |p|
  {
    var g := Grab(p, index, 4);
    (if g.0.None? then None else Some(ToInt32(Le(g.0.value))), g.1)
  }

  function Chars(b: seq<byte>): seq<u16> {
    if |b| < 2 then [] else LeBound(b[..2]); [Le(b[..2])] + Chars(b[2..])
  }

  lemma LeBound(b: seq<byte>)
    requires |b| == 2
    ensures Le(b) < 0x1_0000
  {
    assert Le(b[1..][1..]) == 0;
  }

  /** The bytes of a string after its size. */
  function ReadSized(p: seq<byte>, n: (Option<int>, nat)): (r: (Option<Item>, nat))
    requires n.1 <= |p|
    ensures n.1 <= r.1 <= |p|
  {
    if n.0.None? then (None, n.1) else
      var g := Grab(p, n.1, n.0.value);
      (if g.0.None? then None else Some(Text(g.0.value)), g.1)
  }

  /** The characters of a wide string after their number. If their size is no int, the index
      stays where it is. */
  function ReadWide(p: seq<byte>, n: (Option<int>, nat)): (r: (Option<Item>, nat))
    requires n.1 <= |p|
    ensures n.1 <= r.1 <= |p|
  {
    if n.0.None? || !(-0x8000_0000 <= 2 * n.0.value < 0x8000_0000) then (None, n.1) else
      var g := Grab(p, n.1, 2 * n.0.value);
      (if g.0.None? then None else Some(Wide(Chars(g.0.value))), g.1)
  }

  /** An item read, and the read index after it. */
  function ReadAs(kind: Kind, p: seq<byte>, index: nat): (r: (Option<Item>, nat))
    requires index <= |p|
    ensures index <= r.1 <= |p|
  {
    match kind
    case BoolKind =>
      var g := Grab(p, index, 1);
      (if g.0.None? then None else Some(Bool(g.0.value[0] != 0)), g.1)
    case IntKind =>
      var g := ReadInt32(p, index);
      (if g.0.None? then None else Some(Int(g.0.value)), g.1)
    case FixedKind(width) =>
      var g := Grab(p, index, width);
      (if g.0.None? then None else Some(Fixed(width, Le(g.0.value))), g.1)
    case RawKind(length) =>
      var g := Grab(p, index, length);
      (if g.0.None? then None else Some(Raw(g.0.value)), g.1)
    case TextKind => ReadSized(p, ReadInt32(p, index))
    case WideKind => ReadWide(p, ReadInt32(p, index))
  }

  /** Reads one after the other until one fails. */
  function ReadAll(kinds: seq<Kind>, p: seq<byte>, index: nat): (r: (Option<seq<Item>>, nat))
    requires index <= |p|
    ensures index <= r.1 <= |p|
    decreases |kinds|
  {
    if kinds == [] then (Some([]), index) else
      var first := ReadAs(kinds[0], p, index);
      if first.0.None? then (None, first.1) else
        var rest := ReadAll(kinds[1..], p, first.1);
        (if rest.0.None? then None else Some([first.0.value] + rest.0.value), rest.1)
  }

  // ---------- What is written is read ----------

  /** A multiple of four */
  predicate Whole(n: nat) { n == 0 || (n >= 4 && Whole(n - 4)) }

  lemma {:induction false} WholeAlign4(n: nat)
    ensures Whole(Align4(n))
  {
    if n > 4 {
      WholeAlign4(n - 4);
    }
  }

  lemma {:induction false} WholeSum(m: nat, n: nat)
    requires Whole(m) && Whole(n)
    ensures Whole(m + n)
  {
    if m > 0 {
      WholeSum(m - 4, n);
    }
  }

  lemma {:induction false} WholeRest(m: nat, n: nat)
    requires m <= n && Whole(m) && Whole(n)
    ensures Whole(n - m)
  {
    if m > 0 {
      WholeRest(m - 4, n - 4);
    }
  }

  /** The next multiple of four is the least. */
  lemma {:induction false} Align4Least(n: nat, m: nat)
    requires n <= m && Whole(m)
    ensures Align4(n) <= m && (n == m ==> Align4(n) == m)
  {
    if n > 4 {
      Align4Least(n - 4, m - 4);
    }
  }

  lemma {:induction false} WholeIs(n: nat)
    ensures Whole(n) <==> n % 4 == 0
  {
    if n >= 4 {
      WholeIs(n - 4);
    }
  }

  lemma PaddedWhole(bytes: seq<byte>)
    ensures Whole(|Padded(bytes)|) && |bytes| <= |Padded(bytes)|
    ensures Padded(bytes)[..|bytes|] == bytes
  {
    WholeAlign4(|bytes|);
  }

  lemma SizedWhole(i: int, bytes: seq<byte>)
    ensures Whole(|IntBytes(i) + Padded(bytes)|)
  {
    PaddedWhole(bytes);
    WholeSum(4, |Padded(bytes)|);
  }

  lemma RecordWhole(item: Item)
    ensures Whole(|Record(item)|)
  {
    match item
    case Bool(b) =>
    case Int(i) =>
    case Fixed(width, bits) => PaddedWhole(LeBytes(bits, width));
    case Text(chars) => SizedWhole(|chars|, chars);
    case Wide(wchars) => SizedWhole(|wchars|, WideBytes(wchars));
    case Raw(bytes) => PaddedWhole(bytes);
  }

  lemma {:induction false} EncodeWhole(items: seq<Item>)
    ensures Whole(|Encode(items)|)
  {
    if items != [] {
      RecordWhole(items[0]);
      EncodeWhole(items[1..]);
      WholeSum(|Record(items[0])|, |Encode(items[1..])|);
    }
  }

  /** At a multiple of four there is room for the padding if there is room for the bytes. */
  lemma RoomForPadding(end: nat, index: nat, n: nat)
    requires Whole(end) && Whole(index) && index + n <= end
    ensures Advance(end, index, n) == index + Align4(n)
  {
    WholeRest(index, end);
    Align4Least(n, end - index);
  }

  lemma AdvanceWhole(end: nat, index: nat, n: nat)
    requires Whole(end) && Whole(index) && index <= end
    ensures Whole(Advance(end, index, n))
  {
    WholeAlign4(n);
    WholeSum(index, Align4(n));
  }

  /** Bytes that are there. */
  predicate Holds(p: seq<byte>, index: nat, part: seq<byte>) {
    index + |part| <= |p| && p[index..index + |part|] == part
  }

  lemma HoldsFront(p: seq<byte>, index: nat, a: seq<byte>, b: seq<byte>)
    requires Holds(p, index, a + b)
    ensures Holds(p, index, a) && Holds(p, index + |a|, b)
  {
    assert p[index..index + |a|] == (a + b)[..|a|];
    assert p[index + |a|..index + |a| + |b|] == (a + b)[|a|..];
  }

  lemma GrabPart(p: seq<byte>, index: nat, bytes: seq<byte>, zeros: seq<byte>, n: nat)
    requires Holds(p, index, bytes + zeros) && Advance(|p|, index, |bytes|) == index + n
    ensures Grab(p, index, |bytes|) == (Some(bytes), index + n)
  {
    HoldsFront(p, index, bytes, zeros);
  }

  lemma GrabPadded(p: seq<byte>, index: nat, bytes: seq<byte>)
    requires Whole(|p|) && Whole(index) && Holds(p, index, Padded(bytes))
    ensures Grab(p, index, |bytes|) == (Some(bytes), index + |Padded(bytes)|)
  {
    var n := Align4(|bytes|);
    RoomForPadding(|p|, index, |bytes|);
    GrabPart(p, index, bytes, Zeros(n - |bytes|), n);
  }

  lemma PaddedFour(bytes: seq<byte>)
    requires Whole(|bytes|)
    ensures Padded(bytes) == bytes
  {
    Align4Least(|bytes|, |bytes|);
  }

  lemma IntValue(i: int)
    requires -0x8000_0000 <= i < 0x8000_0000
    ensures ToInt32(Le(IntBytes(i))) == i
  {
    assert Pow2(8 * 4) == TWO_32 by {
      Pow2Values();
    }
    LeOfLeBytes(i % TWO_32, 4);
    DivModUnique(i, TWO_32, if i < 0 then -1 else 0, if i < 0 then i + TWO_32 else i);
  }

  lemma IntRead(p: seq<byte>, index: nat, i: int)
    requires Whole(|p|) && Whole(index) && Holds(p, index, IntBytes(i)) && Fits(Int(i))
    ensures ReadInt32(p, index) == (Some(i), index + 4) && Whole(index + 4)
  {
    WholeSum(4, index);
    PaddedFour(IntBytes(i));
    GrabPadded(p, index, IntBytes(i));
    IntValue(i);
  }

  /** The item is read at the index, and the index is behind its record. */
  ghost predicate ReadsBack(item: Item, p: seq<byte>, index: nat)
    requires index <= |p|
  {
    ReadAs(KindOf(item), p, index) == (Some(item), index + |Record(item)|)
  }

  lemma ReadsBackBy(item: Item, kind: Kind, p: seq<byte>, index: nat, n: nat)
    requires index <= |p| && KindOf(item) == kind && |Record(item)| == n
    requires ReadAs(kind, p, index).0 == Some(item) && ReadAs(kind, p, index).1 == index + n
    ensures ReadsBack(item, p, index)
  {
  }

  lemma IntItemRead(i: int, p: seq<byte>, index: nat)
    requires Whole(|p|) && Whole(index) && Holds(p, index, IntBytes(i)) && Fits(Int(i))
    ensures ReadsBack(Int(i), p, index)
  {
    IntRead(p, index, i);
  }

  lemma BoolByte(b: bool, bytes: seq<byte>)
    requires bytes == IntBytes(if b then 1 else 0)
    ensures bytes[0] == if b then 1 else 0
  {
    DivModUnique(if b then 1 else 0, TWO_32, 0, if b then 1 else 0);
  }

  /** A bool is written as an int, and its first byte is read. */
  lemma BoolRead(b: bool, p: seq<byte>, index: nat)
    requires Whole(|p|) && Whole(index) && Holds(p, index, Record(Bool(b)))
    ensures ReadsBack(Bool(b), p, index)
  {
    BoolByte(b, Record(Bool(b)));
    assert p[index..index + 1][0] == p[index..index + 4][0];
    RoomForPadding(|p|, index, 1);
  }

  lemma {:induction false} CharsOfWide(wchars: seq<u16>)
    ensures Chars(WideBytes(wchars)) == wchars
  {
    if wchars != [] {
      var b := WideBytes(wchars);
      assert b[..2] == LeBytes(wchars[0], 2) && b[2..] == WideBytes(wchars[1..]);
      assert Pow2(8 * 2) == 0x1_0000 by {
        Pow2Values();
      }
      LeOfLeBytes(wchars[0], 2);
      CharsOfWide(wchars[1..]);
    }
  }

  lemma FixedRead(width: nat, bits: nat, p: seq<byte>, index: nat)
    requires Fits(Fixed(width, bits)) && Whole(|p|) && Whole(index) && Holds(p, index, Record(Fixed(width, bits)))
    ensures ReadsBack(Fixed(width, bits), p, index)
  {
    GrabPadded(p, index, LeBytes(bits, width));
    LeOfLeBytes(bits, width);
  }

  lemma RawRead(bytes: seq<byte>, p: seq<byte>, index: nat)
    requires Whole(|p|) && Whole(index) && Holds(p, index, Record(Raw(bytes)))
    ensures ReadsBack(Raw(bytes), p, index)
  {
    GrabPadded(p, index, bytes);
  }

  /** The number and the bytes of a string. */
  lemma SizedRead(i: int, bytes: seq<byte>, p: seq<byte>, index: nat)
    requires Fits(Int(i)) && Whole(|p|) && Whole(index) && Holds(p, index, IntBytes(i) + Padded(bytes))
    ensures ReadInt32(p, index) == (Some(i), index + 4) && index + 4 <= |p|
    ensures Grab(p, index + 4, |bytes|) == (Some(bytes), index + |IntBytes(i) + Padded(bytes)|)
  {
    HoldsFront(p, index, IntBytes(i), Padded(bytes));
    IntRead(p, index, i);
    GrabPadded(p, index + 4, bytes);
  }

  lemma TextRead(chars: seq<byte>, p: seq<byte>, index: nat)
    requires Fits(Text(chars)) && Whole(|p|) && Whole(index) && Holds(p, index, Record(Text(chars)))
    ensures ReadsBack(Text(chars), p, index)
  {
    SizedRead(|chars|, chars, p, index);
    ReadsBackBy(Text(chars), TextKind, p, index, |Record(Text(chars))|);
  }

  lemma ReadWideIs(wchars: seq<u16>, bytes: seq<byte>, p: seq<byte>, index: nat, next: nat)
    requires index + 4 <= |p| && Fits(Wide(wchars)) && Chars(bytes) == wchars
    requires ReadInt32(p, index) == (Some(|wchars|), index + 4)
    requires Grab(p, index + 4, 2 * |wchars|) == (Some(bytes), next)
    ensures ReadAs(WideKind, p, index) == (Some(Wide(wchars)), next)
  {
  }

  lemma WideRead(wchars: seq<u16>, p: seq<byte>, index: nat)
    requires Fits(Wide(wchars)) && Whole(|p|) && Whole(index) && Holds(p, index, Record(Wide(wchars)))
    ensures ReadsBack(Wide(wchars), p, index)
  {
    CharsOfWide(wchars);
    SizedRead(|wchars|, WideBytes(wchars), p, index);
    ReadWideIs(wchars, WideBytes(wchars), p, index, index + |Record(Wide(wchars))|);
  }

  /** A record that is there is read as what was written. */
  lemma ItemRead(item: Item, p: seq<byte>, index: nat)
    requires Fits(item) && Whole(|p|) && Whole(index) && Holds(p, index, Record(item))
    ensures ReadsBack(item, p, index)
  {
    match item
    case Bool(b) => BoolRead(b, p, index);
    case Int(i) => IntItemRead(i, p, index);
    case Fixed(width, bits) => FixedRead(width, bits, p, index);
    case Text(chars) => TextRead(chars, p, index);
    case Wide(wchars) => WideRead(wchars, p, index);
    case Raw(bytes) => RawRead(bytes, p, index);
  }

  predicate AllFit(items: seq<Item>) { forall i :: 0 <= i < |items| ==> Fits(items[i]) }

  lemma KindsFront(item: Item, rest: seq<Item>)
    ensures Kinds([item] + rest)[0] == KindOf(item) && Kinds([item] + rest)[1..] == Kinds(rest)
  {
    assert ([item] + rest)[1..] == rest;
  }

  ghost predicate AllReadBack(items: seq<Item>, p: seq<byte>, index: nat, last: nat)
    requires index <= |p|
  {
    ReadAll(Kinds(items), p, index) == (Some(items), last)
  }

  /** One item more in front. */
  lemma ReadFront(item: Item, rest: seq<Item>, p: seq<byte>, index: nat, next: nat, last: nat)
    requires index <= |p| && next <= |p| && ReadAs(KindOf(item), p, index) == (Some(item), next)
    requires AllReadBack(rest, p, next, last)
    ensures AllReadBack([item] + rest, p, index, last)
  {
    KindsFront(item, rest);
  }

  lemma FrontFits(item: Item, rest: seq<Item>)
    requires AllFit([item] + rest)
    ensures Fits(item) && AllFit(rest)
  {
    assert ([item] + rest)[0] == item;
    forall i | 0 <= i < |rest| ensures Fits(rest[i]) {
      assert rest[i] == ([item] + rest)[i + 1];
    }
  }

  lemma EncodeFront(item: Item, rest: seq<Item>)
    ensures Encode([item] + rest) == Record(item) + Encode(rest)
  {
    assert ([item] + rest)[1..] == rest;
  }

  /** Where the rest of the items begins. */
  lemma RestHolds(item: Item, rest: seq<Item>, p: seq<byte>, index: nat) returns (next: nat)
    requires Whole(index) && Holds(p, index, Encode([item] + rest))
    ensures Whole(next) && next == index + |Record(item)| && next + |Encode(rest)| == index + |Encode([item] + rest)|
    ensures Holds(p, index, Record(item)) && Holds(p, next, Encode(rest))
  {
    EncodeFront(item, rest);
    HoldsFront(p, index, Record(item), Encode(rest));
    RecordWhole(item);
    WholeSum(index, |Record(item)|);
    next := index + |Record(item)|;
  }

  /** The items read one after the other are the items written, and the index ends behind them. */
  lemma {:induction false} AllRead(items: seq<Item>, p: seq<byte>, index: nat, last: nat)
    requires AllFit(items) && Whole(|p|) && Whole(index) && Holds(p, index, Encode(items))
    requires last == index + |Encode(items)|
    ensures AllReadBack(items, p, index, last)
    decreases |items|, 1
  {
    if items != [] {
      assert items == [items[0]] + items[1..];
      FirstRead(items[0], items[1..], p, index, last);
    }
  }

  lemma JoinRead(item: Item, rest: seq<Item>, p: seq<byte>, index: nat, next: nat, last: nat)
    requires Fits(item) && Whole(|p|) && Whole(index) && Holds(p, index, Record(item)) && next == index + |Record(item)|
    requires AllReadBack(rest, p, next, last)
    ensures AllReadBack([item] + rest, p, index, last)
  {
    ItemRead(item, p, index);
    ReadFront(item, rest, p, index, next, last);
  }

  lemma {:induction false} FirstRead(item: Item, rest: seq<Item>, p: seq<byte>, index: nat, last: nat)
    requires AllFit([item] + rest) && Whole(|p|) && Whole(index) && Holds(p, index, Encode([item] + rest))
    requires last == index + |Encode([item] + rest)|
    ensures AllReadBack([item] + rest, p, index, last)
    decreases |rest| + 1, 0
  {
    FrontFits(item, rest);
    var next := RestHolds(item, rest, p, index);
    AllRead(rest, p, next, last);
    JoinRead(item, rest, p, index, next, last);
  }

  // ---------- What is read has its size ----------

  lemma {:induction false} CharsCount(b: seq<byte>)
    ensures 2 * |Chars(b)| <= |b| < 2 * |Chars(b)| + 2
  {
    if |b| >= 2 {
      CharsCount(b[2..]);
    }
  }

  lemma GrabConsumes(p: seq<byte>, index: nat, n: int)
    requires Whole(|p|) && Whole(index) && index <= |p| && Grab(p, index, n).0.Some?
    ensures n >= 0 && Grab(p, index, n).1 == index + Align4(n)
  {
    RoomForPadding(|p|, index, n);
  }

  lemma IntConsumes(p: seq<byte>, index: nat)
    requires Whole(|p|) && Whole(index) && index <= |p| && ReadInt32(p, index).0.Some?
    ensures ReadInt32(p, index).1 == index + 4 && Whole(index + 4)
  {
    GrabConsumes(p, index, 4);
    WholeSum(4, index);
  }

  lemma FixedConsumes(width: nat, bits: nat, p: seq<byte>, index: nat)
    requires Whole(|p|) && Whole(index) && index <= |p|
    requires ReadAs(FixedKind(width), p, index).0 == Some(Fixed(width, bits))
    ensures ReadsBack(Fixed(width, bits), p, index)
  {
    GrabConsumes(p, index, width);
    ReadsBackBy(Fixed(width, bits), FixedKind(width), p, index, Align4(width));
  }

  lemma RawConsumes(bytes: seq<byte>, p: seq<byte>, index: nat)
    requires Whole(|p|) && Whole(index) && index <= |p| && ReadAs(RawKind(|bytes|), p, index).0 == Some(Raw(bytes))
    ensures ReadsBack(Raw(bytes), p, index)
  {
    GrabConsumes(p, index, |bytes|);
    ReadsBackBy(Raw(bytes), RawKind(|bytes|), p, index, Align4(|bytes|));
  }

  lemma TextLength(chars: seq<byte>)
    ensures |Record(Text(chars))| == 4 + Align4(|chars|)
  {
  }

  lemma WideLength(wchars: seq<u16>, size: nat)
    requires size == 2 * |wchars|
    ensures |Record(Wide(wchars))| == 4 + Align4(size)
  {
  }

  /** Where a string comes from. */
  lemma TextTaken(p: seq<byte>, n: (Option<int>, nat), chars: seq<byte>)
    requires n.1 <= |p| && ReadSized(p, n).0 == Some(Text(chars))
    ensures n.0.Some? && Grab(p, n.1, |chars|) == (Some(chars), ReadSized(p, n).1)
  {
  }

  lemma TextEnds(chars: seq<byte>, p: seq<byte>, index: nat)
    requires Whole(|p|) && Whole(index) && index <= |p| && ReadAs(TextKind, p, index).0 == Some(Text(chars))
    ensures ReadAs(TextKind, p, index).1 == index + (4 + Align4(|chars|))
  {
    var n := ReadInt32(p, index);
    IntConsumes(p, index);
    SizedEnds(chars, p, n);
  }

  lemma SizedEnds(chars: seq<byte>, p: seq<byte>, n: (Option<int>, nat))
    requires Whole(|p|) && Whole(n.1) && n.1 <= |p| && ReadSized(p, n).0 == Some(Text(chars))
    ensures ReadSized(p, n).1 == n.1 + Align4(|chars|)
  {
    TextTaken(p, n, chars);
    GrabConsumes(p, n.1, |chars|);
  }

  lemma TextConsumes(chars: seq<byte>, p: seq<byte>, index: nat)
    requires Whole(|p|) && Whole(index) && index <= |p| && ReadAs(TextKind, p, index).0 == Some(Text(chars))
    ensures ReadsBack(Text(chars), p, index)
  {
    TextLength(chars);
    TextEnds(chars, p, index);
    ReadsBackBy(Text(chars), TextKind, p, index, 4 + Align4(|chars|));
  }

  /** Where a wide string comes from. */
  lemma WideTaken(p: seq<byte>, n: (Option<int>, nat), wchars: seq<u16>, size: nat)
    requires n.1 <= |p| && ReadWide(p, n).0 == Some(Wide(wchars)) && size == 2 * |wchars|
    ensures n.0.Some? && Grab(p, n.1, size).0.Some? && Grab(p, n.1, size).1 == ReadWide(p, n).1
  {
    CharsCount(Grab(p, n.1, 2 * n.0.value).0.value);
  }

  lemma WideEnds(wchars: seq<u16>, size: nat, p: seq<byte>, index: nat)
    requires Whole(|p|) && Whole(index) && index <= |p| && size == 2 * |wchars|
    requires ReadAs(WideKind, p, index).0 == Some(Wide(wchars))
    ensures ReadAs(WideKind, p, index).1 == index + (4 + Align4(size))
  {
    var n := ReadInt32(p, index);
    IntConsumes(p, index);
    WideSizedEnds(wchars, size, p, n);
  }

  lemma WideSizedEnds(wchars: seq<u16>, size: nat, p: seq<byte>, n: (Option<int>, nat))
    requires Whole(|p|) && Whole(n.1) && n.1 <= |p| && size == 2 * |wchars| && ReadWide(p, n).0 == Some(Wide(wchars))
    ensures ReadWide(p, n).1 == n.1 + Align4(size)
  {
    WideTaken(p, n, wchars, size);
    GrabConsumes(p, n.1, size);
  }

  lemma WideConsumes(wchars: seq<u16>, p: seq<byte>, index: nat)
    requires Whole(|p|) && Whole(index) && index <= |p| && ReadAs(WideKind, p, index).0 == Some(Wide(wchars))
    ensures ReadsBack(Wide(wchars), p, index)
  {
    var size := 2 * |wchars|;
    WideLength(wchars, size);
    WideEnds(wchars, size, p, index);
    ReadsBackBy(Wide(wchars), WideKind, p, index, 4 + Align4(size));
  }

  lemma IntItemConsumes(i: int, p: seq<byte>, index: nat)
    requires Whole(|p|) && Whole(index) && index <= |p| && ReadAs(IntKind, p, index).0 == Some(Int(i))
    ensures ReadsBack(Int(i), p, index)
  {
    IntConsumes(p, index);
  }

  lemma BoolConsumes(b: bool, p: seq<byte>, index: nat)
    requires Whole(|p|) && Whole(index) && index <= |p| && ReadAs(BoolKind, p, index).0 == Some(Bool(b))
    ensures ReadsBack(Bool(b), p, index)
  {
    GrabConsumes(p, index, 1);
  }

  /** Where padding is complete, an item that is read leaves the index behind its record. */
  lemma ItemConsumes(item: Item, p: seq<byte>, index: nat)
    requires Whole(|p|) && Whole(index) && index <= |p| && ReadAs(KindOf(item), p, index).0 == Some(item)
    ensures ReadsBack(item, p, index)
  {
    match item
    case Bool(b) => BoolConsumes(b, p, index);
    case Int(i) => IntItemConsumes(i, p, index);
    case Fixed(width, bits) => FixedConsumes(width, bits, p, index);
    case Text(chars) => TextConsumes(chars, p, index);
    case Wide(wchars) => WideConsumes(wchars, p, index);
    case Raw(bytes) => RawConsumes(bytes, p, index);
  }

  lemma NextIndex(item: Item, p: seq<byte>, index: nat)
    requires Whole(|p|) && Whole(index) && index <= |p| && ReadAs(KindOf(item), p, index).0 == Some(item)
    ensures ReadAs(KindOf(item), p, index) == (Some(item), index + |Record(item)|) && Whole(index + |Record(item)|)
  {
    ItemConsumes(item, p, index);
    RecordWhole(item);
    WholeSum(index, |Record(item)|);
  }

  lemma FirstOfAll(item: Item, rest: seq<Item>, p: seq<byte>, index: nat)
    requires index <= |p| && ReadAll(Kinds([item] + rest), p, index).0 == Some([item] + rest)
    ensures ReadAs(KindOf(item), p, index).0 == Some(item)
  {
    KindsFront(item, rest);
  }

  lemma RestOfAll(item: Item, rest: seq<Item>, p: seq<byte>, index: nat, next: nat)
    requires index <= |p| && ReadAs(KindOf(item), p, index) == (Some(item), next)
    requires ReadAll(Kinds([item] + rest), p, index).0 == Some([item] + rest)
    ensures next <= |p| && ReadAll(Kinds(rest), p, next).0 == Some(rest)
    ensures ReadAll(Kinds([item] + rest), p, index).1 == ReadAll(Kinds(rest), p, next).1
  {
    KindsFront(item, rest);
    var more := ReadAll(Kinds(rest), p, next);
    assert more.0.Some? ==> ([item] + more.0.value)[1..] == more.0.value;
    assert ([item] + rest)[1..] == rest;
  }

  lemma EncodedSize(item: Item, rest: seq<Item>)
    ensures |Encode([item] + rest)| == |Record(item)| + |Encode(rest)|
  {
    EncodeFront(item, rest);
  }

  lemma {:induction false} AllConsume(items: seq<Item>, p: seq<byte>, index: nat)
    requires Whole(|p|) && Whole(index) && index <= |p| && ReadAll(Kinds(items), p, index).0 == Some(items)
    ensures ReadAll(Kinds(items), p, index).1 == index + |Encode(items)|
    decreases |items|
  {
    if items != [] {
      var item, rest := items[0], items[1..];
      var next := index + |Record(item)|;
      assert items == [item] + rest;
      FirstOfAll(item, rest, p, index);
      NextIndex(item, p, index);
      RestOfAll(item, rest, p, index, next);
      AllConsume(rest, p, next);
      EncodedSize(item, rest);
    }
  }

  lemma SizeWhole(n: nat)
    requires Whole(n)
    ensures Whole(n % 0x1_0000_0000)
  {
    WholeIs(n);
    WholeIs(n % TWO_32);
    DivModBounds(n, TWO_32);
    DivModUnique(n, 4, n / TWO_32 * (TWO_32 / 4) + n % TWO_32 / 4, n % TWO_32 % 4);
  }

  /** The header holds the payload's size in 32 bits. The items written are read back in order
      if and only if the payload is smaller; then reading ends at the end of the payload. */
  lemma RoundTripIff(items: seq<Item>)
    requires AllFit(items)
    ensures var p := Encode(items);
      var seen := p[..|p| % 0x1_0000_0000];
      && (ReadAll(Kinds(items), seen, 0).0 == Some(items) <==> |p| < 0x1_0000_0000)
      && (|p| < 0x1_0000_0000 ==> ReadAll(Kinds(items), seen, 0).1 == |seen| == |p|)
  {
    var p := Encode(items);
    EncodeWhole(items);
    SizeWhole(|p|);
    DivModBounds(|p|, TWO_32);
    var seen := p[..|p| % TWO_32];
    if |p| < TWO_32 {
      DivModUnique(|p|, TWO_32, 0, |p|);
      assert seen == p && Holds(p, 0, p);
      AllRead(items, p, 0, |p|);
    } else if ReadAll(Kinds(items), seen, 0).0 == Some(items) {
      AllConsume(items, seen, 0);
    }
  }

  // ---------- The read index ----------

  lemma GrabWhole(p: seq<byte>, index: nat, n: int)
    requires Whole(|p|) && Whole(index) && index <= |p|
    ensures Whole(Grab(p, index, n).1)
  {
    if n >= 0 {
      AdvanceWhole(|p|, index, n);
    }
  }

  /** The read index stays a multiple of four, whatever is read and whether or not it succeeds. */
  lemma ReadWhole(kind: Kind, p: seq<byte>, index: nat)
    requires Whole(|p|) && Whole(index) && index <= |p|
    ensures Whole(ReadAs(kind, p, index).1)
  {
    match kind
    case BoolKind => GrabWhole(p, index, 1);
    case IntKind => GrabWhole(p, index, 4);
    case FixedKind(width) => GrabWhole(p, index, width);
    case RawKind(length) => GrabWhole(p, index, length);
    case _ =>
      var n := ReadInt32(p, index);
      GrabWhole(p, index, 4);
      if n.0.Some? {
        GrabWhole(p, n.1, n.0.value);
        GrabWhole(p, n.1, 2 * n.0.value);
      }
  }

  lemma {:induction false} ReadAllWhole(kinds: seq<Kind>, p: seq<byte>, index: nat)
    requires Whole(|p|) && Whole(index) && index <= |p|
    ensures Whole(ReadAll(kinds, p, index).1)
    decreases |kinds|
  {
    if kinds != [] {
      ReadWhole(kinds[0], p, index);
      ReadAllWhole(kinds[1..], p, ReadAs(kinds[0], p, index).1);
    }
  }
}
