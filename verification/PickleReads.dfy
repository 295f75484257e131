/** What the reads of Pickles make of any bytes, written by a pickle or not. */
module PickleReads {
  import opened Bits
  import opened Collections
  import opened Memory
  import opened PickleLayout
  import opened Pickles

  /** Bytes are read if and only if there are as many up to the end; the index moves on past the zeros that fill them
      up to a multiple of four, or to the end if there are not as many. A read that fails moves it to the end. */
  lemma BytesRead(p: seq<byte>, index: nat, n: int)
    requires index <= |p|
    ensures n < 0 || index + n > |p| ==> ReadAs(RawKind(n), p, index) == (None, |p|)
    ensures 0 <= n && index + n <= |p| ==>
      var next := index + n + (4 - n % 4) % 4;
      ReadAs(RawKind(n), p, index) == (Some(Raw(p[index..index + n])), if next <= |p| then next else |p|)
  {
    if 0 <= n && index + n <= |p| {
      Align4Zeros(n);
    }
  }

  /** A number of n bytes is read with the lowest byte first. */
  lemma FixedIs(p: seq<byte>, index: nat, n: nat)
    requires index <= |p|
    ensures var r := ReadAs(RawKind(n), p, index);
      ReadAs(FixedKind(n), p, index) == (if r.0.None? then None else Some(Fixed(n, Le(r.0.value.bytes))), r.1)
  {
  }

  /** The numbers of two, four and eight bytes. */
  lemma NumbersAre(b: seq<byte>)
    ensures |b| == 2 ==> Le(b) == Word(b[0], b[1], 0, 0)
    ensures |b| == 4 ==> Le(b) == Word(b[0], b[1], b[2], b[3])
    ensures |b| == 8 ==> Le(b) == Le(b[..4]) + 0x1_0000_0000 * Le(b[4..])
  {
    if |b| == 2 {
      assert b[1..][0] == b[1] && b[1..][1..] == [];
    } else if |b| == 4 {
      LeOf4(b);
      assert b[4..] == [];
    } else if |b| == 8 {
      LeOf4(b);
      LeOf4(b[..4]);
      assert b[..4][4..] == [];
    }
  }

  /** An int is a number of four bytes, negative from 2^31 on. */
  lemma IntIs(p: seq<byte>, index: nat)
    requires index <= |p|
    ensures var r := ReadAs(FixedKind(4), p, index);
      ReadAs(IntKind, p, index) ==
        (if r.0.None? then None
         else Some(Int(if r.0.value.bits < 0x8000_0000 then r.0.value.bits else r.0.value.bits - 0x1_0000_0000)), r.1)
  {
  }

  /** A bool is one byte, true but for 0. */
  lemma BoolIs(p: seq<byte>, index: nat)
    requires index <= |p|
    ensures var r := ReadAs(RawKind(1), p, index);
      ReadAs(BoolKind, p, index) == (if r.0.None? then None else Some(Bool(r.0.value.bytes != [0])), r.1)
  {
    var r := ReadAs(RawKind(1), p, index);
    if r.0.Some? {
      assert r.0.value.bytes == [r.0.value.bytes[0]];
    }
  }

  /** A string is an int and as many bytes. */
  lemma TextIs(p: seq<byte>, index: nat)
    requires index <= |p|
    ensures var n := ReadAs(IntKind, p, index);
      ReadAs(TextKind, p, index) ==
        if n.0.None? then (None, n.1) else
          var r := ReadAs(RawKind(n.0.value.i), p, n.1);
          (if r.0.None? then None else Some(Text(r.0.value.bytes)), r.1)
  {
  }

  lemma {:induction false} CharsAre(b: seq<byte>, i: nat)
    ensures |Chars(b)| == |b| / 2
    ensures i < |b| / 2 ==> Chars(b)[i] == Word(b[2 * i], b[2 * i + 1], 0, 0)
  {
    if |b| >= 2 {
      if i > 0 {
        CharsAre(b[2..], i - 1);
      } else {
        CharsAre(b[2..], 0);
        NumbersAre(b[..2]);
      }
    }
  }

  /** A wide string is an int and twice as many bytes, two for a character; if their number is no int, the read fails
      and leaves the index behind the int. */
  lemma WideIs(p: seq<byte>, index: nat)
    requires index <= |p|
    ensures var n := ReadAs(IntKind, p, index);
      ReadAs(WideKind, p, index) ==
        if n.0.None? || !(-0x8000_0000 <= 2 * n.0.value.i < 0x8000_0000) then (None, n.1) else
          var r := ReadAs(RawKind(2 * n.0.value.i), p, n.1);
          (if r.0.None? then None else Some(Wide(Chars(r.0.value.bytes))), r.1)
  {
  }
}
