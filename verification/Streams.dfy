/** Machines that give one byte per step. */
module Streams {
  import opened Bits

  /** The output of n steps of a machine, and its state after them. */
  function Take<S>(next: S -> (byte, S), s: S, n: nat): (r: (seq<byte>, S))
    ensures |r.0| == n
    decreases n, s
  {
    if n == 0 then ([], s) else
      var one := next(s);
      var rest := Take(next, one.1, n - 1);
      ([one.0] + rest.0, rest.1)
  }

  lemma {:induction false} TakeSplit<S>(next: S -> (byte, S), s: S, m: nat, n: nat)
    ensures var first := Take(next, s, m);
      var second := Take(next, first.1, n);
      Take(next, s, m + n) == (first.0 + second.0, second.1)
    decreases m
  {
    var first := Take(next, s, m);
    var second := Take(next, first.1, n);
    if m == 0 {
      assert first.0 + second.0 == second.0;
    } else {
      var one := next(s);
      TakeSplit(next, one.1, m - 1, n);
      assert first.0 + second.0 == [one.0] + (Take(next, one.1, m - 1).0 + second.0);
    }
  }

  /** One step more. */
  lemma TakeNext<S>(next: S -> (byte, S), s: S, n: nat)
    ensures var before := Take(next, s, n);
      Take(next, s, n + 1) == (before.0 + [next(before.1).0], next(before.1).1)
  {
    TakeSplit(next, s, n, 1);
    var one := next(Take(next, s, n).1);
    assert [one.0] + [] == [one.0];
    assert Take(next, one.1, 0) == ([], one.1);
  }

  function XorBytes(data: seq<byte>, mask: seq<byte>): (r: seq<byte>)
    requires |data| == |mask|
    ensures |r| == |data|
  {
    seq(|data|, i requires 0 <= i < |data| => Xor8(data[i], mask[i]))
  }

  /** Data XORed with the output of a machine. */
  function XorOutput<S>(next: S -> (byte, S), s: S, data: seq<byte>): (r: seq<byte>)
    ensures |r| == |data|
  {
    XorBytes(data, Take(next, s, |data|).0)
  }

  lemma XorBytesTwice(data: seq<byte>, mask: seq<byte>)
    requires |data| == |mask|
    ensures XorBytes(XorBytes(data, mask), mask) == data
  {
    forall i | 0 <= i < |data| ensures XorBytes(XorBytes(data, mask), mask)[i] == data[i] {
      XorTwice(data[i], mask[i]);
    }
  }

  lemma XorBytesConcat(a: seq<byte>, b: seq<byte>, x: seq<byte>, y: seq<byte>)
    requires |a| == |x| && |b| == |y|
    ensures XorBytes(a + b, x + y) == XorBytes(a, x) + XorBytes(b, y)
  {
  }

  /** Doing it twice restores the data. */
  lemma XorOutputTwice<S>(next: S -> (byte, S), s: S, data: seq<byte>)
    ensures XorOutput(next, s, XorOutput(next, s, data)) == data
  {
    XorBytesTwice(data, Take(next, s, |data|).0);
  }

  /** It may be done piecewise, each piece from the state that the pieces before it leave. */
  lemma XorOutputSplit<S>(next: S -> (byte, S), s: S, a: seq<byte>, b: seq<byte>)
    ensures XorOutput(next, s, a + b) == XorOutput(next, s, a) + XorOutput(next, Take(next, s, |a|).1, b)
    ensures Take(next, s, |a + b|).1 == Take(next, Take(next, s, |a|).1, |b|).1
  {
    XorOutputPieces(next, s, a, b, |a|, |b|, |a + b|);
  }

  lemma XorOutputPieces<S>(next: S -> (byte, S), s: S, a: seq<byte>, b: seq<byte>, m: nat, n: nat, k: nat)
    requires |a| == m && |b| == n && k == m + n
    ensures XorBytes(a + b, Take(next, s, k).0)
         == XorBytes(a, Take(next, s, m).0) + XorBytes(b, Take(next, Take(next, s, m).1, n).0)
    ensures Take(next, s, k).1 == Take(next, Take(next, s, m).1, n).1
  {
    TakeSplit(next, s, m, n);
    XorBytesConcat(a, b, Take(next, s, m).0, Take(next, Take(next, s, m).1, n).0);
  }

  /** Chunks put together. */
  function Join(chunks: seq<seq<byte>>): seq<byte> {
    if chunks == [] then [] else Join(chunks[..|chunks| - 1]) + chunks[|chunks| - 1]
  }
}
