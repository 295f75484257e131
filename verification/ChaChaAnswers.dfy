/** The examples of RFC 8439 for ChaCha20, computed with bit vectors: the quarter round of section 2.1.1 and
    the block of section 2.3.2. */
module ChaChaAnswers {
  import opened BitVectors
  import opened Bits
  import opened ChaCha20
  import opened ChaChaWords

  function VectorOps(): Ops<Bv> { Ops(AddBv, XorBv, Rotate16, Rotate12, Rotate8, Rotate7) }

  /** The operators on bit vectors are those on words. */
  lemma VectorsModel(num: Bv -> u32, size: nat, k: nat)
    requires Reads(num, size) && size == 4 * k && k == 8
    ensures Models(VectorOps(), num)
  {
    forall x, y ensures num(AddBv(x, y)) == Add32(num(x), num(y)) {
      AddIs(num, size, k, x, y);
    }
    forall x, y ensures num(XorBv(x, y)) == Xor32(num(x), num(y)) {
      XorIs(num, size, x, y);
    }
    forall x ensures num(Rotate16(x)) == Rotl(num(x), 16) {
      Rotate16Is(x, size, 16, 16, k);
    }
    forall x ensures num(Rotate12(x)) == Rotl(num(x), 12) {
      Rotate12Is(x, size, 12, 20, k);
    }
    forall x ensures num(Rotate8(x)) == Rotl(num(x), 8) {
      Rotate8Is(x, size, 8, 24, k);
    }
    forall x ensures num(Rotate7(x)) == Rotl(num(x), 7) {
      Rotate7Is(x, size, 7, 25, k);
    }
  }

  lemma WordsModel()
    ensures Models(VectorOps(), WordOf)
  {
    WordReads(32, 8);
    VectorsModel(WordOf, 32, 8);
  }

  // ---------- The quarter round ----------

  function QuarterIn(): Column<Bv> { Column(0x11111111, 0x01020304, 0x9b8d6f43, 0x01234567) }

  function QuarterOut(): Column<Bv> { Column(0xea2a92f4, 0xcb1cf8ce, 0x4581472e, 0x5881c4bb) }

  lemma VectorQuarter()
    ensures Quarter(VectorOps(), QuarterIn()) == QuarterOut()
  {
  }

  predicate SpellsColumn(q: Column<Bv>, w: Column<u32>) {
    Spells(q.a, w.a) && Spells(q.b, w.b) && Spells(q.c, w.c) && Spells(q.d, w.d)
  }

  lemma ColumnIs(q: Column<Bv>, w: Column<u32>)
    requires SpellsColumn(q, w)
    ensures ColumnNumbers(WordOf, q) == w
  {
    WordIs(q.a, w.a);
    WordIs(q.b, w.b);
    WordIs(q.c, w.c);
    WordIs(q.d, w.d);
  }

  lemma MatrixIs(m: Matrix<Bv>, w: Matrix<u32>)
    requires SpellsColumn(m.c0, w.c0) && SpellsColumn(m.c1, w.c1)
    requires SpellsColumn(m.c2, w.c2) && SpellsColumn(m.c3, w.c3)
    ensures Numbers(WordOf, m) == w
  {
    ColumnIs(m.c0, w.c0);
    ColumnIs(m.c1, w.c1);
    ColumnIs(m.c2, w.c2);
    ColumnIs(m.c3, w.c3);
  }

  lemma QuarterWords()
    ensures ColumnNumbers(WordOf, QuarterIn()) == Column(0x11111111, 0x01020304, 0x9b8d6f43, 0x01234567)
    ensures ColumnNumbers(WordOf, QuarterOut()) == Column(0xea2a92f4, 0xcb1cf8ce, 0x4581472e, 0x5881c4bb)
  {
    ColumnIs(QuarterIn(), Column(0x11111111, 0x01020304, 0x9b8d6f43, 0x01234567));
    ColumnIs(QuarterOut(), Column(0xea2a92f4, 0xcb1cf8ce, 0x4581472e, 0x5881c4bb));
  }

  /** Section 2.1.1 of RFC 8439, wherever the four words are. */
  lemma QuarterRoundAnswer(x: Words, a: nat, b: nat, c: nat, d: nat)
    requires a < 16 && b < 16 && c < 16 && d < 16 && a != b && a != c && a != d && b != c && b != d && c != d
    requires x[a] == 0x11111111 && x[b] == 0x01020304 && x[c] == 0x9b8d6f43 && x[d] == 0x01234567
    ensures var y := QuarterRound(x, a, b, c, d);
      y[a] == 0xea2a92f4 && y[b] == 0xcb1cf8ce && y[c] == 0x4581472e && y[d] == 0x5881c4bb
  {
    WordsModel();
    VectorQuarter();
    QuarterWords();
    QuarterModel(VectorOps(), WordOf, QuarterIn());
    QuarterIs(x, a, b, c, d);
  }

  // ---------- The block ----------

  // The state of the example before the rounds and after each double round, column by column.

  function First(): Matrix<Bv> {
    Matrix(Column(0x61707865, 0x03020100, 0x13121110, 0x00000001),
      Column(0x3320646e, 0x07060504, 0x17161514, 0x09000000),
      Column(0x79622d32, 0x0b0a0908, 0x1b1a1918, 0x4a000000),
      Column(0x6b206574, 0x0f0e0d0c, 0x1f1e1d1c, 0))
  }

  function Last(): Matrix<Bv> {
    Matrix(Column(0x837778ab, 0xc4f2d0c7, 0x335271c2, 0xd19c12b4),
      Column(0xe238d763, 0xfc62bb2f, 0xf29489f3, 0xb04e16de),
      Column(0xa67ae21e, 0x8fa018fc, 0xeabda8fc, 0x9e83d0cb),
      Column(0x5950bb2f, 0x3f5ec7b7, 0x82e46ebd, 0x4e3c50a2))
  }

  function State(i: nat): Matrix<Bv> {
    match i
    case 0 => First()
    case 1 => Matrix(Column(0xcd52e917, 0xc4b7cd22, 0x7bf7d740, 0x6b0d58a3),
      Column(0x85ab03b4, 0x5c2e187a, 0x7eddd644, 0x6798471a),
      Column(0xb3457395, 0xc95eb461, 0xf1a1bdf5, 0xd737f167),
      Column(0xf96de7dd, 0x316c801a, 0x761246ca, 0xf173888d))
    case 2 => Matrix(Column(0xcf1a7584, 0x901d2f40, 0x2dafb216, 0x10aef18d),
      Column(0x048927ec, 0x7974b81c, 0x27c89cd6, 0x16218765),
      Column(0x54051fda, 0x378dcfb4, 0xcd3c9aa0, 0x68f76705),
      Column(0xc244ff28, 0xcd47fd0e, 0x79fc89c7, 0x04d6ee22))
    case 3 => Matrix(Column(0x03a14032, 0xa7143ae0, 0xc90c6b18, 0xba35d777),
      Column(0x66b15927, 0xa09b33dd, 0x5a202413, 0xb360f1bf),
      Column(0x9d6b6b42, 0xa5daaf88, 0xc20e01b6, 0x8178315b),
      Column(0xb84c4109, 0x2fd91a73, 0x72cd6b74, 0x2cd11b1a))
    case 4 => Matrix(Column(0x9a2d3589, 0x0a1bffc6, 0xe46c6354, 0x2687d476),
      Column(0x0b23fc4e, 0x5e5993f7, 0xc9503229, 0x54e65231),
      Column(0x40af3b6b, 0x9904c2e7, 0x04fef5aa, 0x3594ffc5),
      Column(0xceea8144, 0x0d334718, 0xf8933f72, 0x2b3bb2ca))
    case 5 => Matrix(Column(0xc53318c5, 0x26d7cf73, 0xae2ca8db, 0x9e5ec228),
      Column(0xca325d96, 0x6088d379, 0x42f67c72, 0x7d85a9f3),
      Column(0x7e7d11cb, 0xc0f0e9bd, 0x71669aca, 0x201d0756),
      Column(0x3404e2ca, 0xe310cdb9, 0x975c171d, 0x63fa6953))
    case 6 => Matrix(Column(0x04a3131a, 0x36cc86c7, 0x07d13aca, 0x33b6686d),
      Column(0x66176309, 0xbf8a4465, 0xeb0be9af, 0x795cc671),
      Column(0x0415bab1, 0xf77dd720, 0x61599491, 0xc0049972),
      Column(0x61b880a2, 0xfc0bdc90, 0x918512dc, 0xa0a81bde))
    case 7 => Matrix(Column(0x9b70f51f, 0x93b08686, 0xd839165e, 0xa609f555),
      Column(0x7ea8ac11, 0x6a4c50ae, 0x4c06e28a, 0x2c246549),
      Column(0x21e54da9, 0x19212a5a, 0xd3fde99e, 0x95151853),
      Column(0xca393b2f, 0x9b032958, 0x26acc13d, 0x2c847a0d))
    case 8 => Matrix(Column(0xca5c85dd, 0x982563f8, 0x1c25931a, 0xa9b751fb),
      Column(0x93a4f90e, 0x712aa9ff, 0x5180bb10, 0x382f3ce2),
      Column(0xd9f0df58, 0x279a61e8, 0x779c27e7, 0x8db1757d),
      Column(0x26dd82dd, 0x970f72bd, 0x54077e08, 0xcc38080b))
    case 9 => Matrix(Column(0xb6b87de6, 0xdc33c122, 0x28c1fcb3, 0x21078b22),
      Column(0x9a016148, 0x98e18fa3, 0xc4b38f9d, 0xb193e7a3),
      Column(0x93859815, 0x5ffbe8fc, 0x83e2f5d7, 0xb2f49389),
      Column(0x4915e6cc, 0xf7154b8b, 0x7d24b98b, 0x6cde6026))
    case _ => Last()
  }

  lemma Double0()
    ensures Double(VectorOps(), State(0)) == State(1)
  {
  }

  lemma Double1()
    ensures Double(VectorOps(), State(1)) == State(2)
  {
  }

  lemma Double2()
    ensures Double(VectorOps(), State(2)) == State(3)
  {
  }

  lemma Double3()
    ensures Double(VectorOps(), State(3)) == State(4)
  {
  }

  lemma Double4()
    ensures Double(VectorOps(), State(4)) == State(5)
  {
  }

  lemma Double5()
    ensures Double(VectorOps(), State(5)) == State(6)
  {
  }

  lemma Double6()
    ensures Double(VectorOps(), State(6)) == State(7)
  {
  }

  lemma Double7()
    ensures Double(VectorOps(), State(7)) == State(8)
  {
  }

  lemma Double8()
    ensures Double(VectorOps(), State(8)) == State(9)
  {
  }

  lemma Double9()
    ensures Double(VectorOps(), State(9)) == State(10)
  {
  }

  lemma DoubleNext(i: nat)
    requires i < 10
    ensures Double(VectorOps(), State(i)) == State(i + 1)
  {
    match i
    case 0 => Double0();
    case 1 => Double1();
    case 2 => Double2();
    case 3 => Double3();
    case 4 => Double4();
    case 5 => Double5();
    case 6 => Double6();
    case 7 => Double7();
    case 8 => Double8();
    case _ => Double9();
  }

  /** Every matrix is the double round of the one before. */
  ghost predicate Chain<T>(o: Ops<T>, s: nat -> Matrix<T>, n: nat) {
    forall i: nat | i < n :: Double(o, s(i)) == s(i + 1)
  }

  lemma {:induction false} ChainEnds<T>(o: Ops<T>, s: nat -> Matrix<T>, m: nat, n: nat)
    requires Chain(o, s, m) && n <= m
    ensures Doubles(o, s(0), n) == s(n)
  {
    if n == 0 {
      assert Doubles(o, s(0), n) == s(0);
    } else {
      var k := n - 1;
      ChainEnds(o, s, m, k);
      DoublesNext(o, s(0), k, s(k), s(k + 1));
    }
  }

  lemma States(n: nat)
    requires n == 10
    ensures Chain(VectorOps(), State, n) && State(0) == First() && State(n) == Last()
  {
    forall i: nat | i < n ensures Double(VectorOps(), State(i)) == State(i + 1) {
      DoubleNext(i);
    }
  }

  const EXAMPLE: Words :=
    [0x61707865, 0x3320646e, 0x79622d32, 0x6b206574, 0x03020100, 0x07060504, 0x0b0a0908, 0x0f0e0d0c,
     0x13121110, 0x17161514, 0x1b1a1918, 0x1f1e1d1c, 0x00000001, 0x09000000, 0x4a000000, 0]

  const ANSWER: Words :=
    [0xe4e7f110, 0x15593bd1, 0x1fdd0f50, 0xc47120a3, 0xc7f4d1c7, 0x0368c033, 0x9aaa2204, 0x4e6cd4c3,
     0x466482d2, 0x09aa9f07, 0x05d7c214, 0xa2028bd9, 0xd19c12b5, 0xb94e16de, 0xe883d0cb, 0x4e3c50a2]

  // The states before and after the rounds, and with the first added.
  const STARTED: Matrix<u32> := Matrix(Column(0x61707865, 0x03020100, 0x13121110, 0x00000001),
    Column(0x3320646e, 0x07060504, 0x17161514, 0x09000000),
    Column(0x79622d32, 0x0b0a0908, 0x1b1a1918, 0x4a000000),
    Column(0x6b206574, 0x0f0e0d0c, 0x1f1e1d1c, 0))

  const ROUNDED: Matrix<u32> := Matrix(Column(0x837778ab, 0xc4f2d0c7, 0x335271c2, 0xd19c12b4),
    Column(0xe238d763, 0xfc62bb2f, 0xf29489f3, 0xb04e16de),
    Column(0xa67ae21e, 0x8fa018fc, 0xeabda8fc, 0x9e83d0cb),
    Column(0x5950bb2f, 0x3f5ec7b7, 0x82e46ebd, 0x4e3c50a2))

  const ADDED: Matrix<u32> := Matrix(Column(0xe4e7f110, 0xc7f4d1c7, 0x466482d2, 0xd19c12b5),
    Column(0x15593bd1, 0x0368c033, 0x09aa9f07, 0xb94e16de),
    Column(0x1fdd0f50, 0x9aaa2204, 0x05d7c214, 0xe883d0cb),
    Column(0xc47120a3, 0x4e6cd4c3, 0xa2028bd9, 0x4e3c50a2))

  lemma StartColumns(c0: Column<Bv>, c1: Column<Bv>)
    requires c0 == First().c0 && c1 == First().c1
    ensures SpellsColumn(c0, STARTED.c0) && SpellsColumn(c1, STARTED.c1)
  {
  }

  lemma StartRest(c2: Column<Bv>, c3: Column<Bv>)
    requires c2 == First().c2 && c3 == First().c3
    ensures SpellsColumn(c2, STARTED.c2) && SpellsColumn(c3, STARTED.c3)
  {
  }

  lemma StartWords(s: Matrix<Bv>)
    requires s == First()
    ensures Numbers(WordOf, s) == STARTED
  {
    StartColumns(s.c0, s.c1);
    StartRest(s.c2, s.c3);
    MatrixIs(s, STARTED);
  }

  lemma EndWords(s: Matrix<Bv>)
    requires s == Last()
    ensures Numbers(WordOf, s) == ROUNDED
  {
    MatrixIs(s, ROUNDED);
  }

  lemma Matrices()
    ensures MatrixOf(EXAMPLE) == STARTED && MatrixOf(ANSWER) == ADDED
  {
  }

  lemma AddedWords(x: Words, y: Words, z: Words)
    requires MatrixOf(x) == ROUNDED && MatrixOf(y) == STARTED && MatrixOf(z) == ADDED
    ensures AddWords(x, y) == z
  {
  }

  lemma ChainRounds(s: nat -> Matrix<Bv>, x: Words, u: Matrix<u32>, v: Matrix<u32>, n: nat)
    requires Chain(VectorOps(), s, n) && Numbers(WordOf, s(0)) == u == MatrixOf(x) && Numbers(WordOf, s(n)) == v
    ensures MatrixOf(Rounds(x, n)) == v
  {
    WordsModel();
    ChainEnds(VectorOps(), s, n, n);
    RoundsModel(VectorOps(), WordOf, s(0), x, n);
  }

  lemma ExampleRounds(n: nat)
    requires n == 10
    ensures MatrixOf(Rounds(EXAMPLE, n)) == ROUNDED
  {
    States(n);
    StartWords(First());
    EndWords(Last());
    Matrices();
    ChainRounds(State, EXAMPLE, STARTED, ROUNDED, n);
  }

  /** The state of the example: the bytes of the key count up from 0. */
  lemma StateOfExample(key: seq<byte>, nonce: seq<byte>)
    requires key == seq(32, i requires 0 <= i < 32 => i) && nonce == [0, 0, 0, 9, 0, 0, 0, 0x4a, 0, 0, 0, 0]
    ensures InitialState(key, nonce, 1) == EXAMPLE
  {
  }

  /** Section 2.3.2 of RFC 8439 */
  lemma KeyBlockAnswer()
    ensures KeyBlock(EXAMPLE) == ANSWER
  {
    ExampleRounds(10);
    Matrices();
    AddedWords(Rounds(EXAMPLE, 10), EXAMPLE, ANSWER);
  }
}
