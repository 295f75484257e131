/** The rounds of ChaCha20 on a matrix of words of any type: a round on its columns, and the
    same round on the matrix whose rows are rotated (RFC 8439, sections 2.1 to 2.3). */
module ChaChaWords {
  import opened Bits
  import opened ChaCha20

  datatype Ops<!T> = Ops(add: (T, T) -> T, xor: (T, T) -> T,
                         rotate16: T -> T, rotate12: T -> T, rotate8: T -> T, rotate7: T -> T)

  datatype Column<T> = Column(a: T, b: T, c: T, d: T)

  datatype Matrix<T> = Matrix(c0: Column<T>, c1: Column<T>, c2: Column<T>, c3: Column<T>)

  /** a += b, d ^= a, d <<<= 16; c += d, b ^= c, b <<<= 12; and with 8 and 7 once more. */
  function Quarter<T>(o: Ops<T>, q: Column<T>): Column<T> {
    var a := o.add(q.a, q.b);
    var d := o.rotate16(o.xor(q.d, a));
    var c := o.add(q.c, d);
    var b := o.rotate12(o.xor(q.b, c));
    var a' := o.add(a, b);
    var d' := o.rotate8(o.xor(d, a'));
    var c' := o.add(c, d');
    Column(a', o.rotate7(o.xor(b, c')), c', d')
  }

  function ColumnRound<T>(o: Ops<T>, m: Matrix<T>): Matrix<T> {
    Matrix(Quarter(o, m.c0), Quarter(o, m.c1), Quarter(o, m.c2), Quarter(o, m.c3))
  }

  /** Row i is rotated left by i words. */
  function Turned<T>(m: Matrix<T>): Matrix<T> {
    Matrix(Column(m.c0.a, m.c1.b, m.c2.c, m.c3.d), Column(m.c1.a, m.c2.b, m.c3.c, m.c0.d),
      Column(m.c2.a, m.c3.b, m.c0.c, m.c1.d), Column(m.c3.a, m.c0.b, m.c1.c, m.c2.d))
  }

  function TurnedBack<T>(m: Matrix<T>): (r: Matrix<T>)
    ensures Turned(r) == m
  {
    Matrix(Column(m.c0.a, m.c3.b, m.c2.c, m.c1.d), Column(m.c1.a, m.c0.b, m.c3.c, m.c2.d),
      Column(m.c2.a, m.c1.b, m.c0.c, m.c3.d), Column(m.c3.a, m.c2.b, m.c1.c, m.c0.d))
  }

  /** A column round, and a column round of the turned matrix. */
  function Double<T>(o: Ops<T>, m: Matrix<T>): Matrix<T> {
    TurnedBack(ColumnRound(o, Turned(ColumnRound(o, m))))
  }

  // ---------- Words ----------

  function WordOps(): Ops<u32> {
    Ops(Add32, Xor32, x => Rotl(x, 16), x => Rotl(x, 12), x => Rotl(x, 8), x => Rotl(x, 7))
  }

  function ColumnOf(x: Words, a: nat, b: nat, c: nat, d: nat): Column<u32>
    requires a < 16 && b < 16 && c < 16 && d < 16
  {
    Column(x[a], x[b], x[c], x[d])
  }

  function MatrixOf(x: Words): Matrix<u32> {
    Matrix(ColumnOf(x, 0, 4, 8, 12), ColumnOf(x, 1, 5, 9, 13), ColumnOf(x, 2, 6, 10, 14), ColumnOf(x, 3, 7, 11, 15))
  }

  /** The quarter round changes four words, and they are the quarter round of a column. */
  lemma QuarterIs(x: Words, a: nat, b: nat, c: nat, d: nat)
    requires a < 16 && b < 16 && c < 16 && d < 16 && a != b && a != c && a != d && b != c && b != d && c != d
    ensures var y := QuarterRound(x, a, b, c, d);
      && ColumnOf(y, a, b, c, d) == Quarter(WordOps(), ColumnOf(x, a, b, c, d))
      && forall i :: 0 <= i < 16 && i != a && i != b && i != c && i != d ==> y[i] == x[i]
  {
    var x1 := AddXorRotate(x, a, b, d, 16);
    assert x1[a] == Add32(x[a], x[b]) && x1[d] == Rotl(Xor32(x[d], x1[a]), 16) && x1[b] == x[b] && x1[c] == x[c];
    var x2 := AddXorRotate(x1, c, d, b, 12);
    assert x2[c] == Add32(x1[c], x1[d]) && x2[b] == Rotl(Xor32(x1[b], x2[c]), 12) && x2[a] == x1[a] && x2[d] == x1[d];
    var x3 := AddXorRotate(x2, a, b, d, 8);
    assert x3[a] == Add32(x2[a], x2[b]) && x3[d] == Rotl(Xor32(x2[d], x3[a]), 8) && x3[b] == x2[b] && x3[c] == x2[c];
    var x4 := AddXorRotate(x3, c, d, b, 7);
    assert x4[c] == Add32(x3[c], x3[d]) && x4[b] == Rotl(Xor32(x3[b], x4[c]), 7) && x4[a] == x3[a] && x4[d] == x3[d];
  }

  lemma Column0(x: Words)
    ensures MatrixOf(QuarterRound(x, 0, 4, 8, 12)) == MatrixOf(x).(c0 := Quarter(WordOps(), MatrixOf(x).c0))
  {
    QuarterIs(x, 0, 4, 8, 12);
  }

  lemma Column1(x: Words)
    ensures MatrixOf(QuarterRound(x, 1, 5, 9, 13)) == MatrixOf(x).(c1 := Quarter(WordOps(), MatrixOf(x).c1))
  {
    QuarterIs(x, 1, 5, 9, 13);
  }

  lemma Column2(x: Words)
    ensures MatrixOf(QuarterRound(x, 2, 6, 10, 14)) == MatrixOf(x).(c2 := Quarter(WordOps(), MatrixOf(x).c2))
  {
    QuarterIs(x, 2, 6, 10, 14);
  }

  lemma Column3(x: Words)
    ensures MatrixOf(QuarterRound(x, 3, 7, 11, 15)) == MatrixOf(x).(c3 := Quarter(WordOps(), MatrixOf(x).c3))
  {
    QuarterIs(x, 3, 7, 11, 15);
  }

  lemma Diagonal0(x: Words)
    ensures Turned(MatrixOf(QuarterRound(x, 0, 5, 10, 15)))
      == Turned(MatrixOf(x)).(c0 := Quarter(WordOps(), Turned(MatrixOf(x)).c0))
  {
    QuarterIs(x, 0, 5, 10, 15);
  }

  lemma Diagonal1(x: Words)
    ensures Turned(MatrixOf(QuarterRound(x, 1, 6, 11, 12)))
      == Turned(MatrixOf(x)).(c1 := Quarter(WordOps(), Turned(MatrixOf(x)).c1))
  {
    QuarterIs(x, 1, 6, 11, 12);
  }

  lemma Diagonal2(x: Words)
    ensures Turned(MatrixOf(QuarterRound(x, 2, 7, 8, 13)))
      == Turned(MatrixOf(x)).(c2 := Quarter(WordOps(), Turned(MatrixOf(x)).c2))
  {
    QuarterIs(x, 2, 7, 8, 13);
  }

  lemma Diagonal3(x: Words)
    ensures Turned(MatrixOf(QuarterRound(x, 3, 4, 9, 14)))
      == Turned(MatrixOf(x)).(c3 := Quarter(WordOps(), Turned(MatrixOf(x)).c3))
  {
    QuarterIs(x, 3, 4, 9, 14);
  }

  /** The first half of a double round is a round on the columns, and the second half is the same round on the
      matrix whose row i is rotated left by i words. */
  lemma DoubleRoundIs(x: Words)
    ensures MatrixOf(DoubleRound(x)) == Double(WordOps(), MatrixOf(x))
  {
    var o := WordOps();
    var x1 := QuarterRound(x, 0, 4, 8, 12);
    var x2 := QuarterRound(x1, 1, 5, 9, 13);
    var x3 := QuarterRound(x2, 2, 6, 10, 14);
    var x4 := QuarterRound(x3, 3, 7, 11, 15);
    Column0(x);
    Column1(x1);
    Column2(x2);
    Column3(x3);
    assert MatrixOf(x4) == ColumnRound(o, MatrixOf(x));
    var x5 := QuarterRound(x4, 0, 5, 10, 15);
    var x6 := QuarterRound(x5, 1, 6, 11, 12);
    var x7 := QuarterRound(x6, 2, 7, 8, 13);
    var x8 := QuarterRound(x7, 3, 4, 9, 14);
    Diagonal0(x4);
    Diagonal1(x5);
    Diagonal2(x6);
    Diagonal3(x7);
    assert Turned(MatrixOf(x8)) == ColumnRound(o, Turned(MatrixOf(x4)));
  }

  /** What commutes with a step commutes with n steps. */
  lemma {:induction false} IteratedMaps<S(!new), R>(f: S -> S, g: R -> R, h: S -> R, s: S, n: nat)
    requires forall s :: h(f(s)) == g(h(s))
    ensures h(Iterated(f, s, n)) == Iterated(g, h(s), n)
  {
    if n > 0 {
      IteratedMaps(f, g, h, s, n - 1);
    }
  }

  function Doubles<T>(o: Ops<T>, m: Matrix<T>, n: nat): Matrix<T> { Iterated((m: Matrix<T>) => Double(o, m), m, n) }

  lemma IteratedNext<S>(f: S -> S, s: S, t: nat, u: S, v: S)
    requires Iterated(f, s, t) == u && f(u) == v
    ensures Iterated(f, s, t + 1) == v
  {
  }

  lemma DoublesNext<T>(o: Ops<T>, m: Matrix<T>, t: nat, u: Matrix<T>, v: Matrix<T>)
    requires Doubles(o, m, t) == u && Double(o, u) == v
    ensures Doubles(o, m, t + 1) == v
  {
    IteratedNext((m: Matrix<T>) => Double(o, m), m, t, u, v);
  }

  lemma RoundsAre(x: Words, n: nat)
    ensures MatrixOf(Rounds(x, n)) == Doubles(WordOps(), MatrixOf(x), n)
  {
    var f, g := DoubleRound, (m: Matrix<u32>) => Double(WordOps(), m);
    forall x ensures MatrixOf(f(x)) == g(MatrixOf(x)) {
      DoubleRoundIs(x);
    }
    IteratedMaps(f, g, MatrixOf, x, n);
  }

  // ---------- Words of other types ----------

  /** num is what the words of T stand for. */
  ghost predicate Models<T(!new)>(o: Ops<T>, num: T -> u32) {
    && (forall x, y {:trigger o.add(x, y)} :: num(o.add(x, y)) == Add32(num(x), num(y)))
    && (forall x, y {:trigger o.xor(x, y)} :: num(o.xor(x, y)) == Xor32(num(x), num(y)))
    && (forall x {:trigger o.rotate16(x)} :: num(o.rotate16(x)) == Rotl(num(x), 16))
    && (forall x {:trigger o.rotate12(x)} :: num(o.rotate12(x)) == Rotl(num(x), 12))
    && (forall x {:trigger o.rotate8(x)} :: num(o.rotate8(x)) == Rotl(num(x), 8))
    && (forall x {:trigger o.rotate7(x)} :: num(o.rotate7(x)) == Rotl(num(x), 7))
  }

  function ColumnNumbers<T>(num: T -> u32, q: Column<T>): Column<u32> { Column(num(q.a), num(q.b), num(q.c), num(q.d)) }

  function Numbers<T>(num: T -> u32, m: Matrix<T>): Matrix<u32> {
    Matrix(ColumnNumbers(num, m.c0), ColumnNumbers(num, m.c1), ColumnNumbers(num, m.c2), ColumnNumbers(num, m.c3))
  }

  lemma QuarterModel<T(!new)>(o: Ops<T>, num: T -> u32, q: Column<T>)
    requires Models(o, num)
    ensures ColumnNumbers(num, Quarter(o, q)) == Quarter(WordOps(), ColumnNumbers(num, q))
  {
  }

  lemma DoubleModel<T(!new)>(o: Ops<T>, num: T -> u32, m: Matrix<T>)
    requires Models(o, num)
    ensures Numbers(num, Double(o, m)) == Double(WordOps(), Numbers(num, m))
  {
    RoundModel(o, num, m);
    RoundModel(o, num, Turned(ColumnRound(o, m)));
  }

  lemma RoundModel<T(!new)>(o: Ops<T>, num: T -> u32, m: Matrix<T>)
    requires Models(o, num)
    ensures Numbers(num, ColumnRound(o, m)) == ColumnRound(WordOps(), Numbers(num, m))
  {
    QuarterModel(o, num, m.c0);
    QuarterModel(o, num, m.c1);
    QuarterModel(o, num, m.c2);
    QuarterModel(o, num, m.c3);
  }

  lemma DoublesModel<T(!new)>(o: Ops<T>, num: T -> u32, m: Matrix<T>, n: nat)
    requires Models(o, num)
    ensures Numbers(num, Doubles(o, m, n)) == Doubles(WordOps(), Numbers(num, m), n)
  {
    var f, g := (m: Matrix<T>) => Double(o, m), (m: Matrix<u32>) => Double(WordOps(), m);
    var h := (m: Matrix<T>) => Numbers(num, m);
    forall m ensures h(f(m)) == g(h(m)) {
      DoubleModel(o, num, m);
    }
    IteratedMaps(f, g, h, m, n);
  }

  /** The rounds of a block, computed over words of T. */
  lemma RoundsModel<T(!new)>(o: Ops<T>, num: T -> u32, m: Matrix<T>, x: Words, n: nat)
    requires Models(o, num) && Numbers(num, m) == MatrixOf(x)
    ensures MatrixOf(Rounds(x, n)) == Numbers(num, Doubles(o, m, n))
  {
    RoundsAre(x, n);
    DoublesModel(o, num, m, n);
  }
}
