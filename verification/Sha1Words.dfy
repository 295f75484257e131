/** SHA-1 compression over words of any type that stand for the 32-bit words of Sha1Rounds. */
module Sha1Words {
  import opened Bits
  import opened Modular
  import opened Sha1Rounds

  datatype Ops<!T> = Ops(add: (T, T) -> T, xor: (T, T) -> T, and: (T, T) -> T,
                         rotate1: T -> T, rotate5: T -> T, rotate30: T -> T, k0: T, k1: T, k2: T, k3: T)

  datatype Variables<T> = Variables(a: T, b: T, c: T, d: T, e: T)

  /** The words of the schedule from the current one on. */
  datatype Window<T> = Window(w0: T, w1: T, w2: T, w3: T, w4: T, w5: T, w6: T, w7: T,
                              w8: T, w9: T, w10: T, w11: T, w12: T, w13: T, w14: T, w15: T)

  datatype Moment<T> = Moment(v: Variables<T>, w: Window<T>)

  function Select<T>(o: Ops<T>, t: nat, b: T, c: T, d: T): T {
    if t < 20 then o.xor(d, o.and(b, o.xor(c, d)))
    else if t < 40 then o.xor(o.xor(b, c), d)
    else if t < 60 then o.xor(o.xor(o.and(b, c), o.and(b, d)), o.and(c, d))
    else o.xor(o.xor(b, c), d)
  }

  function Constant<T>(o: Ops<T>, t: nat): T {
    if t < 20 then o.k0 else if t < 40 then o.k1 else if t < 60 then o.k2 else o.k3
  }

  function Sum<T>(o: Ops<T>, t: nat, v: Variables<T>, w: T): T {
    o.add(o.add(o.add(o.add(o.rotate5(v.a), Select(o, t, v.b, v.c, v.d)), v.e), Constant(o, t)), w)
  }

  /** The variables after a round. */
  function Turn<T>(o: Ops<T>, t: nat, v: Variables<T>, w: T): Variables<T> {
    Variables(Sum(o, t, v, w), v.a, o.rotate30(v.b), v.c, v.d)
  }

  function Slide<T>(o: Ops<T>, w: Window<T>): Window<T> {
    Window(w.w1, w.w2, w.w3, w.w4, w.w5, w.w6, w.w7, w.w8, w.w9, w.w10, w.w11, w.w12, w.w13, w.w14, w.w15,
      o.rotate1(o.xor(o.xor(o.xor(w.w13, w.w8), w.w2), w.w0)))
  }

  function Forward<T>(o: Ops<T>, s: Moment<T>, t: nat): Moment<T> { Moment(Turn(o, t, s.v, s.w.w0), Slide(o, s.w)) }

  /** n steps from step t on. */
  function Steps<S>(step: (S, nat) -> S, s: S, t: nat, n: nat): S
    decreases n
  {
    if n == 0 then s else Steps(step, step(s, t), t + 1, n - 1)
  }

  lemma {:induction false} StepsMore<S>(step: (S, nat) -> S, s: S, t: nat, m: nat, n: nat)
    ensures Steps(step, s, t, m + n) == Steps(step, Steps(step, s, t, m), t + m, n)
    decreases m
  {
    if m > 0 {
      StepsMore(step, step(s, t), t + 1, m - 1, n);
    }
  }

  lemma StepsOn<S>(step: (S, nat) -> S, s0: S, s: S, s': S, t: nat, m: nat, n: nat)
    requires Steps(step, s0, 0, t) == s && Steps(step, s, t, m) == s' && n == t + m
    ensures Steps(step, s0, 0, n) == s'
  {
    StepsMore(step, s0, 0, t, m);
  }

  /** n rounds from round t on. */
  function Run<T>(o: Ops<T>, s: Moment<T>, t: nat, n: nat): Moment<T> {
    Steps((s: Moment<T>, t: nat) => Forward(o, s, t), s, t, n)
  }

  lemma RunOn<T>(o: Ops<T>, s0: Moment<T>, s: Moment<T>, s': Moment<T>, t: nat, m: nat, n: nat)
    requires Run(o, s0, 0, t) == s && Run(o, s, t, m) == s' && n == t + m
    ensures Run(o, s0, 0, n) == s'
  {
    StepsOn((s: Moment<T>, t: nat) => Forward(o, s, t), s0, s, s', t, m, n);
  }

  /** Ten stretches of m rounds. */
  lemma RunTen<T>(o: Ops<T>, s0: Moment<T>, s1: Moment<T>, s2: Moment<T>, s3: Moment<T>, s4: Moment<T>, s5: Moment<T>,
                  s6: Moment<T>, s7: Moment<T>, s8: Moment<T>, s9: Moment<T>, s10: Moment<T>, m: nat)
    requires Run(o, s0, 0, m) == s1 && Run(o, s1, m, m) == s2 && Run(o, s2, 2 * m, m) == s3
    requires Run(o, s3, 3 * m, m) == s4 && Run(o, s4, 4 * m, m) == s5 && Run(o, s5, 5 * m, m) == s6
    requires Run(o, s6, 6 * m, m) == s7 && Run(o, s7, 7 * m, m) == s8 && Run(o, s8, 8 * m, m) == s9
    requires Run(o, s9, 9 * m, m) == s10
    ensures Run(o, s0, 0, 10 * m) == s10
  {
    RunOn(o, s0, s1, s2, m, m, 2 * m);
    RunOn(o, s0, s2, s3, 2 * m, m, 3 * m);
    RunOn(o, s0, s3, s4, 3 * m, m, 4 * m);
    RunOn(o, s0, s4, s5, 4 * m, m, 5 * m);
    RunOn(o, s0, s5, s6, 5 * m, m, 6 * m);
    RunOn(o, s0, s6, s7, 6 * m, m, 7 * m);
    RunOn(o, s0, s7, s8, 7 * m, m, 8 * m);
    RunOn(o, s0, s8, s9, 8 * m, m, 9 * m);
    RunOn(o, s0, s9, s10, 9 * m, m, 10 * m);
  }

  /** num is what the words of T stand for. */
  ghost predicate Models<T(!new)>(o: Ops<T>, num: T -> u32) {
    && (forall x, y {:trigger o.add(x, y)} :: num(o.add(x, y)) == Add32(num(x), num(y)))
    && (forall x, y {:trigger o.xor(x, y)} :: num(o.xor(x, y)) == Xor32(num(x), num(y)))
    && (forall x, y {:trigger o.and(x, y)} :: num(o.and(x, y)) == And32(num(x), num(y)))
    && (forall x {:trigger o.rotate1(x)} :: num(o.rotate1(x)) == Rotl(num(x), 1))
    && (forall x {:trigger o.rotate5(x)} :: num(o.rotate5(x)) == Rotl(num(x), 5))
    && (forall x {:trigger o.rotate30(x)} :: num(o.rotate30(x)) == Rotl(num(x), 30))
    && num(o.k0) == K(0) && num(o.k1) == K(20) && num(o.k2) == K(40) && num(o.k3) == K(60)
  }

  function Numbers<T>(num: T -> u32, v: Variables<T>): Registers {
    Registers(num(v.a), num(v.b), num(v.c), num(v.d), num(v.e))
  }

  lemma SelectIs<T(!new)>(o: Ops<T>, num: T -> u32, t: nat, b: T, c: T, d: T)
    requires Models(o, num)
    ensures num(Select(o, t, b, c, d)) == F(t, num(b), num(c), num(d))
  {
    ChSelect(num(b), num(c), num(d));
  }

  lemma FiveWords(a: u32, f: u32, e: u32, k: u32, w: u32)
    ensures Add32(Add32(Add32(Add32(a, f), e), k), w) == (a + f + e + k + w) % 0x1_0000_0000
  {
    ModTerm(0x1_0000_0000, a + f, e);
    ModTerm(0x1_0000_0000, a + f + e, k);
    ModTerm(0x1_0000_0000, a + f + e + k, w);
  }

  lemma SumIs<T(!new)>(add: (T, T) -> T, num: T -> u32, a: T, f: T, e: T, k: T, w: T)
    requires forall x, y {:trigger add(x, y)} :: num(add(x, y)) == Add32(num(x), num(y))
    ensures num(add(add(add(add(a, f), e), k), w)) == (num(a) + num(f) + num(e) + num(k) + num(w)) % 0x1_0000_0000
  {
    FiveWords(num(a), num(f), num(e), num(k), num(w));
  }

  lemma TurnSum<T(!new)>(o: Ops<T>, num: T -> u32, t: nat, v: Variables<T>, w: T, a: u32, f: u32)
    requires Models(o, num) && a == num(o.rotate5(v.a)) && f == num(Select(o, t, v.b, v.c, v.d))
    ensures num(Sum(o, t, v, w)) == (a + f + num(v.e) + K(t) + num(w)) % 0x1_0000_0000
  {
    SumIs(o.add, num, o.rotate5(v.a), Select(o, t, v.b, v.c, v.d), v.e, Constant(o, t), w);
  }

  lemma TurnIs<T(!new)>(o: Ops<T>, num: T -> u32, t: nat, v: Variables<T>, w: T)
    requires Models(o, num)
    ensures Numbers(num, Turn(o, t, v, w)) == Round(Numbers(num, v), t, num(w))
  {
    SelectIs(o, num, t, v.b, v.c, v.d);
    TurnSum(o, num, t, v, w, Rotl(num(v.a), 5), F(t, num(v.b), num(v.c), num(v.d)));
  }

  ghost predicate WindowAt<T>(num: T -> u32, w: Window<T>, block: Block, t: nat) {
    && num(w.w0) == W(block, t) && num(w.w1) == W(block, t + 1) && num(w.w2) == W(block, t + 2)
    && num(w.w3) == W(block, t + 3) && num(w.w4) == W(block, t + 4) && num(w.w5) == W(block, t + 5)
    && num(w.w6) == W(block, t + 6) && num(w.w7) == W(block, t + 7) && num(w.w8) == W(block, t + 8)
    && num(w.w9) == W(block, t + 9) && num(w.w10) == W(block, t + 10) && num(w.w11) == W(block, t + 11)
    && num(w.w12) == W(block, t + 12) && num(w.w13) == W(block, t + 13) && num(w.w14) == W(block, t + 14)
    && num(w.w15) == W(block, t + 15)
  }

  lemma ScheduleNext(block: Block, t: nat)
    ensures W(block, t + 16)
      == Rotl(Xor32(Xor32(Xor32(W(block, t + 13), W(block, t + 8)), W(block, t + 2)), W(block, t)), 1)
  {
  }

  lemma SlideIs<T(!new)>(o: Ops<T>, num: T -> u32, w: Window<T>, block: Block, t: nat)
    requires Models(o, num) && WindowAt(num, w, block, t)
    ensures WindowAt(num, Slide(o, w), block, t + 1)
  {
    ScheduleNext(block, t);
  }

  lemma RoundsNext(h: Registers, block: Block, t: nat)
    requires t < 80
    ensures Sha1Rounds.Rounds(h, Schedule(block)[..t + 1])
      == Round(Sha1Rounds.Rounds(h, Schedule(block)[..t]), t, W(block, t))
  {
    var ws := Schedule(block)[..t + 1];
    assert ws[..|ws| - 1] == Schedule(block)[..t] && ws[t] == W(block, t);
  }

  /** The moment before round t. */
  ghost predicate At<T>(num: T -> u32, s: Moment<T>, h: Registers, block: Block, t: nat)
    requires t <= 80
  {
    WindowAt(num, s.w, block, t) && Numbers(num, s.v) == Sha1Rounds.Rounds(h, Schedule(block)[..t])
  }

  lemma AtNext<T(!new)>(o: Ops<T>, num: T -> u32, s: Moment<T>, h: Registers, block: Block, t: nat)
    requires Models(o, num) && t < 80 && At(num, s, h, block, t)
    ensures At(num, Forward(o, s, t), h, block, t + 1)
  {
    TurnIs(o, num, t, s.v, s.w.w0);
    SlideIs(o, num, s.w, block, t);
    RoundsNext(h, block, t);
  }

  lemma RunNext<T>(o: Ops<T>, s: Moment<T>, t: nat, n: nat)
    ensures Run(o, s, t, n + 1) == Run(o, Forward(o, s, t), t + 1, n)
  {
  }

  lemma {:induction false} RunIs<T(!new)>(o: Ops<T>, num: T -> u32, s: Moment<T>, h: Registers, block: Block,
                                          t: nat, n: nat)
    requires Models(o, num) && t + n <= 80 && At(num, s, h, block, t)
    ensures At(num, Run(o, s, t, n), h, block, t + n)
    decreases n
  {
    if n > 0 {
      AtNext(o, num, s, h, block, t);
      RunIs(o, num, Forward(o, s, t), h, block, t + 1, n - 1);
      RunNext(o, s, t, n - 1);
    }
  }

  lemma AtEnd<T>(num: T -> u32, s: Moment<T>, h: Registers, block: Block, n: nat)
    requires n == 80 && At(num, s, h, block, n)
    ensures Compress(h, block) == AddRegisters(h, Numbers(num, s.v))
  {
    assert Schedule(block)[..n] == Schedule(block);
  }

  lemma AtStart<T>(num: T -> u32, s: Moment<T>, h: Registers, block: Block)
    requires WindowAt(num, s.w, block, 0) && h == Numbers(num, s.v)
    ensures At(num, s, h, block, 0)
  {
    assert Schedule(block)[..0] == [];
  }

  /** The compression function, computed over words of T. */
  lemma CompressIs<T(!new)>(o: Ops<T>, num: T -> u32, s: Moment<T>, s': Moment<T>, block: Block, n: nat)
    requires Models(o, num) && WindowAt(num, s.w, block, 0) && n == 80 && Run(o, s, 0, n) == s'
    ensures Compress(Numbers(num, s.v), block) == AddRegisters(Numbers(num, s.v), Numbers(num, s'.v))
  {
    var h := Numbers(num, s.v);
    AtStart(num, s, h, block);
    RunIs(o, num, s, h, block, 0, n);
    AtEnd(num, s', h, block, n);
  }
}
