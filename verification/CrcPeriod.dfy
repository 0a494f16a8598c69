/**
 * The register of CRC-32 passes through every value but zero before any of them returns, which makes its generator
 * polynomial primitive. A value stands for a polynomial over two elements, its highest digit for the constant, and a
 * step for the multiplication by x.
 */
module CrcPeriod {
  import opened Arithmetic
  import opened Bytes
  import opened ShiftRegister
  import opened Crc

  const ONE: bv32 := 0x8000_0000

  /** The number of values other than zero: 3 * 5 * 17 * 257 * 65537. */
  const PERIOD: nat := 0xFFFF_FFFF

  // ---- steps ----

  function Turned(n: nat, v: bv32): bv32 {
    if n == 0 then v else Step(Turned(n - 1, v))
  }

  lemma {:induction false} TurnedAdd(a: nat, b: nat, v: bv32)
    ensures Turned(a + b, v) == Turned(a, Turned(b, v))
  {
    hide Step;
    if a > 0 {
      TurnedAdd(a - 1, b, v);
    }
  }

  lemma {:induction false} TurnedInjective(n: nat, v: bv32, w: bv32)
    requires Turned(n, v) == Turned(n, w)
    ensures v == w
  {
    hide Step;
    if n > 0 {
      StepInjective(Turned(n - 1, v), Turned(n - 1, w));
      TurnedInjective(n - 1, v, w);
    }
  }

  lemma XorOfTwo(a: bv32, b: bv32, r: bv32)
    requires r == a ^ b
    ensures r == Xor(a, b)
  {
  }

  lemma XorMoves(a: bv32, b: bv32, c: bv32)
    ensures Xor(Xor(a, b), c) == Xor(a, Xor(b, c))
    ensures Xor(a, b) == Xor(b, a)
  {
  }

  lemma XorZero(v: bv32)
    ensures Xor(v, 0) == v && Xor(0, v) == v && Xor(v, v) == 0
  {
  }

  lemma LowestApart(w: bv32)
    ensures Roomy(w >> 1) && Join(w & 1 == 1, w >> 1) == w
  {
  }

  lemma StepFlipped(v: bv32, s: bv32)
    requires s == v ^ 1
    ensures Step(s) == Step(v) ^ 0xEDB8_8320
  {
  }

  lemma OneXor(v: bv32)
    ensures Step(Xor(v, 1)) == Xor(Step(v), 0xEDB8_8320)
  {
    hide Step;
    StepFlipped(v, Xor(v, 1));
    XorOfTwo(Step(v), 0xEDB8_8320, Step(Xor(v, 1)));
  }

  lemma LowestDigit()
    ensures Join(true, 0) == 1 && Step(1) == 0xEDB8_8320
    ensures Join(false, 0) == 0 && Step(0) == 0
  {
  }

  lemma LowestXor(v: bv32, b: bool)
    ensures Step(Xor(v, Join(b, 0))) == Xor(Step(v), Step(Join(b, 0)))
  {
    hide Step, Xor, Join;
    LowestDigit();
    OneXor(v);
    XorZero(v);
    XorZero(Step(v));
  }

  lemma StepXor(v: bv32, w: bv32)
    ensures Step(Xor(v, w)) == Xor(Step(v), Step(w))
  {
    hide Step, Xor, Join;
    var b, rest := w & 1 == 1, w >> 1;
    LowestApart(w);
    DigitsMoveDown(v, b, rest);
    DigitsMoveDown(0, b, rest);
    XorZero(w);
    XorZero(Join(b, 0));
    LowestXor(v, b);
    XorMoves(Step(v), Step(Join(b, 0)), rest);
  }

  lemma {:induction false} TurnedXor(n: nat, v: bv32, w: bv32)
    ensures Turned(n, Xor(v, w)) == Xor(Turned(n, v), Turned(n, w))
  {
    hide Step, Xor;
    if n > 0 {
      TurnedXor(n - 1, v, w);
      StepXor(Turned(n - 1, v), Turned(n - 1, w));
    }
  }

  lemma {:induction false} TurnedZero(n: nat)
    ensures Turned(n, 0) == 0
  {
    if n > 0 {
      TurnedZero(n - 1);
    }
  }

  // ---- squares ----

  /** The squares of x^0 to x^15 are single digits. */
  function First(v: bv32): bv32 {
    ((0 - ((v >> 31) & 1)) & 0x8000_0000) ^ ((0 - ((v >> 30) & 1)) & 0x2000_0000)
    ^ ((0 - ((v >> 29) & 1)) & 0x0800_0000) ^ ((0 - ((v >> 28) & 1)) & 0x0200_0000)
    ^ ((0 - ((v >> 27) & 1)) & 0x0080_0000) ^ ((0 - ((v >> 26) & 1)) & 0x0020_0000)
    ^ ((0 - ((v >> 25) & 1)) & 0x0008_0000) ^ ((0 - ((v >> 24) & 1)) & 0x0002_0000)
    ^ ((0 - ((v >> 23) & 1)) & 0x0000_8000) ^ ((0 - ((v >> 22) & 1)) & 0x0000_2000)
    ^ ((0 - ((v >> 21) & 1)) & 0x0000_0800) ^ ((0 - ((v >> 20) & 1)) & 0x0000_0200)
    ^ ((0 - ((v >> 19) & 1)) & 0x0000_0080) ^ ((0 - ((v >> 18) & 1)) & 0x0000_0020)
    ^ ((0 - ((v >> 17) & 1)) & 0x0000_0008) ^ ((0 - ((v >> 16) & 1)) & 0x0000_0002)
  }

  /** Those of the others have been reduced. */
  function Second(v: bv32): bv32 {
    ((0 - ((v >> 15) & 1)) & 0xEDB8_8320) ^ ((0 - ((v >> 14) & 1)) & 0x3B6E_20C8)
    ^ ((0 - ((v >> 13) & 1)) & 0x0EDB_8832) ^ ((0 - ((v >> 12) & 1)) & 0xEE0E_612C)
  }

  function Third(v: bv32): bv32 {
    ((0 - ((v >> 11) & 1)) & 0x3B83_984B) ^ ((0 - ((v >> 10) & 1)) & 0x9584_24A2)
    ^ ((0 - ((v >> 9) & 1)) & 0xC8D9_8A08) ^ ((0 - ((v >> 8) & 1)) & 0x3236_6282)
  }

  function Fourth(v: bv32): bv32 {
    ((0 - ((v >> 7) & 1)) & 0xE135_1B80) ^ ((0 - ((v >> 6) & 1)) & 0x384D_46E0)
    ^ ((0 - ((v >> 5) & 1)) & 0x0E13_51B8) ^ ((0 - ((v >> 4) & 1)) & 0x0384_D46E)
  }

  function Fifth(v: bv32): bv32 {
    ((0 - ((v >> 3) & 1)) & 0xED59_B63B) ^ ((0 - ((v >> 2) & 1)) & 0xA032_AF3E)
    ^ ((0 - ((v >> 1) & 1)) & 0xC5B4_28EF) ^ ((0 - (v & 1)) & 0xAA09_C88B)
  }

  function Lower(v: bv32): bv32 {
    (Second(v) ^ Third(v)) ^ (Fourth(v) ^ Fifth(v))
  }

  function Square(v: bv32): bv32 {
    First(v) ^ Lower(v)
  }

  /** The square of x times a polynomial is x^2 times its square. */
  ghost predicate StepSquares(v: bv32) {
    Square(Step(v)) == Step(Step(Square(v)))
  }

  lemma FirstLinear(v: bv32, w: bv32)
    ensures First(Xor(v, w)) == Xor(First(v), First(w))
  {
  }

  lemma SecondLinear(v: bv32, w: bv32)
    ensures Second(Xor(v, w)) == Xor(Second(v), Second(w))
  {
  }

  lemma ThirdLinear(v: bv32, w: bv32)
    ensures Third(Xor(v, w)) == Xor(Third(v), Third(w))
  {
  }

  lemma FourthLinear(v: bv32, w: bv32)
    ensures Fourth(Xor(v, w)) == Xor(Fourth(v), Fourth(w))
  {
  }

  lemma FifthLinear(v: bv32, w: bv32)
    ensures Fifth(Xor(v, w)) == Xor(Fifth(v), Fifth(w))
  {
  }

  lemma FirstStep(v: bv32)
    requires v & 0x0000_FFFF == 0
    ensures StepSquares(v)
  {
  }

  lemma SecondStep(v: bv32)
    requires v & 0xFFFF_0FFF == 0
    ensures StepSquares(v)
  {
  }

  lemma ThirdStep(v: bv32)
    requires v & 0xFFFF_F0FF == 0
    ensures StepSquares(v)
  {
  }

  lemma FourthStep(v: bv32)
    requires v & 0xFFFF_FF0F == 0
    ensures StepSquares(v)
  {
  }

  lemma FifthStep(v: bv32)
    requires v & 0xFFFF_FFF0 == 0
    ensures StepSquares(v)
  {
  }

  lemma XorPairs(a: bv32, b: bv32, c: bv32, d: bv32)
    ensures Xor(Xor(a, b), Xor(c, d)) == Xor(Xor(a, c), Xor(b, d))
  {
    hide Xor;
    XorMoves(a, b, Xor(c, d));
    XorMoves(b, c, d);
    XorMoves(c, b, d);
    XorMoves(a, c, Xor(b, d));
  }

  lemma XorOfFour(a: bv32, b: bv32, c: bv32, d: bv32, r: bv32)
    requires r == (a ^ b) ^ (c ^ d)
    ensures r == Xor(Xor(a, b), Xor(c, d))
  {
  }

  lemma SquareParts(v: bv32)
    ensures Square(v) == Xor(First(v), Lower(v))
    ensures Lower(v) == Xor(Xor(Second(v), Third(v)), Xor(Fourth(v), Fifth(v)))
  {
    hide First, Second, Third, Fourth, Fifth, Xor;
    XorOfFour(Second(v), Third(v), Fourth(v), Fifth(v), Lower(v));
    hide Lower;
    XorOfTwo(First(v), Lower(v), Square(v));
  }

  lemma SquareXor(v: bv32, w: bv32)
    ensures Square(Xor(v, w)) == Xor(Square(v), Square(w))
  {
    hide Xor, First, Second, Third, Fourth, Fifth, Lower, Square;
    SquareParts(v);
    SquareParts(w);
    SquareParts(Xor(v, w));
    FirstLinear(v, w);
    SecondLinear(v, w);
    ThirdLinear(v, w);
    FourthLinear(v, w);
    FifthLinear(v, w);
    XorPairs(Second(v), Second(w), Third(v), Third(w));
    XorPairs(Fourth(v), Fourth(w), Fifth(v), Fifth(w));
    XorPairs(Xor(Second(v), Third(v)), Xor(Second(w), Third(w)), Xor(Fourth(v), Fifth(v)), Xor(Fourth(w), Fifth(w)));
    XorPairs(First(v), First(w), Lower(v), Lower(w));
  }

  lemma StepSquaresXor(v: bv32, w: bv32)
    requires StepSquares(v) && StepSquares(w)
    ensures StepSquares(Xor(v, w))
  {
    hide Xor, Step, Square;
    StepXor(v, w);
    SquareXor(Step(v), Step(w));
    SquareXor(v, w);
    StepXor(Square(v), Square(w));
    StepXor(Step(Square(v)), Step(Square(w)));
  }

  lemma MasksCover(v: bv32)
    ensures v == Xor(v & 0xFFFF_0000, Xor(Xor(v & 0xF000, v & 0xF00), Xor(v & 0xF0, v & 0xF)))
  {
  }

  lemma StepSquaresAll(v: bv32)
    ensures StepSquares(v)
  {
    hide Xor, Step, Square, StepSquares;
    FirstStep(v & 0xFFFF_0000);
    SecondStep(v & 0xF000);
    ThirdStep(v & 0xF00);
    FourthStep(v & 0xF0);
    FifthStep(v & 0xF);
    StepSquaresXor(v & 0xF000, v & 0xF00);
    StepSquaresXor(v & 0xF0, v & 0xF);
    StepSquaresXor(Xor(v & 0xF000, v & 0xF00), Xor(v & 0xF0, v & 0xF));
    StepSquaresXor(v & 0xFFFF_0000, Xor(Xor(v & 0xF000, v & 0xF00), Xor(v & 0xF0, v & 0xF)));
    MasksCover(v);
  }

  // ---- powers of x ----

  function Power(m: nat): bv32 {
    Turned(m, ONE)
  }

  lemma SquareOne()
    ensures Square(ONE) == ONE
  {
  }

  lemma {:induction false} PowerDoubles(m: nat)
    ensures Power(2 * m) == Square(Power(m))
  {
    hide Step, Square;
    if m == 0 {
      SquareOne();
    } else {
      PowerDoubles(m - 1);
      StepSquaresAll(Power(m - 1));
      assert Turned(2 * m, ONE) == Step(Turned(2 * m - 1, ONE));
      assert Turned(2 * m - 1, ONE) == Step(Turned(2 * (m - 1), ONE));
    }
  }

  /** From x^m to x^(4m), x^(4m + 1), x^(4m + 2) and x^(4m + 3), so that exponents can be written in base four. */
  function Q0(v: bv32): bv32 {
    Square(Square(v))
  }

  function Q1(v: bv32): bv32 {
    Step(Square(Square(v)))
  }

  function Q2(v: bv32): bv32 {
    Square(Step(Square(v)))
  }

  function Q3(v: bv32): bv32 {
    Step(Square(Step(Square(v))))
  }

  lemma QuadrupleAt(m: nat)
    ensures Q0(Power(m)) == Power(4 * m) && Q1(Power(m)) == Power(4 * m + 1)
    ensures Q2(Power(m)) == Power(4 * m + 2) && Q3(Power(m)) == Power(4 * m + 3)
  {
    hide Step, Square;
    PowerDoubles(m);
    PowerDoubles(2 * m);
    PowerDoubles(2 * m + 1);
    assert 2 * (2 * m) == 4 * m && 2 * (2 * m + 1) == 4 * m + 2;
  }

  lemma Quadruples0()
    ensures forall m: nat {:trigger Q0(Power(m))} :: Q0(Power(m)) == Power(4 * m)
  {
    hide Q0, Power;
    forall m: nat ensures Q0(Power(m)) == Power(4 * m) {
      QuadrupleAt(m);
    }
  }

  lemma Quadruples1()
    ensures forall m: nat {:trigger Q1(Power(m))} :: Q1(Power(m)) == Power(4 * m + 1)
  {
    hide Q1, Power;
    forall m: nat ensures Q1(Power(m)) == Power(4 * m + 1) {
      QuadrupleAt(m);
    }
  }

  lemma Quadruples2()
    ensures forall m: nat {:trigger Q2(Power(m))} :: Q2(Power(m)) == Power(4 * m + 2)
  {
    hide Q2, Power;
    forall m: nat ensures Q2(Power(m)) == Power(4 * m + 2) {
      QuadrupleAt(m);
    }
  }

  lemma Quadruples3()
    ensures forall m: nat {:trigger Q3(Power(m))} :: Q3(Power(m)) == Power(4 * m + 3)
  {
    hide Q3, Power;
    forall m: nat ensures Q3(Power(m)) == Power(4 * m + 3) {
      QuadrupleAt(m);
    }
  }

  lemma PowerZero()
    ensures ONE == Power(0)
  {
  }

  // For each prime factor p of the period, x^(PERIOD / p) + 1 is a power of x, and its exponent is known.

  lemma Power3()
    ensures Q1(Q1(Q1(Q1(Q1(Q1(Q1(Q1(Q1(Q1(Q1(Q1(Q1(Q1(Q1(Q1(ONE)))))))))))))))) == 0xC736_EB52
  {
  }

  lemma Logarithm3()
    ensures Q2(Q2(Q2(Q2(Q2(Q2(Q2(Q2(Q2(Q2(Q2(Q2(Q2(Q2(Q2(Q2(ONE)))))))))))))))) == 0x4736_EB52
  {
  }

  lemma PlusOne3()
    ensures Power(0x5555_5555) ^ ONE == Power(0xAAAA_AAAA)
  {
    hide Q0, Q1, Q2, Q3, Power;
    Power3();
    Logarithm3();
    PowerZero();
    Quadruples0();
    Quadruples1();
    Quadruples2();
    Quadruples3();
  }

  lemma Power5()
    ensures Q3(Q0(Q3(Q0(Q3(Q0(Q3(Q0(Q3(Q0(Q3(Q0(Q3(Q0(Q3(ONE))))))))))))))) == 0x8401_1278
  {
  }

  lemma Logarithm5()
    ensures Q2(Q3(Q2(Q3(Q2(Q3(Q2(Q3(Q2(Q3(Q2(Q3(Q2(Q3(Q2(Q3(ONE)))))))))))))))) == 0x0401_1278
  {
  }

  lemma PlusOne5()
    ensures Power(0x3333_3333) ^ ONE == Power(0xEEEE_EEEE)
  {
    hide Q0, Q1, Q2, Q3, Power;
    Power5();
    Logarithm5();
    PowerZero();
    Quadruples0();
    Quadruples1();
    Quadruples2();
    Quadruples3();
  }

  lemma Power17()
    ensures Q3(Q3(Q0(Q0(Q3(Q3(Q0(Q0(Q3(Q3(Q0(Q0(Q3(Q3(ONE)))))))))))))) == 0x8C28_3CA0
  {
  }

  lemma Logarithm17()
    ensures Q0(Q0(Q1(Q0(Q0(Q0(Q1(Q0(Q0(Q0(Q1(Q0(Q0(Q0(Q1(ONE))))))))))))))) == 0x0C28_3CA0
  {
  }

  lemma PlusOne17()
    ensures Power(0x0F0F_0F0F) ^ ONE == Power(0x1010_1010)
  {
    hide Q0, Q1, Q2, Q3, Power;
    Power17();
    Logarithm17();
    PowerZero();
    Quadruples0();
    Quadruples1();
    Quadruples2();
    Quadruples3();
  }

  lemma Power257()
    ensures Q3(Q3(Q3(Q3(Q0(Q0(Q0(Q0(Q3(Q3(Q3(Q3(ONE)))))))))))) == 0x351C_22C9
  {
  }

  lemma Logarithm257()
    ensures Q0(Q1(Q3(Q0(Q1(Q1(Q3(Q0(Q0(Q1(Q3(Q0(Q1(Q1(Q3(ONE))))))))))))))) == 0xB51C_22C9
  {
  }

  lemma PlusOne257()
    ensures Power(0x00FF_00FF) ^ ONE == Power(0x3534_3534)
  {
    hide Q0, Q1, Q2, Q3, Power;
    Power257();
    Logarithm257();
    PowerZero();
    Quadruples0();
    Quadruples1();
    Quadruples2();
    Quadruples3();
  }

  lemma Power65537()
    ensures Q3(Q3(Q3(Q3(Q3(Q3(Q3(Q3(ONE)))))))) == 0xDC7B_5C5F
  {
  }

  lemma Logarithm65537()
    ensures Q0(Q2(Q3(Q3(Q0(Q2(Q3(Q2(Q1(Q2(Q3(Q3(Q0(Q2(Q3(Q2(ONE)))))))))))))))) == 0x5C7B_5C5F
  {
  }

  lemma PlusOne65537()
    ensures Power(0x0000_FFFF) ^ ONE == Power(0xB8F9_B8F8)
  {
    hide Q0, Q1, Q2, Q3, Power;
    Power65537();
    Logarithm65537();
    PowerZero();
    Quadruples0();
    Quadruples1();
    Quadruples2();
    Quadruples3();
  }

  lemma FullPower()
    ensures Q3(Q3(Q3(Q3(Q3(Q3(Q3(Q3(Q3(Q3(Q3(Q3(Q3(Q3(Q3(Q3(ONE)))))))))))))))) == ONE
  {
  }

  lemma FullTurn()
    ensures Power(PERIOD) == ONE
  {
    hide Q0, Q1, Q2, Q3, Power;
    FullPower();
    PowerZero();
    Quadruples0();
    Quadruples1();
    Quadruples2();
    Quadruples3();
  }

  // ---- from x to all values ----

  /** Multiplied by x^a, perhaps plus one, is multiplied by x^t. */
  ghost predicate Relates(a: nat, plusOne: bool, t: nat, v: bv32) {
    Xor(Turned(a, v), if plusOne then v else 0) == Turned(t, v)
  }

  lemma RelatesXor(a: nat, plusOne: bool, t: nat, v: bv32, w: bv32)
    requires Relates(a, plusOne, t, v) && Relates(a, plusOne, t, w)
    ensures Relates(a, plusOne, t, Xor(v, w))
  {
    TurnedXor(a, v, w);
    TurnedXor(t, v, w);
    hide Xor, Turned;
    var c, d := if plusOne then v else 0, if plusOne then w else 0;
    XorPairs(Turned(a, v), c, Turned(a, w), d);
    XorZero(0);
  }

  lemma RelatesStep(a: nat, plusOne: bool, t: nat, v: bv32)
    requires Relates(a, plusOne, t, v)
    ensures Relates(a, plusOne, t, Step(v))
  {
    hide Xor, Step;
    TurnedAdd(a, 1, v);
    TurnedAdd(t, 1, v);
    TurnedAdd(1, a, v);
    TurnedAdd(1, t, v);
    StepXor(Turned(a, v), if plusOne then v else 0);
    assert Turned(1, v) == Step(v) && Turned(1, Turned(a, v)) == Step(Turned(a, v));
    assert Turned(1, Turned(t, v)) == Step(Turned(t, v));
    StepZero();
  }

  lemma StepZero()
    ensures Step(0) == 0
  {
  }

  /** Each value is the sum of steps of ONE. */
  lemma TopDigitApart(v: bv32, mask: bv32)
    requires v & mask == 0 && mask & (mask + 1) == 0 && mask != 0xFFFF_FFFF
    ensures v == Xor(Step(v << 1), v & ONE) && (v & ONE == 0 || v & ONE == ONE)
    ensures var next := (mask << 1) | 1; (v << 1) & next == 0 && next & (next + 1) == 0 && next > mask
  {
  }

  lemma {:induction false} RelatesAll(a: nat, plusOne: bool, t: nat, v: bv32, mask: bv32)
    requires Relates(a, plusOne, t, ONE) && v & mask == 0 && mask & (mask + 1) == 0
    ensures Relates(a, plusOne, t, v)
    decreases 0xFFFF_FFFF - mask
  {
    hide Xor, Step, Relates;
    RelatesZero(a, plusOne, t);
    if mask == 0xFFFF_FFFF {
      assert v == 0;
    } else {
      TopDigitApart(v, mask);
      RelatesAll(a, plusOne, t, v << 1, (mask << 1) | 1);
      RelatesStep(a, plusOne, t, v << 1);
      RelatesXor(a, plusOne, t, Step(v << 1), v & ONE);
    }
  }

  lemma RelatesZero(a: nat, plusOne: bool, t: nat)
    ensures Relates(a, plusOne, t, 0)
  {
    hide Turned;
    TurnedZero(a);
    TurnedZero(t);
    XorZero(0);
  }

  // ---- periods ----

  ghost predicate Returns(n: nat, v: bv32) {
    Turned(n, v) == v
  }

  lemma PeriodReturns(v: bv32)
    ensures Returns(PERIOD, v)
  {
    hide Turned, Xor, Power;
    NoTurn(v);
    NoTurn(ONE);
    FullTurn();
    PlainPower(PERIOD);
    PlainPower(0);
    XorZero(ONE);
    RelatesAll(PERIOD, false, 0, v, 0);
    XorZero(Turned(PERIOD, v));
  }

  lemma PlainPower(m: nat)
    ensures Power(m) == Turned(m, ONE)
  {
  }

  lemma NoTurn(v: bv32)
    ensures Turned(0, v) == v
  {
  }

  /** If x^q + 1 is a power of x, then multiplying by x^q leaves only zero where it is. */
  lemma Moves(q: nat, t: nat, v: bv32)
    requires Power(q) ^ ONE == Power(t) && v != 0
    ensures !Returns(q, v)
  {
    hide Turned;
    RelatesAll(q, true, t, v, 0);
    if Returns(q, v) {
      hide Xor;
      XorZero(v);
      TurnedZero(t);
      TurnedInjective(t, v, 0);
      assert false;
    }
  }

  lemma ReturnsSum(a: nat, b: nat, v: bv32)
    requires Returns(b, v)
    ensures Returns(a + b, v) <==> Returns(a, v)
  {
    hide Turned;
    TurnedAdd(a, b, v);
  }

  lemma {:induction false} ReturnsMultiple(k: nat, a: nat, v: bv32)
    requires Returns(a, v)
    ensures Returns(k * a, v)
  {
    if k > 0 {
      hide Returns;
      ReturnsMultiple(k - 1, a, v);
      ReturnsSum((k - 1) * a, a, v);
      assert (k - 1) * a + a == k * a;
    }
  }

  /** What is left of one period after taking away another as often as possible is a period. */
  lemma ReturnsRemainder(k: nat, a: nat, r: nat, v: bv32)
    requires Returns(k * a + r, v) && Returns(a, v)
    ensures Returns(r, v)
  {
    hide Returns;
    ReturnsMultiple(k, a, v);
    assert k * a + r == r + k * a;
    ReturnsSum(r, k * a, v);
  }

  // ---- the factors of the period ----

  /** The steps of Euclid's algorithm, down to one. */
  lemma {:induction false} FromRemainder(p: nat, r: nat, q: nat, v: bv32)
    requires Prime(p) && 0 < r < p && Returns(p * q, v) && Returns(r * q, v)
    ensures Returns(q, v)
    decreases r
  {
    hide Returns;
    if r == 1 {
      assert r * q == q;
    } else {
      var k, s := p / r, p % r;
      assert p == k * r + s;
      assert p * q == k * (r * q) + s * q;
      ReturnsRemainder(k, r * q, s * q, v);
      FromRemainder(p, s, q, v);
    }
  }

  lemma FactorDivides(p: nat, q: nat, n: nat, v: bv32)
    requires Prime(p) && Returns(n, v) && Returns(p * q, v) && !Returns(q, v)
    ensures n % p == 0
  {
    hide Returns;
    assert p > 0;
    hide Prime;
    var k, r := n / p, n % p;
    assert n == k * p + r;
    if r > 0 {
      ReturnsMultiple(q, n, v);
      assert q * n == k * (p * q) + r * q;
      ReturnsRemainder(k, p * q, r * q, v);
      FromRemainder(p, r, q, v);
      assert false;
    }
  }

  lemma Factor3(n: nat, v: bv32)
    requires v != 0 && Returns(n, v)
    ensures n % 3 == 0
  {
    hide Returns, Power, Xor, Turned, Prime;
    PlusOne3();
    Moves(0x5555_5555, 0xAAAA_AAAA, v);
    PeriodReturns(v);
    SmallPrimes();
    FactorDivides(3, 0x5555_5555, n, v);
  }

  lemma Factor5(n: nat, v: bv32)
    requires v != 0 && Returns(n, v)
    ensures n % 5 == 0
  {
    hide Returns, Power, Xor, Turned, Prime;
    PlusOne5();
    Moves(0x3333_3333, 0xEEEE_EEEE, v);
    PeriodReturns(v);
    SmallPrimes();
    FactorDivides(5, 0x3333_3333, n, v);
  }

  lemma Factor17(n: nat, v: bv32)
    requires v != 0 && Returns(n, v)
    ensures n % 17 == 0
  {
    hide Returns, Power, Xor, Turned, Prime;
    PlusOne17();
    Moves(0x0F0F_0F0F, 0x1010_1010, v);
    PeriodReturns(v);
    SmallPrimes();
    FactorDivides(17, 0x0F0F_0F0F, n, v);
  }

  lemma Factor257(n: nat, v: bv32)
    requires v != 0 && Returns(n, v)
    ensures n % 257 == 0
  {
    hide Returns, Power, Xor, Turned, Prime;
    PlusOne257();
    Moves(0x00FF_00FF, 0x3534_3534, v);
    PeriodReturns(v);
    SmallPrimes();
    FactorDivides(257, 0x00FF_00FF, n, v);
  }

  lemma Factor65537(n: nat, v: bv32)
    requires v != 0 && Returns(n, v)
    ensures n % 65537 == 0
  {
    hide Returns, Power, Xor, Turned, Prime;
    PlusOne65537();
    Moves(0x0000_FFFF, 0xB8F9_B8F8, v);
    PeriodReturns(v);
    FermatPrime();
    FactorDivides(65537, 0x0000_FFFF, n, v);
  }

  lemma SmallPrimes()
    ensures Prime(3) && Prime(5) && Prime(17) && Prime(257)
  {
    hide Prime;
    TrialDivision(3, 0);
    TrialDivision(5, 0);
    TrialDivision(17, 1);
    TrialDivision(257, 2);
  }

  /** No value but zero returns before all the others have been there. */
  lemma ReturnsExactly(n: nat, v: bv32)
    ensures Turned(n, v) == v <==> n % PERIOD == 0 || v == 0
  {
    hide Turned;
    TurnedZero(n);
    if n % PERIOD == 0 {
      PeriodReturns(v);
      ReturnsMultiple(n / PERIOD, PERIOD, v);
    } else if v != 0 && Returns(n, v) {
      Factor3(n, v);
      Factor5(n, v);
      Factor17(n, v);
      Factor257(n, v);
      Factor65537(n, v);
      CoprimeFactors(3, 5, 2, 1, n);
      CoprimeFactors(15, 17, 8, 7, n);
      CoprimeFactors(255, 257, 128, 127, n);
      CoprimeFactors(65535, 65537, 32768, 32767, n);
      assert false;
    }
  }

  // ---- what a checksum cannot see ----

  /** A difference in the register moves on by itself, whatever data enters. */
  lemma {:induction false} SerialXor(s: bv32, d: bv32, bits: seq<bool>)
    ensures Serial(CRC32, Xor(s, d), bits) == Xor(Serial(CRC32, s, bits), Turned(|bits|, d))
    decreases |bits|
  {
    hide Step, Xor, Join;
    if bits != [] {
      var low := Join(bits[0], 0);
      XorMoves(s, d, low);
      XorMoves(d, low, s);
      XorMoves(s, low, d);
      StepXor(Xor(s, low), d);
      SerialXor(Shift(CRC32, s, bits[0]), Step(d), bits[1..]);
      TurnedAdd(|bits| - 1, 1, d);
      assert Turned(1, d) == Step(d);
    }
  }

  lemma Flipped(s: bv32, b: bool)
    ensures Shift(CRC32, s, !b) == Xor(Shift(CRC32, s, b), Step(1))
  {
    hide Step, Xor, Join;
    LowestDigit();
    LowestXor(s, b);
    LowestXor(s, !b);
    XorZero(Step(s));
    XorZero(Step(1));
    XorMoves(Step(s), Step(1), Step(1));
  }

  lemma XorApart(a: bv32, b: bv32)
    ensures Xor(a, b) == 0 <==> a == b
  {
    hide Xor;
    XorMoves(a, b, b);
    XorZero(a);
    XorZero(b);
  }

  /** Two wrong bits go unnoticed exactly if they are a multiple of the period apart. */
  lemma TwoFlips(s: bv32, before: seq<bool>, x: bool, between: seq<bool>, y: bool, after: seq<bool>)
    ensures Serial(CRC32, s, before + [x] + between + [y] + after)
              == Serial(CRC32, s, before + [!x] + between + [!y] + after)
            <==> (|between| + 1) % PERIOD == 0
  {
    hide Step, Xor, Join, Turned, Serial, Shift;
    var n, d := |between|, Step(1);
    var first := Shift(CRC32, Serial(CRC32, s, before), x);
    var middle := Serial(CRC32, first, between);
    var last := Shift(CRC32, middle, y);
    var distance := Xor(Turned(n + 1, d), d);
    Stages(s, before, x, between, y, after);
    Stages(s, before, !x, between, !y, after);
    Flipped(Serial(CRC32, s, before), x);
    SerialXor(first, d, between);
    SerialXor(middle, Turned(n, d), [y]);
    OneBit(middle, y);
    OneBit(Xor(middle, Turned(n, d)), y);
    TurnedAdd(1, n, d);
    Flipped(Xor(middle, Turned(n, d)), y);
    XorMoves(last, Turned(n + 1, d), d);
    SerialXor(last, distance, after);
    Unseen(Serial(CRC32, last, after), Turned(|after|, distance));
    TurnedZero(|after|);
    if Turned(|after|, distance) == 0 {
      TurnedInjective(|after|, distance, 0);
    }
    XorApart(Turned(n + 1, d), d);
    LowestDigit();
    ReturnsExactly(n + 1, d);
  }

  lemma Unseen(a: bv32, d: bv32)
    ensures Xor(a, d) == a <==> d == 0
  {
    hide Xor;
    XorMoves(a, a, d);
    XorZero(a);
    XorZero(d);
  }

  lemma Stages(s: bv32, before: seq<bool>, x: bool, between: seq<bool>, y: bool, after: seq<bool>)
    ensures var middle := Serial(CRC32, Shift(CRC32, Serial(CRC32, s, before), x), between);
            Serial(CRC32, s, before + [x] + between + [y] + after)
              == Serial(CRC32, Shift(CRC32, middle, y), after)
  {
    SerialConcat(CRC32, s, before + [x] + between + [y], after);
    SerialConcat(CRC32, s, before + [x] + between, [y]);
    SerialConcat(CRC32, s, before + [x], between);
    SerialConcat(CRC32, s, before, [x]);
    OneBit(Serial(CRC32, s, before), x);
    OneBit(Serial(CRC32, s, before + [x] + between), y);
  }

  lemma OneBit(s: bv32, b: bool)
    ensures Serial(CRC32, s, [b]) == Shift(CRC32, s, b)
  {
    assert [b][1..] == [];
  }

  // ---- erased bytes ----

  lemma {:induction false} StepsAreTurns(n: nat, v: bv32)
    ensures Steps(CRC32, n, v) == Turned(n, v)
  {
    hide Step;
    if n > 0 {
      StepsAreTurns(n - 1, Step(v));
      TurnedAdd(n - 1, 1, v);
      assert Turned(1, v) == Step(v);
    }
  }

  lemma OneErasedByte(s: bv32)
    ensures Crc32([0xFF], s) == Turned(8, Xor(s, 0xFF))
  {
    hide Crc32, Steps, Step, Word, Xor, Turned;
    var x := Xor(s, 0xFF);
    ErasedWord();
    FirstByte(s, [0xFF], x);
    assert [0xFF as byte][1..] == [];
    EmptyCrc(Steps(CRC32, 8, x));
    StepsAreTurns(8, x);
  }

  lemma XorSwaps(a: bv32, b: bv32, c: bv32)
    ensures Xor(Xor(a, c), Xor(b, c)) == Xor(a, b)
  {
    hide Xor;
    XorPairs(a, c, b, c);
    XorZero(c);
    XorZero(Xor(a, b));
  }

  lemma SameDistance(a: bv32, b: bv32, c: bv32)
    requires Xor(a, c) == Xor(b, c)
    ensures a == b
  {
    hide Xor;
    XorMoves(a, c, c);
    XorMoves(b, c, c);
    XorZero(a);
    XorZero(b);
    XorZero(c);
  }

  /** Seen from the fixed point, an erased byte is eight steps. */
  lemma {:induction false} ErasedTurns(k: nat, s: bv32)
    ensures Xor(Crc32(Fill(0xFF, k), s), ERASED_FIXPOINT) == Turned(8 * k, Xor(s, ERASED_FIXPOINT))
  {
    hide Crc32, Xor, Step, Turned;
    var f := ERASED_FIXPOINT;
    if k == 0 {
      EmptyCrc(s);
      assert Fill(0xFF, 0) == [];
      NoTurn(Xor(s, f));
    } else {
      var t := Crc32(Fill(0xFF, k - 1), s);
      ErasedTurns(k - 1, s);
      assert Fill(0xFF, k) == Fill(0xFF, k - 1) + [0xFF];
      Crc32Concat(Fill(0xFF, k - 1), [0xFF], s);
      OneErasedByte(t);
      OneErasedByte(f);
      ErasedByteFixpoint(f);
      TurnedXor(8, Xor(t, 0xFF), Xor(f, 0xFF));
      XorSwaps(t, f, 0xFF);
      TurnedAdd(8, 8 * (k - 1), Xor(s, f));
      assert 8 + 8 * (k - 1) == 8 * k;
    }
  }

  /** A number of erased bytes leaves a checksum alone only after whole periods, except for the fixed point. */
  lemma ErasedBytesReturn(k: nat, s: bv32)
    ensures Crc32(Fill(0xFF, k), s) == s <==> k % PERIOD == 0 || s == ERASED_FIXPOINT
  {
    hide Crc32, Xor, Turned;
    var d := Xor(s, ERASED_FIXPOINT);
    ErasedTurns(k, s);
    ReturnsExactly(8 * k, d);
    XorApart(s, ERASED_FIXPOINT);
    EightIsCoprime(k);
    if Crc32(Fill(0xFF, k), s) != s && Turned(8 * k, d) == d {
      SameDistance(Crc32(Fill(0xFF, k), s), s, ERASED_FIXPOINT);
    }
  }

  lemma EightDivides(k: nat)
    requires 8 * k % PERIOD == 0
    ensures k % PERIOD == 0
  {
    CoprimeFactors(8, PERIOD, 0x2000_0000, 1, 8 * k);
    var c := 8 * k / (8 * PERIOD);
    assert 8 * k == c * (8 * PERIOD);
    assert k == c * PERIOD;
  }

  lemma EightIsCoprime(k: nat)
    ensures 8 * k % PERIOD == 0 <==> k % PERIOD == 0
  {
    if k % PERIOD == 0 {
      var c := k / PERIOD;
      assert k == c * PERIOD && 8 * k == (8 * c) * PERIOD;
      MultipleDivides(8 * c, PERIOD);
    } else if 8 * k % PERIOD == 0 {
      EightDivides(k);
    }
  }
}
