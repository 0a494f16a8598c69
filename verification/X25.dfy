/** The checksum of MAVLink packets: CRC-16/MCRF4XX, with the byte-wise formula that the source computes it by. */
module X25 {
  import opened Bytes
  import opened ShiftRegister
  import opened Crc

  /** The generator polynomial is 0x8408, reflected; the sixteen digits are held in a wider word. */
  function Feedback(s: bv32): bv32 {
    (s >> 1) ^ ((0 - (s & 1)) & 0x8408)
  }

  const MCRF4XX := Register(32, Feedback, Xor, Join, 0, Roomy)

  const INITIAL: bv32 := 0xFFFF

  /** The checksum by definition: the data enters the register bit by bit. */
  function Crc16(data: seq<byte>, state: bv32): bv32 {
    Serial(MCRF4XX, state, AllBits(data))
  }

  /** An accumulator, as the source has it; it is never masked. */
  class X25Crc {
    var crc: bv32

    constructor ()
      ensures crc == INITIAL
    {
      crc := INITIAL;
    }

    method Accumulate(data: seq<byte>)
      requires crc < 0x1_0000
      modifies this
      ensures crc == Crc16(data, old(crc)) && crc < 0x1_0000
    {
      var accum := crc;
      for i := 0 to |data|
        invariant accum < 0x1_0000
        invariant Crc16(data, old(crc)) == Crc16(data[i..], accum)
      {
        accum := AccumulateByte(data[i..], accum);
        assert data[i..][1..] == data[i + 1..];
      }
      assert data[|data|..] == [];
      crc := accum;
    }

    /** The body of the loop; the accumulator needs no masking. */
    static method AccumulateByte(data: seq<byte>, accum: bv32) returns (next: bv32)
      requires data != [] && accum < 0x1_0000
      ensures Crc16(data, accum) == Crc16(data[1..], next) && next < 0x1_0000
    {
      var low := Word(data[0]) ^ (accum & 0xFF);
      var tmp := (low ^ (low << 4)) & 0xFF;
      next := (accum >> 8) ^ (tmp << 8) ^ (tmp << 3) ^ (tmp >> 4);
      FormulaStep(data, accum, Word(data[0]), low, tmp, next);
    }
  }

  // ---- the register is linear ----

  lemma FeedbackLinear(x: bv32, w: bv32)
    requires w <= 0x7FFF_FFFF
    ensures Feedback(x ^ (w << 1)) == Feedback(x) ^ w
  {
  }

  lemma FeedbackOver(x: bv32, w: bv32, mixed: bv32)
    requires mixed == x ^ (w << 1) && w <= 0x7FFF_FFFF
    ensures Feedback(mixed) == Feedback(x) ^ w
  {
    FeedbackLinear(x, w);
  }

  lemma FeedbackMixed(s: bv32, b: bool, w: bv32, x: bv32, mixed: bv32)
    requires Roomy(w) && x == Xor(s, Join(b, 0)) && mixed == Xor(s, Join(b, w))
    ensures Xor(Feedback(x), w) == Feedback(mixed)
  {
    JoinApart(s, b, w);
    FeedbackOver(x, w, mixed);
  }

  lemma Mcrf4xxIsLinear()
    ensures Linear(MCRF4XX)
  {
    Crc32IsLawful();
    forall bits: seq<bool> | |bits| < 32 ensures Roomy(Assemble(MCRF4XX, bits)) {
      SameDigits(MCRF4XX, CRC32, bits, 0, 0);
    }
    forall s, b, w ensures MovesDown(MCRF4XX, s, b, w) {
      if Roomy(w) {
        FeedbackMixed(s, b, w, Xor(s, Join(b, 0)), Xor(s, Join(b, w)));
      }
    }
  }

  // ---- why the formula is right ----

  function Feedback8(s: bv32): bv32 {
    Feedback(Feedback(Feedback(Feedback(Feedback(Feedback(Feedback(Feedback(s))))))))
  }

  lemma FormulaOfLowByte(low: bv32, tmp: bv32)
    requires low <= 0xFF && tmp == (low ^ (low << 4)) & 0xFF
    ensures Feedback8(low) == (tmp << 8) ^ (tmp << 3) ^ (tmp >> 4)
  {
  }

  lemma Split(accum: bv32, w: bv32, low: bv32, high: bv32, x: bv32)
    requires accum < 0x1_0000 && w & 0xFF == w
    requires x == accum ^ w && low == w ^ (accum & 0xFF) && high == accum >> 8
    ensures low <= 0xFF && high <= 0xFF_FFFF && x == Xor(low, high << 8)
  {
  }

  lemma ByteOfSteps(low: bv32, high: bv32, x: bv32)
    requires high <= 0xFF_FFFF && x == Xor(low, high << 8)
    ensures Steps(MCRF4XX, 8, x) == Xor(Feedback8(low), high)
  {
    Mcrf4xxIsLinear();
    ByteRaised(high);
    SameDigits(MCRF4XX, CRC32, [], 8, high);
    forall k: nat | k < 8 ensures Roomy(Raised(MCRF4XX, k, high)) {
      SameDigits(MCRF4XX, CRC32, [], k, high);
    }
    StepsMoveDown(MCRF4XX, 8, low, high);
    EightSteps(MCRF4XX, low);
  }

  lemma ByteEnters(data: seq<byte>, state: bv32)
    requires data != []
    ensures Crc16(data, state) == Crc16(data[1..], Steps(MCRF4XX, 8, Xor(state, Word(data[0]))))
  {
    Mcrf4xxIsLinear();
    SerialConcat(MCRF4XX, state, BitsOf(data[0]), AllBits(data[1..]));
    SerialIsSteps(MCRF4XX, state, BitsOf(data[0]));
    SameDigits(MCRF4XX, CRC32, BitsOf(data[0]), 0, 0);
  }

  lemma Combined(accum: bv32, low: bv32, high: bv32, tmp: bv32, next: bv32)
    requires accum < 0x1_0000 && low <= 0xFF && high == accum >> 8
    requires tmp == (low ^ (low << 4)) & 0xFF && next == (accum >> 8) ^ (tmp << 8) ^ (tmp << 3) ^ (tmp >> 4)
    ensures Xor(Feedback8(low), high) == next && next < 0x1_0000
  {
    FormulaOfLowByte(low, tmp);
  }

  /** One evaluation of the formula is eight steps of the register. */
  lemma FormulaStep(data: seq<byte>, accum: bv32, w: bv32, low: bv32, tmp: bv32, next: bv32)
    requires data != [] && accum < 0x1_0000 && w == Word(data[0]) && low == w ^ (accum & 0xFF)
    requires tmp == (low ^ (low << 4)) & 0xFF && next == (accum >> 8) ^ (tmp << 8) ^ (tmp << 3) ^ (tmp >> 4)
    ensures Crc16(data, accum) == Crc16(data[1..], next) && next < 0x1_0000
  {
    var x := Xor(accum, w);
    WordIsByte(data[0]);
    StepsToNext(accum, w, low, accum >> 8, x, tmp, next);
    ByteEnters(data, accum);
  }

  lemma StepsToNext(accum: bv32, w: bv32, low: bv32, high: bv32, x: bv32, tmp: bv32, next: bv32)
    requires accum < 0x1_0000 && w & 0xFF == w && x == accum ^ w && low == w ^ (accum & 0xFF) && high == accum >> 8
    requires tmp == (low ^ (low << 4)) & 0xFF && next == (accum >> 8) ^ (tmp << 8) ^ (tmp << 3) ^ (tmp >> 4)
    ensures Steps(MCRF4XX, 8, x) == next && next < 0x1_0000
  {
    Split(accum, w, low, high, x);
    ByteOfSteps(low, high, x);
    Combined(accum, low, high, tmp, next);
  }

  lemma {:induction false} Crc16IsNarrow(data: seq<byte>, state: bv32)
    requires state < 0x1_0000
    ensures Crc16(data, state) < 0x1_0000
    decreases |data|
  {
    if data != [] {
      var w := Word(data[0]);
      var low := w ^ (state & 0xFF);
      var tmp := (low ^ (low << 4)) & 0xFF;
      var next := (state >> 8) ^ (tmp << 8) ^ (tmp << 3) ^ (tmp >> 4);
      FormulaStep(data, state, w, low, tmp, next);
      Crc16IsNarrow(data[1..], next);
    }
  }

  /** Accumulating one piece after the other is accumulating their concatenation. */
  lemma Crc16Concat(a: seq<byte>, b: seq<byte>, state: bv32)
    ensures Crc16(a + b, state) == Crc16(b, Crc16(a, state))
  {
    AllBitsConcat(a, b);
    SerialConcat(MCRF4XX, state, AllBits(a), AllBits(b));
  }
}
