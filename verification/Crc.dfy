/**
 * The theory of a linear feedback shift register, for any word type: what bit-serial checksums promise.
 * Both checksums below are instances.
 */
module ShiftRegister {
  import opened Bytes

  /** The bits of a byte, least significant first. */
  function BitsOf(b: byte): (s: seq<bool>)
    ensures |s| == 8
  {
    Digits(b as nat, 8)
  }

  function Digits(n: nat, count: nat): (s: seq<bool>)
    ensures |s| == count
  {
    if count == 0 then [] else [n % 2 == 1] + Digits(n / 2, count - 1)
  }

  /** All the bits of a byte string, in the order in which they enter the register. */
  function AllBits(data: seq<byte>): (bits: seq<bool>)
    ensures |bits| == 8 * |data|
  {
    if data == [] then [] else BitsOf(data[0]) + AllBits(data[1..])
  }

  /**
   * `step` moves the register by one position with feedback, `mix` is exclusive-or, `join` puts one digit below
   * a word, `zero` is the word without digits, and `roomy(w)` says that the topmost digit of `w` is free.
   */
  datatype Register<!W> =
    Register(width: nat, step: W -> W, mix: (W, W) -> W, join: (bool, W) -> W, zero: W, roomy: W -> bool)

  /** One data bit enters: it is mixed into the lowest position, then the register steps. */
  function Shift<W>(r: Register<W>, state: W, bit: bool): W {
    r.step(r.mix(state, r.join(bit, r.zero)))
  }

  function Serial<W>(r: Register<W>, state: W, bits: seq<bool>): W
    decreases |bits|
  {
    if bits == [] then state else Serial(r, Shift(r, state, bits[0]), bits[1..])
  }

  function Steps<W>(r: Register<W>, n: nat, s: W): W {
    if n == 0 then s else Steps(r, n - 1, r.step(s))
  }

  /** The word with the given digits, lowest first. */
  function Assemble<W>(r: Register<W>, bits: seq<bool>): W {
    if bits == [] then r.zero else r.join(bits[0], Assemble(r, bits[1..]))
  }

  /** The words are wide enough, and digits that are not at the bottom only move down in a step. */
  ghost predicate Linear<W(!new)>(r: Register<W>) {
    && r.width > 0
    && (forall w :: r.mix(w, r.zero) == w)
    && r.join(false, r.zero) == r.zero
    && (forall bits: seq<bool> :: |bits| < r.width ==> r.roomy(Assemble(r, bits)))
    && (forall s, b, w :: MovesDown(r, s, b, w))
  }

  /** The lowest digit feeds back, the digits of a roomy word above it move down. */
  ghost predicate MovesDown<W>(r: Register<W>, s: W, b: bool, w: W) {
    r.roomy(w) ==> r.mix(r.step(r.mix(s, r.join(b, r.zero))), w) == r.step(r.mix(s, r.join(b, w)))
  }

  /** Besides, nothing is ever forgotten. */
  ghost predicate Lawful<W(!new)>(r: Register<W>) {
    && Linear(r)
    && (forall s, t :: r.step(s) == r.step(t) ==> s == t)
    && (forall s, v, w :: r.mix(s, v) == r.mix(s, w) ==> v == w)
    && (forall s, t, w :: r.mix(s, w) == r.mix(t, w) ==> s == t)
    && (forall b, v, c, w :: JoinsApart(r, b, v, c, w))
  }

  /** A digit and a roomy word can be told apart after joining. */
  ghost predicate JoinsApart<W>(r: Register<W>, b: bool, v: W, c: bool, w: W) {
    r.roomy(v) && r.roomy(w) && r.join(b, v) == r.join(c, w) ==> b == c && v == w
  }

  lemma {:induction false} SerialConcat<W>(r: Register<W>, state: W, x: seq<bool>, y: seq<bool>)
    ensures Serial(r, state, x + y) == Serial(r, Serial(r, state, x), y)
    decreases |x|
  {
    if x == [] {
      assert x + y == y;
    } else {
      assert (x + y)[1..] == x[1..] + y;
      SerialConcat(r, Shift(r, state, x[0]), x[1..], y);
    }
  }

  /** Entering one by one or being mixed in all at once makes no difference, as long as the register is wide enough. */
  lemma {:induction false} SerialIsSteps<W(!new)>(r: Register<W>, state: W, bits: seq<bool>)
    requires Linear(r) && |bits| <= r.width
    ensures Serial(r, state, bits) == Steps(r, |bits|, r.mix(state, Assemble(r, bits)))
    decreases |bits|
  {
    if bits != [] {
      assert r.roomy(Assemble(r, bits[1..]));
      assert MovesDown(r, state, bits[0], Assemble(r, bits[1..]));
      SerialIsSteps(r, Shift(r, state, bits[0]), bits[1..]);
    }
  }

  /** The digits above the first `n` only move down in `n` steps. */
  function Raised<W>(r: Register<W>, n: nat, w: W): W {
    if n == 0 then w else r.join(false, Raised(r, n - 1, w))
  }

  lemma StepMovesDown<W(!new)>(r: Register<W>, x: W, w: W)
    requires Linear(r) && r.roomy(w)
    ensures r.step(r.mix(x, r.join(false, w))) == r.mix(r.step(x), w)
  {
    assert MovesDown(r, x, false, w);
    assert r.mix(x, r.join(false, r.zero)) == x;
  }

  lemma {:induction false} StepsMoveDown<W(!new)>(r: Register<W>, n: nat, x: W, w: W)
    requires Linear(r) && forall k: nat :: k < n ==> r.roomy(Raised(r, k, w))
    ensures Steps(r, n, r.mix(x, Raised(r, n, w))) == r.mix(Steps(r, n, x), w)
  {
    if n > 0 {
      StepMovesDown(r, x, Raised(r, n - 1, w));
      StepsMoveDown(r, n - 1, r.step(x), w);
    }
  }

  /** The digits of a word do not depend on the feedback. */
  lemma {:induction false} SameDigits<W>(r: Register<W>, q: Register<W>, bits: seq<bool>, n: nat, w: W)
    requires r.join == q.join && r.zero == q.zero
    ensures Assemble(r, bits) == Assemble(q, bits) && Raised(r, n, w) == Raised(q, n, w)
    decreases |bits|, n
  {
    if bits != [] {
      SameDigits(r, q, bits[1..], n, w);
    } else if n > 0 {
      SameDigits(r, q, bits, n - 1, w);
    }
  }

  lemma {:induction false} SerialInjective<W(!new)>(r: Register<W>, s: W, t: W, bits: seq<bool>)
    requires Lawful(r) && Serial(r, s, bits) == Serial(r, t, bits)
    ensures s == t
    decreases |bits|
  {
    if bits != [] {
      SerialInjective(r, Shift(r, s, bits[0]), Shift(r, t, bits[0]), bits[1..]);
      assert r.mix(s, r.join(bits[0], r.zero)) == r.mix(t, r.join(bits[0], r.zero));
    }
  }

  lemma {:induction false} StepsInjective<W(!new)>(r: Register<W>, n: nat, s: W, t: W)
    requires Lawful(r) && Steps(r, n, s) == Steps(r, n, t)
    ensures s == t
  {
    if n > 0 {
      StepsInjective(r, n - 1, r.step(s), r.step(t));
    }
  }

  lemma {:induction false} AssembleInjective<W(!new)>(r: Register<W>, x: seq<bool>, y: seq<bool>)
    requires Lawful(r) && |x| == |y| <= r.width && Assemble(r, x) == Assemble(r, y)
    ensures x == y
  {
    if x != [] {
      var v, w := Assemble(r, x[1..]), Assemble(r, y[1..]);
      assert JoinsApart(r, x[0], v, y[0], w);
      AssembleInjective(r, x[1..], y[1..]);
      assert x == [x[0]] + x[1..] && y == [y[0]] + y[1..];
    }
  }

  /** Two bit strings that differ only within as many neighbouring bits as the register has never collide. */
  lemma BurstsAreDetected<W(!new)>(r: Register<W>, state: W, before: seq<bool>, x: seq<bool>, y: seq<bool>,
                                   after: seq<bool>)
    requires Lawful(r) && |x| == |y| <= r.width && x != y
    ensures Serial(r, state, before + x + after) != Serial(r, state, before + y + after)
  {
    var s := Serial(r, state, before);
    SerialConcat(r, state, before + x, after);
    SerialConcat(r, state, before, x);
    SerialConcat(r, state, before + y, after);
    SerialConcat(r, state, before, y);
    SerialIsSteps(r, s, x);
    SerialIsSteps(r, s, y);
    if Serial(r, state, before + x + after) == Serial(r, state, before + y + after) {
      SerialInjective(r, Serial(r, s, x), Serial(r, s, y), after);
      StepsInjective(r, |x|, r.mix(s, Assemble(r, x)), r.mix(s, Assemble(r, y)));
      AssembleInjective(r, x, y);
      assert false;
    }
  }

  // ---- bytes and their bits ----

  lemma {:induction false} AllBitsConcat(a: seq<byte>, b: seq<byte>)
    ensures AllBits(a + b) == AllBits(a) + AllBits(b)
  {
    if a == [] {
      assert a + b == b;
    } else {
      assert (a + b)[1..] == a[1..] + b;
      AllBitsConcat(a[1..], b);
    }
  }

  function Power2(n: nat): (p: nat)
    ensures p >= 1
  {
    if n == 0 then 1 else 2 * Power2(n - 1)
  }

  lemma {:induction false} DigitsInjective(m: nat, n: nat, count: nat)
    requires m < Power2(count) && n < Power2(count) && Digits(m, count) == Digits(n, count)
    ensures m == n
  {
    if count > 0 {
      assert Digits(m, count)[0] == (m % 2 == 1) && Digits(n, count)[0] == (n % 2 == 1);
      assert Digits(m, count)[1..] == Digits(m / 2, count - 1) && Digits(n, count)[1..] == Digits(n / 2, count - 1);
      DigitsInjective(m / 2, n / 2, count - 1);
    }
  }

  lemma {:induction false} AllBitsInjective(x: seq<byte>, y: seq<byte>)
    requires |x| == |y| && AllBits(x) == AllBits(y)
    ensures x == y
  {
    if x != [] {
      assert BitsOf(x[0]) == AllBits(x)[..8] && BitsOf(y[0]) == AllBits(y)[..8];
      assert AllBits(x[1..]) == AllBits(x)[8..] && AllBits(y[1..]) == AllBits(y)[8..];
      AllBitsInjective(x[1..], y[1..]);
      assert Power2(4) == 16;
      assert Power2(8) == 256;
      DigitsInjective(x[0] as nat, y[0] as nat, 8);
      assert x == [x[0]] + x[1..] && y == [y[0]] + y[1..];
    }
  }
}

/** CRC-32 with the reflected generator polynomial of IEEE 802.3, without inversion before or after. */
module Crc {
  import opened Bytes
  import opened ShiftRegister

  /** Feedback happens exactly when the digit that leaves is set. */
  function Step(s: bv32): bv32 {
    (s >> 1) ^ ((0 - (s & 1)) & 0xEDB88320)
  }

  function Xor(v: bv32, w: bv32): bv32 {
    v ^ w
  }

  function Join(bit: bool, rest: bv32): bv32 {
    (if bit then 1 else 0) | (rest << 1)
  }

  predicate Roomy(w: bv32) {
    w <= 0x7FFF_FFFF
  }

  const CRC32 := Register(32, Step, Xor, Join, 0, Roomy)

  /** A byte as a machine word. */
  function Word(b: byte): bv32 {
    Assemble(CRC32, BitsOf(b))
  }

  /** The checksum by definition: the data enters the register bit by bit. */
  function Crc32(data: seq<byte>, state: bv32): bv32 {
    Serial(CRC32, state, AllBits(data))
  }

  /** The helper table of the source, cut into rows of sixteen entries. */
  const ROW_0: seq<bv32> := [
    0x00000000, 0x77073096, 0xee0e612c, 0x990951ba, 0x076dc419, 0x706af48f, 0xe963a535, 0x9e6495a3,
    0x0edb8832, 0x79dcb8a4, 0xe0d5e91e, 0x97d2d988, 0x09b64c2b, 0x7eb17cbd, 0xe7b82d07, 0x90bf1d91]
  const ROW_1: seq<bv32> := [
    0x1db71064, 0x6ab020f2, 0xf3b97148, 0x84be41de, 0x1adad47d, 0x6ddde4eb, 0xf4d4b551, 0x83d385c7,
    0x136c9856, 0x646ba8c0, 0xfd62f97a, 0x8a65c9ec, 0x14015c4f, 0x63066cd9, 0xfa0f3d63, 0x8d080df5]
  const ROW_2: seq<bv32> := [
    0x3b6e20c8, 0x4c69105e, 0xd56041e4, 0xa2677172, 0x3c03e4d1, 0x4b04d447, 0xd20d85fd, 0xa50ab56b,
    0x35b5a8fa, 0x42b2986c, 0xdbbbc9d6, 0xacbcf940, 0x32d86ce3, 0x45df5c75, 0xdcd60dcf, 0xabd13d59]
  const ROW_3: seq<bv32> := [
    0x26d930ac, 0x51de003a, 0xc8d75180, 0xbfd06116, 0x21b4f4b5, 0x56b3c423, 0xcfba9599, 0xb8bda50f,
    0x2802b89e, 0x5f058808, 0xc60cd9b2, 0xb10be924, 0x2f6f7c87, 0x58684c11, 0xc1611dab, 0xb6662d3d]
  const ROW_4: seq<bv32> := [
    0x76dc4190, 0x01db7106, 0x98d220bc, 0xefd5102a, 0x71b18589, 0x06b6b51f, 0x9fbfe4a5, 0xe8b8d433,
    0x7807c9a2, 0x0f00f934, 0x9609a88e, 0xe10e9818, 0x7f6a0dbb, 0x086d3d2d, 0x91646c97, 0xe6635c01]
  const ROW_5: seq<bv32> := [
    0x6b6b51f4, 0x1c6c6162, 0x856530d8, 0xf262004e, 0x6c0695ed, 0x1b01a57b, 0x8208f4c1, 0xf50fc457,
    0x65b0d9c6, 0x12b7e950, 0x8bbeb8ea, 0xfcb9887c, 0x62dd1ddf, 0x15da2d49, 0x8cd37cf3, 0xfbd44c65]
  const ROW_6: seq<bv32> := [
    0x4db26158, 0x3ab551ce, 0xa3bc0074, 0xd4bb30e2, 0x4adfa541, 0x3dd895d7, 0xa4d1c46d, 0xd3d6f4fb,
    0x4369e96a, 0x346ed9fc, 0xad678846, 0xda60b8d0, 0x44042d73, 0x33031de5, 0xaa0a4c5f, 0xdd0d7cc9]
  const ROW_7: seq<bv32> := [
    0x5005713c, 0x270241aa, 0xbe0b1010, 0xc90c2086, 0x5768b525, 0x206f85b3, 0xb966d409, 0xce61e49f,
    0x5edef90e, 0x29d9c998, 0xb0d09822, 0xc7d7a8b4, 0x59b33d17, 0x2eb40d81, 0xb7bd5c3b, 0xc0ba6cad]
  const ROW_8: seq<bv32> := [
    0xedb88320, 0x9abfb3b6, 0x03b6e20c, 0x74b1d29a, 0xead54739, 0x9dd277af, 0x04db2615, 0x73dc1683,
    0xe3630b12, 0x94643b84, 0x0d6d6a3e, 0x7a6a5aa8, 0xe40ecf0b, 0x9309ff9d, 0x0a00ae27, 0x7d079eb1]
  const ROW_9: seq<bv32> := [
    0xf00f9344, 0x8708a3d2, 0x1e01f268, 0x6906c2fe, 0xf762575d, 0x806567cb, 0x196c3671, 0x6e6b06e7,
    0xfed41b76, 0x89d32be0, 0x10da7a5a, 0x67dd4acc, 0xf9b9df6f, 0x8ebeeff9, 0x17b7be43, 0x60b08ed5]
  const ROW_A: seq<bv32> := [
    0xd6d6a3e8, 0xa1d1937e, 0x38d8c2c4, 0x4fdff252, 0xd1bb67f1, 0xa6bc5767, 0x3fb506dd, 0x48b2364b,
    0xd80d2bda, 0xaf0a1b4c, 0x36034af6, 0x41047a60, 0xdf60efc3, 0xa867df55, 0x316e8eef, 0x4669be79]
  const ROW_B: seq<bv32> := [
    0xcb61b38c, 0xbc66831a, 0x256fd2a0, 0x5268e236, 0xcc0c7795, 0xbb0b4703, 0x220216b9, 0x5505262f,
    0xc5ba3bbe, 0xb2bd0b28, 0x2bb45a92, 0x5cb36a04, 0xc2d7ffa7, 0xb5d0cf31, 0x2cd99e8b, 0x5bdeae1d]
  const ROW_C: seq<bv32> := [
    0x9b64c2b0, 0xec63f226, 0x756aa39c, 0x026d930a, 0x9c0906a9, 0xeb0e363f, 0x72076785, 0x05005713,
    0x95bf4a82, 0xe2b87a14, 0x7bb12bae, 0x0cb61b38, 0x92d28e9b, 0xe5d5be0d, 0x7cdcefb7, 0x0bdbdf21]
  const ROW_D: seq<bv32> := [
    0x86d3d2d4, 0xf1d4e242, 0x68ddb3f8, 0x1fda836e, 0x81be16cd, 0xf6b9265b, 0x6fb077e1, 0x18b74777,
    0x88085ae6, 0xff0f6a70, 0x66063bca, 0x11010b5c, 0x8f659eff, 0xf862ae69, 0x616bffd3, 0x166ccf45]
  const ROW_E: seq<bv32> := [
    0xa00ae278, 0xd70dd2ee, 0x4e048354, 0x3903b3c2, 0xa7672661, 0xd06016f7, 0x4969474d, 0x3e6e77db,
    0xaed16a4a, 0xd9d65adc, 0x40df0b66, 0x37d83bf0, 0xa9bcae53, 0xdebb9ec5, 0x47b2cf7f, 0x30b5ffe9]
  const ROW_F: seq<bv32> := [
    0xbdbdf21c, 0xcabac28a, 0x53b39330, 0x24b4a3a6, 0xbad03605, 0xcdd70693, 0x54de5729, 0x23d967bf,
    0xb3667a2e, 0xc4614ab8, 0x5d681b02, 0x2a6f2b94, 0xb40bbe37, 0xc30c8ea1, 0x5a05df1b, 0x2d02ef8d]

  function TableRow(row: bv32): seq<bv32> {
    if row == 0x0 then ROW_0
    else if row == 0x1 then ROW_1
    else if row == 0x2 then ROW_2
    else if row == 0x3 then ROW_3
    else if row == 0x4 then ROW_4
    else if row == 0x5 then ROW_5
    else if row == 0x6 then ROW_6
    else if row == 0x7 then ROW_7
    else if row == 0x8 then ROW_8
    else if row == 0x9 then ROW_9
    else if row == 0xA then ROW_A
    else if row == 0xB then ROW_B
    else if row == 0xC then ROW_C
    else if row == 0xD then ROW_D
    else if row == 0xE then ROW_E
    else ROW_F
  }

  /** The algorithm of the source: one table lookup for each byte. */
  method ComputeCrc32(data: seq<byte>, initial: bv32 := 0) returns (state: bv32)
    ensures state == Crc32(data, initial)
  {
    state := initial;
    for i := 0 to |data|
      invariant Crc32(data, initial) == Crc32(data[i..], state)
    {
      var index := (state ^ Word(data[i])) & 0xFF;
      TableStep(state, data[i..], Word(data[i]), index, index >> 4, index & 0xF, state >> 8);
      state := TableRow(index >> 4)[(index & 0xF) as int] ^ (state >> 8);
      assert data[i..][1..] == data[i + 1..];
    }
  }

  // ---- the laws of the register ----

  /** The word with the `n` lowest digits set. */
  function Mask(n: nat): bv32 {
    if n == 0 then 0 else Join(true, Mask(n - 1))
  }

  predicate Within(n: nat, w: bv32) {
    w & Mask(n) == w
  }

  lemma JoinWithin(n: nat, b: bool, w: bv32)
    requires Within(n, w)
    ensures Within(n + 1, Join(b, w))
  {
  }

  lemma {:induction false} AssembleWithin(bits: seq<bool>, n: nat)
    requires |bits| <= n
    ensures Within(n, Assemble(CRC32, bits))
  {
    if bits != [] {
      AssembleWithin(bits[1..], n - 1);
      JoinWithin(n - 1, bits[0], Assemble(CRC32, bits[1..]));
    }
  }

  lemma Masks()
    ensures Mask(8) == 0xFF && Mask(31) == 0x7FFF_FFFF
  {
    assert Mask(4) == 0xF;
    assert Mask(12) == 0xFFF by { assert Mask(8) == 0xFF; }
    assert Mask(20) == 0xF_FFFF by { assert Mask(16) == 0xFFFF; }
    assert Mask(28) == 0xFFF_FFFF by { assert Mask(24) == 0xFF_FFFF; }
  }

  lemma AssembleRoomy(bits: seq<bool>)
    requires |bits| < 32
    ensures Roomy(Assemble(CRC32, bits))
  {
    AssembleWithin(bits, 31);
    Masks();
    AndBound(Assemble(CRC32, bits));
  }

  lemma AndBound(w: bv32)
    requires w & 0x7FFF_FFFF == w
    ensures w <= 0x7FFF_FFFF
  {
  }

  lemma JoinInjective(b: bool, v: bv32, c: bool, w: bv32)
    requires v <= 0x7FFF_FFFF && w <= 0x7FFF_FFFF && Join(b, v) == Join(c, w)
    ensures b == c && v == w
  {
  }

  lemma StepInjective(s: bv32, t: bv32)
    requires Step(s) == Step(t)
    ensures s == t
  {
  }

  lemma XorCancels(s: bv32, v: bv32, w: bv32)
    requires s ^ v == s ^ w
    ensures v == w
  {
  }

  lemma JoinIsXor(b: bool, w: bv32)
    ensures Join(b, w) == Join(b, 0) ^ (w << 1)
  {
  }

  lemma XorGroups(s: bv32, x: bv32, y: bv32)
    ensures s ^ (x ^ y) == (s ^ x) ^ y
  {
  }

  lemma JoinApart(s: bv32, b: bool, w: bv32)
    ensures Xor(s, Join(b, w)) == Xor(Xor(s, Join(b, 0)), w << 1)
  {
    hide Join;
    JoinIsXor(b, w);
    XorGroups(s, Join(b, 0), w << 1);
  }

  lemma StepLinear(x: bv32, w: bv32)
    requires w <= 0x7FFF_FFFF
    ensures Step(x ^ (w << 1)) == Step(x) ^ w
  {
  }

  lemma StepOver(x: bv32, w: bv32, mixed: bv32)
    requires mixed == x ^ (w << 1) && w <= 0x7FFF_FFFF
    ensures Step(mixed) == Step(x) ^ w
  {
    StepLinear(x, w);
  }

  lemma MixedStep(s: bv32, b: bool, w: bv32, x: bv32, mixed: bv32)
    requires Roomy(w) && x == Xor(s, Join(b, 0)) && mixed == Xor(s, Join(b, w))
    ensures Xor(Step(x), w) == Step(mixed)
  {
    JoinApart(s, b, w);
    StepOver(x, w, mixed);
  }

  lemma DigitsMoveDown(s: bv32, b: bool, w: bv32)
    requires Roomy(w)
    ensures Xor(Step(Xor(s, Join(b, 0))), w) == Step(Xor(s, Join(b, w)))
  {
    MixedStep(s, b, w, Xor(s, Join(b, 0)), Xor(s, Join(b, w)));
  }

  lemma CancellationLaws()
    ensures forall s, t :: Step(s) == Step(t) ==> s == t
    ensures forall s, v, w :: Xor(s, v) == Xor(s, w) ==> v == w
    ensures forall s, t, w :: Xor(s, w) == Xor(t, w) ==> s == t
    ensures forall b, v, c, w :: JoinsApart(CRC32, b, v, c, w)
  {
    forall s, t | Step(s) == Step(t) ensures s == t {
      StepInjective(s, t);
    }
    forall s, v, w | Xor(s, v) == Xor(s, w) ensures v == w {
      XorCancels(s, v, w);
    }
    forall s, t, w | Xor(s, w) == Xor(t, w) ensures s == t {
      XorCancels(w, s, t);
    }
    forall b, v, c, w ensures JoinsApart(CRC32, b, v, c, w) {
      if Roomy(v) && Roomy(w) && Join(b, v) == Join(c, w) {
        JoinInjective(b, v, c, w);
      }
    }
  }

  lemma Crc32IsLawful()
    ensures Lawful(CRC32)
  {
    CancellationLaws();
    forall w ensures Xor(w, 0) == w {
    }
    forall bits: seq<bool> | |bits| < 32 ensures Roomy(Assemble(CRC32, bits)) {
      AssembleRoomy(bits);
    }
    forall s, b, w ensures MovesDown(CRC32, s, b, w) {
      if Roomy(w) {
        DigitsMoveDown(s, b, w);
      }
    }
  }

  // ---- why the table is right ----

  function Step8(s: bv32): bv32 {
    Step(Step(Step(Step(Step(Step(Step(Step(s))))))))
  }

  /** Sixteen neighbouring values of a function. */
  function Row(f: bv32 -> bv32, s: bv32): seq<bv32> {
    [f(s), f(s + 1), f(s + 2), f(s + 3), f(s + 4), f(s + 5), f(s + 6), f(s + 7),
     f(s + 8), f(s + 9), f(s + 10), f(s + 11), f(s + 12), f(s + 13), f(s + 14), f(s + 15)]
  }

  lemma Row0() ensures ROW_0 == Row(Step8, 0x00) {}
  lemma Row1() ensures ROW_1 == Row(Step8, 0x10) {}
  lemma Row2() ensures ROW_2 == Row(Step8, 0x20) {}
  lemma Row3() ensures ROW_3 == Row(Step8, 0x30) {}
  lemma Row4() ensures ROW_4 == Row(Step8, 0x40) {}
  lemma Row5() ensures ROW_5 == Row(Step8, 0x50) {}
  lemma Row6() ensures ROW_6 == Row(Step8, 0x60) {}
  lemma Row7() ensures ROW_7 == Row(Step8, 0x70) {}
  lemma Row8() ensures ROW_8 == Row(Step8, 0x80) {}
  lemma Row9() ensures ROW_9 == Row(Step8, 0x90) {}
  lemma RowA() ensures ROW_A == Row(Step8, 0xA0) {}
  lemma RowB() ensures ROW_B == Row(Step8, 0xB0) {}
  lemma RowC() ensures ROW_C == Row(Step8, 0xC0) {}
  lemma RowD() ensures ROW_D == Row(Step8, 0xD0) {}
  lemma RowE() ensures ROW_E == Row(Step8, 0xE0) {}
  lemma RowF() ensures ROW_F == Row(Step8, 0xF0) {}

  lemma RowOfTable(row: bv32)
    requires row < 16
    ensures TableRow(row) == Row(Step8, row << 4)
  {
    if row == 0x0 { Row0(); }
    else if row == 0x1 { Row1(); }
    else if row == 0x2 { Row2(); }
    else if row == 0x3 { Row3(); }
    else if row == 0x4 { Row4(); }
    else if row == 0x5 { Row5(); }
    else if row == 0x6 { Row6(); }
    else if row == 0x7 { Row7(); }
    else if row == 0x8 { Row8(); }
    else if row == 0x9 { Row9(); }
    else if row == 0xA { RowA(); }
    else if row == 0xB { RowB(); }
    else if row == 0xC { RowC(); }
    else if row == 0xD { RowD(); }
    else if row == 0xE { RowE(); }
    else if row == 0xF { RowF(); }
  }

  lemma EntryOfRow(f: bv32 -> bv32, s: bv32, j: bv32)
    requires j < 16
    ensures 0 <= j as int < 16 && Row(f, s)[j as int] == f(s + j)
  {
    if j < 8 {
      EntryOfLowHalf(f, s, j);
    } else {
      EntryOfHighHalf(f, s, j);
    }
  }

  lemma EntryOfLowHalf(f: bv32 -> bv32, s: bv32, j: bv32)
    requires j < 8
    ensures 0 <= j as int < 8 && Row(f, s)[j as int] == f(s + j)
  {
  }

  lemma EntryOfHighHalf(f: bv32 -> bv32, s: bv32, j: bv32)
    requires 8 <= j < 16
    ensures 8 <= j as int < 16 && Row(f, s)[j as int] == f(s + j)
  {
  }

  /** Every entry of the table is eight steps of its index. */
  lemma Lookup(index: bv32, row: bv32, j: bv32)
    requires index < 0x100 && row == index >> 4 && j == index & 0xF
    ensures 0 <= j as int < |TableRow(row)| && TableRow(row)[j as int] == Step8(index)
  {
    var start := row << 4;
    RowOfTable(row);
    EntryOfRow(Step8, start, j);
    Recombine(index, start, j);
  }

  lemma Recombine(index: bv32, start: bv32, j: bv32)
    requires start == (index >> 4) << 4 && j == index & 0xF
    ensures start + j == index
  {
  }

  lemma EightSteps<W>(r: Register<W>, s: W)
    ensures Steps(r, 8, s) == r.step(r.step(r.step(r.step(r.step(r.step(r.step(r.step(s))))))))
  {
    var s1 := r.step(s);
    var s2 := r.step(s1);
    var s3 := r.step(s2);
    var s4 := r.step(s3);
    var s5 := r.step(s4);
    var s6 := r.step(s5);
    var s7 := r.step(s6);
    assert Steps(r, 8, s) == Steps(r, 7, s1);
    assert Steps(r, 7, s1) == Steps(r, 6, s2);
    assert Steps(r, 6, s2) == Steps(r, 5, s3);
    assert Steps(r, 5, s3) == Steps(r, 4, s4);
    assert Steps(r, 4, s4) == Steps(r, 3, s5);
    assert Steps(r, 3, s5) == Steps(r, 2, s6);
    assert Steps(r, 2, s6) == Steps(r, 1, s7);
    assert Steps(r, 1, s7) == Steps(r, 0, r.step(s7));
  }

  lemma OneRaised(w: bv32, n: nat, up: bv32, next: bv32)
    requires Raised(CRC32, n, w) == up && next == up << 1
    ensures Raised(CRC32, n + 1, w) == next
  {
  }

  lemma EightRaised(w: bv32, u1: bv32, u2: bv32, u3: bv32, u4: bv32, u5: bv32, u6: bv32, u7: bv32, u8: bv32)
    requires u1 == w << 1 && u2 == u1 << 1 && u3 == u2 << 1 && u4 == u3 << 1
    requires u5 == u4 << 1 && u6 == u5 << 1 && u7 == u6 << 1 && u8 == u7 << 1
    requires Roomy(w) && Roomy(u1) && Roomy(u2) && Roomy(u3) && Roomy(u4) && Roomy(u5) && Roomy(u6) && Roomy(u7)
    ensures Raised(CRC32, 8, w) == u8
    ensures forall k: nat :: k < 8 ==> Roomy(Raised(CRC32, k, w))
  {
    OneRaised(w, 0, w, u1);
    OneRaised(w, 1, u1, u2);
    OneRaised(w, 2, u2, u3);
    OneRaised(w, 3, u3, u4);
    OneRaised(w, 4, u4, u5);
    OneRaised(w, 5, u5, u6);
    OneRaised(w, 6, u6, u7);
    OneRaised(w, 7, u7, u8);
  }

  lemma ByteRaised(w: bv32)
    requires w <= 0xFF_FFFF
    ensures Raised(CRC32, 8, w) == w << 8
    ensures forall k: nat :: k < 8 ==> Roomy(Raised(CRC32, k, w))
  {
    var u1 := w << 1;
    var u2 := u1 << 1;
    var u3 := u2 << 1;
    var u4 := u3 << 1;
    var u5 := u4 << 1;
    var u6 := u5 << 1;
    var u7 := u6 << 1;
    var u8 := u7 << 1;
    RoomyShifts(w, u1, u2, u3, u4, u5, u6, u7, u8);
    EightRaised(w, u1, u2, u3, u4, u5, u6, u7, u8);
  }

  lemma RoomyShifts(w: bv32, u1: bv32, u2: bv32, u3: bv32, u4: bv32, u5: bv32, u6: bv32, u7: bv32, u8: bv32)
    requires u1 == w << 1 && u2 == u1 << 1 && u3 == u2 << 1 && u4 == u3 << 1
    requires u5 == u4 << 1 && u6 == u5 << 1 && u7 == u6 << 1 && u8 == u7 << 1
    requires w <= 0xFF_FFFF
    ensures w <= 0x7FFF_FFFF && u1 <= 0x7FFF_FFFF && u2 <= 0x7FFF_FFFF && u3 <= 0x7FFF_FFFF
    ensures u4 <= 0x7FFF_FFFF && u5 <= 0x7FFF_FFFF && u6 <= 0x7FFF_FFFF && u7 <= 0x7FFF_FFFF
    ensures u8 == w << 8
  {
  }

  /** One lookup is eight steps of the register. */
  lemma TableStep(state: bv32, data: seq<byte>, w: bv32, index: bv32, row: bv32, j: bv32, high: bv32)
    requires data != [] && w == Word(data[0])
    requires index == (state ^ w) & 0xFF && row == index >> 4 && j == index & 0xF && high == state >> 8
    ensures 0 <= j as int < |TableRow(row)|
    ensures Crc32(data, state) == Crc32(data[1..], TableRow(row)[j as int] ^ high)
  {
    hide Crc32, Steps, Word;
    var x := Xor(state, w);
    FirstByte(state, data, x);
    WordIsByte(data[0]);
    LookupStep(state, w, index, row, j, high, x);
  }

  lemma FirstByte(state: bv32, data: seq<byte>, x: bv32)
    requires data != [] && x == Xor(state, Word(data[0]))
    ensures Crc32(data, state) == Crc32(data[1..], Steps(CRC32, 8, x))
  {
    SerialConcat(CRC32, state, BitsOf(data[0]), AllBits(data[1..]));
    SerialOfByte(state, BitsOf(data[0]));
  }

  lemma SerialOfByte(state: bv32, bits: seq<bool>)
    requires |bits| == 8
    ensures Serial(CRC32, state, bits) == Steps(CRC32, 8, Xor(state, Assemble(CRC32, bits)))
  {
    Crc32IsLawful();
    SerialIsSteps(CRC32, state, bits);
  }

  lemma WordIsByte(b: byte)
    ensures Word(b) & 0xFF == Word(b)
  {
    AssembleWithin(BitsOf(b), 8);
    Masks();
  }

  lemma LookupStep(state: bv32, w: bv32, index: bv32, row: bv32, j: bv32, high: bv32, x: bv32)
    requires w & 0xFF == w && x == state ^ w && index == x & 0xFF && row == index >> 4 && j == index & 0xF
    requires high == state >> 8
    ensures 0 <= j as int < |TableRow(row)|
    ensures Steps(CRC32, 8, x) == TableRow(row)[j as int] ^ high
  {
    Halves(state, w, index, high, x);
    StepsOfByte(index, high, x);
    Lookup(index, row, j);
  }

  lemma StepsOfByte(low: bv32, high: bv32, x: bv32)
    requires high <= 0xFF_FFFF && x == Xor(low, high << 8)
    ensures Steps(CRC32, 8, x) == Xor(Step8(low), high)
  {
    Crc32IsLawful();
    ByteRaised(high);
    StepsMoveDown(CRC32, 8, low, high);
    EightSteps(CRC32, low);
  }

  lemma Halves(state: bv32, w: bv32, index: bv32, high: bv32, x: bv32)
    requires w & 0xFF == w && x == state ^ w && index == x & 0xFF && high == state >> 8
    ensures index < 0x100 && high <= 0xFF_FFFF && x == Xor(index, high << 8)
  {
  }

  // ---- what the checksum promises ----

  /** A checksum can be continued: the padding of an image can be added to the checksum of the image. */
  lemma Crc32Concat(a: seq<byte>, b: seq<byte>, state: bv32)
    ensures Crc32(a + b, state) == Crc32(b, Crc32(a, state))
  {
    AllBitsConcat(a, b);
    SerialConcat(CRC32, state, AllBits(a), AllBits(b));
  }

  /** Damage to at most 32 neighbouring bits changes the checksum, whatever surrounds it. */
  lemma BitBurstIsDetected(state: bv32, before: seq<bool>, x: seq<bool>, y: seq<bool>, after: seq<bool>)
    requires |x| == |y| <= 32 && x != y
    ensures Serial(CRC32, state, before + x + after) != Serial(CRC32, state, before + y + after)
  {
    Crc32IsLawful();
    BurstsAreDetected(CRC32, state, before, x, y, after);
  }

  /** In particular, damage to at most four neighbouring bytes of the flash memory does. */
  lemma FlashDamageIsDetected(state: bv32, before: seq<byte>, x: seq<byte>, y: seq<byte>, after: seq<byte>)
    requires |x| == |y| <= 4 && x != y
    ensures Crc32(before + x + after, state) != Crc32(before + y + after, state)
  {
    AllBitsConcat(before + x, after);
    AllBitsConcat(before, x);
    AllBitsConcat(before + y, after);
    AllBitsConcat(before, y);
    if AllBits(x) == AllBits(y) {
      AllBitsInjective(x, y);
      assert false;
    }
    BitBurstIsDetected(state, AllBits(before), AllBits(x), AllBits(y), AllBits(after));
  }

  // ---- erased memory ----

  /** The only checksum that one erased byte does not change. */
  const ERASED_FIXPOINT: bv32 := 0xB6D0_FDC0

  lemma {:induction false} OnesAreMask(bits: seq<bool>)
    requires forall i :: 0 <= i < |bits| ==> bits[i]
    ensures Assemble(CRC32, bits) == Mask(|bits|)
  {
    if bits != [] {
      OnesAreMask(bits[1..]);
    }
  }

  lemma {:induction false} OnesDigits(count: nat, digits: seq<bool>)
    requires digits == Digits(Power2(count) - 1, count)
    ensures forall i :: 0 <= i < count ==> digits[i]
  {
    if count > 0 {
      assert (Power2(count) - 1) / 2 == Power2(count - 1) - 1;
      assert (Power2(count) - 1) % 2 == 1;
      OnesDigits(count - 1, Digits(Power2(count - 1) - 1, count - 1));
    }
  }

  lemma ErasedWord()
    ensures Word(0xFF) == 0xFF
  {
    assert Power2(8) == 0x100 by {
      assert Power2(4) == 0x10;
    }
    OnesDigits(8, BitsOf(0xFF));
    OnesAreMask(BitsOf(0xFF));
    Masks();
  }

  lemma EmptyCrc(s: bv32)
    ensures Crc32([], s) == s
  {
  }

  lemma StepsOfOneByte(s: bv32, w: bv32, low: bv32, high: bv32, x: bv32)
    requires w & 0xFF == w && x == s ^ w && low == x & 0xFF && high == s >> 8
    ensures Steps(CRC32, 8, x) == Xor(Step8(low), high)
  {
    Halves(s, w, low, high, x);
    StepsOfByte(low, high, x);
  }

  /** The checksum after one more byte. */
  lemma OneByte(b: byte, s: bv32, w: bv32, low: bv32, high: bv32)
    requires w == Word(b) && low == (s ^ w) & 0xFF && high == s >> 8
    ensures Crc32([b], s) == Xor(Step8(low), high)
  {
    hide Crc32, Steps, Step8, Word;
    var x := Xor(s, w);
    FirstByte(s, [b], x);
    WordIsByte(b);
    StepsOfOneByte(s, w, low, high, x);
    EmptyCrc(Steps(CRC32, 8, x));
    assert [b][1..] == [];
  }

  lemma OnlyFixpoint(s: bv32, low: bv32, high: bv32)
    requires low == (s ^ 0xFF) & 0xFF && high == s >> 8
    ensures Xor(Step8(low), high) == s <==> s == 0xB6D0_FDC0
  {
  }

  lemma ErasedByteFixpoint(s: bv32)
    ensures Crc32([0xFF], s) == s <==> s == ERASED_FIXPOINT
  {
    hide Crc32, Step8, Word, Xor;
    ErasedWord();
    OneByte(0xFF, s, 0xFF, (s ^ 0xFF) & 0xFF, s >> 8);
    OnlyFixpoint(s, (s ^ 0xFF) & 0xFF, s >> 8);
  }
}
