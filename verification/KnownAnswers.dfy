/**
 * Known answers: the literal packet, the literal checksums and the exchanges with the mock that the repository itself
 * contains. They fix the constants that both ends of a round trip share.
 */
module KnownAnswers {
  import opened Bytes
  import opened ShiftRegister
  import opened Crc
  import opened X25
  import opened Messages
  import Device
  import Mavlink

  // ---- bytes as register words ----

  function Number(digits: seq<bool>): nat {
    if digits == [] then 0 else (if digits[0] then 1 else 0) + 2 * Number(digits[1..])
  }

  lemma {:induction false} DigitsOfNumber(digits: seq<bool>)
    ensures Digits(Number(digits), |digits|) == digits
  {
    if digits != [] {
      DigitsOfNumber(digits[1..]);
      assert digits == [digits[0]] + digits[1..];
    }
  }

  lemma OneDigit(d: bool, rest: seq<bool>)
    ensures Assemble(CRC32, [d] + rest) == Join(d, Assemble(CRC32, rest))
    ensures Number([d] + rest) == (if d then 1 else 0) + 2 * Number(rest)
  {
  }

  lemma FourDigits(d0: bool, d1: bool, d2: bool, d3: bool, rest: seq<bool>)
    ensures var d := [d0] + ([d1] + ([d2] + ([d3] + rest)));
            && Assemble(CRC32, d) == Join(d0, Join(d1, Join(d2, Join(d3, Assemble(CRC32, rest)))))
            && Number(d) == (if d0 then 1 else 0) + (if d1 then 2 else 0) + (if d2 then 4 else 0)
                            + (if d3 then 8 else 0) + 16 * Number(rest)
  {
    hide Join, Assemble, Number;
    OneDigit(d3, rest);
    OneDigit(d2, [d3] + rest);
    OneDigit(d1, [d2] + ([d3] + rest));
    OneDigit(d0, [d1] + ([d2] + ([d3] + rest)));
  }

  lemma WordOf(b: byte, d0: bool, d1: bool, d2: bool, d3: bool, d4: bool, d5: bool, d6: bool, d7: bool)
    requires b as int == (if d0 then 1 else 0) + (if d1 then 2 else 0) + (if d2 then 4 else 0) + (if d3 then 8 else 0)
                         + 16 * ((if d4 then 1 else 0) + (if d5 then 2 else 0) + (if d6 then 4 else 0)
                                 + (if d7 then 8 else 0))
    ensures Word(b) == Join(d0, Join(d1, Join(d2, Join(d3, Join(d4, Join(d5, Join(d6, Join(d7, 0))))))))
  {
    hide Join, Digits;
    FourDigits(d4, d5, d6, d7, []);
    var high := [d4] + ([d5] + ([d6] + ([d7] + [])));
    FourDigits(d0, d1, d2, d3, high);
    DigitsOfNumber([d0] + ([d1] + ([d2] + ([d3] + high))));
  }

  // ---- the MAVLink packet ----

  /** The byte-wise formula for the checksum of packets. */
  function Fed16(w: bv32, s: bv32): bv32 {
    Mixed(s, Doubled(w ^ (s & 0xFF)))
  }

  function Doubled(low: bv32): bv32 {
    (low ^ (low << 4)) & 0xFF
  }

  function Mixed(s: bv32, tmp: bv32): bv32 {
    (s >> 8) ^ (tmp << 8) ^ (tmp << 3) ^ (tmp >> 4)
  }

  /** The checksum of the data so far. */
  ghost predicate SoFar(data: seq<byte>, s: bv32) {
    Crc16(data, INITIAL) == s < 0x1_0000
  }

  lemma Entered16(b: byte, s: bv32, w: bv32, low: bv32, tmp: bv32, next: bv32)
    requires w == Word(b) && s < 0x1_0000 && low == w ^ (s & 0xFF)
    requires tmp == (low ^ (low << 4)) & 0xFF && next == (s >> 8) ^ (tmp << 8) ^ (tmp << 3) ^ (tmp >> 4)
    ensures Crc16([b], s) == next < 0x1_0000
  {
    hide Crc16, Word;
    FormulaStep([b], s, w, low, tmp, next);
    assert [b][1..] == [];
    EmptyCrc16(next);
  }

  lemma Fed(b: byte, w: bv32, s: bv32, low: bv32, tmp: bv32)
    requires w == Word(b) && s < 0x1_0000 && low == w ^ (s & 0xFF) && tmp == Doubled(low)
    ensures Crc16([b], s) == Mixed(s, tmp) < 0x1_0000
  {
    hide Crc16, Word;
    Entered16(b, s, w, low, tmp, Mixed(s, tmp));
  }

  lemma OneMore(data: seq<byte>, b: byte, s: bv32, next: bv32)
    requires SoFar(data, s) && next == Fed16(Word(b), s)
    ensures SoFar(data + [b], next)
  {
    hide Crc16, Word, Doubled, Mixed;
    var low := Word(b) ^ (s & 0xFF);
    Fed(b, Word(b), s, low, Doubled(low));
    Crc16Concat(data, [b], INITIAL);
  }

  lemma FourMore(data: seq<byte>, b0: byte, b1: byte, b2: byte, b3: byte, s0: bv32, s1: bv32, s2: bv32, s3: bv32,
                 s4: bv32)
    requires SoFar(data, s0) && s1 == Fed16(Word(b0), s0) && s2 == Fed16(Word(b1), s1)
    requires s3 == Fed16(Word(b2), s2) && s4 == Fed16(Word(b3), s3)
    ensures SoFar(data + [b0, b1, b2, b3], s4)
  {
    hide SoFar, Fed16, Word;
    OneMore(data, b0, s0, s1);
    OneMore(data + [b0], b1, s1, s2);
    OneMore(data + [b0] + [b1], b2, s2, s3);
    OneMore(data + [b0] + [b1] + [b2], b3, s3, s4);
    assert data + [b0] + [b1] + [b2] + [b3] == data + [b0, b1, b2, b3];
  }

  lemma EmptyCrc16(s: bv32)
    ensures Crc16([], s) == s
  {
  }

  lemma PacketWords()
    ensures Word(0x00) == 0x00 && Word(0x21) == 0x21 && Word(0x45) == 0x45 && Word(0xFF) == 0xFF
    ensures Word(0x4C) == 0x4C && Word(0x40) == 0x40 && Word(0xF6) == 0xF6 && Word(0x98) == 0x98
  {
    WordOf(0x00, false, false, false, false, false, false, false, false);
    WordOf(0x21, true, false, false, false, false, true, false, false);
    WordOf(0x45, true, false, true, false, false, false, true, false);
    WordOf(0xFF, true, true, true, true, true, true, true, true);
    WordOf(0x4C, false, false, true, true, false, false, true, false);
    WordOf(0x40, false, false, false, false, false, false, true, false);
    WordOf(0xF6, false, true, true, false, true, true, true, true);
    WordOf(0x98, false, false, false, true, true, false, false, true);
  }

  /** The packet's bytes behind its marker, in front of its checksum. */
  const BODY: seq<byte> :=
    [0x21, 0x45, 0xFF, 0x00, 0x4C, 0x00, 0x00, 0x40, 0x40] + Fill(0, 24) + [0xF6, 0x00, 0x00, 0x00, 0x00]

  lemma PacketCrc()
    ensures SoFar(BODY + [0x98], 0x37CC)
  {
    hide SoFar, Word;
    PacketWords();
    StartCrc();
    var data: seq<byte> := [];
    FourMore(data, 0x21, 0x45, 0xFF, 0x00, 0xFFFF, 0x3F0C, 0xDFFA, 0x5772, 0x50C2);
    data := data + [0x21, 0x45, 0xFF, 0x00];
    FourMore(data, 0x4C, 0x00, 0x00, 0x40, 0x50C2, 0x6D26, 0x4459, 0xCF00, 0x42CB);
    data := data + [0x4C, 0x00, 0x00, 0x40];
    FourMore(data, 0x40, 0x00, 0x00, 0x00, 0x42CB, 0x3A99, 0x0972, 0x509C, 0x5EB5);
    data := data + [0x40, 0x00, 0x00, 0x00];
    FourMore(data, 0x00, 0x00, 0x00, 0x00, 0x5EB5, 0xE278, 0xFF2D, 0xFA18, 0x9C33);
    data := data + [0x00, 0x00, 0x00, 0x00];
    FourMore(data, 0x00, 0x00, 0x00, 0x00, 0x9C33, 0x0384, 0xC22F, 0xD937, 0x45E5);
    data := data + [0x00, 0x00, 0x00, 0x00];
    FourMore(data, 0x00, 0x00, 0x00, 0x00, 0x45E5, 0xB0E6, 0x8288, 0x08C2, 0xE516);
    data := data + [0x00, 0x00, 0x00, 0x00];
    FourMore(data, 0x00, 0x00, 0x00, 0x00, 0xE516, 0x7552, 0x71E2, 0xC46D, 0xB827);
    data := data + [0x00, 0x00, 0x00, 0x00];
    FourMore(data, 0x00, 0x00, 0x00, 0x00, 0xB827, 0x5505, 0x57F8, 0x7B90, 0x94F2);
    data := data + [0x00, 0x00, 0x00, 0x00];
    FourMore(data, 0x00, 0xF6, 0x00, 0x00, 0x94F2, 0xD409, 0x0FAC, 0x6F69, 0xFEA8);
    data := data + [0x00, 0xF6, 0x00, 0x00];
    OneMore(data, 0x00, 0xFEA8, 0x29BC);
    data := data + [0x00];
    OneMore(data, 0x00, 0x29BC, 0x7FCE);
    data := data + [0x00];
    OneMore(data, 0x98, 0x7FCE, 0x37CC);
    data := data + [0x98];
    assert data == BODY + [0x98];
  }

  lemma StartCrc()
    ensures SoFar([], 0xFFFF)
  {
    EmptyCrc16(0xFFFF);
  }

  /** The source contains the packet that asks PX4 to reboot into its bootloader; the model packs the same bytes. */
  lemma RebootPacket()
    ensures var params := [0x00, 0x00, 0x40, 0x40] + Fill(0, 24);  // the number 3.0, and six zeros
            Mavlink.Framed(Mavlink.CommandLong(0, 0, 246, 0, params), true, 0x45, 0xFF, 0)
            == [0xFE] + BODY + [0xCC, 0x37]
  {
    hide Crc16;
    var params := [0x00, 0x00, 0x40, 0x40] + Fill(0, 24);
    var m := Mavlink.CommandLong(0, 0, 246, 0, params);
    var body := [0xFE] + BODY;
    assert ToLe(246, 2) == [0xF6, 0x00];
    assert m.Payload() == params + [0xF6, 0x00, 0x00, 0x00, 0x00];
    assert Mavlink.Header(true, 33, 0x45, 0xFF, 0, 76) == [0xFE, 0x21, 0x45, 0xFF, 0x00, 0x4C];
    assert [0xFE, 0x21, 0x45, 0xFF, 0x00, 0x4C] + m.Payload() == body;
    assert body[1..] == BODY;
    PacketCrc();
    assert ToLe(0x37CC, 2) == [0xCC, 0x37];
  }

  // ---- the checksum of firmware and memory ----

  lemma NextByte(data: seq<byte>, b: byte, s: bv32, next: bv32)
    requires Crc32(data, 0) == s && next == Xor(Step8((s ^ Word(b)) & 0xFF), s >> 8)
    ensures Crc32(data + [b], 0) == next
  {
    hide Crc32, Word, Step8;
    OneByte(b, s, Word(b), (s ^ Word(b)) & 0xFF, s >> 8);
    Crc32Concat(data, [b], 0);
  }

  /** The checksum of "spam ham". */
  lemma TextCrc()
    ensures Crc32([0x73, 0x70, 0x61, 0x6D, 0x20, 0x68, 0x61, 0x6D], 0) == 0xC5AE_5BFE
  {
    hide Crc32, Word;
    EmptyCrc(0);
    WordOf(0x20, false, false, false, false, false, true, false, false);
    WordOf(0x61, true, false, false, false, false, true, true, false);
    WordOf(0x68, false, false, false, true, false, true, true, false);
    WordOf(0x6D, true, false, true, true, false, true, true, false);
    WordOf(0x70, false, false, false, false, true, true, true, false);
    WordOf(0x73, true, true, false, false, true, true, true, false);
    var data: seq<byte> := [];
    NextByte(data, 0x73, 0x0000_0000, 0xC90C_2086);
    data := data + [0x73];
    NextByte(data, 0x70, 0xC90C_2086, 0x5417_5B09);
    data := data + [0x70];
    NextByte(data, 0x61, 0x5417_5B09, 0x433D_FE31);
    data := data + [0x61];
    NextByte(data, 0x6D, 0x433D_FE31, 0x629E_2021);
    data := data + [0x6D];
    NextByte(data, 0x20, 0x629E_2021, 0x7765_AEB6);
    data := data + [0x20];
    NextByte(data, 0x68, 0x7765_AEB6, 0x611C_9A7D);
    data := data + [0x68];
    NextByte(data, 0x61, 0x611C_9A7D, 0x1460_40D5);
    data := data + [0x61];
    NextByte(data, 0x6D, 0x1460_40D5, 0xC5AE_5BFE);
    data := data + [0x6D];
    assert data == [0x73, 0x70, 0x61, 0x6D, 0x20, 0x68, 0x61, 0x6D];
  }

  lemma MemoryWords()
    ensures Word(0xAD) == 0xAD && Word(0xBE) == 0xBE && Word(0xC0) == 0xC0 && Word(0xDE) == 0xDE
    ensures Word(0xEE) == 0xEE && Word(0xEF) == 0xEF && Word(0xFF) == 0xFF
  {
    WordOf(0xAD, true, false, true, true, false, true, false, true);
    WordOf(0xBE, false, true, true, true, true, true, false, true);
    WordOf(0xC0, false, false, false, false, false, false, true, true);
    WordOf(0xDE, false, true, true, true, true, false, true, true);
    WordOf(0xEE, false, true, true, true, false, true, true, true);
    WordOf(0xEF, true, true, true, true, false, true, true, true);
    WordOf(0xFF, true, true, true, true, true, true, true, true);
  }

  /** The checksum of sixteen bytes of memory after seven of them have been programmed. */
  lemma MemoryCrc()
    ensures Crc32([0xDE, 0xAD, 0xBE, 0xEF, 0xC0, 0xFF, 0xEE] + Fill(0xFF, 9), 0) == 0x8A20_C1FE
  {
    hide Crc32, Word;
    EmptyCrc(0);
    MemoryWords();
    var data: seq<byte> := [];
    NextByte(data, 0xDE, 0x0000_0000, 0x616B_FFD3);
    data := data + [0xDE];
    NextByte(data, 0xAD, 0x616B_FFD3, 0xB7DC_37C4);
    data := data + [0xAD];
    NextByte(data, 0xBE, 0xB7DC_37C4, 0xB067_4415);
    data := data + [0xBE];
    NextByte(data, 0xEF, 0xB067_4415, 0x5DD8_7C46);
    data := data + [0xEF];
    NextByte(data, 0xC0, 0x5DD8_7C46, 0x0486_FE69);
    data := data + [0xC0];
    NextByte(data, 0xFF, 0x0486_FE69, 0x1968_B08F);
    data := data + [0xFF];
    NextByte(data, 0xEE, 0x1968_B08F, 0x3AAC_397E);
    data := data + [0xEE];
    NextByte(data, 0xFF, 0x3AAC_397E, 0x9A85_1F8F);
    data := data + [0xFF];
    NextByte(data, 0xFF, 0x9A85_1F8F, 0x509F_F423);
    data := data + [0xFF];
    NextByte(data, 0xFF, 0x509F_F423, 0x8F35_010B);
    data := data + [0xFF];
    NextByte(data, 0xFF, 0x8F35_010B, 0xBA5F_0304);
    data := data + [0xFF];
    NextByte(data, 0xFF, 0xBA5F_0304, 0x2AD5_7497);
    data := data + [0xFF];
    NextByte(data, 0xFF, 0x2AD5_7497, 0x4343_3C1E);
    data := data + [0xFF];
    NextByte(data, 0xFF, 0x4343_3C1E, 0xD74E_91D2);
    data := data + [0xFF];
    NextByte(data, 0xFF, 0xD74E_91D2, 0x4508_12E4);
    data := data + [0xFF];
    NextByte(data, 0xFF, 0x4508_12E4, 0x8A20_C1FE);
    data := data + [0xFF];
    assert data == [0xDE, 0xAD, 0xBE, 0xEF, 0xC0, 0xFF, 0xEE] + Fill(0xFF, 9);
  }

  // ---- what the mock answers ----

  /** The device answers these bytes with these, and is as before. */
  ghost predicate Answers(d: Device.State, wire: seq<byte>, reply: seq<byte>)
    requires d.Valid()
  {
    Device.Serve(d, [wire]) == (reply, d)
  }

  lemma Exchange(d: Device.State, c: Command, wire: seq<byte>, reply: seq<byte>)
    requires d.Valid() && !d.exiting && Device.WellFormed(c) && c.ToBytes().Some? && c.ToBytes().value == wire
    requires Device.Handle(d, c) == (Device.Payload(reply), d)
    ensures Answers(d, wire, reply + [0x12, 0x10])
  {
    hide Device.Serve;
    Device.OneCommand(d, c);
  }

  /** The board's number and revision. */
  lemma BoardAnswers(d: Device.State)
    requires d.Valid() && !d.exiting
    ensures Answers(d, [0x22, 0x02, 0x20], [9, 0, 0, 0] + [0x12, 0x10])
    ensures Answers(d, [0x22, 0x03, 0x20], [0, 0, 0, 0] + [0x12, 0x10])
  {
    hide Answers, Device.Serve;
    assert ToLe(9, 4) == [9, 0, 0, 0] && ToLe(0, 4) == [0, 0, 0, 0];
    Exchange(d, Command(GET_DEVICE, [2]), [0x22, 0x02, 0x20], [9, 0, 0, 0]);
    Exchange(d, Command(GET_DEVICE, [3]), [0x22, 0x03, 0x20], [0, 0, 0, 0]);
  }

  /** Synchronization, the chip, its one-time programmable area, and the start of the serial number, in reverse. */
  lemma ChipAnswers(d: Device.State, address: seq<byte>)
    requires d.Valid() && !d.exiting && |address| == 4
    ensures Answers(d, [0x21, 0x20], [] + [0x12, 0x10])
    ensures Answers(d, [0x2C, 0x20], [9] + [0x12, 0x10])
    ensures Answers(d, [0x2A] + address + [0x20], [0xFF, 0xFF, 0xFF, 0xFF] + [0x12, 0x10])
  {
    hide Answers, Device.Serve;
    Exchange(d, Command(GET_SYNC, []), [0x21, 0x20], []);
    Exchange(d, Command(GET_CHIP, []), [0x2C, 0x20], [9]);
    Exchange(d, Command(GET_OTP, address), [0x2A] + address + [0x20], [0xFF, 0xFF, 0xFF, 0xFF]);
  }

  lemma DescriptionAnswer(d: Device.State)
    requires d.Valid() && !d.exiting
    ensures Answers(d, [0x2E, 0x20], [12, 0, 0, 0] + Device.CHIP_DESCRIPTION + [0x12, 0x10])
  {
    hide Answers, Device.Serve;
    assert ToLe(12, 4) == [12, 0, 0, 0];
    Exchange(d, Command(GET_CHIP_DES, []), [0x2E, 0x20], [12, 0, 0, 0] + Device.CHIP_DESCRIPTION);
  }

  lemma SerialAnswer(d: Device.State)
    requires d.Valid() && !d.exiting
    ensures Answers(d, [0x2B, 0, 0, 0, 0, 0x20], [0x00, 0xEE, 0xFF, 0xC0] + [0x12, 0x10])
  {
    hide Answers, Device.Serve, Device.SerialWord;
    FirstWord();
    Exchange(d, Command(GET_SN, [0, 0, 0, 0]), [0x2B, 0, 0, 0, 0, 0x20], [0x00, 0xEE, 0xFF, 0xC0]);
  }

  lemma FirstWord()
    ensures FromLe([0, 0, 0, 0]) == 0 && Device.SerialWord(0) == [0x00, 0xEE, 0xFF, 0xC0]
  {
    var word: seq<byte> := [0xC0, 0xFF, 0xEE, 0x00];
    assert Device.SERIAL_NUMBER[0..][..4] == word && word + Fill(0, 0) == word;
    assert word[1..] == [0xFF, 0xEE, 0x00] && word[1..][1..] == [0xEE, 0x00] && word[1..][1..][1..] == [0x00];
    assert [0, 0, 0, 0][1..] == [0, 0, 0];
  }

  /** Erased memory of sixteen bytes, after four and three bytes have been programmed. */
  lemma ProgrammedMemory(d: Device.State)
    requires d.Valid() && !d.exiting && d.flash == Fill(0xFF, 16) && d.ptr == 0
    ensures var d1 := d.(flash := [0xDE, 0xAD, 0xBE, 0xEF] + Fill(0xFF, 12), ptr := 4);
            var d2 := d.(flash := [0xDE, 0xAD, 0xBE, 0xEF, 0xC0, 0xFF, 0xEE] + Fill(0xFF, 9), ptr := 7);
            && Device.Serve(d, [[0x27, 4, 0xDE, 0xAD, 0xBE, 0xEF, 0x20]]) == ([0x12, 0x10], d1)
            && Device.Serve(d1, [[0x27, 3, 0xC0, 0xFF, 0xEE, 0x20]]) == ([0x12, 0x10], d2)
            && Answers(d2, [0x29, 0x20], [0xFE, 0xC1, 0x20, 0x8A] + [0x12, 0x10])
  {
    hide Device.Serve, Answers, Device.Written, Crc32;
    var first: seq<byte>, second: seq<byte> := [0xDE, 0xAD, 0xBE, 0xEF], [0xC0, 0xFF, 0xEE];
    var d1 := d.(flash := first + Fill(0xFF, 12), ptr := 4);
    var d2 := d.(flash := [0xDE, 0xAD, 0xBE, 0xEF, 0xC0, 0xFF, 0xEE] + Fill(0xFF, 9), ptr := 7);
    assert d.flash[..0] + first + d.flash[4..] == d1.flash && d1.flash[..4] + second + d1.flash[7..] == d2.flash;
    Programmed(d, first, d1, [0x27, 4, 0xDE, 0xAD, 0xBE, 0xEF, 0x20]);
    Programmed(d1, second, d2, [0x27, 3, 0xC0, 0xFF, 0xEE, 0x20]);
    MemoryCrc();
    ChecksumBytes();
    Exchange(d2, Command(GET_CRC, []), [0x29, 0x20], [0xFE, 0xC1, 0x20, 0x8A]);
  }

  lemma ChecksumBytes()
    ensures 0x8A20_C1FE as bv32 as int == 0x8A20_C1FE && ToLe(0x8A20_C1FE, 4) == [0xFE, 0xC1, 0x20, 0x8A]
  {
  }

  lemma Programmed(d: Device.State, data: seq<byte>, d': Device.State, wire: seq<byte>)
    requires d.Valid() && !d.exiting && d.ptr + |data| <= |d.flash| && 0 < |data| <= 252
    requires wire == [0x27, |data| as byte] + data + [0x20]
    requires d' == d.(flash := d.flash[..d.ptr] + data + d.flash[d.ptr + |data|..], ptr := d.ptr + |data|)
    ensures Device.Serve(d, [wire]) == ([0x12, 0x10], d')
  {
    hide Device.Serve, Device.Written;
    Device.WrittenInside(d, data);
    Device.WrittenValid(d, data);
    Device.OneCommand(d, Command(PROG_MULTI, data));
    assert [] + [0x12, 0x10] == [0x12, 0x10];
  }

  /** The write pointer is told; erasing and rebooting are acknowledged. */
  lemma StateCommands(d: Device.State)
    requires d.Valid() && !d.exiting
    ensures Answers(d, [0x2F, 0x20], ToLe(d.ptr, 4) + [0x12, 0x10])
    ensures Device.Serve(d, [[0x23, 0x20]]) == ([0x12, 0x10], d.(flash := Fill(0xFF, |d.flash|), ptr := 0))
    ensures Device.Serve(d, [[0x30, 0x20]]) == ([0x12, 0x10], d.(exiting := true))
  {
    hide Device.Serve, Answers, ToLe;
    var erase, reboot := Command(CHIP_ERASE, []), Command(REBOOT, []);
    Exchange(d, Command(GET_WRITE_PTR, []), [0x2F, 0x20], ToLe(d.ptr, 4));
    Device.OneCommand(d, erase);
    Device.OneCommand(d, reboot);
    assert erase.ToBytes().value == [0x23, 0x20] && reboot.ToBytes().value == [0x30, 0x20];
    assert [] + [0x12, 0x10] == [0x12, 0x10];
  }

  /** Bytes in front of a command that do not start one. */
  lemma NoiseBeforeSync(d: Device.State)
    requires d.Valid() && !d.exiting
    ensures Answers(d, [0xFE, 0x87, 0x61, 0x11, 0x21, 0x20], [0x12, 0x10])
  {
    hide Device.Serve;
    var noise: seq<byte> := [0xFE, 0x87, 0x61, 0x11];
    assert GetSync.ToBytes().value == [0x21, 0x20] && noise + ([0x21, 0x20] + []) == noise + [0x21, 0x20];
    Device.ServeEncoded(d, noise, GetSync, []);
    Device.ReceiveNoise([]);
    Device.ServeNothing(d, [[]]);
    assert noise + [0x21, 0x20] == [0xFE, 0x87, 0x61, 0x11, 0x21, 0x20];
    assert [] + [0x12, 0x10] + [] == [0x12, 0x10];
  }

  // ---- commands that are refused ----

  /** The device has no other properties than the four above; asking for one fails with the code for failures. */
  lemma UnknownProperty(d: Device.State, item: byte)
    requires d.Valid() && !d.exiting
    ensures item == 0 || item > 4 ==> Device.Serve(d, [[0x22, item, 0x20]]) == ([0x12, 0x11], d)
  {
    hide Device.Serve;
    Device.OneCommand(d, Command(GET_DEVICE, [item]));
    assert Command(GET_DEVICE, [item]).ToBytes().value == [0x22, item, 0x20];
  }

  /** The serial number ends after twelve bytes; beyond it are zeros. */
  lemma SerialEnds(address: nat)
    requires address >= 9
    ensures Device.SerialWord(address) ==
            if address == 9 then [0x00, 0xEE, 0xFF, 0xC0] else if address == 10 then [0x00, 0x00, 0xEE, 0xFF]
            else if address == 11 then [0x00, 0x00, 0x00, 0xEE] else [0x00, 0x00, 0x00, 0x00]
  {
    var word: seq<byte> := if address == 9 then [0xC0, 0xFF, 0xEE, 0x00]
                           else if address == 10 then [0xFF, 0xEE, 0x00, 0x00]
                           else if address == 11 then [0xEE, 0x00, 0x00, 0x00] else [0x00, 0x00, 0x00, 0x00];
    var rest := if address > 12 then [] else Device.SERIAL_NUMBER[address..];
    assert rest + Fill(0, 4 - |rest|) == word;
    assert Device.SerialWord(address) == Device.Reversed(rest + Fill(0, 4 - |rest|));
    FourReversed(word);
  }

  lemma FourReversed(s: seq<byte>)
    requires |s| == 4
    ensures Device.Reversed(s) == [s[3], s[2], s[1], s[0]]
  {
    var s1, s2, s3 := s[1..], s[2..], s[3..];
    assert s1[1..] == s2 && s2[1..] == s3 && s3[1..] == [];
    assert Device.Reversed(s3) == [] + [s3[0]];
    assert Device.Reversed(s2) == [s3[0]] + [s2[0]];
    assert Device.Reversed(s1) == [s3[0], s2[0]] + [s1[0]];
  }

  /** A command that the mock knows by its number and does not handle. */
  lemma UnhandledCommand(d: Device.State)
    requires d.Valid() && !d.exiting
    ensures Answers(d, [0x31, 0x20], [0x12, 0x13])
  {
    hide Device.Serve;
    Device.OneCommand(d, Command(DEBUG, []));
    assert Command(DEBUG, []).ToBytes().value == [0x31, 0x20];
  }

  /** One command byte that nothing follows in time. */
  lemma LoneByte(d: Device.State, c: Command, code: byte, next: seq<byte>, later: seq<seq<byte>>)
    requires d.Valid() && !d.exiting && Device.WellFormed(c) && Device.Unended(c) == [code]
    ensures var (replies, last) := Device.Serve(d, [next] + later);
            Device.Serve(d, [[code], next] + later) == ([0x12, 0x13] + replies, last)
  {
    hide Device.Serve, Device.Unended;
    var rest := [next] + later;
    Device.LateRestIsRefused(d, [], c, 1, rest);
    assert [] + [code][..1] == [code] && [[code]] + rest == [[code], next] + later;
    assert [] + next == next && [[] + next] + rest[1..] == rest;
  }

  /** A command byte, or a command without its end byte, that nothing follows in time, and one that ends wrongly. */
  lemma BrokenCommands(d: Device.State)
    requires d.Valid() && !d.exiting
    ensures Device.Serve(d, [[0x21], [0x2E], [0x2E, 0xFF]]) == ([0x12, 0x13, 0x12, 0x13, 0x12, 0x13], d)
  {
    hide Device.Serve;
    var end: seq<byte>, none: seq<seq<byte>> := [0x2E, 0xFF], [];
    WrongEnd(d);
    LoneByte(d, Command(GET_CHIP_DES, []), 0x2E, end, none);
    LoneByte(d, Command(GET_SYNC, []), 0x21, [0x2E], [end]);
    assert [end] + none == [end] && [[0x2E], end] + none == [[0x2E], end];
    assert [[0x2E]] + [end] == [[0x2E], end] && [[0x21], [0x2E]] + [end] == [[0x21], [0x2E], end];
    assert [0x12, 0x13] + ([0x12, 0x13] + [0x12, 0x13]) == [0x12, 0x13, 0x12, 0x13, 0x12, 0x13];
  }

  lemma WrongEnd(d: Device.State)
    requires d.Valid() && !d.exiting
    ensures Device.Serve(d, [[0x2E, 0xFF]]) == ([0x12, 0x13], d)
  {
    hide Device.Serve;
    var nothing: seq<seq<byte>> := [[]];
    assert Device.Unended(Command(GET_CHIP_DES, [])) == [0x2E];
    Device.ReceiveNoise([]);
    Device.ServeNothing(d, [[]]);
    Device.WrongEndIsRefused(d, [], Command(GET_CHIP_DES, []), 0xFF, [], []);
    assert [] + ([0x2E] + ([0xFF] + [])) == [0x2E, 0xFF] && nothing + [] == nothing;
    assert [[0x2E, 0xFF]] + [] == [[0x2E, 0xFF]] && [0x12, 0x13] + [] == [0x12, 0x13];
  }
}
