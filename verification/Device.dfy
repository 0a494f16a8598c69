/** The device at the other end: what a bootloader does with the bytes that reach it. */
module Device {
  import opened Arithmetic
  import opened Bytes
  import opened Crc
  import opened Messages

  const SERIAL_NUMBER: seq<byte> := [0xC0, 0xFF, 0xEE, 0x00, 0xDE, 0xAD, 0xBE, 0xEF, 0x00, 0xC0, 0xFF, 0xEE]
  const CHIP_DESCRIPTION: seq<byte> :=
    [0x53, 0x54, 0x4D, 0x33, 0x32, 0x46, 0x37, 0x2C, 0x6D, 0x6F, 0x63, 0x6B]  // "STM32F7,mock"

  /** `ptr` is the write pointer; `revision` is the protocol revision that the bootloader reports. */
  datatype State = State(flash: seq<byte>, ptr: nat, exiting: bool, revision: nat) {
    /** The memory is not empty, sizes fit the four bytes they are reported in, the pointer is inside. */
    ghost predicate Valid() {
      && 0 < |flash| < 0x1_0000_0000
      && ptr <= |flash|
      && revision < 0x1_0000_0000
    }
  }

  /** The specification of writing: byte number j goes to the address `start + j`, around the ring. */
  function RingWritten(flash: seq<byte>, start: nat, data: seq<byte>): (r: seq<byte>)
    requires |flash| > 0
    ensures |r| == |flash|
    decreases |data|
  {
    if data == [] then flash
    else RingWritten(flash[start % |flash| := data[0]], start + 1, data[1..])
  }

  /** The pointer stays behind the last byte written, without wrapping at the very end of the memory. */
  function PointerAfter(size: nat, start: nat, count: nat): nat
    requires size > 0
  {
    if count == 0 then start else (start + count - 1) % size + 1
  }

  /** A pointer beyond the end behaves like the start of the memory. */
  function Landing(size: nat, ptr: nat): nat {
    if ptr > size then 0 else ptr
  }

  function Written(d: State, data: seq<byte>): State
    requires |d.flash| > 0
  {
    if data == [] then d
    else
      var start := Landing(|d.flash|, d.ptr);
      d.(flash := RingWritten(d.flash, start, data), ptr := PointerAfter(|d.flash|, start, |data|))
  }

  /** A command ends with a payload for the reply, is refused, or fails with some other error. */
  datatype Handled = Payload(bytes: seq<byte>) | Refused | Failed {
    function Reply(): seq<byte> {
      match this
      case Payload(bytes) => Response(Success, bytes).ToBytes()
      case Refused => Response(Invalid, []).ToBytes()
      case Failed => Response(Failure, []).ToBytes()
    }
  }

  /** A number in four bytes; larger ones raise an error. */
  function Word4(n: nat): Handled {
    if n < 0x1_0000_0000 then Payload(ToLe(n, 4)) else Failed
  }

  function Reversed(s: seq<byte>): seq<byte> {
    if s == [] then [] else Reversed(s[1..]) + [s[0]]
  }

  /** A word of the serial number, padded with zeros beyond its end, most significant byte first. */
  function SerialWord(address: nat): seq<byte> {
    var rest := if address > |SERIAL_NUMBER| then [] else SERIAL_NUMBER[address..];
    var word := if |rest| > 4 then rest[..4] else rest;
    Reversed(word + Fill(0, 4 - |word|))
  }

  function Handle(d: State, c: Command): (r: (Handled, State))
    requires |d.flash| > 0
    ensures |r.1.flash| == |d.flash| && (d.exiting ==> r.1.exiting)
  {
    match c.op
    case GET_SYNC => (Payload([]), d)
    case GET_DEVICE =>
      (if c.args == [] then Failed
       else if c.args[0] == 1 then Word4(d.revision)
       else if c.args[0] == 2 then Word4(9)
       else if c.args[0] == 3 then Word4(0)
       else if c.args[0] == 4 then Word4(|d.flash|)
       else Failed, d)
    case GET_CHIP => (Payload([9]), d)
    case GET_CHIP_DES => (Payload(ToLe(|CHIP_DESCRIPTION|, 4) + CHIP_DESCRIPTION), d)
    case GET_OTP => (Payload([0xFF, 0xFF, 0xFF, 0xFF]), d)
    case GET_SN => (if |c.args| != 4 then Refused else Payload(SerialWord(FromLe(c.args))), d)
    case CHIP_ERASE => (Payload([]), d.(flash := Fill(0xFF, |d.flash|), ptr := 0))
    case PROG_MULTI => (Payload([]), Written(d, c.args))
    case GET_CRC => (Word4(Crc32(d.flash, 0) as int), d)
    case GET_WRITE_PTR => (Word4(d.ptr), d)
    case REBOOT => (Payload([]), d.(exiting := true))
    case _ => (Refused, d)
  }

  // ---- the command parser ----

  /** What the parser makes of the bytes that have arrived, and what it leaves unread. */
  datatype Parsed =
    | Got(command: Command, rest: seq<byte>)   // a complete command
    | BadEnd(rest: seq<byte>)                  // something else where the end-of-command byte should be
    | CutShort(rest: seq<byte>)                // the rest of the command did not arrive in time
    | Nothing                                  // no command byte at all

  /** Opcodes up to the end-of-command byte are not commands. */
  predicate StartsCommand(b: byte) {
    OpCodeOf(b).Some? && b > EOC_BYTE
  }

  function ParseBody(op: OpCode, length: nat, body: seq<byte>): Parsed {
    if |body| < length then CutShort(body)
    else if |body| == length then CutShort([])
    else if body[length] == EOC_BYTE then Got(Command(op, body[..length]), body[length + 1..])
    else BadEnd(body[length + 1..])
  }

  /** What follows the command byte. */
  function ParseRest(op: OpCode, s: seq<byte>): Parsed {
    if op.PayloadLength() >= 0 then ParseBody(op, op.PayloadLength(), s)
    else if s == [] then CutShort([])
    else ParseBody(op, s[0] as nat, s[1..])
  }

  function Parse(s: seq<byte>): (p: Parsed)
    ensures !p.Nothing? ==> |p.rest| < |s|
    decreases |s|
  {
    if s == [] then Nothing
    else if StartsCommand(s[0]) then ParseRest(OpCodeOf(s[0]).value, s[1..])
    else Parse(s[1..])
  }

  // ---- serving a stream that pauses ----

  /** The outcome of waiting for a command; `Waiting` means that nothing more will come. */
  datatype Received = Complete(command: Command) | Malformed | Overdue | Waiting

  /** When time runs out inside a command, what follows the pause continues the bytes that are left unread. */
  function Settle(p: Parsed, later: seq<seq<byte>>): (Received, seq<seq<byte>>)
    requires !p.Nothing?
  {
    match p
    case Got(c, rest) => (Complete(c), [rest] + later)
    case BadEnd(rest) => (Malformed, [rest] + later)
    case CutShort(rest) => (Overdue, if later == [] then [rest] else [rest + later[0]] + later[1..])
  }

  /** A stream is a list of bursts with pauses between them; waiting for a command byte may outlast a pause. */
  function Receive(bursts: seq<seq<byte>>): (Received, seq<seq<byte>>)
    decreases |bursts|
  {
    if bursts == [] then (Waiting, [])
    else if Parse(bursts[0]).Nothing? then Receive(bursts[1..])
    else Settle(Parse(bursts[0]), bursts[1..])
  }

  lemma {:induction false} ReceiveShrinks(bursts: seq<seq<byte>>)
    ensures !Receive(bursts).0.Waiting? ==> |Flatten(Receive(bursts).1)| < |Flatten(bursts)|
    decreases |bursts|
  {
    if bursts != [] {
      var later := bursts[1..];
      if Parse(bursts[0]).Nothing? {
        ReceiveShrinks(later);
      } else {
        var rest := Parse(bursts[0]).rest;
        assert ([rest] + later)[1..] == later;
        if later != [] {
          assert ([rest + later[0]] + later[1..])[1..] == later[1..];
        }
      }
    }
  }

  /** Serving a stream until it ends or the device exits: the bytes sent back, and the device afterwards. */
  function Serve(d: State, bursts: seq<seq<byte>>): (seq<byte>, State)
    requires |d.flash| > 0
    decreases |Flatten(bursts)|
  {
    ReceiveShrinks(bursts);
    if d.exiting then ([], d)
    else match Receive(bursts)
      case (Waiting, _) => ([], d)
      case (Complete(c), later) =>
        var (h, d') := Handle(d, c);
        var (replies, last) := Serve(d', later);
        (h.Reply() + replies, last)
      case (_, later) =>
        var (replies, last) := Serve(d, later);
        (Refused.Reply() + replies, last)
  }

  // ---- the ring ----

  /** Writing one piece after the other is writing their concatenation. */
  lemma {:induction false} RingWrittenConcat(flash: seq<byte>, start: nat, a: seq<byte>, b: seq<byte>)
    requires |flash| > 0
    ensures RingWritten(flash, start, a + b) == RingWritten(RingWritten(flash, start, a), start + |a|, b)
    decreases |a|
  {
    if a == [] {
      assert a + b == b;
    } else {
      assert (a + b)[1..] == a[1..] + b;
      RingWrittenConcat(flash[start % |flash| := a[0]], start + 1, a[1..], b);
    }
  }

  /** Going around once makes no difference. */
  lemma {:induction false} RingWrittenPeriodic(flash: seq<byte>, start: nat, data: seq<byte>)
    requires |flash| > 0
    ensures RingWritten(flash, start + |flash|, data) == RingWritten(flash, start, data)
    decreases |data|
  {
    if data != [] {
      ModuloPeriod(start, |flash|);
      RingWrittenPeriodic(flash[start % |flash| := data[0]], start + 1, data[1..]);
    }
  }

  /** As long as the data fits before the end of the memory, it replaces a slice. */
  lemma {:induction false} RingWrittenSlice(flash: seq<byte>, start: nat, data: seq<byte>)
    requires start + |data| <= |flash| && |flash| > 0
    ensures RingWritten(flash, start, data) == flash[..start] + data + flash[start + |data|..]
    decreases |data|
  {
    if data == [] {
      assert flash == flash[..start] + data + flash[start..];
    } else {
      Small(start, |flash|);
      var next := flash[start := data[0]];
      RingWrittenSlice(next, start + 1, data[1..]);
      assert next[..start + 1] == flash[..start] + [data[0]];
      assert data == [data[0]] + data[1..];
      assert next[start + |data|..] == flash[start + |data|..];
    }
  }

  /** What the specification means address by address, when the data does not overwrite itself. */
  lemma {:induction false} RingWrittenAt(flash: seq<byte>, start: nat, data: seq<byte>, j: nat)
    requires 0 < |flash| && |data| <= |flash| && j < |data|
    ensures RingWritten(flash, start, data)[(start + j) % |flash|] == data[j]
    decreases |data|
  {
    var next := flash[start % |flash| := data[0]];
    if j > 0 {
      assert start + 1 + (j - 1) == start + j;
      RingWrittenAt(next, start + 1, data[1..], j - 1);
    } else {
      RingWrittenElsewhere(next, start + 1, data[1..], start);
    }
  }

  lemma {:induction false} RingWrittenElsewhere(flash: seq<byte>, start: nat, data: seq<byte>, k: nat)
    requires 0 < |flash| && k < start && start + |data| <= k + |flash|
    ensures RingWritten(flash, start, data)[k % |flash|] == flash[k % |flash|]
    decreases |data|
  {
    if data != [] {
      DifferentSlots(k, start, |flash|);
      RingWrittenElsewhere(flash[start % |flash| := data[0]], start + 1, data[1..], k);
    }
  }

  lemma WrittenValid(d: State, data: seq<byte>)
    requires d.Valid()
    ensures Written(d, data).Valid() && |Written(d, data).flash| == |d.flash|
    ensures Written(d, data) == d.(flash := Written(d, data).flash, ptr := Written(d, data).ptr)
  {
  }

  lemma HandleValid(d: State, c: Command)
    requires d.Valid()
    ensures Handle(d, c).1.Valid() && |Handle(d, c).1.flash| == |d.flash|
  {
    WrittenValid(d, c.args);
  }

  /** Writing at the write pointer inside the memory: the slice is replaced and the pointer moves behind it. */
  lemma WrittenInside(d: State, data: seq<byte>)
    requires 0 < |d.flash| && d.ptr + |data| <= |d.flash|
    ensures Written(d, data).flash == d.flash[..d.ptr] + data + d.flash[d.ptr + |data|..]
    ensures Written(d, data).ptr == d.ptr + |data|
  {
    if data == [] {
      assert d.flash == d.flash[..d.ptr] + data + d.flash[d.ptr + |data|..];
    } else {
      RingWrittenSlice(d.flash, d.ptr, data);
      Small(d.ptr + |data| - 1, |d.flash|);
    }
  }

  /** Where the pointer stands makes no difference as long as it is the same place on the ring. */
  lemma {:induction false} RingWrittenFrom(flash: seq<byte>, start: nat, rounds: nat, data: seq<byte>)
    requires |flash| > 0
    ensures RingWritten(flash, start + rounds * |flash|, data) == RingWritten(flash, start, data)
    decreases rounds
  {
    hide RingWritten;
    if rounds > 0 {
      OneRound(rounds, |flash|);
      RingWrittenFrom(flash, start, rounds - 1, data);
      RingWrittenPeriodic(flash, start + (rounds - 1) * |flash|, data);
    }
  }

  /** The pointer behind what has been written is inside the memory, and on the ring it is the next place. */
  lemma NextPlace(flash: seq<byte>, start: nat, count: nat, data: seq<byte>)
    requires |flash| > 0 && count > 0
    ensures PointerAfter(|flash|, start, count) <= |flash|
    ensures RingWritten(flash, PointerAfter(|flash|, start, count), data) == RingWritten(flash, start + count, data)
  {
    hide RingWritten;
    var size, last := |flash|, start + count - 1;
    Remainder(last, size);
    RingWrittenFrom(flash, last % size + 1, last / size, data);
    assert last % size + 1 + last / size * size == start + count;
  }

  lemma PointerTwice(size: nat, start: nat, a: nat, b: nat)
    requires size > 0 && a > 0 && b > 0
    ensures PointerAfter(size, PointerAfter(size, start, a), b) == PointerAfter(size, start, a + b)
  {
    var last := start + a - 1;
    Remainder(last, size);
    SameSlot(last % size + b, last / size, size);
    assert last % size + b + last / size * size == start + (a + b) - 1;
  }

  /** Two writes one after the other are one, around the ring as well. */
  lemma WrittenConcat(d: State, a: seq<byte>, b: seq<byte>)
    requires d.Valid()
    ensures Written(Written(d, a), b) == Written(d, a + b)
  {
    hide RingWritten, PointerAfter;
    if a == [] {
      assert a + b == b;
    } else if b == [] {
      assert a + b == a;
    } else {
      RingWrittenConcat(d.flash, d.ptr, a, b);
      NextPlace(RingWritten(d.flash, d.ptr, a), d.ptr, |a|, b);
      PointerTwice(|d.flash|, d.ptr, |a|, |b|);
    }
  }

  /** Data that goes around the end once leaves the pointer behind its last byte, which is never the very start. */
  lemma PointerGoesAround(d: State, data: seq<byte>)
    requires d.Valid() && |d.flash| < d.ptr + |data| <= 2 * |d.flash|
    ensures Written(d, data).ptr == d.ptr + |data| - |d.flash| > 0
  {
    var last := d.ptr + |data| - 1;
    ModuloPeriod(last - |d.flash|, |d.flash|);
    Small(last - |d.flash|, |d.flash|);
  }

  /** A pointer that has been set beyond the end is as good as one at the start. */
  lemma PointerBeyondTheEnd(d: State, data: seq<byte>)
    requires 0 < |d.flash| < d.ptr && data != []
    ensures Written(d, data) == Written(d.(ptr := 0), data)
  {
    hide RingWritten, PointerAfter;
  }

  // ---- the command codec ----

  /** A command the parser can recognize: a command opcode, with arguments of the announced length. */
  ghost predicate WellFormed(c: Command) {
    && c.op.Code() > EOC_BYTE
    && (if c.op.PayloadLength() < 0 then |c.args| <= 255 else |c.args| == c.op.PayloadLength())
  }

  ghost predicate Noise(s: seq<byte>) {
    forall i :: 0 <= i < |s| ==> !StartsCommand(s[i])
  }

  lemma {:induction false} ParseSkipsNoise(noise: seq<byte>, s: seq<byte>)
    requires Noise(noise)
    ensures Parse(noise + s) == Parse(s)
  {
    if noise == [] {
      assert noise + s == s;
    } else {
      assert (noise + s)[1..] == noise[1..] + s;
      ParseSkipsNoise(noise[1..], s);
    }
  }

  lemma ParseBodyEncoded(op: OpCode, args: seq<byte>, rest: seq<byte>)
    ensures ParseBody(op, |args|, args + [EOC_BYTE] + rest) == Got(Command(op, args), rest)
  {
    var body := args + [EOC_BYTE] + rest;
    assert body[..|args|] == args && body[|args|] == EOC_BYTE && body[|args| + 1..] == rest;
  }

  /** The parser reads back an encoded command, whatever its arguments contain, and nothing beyond it. */
  lemma ParseEncoded(c: Command, rest: seq<byte>)
    requires WellFormed(c)
    ensures c.ToBytes().Some? && Parse(c.ToBytes().value + rest) == Got(c, rest)
  {
    var s, body, code := c.ToBytes().value + rest, c.args + [EOC_BYTE] + rest, c.op.Code();
    ParseBodyEncoded(c.op, c.args, rest);
    assert OpCodeOf(code) == Some(c.op);
    if c.op.PayloadLength() < 0 {
      assert s == [code, |c.args| as byte] + body;
      assert s[1..][1..] == body;
    } else {
      assert s == [code] + body;
      assert s[1..] == body;
    }
  }

  /** A command with the noise in front of it. */
  datatype Item = Item(noise: seq<byte>, command: Command)

  function Wire(items: seq<Item>): seq<byte> {
    if items == [] then []
    else
      var raw := items[0].command.ToBytes();
      items[0].noise + (if raw.Some? then raw.value else []) + Wire(items[1..])
  }

  /** The specification of serving: the commands are handled one after the other, until the device exits. */
  function HandleAll(d: State, commands: seq<Command>): (seq<byte>, State)
    requires |d.flash| > 0
    decreases |commands|
  {
    if commands == [] || d.exiting then ([], d)
    else
      var (h, d') := Handle(d, commands[0]);
      var (replies, last) := HandleAll(d', commands[1..]);
      (h.Reply() + replies, last)
  }

  function Commands(items: seq<Item>): seq<Command> {
    seq(|items|, i requires 0 <= i < |items| => items[i].command)
  }

  lemma ReceiveEncoded(noise: seq<byte>, c: Command, rest: seq<byte>)
    requires Noise(noise) && WellFormed(c)
    ensures c.ToBytes().Some? && Receive([noise + (c.ToBytes().value + rest)]) == (Complete(c), [rest])
  {
    ParseEncoded(c, rest);
    ParseSkipsNoise(noise, c.ToBytes().value + rest);
    var burst := noise + (c.ToBytes().value + rest);
    assert Receive([burst]) == Settle(Got(c, rest), [burst][1..]);
    assert [rest] + [burst][1..] == [rest];
  }

  lemma ServeEncoded(d: State, noise: seq<byte>, c: Command, rest: seq<byte>)
    requires |d.flash| > 0 && !d.exiting && Noise(noise) && WellFormed(c)
    ensures var (h, d') := Handle(d, c);
            var (replies, last) := Serve(d', [rest]);
            c.ToBytes().Some? && Serve(d, [noise + (c.ToBytes().value + rest)]) == (h.Reply() + replies, last)
  {
    hide Receive, Handle;
    ReceiveEncoded(noise, c, rest);
  }

  lemma ReceiveNoise(noise: seq<byte>)
    requires Noise(noise)
    ensures Receive([noise]).0 == Waiting
  {
    ParseSkipsNoise(noise, []);
    assert noise + [] == noise;
  }

  lemma ServeNothing(d: State, bursts: seq<seq<byte>>)
    requires |d.flash| > 0 && (d.exiting || Receive(bursts).0.Waiting?)
    ensures Serve(d, bursts) == ([], d)
  {
    hide Receive, Handle;
  }

  lemma Associates(noise: seq<byte>, raw: seq<byte>, rest: seq<byte>, tail: seq<byte>)
    ensures noise + raw + rest + tail == noise + (raw + (rest + tail))
  {
  }

  lemma WireStep(items: seq<Item>, tail: seq<byte>)
    requires items != [] && WellFormed(items[0].command)
    ensures var raw := items[0].command.ToBytes();
            raw.Some? && Wire(items) + tail == items[0].noise + (raw.value + (Wire(items[1..]) + tail))
    ensures Commands(items) != [] && Commands(items)[0] == items[0].command
    ensures Commands(items)[1..] == Commands(items[1..])
  {
    ParseEncoded(items[0].command, []);
    Associates(items[0].noise, items[0].command.ToBytes().value, Wire(items[1..]), tail);
  }

  /**
   * Well-formed commands are handled exactly as they were meant and in order, no matter how much noise is between
   * and after them and how many command bytes or end-of-command bytes their arguments contain.
   */
  lemma {:induction false} CommandsSurvive(d: State, items: seq<Item>, tail: seq<byte>)
    requires |d.flash| > 0
    requires forall i :: 0 <= i < |items| ==> Noise(items[i].noise) && WellFormed(items[i].command)
    requires Noise(tail)
    ensures Serve(d, [Wire(items) + tail]) == HandleAll(d, Commands(items))
    decreases |items|
  {
    hide Handle, Receive, Serve;
    if items == [] {
      assert Wire([]) + tail == tail;
      ReceiveNoise(tail);
      ServeNothing(d, [tail]);
    } else if d.exiting {
      ServeNothing(d, [Wire(items) + tail]);
    } else {
      WireStep(items, tail);
      ServeEncoded(d, items[0].noise, items[0].command, Wire(items[1..]) + tail);
      CommandsSurvive(Handle(d, items[0].command).1, items[1..], tail);
    }
  }

  /** One command, sent to a device that waits for one. */
  lemma OneCommand(d: State, c: Command)
    requires |d.flash| > 0 && !d.exiting && WellFormed(c)
    ensures c.ToBytes().Some? && Serve(d, [c.ToBytes().value]) == (Handle(d, c).0.Reply(), Handle(d, c).1)
  {
    hide Handle, Receive, Serve;
    ServeEncoded(d, [], c, []);
    ReceiveNoise([]);
    ServeNothing(Handle(d, c).1, [[]]);
    var raw := c.ToBytes().value;
    assert [] + (raw + []) == raw;
    assert Handle(d, c).0.Reply() + [] == Handle(d, c).0.Reply();
  }

  // ---- commands that are refused ----

  /** Waiting for a command byte has no time limit: noise and a pause cost nothing. */
  lemma PausesAreWaitedOut(d: State, noise: seq<byte>, later: seq<seq<byte>>)
    requires |d.flash| > 0 && Noise(noise)
    ensures Serve(d, [noise] + later) == Serve(d, later)
  {
    hide Handle;
    ParseSkipsNoise(noise, []);
    assert noise + [] == noise && ([noise] + later)[1..] == later;
    assert Receive([noise] + later) == Receive(later);
  }

  /** Everything but the end byte, and where the arguments begin. */
  function Unended(c: Command): seq<byte>
    requires WellFormed(c)
  {
    [c.op.Code()] + (if c.op.PayloadLength() < 0 then [|c.args| as byte] else []) + c.args
  }

  lemma OnlyTheEndIsMissing(c: Command)
    requires WellFormed(c)
    ensures c.ToBytes() == Some(Unended(c) + [0x20])
  {
    assert [c.op.Code()] + [] + c.args == [c.op.Code()] + c.args;
    assert |c.args| <= 255 ==> [c.op.Code()] + [|c.args| as byte] + c.args == [c.op.Code(), |c.args| as byte] + c.args;
  }

  function HeadLength(op: OpCode): nat {
    if op.PayloadLength() < 0 then 2 else 1
  }

  lemma RestOfCommand(c: Command, s: seq<byte>)
    requires WellFormed(c)
    ensures Parse(Unended(c) + s) == ParseBody(c.op, |c.args|, c.args + s)
  {
    var all, code := Unended(c) + s, c.op.Code();
    assert OpCodeOf(code) == Some(c.op);
    if c.op.PayloadLength() < 0 {
      assert all == [code, |c.args| as byte] + (c.args + s);
      assert all[1..][1..] == c.args + s;
    } else {
      assert all == [code] + (c.args + s);
      assert all[1..] == c.args + s;
    }
  }

  /** A command with anything else in the place of its end byte is refused, and has no effect. */
  lemma WrongEndIsRefused(d: State, noise: seq<byte>, c: Command, end: byte, rest: seq<byte>, later: seq<seq<byte>>)
    requires |d.flash| > 0 && !d.exiting && Noise(noise) && WellFormed(c) && end != 0x20
    ensures var (replies, last) := Serve(d, [rest] + later);
            Serve(d, [noise + (Unended(c) + ([end] + rest))] + later) == ([0x12, 0x13] + replies, last)
  {
    hide Handle, Parse, Unended;
    var s := Unended(c) + ([end] + rest);
    var body := c.args + ([end] + rest);
    RestOfCommand(c, [end] + rest);
    ParseSkipsNoise(noise, s);
    assert body[|c.args|] == end && body[|c.args| + 1..] == rest;
    assert Parse(noise + s) == BadEnd(rest);
    assert ([noise + s] + later)[1..] == later;
    assert Receive([noise + s] + later) == (Malformed, [rest] + later);
  }

  /**
   * A command of which only `n` bytes have arrived before a pause is refused, too. Arguments that have arrived stay
   * unread unless they were complete: what comes next is taken to continue them, and they may be taken for commands.
   */
  lemma LateRestIsRefused(d: State, noise: seq<byte>, c: Command, n: nat, later: seq<seq<byte>>)
    requires |d.flash| > 0 && !d.exiting && Noise(noise) && WellFormed(c) && 1 <= n <= |Unended(c)|
    ensures var left := if HeadLength(c.op) <= n < |Unended(c)| then Unended(c)[HeadLength(c.op)..n] else [];
            var (replies, last) := Serve(d, if later == [] then [left] else [left + later[0]] + later[1..]);
            Serve(d, [noise + Unended(c)[..n]] + later) == ([0x12, 0x13] + replies, last)
  {
    hide Handle, Parse, Unended;
    var part := Unended(c)[..n];
    var left := if HeadLength(c.op) <= n < |Unended(c)| then Unended(c)[HeadLength(c.op)..n] else [];
    ParseSkipsNoise(noise, part);
    PartOfCommand(c, n);
    assert ([noise + part] + later)[1..] == later;
    assert Receive([noise + part] + later) == Settle(CutShort(left), later);
  }

  lemma PartOfCommand(c: Command, n: nat)
    requires WellFormed(c) && 1 <= n <= |Unended(c)|
    ensures var left := if HeadLength(c.op) <= n < |Unended(c)| then Unended(c)[HeadLength(c.op)..n] else [];
            Parse(Unended(c)[..n]) == CutShort(left)
  {
    var part, code := Unended(c)[..n], c.op.Code();
    assert OpCodeOf(code) == Some(c.op) && part[0] == code;
    if n >= HeadLength(c.op) {
      assert part[HeadLength(c.op)..] == Unended(c)[HeadLength(c.op)..n];
    }
  }
}
