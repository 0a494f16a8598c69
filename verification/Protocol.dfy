/** The vocabulary of the bootloader protocol: opcodes, commands and responses with their encodings. */
module Messages {
  import opened Bytes

  datatype OpCode =
    | IN_SYNC | EOC
    | OK | FAILED | INVALID | BAD_SILICON_REV
    | NOP | GET_SYNC | GET_DEVICE | CHIP_ERASE | CHIP_VERIFY | PROG_MULTI | READ_MULTI | GET_CRC | GET_OTP
    | GET_SN | GET_CHIP | SET_BOOT_DELAY | GET_CHIP_DES | GET_WRITE_PTR | REBOOT | DEBUG | SET_BAUD
  {
    function Code(): byte {
      match this
      case IN_SYNC => 0x12 case EOC => 0x20
      case OK => 0x10 case FAILED => 0x11 case INVALID => 0x13 case BAD_SILICON_REV => 0x14
      case NOP => 0x00 case GET_SYNC => 0x21 case GET_DEVICE => 0x22 case CHIP_ERASE => 0x23
      case CHIP_VERIFY => 0x24 case PROG_MULTI => 0x27 case READ_MULTI => 0x28 case GET_CRC => 0x29
      case GET_OTP => 0x2A case GET_SN => 0x2B case GET_CHIP => 0x2C case SET_BOOT_DELAY => 0x2D
      case GET_CHIP_DES => 0x2E case GET_WRITE_PTR => 0x2F case REBOOT => 0x30 case DEBUG => 0x31
      case SET_BAUD => 0x33
    }

    /** Length of the arguments; negative when the first byte on the wire holds the length. */
    function PayloadLength(): int {
      match this
      case GET_OTP | GET_SN | SET_BAUD => 4
      case GET_DEVICE | SET_BOOT_DELAY => 1
      case PROG_MULTI => -1
      case _ => 0
    }

    /** Length of the reply before its marker; negative when four bytes on the wire hold the length. */
    function ResponseLength(): int {
      match this
      case GET_CHIP_DES => -1
      case GET_CRC | GET_OTP | GET_SN | GET_DEVICE | GET_CHIP | GET_WRITE_PTR => 4
      case _ => 0
    }
  }

  const SYNC_BYTE: byte := 0x12
  const EOC_BYTE: byte := 0x20
  const PROG_MULTI_MAX_PAYLOAD_LENGTH: nat := 252

  /** Looking an opcode up by its number; there is no opcode for most numbers. */
  function OpCodeOf(b: byte): (r: Option<OpCode>)
    ensures forall op: OpCode :: r == Some(op) <==> op.Code() == b
  {
    if b == 0x12 then Some(IN_SYNC) else if b == 0x20 then Some(EOC)
    else if b == 0x10 then Some(OK) else if b == 0x11 then Some(FAILED)
    else if b == 0x13 then Some(INVALID) else if b == 0x14 then Some(BAD_SILICON_REV)
    else if b == 0x00 then Some(NOP) else if b == 0x21 then Some(GET_SYNC)
    else if b == 0x22 then Some(GET_DEVICE) else if b == 0x23 then Some(CHIP_ERASE)
    else if b == 0x24 then Some(CHIP_VERIFY) else if b == 0x27 then Some(PROG_MULTI)
    else if b == 0x28 then Some(READ_MULTI) else if b == 0x29 then Some(GET_CRC)
    else if b == 0x2A then Some(GET_OTP) else if b == 0x2B then Some(GET_SN)
    else if b == 0x2C then Some(GET_CHIP) else if b == 0x2D then Some(SET_BOOT_DELAY)
    else if b == 0x2E then Some(GET_CHIP_DES) else if b == 0x2F then Some(GET_WRITE_PTR)
    else if b == 0x30 then Some(REBOOT) else if b == 0x31 then Some(DEBUG)
    else if b == 0x33 then Some(SET_BAUD) else None
  }

  datatype Command = Command(op: OpCode, args: seq<byte>) {
    /** The bytes on the wire, or nothing when a variable-length argument does not fit its length byte. */
    function ToBytes(): Option<seq<byte>> {
      if op.PayloadLength() < 0 then
        if |args| > 255 then None
        else Some([op.Code(), |args| as byte] + args + [EOC_BYTE])
      else
        Some([op.Code()] + args + [EOC_BYTE])
    }
  }

  const GetSync := Command(GET_SYNC, [])

  /** The result codes a reply can carry. */
  datatype ReplyCode = Success | Failure | Invalid | BadSiliconRev {
    function Code(): byte {
      match this
      case Success => 0x10 case Failure => 0x11 case Invalid => 0x13 case BadSiliconRev => 0x14
    }
  }

  datatype Response = Response(code: ReplyCode, payload: seq<byte>) {
    function ToBytes(): seq<byte> {
      if code == Success then payload + [SYNC_BYTE, Success.Code()] else [SYNC_BYTE, code.Code()]
    }
  }

  /** A value has the length that the command announces; a variable length only has to fit its prefix. */
  ghost predicate Fits(op: OpCode, v: seq<byte>) {
    if op.ResponseLength() < 0 then |v| < 0x1_0000_0000 else |v| == op.ResponseLength()
  }

  /** The frame of a value on the wire: its length where the command says so, the value, the marker, the code. */
  function Frame(op: OpCode, v: seq<byte>): seq<byte> {
    (if op.ResponseLength() < 0 then ToLe(|v|, 4) else []) + Response(Success, v).ToBytes()
  }
}

/** The uploader's side of the bootloader protocol: a buffered parser that performs no input or output. */
module Protocol {
  import opened Bytes
  import opened Messages

  datatype State = Idle | InSync | WaitResponseLength | WaitResponse | WaitSync | Error

  /** What the parser reports. `OurTurn` stands for "send something before asking again". */
  datatype Event =
    | OurTurn
    | NeedMoreData
    | ConnectionClosed
    | ExcessData(bytes: seq<byte>)
    | Reply(response: Response)

  /** Index of the first occurrence of `b`, or -1. */
  function Find(s: seq<byte>, b: byte): (i: int)
    ensures -1 <= i < |s|
    ensures i >= 0 ==> s[i] == b && b !in s[..i]
    ensures i < 0 ==> b !in s
  {
    if s == [] then -1
    else if s[0] == b then 0
    else
      var i := Find(s[1..], b);
      assert s == [s[0]] + s[1..];
      assert i >= 0 ==> s[..i + 1] == [s[0]] + s[1..][..i];
      if i < 0 then -1 else i + 1
  }

  /** The reply codes the parser accepts after the marker; BAD_SILICON_REV is not among them. */
  function AcceptedCode(b: byte): (r: Option<ReplyCode>)
    ensures r.Some? <==> b == 0x10 || b == 0x11 || b == 0x13
    ensures r.Some? ==> r.value.Code() == b
  {
    if b == 0x10 then Some(Success) else if b == 0x11 then Some(Failure) else if b == 0x13 then Some(Invalid) else None
  }

  /** A snapshot of the parser, with every operation as a function on snapshots. */
  datatype Machine = Machine(buffer: seq<byte>, closed: bool, payload: seq<byte>, state: State, expected: nat)
  {
    /** What the parser can rely on between any two calls. */
    ghost predicate Valid() {
      && (state == WaitResponseLength ==> expected == 4)
      && (state == WaitResponse ==> expected > 0)
      && (state == WaitSync ==> expected == 2)
      && (payload != [] ==> state == Idle || state == Error || state == WaitSync)
    }

    predicate Waiting() {
      state == WaitResponseLength || state == WaitResponse || state == WaitSync
    }

    /** Everything received and not yet reported, oldest byte first. */
    function Held(): seq<byte> {
      payload + buffer
    }

    function Purged(upTo: nat): (Event, Machine)
      requires upTo <= |buffer|
    {
      if payload != [] || upTo > 0
      then (ExcessData(payload + buffer[..upTo]), this.(payload := [], buffer := buffer[upTo..]))
      else (OurTurn, this)
    }

    function AwaitingSync(): Machine {
      this.(state := WaitSync, expected := 2)
    }

    function AwaitingResponse(length: int): Machine {
      if length < 0 then this.(state := WaitResponseLength, payload := [], expected := 4)
      else if length == 0 then AwaitingSync()
      else this.(state := WaitResponse, payload := [], expected := length)
    }

    /** The search for the marker, in the state `WaitSync`. */
    function Hunted(): (Event, Machine) {
      var syncIndex := Find(buffer, SYNC_BYTE);
      if buffer == [] then (NeedMoreData, this)
      else if syncIndex > 0 then Purged(syncIndex)
      else if syncIndex < 0 then Purged(|buffer|)
      else if |buffer| < 2 then (NeedMoreData, this)
      else match AcceptedCode(buffer[1])
        case None => Purged(2)
        case Some(code) =>
          (Reply(Response(code, payload)),
           this.(buffer := buffer[2..], payload := [], state := InSync, expected := 0))
    }

    function LengthRead(): Machine {
      if state == WaitResponseLength && |buffer| >= expected
      then this.(buffer := buffer[expected..]).AwaitingResponse(FromLe(buffer[..if |buffer| > 4 then 4 else |buffer|]))
      else this
    }

    function BodyRead(): Machine {
      if state == WaitResponse && |buffer| >= expected
      then this.(payload := buffer[..expected], buffer := buffer[expected..]).AwaitingSync()
      else this
    }

    function Next(): (Event, Machine) {
      if buffer == [] && closed then (ConnectionClosed, this)
      else
        var m := LengthRead().BodyRead();
        if m.state == WaitResponseLength || m.state == WaitResponse then (NeedMoreData, m)
        else if m.state == WaitSync then m.Hunted()
        else m.Purged(|m.buffer|)
    }

    /** Feeding no bytes closes the parser; feeding some after that is an error. */
    function Fed(data: seq<byte>): Option<Machine> {
      if data == [] then Some(this.(closed := true))
      else if closed then None
      else Some(this.(buffer := buffer + data))
    }

    function Reset(): Machine {
      this.(buffer := [], closed := false, state := Idle)
    }

    function SendFailed(): Machine {
      this.(state := Error)
    }

    function Sent(command: Command): SendResult {
      if state != InSync && command.op != GET_SYNC then NeedSync
      else match command.ToBytes()
        case None => ArgumentsTooLong
        case Some(raw) => Raw(raw, AwaitingResponse(command.op.ResponseLength()))
    }
  }

  datatype SendResult = NeedSync | ArgumentsTooLong | Raw(raw: seq<byte>, machine: Machine)

  const Fresh := Machine([], false, [], Idle, 0)

  lemma LengthReadValid(m: Machine)
    requires m.Valid()
    ensures m.LengthRead().Valid()
    ensures m.LengthRead().state == WaitResponseLength ==> m.LengthRead() == m
    ensures m.LengthRead().Waiting() <==> m.Waiting()
    ensures !m.Waiting() ==> m.LengthRead() == m
  {
  }

  lemma BodyReadValid(m: Machine)
    requires m.Valid()
    ensures m.BodyRead().Valid()
    ensures m.BodyRead().Waiting() <==> m.Waiting()
    ensures !m.Waiting() ==> m.BodyRead() == m
  {
  }

  lemma HuntedValid(m: Machine)
    requires m.Valid() && m.state == WaitSync
    ensures m.Hunted().1.Valid()
  {
  }

  /** Asking for an event keeps the snapshot valid, whatever the peer has sent. */
  lemma NextValid(m: Machine)
    requires m.Valid()
    ensures m.Next().1.Valid()
  {
    LengthReadValid(m);
    BodyReadValid(m.LengthRead());
    var read := m.LengthRead().BodyRead();
    if read.state == WaitSync {
      HuntedValid(read);
    }
  }

  /** So do all the other operations. */
  lemma OthersValid(m: Machine, data: seq<byte>, command: Command)
    requires m.Valid()
    ensures m.Fed(data).Some? ==> m.Fed(data).value.Valid()
    ensures m.Reset().Valid() && m.SendFailed().Valid()
    ensures m.Sent(command).Raw? ==> m.Sent(command).machine.Valid()
  {
  }

  /** The parser as the source has it: an object whose methods update its fields. */
  class Protocol {
    var buffer: seq<byte>
    var bufferClosed: bool
    var payload: seq<byte>
    var state: State
    var bytesExpected: nat

    function Snapshot(): Machine
      reads this
    {
      Machine(buffer, bufferClosed, payload, state, bytesExpected)
    }

    constructor ()
      ensures Snapshot() == Fresh
    {
      buffer, bufferClosed, payload, state, bytesExpected := [], false, [], Idle, 0;
    }

    /** Returns whether the bytes were accepted; a closed receiver refuses them. */
    method Feed(data: seq<byte>) returns (accepted: bool)
      modifies this
      ensures accepted == old(Snapshot()).Fed(data).Some?
      ensures Snapshot() == if accepted then old(Snapshot()).Fed(data).value else old(Snapshot())
    {
      accepted := true;
      if data != [] {
        if bufferClosed {
          return false;
        }
        buffer := buffer + data;
      } else {
        bufferClosed := true;
      }
    }

    /**
     * The three parts below are one method in the source. The loop around them there never takes a second turn:
     * each branch returns.
     */
    method NextEvent() returns (event: Event)
      requires Snapshot().Valid()
      modifies this
      ensures (event, Snapshot()) == old(Snapshot()).Next()
      ensures Snapshot().Valid()
    {
      NextValid(Snapshot());
      if buffer == [] && bufferClosed {
        return ConnectionClosed;
      }
      var starved := ReadLength();
      if starved {
        return NeedMoreData;
      }
      starved := ReadBody();
      if starved {
        return NeedMoreData;
      }
      if state == WaitSync {
        event := HuntForSync();
      } else {
        event := PurgeExcessData(|buffer|);
      }
    }

    method ReadLength() returns (starved: bool)
      requires Snapshot().Valid()
      modifies this
      ensures Snapshot() == old(Snapshot()).LengthRead() && Snapshot().Valid()
      ensures starved <==> state == WaitResponseLength
    {
      LengthReadValid(Snapshot());
      if state == WaitResponseLength {
        assert bytesExpected > 0;
        if |buffer| < bytesExpected {
          return true;
        }
        var length := FromLe(buffer[..4]);
        buffer := buffer[bytesExpected..];
        StartWaitingForResponse(length);
      }
      starved := false;
    }

    method ReadBody() returns (starved: bool)
      requires Snapshot().Valid()
      modifies this
      ensures Snapshot() == old(Snapshot()).BodyRead() && Snapshot().Valid()
      ensures starved <==> state == WaitResponse
    {
      if state == WaitResponse {
        assert bytesExpected > 0;
        if |buffer| < bytesExpected {
          return true;
        }
        payload := buffer[..bytesExpected];
        buffer := buffer[bytesExpected..];
        StartWaitingForSync();
      }
      starved := false;
    }

    method HuntForSync() returns (event: Event)
      requires state == WaitSync && Snapshot().Valid()
      modifies this
      ensures (event, Snapshot()) == old(Snapshot()).Hunted()
    {
      if buffer == [] {
        return NeedMoreData;
      }
      var syncIndex := Find(buffer, SYNC_BYTE);
      if syncIndex > 0 {
        event := PurgeExcessData(syncIndex);
        return;
      } else if syncIndex < 0 {
        event := PurgeExcessData(|buffer|);
        if event == OurTurn {
          event := NeedMoreData;
        }
        return;
      }
      if |buffer| < 2 {
        return NeedMoreData;
      }
      var response := AcceptedCode(buffer[1]);
      if response == None {
        event := PurgeExcessData(2);
        return;
      }
      buffer := buffer[2..];
      event := Reply(Response(response.value, payload));
      MoveToInSyncState();
    }

    method Reset()
      modifies this
      ensures Snapshot() == old(Snapshot()).Reset()
    {
      buffer, bufferClosed, state := [], false, Idle;
    }

    method Send(command: Command) returns (result: SendResult)
      modifies this
      ensures result == old(Snapshot()).Sent(command)
      ensures Snapshot() == if result.Raw? then result.machine else old(Snapshot())
    {
      if state != InSync && command.op != GET_SYNC {
        return NeedSync;
      }
      var raw := command.ToBytes();
      if raw == None {
        return ArgumentsTooLong;
      }
      StartWaitingForResponse(command.op.ResponseLength());
      result := Raw(raw.value, Snapshot());
    }

    method SendFailed()
      modifies this
      ensures Snapshot() == old(Snapshot()).SendFailed()
    {
      state := Error;
    }

    method PurgeExcessData(upTo: nat) returns (event: Event)
      requires upTo <= |buffer|
      modifies this
      ensures (event, Snapshot()) == old(Snapshot()).Purged(upTo)
    {
      if payload != [] || upTo > 0 {
        event := ExcessData(payload + buffer[..upTo]);
        payload := [];
        buffer := buffer[upTo..];
      } else {
        event := OurTurn;
      }
    }

    method MoveToInSyncState()
      modifies this
      ensures Snapshot() == old(Snapshot()).(state := InSync, payload := [], expected := 0)
    {
      state, payload, bytesExpected := InSync, [], 0;
    }

    method StartWaitingForResponse(length: int)
      modifies this
      ensures Snapshot() == old(Snapshot()).AwaitingResponse(length)
    {
      if length < 0 {
        state, payload, bytesExpected := WaitResponseLength, [], 4;
      } else if length == 0 {
        StartWaitingForSync();
      } else {
        state, payload, bytesExpected := WaitResponse, [], length;
      }
    }

    method StartWaitingForSync()
      modifies this
      ensures Snapshot() == old(Snapshot()).AwaitingSync()
    {
      state, bytesExpected := WaitSync, 2;
    }
  }
}
