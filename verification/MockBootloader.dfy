/** The bootloader as the source has it: an object that updates its memory and its buffer in place. */
module MockBootloader {
  import opened Arithmetic
  import opened Bytes
  import opened Crc
  import opened Device
  import opened Messages

  /** What the transport will deliver. A pause is long enough for a time limit to pass. */
  datatype Arrival = Chunk(data: seq<byte>) | Pause

  /** The bytes between the pauses, beginning with `head`, however they are cut into chunks. */
  function Bursts(head: seq<byte>, incoming: seq<Arrival>): (bursts: seq<seq<byte>>)
    ensures bursts != []
    decreases |incoming|
  {
    if incoming == [] then [head]
    else match incoming[0]
      case Chunk(data) => Bursts(head + data, incoming[1..])
      case Pause => [head] + Bursts([], incoming[1..])
  }

  lemma {:induction false} BurstsGrow(more: seq<byte>, head: seq<byte>, incoming: seq<Arrival>)
    ensures Bursts(more + head, incoming) == [more + Bursts(head, incoming)[0]] + Bursts(head, incoming)[1..]
    decreases |incoming|
  {
    if incoming == [] {
      assert [more + head] + [head][1..] == [more + head];
    } else if incoming[0].Chunk? {
      BurstsGrow(more, head + incoming[0].data, incoming[1..]);
      assert more + (head + incoming[0].data) == (more + head) + incoming[0].data;
    } else {
      assert ([head] + Bursts([], incoming[1..]))[1..] == Bursts([], incoming[1..]);
    }
  }

  /** Chunks that arrive one right after the other. */
  function Prompt(chunks: seq<seq<byte>>): (arrivals: seq<Arrival>)
    ensures |arrivals| == |chunks|
  {
    seq(|chunks|, i requires 0 <= i < |chunks| => Chunk(chunks[i]))
  }

  lemma {:induction false} PromptChunks(head: seq<byte>, chunks: seq<seq<byte>>)
    ensures Bursts(head, Prompt(chunks)) == [head + Flatten(chunks)]
    decreases |chunks|
  {
    if chunks == [] {
      assert head + [] == head;
    } else {
      assert Prompt(chunks)[1..] == Prompt(chunks[1..]);
      PromptChunks(head + chunks[0], chunks[1..]);
      assert head + (chunks[0] + Flatten(chunks[1..])) == (head + chunks[0]) + Flatten(chunks[1..]);
    }
  }

  /** However the stream is cut into chunks, exactly the well-formed commands in it are handled, in order. */
  lemma CommandsSurviveChunking(d: State, items: seq<Item>, tail: seq<byte>, chunks: seq<seq<byte>>)
    requires |d.flash| > 0
    requires forall i :: 0 <= i < |items| ==> Noise(items[i].noise) && WellFormed(items[i].command)
    requires Noise(tail) && Flatten(chunks) == Wire(items) + tail
    ensures Serve(d, Bursts([], Prompt(chunks))) == HandleAll(d, Commands(items))
  {
    hide Serve, Wire, HandleAll;
    PromptChunks([], chunks);
    assert [] + Flatten(chunks) == Flatten(chunks);
    CommandsSurvive(d, items, tail);
  }

  /** The stream after its first `count` bytes have been taken out of the buffer. */
  function Taken(bursts: seq<seq<byte>>, count: nat): seq<seq<byte>>
    requires bursts != [] && count <= |bursts[0]|
  {
    [bursts[0][count..]] + bursts[1..]
  }

  lemma TakeFromBuffer(buffer: seq<byte>, incoming: seq<Arrival>, count: nat)
    requires count <= |buffer|
    ensures var bursts := Bursts(buffer, incoming);
            && count <= |bursts[0]| && bursts[0][..count] == buffer[..count]
            && Bursts(buffer[count..], incoming) == Taken(bursts, count)
  {
    BurstsGrow(buffer[..count], buffer[count..], incoming);
    assert buffer == buffer[..count] + buffer[count..];
    var rest := Bursts(buffer[count..], incoming);
    assert ([buffer[..count] + rest[0]] + rest[1..])[1..] == rest[1..];
    assert (buffer[..count] + rest[0])[count..] == rest[0];
    assert rest == [rest[0]] + rest[1..];
  }

  /** The stream after waiting in vain for the rest of a burst: the pause is over. */
  function Expired(bursts: seq<seq<byte>>): seq<seq<byte>>
    requires bursts != []
  {
    if |bursts| == 1 then bursts else [bursts[0] + bursts[1]] + bursts[2..]
  }

  lemma PauseExpires(buffer: seq<byte>, incoming: seq<Arrival>)
    requires incoming != [] && incoming[0].Pause?
    ensures Bursts(buffer, incoming)[0] == buffer
    ensures Bursts(buffer, incoming[1..]) == Expired(Bursts(buffer, incoming))
  {
    BurstsGrow(buffer, [], incoming[1..]);
    assert buffer + [] == buffer;
    var later := Bursts([], incoming[1..]);
    assert ([buffer] + later)[2..] == later[1..];
  }

  lemma DropEmpty(incoming: seq<Arrival>)
    requires incoming != [] && incoming[0].Pause?
    ensures Receive(Bursts([], incoming)) == Receive(Bursts([], incoming[1..]))
  {
    assert ([[]] + Bursts([], incoming[1..]))[1..] == Bursts([], incoming[1..]);
  }

  /** Data that does not fit before the end is written in two parts, and the pointer goes to the start in between. */
  lemma WrittenInTwoParts(d: State, data: seq<byte>, cut: nat)
    requires 0 < |d.flash| < d.ptr + |data| && data != []
    requires cut == if d.ptr <= |d.flash| then |d.flash| - d.ptr else 0
    ensures cut <= |data|
    ensures Written(Written(d, data[..cut]).(ptr := 0), data[cut..]) == Written(d, data)
  {
    var size := |d.flash|;
    if d.ptr > size {
      assert data[0..] == data;
    } else {
      RingWrittenConcat(d.flash, d.ptr, data[..cut], data[cut..]);
      assert data == data[..cut] + data[cut..];
      RingWrittenPeriodic(RingWritten(d.flash, d.ptr, data[..cut]), 0, data[cut..]);
      ModuloPeriod(|data| - cut - 1, size);
      assert d.ptr + |data| - 1 == |data| - cut - 1 + size;
    }
  }

  lemma WrittenAtOnce(d: State, data: seq<byte>)
    requires data != [] && d.ptr + |data| <= |d.flash|
    ensures Written(d, data) ==
            d.(flash := d.flash[..d.ptr] + data + d.flash[d.ptr + |data|..], ptr := d.ptr + |data|)
  {
    WrittenInside(d, data);
  }

  /** Everything that will have been sent back at the end, and the device then. */
  function Final(sent: seq<byte>, d: State, bursts: seq<seq<byte>>): (seq<byte>, State)
    requires |d.flash| > 0
  {
    (sent + Serve(d, bursts).0, Serve(d, bursts).1)
  }

  ghost predicate Answered(d: State, received: Received, response: Handled, next: State)
    requires |d.flash| > 0
  {
    (response, next) == if received.Complete? then Handle(d, received.command) else (Refused, d)
  }

  lemma ServeStep(sent: seq<byte>, d: State, bursts: seq<seq<byte>>, response: Handled, next: State)
    requires |d.flash| > 0 && |next.flash| > 0 && !d.exiting && !Receive(bursts).0.Waiting?
    requires Answered(d, Receive(bursts).0, response, next)
    ensures Final(sent + response.Reply(), next, Receive(bursts).1) == Final(sent, d, bursts)
  {
    hide Handle, Receive;
    var later := Serve(next, Receive(bursts).1);
    assert Serve(d, bursts) == (response.Reply() + later.0, later.1);
    assert sent + (response.Reply() + later.0) == (sent + response.Reply()) + later.0;
  }

  lemma ServeEnds(sent: seq<byte>, d: State, bursts: seq<seq<byte>>)
    requires |d.flash| > 0 && (d.exiting || Receive(bursts).0.Waiting?)
    ensures Final(sent, d, bursts) == (sent, d)
  {
    assert sent + [] == sent;
  }

  lemma ExpiredSettles(bursts: seq<seq<byte>>)
    requires bursts != []
    ensures Settle(CutShort(bursts[0]), bursts[1..]) == (Overdue, Expired(bursts))
  {
    if |bursts| > 1 {
      assert bursts[1..][1..] == bursts[2..];
    } else {
      assert bursts == [bursts[0]] && bursts[1..] == [];
    }
  }

  class MockBootloader {
    var buffer: seq<byte>
    var incoming: seq<Arrival>
    var sent: seq<byte>
    var flash: array<byte>
    var writePtr: nat
    var shouldExit: bool
    const revision: nat

    function Snapshot(): State
      reads `flash, `writePtr, `shouldExit, flash
    {
      State(flash[..], writePtr, shouldExit, revision)
    }

    function Stream(): seq<seq<byte>>
      reads `buffer, `incoming
    {
      Bursts(buffer, incoming)
    }

    constructor (incoming: seq<Arrival>, flashSize: nat := 2080768, revision: nat := 5)
      ensures fresh(flash) && sent == []
      ensures Snapshot() == State(Fill(0xFF, flashSize), 0, false, revision)
      ensures Stream() == Bursts([], incoming)
    {
      this.buffer, this.incoming, this.sent := [], incoming, [];
      this.flash := new byte[flashSize](_ => 0xFF);
      this.writePtr, this.shouldExit, this.revision := 0, false, revision;
      new;
      assert flash[..] == Fill(0xFF, flashSize);
    }

    /** Handles commands until the device exits or nothing more comes. */
    method Run()
      requires flash.Length > 0
      modifies this, flash
      ensures (sent, Snapshot()) == Final(old(sent), old(Snapshot()), old(Stream()))
      ensures flash == old(flash) || fresh(flash)
    {
      while !shouldExit
        invariant flash.Length > 0 && (flash == old(flash) || fresh(flash))
        invariant Final(sent, Snapshot(), Stream()) == Final(old(sent), old(Snapshot()), old(Stream()))
        decreases |Flatten(Stream())|
      {
        ghost var before, stream := Snapshot(), Stream();
        ReceiveShrinks(stream);
        var received := ReceiveNextCommand();
        if received.Waiting? {
          ServeEnds(sent, before, stream);
          return;
        }
        var response := Respond(received);
        ServeStep(sent, before, stream, response, Snapshot());
        sent := sent + response.Reply();
      }
      ServeEnds(sent, Snapshot(), Stream());
    }

    method Respond(received: Received) returns (response: Handled)
      requires flash.Length > 0
      modifies `flash, `writePtr, `shouldExit, flash
      ensures Answered(old(Snapshot()), received, response, Snapshot())
      ensures flash == old(flash) || fresh(flash)
      ensures flash.Length == old(flash.Length)
    {
      response := Refused;
      if received.Complete? {
        response := HandleCommand(received.command);
      }
    }

    /** The outcome stands for the returned payload or for the exception. */
    method HandleCommand(command: Command) returns (handled: Handled)
      requires flash.Length > 0
      modifies `flash, `writePtr, `shouldExit, flash
      ensures (handled, Snapshot()) == Handle(old(Snapshot()), command)
      ensures flash == old(flash) || fresh(flash)
      ensures flash.Length == old(flash.Length)
    {
      match command.op {
        case GET_SYNC => return Payload([]);
        case GET_DEVICE =>
          if command.args == [] {
            return Failed;
          }
          var item := command.args[0];
          if item == 1 {
            return Word4(revision);
          } else if item == 2 {
            return Word4(9);
          } else if item == 3 {
            return Word4(0);
          } else if item == 4 {
            return Word4(flash.Length);
          } else {
            return Failed;
          }
        case GET_CHIP => return Payload([9]);
        case GET_CHIP_DES => return Payload(ToLe(|CHIP_DESCRIPTION|, 4) + CHIP_DESCRIPTION);
        case GET_OTP => return Payload([0xFF, 0xFF, 0xFF, 0xFF]);
        case GET_SN =>
          if |command.args| != 4 {
            return Refused;
          }
          return Payload(SerialWord(FromLe(command.args)));
        case CHIP_ERASE =>
          flash := new byte[flash.Length](_ => 0xFF);
          assert flash[..] == Fill(0xFF, flash.Length);
          writePtr := 0;
          return Payload([]);
        case PROG_MULTI =>
          WriteToFlashMemory(command.args);
          return Payload([]);
        case GET_CRC =>
          var crc := ComputeCrc32(flash[..]);
          return Word4(crc as int);
        case GET_WRITE_PTR => return Word4(writePtr);
        case REBOOT =>
          shouldExit := true;
          return Payload([]);
        case _ => return Refused;
      }
    }

    /** Writes at the write pointer and advances it, around the ring where necessary. */
    method WriteToFlashMemory(data: seq<byte>)
      requires flash.Length > 0
      modifies `writePtr, flash
      ensures Snapshot() == Written(old(Snapshot()), data)
      decreases |data|, writePtr
    {
      if data == [] {
        return;
      }
      ghost var before := Snapshot();
      var start, end := writePtr, writePtr + |data|;
      var excess := end - flash.Length;
      if excess <= 0 {
        WrittenAtOnce(before, data);
        forall i | 0 <= i < |data| {
          flash[start + i] := data[i];
        }
        writePtr := end;
        assert flash[..] == before.flash[..start] + data + before.flash[end..];
      } else {
        var cut := if excess >= |data| then 0 else |data| - excess;
        WrittenInTwoParts(before, data, cut);
        WriteToFlashMemory(data[..cut]);
        writePtr := 0;
        WriteToFlashMemory(data[cut..]);
      }
    }

    /** Waits for a command byte, however long it takes, and then for the rest of the command, for a limited time. */
    method ReceiveNextCommand() returns (received: Received)
      modifies `buffer, `incoming
      ensures received == Receive(old(Stream())).0
      ensures !received.Waiting? ==> Stream() == Receive(old(Stream())).1
    {
      while true
        invariant Receive(Stream()) == Receive(old(Stream()))
        decreases |Flatten(Stream())|
      {
        var first := ReadCommandByte();
        if first == None {
          return Waiting;
        }
        ghost var rest := Stream();
        if StartsCommand(first.value) {
          received := ReadRest(OpCodeOf(first.value).value);
          return;
        }
      }
    }

    /** Without a time limit, pauses are waited out. The stream may end, in the source the wait goes on forever. */
    method ReadCommandByte() returns (b: Option<byte>)
      modifies `buffer, `incoming
      ensures b == None ==> Receive(old(Stream())).0.Waiting?
      ensures b.Some? ==>
                && |Flatten(Stream())| < |Flatten(old(Stream()))|
                && Receive(old(Stream())) == if StartsCommand(b.value)
                     then Settle(ParseRest(OpCodeOf(b.value).value, Stream()[0]), Stream()[1..])
                     else Receive(Stream())
    {
      while buffer == []
        invariant Receive(Stream()) == Receive(old(Stream()))
        invariant |Flatten(Stream())| <= |Flatten(old(Stream()))|
        decreases |incoming|
      {
        if incoming == [] {
          return None;
        }
        match incoming[0] {
          case Chunk(data) => buffer := buffer + data;
          case Pause => DropEmpty(incoming);
        }
        incoming := incoming[1..];
      }
      TakeFromBuffer(buffer, incoming, 1);
      ghost var before := Stream();
      b := Some(buffer[0]);
      buffer := buffer[1..];
      assert Stream() == Taken(before, 1);
      assert before[0][0] == b.value;
    }

    /** Reads under a time limit; nothing is taken when the time runs out. */
    method ReadExactly(length: nat) returns (data: Option<seq<byte>>)
      modifies `buffer, `incoming
      ensures var before := old(Stream());
              if |before[0]| >= length
              then data == Some(before[0][..length]) && Stream() == Taken(before, length)
              else data == None && Stream() == Expired(before)
    {
      while |buffer| < length
        invariant Stream() == old(Stream())
        decreases |incoming|
      {
        if incoming == [] {
          return None;
        }
        match incoming[0] {
          case Chunk(chunk) =>
            buffer := buffer + chunk;
            incoming := incoming[1..];
          case Pause =>
            PauseExpires(buffer, incoming);
            incoming := incoming[1..];
            return None;
        }
      }
      TakeFromBuffer(buffer, incoming, length);
      data := Some(buffer[..length]);
      buffer := buffer[length..];
    }

    method ReadRest(op: OpCode) returns (received: Received)
      modifies `buffer, `incoming
      ensures (received, Stream()) == Settle(ParseRest(op, old(Stream())[0]), old(Stream())[1..])
    {
      var length: nat;
      if op.PayloadLength() < 0 {
        ExpiredSettles(Stream());
        var prefix := ReadExactly(1);
        if prefix == None {
          return Overdue;
        }
        length := prefix.value[0] as nat;
      } else {
        length := op.PayloadLength();
      }
      received := ReadArguments(op, length);
    }

    method ReadArguments(op: OpCode, length: nat) returns (received: Received)
      modifies `buffer, `incoming
      ensures (received, Stream()) == Settle(ParseBody(op, length, old(Stream())[0]), old(Stream())[1..])
    {
      var payload := [];
      if length > 0 {
        ExpiredSettles(Stream());
        var data := ReadExactly(length);
        if data == None {
          return Overdue;
        }
        payload := data.value;
      }
      ExpiredSettles(Stream());
      var last := ReadExactly(1);
      if last == None {
        return Overdue;
      }
      received := if last.value[0] == EOC_BYTE then Complete(Command(op, payload)) else Malformed;
    }
  }
}
