/**
 * A call composed with the device at the other end, over a channel that keeps the order of the bytes, cuts
 * them into arbitrary pieces, and may lose whole commands and whole replies.
 */
module Rpc {
  import opened Bytes
  import opened Messages
  import opened Protocol
  import opened Conservation
  import opened Segmentation
  import opened Connection
  import CallGuarantees
  import Crc
  import Device

  /** What happens to one transmission; without an entry in the list of fates it is delivered and answered. */
  datatype Fate = Delivered | CommandLost | ReplyLost

  /**
   * `pending` is on its way back; `cuts` says how long the pieces are that it arrives in. `programs` counts the
   * PROG_MULTI commands that have been transmitted, whether they arrive or not.
   */
  datatype Link =
    Link(device: Device.State, pending: seq<byte>, fates: seq<Fate>, cuts: seq<nat>, programs: nat)

  /** A device that has left the bootloader, or has no memory at all, does not listen. */
  function NextFate(link: Link): Fate {
    if link.device.exiting || link.device.flash == [] then CommandLost
    else FirstOf(link.fates)
  }

  function FirstOf(fates: seq<Fate>): Fate {
    if fates == [] then Delivered else fates[0]
  }

  function RestOf(fates: seq<Fate>): seq<Fate> {
    if fates == [] then [] else fates[1..]
  }

  function Send(link: Link, raw: seq<byte>): (bool, Link) {
    var rest := RestOf(link.fates);
    var programs := if raw != [] && raw[0] == PROG_MULTI.Code() then link.programs + 1 else link.programs;
    if NextFate(link) == CommandLost then (true, link.(fates := rest, programs := programs))
    else
      var (replies, device) := Device.Serve(link.device, [raw]);
      var back := if NextFate(link) == ReplyLost then [] else replies;
      (true, Link(device, link.pending + back, rest, link.cuts, programs))
  }

  /** Something pending arrives before any time limit; otherwise nothing ever does. */
  function Receive(link: Link): (Receipt, Link) {
    if link.pending == [] then (Late, link)
    else
      var n := PieceLength(link);
      var rest := if link.cuts == [] then [] else link.cuts[1..];
      (Arrived(link.pending[0], link.pending[1..n]), link.(pending := link.pending[n..], cuts := rest))
  }

  function PieceLength(link: Link): (n: nat)
    requires link.pending != []
    ensures 1 <= n <= |link.pending|
  {
    if link.cuts == [] || link.cuts[0] > |link.pending| then |link.pending|
    else if link.cuts[0] == 0 then 1
    else link.cuts[0]
  }

  const Channel: Peer<Link> := Peer(Send, Receive)

  // ---- what the parser makes of the reply ----

  /** The value inside the payload: a device that announces a length sends it as part of the payload. */
  function Value(op: OpCode, payload: seq<byte>): seq<byte> {
    if op.ResponseLength() < 0 && |payload| >= 4 then payload[4..] else payload
  }

  /** The reply that the parser sees, or none when it waits for more than the device sends. */
  function Reaction(d: Device.State, c: Command): Option<Response>
    requires |d.flash| > 0
  {
    match Device.Handle(d, c).0
    case Payload(bytes) => if c.op == GET_CHIP then None else Some(Response(Success, Value(c.op, bytes)))
    case Refused => if c.op.ResponseLength() == 0 then Some(Response(Invalid, [])) else None
    case Failed => if c.op.ResponseLength() == 0 then Some(Response(Failure, [])) else None
  }

  function Expected(d: Device.State, c: Command): Outcome
    requires |d.flash| > 0
  {
    OutcomeOf(Reaction(d, c))
  }

  function OutcomeOf(reaction: Option<Response>): Outcome {
    match reaction
    case None => TimedOut
    case Some(r) => if r.code == Success then Returned(r.payload) else Outcome.Refused(r.code)
  }

  /** The automaton still waits, without a payload. */
  predicate Unfinished(a: Scan) {
    a.Length? || a.Body? || a == Marker([])
  }

  ghost predicate Understood(op: OpCode, reply: seq<byte>, reaction: Option<Response>) {
    match reaction
    case Some(r) => Output(Start(op), reply) == [Answer(r)]
    case None => Output(Start(op), reply) == [] && Unfinished(End(Start(op), reply))
  }

  lemma PayloadFits(d: Device.State, c: Command)
    requires |d.flash| > 0 && Device.WellFormed(c) && c.op != GET_CHIP && Device.Handle(d, c).0.Payload?
    ensures var bytes := Device.Handle(d, c).0.bytes;
            var v := Value(c.op, bytes);
            Fits(c.op, v) && Frame(c.op, v) == Response(Success, bytes).ToBytes()
  {
    var bytes := Device.Handle(d, c).0.bytes;
    if c.op == GET_CHIP_DES {
      var v, prefix := Device.CHIP_DESCRIPTION, ToLe(|Device.CHIP_DESCRIPTION|, 4);
      assert bytes == prefix + v && bytes[4..] == v;
      assert prefix + (v + [SYNC_BYTE, Success.Code()]) == bytes + [SYNC_BYTE, Success.Code()];
    } else if c.op == GET_SN {
      SerialWordLength(FromLe(c.args));
    } else {
      assert c.op.ResponseLength() >= 0;
    }
  }

  lemma {:induction false} ReversedLength(s: seq<byte>)
    ensures |Device.Reversed(s)| == |s|
  {
    if s != [] {
      ReversedLength(s[1..]);
    }
  }

  lemma SerialWordLength(address: nat)
    ensures |Device.SerialWord(address)| == 4
  {
    var rest := if address > |Device.SERIAL_NUMBER| then [] else Device.SERIAL_NUMBER[address..];
    var word := if |rest| > 4 then rest[..4] else rest;
    ReversedLength(word + Fill(0, 4 - |word|));
  }

  lemma ErrorUnderstood(op: OpCode, code: ReplyCode)
    requires code == Invalid || code == Failure
    ensures Understood(op, Response(code, []).ToBytes(),
              if op.ResponseLength() == 0 then Some(Response(code, [])) else None)
  {
    hide Output, End;
    var reply := [SYNC_BYTE, code.Code()];
    assert Response(code, []).ToBytes() == reply;
    if op.ResponseLength() == 0 {
      RunMarked([], reply);
      NoStep(Rest(InSync));
      assert reply[2..] == [];
    } else if op.ResponseLength() > 0 {
      RunBody(4, [], reply);
    } else {
      RunLength([], reply);
    }
  }

  lemma ChipUnderstood()
    ensures Understood(GET_CHIP, Response(Success, [9]).ToBytes(), None)
  {
    hide Output, End;
    RunBody(4, [], [9, SYNC_BYTE, Success.Code()]);
    assert [9] + [SYNC_BYTE, Success.Code()] == [9, SYNC_BYTE, Success.Code()];
  }

  lemma ReplyUnderstood(d: Device.State, c: Command)
    requires |d.flash| > 0 && Device.WellFormed(c)
    ensures Understood(c.op, Device.Handle(d, c).0.Reply(), Reaction(d, c))
  {
    match Device.Handle(d, c).0 {
      case Payload(bytes) =>
        if c.op == GET_CHIP {
          ChipUnderstood();
        } else {
          PayloadFits(d, c);
          FrameIsAnswer(c.op, Value(c.op, bytes));
        }
      case Refused => ErrorUnderstood(c.op, Invalid);
      case Failed => ErrorUnderstood(c.op, Failure);
    }
  }

  // ---- waiting for what is pending ----

  /** In sync, and holding nothing. */
  const Ready := Machine([], false, [], InSync, 0)

  /** Waiting for nothing, and holding nothing. */
  ghost predicate Rested(m: Machine) {
    m.Valid() && !m.closed && !m.Waiting() && m.payload == [] && m.buffer == []
  }

  /** The automaton's output for everything received and everything pending. */
  function Total(m: Machine, pending: seq<byte>): seq<Atom> {
    Ahead(m) + Output(Place(m), pending)
  }

  lemma ReadyForAnything(s: seq<byte>)
    requires Output(Rest(InSync), s) == []
    ensures s == []
  {
    RunRest(InSync, s);
  }

  lemma AnswerKeeps(m: Machine)
    requires m.Valid() && !m.closed && m.state == WaitSync && m.Hunted().0.Reply?
    ensures m.Hunted().1 == Ready.(buffer := m.Hunted().1.buffer)
  {
  }

  lemma AnsweredIsReady(m: Machine, response: Response, pending: seq<byte>)
    requires Clean(m) && m.Waiting() && m.Next().0.Reply?
    requires Total(m, pending) == [Answer(response)]
    ensures m.Next() == (Reply(response), Ready) && pending == []
  {
    NextRefines(m);
    CallGuarantees.NextReply(m);
    var (e, m') := m.Next();
    AnswerKeeps(m.LengthRead().BodyRead());
    var front, back := Ahead(m'), Output(Place(m'), pending);
    assert [Answer(e.response)] + front + back == [Answer(response)];
    assert |front| + |back| == 0 && ([Answer(e.response)] + front + back)[0] == Answer(e.response);
    ReadyForAnything(m'.buffer);
    ReadyForAnything(pending);
  }

  lemma NoStrays(m: Machine, rest: seq<Atom>)
    requires Clean(m) && m.Next().0.ExcessData?
    ensures Ahead(m) + rest != [] && (Ahead(m) + rest)[0].Stray?
  {
    NextRefines(m);
    NextShrinks(m);
    var bytes := m.Next().0.bytes;
    assert Strays(bytes)[0] == Stray(bytes[0]);
  }

  /** Receiving one more piece leaves the total as it is. */
  lemma PieceFits(m: Machine, link: Link)
    requires Clean(m) && Ahead(m) == [] && link.pending != []
    ensures var n := PieceLength(link);
            var fed := m.Fed(link.pending[..n]);
            && fed.Some? && Clean(fed.value)
            && Ahead(fed.value) == Output(Place(m), link.pending[..n])
            && Place(fed.value) == End(Place(m), link.pending[..n])
            && Total(fed.value, link.pending[n..]) == Total(m, link.pending)
            && End(Place(fed.value), link.pending[n..]) == End(Place(m), link.pending)
            && (m.Waiting() ==> fed.value.Waiting())
    ensures var receipt := Receive(link).0;
            receipt.Arrived? && [receipt.first] + receipt.rest == link.pending[..PieceLength(link)]
  {
    var n := PieceLength(link);
    FedRefines(m, link.pending[..n]);
    assert link.pending == link.pending[..n] + link.pending[n..];
    RunConcat(Place(m), link.pending[..n], link.pending[n..]);
    assert link.pending[..n] == [link.pending[0]] + link.pending[1..n];
  }

  /** What the call looks like after it has read everything that was pending, with the parser as `m`. */
  ghost predicate Drained(before: Link, after: Link) {
    && after.device == before.device && after.fates == before.fates && after.pending == []
    && after.programs == before.programs
  }

  /** The call goes on from another point of the loop. */
  ghost predicate LeadsTo(command: Command, call: Call, link: Link, call': Call, link': Link)
    requires call.Valid()
  {
    call'.Valid() && Run(command, Channel, call, link) == Run(command, Channel, call', link')
  }

  /** The call comes to its end. */
  ghost predicate EndsWith(command: Command, call: Call, link: Link, outcome: Outcome, last: Call, link': Link)
    requires call.Valid()
  {
    Run(command, Channel, call, link) == (outcome, last, link')
  }

  /** The reply to the command, or an error, ends the call; the reply to GET_SYNC does not. */
  ghost predicate Concluded(command: Command, call: Call, link: Link, sent: bool, response: Response,
                            last: Call, link': Link)
    requires call.Valid()
  {
    && last == Call(Ready, sent, call.retries, last.log)
    && if sent || response.code != Success
       then EndsWith(command, call, link, OutcomeOf(Some(response)), last, link')
       else LeadsTo(command, call, link, last, link')
  }

  /** Without a reply the call gives up, or starts over with one retry less. */
  ghost predicate GaveUp(command: Command, call: Call, link: Link, last: Call, link': Link)
    requires call.Valid()
  {
    && last.Valid() && Rested(last.m) && last.m.state == Idle
    && if call.retries == 0
       then EndsWith(command, call, link, TimedOut, last, link')
       else last.retries == call.retries - 1 && LeadsTo(command, call, link, last, link')
  }

  /** Some pending bytes have moved into the parser; what they will amount to is the same. */
  ghost predicate Moved(call: Call, link: Link, call': Call, link': Link)
    requires link.pending != []
  {
    var piece := link.pending[..PieceLength(link)];
    && link' == Receive(link).1
    && Clean(call'.m) && call'.m.Waiting() && call'.sent == call.sent && call'.retries == call.retries
    && Ahead(call'.m) == Output(Place(call.m), piece) && Place(call'.m) == End(Place(call.m), piece)
    && Total(call'.m, link'.pending) == Total(call.m, link.pending)
    && End(Place(call'.m), link'.pending) == End(Place(call.m), link.pending)
    && |link'.pending| < |link.pending| && link'.device == link.device && link'.fates == link.fates
    && link'.programs == link.programs
  }

  /** One turn of the loop while the parser asks for more and something is pending. */
  lemma ReceiveTurn(command: Command, call: Call, link: Link) returns (call': Call, link': Link)
    requires call.Valid() && Clean(call.m) && call.m.Waiting() && call.m.Next().0 == NeedMoreData && link.pending != []
    ensures LeadsTo(command, call, link, call', link') && Moved(call, link, call', link')
  {
    hide Output, End;
    var m := call.m.Next().1;
    NextRefines(call.m);
    NextFollows(call);
    PieceFits(m, link);
    IterateProgress(command, Channel, call, link);
    var data := link.pending[..PieceLength(link)];
    call' := call.(m := m.Fed(data).value, log := call.log + [Rx(data)]);
    link' := Receive(link).1;
    assert Iterate(command, Channel, call, link) == Again(call', link');
    assert [] + Output(Place(m), link.pending) == Total(call.m, link.pending);
  }

  /** A complete reply is awaited, whatever the pieces: an error ends the call, as does the reply to the command. */
  lemma {:induction false} ReplyArrives(command: Command, call: Call, link: Link, response: Response)
    returns (last: Call, link': Link)
    requires call.Valid() && Clean(call.m) && call.m.Waiting()
    requires Total(call.m, link.pending) == [Answer(response)]
    ensures Concluded(command, call, link, call.sent, response, last, link') && Drained(link, link')
    decreases |link.pending|
  {
    hide Output, End;
    NextRefines(call.m);
    NextFollows(call);
    match call.m.Next().0 {
      case NeedMoreData =>
        NoStep(Place(call.m));
        var call', next := ReceiveTurn(command, call, link);
        last, link' := ReplyArrives(command, call', next, response);
      case Reply(_) =>
        AnsweredIsReady(call.m, response, link.pending);
        IterateProgress(command, Channel, call, link);
        last, link' := call.(m := Ready), link;
      case _ =>
        NoStrays(call.m, Output(Place(call.m), link.pending));
        assert false;
    }
  }

  lemma HuntStarves(m: Machine)
    requires m.Valid() && m.state == WaitSync && m.Hunted().0 == NeedMoreData
    ensures m.Hunted().1 == m && (m.buffer == [] || m.buffer == [SYNC_BYTE])
    ensures Place(m) == if m.buffer == [] then Marker(m.payload) else Result(m.payload)
  {
    if m.buffer != [] {
      assert m.buffer == [SYNC_BYTE] && m.buffer[1..] == [];
      assert Step(Marker(m.payload), m.buffer[0]) == ([], Result(m.payload));
      assert End(Marker(m.payload), m.buffer) == End(Result(m.payload), m.buffer[1..]);
    }
  }

  /** A call that gives up waiting without any payload holds nothing afterwards. */
  lemma StarvedIsRested(m: Machine)
    requires Clean(m) && m.Waiting() && m.Next().0 == NeedMoreData && Unfinished(Place(m))
    ensures Rested(m.Next().1.Reset()) && m.Next().1.Reset().state == Idle
  {
    NextRefines(m);
    LengthReadValid(m);
    BodyReadValid(m.LengthRead());
    var read := m.LengthRead().BodyRead();
    if read.state == WaitSync {
      HuntStarves(read);
    }
  }

  lemma TimeRunsOut(command: Command, call: Call, link: Link) returns (last: Call)
    requires call.Valid() && Clean(call.m) && call.m.Waiting() && call.m.Next().0 == NeedMoreData
    requires link.pending == [] && Unfinished(Place(call.m))
    ensures GaveUp(command, call, link, last, link)
  {
    StarvedIsRested(call.m);
    IterateProgress(command, Channel, call, link);
    var m := call.m.Next().1;
    var retries := if call.retries == 0 then 0 else call.retries - 1;
    last := Call(m.Reset(), call.sent, retries, call.log + [RxLate]);
    assert Respond(command, Channel, call, NeedMoreData, m, link) ==
           if call.retries == 0 then Finished(TimedOut, last, link) else Again(last, link);
  }

  lemma OnlyStarves(m: Machine, pending: seq<byte>)
    requires Clean(m) && m.Waiting() && Total(m, pending) == []
    ensures m.Next().0 == NeedMoreData
  {
    NextRefines(m);
    NextFollows(Call(m, false, 0, []));
    if m.Next().0.ExcessData? {
      NoStrays(m, Output(Place(m), pending));
    }
  }

  /** Nothing complete is awaited: the time limit passes, and the call gives up or starts over. */
  lemma {:induction false} NothingArrives(command: Command, call: Call, link: Link) returns (last: Call, link': Link)
    requires call.Valid() && Clean(call.m) && call.m.Waiting()
    requires Total(call.m, link.pending) == [] && Unfinished(End(Place(call.m), link.pending))
    ensures GaveUp(command, call, link, last, link') && Drained(link, link')
    decreases |link.pending|
  {
    hide Output, End, Run;
    OnlyStarves(call.m, link.pending);
    if link.pending == [] {
      NoStep(Place(call.m));
      last := TimeRunsOut(command, call, link);
      link' := link;
    } else {
      var call', next := ReceiveTurn(command, call, link);
      last, link' := NothingArrives(command, call', next);
    }
  }

  // ---- one attempt ----

  /** The device after one transmission. */
  function Reached(link: Link, c: Command): Device.State {
    if NextFate(link) == CommandLost || link.device.flash == [] then link.device else Device.Handle(link.device, c).1
  }

  /** What comes back after one transmission. */
  function Answered(link: Link, c: Command): seq<byte> {
    if NextFate(link) == Delivered && link.device.flash != [] then Device.Handle(link.device, c).0.Reply() else []
  }

  /** Transmissions of PROG_MULTI, after this one. */
  function Counted(link: Link, c: Command): nat {
    if c.op == PROG_MULTI then link.programs + 1 else link.programs
  }

  lemma SendReaches(link: Link, c: Command)
    requires Device.WellFormed(c)
    ensures c.ToBytes().Some?
    ensures Send(link, c.ToBytes().value) ==
            (true, Link(Reached(link, c), link.pending + Answered(link, c), RestOf(link.fates), link.cuts,
                        Counted(link, c)))
  {
    var raw := c.ToBytes().value;
    assert OpCodeOf(raw[0]) == Some(c.op) && OpCodeOf(PROG_MULTI.Code()) == Some(PROG_MULTI);
    if NextFate(link) == CommandLost {
      assert link.pending + [] == link.pending;
    } else {
      Device.OneCommand(link.device, c);
    }
  }

  /** What the call transmits when it is its turn. */
  function Outgoing(command: Command, m: Machine): Command {
    if m.state == InSync then command else GetSync
  }

  lemma SentIsAwaited(m: Machine, c: Command)
    requires Rested(m) && Device.WellFormed(c) && (m.state == InSync || c == GetSync)
    ensures m.Sent(c).Raw? && m.Sent(c).raw == c.ToBytes().value
    ensures var m' := m.Sent(c).machine;
            && Clean(m') && m'.Waiting() && Ahead(m') == [] && Place(m') == Start(c.op)
  {
    ReadyAfterSending(m, c);
  }

  /** A command has been transmitted, and its reply is awaited behind whatever was pending before. */
  ghost predicate Transmitted(c: Command, call: Call, link: Link, call': Call, link': Link) {
    && link' == Link(Reached(link, c), link.pending + Answered(link, c), RestOf(link.fates), link.cuts,
                     Counted(link, c))
    && call'.sent == (call.m.state == InSync) && call'.retries == call.retries
    && Clean(call'.m) && call'.m.Waiting() && Ahead(call'.m) == [] && Place(call'.m) == Start(c.op)
    && Total(call'.m, link'.pending) == Output(Start(c.op), link'.pending)
  }

  /** A turn of the loop that transmits. */
  lemma SendTurn(command: Command, call: Call, link: Link) returns (call': Call, link': Link)
    requires Device.WellFormed(command) && Rested(call.m) && call.Valid()
    ensures LeadsTo(command, call, link, call', link')
    ensures Transmitted(Outgoing(command, call.m), call, link, call', link')
  {
    hide Device.Handle, Output, End;
    var c := Outgoing(command, call.m);
    SendReaches(link, c);
    SentIsAwaited(call.m, c);
    IterateProgress(command, Channel, call, link);
    assert call.m.Next() == (OurTurn, call.m);
    link' := Send(link, c.ToBytes().value).1;
    call' := Call(call.m.Sent(c).machine, call.m.state == InSync, call.retries,
                  call.log + [Tx(c.ToBytes().value, call.m.state == InSync, true)]);
    assert Iterate(command, Channel, call, link) == Again(call', link');
    assert [] + Output(Start(c.op), link'.pending) == Output(Start(c.op), link'.pending);
  }

  function Heard(link: Link, c: Command): Option<Response> {
    if NextFate(link) == Delivered && link.device.flash != [] then Reaction(link.device, c) else None
  }

  lemma AnswerUnderstood(link: Link, c: Command)
    requires Device.WellFormed(c)
    ensures Understood(c.op, Answered(link, c), Heard(link, c))
  {
    if NextFate(link) == Delivered && link.device.flash != [] {
      ReplyUnderstood(link.device, c);
    }
  }

  /** The link when an exchange is over. */
  ghost predicate Passed(link: Link, c: Command, link': Link) {
    && link'.pending == []
    && link'.device == Reached(link, c)
    && link'.fates == RestOf(link.fates)
    && link'.programs == Counted(link, c)
  }

  /** A transmission whose reply does not come, or not completely. */
  lemma FailedExchange(command: Command, call: Call, link: Link) returns (last: Call, link': Link)
    requires Device.WellFormed(command) && Rested(call.m) && call.Valid() && link.pending == []
    requires Heard(link, Outgoing(command, call.m)) == None
    ensures Passed(link, Outgoing(command, call.m), link') && GaveUp(command, call, link, last, link')
  {
    hide Run, Device.Handle, Reaction, Output, End;
    AnswerUnderstood(link, Outgoing(command, call.m));
    assert [] + Answered(link, Outgoing(command, call.m)) == Answered(link, Outgoing(command, call.m));
    var call', next := SendTurn(command, call, link);
    last, link' := NothingArrives(command, call', next);
  }

  /** A transmission whose reply comes. */
  lemma HeardExchange(command: Command, call: Call, link: Link) returns (last: Call, link': Link)
    requires Device.WellFormed(command) && Rested(call.m) && call.Valid() && link.pending == []
    requires Heard(link, Outgoing(command, call.m)).Some?
    ensures Passed(link, Outgoing(command, call.m), link')
    ensures Concluded(command, call, link, call.m.state == InSync, Heard(link, Outgoing(command, call.m)).value,
                      last, link')
  {
    hide Run, Device.Handle, Reaction, Output, End;
    AnswerUnderstood(link, Outgoing(command, call.m));
    assert [] + Answered(link, Outgoing(command, call.m)) == Answered(link, Outgoing(command, call.m));
    var call', next := SendTurn(command, call, link);
    last, link' := ReplyArrives(command, call', next, Heard(link, Outgoing(command, call.m)).value);
  }

  // ---- the whole call ----

  /** The device after handling the same command `k` times. */
  function Times(d: Device.State, c: Command, k: nat): (r: Device.State)
    requires d.Valid()
    ensures r.Valid() && |r.flash| == |d.flash|
  {
    if k == 0 then d
    else
      Device.HandleValid(Times(d, c, k - 1), c);
      Device.Handle(Times(d, c, k - 1), c).1
  }

  lemma OnceOrNever(d: Device.State, c: Command)
    requires d.Valid()
    ensures Times(d, c, 0) == d && Times(d, c, 1) == Device.Handle(d, c).1
  {
    hide Device.Handle;
    assert Times(d, c, 1) == Device.Handle(Times(d, c, 0), c).1;
  }

  lemma {:induction false} TimesShift(d: Device.State, c: Command, k: nat)
    requires d.Valid() && Device.Handle(d, c).1.Valid()
    ensures Times(Device.Handle(d, c).1, c, k) == Times(d, c, k + 1)
  {
    hide Device.Handle;
    if k > 0 {
      TimesShift(d, c, k - 1);
    }
  }

  /** How many of the transmissions lose something. */
  function Lost(fates: seq<Fate>): nat {
    if fates == [] then 0 else (if fates[0] == Delivered then 0 else 1) + Lost(fates[1..])
  }

  /** Commands to which a device in any state has a complete reply. */
  predicate AlwaysAnswered(c: Command) {
    match c.op
    case GET_DEVICE => |c.args| == 1 && 1 <= c.args[0] <= 4
    case GET_SYNC | GET_CHIP_DES | CHIP_ERASE | GET_CRC | GET_WRITE_PTR | REBOOT => c.args == []
    case GET_OTP | GET_SN => |c.args| == 4
    case PROG_MULTI => |c.args| <= 255
    case _ => false
  }

  lemma FitsFourBytes(d: Device.State)
    requires d.Valid()
    ensures Device.Word4(d.ptr).Payload? && Device.Word4(|d.flash|).Payload? && Device.Word4(d.revision).Payload?
    ensures Device.Word4(9).Payload? && Device.Word4(0).Payload?
    ensures Device.Word4(Crc.Crc32(d.flash, 0) as int).Payload?
  {
    hide Crc.Crc32, ToLe;
    assert Crc.Crc32(d.flash, 0) as int < 0x1_0000_0000;
  }

  lemma AlwaysHandled(d: Device.State, c: Command)
    requires AlwaysAnswered(c) && d.Valid()
    ensures Device.WellFormed(c) && c.op != GET_CHIP && Device.Handle(d, c).0.Payload?
  {
    hide Crc.Crc32, ToLe, FromLe, Device.Written, Device.SerialWord, Device.Word4;
    FitsFourBytes(d);
  }

  lemma AnsweredInAnyState(d: Device.State, c: Command)
    requires AlwaysAnswered(c) && d.Valid()
    ensures Device.WellFormed(c) && Reaction(d, c).Some? && Reaction(d, c).value.code == Success
  {
    hide Device.Handle, AlwaysAnswered;
    AlwaysHandled(d, c);
  }

  /** An exchange in which nothing is heard uses up a loss. */
  lemma ExchangeCosts(link: Link, c: Command)
    requires link.device.Valid()
    ensures var rest := RestOf(link.fates);
            && Lost(rest) <= Lost(link.fates) <= Lost(rest) + 1
            && (Heard(link, c).Some? ==> Lost(rest) == Lost(link.fates))
            && (Heard(link, c) == None && AlwaysAnswered(c) && !link.device.exiting ==>
                  Lost(rest) + 1 <= Lost(link.fates))
            && (Lost(link.fates) == 0 && !link.device.exiting ==> NextFate(link) == Delivered)
  {
    hide Reaction;
    if AlwaysAnswered(c) {
      AnsweredInAnyState(link.device, c);
    }
  }

  /** Between `least` and `most` transmissions of PROG_MULTI for such a command, and none for others. */
  ghost predicate Transmissions(command: Command, link: Link, least: nat, link': Link, most: nat) {
    if command.op == PROG_MULTI then link.programs + least <= link'.programs <= link.programs + most
    else link'.programs == link.programs
  }

  /** How a call over the channel can end. */
  ghost predicate Explained(command: Command, link: Link, retries: nat, k: nat, outcome: Outcome, m: Machine,
                            link': Link)
    requires link.device.Valid()
  {
    && k <= retries + 1
    && link'.device == Times(link.device, command, k)
    && link'.pending == []
    && Lost(link'.fates) <= Lost(link.fates) <= Lost(link'.fates) + retries + (if outcome == TimedOut then 1 else 0)
    && Transmissions(command, link, k, link', retries + 1)
    && Rested(m)
    && if outcome == TimedOut
       then AlwaysAnswered(command) && !link'.device.exiting ==> Lost(link'.fates) + retries + 1 <= Lost(link.fates)
       else k > 0 && outcome == Expected(Times(link.device, command, k - 1), command) && m == Ready
  }

  /** Nothing is lost on the channel, and the device listens and answers. */
  ghost predicate Smooth(link: Link, command: Command) {
    && Lost(link.fates) == 0 && !link.device.exiting && link.device.Valid()
    && Reaction(link.device, command).Some?
  }

  lemma {:induction false} ExitIsFinal(d: Device.State, c: Command, k: nat)
    requires d.Valid() && d.exiting
    ensures Times(d, c, k).exiting
  {
    hide Device.Handle;
    if k > 0 {
      ExitIsFinal(d, c, k - 1);
    }
  }

  lemma SyncIsHarmless(link: Link)
    ensures Reached(link, GetSync) == link.device
    ensures Heard(link, GetSync) == if NextFate(link) == Delivered then Some(Response(Success, [])) else None
  {
  }

  lemma TimesCompose(d: Device.State, c: Command, applied: bool, k: nat) returns (total: nat)
    requires d.Valid()
    ensures total == if applied then k + 1 else k
    ensures var next := if applied then Device.Handle(d, c).1 else d;
            && next.Valid()
            && Times(next, c, k) == Times(d, c, total)
            && (k > 0 ==> Times(next, c, k - 1) == Times(d, c, total - 1))
  {
    hide Device.Handle, Times;
    Device.HandleValid(d, c);
    total := if applied then k + 1 else k;
    if applied {
      TimesShift(d, c, k);
      if k > 0 {
        TimesShift(d, c, k - 1);
      }
    }
  }

  /** From the exchange that failed to the whole call. */
  lemma Composed(command: Command, link: Link, next: Link, applied: bool, retries: nat, k: nat, outcome: Outcome,
                 m: Machine, link': Link) returns (total: nat)
    requires link.device.Valid() && next.device.Valid()
    requires next.device == if applied then Device.Handle(link.device, command).1 else link.device
    requires Explained(command, next, retries, k, outcome, m, link')
    requires Lost(next.fates) <= Lost(link.fates) <= Lost(next.fates) + 1
    requires Transmissions(command, link, if applied then 1 else 0, next, 1)
    requires AlwaysAnswered(command) && !link.device.exiting ==> Lost(next.fates) + 1 <= Lost(link.fates)
    ensures Explained(command, link, retries + 1, total, outcome, m, link')
  {
    hide Device.Handle, Times, Expected, Lost, AlwaysAnswered;
    total := TimesCompose(link.device, command, applied, k);
    if link.device.exiting {
      ExitIsFinal(link.device, command, total);
    }
  }

  /** One more exchange, then the rest of the call. */
  lemma {:induction false} CallEnds(command: Command, call: Call, link: Link)
    returns (k: nat, outcome: Outcome, last: Call, link': Link)
    requires Device.WellFormed(command) && Rested(call.m) && call.Valid()
    requires link.pending == [] && link.device.Valid()
    ensures EndsWith(command, call, link, outcome, last, link')
    ensures Explained(command, link, call.retries, k, outcome, last.m, link')
    ensures Smooth(link, command) ==> k == 1 && outcome == Expected(link.device, command)
    decreases call.retries, if call.m.state == InSync then 0 else 1
  {
    hide Run, Device.Handle, Times, Reaction, Lost;
    var c := Outgoing(command, call.m);
    SyncIsHarmless(link);
    ExchangeCosts(link, c);
    Device.HandleValid(link.device, command);
    if Heard(link, c) == None {
      var call', next := FailedExchange(command, call, link);
      var applied := call.m.state == InSync && NextFate(link) != CommandLost;
      if call.retries == 0 {
        OnceOrNever(link.device, command);
        k, outcome, last, link' := if applied then 1 else 0, TimedOut, call', next;
      } else {
        k, outcome, last, link' := CallEnds(command, call', next);
        k := Composed(command, link, next, applied, call'.retries, k, outcome, last.m, link');
      }
    } else {
      var call', next := HeardExchange(command, call, link);
      if call.m.state == InSync {
        OnceOrNever(link.device, command);
        k, outcome, last, link' := 1, Expected(link.device, command), call', next;
      } else {
        k, outcome, last, link' := CallEnds(command, call', next);
      }
    }
  }

  lemma UnansweredChangesNothing(d: Device.State, c: Command)
    requires |d.flash| > 0 && Reaction(d, c) == None
    ensures Device.Handle(d, c).1 == d
  {
  }

  lemma {:induction false} TimesOfNothing(d: Device.State, c: Command, k: nat)
    requires d.Valid() && Device.Handle(d, c).1 == d
    ensures Times(d, c, k) == d
  {
    hide Device.Handle;
    if k > 0 {
      TimesOfNothing(d, c, k - 1);
    }
  }

  /** Over a channel that loses nothing a call applies the handler once and ends as the reaction says. */
  lemma AppliedOnce(command: Command, m: Machine, retries: nat, link: Link)
    requires Device.WellFormed(command) && Rested(m)
    requires link.pending == [] && Lost(link.fates) == 0 && !link.device.exiting && link.device.Valid()
    ensures var (outcome, last, link') := Run(command, Channel, Call(m, false, retries, []), link);
            && link'.device == Device.Handle(link.device, command).1 && link'.pending == [] && Rested(last.m)
            && outcome == Expected(link.device, command)
            && (outcome != TimedOut ==> last.m == Ready)
  {
    hide Run, Times, Device.Handle, Reaction, Lost, AlwaysAnswered;
    var k, outcome, last, link' := CallEnds(command, Call(m, false, retries, []), link);
    if Reaction(link.device, command) == None {
      UnansweredChangesNothing(link.device, command);
      TimesOfNothing(link.device, command, k);
      if k > 0 {
        TimesOfNothing(link.device, command, k - 1);
      }
    } else {
      OnceOrNever(link.device, command);
    }
  }

  /**
   * The refinement: over a channel that loses nothing, from any state in which the parser holds nothing and
   * waits for nothing, a call is one application of the device's handler. It ends in sync with nothing held.
   * The call returns exactly when the handler has a payload, except for GET_CHIP, whose reply is shorter than
   * announced; it reports an error of the device exactly when no payload is expected; otherwise it times out.
   */
  lemma ReliableCall(command: Command, m: Machine, retries: nat, link: Link)
    requires Device.WellFormed(command) && Rested(m)
    requires link.pending == [] && Lost(link.fates) == 0 && !link.device.exiting && link.device.Valid()
    ensures var (outcome, last, link') := Run(command, Channel, Call(m, false, retries, []), link);
            var (handled, device) := Device.Handle(link.device, command);
            && link'.device == device && link'.pending == [] && Rested(last.m)
            && (handled.Payload? && command.op != GET_CHIP ==>
                  outcome == Returned(Value(command.op, handled.bytes)) && last.m == Ready)
            && (!handled.Payload? && command.op.ResponseLength() == 0 ==>
                  outcome == Outcome.Refused(if handled.Refused? then Invalid else Failure) && last.m == Ready)
            && (command.op == GET_CHIP || (!handled.Payload? && command.op.ResponseLength() != 0) ==>
                  outcome == TimedOut)
  {
    hide Run, Times, Device.Handle, Lost, Value;
    AppliedOnce(command, m, retries, link);
  }

  /**
   * Over a channel that loses commands and replies, the command is applied and transmitted at most once per
   * attempt. A result is the one of the last application, after which the connection is in sync; with r retries
   * at most r losses precede it. As long as the device stays in the bootloader, a timeout takes a loss for each
   * of the attempts, if the command is one that the device always answers.
   */
  lemma LossyCall(command: Command, m: Machine, retries: nat, link: Link) returns (k: nat)
    requires Device.WellFormed(command) && Rested(m) && link.pending == [] && link.device.Valid()
    ensures k <= retries + 1
    ensures var (outcome, last, link') := Run(command, Channel, Call(m, false, retries, []), link);
            && link'.device == Times(link.device, command, k)
            && Transmissions(command, link, k, link', retries + 1)
            && link'.pending == [] && Rested(last.m)
            && Lost(link'.fates) <= Lost(link.fates) <= Lost(link'.fates) + retries + 1
            && (outcome != TimedOut ==>
                  && k > 0 && outcome == Expected(Times(link.device, command, k - 1), command) && last.m == Ready
                  && Lost(link.fates) <= Lost(link'.fates) + retries)
            && (AlwaysAnswered(command) && outcome == TimedOut && !link'.device.exiting ==>
                  Lost(link'.fates) + retries + 1 <= Lost(link.fates))
            && (AlwaysAnswered(command) && outcome == TimedOut && !link.device.exiting ==> Lost(link.fates) > 0)
  {
    hide Run, Times, Device.Handle, Reaction, Lost, AlwaysAnswered;
    if AlwaysAnswered(command) {
      AnsweredInAnyState(link.device, command);
    }
    var outcome, last, link';
    k, outcome, last, link' := CallEnds(command, Call(m, false, retries, []), link);
  }

  /** A command that only asks: it leaves the device alone, so however often it is repeated, the result is right. */
  lemma AskingTwiceIsHarmless(command: Command, m: Machine, retries: nat, link: Link)
    requires AlwaysAnswered(command) && Rested(m) && link.pending == [] && link.device.Valid()
    requires Device.Handle(link.device, command).1 == link.device && !link.device.exiting
    ensures var (outcome, last, link') := Run(command, Channel, Call(m, false, retries, []), link);
            && link'.device == link.device
            && link'.pending == [] && Rested(last.m) && Lost(link'.fates) <= Lost(link.fates)
            && (command.op != PROG_MULTI ==> link'.programs == link.programs)
            && (|| (outcome == Expected(link.device, command) && last.m == Ready)
                || (outcome == TimedOut && Lost(link'.fates) + retries + 1 <= Lost(link.fates)))
  {
    hide Run, Times, Device.Handle, Reaction, Lost, AlwaysAnswered;
    AnsweredInAnyState(link.device, command);
    var k := LossyCall(command, m, retries, link);
    TimesOfNothing(link.device, command, k);
    if k > 0 {
      TimesOfNothing(link.device, command, k - 1);
    }
  }

  /**
   * Programming is not retried, so there are exactly three possibilities: written and acknowledged, written but
   * the acknowledgment was lost, or not written. A lost acknowledgment looks like a command that was not received.
   * An acknowledgment means that nothing was lost and the command was transmitted exactly once.
   */
  lemma ProgrammingHappensAtMostOnce(data: seq<byte>, m: Machine, link: Link)
    requires |data| <= 255 && Rested(m) && link.pending == [] && link.device.Valid() && !link.device.exiting
    ensures var (outcome, last, link') := Run(Command(PROG_MULTI, data), Channel, Call(m, false, 0, []), link);
            && link'.pending == [] && Rested(last.m)
            && Programmed(data, link, outcome, link')
  {
    hide Run, Times, Lost;
    var c, d := Command(PROG_MULTI, data), link.device;
    var k := LossyCall(c, m, 0, link);
    OnceOrNever(d, c);
  }

  /** The three possibilities. */
  ghost predicate Programmed(data: seq<byte>, link: Link, outcome: Outcome, link': Link)
    requires |link.device.flash| > 0
  {
    var written := Device.Written(link.device, data);
    || (outcome == Returned([]) && link'.device == written
        && Lost(link'.fates) == Lost(link.fates) && link'.programs == link.programs + 1)
    || (outcome == TimedOut && Lost(link'.fates) + 1 == Lost(link.fates)
        && (|| (link'.device == written && link'.programs == link.programs + 1)
            || (link'.device == link.device && link.programs <= link'.programs <= link.programs + 1)))
  }

  /** Once the device has left the bootloader, every call times out. */
  lemma {:induction false} DeafDevice(command: Command, call: Call, link: Link) returns (last: Call, link': Link)
    requires Device.WellFormed(command) && Rested(call.m) && call.Valid() && link.pending == []
    requires link.device.exiting
    ensures EndsWith(command, call, link, TimedOut, last, link') && link'.device == link.device
    decreases call.retries
  {
    hide Run, Device.Handle, Reaction;
    last, link' := FailedExchange(command, call, link);
    if call.retries > 0 {
      last, link' := DeafDevice(command, last, link');
    }
  }

  /**
   * What becomes of the first transmission of a command that reaches the device within the retries, by the fates
   * of the transmissions alone: each loss costs a retry and has the call synchronize again.
   */
  function FirstArrival(fates: seq<Fate>, retries: nat, synced: bool): Option<Fate>
    decreases retries, if synced then 0 else 1
  {
    if synced && FirstOf(fates) != CommandLost then Some(FirstOf(fates))
    else if !synced && FirstOf(fates) == Delivered then FirstArrival(RestOf(fates), retries, true)
    else if retries == 0 then None
    else FirstArrival(RestOf(fates), retries - 1, false)
  }

  function RebootOutcome(arrival: Option<Fate>): Outcome {
    if arrival == Some(Delivered) then Returned([]) else TimedOut
  }

  lemma {:induction false} RebootEnds(call: Call, link: Link) returns (last: Call, link': Link)
    requires Rested(call.m) && call.Valid() && link.pending == [] && link.device.Valid() && !link.device.exiting
    ensures var arrival := FirstArrival(link.fates, call.retries, call.m.state == InSync);
            && EndsWith(Command(REBOOT, []), call, link, RebootOutcome(arrival), last, link')
            && link'.device == link.device.(exiting := arrival.Some?)
    decreases call.retries, if call.m.state == InSync then 0 else 1
  {
    hide Run;
    var command := Command(REBOOT, []);
    SyncIsHarmless(link);
    if Heard(link, Outgoing(command, call.m)) == None {
      last, link' := FailedExchange(command, call, link);
      if call.retries > 0 {
        if link'.device.exiting {
          last, link' := DeafDevice(command, last, link');
        } else {
          last, link' := RebootEnds(last, link');
        }
      }
    } else {
      last, link' := HeardExchange(command, call, link);
      if call.m.state != InSync {
        last, link' := RebootEnds(last, link');
      }
    }
  }

  /**
   * Not every loss can be made up for. REBOOT is reported as done exactly when the first of its transmissions that
   * arrives has its acknowledgment delivered; the device leaves the bootloader exactly when one arrives at all.
   * In between, the call times out although the device has rebooted, however often it is retried.
   */
  lemma RebootIsConfirmed(m: Machine, retries: nat, link: Link)
    requires Rested(m) && link.pending == [] && link.device.Valid() && !link.device.exiting
    ensures var (outcome, _, link') := Run(Command(REBOOT, []), Channel, Call(m, false, retries, []), link);
            var arrival := FirstArrival(link.fates, retries, m.state == InSync);
            && (outcome == Returned([]) <==> arrival == Some(Delivered))
            && (link'.device.exiting <==> arrival.Some?)
            && (outcome == Returned([]) || outcome == TimedOut)
            && link'.device == link.device.(exiting := link'.device.exiting)
  {
    hide Run;
    var last, link' := RebootEnds(Call(m, false, retries, []), link);
  }

  /** In particular, in sync: if the very first transmission arrives, its acknowledgment decides. */
  lemma LostRebootAcknowledgment(retries: nat, link: Link)
    requires link.pending == [] && link.device.Valid() && !link.device.exiting && NextFate(link) != CommandLost
    ensures var (outcome, _, link') := Run(Command(REBOOT, []), Channel, Call(Ready, false, retries, []), link);
            && (outcome == Returned([]) <==> NextFate(link) == Delivered)
            && (outcome == TimedOut <==> NextFate(link) == ReplyLost)
            && link'.device == link.device.(exiting := true)
  {
    hide Run;
    RebootIsConfirmed(Ready, retries, link);
  }
}
