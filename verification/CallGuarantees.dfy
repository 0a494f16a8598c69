/** What one remote call guarantees against every peer: bounded traffic, and answers that are fresh and whole. */
module CallGuarantees {
  import opened Bytes
  import opened Messages
  import opened Protocol
  import opened Conservation
  import opened Connection

  /** The interactions that are counted below. */
  datatype Kind = Receives | Commands | Syncs

  predicate Is(io: Io, kind: Kind) {
    match kind
    case Receives => !io.Tx?
    case Commands => io.Tx? && io.ofCommand
    case Syncs => io.Tx? && !io.ofCommand
  }

  function Count(log: seq<Io>, kind: Kind): nat {
    if log == [] then 0
    else Count(log[..|log| - 1], kind) + (if Is(log[|log| - 1], kind) then 1 else 0)
  }

  lemma CountOneMore(log: seq<Io>, io: Io, kind: Kind)
    ensures Count(log + [io], kind) == Count(log, kind) + (if Is(io, kind) then 1 else 0)
  {
    assert (log + [io])[..|log|] == log;
  }

  // ---- how much can be sent ----

  /** Transmissions of the command that are still possible. */
  function CommandsLeft(call: Call): nat {
    call.retries + (if call.sent && call.m.Waiting() then 0 else 1)
  }

  /** Transmissions of GET_SYNC that are still possible. */
  function SyncsLeft(call: Call): nat {
    call.retries + (if call.m.state == Idle || call.m.state == Error then 1 else 0)
  }

  lemma TransmitCounts<E>(command: Command, peer: Peer<E>, call: Call, env: E, kind: Kind)
    ensures var log := Transmit(command, peer, call, env).call.log;
            log == call.log || (|log| > 0 && log == call.log + [log[|log| - 1]] && log[|log| - 1].Tx?
              && log[|log| - 1].ofCommand == (call.m.state == InSync)
              && Count(log, kind) == Count(call.log, kind) + (if Is(log[|log| - 1], kind) then 1 else 0))
  {
    hide Count;
    var log := Transmit(command, peer, call, env).call.log;
    if log != call.log {
      CountOneMore(call.log, log[|log| - 1], kind);
    }
  }

  lemma ListenCounts<E>(peer: Peer<E>, call: Call, env: E, kind: Kind)
    requires !call.m.closed
    ensures var log := Listen(peer, call, env).call.log;
            |log| > 0 && log == call.log + [log[|log| - 1]] && Is(log[|log| - 1], Receives)
              && Count(log, kind) == Count(call.log, kind) + (if Is(log[|log| - 1], kind) then 1 else 0)
  {
    hide Count;
    var log := Listen(peer, call, env).call.log;
    match peer.receive(env).0 {
      case Late => CountOneMore(call.log, RxLate, kind);
      case Broken => CountOneMore(call.log, RxBroken, kind);
      case Arrived(first, rest) => CountOneMore(call.log, Rx([first] + rest), kind);
    }
  }

  lemma TransmitSpends<E>(command: Command, peer: Peer<E>, call: Call, env: E)
    requires call.Valid() && !call.m.Waiting()
    ensures var turn := Transmit(command, peer, call, env);
            && Count(turn.call.log, Commands) + (if turn.Again? then CommandsLeft(turn.call) else 0)
               <= Count(call.log, Commands) + CommandsLeft(call)
            && Count(turn.call.log, Syncs) + (if turn.Again? then SyncsLeft(turn.call) else 0)
               <= Count(call.log, Syncs) + SyncsLeft(call)
  {
    hide Count;
    TransmitCounts(command, peer, call, env, Commands);
    TransmitCounts(command, peer, call, env, Syncs);
  }

  lemma ListenSpends<E>(peer: Peer<E>, call: Call, env: E)
    requires call.Valid() && call.m.Waiting()
    ensures var turn := Listen(peer, call, env);
            && Count(turn.call.log, Commands) == Count(call.log, Commands)
            && Count(turn.call.log, Syncs) == Count(call.log, Syncs)
            && (turn.Again? ==> CommandsLeft(turn.call) <= CommandsLeft(call))
            && (turn.Again? ==> SyncsLeft(turn.call) <= SyncsLeft(call))
  {
    hide Count;
    ListenCounts(peer, call, env, Commands);
    ListenCounts(peer, call, env, Syncs);
  }

  lemma RespondSpends<E>(command: Command, peer: Peer<E>, call: Call, event: Event, m: Machine, env: E)
    requires call.Valid() && Follows(call, event, m)
    ensures var turn := Respond(command, peer, call, event, m, env);
            && Count(turn.call.log, Commands) + (if turn.Again? then CommandsLeft(turn.call) else 0)
               <= Count(call.log, Commands) + CommandsLeft(call)
            && Count(turn.call.log, Syncs) + (if turn.Again? then SyncsLeft(turn.call) else 0)
               <= Count(call.log, Syncs) + SyncsLeft(call)
  {
    hide Count;
    match event {
      case OurTurn => TransmitSpends(command, peer, call, env);
      case NeedMoreData => ListenSpends(peer, call.(m := m), env);
      case _ =>
    }
  }

  lemma {:induction false} RunSpends<E>(command: Command, peer: Peer<E>, call: Call, env: E)
    requires call.Valid()
    ensures var last := Run(command, peer, call, env).1;
            && Count(last.log, Commands) <= Count(call.log, Commands) + CommandsLeft(call)
            && Count(last.log, Syncs) <= Count(call.log, Syncs) + SyncsLeft(call)
    decreases call.retries, call.Stage(), call.Phase(), call.Missing()
  {
    IterateProgress(command, peer, call, env);
    NextFollows(call);
    RespondSpends(command, peer, call, call.m.Next().0, call.m.Next().1, env);
    match Iterate(command, peer, call, env) {
      case Finished(_, _, _) =>
      case Again(call', env') => RunSpends(command, peer, call', env');
    }
  }

  /** With r retries the command and GET_SYNC are each transmitted at most r + 1 times, whatever the peer does. */
  lemma TransmissionBound<E>(command: Command, peer: Peer<E>, m: Machine, retries: nat, env: E)
    requires m.Valid() && !m.closed
    ensures var log := Run(command, peer, Call(m, false, retries, []), env).1.log;
            Count(log, Commands) <= retries + 1 && Count(log, Syncs) <= retries + 1
  {
    RunSpends(command, peer, Call(m, false, retries, []), env);
  }

  // ---- how often the transport is asked for data ----

  /** Once the command is sent, the parser only waits for its reply; before that, perhaps for one to an earlier call. */
  ghost predicate OwnReply(n: nat, call: Call) {
    && call.Valid()
    && (call.sent && call.m.state == WaitResponse ==> call.m.expected == n)
    && (call.sent ==> call.m.state != WaitResponseLength)
  }

  /** The bytes, besides the marker and the code, that a reply to an earlier call can still have. */
  function StaleBytes(m: Machine): nat {
    match m.state
    case WaitResponseLength => 4 + 0xFFFF_FFFF
    case WaitResponse => m.expected
    case _ => 0
  }

  /** Receive operations that the current attempt can still need, for a reply of `n` bytes. */
  function AttemptLeft(n: nat, call: Call): nat {
    match call.m.state
    case WaitResponseLength => call.Missing() + 0xFFFF_FFFF + n + 4
    case WaitResponse => call.Missing() + 2 + (if call.sent then 0 else n + 2)
    case WaitSync => call.Missing() + (if call.sent then 0 else n + 2)
    case InSync => n + 2
    case _ => n + 4
  }

  function ReceivesLeft(n: nat, call: Call): nat {
    call.retries * (n + 4) + AttemptLeft(n, call)
  }

  lemma AttemptIsBounded(n: nat, call: Call)
    requires OwnReply(n, call)
    ensures AttemptLeft(n, call) <= n + 4 + (if call.sent then 0 else StaleBytes(call.m))
  {
  }

  /** A reply that is awaited afterwards was awaited before, or its length has just been read. */
  ghost predicate KeepsPhase(m: Machine, m': Machine) {
    && (m'.state == WaitResponseLength ==> m.state == WaitResponseLength)
    && (m'.state == WaitResponse && m.state != WaitResponse ==>
          m.state == WaitResponseLength && m'.expected <= 0xFFFF_FFFF)
  }

  lemma NextKeepsPhase(m: Machine)
    requires m.Valid()
    ensures KeepsPhase(m, m.Next().1)
  {
    hide FromLe, Capacity, Find, AcceptedCode;
    if m.state == WaitResponseLength && |m.buffer| >= 4 {
      FromLeFits(m.buffer[..4]);
      Capacities();
    }
  }

  lemma StarvedLeft(n: nat, call: Call, m: Machine)
    requires OwnReply(n, call) && Follows(call, NeedMoreData, m) && KeepsPhase(call.m, m)
    ensures var next := call.(m := m);
            OwnReply(n, next) && 1 <= AttemptLeft(n, next) <= AttemptLeft(n, call)
  {
  }

  /** Giving up one attempt pays for the next. */
  lemma RetryLeft<E>(n: nat, call: Call, before: Call, env: E, outcome: Outcome)
    requires OwnReply(n, call) && !call.m.Waiting() && call.retries == before.retries
    ensures var turn := Retry(call, env, outcome);
            && turn.call.log == call.log
            && (turn.Again? ==> OwnReply(n, turn.call) && ReceivesLeft(n, turn.call) <= before.retries * (n + 4))
  {
    if call.retries > 0 {
      var next := call.(retries := call.retries - 1);
      AttemptIsBounded(n, next);
      assert next.retries * (n + 4) + (n + 4) == call.retries * (n + 4);
    }
  }

  lemma TransmitReceives<E>(n: nat, command: Command, peer: Peer<E>, call: Call, env: E)
    requires OwnReply(n, call) && !call.m.Waiting() && call.m.buffer == [] && n == command.op.ResponseLength()
    ensures var turn := Transmit(command, peer, call, env);
            && Count(turn.call.log, Receives) == Count(call.log, Receives)
            && (turn.Again? ==> OwnReply(n, turn.call) && ReceivesLeft(n, turn.call) <= ReceivesLeft(n, call))
  {
    hide Count;
    TransmitProgress(command, peer, call, env);
    var syncing := call.m.state != InSync;
    TransmitCounts(command, peer, call, env, Receives);
    var sent := call.m.Sent(if syncing then GetSync else command);
    if sent.Raw? {
      OthersValid(call.m, [], if syncing then GetSync else command);
      var failed := Call(sent.machine.SendFailed(), false, call.retries, call.log + [Tx(sent.raw, !syncing, false)]);
      RetryLeft(n, failed, call, peer.send(env, sent.raw).1, SendError);
    }
  }

  lemma ListenReceives<E>(n: nat, peer: Peer<E>, call: Call, env: E)
    requires OwnReply(n, call) && call.m.Waiting() && call.m.expected > |call.m.buffer|
    ensures var turn := Listen(peer, call, env);
            && Count(turn.call.log, Receives) == Count(call.log, Receives) + 1
            && (turn.Again? ==> OwnReply(n, turn.call) && ReceivesLeft(n, turn.call) + 1 <= ReceivesLeft(n, call))
  {
    hide Count;
    ListenProgress(peer, call, env);
    ListenCounts(peer, call, env, Receives);
    var (receipt, env') := peer.receive(env);
    match receipt {
      case Late =>
        RetryLeft(n, call.(m := call.m.Reset(), log := call.log + [RxLate]), call, env', TimedOut);
      case _ =>
    }
  }

  lemma RespondReceives<E>(n: nat, command: Command, peer: Peer<E>, call: Call, event: Event, m: Machine, env: E)
    requires OwnReply(n, call) && n == command.op.ResponseLength()
    requires Follows(call, event, m) && KeepsPhase(call.m, m)
    ensures var turn := Respond(command, peer, call, event, m, env);
            && Count(turn.call.log, Receives) + (if turn.Again? then ReceivesLeft(n, turn.call) else 0)
               <= Count(call.log, Receives) + ReceivesLeft(n, call)
            && (turn.Again? ==> OwnReply(n, turn.call))
  {
    hide Count;
    var next := call.(m := m);
    match event {
      case OurTurn => TransmitReceives(n, command, peer, call, env);
      case NeedMoreData =>
        StarvedLeft(n, call, m);
        ListenReceives(n, peer, next, env);
      case Reply(_) => AnsweredLeft(n, call, m);
      case _ => RetryLeft(n, call.(m := m.Reset()), call, env, ExcessDataError);
    }
  }

  lemma AnsweredLeft(n: nat, call: Call, m: Machine)
    requires OwnReply(n, call) && call.m.Waiting() && m.Valid() && !m.closed && m.state == InSync
    ensures !call.sent ==> OwnReply(n, call.(m := m)) && ReceivesLeft(n, call.(m := m)) <= ReceivesLeft(n, call)
  {
  }

  lemma {:induction false} RunReceives<E>(n: nat, command: Command, peer: Peer<E>, call: Call, env: E)
    requires OwnReply(n, call) && n == command.op.ResponseLength()
    ensures var last := Run(command, peer, call, env).1;
            Count(last.log, Receives) <= Count(call.log, Receives) + ReceivesLeft(n, call)
    decreases call.retries, call.Stage(), call.Phase(), call.Missing()
  {
    IterateProgress(command, peer, call, env);
    NextFollows(call);
    NextKeepsPhase(call.m);
    RespondReceives(n, command, peer, call, call.m.Next().0, call.m.Next().1, env);
    match Iterate(command, peer, call, env) {
      case Finished(_, _, _) =>
      case Again(call', env') => RunReceives(n, command, peer, call', env');
    }
  }

  /**
   * With r retries and replies of n bytes, the transport is asked at most (r + 1)(n + 4) times, even for garbage. If
   * a broken transport has left the parser waiting for an earlier reply, the rest of that one comes on top.
   */
  lemma ReceiveBound<E>(command: Command, peer: Peer<E>, m: Machine, retries: nat, env: E)
    requires m.Valid() && !m.closed
    requires command.op.ResponseLength() >= 0
    ensures var log := Run(command, peer, Call(m, false, retries, []), env).1.log;
            Count(log, Receives) <= (retries + 1) * (command.op.ResponseLength() + 4) + StaleBytes(m)
  {
    var n, call := command.op.ResponseLength(), Call(m, false, retries, []);
    RunReceives(n, command, peer, call, env);
    AttemptIsBounded(n, call);
    assert (retries + 1) * (n + 4) == retries * (n + 4) + (n + 4);
  }

  // ---- what a returned value is made of ----

  /** The bytes received since the command was last transmitted. */
  function Since(log: seq<Io>): seq<byte> {
    if log == [] then [] else SinceAfter(Since(log[..|log| - 1]), log[|log| - 1])
  }

  function SinceAfter(since: seq<byte>, io: Io): seq<byte> {
    if io.Rx? then since + io.data
    else if Is(io, Commands) then []
    else since
  }

  lemma SinceOneMore(log: seq<Io>, io: Io)
    ensures Since(log + [io]) == SinceAfter(Since(log), io)
  {
    assert (log + [io])[..|log|] == log;
  }

  /** While the reply is awaited, the parser holds what has arrived since the transmission, after the length prefix. */
  ghost predicate Tracks(op: OpCode, m: Machine, since: seq<byte>) {
    match m.state
    case WaitResponseLength =>
      op.ResponseLength() < 0 && m.buffer == since
    case WaitResponse =>
      if op.ResponseLength() < 0
      then |since| >= 4 && FromLe(since[..4]) == m.expected && since == since[..4] + m.buffer
      else m.expected == op.ResponseLength() && m.buffer == since
    case WaitSync =>
      if op.ResponseLength() < 0
      then |since| >= 4 && FromLe(since[..4]) == |m.payload| && since == since[..4] + (m.payload + m.buffer)
      else |m.payload| == op.ResponseLength() && since == m.payload + m.buffer
    case _ => true
  }

  ghost predicate Faithful(command: Command, call: Call) {
    call.Valid() && (call.sent && call.m.Waiting() ==>
      Tracks(command.op, call.m, Since(call.log)) && Count(call.log, Commands) > 0)
  }

  lemma LengthReadTracks(op: OpCode, m: Machine, since: seq<byte>)
    requires m.Valid() && m.Waiting() && Tracks(op, m, since)
    ensures Tracks(op, m.LengthRead(), since)
  {
    if m.state == WaitResponseLength && |m.buffer| >= 4 {
      assert since == since[..4] + since[4..];
    }
  }

  lemma BodyReadTracks(op: OpCode, m: Machine, since: seq<byte>)
    requires m.Valid() && m.Waiting() && Tracks(op, m, since)
    ensures Tracks(op, m.BodyRead(), since)
  {
    if m.state == WaitResponse && |m.buffer| >= m.expected {
      assert m.buffer == m.buffer[..m.expected] + m.buffer[m.expected..];
    }
  }

  lemma HuntedReply(m: Machine)
    requires m.state == WaitSync && m.Hunted().0.Reply? && m.Hunted().0.response.code == Success
    ensures m.Hunted().0.response.payload == m.payload
    ensures |m.buffer| >= 2 && m.buffer == [SYNC_BYTE, Success.Code()] + m.buffer[2..]
  {
  }

  lemma NextReply(m: Machine)
    requires m.Valid() && m.Waiting() && m.Next().0.Reply?
    ensures var read := m.LengthRead().BodyRead();
            read.state == WaitSync && m.Next() == read.Hunted()
  {
    LengthReadValid(m);
    BodyReadValid(m.LengthRead());
  }

  /** A reply is only reported when everything since the transmission begins with its complete frame. */
  lemma ReplyTracks(op: OpCode, m: Machine, since: seq<byte>)
    requires m.Valid() && m.Waiting() && Tracks(op, m, since)
    requires m.Next().0.Reply? && m.Next().0.response.code == Success
    ensures var v := m.Next().0.response.payload;
            Fits(op, v) && Frame(op, v) <= since
  {
    LengthReadValid(m);
    LengthReadTracks(op, m, since);
    BodyReadTracks(op, m.LengthRead(), since);
    NextReply(m);
    var read := m.LengthRead().BodyRead();
    HuntedReply(read);
    FrameIsPrefix(op, read.payload, read.buffer[2..], since);
  }

  lemma FrameIsPrefix(op: OpCode, v: seq<byte>, rest: seq<byte>, since: seq<byte>)
    requires if op.ResponseLength() < 0
             then |since| >= 4 && FromLe(since[..4]) == |v|
                  && since == since[..4] + (v + ([SYNC_BYTE, Success.Code()] + rest))
             else |v| == op.ResponseLength() && since == v + ([SYNC_BYTE, Success.Code()] + rest)
    ensures Fits(op, v) && Frame(op, v) <= since
  {
    var body := v + [SYNC_BYTE, Success.Code()];
    assert v + ([SYNC_BYTE, Success.Code()] + rest) == body + rest;
    if op.ResponseLength() < 0 {
      ToFromLe(since[..4]);
      FromLeFits(since[..4]);
      Capacities();
      assert since == (since[..4] + body) + rest;
    }
  }

  lemma StarvedTracks(op: OpCode, m: Machine, since: seq<byte>)
    requires m.Valid() && m.Waiting() && Tracks(op, m, since)
    requires m.Next().0 == NeedMoreData
    ensures Tracks(op, m.Next().1, since)
  {
    LengthReadValid(m);
    LengthReadTracks(op, m, since);
    BodyReadTracks(op, m.LengthRead(), since);
    BodyReadValid(m.LengthRead());
  }

  lemma FedTracks(op: OpCode, m: Machine, since: seq<byte>, data: seq<byte>)
    requires m.Valid() && m.Waiting() && Tracks(op, m, since)
    ensures Tracks(op, m.(buffer := m.buffer + data), since + data)
  {
    if |since| >= 4 {
      assert (since + data)[..4] == since[..4];
    }
    assert m.payload + (m.buffer + data) == (m.payload + m.buffer) + data;
    assert since[..if |since| >= 4 then 4 else 0] + (m.buffer + data)
        == since[..if |since| >= 4 then 4 else 0] + m.buffer + data;
  }

  lemma SentTracks(command: Command, m: Machine)
    requires m.Valid() && m.payload == [] && m.buffer == []
    ensures m.Sent(command).Raw? ==> Tracks(command.op, m.Sent(command).machine, [])
  {
  }

  lemma TransmitFaithful<E>(command: Command, peer: Peer<E>, call: Call, env: E)
    requires call.Valid() && call.m.payload == [] && call.m.buffer == [] && !call.m.Waiting()
    ensures var turn := Transmit(command, peer, call, env);
            && (turn.Again? ==> Faithful(command, turn.call))
            && (turn.Finished? ==> !turn.outcome.Returned?)
  {
    TransmitProgress(command, peer, call, env);
    SentTracks(command, call.m);
    if command.ToBytes().Some? {
      SinceOneMore(call.log, Tx(command.ToBytes().value, true, true));
      CountOneMore(call.log, Tx(command.ToBytes().value, true, true), Commands);
    }
  }

  lemma ListenFaithful<E>(command: Command, peer: Peer<E>, call: Call, env: E)
    requires Faithful(command, call) && call.m.Waiting()  && call.m.expected > |call.m.buffer|
    ensures var turn := Listen(peer, call, env);
            && (turn.Again? ==> Faithful(command, turn.call))
            && (turn.Finished? ==> !turn.outcome.Returned?)
  {
    ListenProgress(peer, call, env);
    match peer.receive(env).0 {
      case Arrived(first, rest) =>
        var data := [first] + rest;
        SinceOneMore(call.log, Rx(data));
        CountOneMore(call.log, Rx(data), Commands);
        if call.sent {
          FedTracks(command.op, call.m, Since(call.log), data);
        }
      case _ =>
    }
  }

  lemma RespondFaithful<E>(command: Command, peer: Peer<E>, call: Call, event: Event, m: Machine, env: E)
    requires Faithful(command, call) && Follows(call, event, m)
    requires event == NeedMoreData ==> Faithful(command, call.(m := m))
    requires event.Reply? && event.response.code == Success && call.sent ==>
               && Fits(command.op, event.response.payload)
               && Frame(command.op, event.response.payload) <= Since(call.log)
               && Count(call.log, Commands) > 0
    ensures var turn := Respond(command, peer, call, event, m, env);
            && (turn.Again? ==> Faithful(command, turn.call))
            && (turn.Finished? && turn.outcome.Returned? ==>
                  && Fits(command.op, turn.outcome.value)
                  && Frame(command.op, turn.outcome.value) <= Since(turn.call.log)
                  && Count(turn.call.log, Commands) > 0)
  {
    match event {
      case OurTurn => TransmitFaithful(command, peer, call, env);
      case NeedMoreData => ListenFaithful(command, peer, call.(m := m), env);
      case _ =>
    }
  }

  lemma IterateFaithful<E>(command: Command, peer: Peer<E>, call: Call, env: E)
    requires Faithful(command, call)
    ensures var turn := Iterate(command, peer, call, env);
            && (turn.Again? ==> Faithful(command, turn.call))
            && (turn.Finished? && turn.outcome.Returned? ==>
                  && Fits(command.op, turn.outcome.value)
                  && Frame(command.op, turn.outcome.value) <= Since(turn.call.log)
                  && Count(turn.call.log, Commands) > 0)
  {
    var (e, m) := call.m.Next();
    NextFollows(call);
    if call.sent && e == NeedMoreData {
      StarvedTracks(command.op, call.m, Since(call.log));
    } else if call.sent && e.Reply? && e.response.code == Success {
      ReplyTracks(command.op, call.m, Since(call.log));
    }
    RespondFaithful(command, peer, call, e, m, env);
  }

  lemma {:induction false} RunFaithful<E>(command: Command, peer: Peer<E>, call: Call, env: E)
    requires Faithful(command, call)
    ensures var (outcome, last, _) := Run(command, peer, call, env);
            outcome.Returned? ==>
              && Fits(command.op, outcome.value)
              && Frame(command.op, outcome.value) <= Since(last.log)
              && Count(last.log, Commands) > 0
    decreases call.retries, call.Stage(), call.Phase(), call.Missing()
  {
    IterateProgress(command, peer, call, env);
    IterateFaithful(command, peer, call, env);
    match Iterate(command, peer, call, env) {
      case Finished(_, _, _) =>
      case Again(call', env') => RunFaithful(command, peer, call', env');
    }
  }

  /**
   * Against every peer, and from every state an earlier call can have left the parser in: a returned value has
   * the announced length, the command was really transmitted, and the bytes received since its last
   * transmission begin with exactly the frame of that value.
   */
  lemma AnswerSoundness<E>(command: Command, peer: Peer<E>, m: Machine, retries: nat, env: E)
    requires m.Valid() && !m.closed
    ensures var (outcome, last, _) := Run(command, peer, Call(m, false, retries, []), env);
            outcome.Returned? ==>
              && Fits(command.op, outcome.value)
              && Frame(command.op, outcome.value) <= Since(last.log)
              && Count(last.log, Commands) > 0
  {
    RunFaithful(command, peer, Call(m, false, retries, []), env);
  }

  // ---- where a call leaves the parser ----

  lemma RespondEnds<E>(command: Command, peer: Peer<E>, call: Call, event: Event, m: Machine, env: E)
    requires call.Valid() && Follows(call, event, m)
    ensures var turn := Respond(command, peer, call, event, m, env);
            turn.Finished? ==>
              && (turn.outcome.Returned? || turn.outcome.Refused? ==> turn.call.m.state == InSync)
              && (turn.outcome != Disconnected ==> !turn.call.m.Waiting())
  {
  }

  lemma {:induction false} RunEnds<E>(command: Command, peer: Peer<E>, call: Call, env: E)
    requires call.Valid()
    ensures var (outcome, last, _) := Run(command, peer, call, env);
            && last.m.Valid() && !last.m.closed
            && outcome != UnexpectedEvent && outcome != InvalidState
            && (outcome.Returned? || outcome.Refused? ==> last.m.state == InSync)
            && (outcome != Disconnected ==> !last.m.Waiting())
    decreases call.retries, call.Stage(), call.Phase(), call.Missing()
  {
    IterateProgress(command, peer, call, env);
    NextFollows(call);
    RespondEnds(command, peer, call, call.m.Next().0, call.m.Next().1, env);
    match Iterate(command, peer, call, env) {
      case Finished(_, _, _) =>
      case Again(call', env') => RunEnds(command, peer, call', env');
    }
  }

  /**
   * The two errors that the source raises for situations it considers impossible are never raised. Unless the
   * transport breaks, the parser ends up not waiting for anything, which is where the bounds above start from.
   */
  lemma NeverInvalid<E>(command: Command, peer: Peer<E>, m: Machine, retries: nat, env: E)
    requires m.Valid() && !m.closed
    ensures var (outcome, last, _) := Run(command, peer, Call(m, false, retries, []), env);
            && outcome != UnexpectedEvent && outcome != InvalidState
            && last.m.Valid() && !last.m.closed
            && (outcome.Returned? ==> last.m.state == InSync)
            && (outcome != Disconnected ==> !last.m.Waiting())
  {
    RunEnds(command, peer, Call(m, false, retries, []), env);
  }
}
