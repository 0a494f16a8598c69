/**
 * One remote call: the loop that obtains synchronization, sends a command, waits for its reply and retries.
 * The transport is an arbitrary strategy `Peer` with private state of any type `E`: it may fail to send, stay
 * silent until the timeout, break, or answer with any bytes, depending on everything that happened before.
 */
module Connection {
  import opened Bytes
  import opened Messages
  import opened Protocol
  import opened Conservation

  /** A transport never returns an empty piece of data; `Arrived` makes that part of the type. */
  datatype Receipt = Arrived(first: byte, rest: seq<byte>) | Late | Broken

  datatype Peer<!E> = Peer(send: (E, seq<byte>) -> (bool, E), receive: E -> (Receipt, E))

  /** One interaction with the transport: what was sent and whether that failed, or what a receive operation gave. */
  datatype Io = Tx(raw: seq<byte>, ofCommand: bool, delivered: bool) | Rx(data: seq<byte>) | RxLate | RxBroken

  /** How a call ends; everything but `Returned` is an exception. */
  datatype Outcome =
    | Returned(value: seq<byte>)
    | Refused(code: ReplyCode)
    | TimedOut
    | SendError
    | ExcessDataError
    | Disconnected
    | ArgumentsTooLong
    | InvalidState
    | UnexpectedEvent

  /** The variables of the loop: the parser, `sent`, `retries_left`, and everything exchanged so far. */
  datatype Call = Call(m: Machine, sent: bool, retries: nat, log: seq<Io>) {
    ghost predicate Valid() {
      && m.Valid()
      && !m.closed
      && (sent ==> m.state == Idle || m.Waiting())
    }

    /** How far from its end one attempt is, coarsely. */
    function Stage(): nat {
      if m.Waiting() then (if sent then 0 else 2)
      else if m.state == InSync then 1
      else 3
    }

    function Phase(): nat {
      match m.state
      case WaitResponseLength => 2
      case WaitResponse => 1
      case _ => 0
    }

    /** Bytes still missing in the current phase. */
    function Missing(): nat {
      if m.Waiting() && m.expected > |m.buffer| then m.expected - |m.buffer| else 0
    }
  }

  datatype Turn<+E> = Again(call: Call, env: E) | Finished(outcome: Outcome, call: Call, env: E)

  /** Spends a retry, or gives up with the error. */
  function Retry<E>(call: Call, env: E, outcome: Outcome): Turn<E> {
    if call.retries == 0 then Finished(outcome, call, env)
    else Again(call.(retries := call.retries - 1), env)
  }

  function Transmit<E>(command: Command, peer: Peer<E>, call: Call, env: E): Turn<E> {
    var syncing := call.m.state != InSync;
    var sent := call.sent && !syncing;
    if sent then Finished(InvalidState, call, env)
    else match call.m.Sent(if syncing then GetSync else command)
      case NeedSync => Finished(InvalidState, call, env)
      case ArgumentsTooLong => Finished(Outcome.ArgumentsTooLong, call, env)
      case Raw(raw, m) =>
        var (delivered, env') := peer.send(env, raw);
        var log := call.log + [Tx(raw, !syncing, delivered)];
        if delivered then Again(Call(m, !syncing, call.retries, log), env')
        else Retry(Call(m.SendFailed(), false, call.retries, log), env', SendError)
  }

  function Listen<E>(peer: Peer<E>, call: Call, env: E): Turn<E> {
    match peer.receive(env)
    case (Late, env') => Retry(call.(m := call.m.Reset(), log := call.log + [RxLate]), env', TimedOut)
    case (Broken, env') => Finished(Disconnected, call.(log := call.log + [RxBroken]), env')
    case (Arrived(first, rest), env') =>
      var data := [first] + rest;
      (match call.m.Fed(data)
       case None => Finished(UnexpectedEvent, call, env')
       case Some(m) => Again(call.(m := m, log := call.log + [Rx(data)]), env'))
  }

  /** What the loop does with an event, which left the parser as `m`. */
  function Respond<E>(command: Command, peer: Peer<E>, call: Call, event: Event, m: Machine, env: E): Turn<E> {
    var next := call.(m := m);
    match event
    case OurTurn => Transmit(command, peer, next, env)
    case NeedMoreData => Listen(peer, next, env)
    case Reply(response) =>
      if response.code != Success then Finished(Refused(response.code), next, env)
      else if call.sent then Finished(Returned(response.payload), next, env)
      else Again(next, env)
    case ExcessData(_) => Retry(next.(m := m.Reset()), env, ExcessDataError)
    case ConnectionClosed => Finished(UnexpectedEvent, next, env)
  }

  /** One turn of the loop. */
  function Iterate<E>(command: Command, peer: Peer<E>, call: Call, env: E): Turn<E> {
    var (event, m) := call.m.Next();
    Respond(command, peer, call, event, m, env)
  }

  /** All that matters here about the next event and the parser after it. */
  ghost predicate Follows(call: Call, event: Event, m: Machine) {
    var next := call.(m := m);
    && m.Valid() && !m.closed && event != ConnectionClosed
    // it is our turn only when nothing at all is held
    && (event == OurTurn ==> m == call.m && m.payload == [] && m.buffer == [] && !m.Waiting())
    // while the parser asks for more, it keeps waiting and lacks at least one byte of what it waits for
    && (event == NeedMoreData ==>
          && call.m.Waiting() && m.Waiting() && m.expected > |m.buffer|
          && next.Phase() <= call.Phase()
          && (next.Phase() == call.Phase() ==> m == call.m))
    // a reply only comes while waiting, and leaves the parser in sync
    && (event.Reply? ==> call.m.Waiting() && m.state == InSync)
  }

  lemma StarvedFollows(call: Call)
    requires call.Valid() && call.m.Next().0 == NeedMoreData
    ensures Follows(call, NeedMoreData, call.m.Next().1)
  {
    hide FromLe, Find, AcceptedCode;
    NextValid(call.m);
    LengthReadValid(call.m);
    BodyReadValid(call.m.LengthRead());
    var m := call.m.LengthRead().BodyRead();
    assert m == call.m.Next().1;
  }

  lemma NextFollows(call: Call)
    requires call.Valid()
    ensures Follows(call, call.m.Next().0, call.m.Next().1)
  {
    hide FromLe, Find, AcceptedCode;
    NextValid(call.m);
    LengthReadValid(call.m);
    BodyReadValid(call.m.LengthRead());
    match call.m.Next().0 {
      case OurTurn => OurTurnMeansEmpty(call.m);
      case NeedMoreData => StarvedFollows(call);
      case _ =>
    }
  }

  /** The measure of the loop: retries left, then the stage of the attempt, then what the parser still waits for. */
  ghost predicate Closer(c: Call, d: Call) {
    || c.retries < d.retries
    || (c.retries == d.retries && c.Stage() < d.Stage())
    || (c.retries == d.retries && c.Stage() == d.Stage() && c.Phase() < d.Phase())
    || (c.retries == d.retries && c.Stage() == d.Stage() && c.Phase() == d.Phase() && c.Missing() < d.Missing())
  }

  lemma TransmitProgress<E>(command: Command, peer: Peer<E>, call: Call, env: E)
    requires call.Valid() && !call.m.Waiting()
    ensures var turn := Transmit(command, peer, call, env);
            && turn.call.m.Valid() && !turn.call.m.closed
            && (turn.Again? ==> turn.call.Valid() && Closer(turn.call, call))
            && turn != Finished(UnexpectedEvent, turn.call, turn.env)
            && turn != Finished(InvalidState, turn.call, turn.env)
  {
    OthersValid(call.m, [], GetSync);
    OthersValid(call.m, [], command);
  }

  lemma ListenProgress<E>(peer: Peer<E>, call: Call, env: E)
    requires call.Valid() && call.m.Waiting() && call.m.expected > |call.m.buffer|
    ensures var turn := Listen(peer, call, env);
            && turn.call.m.Valid() && !turn.call.m.closed
            && (turn.Again? ==> turn.call.Valid() && Closer(turn.call, call))
            && turn != Finished(UnexpectedEvent, turn.call, turn.env)
            && turn != Finished(InvalidState, turn.call, turn.env)
  {
    OthersValid(call.m, [], GetSync);
  }

  lemma RespondProgress<E>(command: Command, peer: Peer<E>, call: Call, event: Event, m: Machine, env: E)
    requires call.Valid() && Follows(call, event, m)
    ensures var turn := Respond(command, peer, call, event, m, env);
            && turn.call.m.Valid() && !turn.call.m.closed
            && (turn.Again? ==> turn.call.Valid() && Closer(turn.call, call))
            && turn != Finished(UnexpectedEvent, turn.call, turn.env)
            && turn != Finished(InvalidState, turn.call, turn.env)
  {
    var next := call.(m := m);
    match event {
      case OurTurn => TransmitProgress(command, peer, next, env);
      case NeedMoreData => ListenProgress(peer, next, env);
      case _ =>
    }
  }

  /** Every turn comes closer to the end, and the two "cannot happen" branches of the source indeed cannot happen. */
  lemma IterateProgress<E>(command: Command, peer: Peer<E>, call: Call, env: E)
    requires call.Valid()
    ensures var turn := Iterate(command, peer, call, env);
            && turn.call.m.Valid() && !turn.call.m.closed
            && (turn.Again? ==> turn.call.Valid() && Closer(turn.call, call))
            && turn != Finished(UnexpectedEvent, turn.call, turn.env)
            && turn != Finished(InvalidState, turn.call, turn.env)
  {
    NextFollows(call);
    RespondProgress(command, peer, call, call.m.Next().0, call.m.Next().1, env);
  }

  /** The whole call. It ends for every peer. */
  function Run<E>(command: Command, peer: Peer<E>, call: Call, env: E): (Outcome, Call, E)
    requires call.Valid()
    decreases call.retries, call.Stage(), call.Phase(), call.Missing()
  {
    IterateProgress(command, peer, call, env);
    match Iterate(command, peer, call, env)
    case Finished(outcome, call', env') => (outcome, call', env')
    case Again(call', env') => Run(command, peer, call', env')
  }

  /** The call as the source has it: a loop over the mutable parser. */
  class BootloaderConnection<E> {
    const protocol: Protocol
    const peer: Peer<E>
    var env: E

    constructor (peer: Peer<E>, env: E)
      ensures protocol.Snapshot() == Fresh && fresh(protocol)
      ensures this.peer == peer && this.env == env
    {
      this.protocol := new Protocol();
      this.peer := peer;
      this.env := env;
    }

    method ProcessCommandInner(command: Command, maxRetries: nat) returns (outcome: Outcome, ghost log: seq<Io>)
      requires protocol.Snapshot().Valid() && !protocol.bufferClosed
      modifies this, protocol
      ensures var (o, c, e) := Run(command, peer, Call(old(protocol.Snapshot()), false, maxRetries, []), old(env));
              outcome == o && protocol.Snapshot() == c.m && log == c.log && env == e
      ensures protocol.Snapshot().Valid() && !protocol.bufferClosed
    {
      var retriesLeft, sent := maxRetries, false;
      log := [];
      ghost var result := Run(command, peer, Call(protocol.Snapshot(), false, maxRetries, []), env);
      while true
        invariant Call(protocol.Snapshot(), sent, retriesLeft, log).Valid()
        invariant Run(command, peer, Call(protocol.Snapshot(), sent, retriesLeft, log), env) == result
        decreases retriesLeft,
                  Call(protocol.Snapshot(), sent, retriesLeft, []).Stage(),
                  Call(protocol.Snapshot(), sent, retriesLeft, []).Phase(),
                  Call(protocol.Snapshot(), sent, retriesLeft, []).Missing()
      {
        IterateProgress(command, peer, Call(protocol.Snapshot(), sent, retriesLeft, log), env);
        var done: Option<Outcome>;
        sent, retriesLeft, done, log := TakeTurn(command, sent, retriesLeft, log);
        if done.Some? {
          return done.value, log;
        }
      }
    }

    /** The body of the loop. */
    method TakeTurn(command: Command, sent: bool, retriesLeft: nat, ghost log: seq<Io>)
      returns (sent': bool, retriesLeft': nat, done: Option<Outcome>, ghost log': seq<Io>)
      requires protocol.Snapshot().Valid()
      modifies this, protocol
      ensures var turn := Iterate(command, peer, Call(old(protocol.Snapshot()), sent, retriesLeft, log), old(env));
              && env == turn.env && protocol.Snapshot() == turn.call.m && log' == turn.call.log
              && (turn.Again? ==> done == None && turn.call == Call(protocol.Snapshot(), sent', retriesLeft', log'))
              && (turn.Finished? ==> done == Some(turn.outcome))
    {
      sent', retriesLeft', done, log' := sent, retriesLeft, None, log;
      var event := protocol.NextEvent();
      match event {
        case OurTurn =>
          sent', retriesLeft', done, log' := SendNext(command, sent, retriesLeft, log);
        case NeedMoreData =>
          retriesLeft', done, log' := ReceiveMore(sent, retriesLeft, log);
        case Reply(response) =>
          if response.code != Success {
            done := Some(Refused(response.code));
          } else if sent {
            done := Some(Returned(response.payload));
          }
        case ExcessData(_) =>
          protocol.Reset();
          if retriesLeft == 0 {
            done := Some(ExcessDataError);
          } else {
            retriesLeft' := retriesLeft - 1;
          }
        case ConnectionClosed =>
          done := Some(UnexpectedEvent);
      }
    }

    /** The branch of the loop for our turn: synchronize if necessary, otherwise send the command. */
    method SendNext(command: Command, sent: bool, retriesLeft: nat, ghost log: seq<Io>)
      returns (sent': bool, retriesLeft': nat, error: Option<Outcome>, ghost log': seq<Io>)
      modifies this, protocol
      ensures var turn := Transmit(command, peer, Call(old(protocol.Snapshot()), sent, retriesLeft, log), old(env));
              && env == turn.env && protocol.Snapshot() == turn.call.m && log' == turn.call.log
              && (turn.Again? ==> error == None && turn.call == Call(protocol.Snapshot(), sent', retriesLeft', log'))
              && (turn.Finished? ==> error == Some(turn.outcome))
    {
      sent', retriesLeft', error, log' := sent, retriesLeft, None, log;
      var syncing := protocol.state != InSync;
      if syncing {
        sent' := false;
      } else if sent {
        error := Some(InvalidState);
        return;
      }
      var result := protocol.Send(if syncing then GetSync else command);
      match result {
        case NeedSync => error := Some(InvalidState);
        case ArgumentsTooLong => error := Some(Outcome.ArgumentsTooLong);
        case Raw(raw, _) =>
          var (delivered, e) := peer.send(env, raw);
          env := e;
          log' := log' + [Tx(raw, !syncing, delivered)];
          if delivered {
            sent' := !syncing;
          } else {
            protocol.SendFailed();
            if retriesLeft' == 0 {
              error := Some(SendError);
            } else {
              retriesLeft' := retriesLeft' - 1;
            }
          }
      }
    }

    /** The branch of the loop that waits for the transport. */
    method ReceiveMore(sent: bool, retriesLeft: nat, ghost log: seq<Io>)
      returns (retriesLeft': nat, error: Option<Outcome>, ghost log': seq<Io>)
      modifies this, protocol
      ensures var turn := Listen(peer, Call(old(protocol.Snapshot()), sent, retriesLeft, log), old(env));
              && env == turn.env && protocol.Snapshot() == turn.call.m && log' == turn.call.log
              && (turn.Again? ==> error == None && turn.call == Call(protocol.Snapshot(), sent, retriesLeft', log'))
              && (turn.Finished? ==> error == Some(turn.outcome))
    {
      retriesLeft', error, log' := retriesLeft, None, log;
      var (receipt, e) := peer.receive(env);
      env := e;
      match receipt {
        case Late =>
          protocol.Reset();
          log' := log' + [RxLate];
          if retriesLeft' == 0 {
            error := Some(TimedOut);
          } else {
            retriesLeft' := retriesLeft' - 1;
          }
        case Broken =>
          log' := log' + [RxBroken];
          error := Some(Disconnected);
        case Arrived(first, rest) =>
          var accepted := protocol.Feed([first] + rest);
          if accepted {
            log' := log' + [Rx([first] + rest)];
          } else {
            error := Some(UnexpectedEvent);
          }
      }
    }
  }
}
