/**
 * How a call can end, against every peer: the log says truly what was sent and received, its last entry decides which
 * error is reported, and failures are paid for with retries.
 */
module CallOutcomes {
  import opened Bytes
  import opened Messages
  import opened Protocol
  import opened Conservation
  import opened Connection
  import opened CallGuarantees

  // ---- the log is true ----

  /** The peer after an interaction, if it really answers like that. */
  function Told<E>(peer: Peer<E>, env: E, io: Io): Option<E> {
    match io
    case Tx(raw, _, delivered) => if peer.send(env, raw).0 == delivered then Some(peer.send(env, raw).1) else None
    case Rx(data) =>
      var (receipt, env') := peer.receive(env);
      if receipt.Arrived? && data == [receipt.first] + receipt.rest then Some(env') else None
    case RxLate => if peer.receive(env).0 == Late then Some(peer.receive(env).1) else None
    case RxBroken => if peer.receive(env).0 == Broken then Some(peer.receive(env).1) else None
  }

  /** The peer after a whole log, if it really answers like that. */
  function Replayed<E>(peer: Peer<E>, env: E, log: seq<Io>): Option<E> {
    if log == [] then Some(env)
    else
      var before := Replayed(peer, env, log[..|log| - 1]);
      if before == None then None else Told(peer, before.value, log[|log| - 1])
  }

  lemma ReplayedOneMore<E>(peer: Peer<E>, env: E, log: seq<Io>, io: Io)
    ensures Replayed(peer, env, log + [io]) ==
            if Replayed(peer, env, log) == None then None else Told(peer, Replayed(peer, env, log).value, io)
  {
    assert (log + [io])[..|log|] == log;
  }

  /** Only GET_SYNC and the command itself are ever sent, in their encoded forms. */
  ghost predicate OnlySends(command: Command, log: seq<Io>) {
    forall i :: 0 <= i < |log| && log[i].Tx? ==>
      Some(log[i].raw) == (if log[i].ofCommand then command else GetSync).ToBytes()
  }

  lemma TransmitTells<E>(command: Command, peer: Peer<E>, origin: E, call: Call, env: E)
    requires Replayed(peer, origin, call.log) == Some(env) && OnlySends(command, call.log)
    ensures var turn := Transmit(command, peer, call, env);
            Replayed(peer, origin, turn.call.log) == Some(turn.env) && OnlySends(command, turn.call.log)
  {
    hide Replayed;
    var syncing := call.m.state != InSync;
    match call.m.Sent(if syncing then GetSync else command) {
      case Raw(raw, _) => ReplayedOneMore(peer, origin, call.log, Tx(raw, !syncing, peer.send(env, raw).0));
      case _ =>
    }
  }

  lemma ListenTells<E>(peer: Peer<E>, origin: E, call: Call, env: E)
    requires !call.m.closed && Replayed(peer, origin, call.log) == Some(env)
    ensures var turn := Listen(peer, call, env);
            && Replayed(peer, origin, turn.call.log) == Some(turn.env)
            && |turn.call.log| == |call.log| + 1 && turn.call.log[..|call.log|] == call.log
            && !turn.call.log[|call.log|].Tx?
  {
    hide Replayed;
    match peer.receive(env).0 {
      case Late => ReplayedOneMore(peer, origin, call.log, RxLate);
      case Broken => ReplayedOneMore(peer, origin, call.log, RxBroken);
      case Arrived(first, rest) => ReplayedOneMore(peer, origin, call.log, Rx([first] + rest));
    }
  }

  lemma IterateTells<E>(command: Command, peer: Peer<E>, origin: E, call: Call, env: E)
    requires call.Valid() && Replayed(peer, origin, call.log) == Some(env) && OnlySends(command, call.log)
    ensures var turn := Iterate(command, peer, call, env);
            Replayed(peer, origin, turn.call.log) == Some(turn.env) && OnlySends(command, turn.call.log)
  {
    hide Replayed, Transmit, Listen;
    NextFollows(call);
    match call.m.Next().0 {
      case OurTurn => TransmitTells(command, peer, origin, call, env);
      case NeedMoreData => ListenTells(peer, origin, call.(m := call.m.Next().1), env);
      case _ =>
    }
  }

  lemma {:induction false} RunTells<E>(command: Command, peer: Peer<E>, origin: E, call: Call, env: E)
    requires call.Valid() && Replayed(peer, origin, call.log) == Some(env) && OnlySends(command, call.log)
    ensures var (_, last, env') := Run(command, peer, call, env);
            Replayed(peer, origin, last.log) == Some(env') && OnlySends(command, last.log)
    decreases call.retries, call.Stage(), call.Phase(), call.Missing()
  {
    hide Replayed, OnlySends, Iterate;
    IterateProgress(command, peer, call, env);
    IterateTells(command, peer, origin, call, env);
    match Iterate(command, peer, call, env) {
      case Finished(_, _, _) =>
      case Again(call', env') => RunTells(command, peer, origin, call', env');
    }
  }

  /** The log of a call is what the peer really did, and nothing but GET_SYNC and the command has been sent. */
  lemma LogIsTrue<E>(command: Command, peer: Peer<E>, m: Machine, retries: nat, env: E)
    requires m.Valid() && !m.closed
    ensures var (_, last, env') := Run(command, peer, Call(m, false, retries, []), env);
            Replayed(peer, env, last.log) == Some(env') && OnlySends(command, last.log)
  {
    RunTells(command, peer, env, Call(m, false, retries, []), env);
  }

  // ---- the last entry decides ----

  /** What the parser is like after the last interaction. */
  ghost predicate Fitting(call: Call) {
    call.log != [] ==>
      match call.log[|call.log| - 1]
      case Tx(_, _, delivered) =>
        && call.m.buffer == [] && call.m.payload == []
        && if delivered then call.m.Waiting() else call.m.state == Error
      case Rx(_) => true
      case RxLate => call.m.buffer == [] && call.m.state == Idle
      case RxBroken => false
  }

  /** The error of a call is that of its last interaction, if that has failed; otherwise something was received. */
  ghost predicate Ended(outcome: Outcome, log: seq<Io>) {
    if log == [] then outcome != SendError && outcome != TimedOut && outcome != Disconnected
    else
      match log[|log| - 1]
      case Tx(_, _, delivered) => !delivered && outcome == SendError
      case Rx(_) => outcome != SendError && outcome != TimedOut && outcome != Disconnected
      case RxLate => outcome == TimedOut || outcome == ExcessDataError
      case RxBroken => outcome == Disconnected
  }

  /** A parser that holds nothing has nothing to report. */
  lemma EmptyIsQuiet(m: Machine)
    requires m.Valid() && !m.closed && m.buffer == [] && m.payload == []
    ensures m.Next().0 == if m.Waiting() then NeedMoreData else OurTurn
  {
  }

  lemma RespondEnds<E>(command: Command, peer: Peer<E>, call: Call, event: Event, m: Machine, env: E)
    requires call.Valid() && Fitting(call) && Follows(call, event, m)
    requires call.m.buffer == [] && call.m.payload == [] ==>
               event == if call.m.Waiting() then NeedMoreData else OurTurn
    ensures var turn := Respond(command, peer, call, event, m, env);
            if turn.Again? then Fitting(turn.call) else Ended(turn.outcome, turn.call.log)
  {
    match event {
      case OurTurn => TransmitEnds(command, peer, call, env);
      case NeedMoreData =>
      case _ =>
    }
  }

  lemma TransmitEnds<E>(command: Command, peer: Peer<E>, call: Call, env: E)
    requires call.Valid() && Fitting(call) && call.m.payload == [] && call.m.buffer == [] && !call.m.Waiting()
    ensures var turn := Transmit(command, peer, call, env);
            if turn.Again? then Fitting(turn.call) else Ended(turn.outcome, turn.call.log)
  {
  }

  lemma IterateEnds<E>(command: Command, peer: Peer<E>, call: Call, env: E)
    requires call.Valid() && Fitting(call)
    ensures var turn := Iterate(command, peer, call, env);
            if turn.Again? then Fitting(turn.call) else Ended(turn.outcome, turn.call.log)
  {
    hide Fitting, Ended;
    NextFollows(call);
    if call.m.buffer == [] && call.m.payload == [] {
      EmptyIsQuiet(call.m);
    }
    RespondEnds(command, peer, call, call.m.Next().0, call.m.Next().1, env);
  }

  lemma {:induction false} RunEnded<E>(command: Command, peer: Peer<E>, call: Call, env: E)
    requires call.Valid() && Fitting(call)
    ensures var (outcome, last, _) := Run(command, peer, call, env); Ended(outcome, last.log)
    decreases call.retries, call.Stage(), call.Phase(), call.Missing()
  {
    hide Fitting, Ended, Iterate;
    IterateProgress(command, peer, call, env);
    IterateEnds(command, peer, call, env);
    match Iterate(command, peer, call, env) {
      case Finished(_, _, _) =>
      case Again(call', env') => RunEnded(command, peer, call', env');
    }
  }

  /**
   * Which error a call reports, for every peer. `SendError` means that the last interaction was a failed send, and the
   * other way round; `Disconnected` that the transport broke. A call that times out was last silent; a call that was
   * last silent times out, unless the parser had received a whole value, which is reported as excess data then.
   */
  lemma ErrorsAreGenuine<E>(command: Command, peer: Peer<E>, m: Machine, retries: nat, env: E)
    requires m.Valid() && !m.closed
    ensures var (outcome, last, _) := Run(command, peer, Call(m, false, retries, []), env);
            var log := last.log;
            && (outcome == SendError <==> log != [] && log[|log| - 1].Tx? && !log[|log| - 1].delivered)
            && (outcome == Disconnected <==> log != [] && log[|log| - 1].RxBroken?)
            && (outcome == TimedOut ==> log != [] && log[|log| - 1].RxLate?)
            && (log != [] && log[|log| - 1].RxLate? ==> outcome == TimedOut || outcome == ExcessDataError)
            && (log != [] && log[|log| - 1].Tx? ==> !log[|log| - 1].delivered)
  {
    hide Run;
    RunEnded(command, peer, Call(m, false, retries, []), env);
    var log := Run(command, peer, Call(m, false, retries, []), env).1.log;
    if log != [] {
      match log[|log| - 1] {
        case _ =>
      }
    }
  }

  // ---- refusals ----

  /** What has been received since the last transmission, or since the start, when `start` was already held. */
  function Heard(start: seq<byte>, log: seq<Io>): seq<byte> {
    if log == [] then start else HeardThen(Heard(start, log[..|log| - 1]), log[|log| - 1])
  }

  function HeardThen(heard: seq<byte>, io: Io): seq<byte> {
    if io.Tx? then [] else if io.Rx? then heard + io.data else heard
  }

  lemma HeardOneMore(start: seq<byte>, log: seq<Io>, io: Io)
    ensures Heard(start, log + [io]) == HeardThen(Heard(start, log), io)
  {
    assert (log + [io])[..|log|] == log;
  }

  ghost predicate EndsIn(whole: seq<byte>, end: seq<byte>) {
    |end| <= |whole| && whole[|whole| - |end|..] == end
  }

  /** The marker and a result code, one right after the other. */
  ghost predicate Marks(s: seq<byte>, code: ReplyCode) {
    exists i :: 0 <= i < |s| - 1 && s[i] == 0x12 && s[i + 1] == code.Code()
  }

  lemma EndsTransitive(whole: seq<byte>, middle: seq<byte>, end: seq<byte>)
    requires EndsIn(whole, middle) && EndsIn(middle, end)
    ensures EndsIn(whole, end)
  {
    assert whole[|whole| - |middle|..][|middle| - |end|..] == whole[|whole| - |end|..];
  }

  lemma MarksEarlier(whole: seq<byte>, end: seq<byte>, code: ReplyCode)
    requires EndsIn(whole, end) && Marks(end, code)
    ensures Marks(whole, code)
  {
    var i :| 0 <= i < |end| - 1 && end[i] == 0x12 && end[i + 1] == code.Code();
    var at := |whole| - |end| + i;
    assert whole[at] == end[i] && whole[at + 1] == end[i + 1];
  }

  lemma EndsFurther(whole: seq<byte>, end: seq<byte>, data: seq<byte>)
    requires EndsIn(whole, end)
    ensures EndsIn(whole + data, end + data)
  {
  }

  lemma HuntingTakesFront(m: Machine)
    ensures EndsIn(m.buffer, m.Hunted().1.buffer)
    ensures m.Hunted().0.Reply? ==> Marks(m.buffer, m.Hunted().0.response.code)
  {
  }

  lemma PurgingTakesFront(m: Machine)
    ensures EndsIn(m.buffer, m.Purged(|m.buffer|).1.buffer) && !m.Purged(|m.buffer|).0.Reply?
  {
  }

  lemma ReadingTakesFront(m: Machine)
    ensures EndsIn(m.buffer, m.LengthRead().BodyRead().buffer)
  {
    hide FromLe;
  }

  /** Asking for an event only takes bytes from the front, and a reply carries the code that is behind its marker. */
  lemma NextTakesFront(m: Machine)
    requires m.Valid() && !m.closed
    ensures EndsIn(m.buffer, m.Next().1.buffer)
    ensures m.Next().0.Reply? ==> Marks(m.buffer, m.Next().0.response.code)
  {
    hide EndsIn, Marks, Find, AcceptedCode, FromLe;
    var read := m.LengthRead().BodyRead();
    ReadingTakesFront(m);
    HuntingTakesFront(read);
    PurgingTakesFront(read);
    EndsTransitive(m.buffer, read.buffer, read.Hunted().1.buffer);
    EndsTransitive(m.buffer, read.buffer, read.Purged(|read.buffer|).1.buffer);
    if read.Hunted().0.Reply? {
      MarksEarlier(m.buffer, read.buffer, read.Hunted().0.response.code);
    }
  }

  /** The parser's buffer is the end of what has been received. */
  ghost predicate Current(start: seq<byte>, call: Call) {
    EndsIn(Heard(start, call.log), call.m.buffer)
  }

  /** A refusal has been received; arguments are only called too long when they are. */
  ghost predicate Justified(command: Command, start: seq<byte>, outcome: Outcome, log: seq<Io>) {
    && (outcome.Refused? ==> outcome.code != Success && Marks(Heard(start, log), outcome.code))
    && (outcome == Outcome.ArgumentsTooLong ==> command.ToBytes() == None)
  }

  lemma TransmitJustified<E>(command: Command, peer: Peer<E>, call: Call, env: E, start: seq<byte>)
    requires call.m.buffer == []
    ensures var turn := Transmit(command, peer, call, env);
            if turn.Again? then Current(start, turn.call) else Justified(command, start, turn.outcome, turn.call.log)
  {
    assert forall s: seq<byte> :: EndsIn(s, []);
  }

  lemma ListenCurrent<E>(peer: Peer<E>, call: Call, env: E, start: seq<byte>)
    requires Current(start, call) && !call.m.closed
    ensures var turn := Listen(peer, call, env);
            if turn.Again? then Current(start, turn.call)
            else !turn.outcome.Refused? && turn.outcome != Outcome.ArgumentsTooLong
  {
    match peer.receive(env).0 {
      case Arrived(first, rest) =>
        HeardOneMore(start, call.log, Rx([first] + rest));
        EndsFurther(Heard(start, call.log), call.m.buffer, [first] + rest);
      case _ =>
    }
  }

  lemma RespondJustified<E>(command: Command, peer: Peer<E>, call: Call, event: Event, m: Machine, env: E,
                            start: seq<byte>)
    requires Follows(call, event, m) && Current(start, call.(m := m))
    requires event.Reply? ==> Marks(Heard(start, call.log), event.response.code)
    ensures var turn := Respond(command, peer, call, event, m, env);
            if turn.Again? then Current(start, turn.call) else Justified(command, start, turn.outcome, turn.call.log)
  {
    hide Marks, Heard, Transmit, Listen;
    match event {
      case OurTurn => TransmitJustified(command, peer, call, env, start);
      case NeedMoreData => ListenCurrent(peer, call.(m := m), env, start);
      case _ =>
    }
  }

  lemma IterateJustified<E>(command: Command, peer: Peer<E>, call: Call, env: E, start: seq<byte>)
    requires call.Valid() && Current(start, call)
    ensures var turn := Iterate(command, peer, call, env);
            if turn.Again? then Current(start, turn.call) else Justified(command, start, turn.outcome, turn.call.log)
  {
    hide Marks, Heard, EndsIn, Respond, Justified;
    var (event, m) := call.m.Next();
    NextFollows(call);
    NextTakesFront(call.m);
    EndsTransitive(Heard(start, call.log), call.m.buffer, m.buffer);
    if event.Reply? {
      MarksEarlier(Heard(start, call.log), call.m.buffer, event.response.code);
    }
    RespondJustified(command, peer, call, event, m, env, start);
  }

  lemma {:induction false} RunJustified<E>(command: Command, peer: Peer<E>, call: Call, env: E, start: seq<byte>)
    requires call.Valid() && Current(start, call)
    ensures var (outcome, last, _) := Run(command, peer, call, env);
            Justified(command, start, outcome, last.log)
    decreases call.retries, call.Stage(), call.Phase(), call.Missing()
  {
    hide Current, Justified, Iterate;
    IterateProgress(command, peer, call, env);
    IterateJustified(command, peer, call, env, start);
    match Iterate(command, peer, call, env) {
      case Finished(_, _, _) =>
      case Again(call', env') => RunJustified(command, peer, call', env', start);
    }
  }

  /**
   * A call is only refused, with any code, if the marker and that code have been received since its last transmission;
   * and for too long arguments only if they cannot be encoded.
   */
  lemma RefusalsAreReceived<E>(command: Command, peer: Peer<E>, m: Machine, retries: nat, env: E)
    requires m.Valid() && !m.closed
    ensures var (outcome, last, _) := Run(command, peer, Call(m, false, retries, []), env);
            && (outcome.Refused? ==> outcome.code != Success && Marks(Heard(m.buffer, last.log), outcome.code))
            && (outcome == Outcome.ArgumentsTooLong ==> command.ToBytes() == None)
  {
    hide Run, Marks;
    RunJustified(command, peer, Call(m, false, retries, []), env, m.buffer);
  }

  /** A parser in sync sends nothing of a command with too long arguments, and stays in sync. */
  lemma TooLongIsNotSent<E>(command: Command, peer: Peer<E>, m: Machine, retries: nat, env: E)
    requires m.Valid() && !m.closed && m.state == InSync && m.buffer == [] && command.ToBytes() == None
    ensures var call := Call(m, false, retries, []);
            Run(command, peer, call, env) == (Outcome.ArgumentsTooLong, call, env)
  {
    hide Run;
    EmptyIsQuiet(m);
    RunTurn(command, peer, Call(m, false, retries, []), env);
  }

  // ---- silence ----

  lemma StarvedKeeps(m: Machine)
    requires m.Valid() && !m.closed && m.Next().0 == NeedMoreData
    ensures var m' := m.Next().1; m'.Valid() && !m'.closed && m'.Waiting()
  {
    NextFollows(Call(m, false, 0, []));
  }

  /** What a parser that is idle and holds only a payload says. */
  lemma LeftoverIsExcess(m: Machine)
    requires m.Valid() && !m.closed && m.state == Idle && m.buffer == [] && m.payload != []
    ensures m.Next() == (ExcessData(m.payload), m.(payload := []))
  {
    assert m.payload + [] == m.payload && m.buffer[..0] == [] && m.buffer[0..] == [];
  }

  lemma RunTurn<E>(command: Command, peer: Peer<E>, call: Call, env: E)
    requires call.Valid()
    ensures var turn := Iterate(command, peer, call, env);
            && (turn.Again? ==> turn.call.Valid())
            && Run(command, peer, call, env) ==
               if turn.Again? then Run(command, peer, turn.call, turn.env) else (turn.outcome, turn.call, turn.env)
  {
    hide Iterate;
    IterateProgress(command, peer, call, env);
  }

  lemma SilentTurn<E>(command: Command, peer: Peer<E>, call: Call, env: E)
    requires call.Valid() && call.m.Next().0 == NeedMoreData && peer.receive(env).0 == Late
    ensures Iterate(command, peer, call, env) ==
            Retry(Call(call.m.Next().1.Reset(), call.sent, call.retries, call.log + [RxLate]),
                  peer.receive(env).1, TimedOut)
  {
  }

  lemma LeftoverTurn<E>(command: Command, peer: Peer<E>, call: Call, env: E)
    requires call.Valid() && call.m.state == Idle && call.m.buffer == [] && call.m.payload != []
    ensures Iterate(command, peer, call, env) == Retry(call.(m := call.m.(payload := [])), env, ExcessDataError)
  {
    LeftoverIsExcess(call.m);
  }

  /**
   * What one silent receive operation costs: a retry, and one more if the parser had received a whole value but not
   * the marker behind it. Resetting the parser does not drop that value, which is then reported as excess data.
   */
  lemma SilenceCosts<E>(command: Command, peer: Peer<E>, call: Call, env: E)
    requires call.Valid() && call.m.Next().0 == NeedMoreData && peer.receive(env).0 == Late
    ensures var (m, env', log) := (call.m.Next().1.Reset(), peer.receive(env).1, call.log + [RxLate]);
            Run(command, peer, call, env) ==
            if call.retries == 0 then (TimedOut, Call(m, call.sent, 0, log), env')
            else if m.payload == [] then Run(command, peer, Call(m, call.sent, call.retries - 1, log), env')
            else if call.retries == 1 then (ExcessDataError, Call(m.(payload := []), call.sent, 0, log), env')
            else Run(command, peer, Call(m.(payload := []), call.sent, call.retries - 2, log), env')
  {
    hide Run, Iterate;
    var m, env', log := call.m.Next().1.Reset(), peer.receive(env).1, call.log + [RxLate];
    StarvedKeeps(call.m);
    SilentTurn(command, peer, call, env);
    RunTurn(command, peer, call, env);
    if call.retries > 0 && m.payload != [] {
      var again := Call(m, call.sent, call.retries - 1, log);
      LeftoverTurn(command, peer, again, env');
      RunTurn(command, peer, again, env');
    }
  }

  /** If the call gave up, the value is still there when the next one begins: without retries that sends nothing. */
  lemma LeftoverFailsNextCall<E>(command: Command, peer: Peer<E>, m: Machine, env: E)
    requires m.Valid() && !m.closed && m.state == Idle && m.buffer == [] && m.payload != []
    ensures Run(command, peer, Call(m, false, 0, []), env) ==
            (ExcessDataError, Call(m.(payload := []), false, 0, []), env)
  {
    hide Run, Iterate;
    LeftoverTurn(command, peer, Call(m, false, 0, []), env);
    RunTurn(command, peer, Call(m, false, 0, []), env);
  }

  // ---- failures are paid for ----

  predicate Failed(io: Io) {
    (io.Tx? && !io.delivered) || io.RxLate?
  }

  function Failures(log: seq<Io>): nat {
    if log == [] then 0 else Failures(log[..|log| - 1]) + (if Failed(log[|log| - 1]) then 1 else 0)
  }

  lemma FailuresOneMore(log: seq<Io>, io: Io)
    ensures Failures(log + [io]) == Failures(log) + (if Failed(io) then 1 else 0)
  {
    assert (log + [io])[..|log|] == log;
  }

  /** The errors that retries are for. */
  predicate GivesUp(outcome: Outcome) {
    outcome == SendError || outcome == TimedOut || outcome == ExcessDataError
  }

  /** Every failure so far has cost a retry. */
  ghost predicate Paid(retries: nat, call: Call) {
    Failures(call.log) + call.retries <= retries
  }

  lemma IteratePays<E>(command: Command, peer: Peer<E>, call: Call, env: E, retries: nat)
    requires call.Valid() && Paid(retries, call)
    ensures var turn := Iterate(command, peer, call, env);
            if turn.Again? then Paid(retries, turn.call)
            else Failures(turn.call.log) + turn.call.retries <=
                 retries + (if turn.outcome == SendError || turn.outcome == TimedOut then 1 else 0)
    ensures var turn := Iterate(command, peer, call, env);
            turn.Finished? && GivesUp(turn.outcome) ==> turn.call.retries == 0
  {
    hide Failures;
    var (event, m) := call.m.Next();
    NextFollows(call);
    match event {
      case OurTurn => TransmitPays(command, peer, call, env, retries);
      case NeedMoreData => ListenPays(peer, call.(m := m), env, retries);
      case _ =>
    }
  }

  lemma TransmitPays<E>(command: Command, peer: Peer<E>, call: Call, env: E, retries: nat)
    requires Paid(retries, call)
    ensures var turn := Transmit(command, peer, call, env);
            if turn.Again? then Paid(retries, turn.call)
            else && Failures(turn.call.log) + turn.call.retries
                    <= retries + (if turn.outcome == SendError then 1 else 0)
                 && turn.outcome != TimedOut && turn.outcome != ExcessDataError
                 && (turn.outcome == SendError ==> turn.call.retries == 0)
  {
    hide Failures;
    var syncing := call.m.state != InSync;
    match call.m.Sent(if syncing then GetSync else command) {
      case Raw(raw, _) => FailuresOneMore(call.log, Tx(raw, !syncing, peer.send(env, raw).0));
      case _ =>
    }
  }

  lemma ListenPays<E>(peer: Peer<E>, call: Call, env: E, retries: nat)
    requires Paid(retries, call)
    ensures var turn := Listen(peer, call, env);
            if turn.Again? then Paid(retries, turn.call)
            else && Failures(turn.call.log) + turn.call.retries <= retries + (if turn.outcome == TimedOut then 1 else 0)
                 && turn.outcome != SendError && turn.outcome != ExcessDataError
                 && (turn.outcome == TimedOut ==> turn.call.retries == 0)
  {
    hide Failures;
    match peer.receive(env).0 {
      case Late => FailuresOneMore(call.log, RxLate);
      case Broken => FailuresOneMore(call.log, RxBroken);
      case Arrived(first, rest) => FailuresOneMore(call.log, Rx([first] + rest));
    }
  }

  lemma {:induction false} RunPays<E>(command: Command, peer: Peer<E>, call: Call, env: E, retries: nat)
    requires call.Valid() && Paid(retries, call)
    ensures var (outcome, last, _) := Run(command, peer, call, env);
            && Failures(last.log) + last.retries <=
               retries + (if outcome == SendError || outcome == TimedOut then 1 else 0)
            && (GivesUp(outcome) ==> last.retries == 0)
    decreases call.retries, call.Stage(), call.Phase(), call.Missing()
  {
    hide Iterate, Failures;
    IterateProgress(command, peer, call, env);
    IteratePays(command, peer, call, env, retries);
    match Iterate(command, peer, call, env) {
      case Finished(_, _, _) =>
      case Again(call', env') => RunPays(command, peer, call', env', retries);
    }
  }

  /**
   * Each failed send and each silent receive operation costs a retry, and a call gives up only without any left. So at
   * most r + 1 operations fail; without retries, the first one that does ends the call at once, with its own error.
   */
  lemma FailuresArePaid<E>(command: Command, peer: Peer<E>, m: Machine, retries: nat, env: E)
    requires m.Valid() && !m.closed
    ensures var (outcome, last, _) := Run(command, peer, Call(m, false, retries, []), env);
            && Failures(last.log) + last.retries <=
               retries + (if outcome == SendError || outcome == TimedOut then 1 else 0)
            && (GivesUp(outcome) ==> last.retries == 0)
  {
    RunPays(command, peer, Call(m, false, retries, []), env, retries);
  }

  lemma {:induction false} FailureIsCounted(log: seq<Io>, i: nat)
    requires i < |log| && Failed(log[i])
    ensures Failures(log) >= 1 && (i < |log| - 1 ==> Failures(log[..|log| - 1]) >= 1)
  {
    if i < |log| - 1 {
      FailureIsCounted(log[..|log| - 1], i);
    }
  }

  lemma FirstFailureEnds<E>(command: Command, peer: Peer<E>, m: Machine, env: E, i: nat)
    requires m.Valid() && !m.closed
    requires var log := Run(command, peer, Call(m, false, 0, []), env).1.log; i < |log| && Failed(log[i])
    ensures var (outcome, last, _) := Run(command, peer, Call(m, false, 0, []), env);
            i == |last.log| - 1 && outcome == if last.log[i].Tx? then SendError else TimedOut
  {
    hide Run, Failures;
    FailuresArePaid(command, peer, m, 0, env);
    ErrorsAreGenuine(command, peer, m, 0, env);
    var log := Run(command, peer, Call(m, false, 0, []), env).1.log;
    FailureIsCounted(log, i);
    FailuresOneMore(log[..|log| - 1], log[|log| - 1]);
    assert log == log[..|log| - 1] + [log[|log| - 1]];
  }

  // ---- a value without its marker ----

  /** Delivers everything, sends four bytes in answer to whatever, and then nothing any more. */
  const HalfAnswer: Peer<nat> :=
    Peer((n, raw) => (true, n), n => if n == 0 then (Arrived(0, [0, 0, 0]), 1) else (Late, n))

  const Synchronized := Machine([], false, [], InSync, 0)

  lemma HalfAnswerSent(call: Call)
    requires call == Call(Synchronized, false, 1, [])
    ensures Iterate(Command(GET_WRITE_PTR, []), HalfAnswer, call, 0) ==
            Again(Call(Machine([], false, [], WaitResponse, 4), true, 1, [Tx([0x2F, 0x20], true, true)]), 0)
  {
    assert call.m.Next() == (OurTurn, call.m);
    assert Command(GET_WRITE_PTR, []).ToBytes().value == [0x2F, 0x20];
  }

  lemma HalfAnswerHeard(call: Call)
    requires call == Call(Machine([], false, [], WaitResponse, 4), true, 1, [Tx([0x2F, 0x20], true, true)])
    ensures Iterate(Command(GET_WRITE_PTR, []), HalfAnswer, call, 0) ==
            Again(call.(m := Machine([0, 0, 0, 0], false, [], WaitResponse, 4),
                        log := call.log + [Rx([0, 0, 0, 0])]), 1)
  {
    assert [0 as byte] + [0, 0, 0] == [0, 0, 0, 0];
  }

  /** So a call that was last silent can report excess data: with one retry, four bytes and no marker behind them. */
  lemma SilenceAsExcess()
    ensures var (outcome, last, _) := Run(Command(GET_WRITE_PTR, []), HalfAnswer, Call(Synchronized, false, 1, []), 0);
            outcome == ExcessDataError && last.log != [] && last.log[|last.log| - 1] == RxLate
  {
    hide Run, Iterate;
    var command := Command(GET_WRITE_PTR, []);
    var call := Call(Synchronized, false, 1, []);
    HalfAnswerSent(call);
    RunTurn(command, HalfAnswer, call, 0);
    var sent := Iterate(command, HalfAnswer, call, 0).call;
    HalfAnswerHeard(sent);
    RunTurn(command, HalfAnswer, sent, 0);
    SilenceCosts(command, HalfAnswer, Iterate(command, HalfAnswer, sent, 0).call, 1);
  }
}
