/**
 * The buffered parser refines an automaton that looks at one byte at a time, so how the transport
 * splits the stream into chunks cannot matter.
 */
module Segmentation {
  import opened Bytes
  import opened Messages
  import opened Protocol
  import opened Conservation

  /** What one byte can add to the output: itself as a stray, or the end of a reply. */
  datatype Atom = Stray(b: byte) | Answer(response: Response)

  /** The automaton: four length bytes, `need` body bytes, the marker, the result code; otherwise resting. */
  datatype Scan =
    | Length(got: seq<byte>)
    | Body(need: nat, got: seq<byte>)
    | Marker(payload: seq<byte>)
    | Result(payload: seq<byte>)
    | Rest(state: State)

  function Strays(s: seq<byte>): (r: seq<Atom>)
    ensures |r| == |s| && forall i :: 0 <= i < |s| ==> r[i] == Stray(s[i])
  {
    seq(|s|, i requires 0 <= i < |s| => Stray(s[i]))
  }

  function Expecting(length: nat): Scan {
    if length == 0 then Marker([]) else Body(length, [])
  }

  function Step(a: Scan, b: byte): (seq<Atom>, Scan) {
    match a
    case Length(got) =>
      ([], if |got| + 1 < 4 then Length(got + [b]) else Expecting(FromLe(got + [b])))
    case Body(need, got) =>
      ([], if |got| + 1 < need then Body(need, got + [b]) else Marker(got + [b]))
    case Marker(payload) =>
      if b == SYNC_BYTE then ([], Result(payload)) else (Strays(payload + [b]), Marker([]))
    case Result(payload) =>
      (match AcceptedCode(b)
       case Some(code) => ([Answer(Response(code, payload))], Rest(InSync))
       case None => (Strays(payload + [SYNC_BYTE, b]), Marker([])))
    case Rest(_) => ([Stray(b)], a)
  }

  function Output(a: Scan, s: seq<byte>): seq<Atom>
    decreases |s|
  {
    if s == [] then [] else Step(a, s[0]).0 + Output(Step(a, s[0]).1, s[1..])
  }

  function End(a: Scan, s: seq<byte>): Scan
    decreases |s|
  {
    if s == [] then a else End(Step(a, s[0]).1, s[1..])
  }

  lemma NoStep(a: Scan)
    ensures Output(a, []) == [] && End(a, []) == a
  {
  }

  lemma OneStep(a: Scan, b: byte, s: seq<byte>)
    ensures Output(a, [b] + s) == Step(a, b).0 + Output(Step(a, b).1, s)
    ensures End(a, [b] + s) == End(Step(a, b).1, s)
  {
    assert ([b] + s)[1..] == s;
  }

  /** An automaton that is run byte by byte; how one byte is handled does not matter for the next lemma. */
  ghost predicate Unrolls(step: (Scan, byte) -> (seq<Atom>, Scan), output: (Scan, seq<byte>) -> seq<Atom>,
                          end: (Scan, seq<byte>) -> Scan, a: Scan, b: byte, s: seq<byte>)
  {
    && output(a, []) == [] && end(a, []) == a
    && output(a, [b] + s) == step(a, b).0 + output(step(a, b).1, s)
    && end(a, [b] + s) == end(step(a, b).1, s)
  }

  lemma {:induction false} ConcatUnrolls(step: (Scan, byte) -> (seq<Atom>, Scan),
                                         output: (Scan, seq<byte>) -> seq<Atom>, end: (Scan, seq<byte>) -> Scan,
                                         a: Scan, s: seq<byte>, t: seq<byte>)
    requires forall a, b, s :: Unrolls(step, output, end, a, b, s)
    ensures end(a, s + t) == end(end(a, s), t)
    ensures output(a, s + t) == output(a, s) + output(end(a, s), t)
    decreases |s|
  {
    if s == [] {
      assert Unrolls(step, output, end, a, 0, []);
      assert s + t == t;
    } else {
      var b, rest := s[0], s[1..];
      assert Unrolls(step, output, end, a, b, rest) && Unrolls(step, output, end, a, b, rest + t);
      assert s == [b] + rest && s + t == [b] + (rest + t);
      ConcatUnrolls(step, output, end, step(a, b).1, rest, t);
    }
  }

  lemma RunConcat(a: Scan, s: seq<byte>, t: seq<byte>)
    ensures End(a, s + t) == End(End(a, s), t)
    ensures Output(a, s + t) == Output(a, s) + Output(End(a, s), t)
  {
    forall a, b, s ensures Unrolls(Step, Output, End, a, b, s) {
      OneStep(a, b, s);
    }
    ConcatUnrolls(Step, Output, End, a, s, t);
  }

  lemma {:induction false} RunLength(got: seq<byte>, s: seq<byte>)
    requires |got| < 4 && |got| + |s| <= 4
    ensures Output(Length(got), s) == []
    ensures End(Length(got), s) == if |got| + |s| < 4 then Length(got + s) else Expecting(FromLe(got + s))
    decreases |s|
  {
    if s == [] {
      assert got + s == got;
    } else {
      assert got + s == (got + [s[0]]) + s[1..];
      if |got| < 3 {
        RunLength(got + [s[0]], s[1..]);
      } else {
        assert got + s == got + [s[0]];
      }
    }
  }

  lemma {:induction false} RunBody(need: nat, got: seq<byte>, s: seq<byte>)
    requires |got| < need && |got| + |s| <= need
    ensures Output(Body(need, got), s) == []
    ensures End(Body(need, got), s) == if |got| + |s| < need then Body(need, got + s) else Marker(got + s)
    decreases |s|
  {
    if s == [] {
      assert got + s == got;
    } else {
      assert got + s == (got + [s[0]]) + s[1..];
      if |got| + 1 < need {
        RunBody(need, got + [s[0]], s[1..]);
      } else {
        assert got + s == got + [s[0]];
      }
    }
  }

  lemma StraysConcat(x: seq<byte>, y: seq<byte>)
    ensures Strays(x + y) == Strays(x) + Strays(y)
  {
  }

  /** Bytes without a marker among them all become strays, after the payload that was waiting for the marker. */
  lemma {:induction false} RunJunk(payload: seq<byte>, s: seq<byte>)
    requires s != [] && forall i :: 0 <= i < |s| ==> s[i] != SYNC_BYTE
    ensures Output(Marker(payload), s) == Strays(payload + s)
    ensures End(Marker(payload), s) == Marker([])
    decreases |s|
  {
    var b, rest := s[0], s[1..];
    assert payload + s == (payload + [b]) + rest;
    StraysConcat(payload + [b], rest);
    if rest != [] {
      RunJunk([], rest);
      assert [] + rest == rest;
    }
  }

  lemma {:induction false} RunRest(state: State, s: seq<byte>)
    ensures Output(Rest(state), s) == Strays(s)
    ensures End(Rest(state), s) == Rest(state)
  {
    if s != [] {
      RunRest(state, s[1..]);
      assert [Stray(s[0])] + Strays(s[1..]) == Strays(s);
    }
  }

  /** The automaton that has seen everything the parser has already taken out of its buffer. */
  function ScanOf(m: Machine): Scan {
    match m.state
    case WaitResponseLength => Length([])
    case WaitResponse => Body(m.expected, [])
    case WaitSync => Marker(m.payload)
    case _ => Rest(m.state)
  }

  /** No payload of an abandoned command is left over; the connection only sends in such a state. */
  ghost predicate Clean(m: Machine) {
    m.Valid() && !m.closed && (m.Waiting() || m.payload == [])
  }

  function Atoms(e: Event): seq<Atom> {
    match e
    case ExcessData(bytes) => Strays(bytes)
    case Reply(r) => [Answer(r)]
    case _ => []
  }

  /** What the automaton outputs for the unread part of the buffer ... */
  function Ahead(m: Machine): seq<Atom> {
    Output(ScanOf(m), m.buffer)
  }

  /** ... and where it stops. */
  function Place(m: Machine): Scan {
    End(ScanOf(m), m.buffer)
  }

  lemma LengthReadRefines(m: Machine)
    requires Clean(m)
    ensures Clean(m.LengthRead()) && Ahead(m.LengthRead()) == Ahead(m) && Place(m.LengthRead()) == Place(m)
    ensures m.LengthRead().state == WaitResponseLength ==> Ahead(m) == []
  {
    hide Output, End;
    if m.state == WaitResponseLength {
      if |m.buffer| >= 4 {
        RunPrefix(m.buffer[..4], m.buffer[4..]);
        assert m.buffer == m.buffer[..4] + m.buffer[4..];
        assert ScanOf(m.LengthRead()) == Expecting(FromLe(m.buffer[..4]));
      } else {
        RunLength([], m.buffer);
      }
    }
  }

  /** Four bytes of a length set up the rest. */
  lemma RunPrefix(front: seq<byte>, back: seq<byte>)
    requires |front| == 4
    ensures Output(Length([]), front + back) == Output(Expecting(FromLe(front)), back)
    ensures End(Length([]), front + back) == End(Expecting(FromLe(front)), back)
  {
    hide Output, End;
    RunConcat(Length([]), front, back);
    RunLength([], front);
    assert [] + front == front;
    assert [] + Output(Expecting(FromLe(front)), back) == Output(Expecting(FromLe(front)), back);
  }

  /** So does a complete body. */
  lemma RunFullBody(front: seq<byte>, back: seq<byte>)
    requires front != []
    ensures Output(Body(|front|, []), front + back) == Output(Marker(front), back)
    ensures End(Body(|front|, []), front + back) == End(Marker(front), back)
  {
    hide Output, End;
    RunConcat(Body(|front|, []), front, back);
    RunBody(|front|, [], front);
    assert [] + front == front;
    assert [] + Output(Marker(front), back) == Output(Marker(front), back);
  }

  lemma BodyReadRefines(m: Machine)
    requires Clean(m)
    ensures Clean(m.BodyRead()) && Ahead(m.BodyRead()) == Ahead(m) && Place(m.BodyRead()) == Place(m)
    ensures m.BodyRead().state == WaitResponse ==> Ahead(m) == []
  {
    hide Output, End;
    if m.state == WaitResponse {
      if |m.buffer| >= m.expected {
        RunFullBody(m.buffer[..m.expected], m.buffer[m.expected..]);
        assert m.buffer == m.buffer[..m.expected] + m.buffer[m.expected..];
      } else {
        RunBody(m.expected, [], m.buffer);
      }
    }
  }

  /** The automaton and one outcome of asking the parser for an event. */
  ghost predicate CaughtUp(m: Machine, e: Event, m': Machine) {
    && Clean(m') && Place(m') == Place(m)
    && Ahead(m) == Atoms(e) + Ahead(m')
    && (Quiet(e) ==> Ahead(m) == [])
  }

  lemma PurgedRefines(m: Machine, n: nat)
    requires Clean(m) && m.state == WaitSync && 0 < n <= |m.buffer| && SYNC_BYTE !in m.buffer[..n]
    ensures CaughtUp(m, m.Purged(n).0, m.Purged(n).1)
  {
    hide Output, End;
    var s := m.buffer;
    assert s == s[..n] + s[n..];
    RunConcat(Marker(m.payload), s[..n], s[n..]);
    RunJunk(m.payload, s[..n]);
  }

  /** A marker at the front, and what follows it. */
  lemma MarkedRefines(m: Machine)
    requires Clean(m) && m.state == WaitSync && |m.buffer| >= 2 && m.buffer[0] == SYNC_BYTE
    ensures CaughtUp(m, m.Hunted().0, m.Hunted().1)
  {
    RunMarked(m.payload, m.buffer);
    if AcceptedCode(m.buffer[1]) == None {
      assert m.Hunted() == m.Purged(2);
      assert m.payload + [SYNC_BYTE, m.buffer[1]] == m.payload + m.buffer[..2];
    }
  }

  lemma HuntedRefines(m: Machine)
    requires Clean(m) && m.state == WaitSync
    ensures CaughtUp(m, m.Hunted().0, m.Hunted().1)
  {
    var i := Find(m.buffer, SYNC_BYTE);
    if m.buffer == [] {
    } else if i > 0 {
      PurgedRefines(m, i);
    } else if i < 0 {
      assert m.buffer[..|m.buffer|] == m.buffer;
      PurgedRefines(m, |m.buffer|);
    } else if |m.buffer| == 1 {
      HalfMarker(m.payload, m.buffer);
    } else {
      MarkedRefines(m);
    }
  }

  lemma HalfMarker(payload: seq<byte>, s: seq<byte>)
    requires s == [SYNC_BYTE]
    ensures Output(Marker(payload), s) == [] && End(Marker(payload), s) == Result(payload)
  {
    hide Output, End;
    NoStep(Result(payload));
    OneStep(Marker(payload), SYNC_BYTE, []);
    assert s == [SYNC_BYTE] + [];
  }

  lemma SyncStep(payload: seq<byte>, s: seq<byte>)
    ensures Output(Marker(payload), [SYNC_BYTE] + s) == Output(Result(payload), s)
    ensures End(Marker(payload), [SYNC_BYTE] + s) == End(Result(payload), s)
  {
    hide Output, End;
    OneStep(Marker(payload), SYNC_BYTE, s);
    assert [] + Output(Result(payload), s) == Output(Result(payload), s);
  }

  lemma RunMarked(payload: seq<byte>, s: seq<byte>)
    requires |s| >= 2 && s[0] == SYNC_BYTE
    ensures Output(Marker(payload), s) == Step(Result(payload), s[1]).0 + Output(Step(Result(payload), s[1]).1, s[2..])
    ensures End(Marker(payload), s) == End(Step(Result(payload), s[1]).1, s[2..])
    ensures s[..2] == [SYNC_BYTE, s[1]]
  {
    hide Output, End;
    assert s[1..] == [s[1]] + s[2..] && s == [SYNC_BYTE] + s[1..];
    SyncStep(payload, s[1..]);
    OneStep(Result(payload), s[1], s[2..]);
  }

  lemma RestRefines(m: Machine)
    requires Clean(m) && !m.Waiting()
    ensures CaughtUp(m, m.Purged(|m.buffer|).0, m.Purged(|m.buffer|).1)
  {
    RunRest(m.state, m.buffer);
    assert [] + m.buffer[..|m.buffer|] == m.buffer;
  }

  predicate Quiet(e: Event) {
    e == OurTurn || e == NeedMoreData
  }

  /** Each event is the part of the automaton's output that the parser has just caught up with. */
  lemma NextRefines(m: Machine)
    requires Clean(m)
    ensures var (e, m') := m.Next();
            && Clean(m') && Place(m') == Place(m)
            && Ahead(m) == Atoms(e) + Ahead(m')
            && (Quiet(e) ==> Ahead(m) == [])
            && e != ConnectionClosed
  {
    LengthReadRefines(m);
    BodyReadRefines(m.LengthRead());
    LengthReadValid(m);
    ReadRefines(m.LengthRead().BodyRead());
    assert CaughtUp(m.LengthRead().BodyRead(), m.Next().0, m.Next().1);
  }

  /** What asking for an event does after the length and the body have been read. */
  function Asked(read: Machine): (Event, Machine) {
    if read.state == WaitResponseLength || read.state == WaitResponse then (NeedMoreData, read)
    else if read.state == WaitSync then read.Hunted()
    else read.Purged(|read.buffer|)
  }

  lemma ReadRefines(read: Machine)
    requires Clean(read)
    requires read.state == WaitResponseLength || read.state == WaitResponse ==> Ahead(read) == []
    ensures CaughtUp(read, Asked(read).0, Asked(read).1) && Asked(read).0 != ConnectionClosed
  {
    if read.state == WaitSync {
      HuntedRefines(read);
    } else if !read.Waiting() {
      RestRefines(read);
    }
  }

  /** Asking for events until the parser has nothing more to say. */
  function Drain(m: Machine): (seq<Event>, Machine)
    requires m.Valid()
    decreases |m.Held()|
  {
    var (e, m') := m.Next();
    if e.ExcessData? || e.Reply? then
      NextValid(m);
      NextShrinks(m);
      var (events, last) := Drain(m');
      ([e] + events, last)
    else ([], m')
  }

  /** The output of a list of events, atom by atom. */
  function AllAtoms(events: seq<Event>): seq<Atom> {
    if events == [] then [] else Atoms(events[0]) + AllAtoms(events[1..])
  }

  lemma {:induction false} AllAtomsConcat(x: seq<Event>, y: seq<Event>)
    ensures AllAtoms(x + y) == AllAtoms(x) + AllAtoms(y)
  {
    if x == [] {
      assert x + y == y;
    } else {
      assert (x + y)[1..] == x[1..] + y;
      AllAtomsConcat(x[1..], y);
    }
  }

  lemma {:induction false} DrainRefines(m: Machine)
    requires Clean(m)
    ensures var (events, m') := Drain(m);
            && Clean(m')
            && Ahead(m) == AllAtoms(events) && Ahead(m') == []
            && Place(m') == Place(m)
    decreases |m.Held()|
  {
    NextRefines(m);
    var (e, m') := m.Next();
    if e.ExcessData? || e.Reply? {
      NextShrinks(m);
      DrainRefines(m');
    }
  }

  /** Feeding chunk after chunk, draining after each. */
  function FeedAll(m: Machine, chunks: seq<seq<byte>>): (seq<Event>, Machine)
    requires m.Valid()
    decreases |chunks|
  {
    if chunks == [] then ([], m)
    else match m.Fed(chunks[0])
      case None => ([], m)
      case Some(fed) =>
        OthersValid(m, chunks[0], GetSync);
        DrainValid(fed);
        var (events, m') := Drain(fed);
        var (more, last) := FeedAll(m', chunks[1..]);
        (events + more, last)
  }

  lemma DrainValid(m: Machine)
    requires m.Valid()
    ensures Drain(m).1.Valid()
    decreases |m.Held()|
  {
    NextValid(m);
    if m.Next().0.ExcessData? || m.Next().0.Reply? {
      NextShrinks(m);
      DrainValid(m.Next().1);
    }
  }

  ghost predicate NonEmptyChunks(chunks: seq<seq<byte>>) {
    forall i :: 0 <= i < |chunks| ==> chunks[i] != []
  }

  lemma FedRefines(m: Machine, chunk: seq<byte>)
    requires Clean(m) && Ahead(m) == [] && chunk != []
    ensures var fed := m.(buffer := m.buffer + chunk);
            && m.Fed(chunk) == Some(fed) && Clean(fed)
            && Ahead(fed) == Output(Place(m), chunk) && Place(fed) == End(Place(m), chunk)
  {
    RunConcat(ScanOf(m), m.buffer, chunk);
    assert [] + Output(Place(m), chunk) == Output(Place(m), chunk);
  }

  /** The buffered parser outputs exactly what the automaton outputs for the stream that the chunks spell out. */
  lemma {:induction false} FeedAllRefines(m: Machine, chunks: seq<seq<byte>>)
    requires Clean(m) && Ahead(m) == [] && NonEmptyChunks(chunks)
    ensures var (events, m') := FeedAll(m, chunks);
            && Clean(m') && Ahead(m') == []
            && Output(Place(m), Flatten(chunks)) == AllAtoms(events)
            && End(Place(m), Flatten(chunks)) == Place(m')
    decreases |chunks|
  {
    if chunks != [] {
      var fed := m.(buffer := m.buffer + chunks[0]);
      FedRefines(m, chunks[0]);
      DrainRefines(fed);
      FeedAllRefines(Drain(fed).1, chunks[1..]);
      RunConcat(Place(m), chunks[0], Flatten(chunks[1..]));
      AllAtomsConcat(Drain(fed).0, FeedAll(Drain(fed).1, chunks[1..]).0);
    }
  }

  /** A trace with neighbouring pieces of excess data joined into one. */
  function Joined(events: seq<Event>): seq<Event> {
    if events == [] then [] else Join(events[0], Joined(events[1..]))
  }

  function Join(e: Event, rest: seq<Event>): seq<Event> {
    if e.ExcessData? && rest != [] && rest[0].ExcessData?
    then [ExcessData(e.bytes + rest[0].bytes)] + rest[1..]
    else [e] + rest
  }

  /** The same trace rebuilt from the atoms alone. */
  function Rebuilt(atoms: seq<Atom>): seq<Event> {
    if atoms == [] then []
    else
      Join(match atoms[0] case Stray(b) => ExcessData([b]) case Answer(r) => Reply(r), Rebuilt(atoms[1..]))
  }

  ghost predicate Reports(events: seq<Event>) {
    forall i :: 0 <= i < |events| ==> events[i].Reply? || (events[i].ExcessData? && events[i].bytes != [])
  }

  lemma {:induction false} RebuiltStrays(s: seq<byte>, rest: seq<Atom>)
    requires s != []
    ensures Rebuilt(Strays(s) + rest) == Join(ExcessData(s), Rebuilt(rest))
  {
    var all := Strays(s) + rest;
    assert all[1..] == Strays(s[1..]) + rest;
    if |s| == 1 {
      assert s == [s[0]] && all[1..] == rest;
    } else {
      RebuiltStrays(s[1..], rest);
      var tail := Rebuilt(rest);
      assert s == [s[0]] + s[1..];
      if tail != [] && tail[0].ExcessData? {
        assert [s[0]] + (s[1..] + tail[0].bytes) == s + tail[0].bytes;
      }
    }
  }

  lemma {:induction false} JoinedIsRebuilt(events: seq<Event>)
    requires Reports(events)
    ensures Joined(events) == Rebuilt(AllAtoms(events))
  {
    if events != [] {
      JoinedIsRebuilt(events[1..]);
      match events[0] {
        case ExcessData(bytes) => RebuiltStrays(bytes, AllAtoms(events[1..]));
        case Reply(r) =>
          assert ([Answer(r)] + AllAtoms(events[1..]))[1..] == AllAtoms(events[1..]);
      }
    }
  }

  lemma {:induction false} DrainReports(m: Machine)
    requires m.Valid()
    ensures Reports(Drain(m).0)
    decreases |m.Held()|
  {
    NextValid(m);
    var (e, m') := m.Next();
    if e.ExcessData? || e.Reply? {
      NextShrinks(m);
      DrainReports(m');
    }
  }

  lemma {:induction false} FeedAllReports(m: Machine, chunks: seq<seq<byte>>)
    requires m.Valid()
    ensures Reports(FeedAll(m, chunks).0)
    decreases |chunks|
  {
    if chunks != [] && m.Fed(chunks[0]).Some? {
      var fed := m.Fed(chunks[0]).value;
      OthersValid(m, chunks[0], GetSync);
      DrainValid(fed);
      DrainReports(fed);
      FeedAllReports(Drain(fed).1, chunks[1..]);
    }
  }

  /**
   * Two ways of splitting one stream give the same trace up to joining neighbouring pieces of excess data,
   * and leave the automaton in the same place.
   */
  lemma SegmentationIndependence(m: Machine, one: seq<seq<byte>>, other: seq<seq<byte>>)
    requires Clean(m) && Ahead(m) == []
    requires NonEmptyChunks(one) && NonEmptyChunks(other) && Flatten(one) == Flatten(other)
    ensures Joined(FeedAll(m, one).0) == Joined(FeedAll(m, other).0)
         == Rebuilt(Output(Place(m), Flatten(one)))
    ensures Place(FeedAll(m, one).1) == Place(FeedAll(m, other).1)
  {
    FeedAllRefines(m, one);
    FeedAllRefines(m, other);
    FeedAllReports(m, one);
    FeedAllReports(m, other);
    JoinedIsRebuilt(FeedAll(m, one).0);
    JoinedIsRebuilt(FeedAll(m, other).0);
  }

  /** Just after sending a command with nothing held, the two conditions above hold. */
  lemma ReadyAfterSending(m: Machine, command: Command)
    requires m.Valid() && !m.closed && m.Held() == [] && m.Sent(command).Raw?
    ensures var m' := m.Sent(command).machine;
            && Clean(m') && Ahead(m') == [] && Place(m') == ScanOf(m')
            && ScanOf(m') == if command.op.ResponseLength() < 0 then Length([])
                             else Expecting(command.op.ResponseLength())
  {
    OthersValid(m, [], command);
    assert m.payload == [] && m.buffer == [];
  }

  /** The automaton just after a command with this opcode was sent. */
  function Start(op: OpCode): Scan {
    if op.ResponseLength() < 0 then Length([]) else Expecting(op.ResponseLength())
  }

  lemma RunBodyAndMarker(v: seq<byte>)
    ensures Output(Expecting(|v|), Response(Success, v).ToBytes()) == [Answer(Response(Success, v))]
    ensures End(Expecting(|v|), Response(Success, v).ToBytes()) == Rest(InSync)
  {
    hide Output, End;
    NoStep(Rest(InSync));
    NoStep(Expecting(0));
    var marker := [SYNC_BYTE, Success.Code()];
    RunConcat(Expecting(|v|), v, marker);
    if v != [] {
      RunBody(|v|, [], v);
      assert [] + v == v;
    }
    RunMarked(v, marker);
    assert marker[2..] == [];
  }

  /** The parser reads back every value its peer frames, in whatever chunks the frame arrives. */
  lemma FrameIsAnswer(op: OpCode, v: seq<byte>)
    requires Fits(op, v)
    ensures Output(Start(op), Frame(op, v)) == [Answer(Response(Success, v))]
    ensures End(Start(op), Frame(op, v)) == Rest(InSync)
  {
    hide Output, End;
    RunBodyAndMarker(v);
    if op.ResponseLength() < 0 {
      var prefix, rest := ToLe(|v|, 4), Response(Success, v).ToBytes();
      Capacities();
      FromToLe(|v|, 4);
      RunLength([], prefix);
      assert [] + prefix == prefix;
      RunConcat(Length([]), prefix, rest);
    } else {
      assert Frame(op, v) == Response(Success, v).ToBytes();
    }
  }

  /** The high half of a pointer whose bytes on the wire look like a marker and an accepted result code. */
  predicate LooksLikeMarker(pointer: nat) {
    pointer / 0x1_0000 == 0x1012 || pointer / 0x1_0000 == 0x1112 || pointer / 0x1_0000 == 0x1312
  }

  const StaleAck: seq<byte> := [SYNC_BYTE, 0x10]

  lemma PointerBytes(pointer: nat)
    requires pointer < 0x1_0000_0000
    ensures var p := ToLe(pointer, 4);
            LooksLikeMarker(pointer) <==> p[2] == SYNC_BYTE && AcceptedCode(p[3]).Some?
  {
    var p := ToLe(pointer, 4);
    assert p[1..] == ToLe(pointer / 0x100, 3);
    assert p[1..][1..] == ToLe(pointer / 0x100 / 0x100, 2);
    assert p[1..][1..][1..] == ToLe(pointer / 0x100 / 0x100 / 0x100, 1);
    assert p[2] as int == pointer / 0x1_0000 % 0x100;
    assert p[3] as int == pointer / 0x100_0000 % 0x100;
  }

  /** What comes first out of a parser that awaits its marker. */
  lemma FirstAtMarker(payload: seq<byte>, s: seq<byte>)
    requires |s| >= 2
    ensures var out := Output(Marker(payload), s);
            && out != []
            && (out[0].Answer? <==> s[0] == SYNC_BYTE && AcceptedCode(s[1]).Some?)
            && (out[0].Answer? ==> out[0].response.payload == payload)
  {
    hide Output, End;
    if s[0] == SYNC_BYTE {
      RunMarked(payload, s);
      assert Strays(payload + [SYNC_BYTE, s[1]]) != [];
    } else {
      OneStep(Marker(payload), s[0], s[1..]);
      assert s == [s[0]] + s[1..] && Strays(payload + [s[0]]) != [];
    }
  }

  lemma StaleAckAtoms(p: seq<byte>)
    requires |p| == 4
    ensures var out := Output(Expecting(4), StaleAck + (p + StaleAck));
            && out != []
            && (out[0].Answer? <==> p[2] == SYNC_BYTE && AcceptedCode(p[3]).Some?)
            && (out[0].Answer? ==> out[0].response.payload == StaleAck + p[..2])
  {
    hide Output, End;
    var early, late := StaleAck + p[..2], p[2..] + StaleAck;
    assert StaleAck + (p + StaleAck) == early + late;
    RunFullBody(early, late);
    FirstAtMarker(early, late);
  }

  /**
   * One acknowledgment left over from an earlier command, in front of the reply to GET_WRITE_PTR: whatever the
   * chunking, the parser reports excess data before any reply exactly unless the pointer's upper half spells a
   * marker. This is about the first event only. The call then synchronizes anew, which may leave it with more stale
   * acknowledgments; what becomes of the call is the subject of `Resync`.
   */
  lemma StaleAckIsNoticed(m: Machine, pointer: nat, chunks: seq<seq<byte>>)
    requires Clean(m) && Ahead(m) == [] && Place(m) == Start(GET_WRITE_PTR)
    requires pointer < 0x1_0000_0000 && NonEmptyChunks(chunks)
    requires Flatten(chunks) == StaleAck + (ToLe(pointer, 4) + StaleAck)
    ensures var events := FeedAll(m, chunks).0;
            && events != []
            && (events[0].ExcessData? <==> !LooksLikeMarker(pointer))
    ensures pointer < 0x1012_0000 ==> FeedAll(m, chunks).0[0].ExcessData?
  {
    StaleAckTrace(m, ToLe(pointer, 4), chunks);
    PointerBytes(pointer);
    if LooksLikeMarker(pointer) {
      SmallPointers(pointer);
    }
  }

  lemma SmallPointers(pointer: nat)
    requires LooksLikeMarker(pointer)
    ensures pointer >= 0x1012_0000
  {
  }

  lemma StaleAckTrace(m: Machine, p: seq<byte>, chunks: seq<seq<byte>>)
    requires Clean(m) && Ahead(m) == [] && Place(m) == Expecting(4)
    requires |p| == 4 && NonEmptyChunks(chunks) && Flatten(chunks) == StaleAck + (p + StaleAck)
    ensures var events := FeedAll(m, chunks).0;
            && events != []
            && (events[0].ExcessData? <==> !(p[2] == SYNC_BYTE && AcceptedCode(p[3]).Some?))
  {
    FeedAllRefines(m, chunks);
    FeedAllReports(m, chunks);
    StaleAckAtoms(p);
    FirstAtom(FeedAll(m, chunks).0);
  }

  lemma FirstAtom(events: seq<Event>)
    requires Reports(events) && AllAtoms(events) != []
    ensures events != []
    ensures events[0].ExcessData? <==> AllAtoms(events)[0].Stray?
  {
    match events[0] {
      case ExcessData(bytes) => assert AllAtoms(events)[0] == Strays(bytes)[0];
      case Reply(r) => assert AllAtoms(events)[0] == Answer(r);
    }
  }

  /** The wrong answer does happen: the first reply then carries the stale acknowledgment as part of the pointer. */
  lemma StaleAckCanFool()
    ensures LooksLikeMarker(0x1012_0000)
    ensures var out := Output(Start(GET_WRITE_PTR), StaleAck + (ToLe(0x1012_0000, 4) + StaleAck));
            out != [] && out[0].Answer? && out[0].response.payload == [SYNC_BYTE, 0x10, 0x00, 0x00]
  {
    hide Output, End;
    FoolingPointer();
    StaleAckAtoms([0x00, 0x00, 0x12, 0x10]);
    assert StaleAck + [0x00, 0x00, 0x12, 0x10][..2] == [SYNC_BYTE, 0x10, 0x00, 0x00];
  }

  lemma FoolingPointer()
    ensures ToLe(0x1012_0000, 4) == [0x00, 0x00, 0x12, 0x10]
  {
    assert ToLe(0x1012, 2) == [0x12, 0x10];
  }
}
