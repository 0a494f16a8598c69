/**
 * A call that starts with a stale acknowledgment still on its way, on a channel that loses nothing. Whatever the
 * parser reports as excess makes the call synchronize anew, and each new acknowledgment of GET_SYNC can in turn
 * become stale. This module says how long that stays harmless.
 */
module Resync {
  import opened Arithmetic
  import opened Bytes
  import opened Messages
  import opened Protocol
  import opened Conservation
  import opened Segmentation
  import opened Connection
  import opened Rpc
  import CallGuarantees
  import Device

  // ---- the first thing that comes out of a parser, however its input is cut ----

  /** The automaton outputs nothing before the byte number `due`, and something with it. */
  ghost predicate Due(a: Scan, s: seq<byte>, due: nat) {
    && 0 < due <= |s|
    && Output(a, s[..due - 1]) == []
    && Output(a, s[..due]) != []
  }

  /** The parser, started as `a`, has received `j` bytes of `s` and not reported anything yet. */
  ghost predicate Midway(a: Scan, s: seq<byte>, j: nat, call: Call, link: Link) {
    && j <= |s| && link.pending == s[j..]
    && Clean(call.m) && call.m.Waiting()
    && Place(call.m) == End(a, s[..j]) && Ahead(call.m) == Output(a, s[..j])
  }

  lemma QuietBefore(a: Scan, s: seq<byte>, due: nat, j: nat)
    requires Due(a, s, due) && j < due
    ensures Output(a, s[..j]) == []
  {
    hide Output, End;
    assert s[..due - 1] == s[..j] + s[j..due - 1];
    RunConcat(a, s[..j], s[j..due - 1]);
  }

  lemma LoudAfter(a: Scan, s: seq<byte>, due: nat, j: nat)
    requires Due(a, s, due) && due <= j <= |s|
    ensures Output(a, s[..j]) == Output(a, s[..due]) + Output(End(a, s[..due]), s[due..j])
    ensures End(a, s[..j]) == End(End(a, s[..due]), s[due..j])
    ensures Output(a, s[..j])[0] == Output(a, s[..due])[0]
  {
    hide Output, End;
    assert s[..j] == s[..due] + s[due..j];
    RunConcat(a, s[..due], s[due..j]);
  }

  lemma QuietIsHungry(m: Machine)
    requires Clean(m) && m.Waiting() && Ahead(m) == []
    ensures m.Next().0 == NeedMoreData
  {
    assert [] + Output(Place(m), []) == [] by {
      NoStep(Place(m));
    }
    OnlyStarves(m, []);
  }

  /** Everything about the link except what is pending and how it will be cut. */
  ghost predicate SameEnd(link: Link, link': Link) {
    link'.device == link.device && link'.fates == link.fates && link'.programs == link.programs
  }

  /** The first piece is all it takes if it is long enough. */
  ghost predicate AtOnce(link: Link, due: nat, s: seq<byte>, j: nat, link': Link) {
    link.pending == s && s != [] && PieceLength(link) >= due ==>
      j == PieceLength(link) && link'.cuts == LaterCuts(link.cuts)
  }

  ghost predicate Reported(a: Scan, s: seq<byte>, due: nat, call: Call, link: Link, j: nat, call': Call, link': Link) {
    && due <= j && Midway(a, s, j, call', link') && SameEnd(link, link')
    && call'.sent == call.sent && call'.retries == call.retries
    && AtOnce(link, due, s, j, link')
  }

  /** One piece more. */
  lemma PieceArrives(command: Command, call: Call, link: Link, a: Scan, s: seq<byte>, i: nat)
    returns (call': Call, link': Link)
    requires call.Valid() && Midway(a, s, i, call, link) && i < |s| && Output(a, s[..i]) == []
    ensures LeadsTo(command, call, link, call', link') && SameEnd(link, link')
    ensures PieceLength(link) <= |s| - i && Midway(a, s, i + PieceLength(link), call', link')
    ensures call'.sent == call.sent && call'.retries == call.retries && link'.cuts == LaterCuts(link.cuts)
  {
    hide Output, End, Run;
    QuietIsHungry(call.m);
    var n := PieceLength(link);
    call', link' := ReceiveTurn(command, call, link);
    var j := i + n;
    assert link.pending[..n] == s[i..j] && link.pending[n..] == s[j..];
    assert s[..j] == s[..i] + s[i..j];
    RunConcat(a, s[..i], s[i..j]);
    assert [] + Output(End(a, s[..i]), s[i..j]) == Output(End(a, s[..i]), s[i..j]);
  }

  lemma {:induction false} Arrives(command: Command, call: Call, link: Link, a: Scan, s: seq<byte>, i: nat, due: nat)
    returns (j: nat, call': Call, link': Link)
    requires call.Valid() && Midway(a, s, i, call, link) && Due(a, s, due) && i < due
    ensures LeadsTo(command, call, link, call', link') && Reported(a, s, due, call, link, j, call', link')
    decreases |s| - i
  {
    hide Output, End, Run;
    QuietBefore(a, s, due, i);
    j := i + PieceLength(link);
    call', link' := PieceArrives(command, call, link, a, s, i);
    if j < due {
      j, call', link' := Arrives(command, call', link', a, s, j, due);
      assert PieceLength(link) < due;
    }
  }

  // ---- what the call does with it ----

  lemma ExcessClears(m: Machine)
    requires m.Valid() && m.Next().0.ExcessData?
    ensures m.Next().1.payload == []
  {
  }

  /** The call gives up, or drops what it has received and starts over with one retry less. */
  ghost predicate Dropped(command: Command, call: Call, link: Link, call': Call, link': Link)
    requires call.Valid()
  {
    if call.retries == 0 then EndsWith(command, call, link, ExcessDataError, call', link')
    else
      && Rested(call'.m) && call'.m.state == Idle && call'.retries == call.retries - 1
      && LeadsTo(command, call, link, call', link')
  }

  lemma FirstIsStray(m: Machine)
    requires Clean(m) && Ahead(m) != [] && Ahead(m)[0].Stray?
    ensures m.Next().0.ExcessData?
  {
    NextRefines(m);
  }

  /** Excess data at the front is dropped together with everything else that has been received. */
  lemma Discards(command: Command, call: Call, link: Link) returns (call': Call)
    requires call.Valid() && Clean(call.m) && Ahead(call.m) != [] && Ahead(call.m)[0].Stray?
    ensures Dropped(command, call, link, call', link)
  {
    hide Output, End;
    FirstIsStray(call.m);
    ExcessClears(call.m);
    NextFollows(call);
    IterateProgress(command, Channel, call, link);
    var m := call.m.Next().1.Reset();
    call' := Call(m, call.sent, if call.retries == 0 then 0 else call.retries - 1, call.log);
    assert Respond(command, Channel, call, call.m.Next().0, call.m.Next().1, link) ==
           Retry(call.(m := m), link, ExcessDataError);
  }

  lemma FirstIsAnswer(m: Machine, response: Response)
    requires Clean(m) && m.Waiting() && Ahead(m) != [] && Ahead(m)[0] == Answer(response)
    ensures var (e, m') := m.Next();
            && e == Reply(response) && m' == Ready.(buffer := m'.buffer) && Clean(m')
            && Ahead(m) == [Answer(response)] + Strays(m'.buffer)
  {
    NextRefines(m);
    NextFollows(Call(m, false, 0, []));
    match m.Next().0 {
      case ExcessData(bytes) =>
        NextShrinks(m);
        assert false;
      case Reply(r) =>
        assert Ahead(m)[0] == Answer(r);
        CallGuarantees.NextReply(m);
        LengthReadValid(m);
        BodyReadValid(m.LengthRead());
        AnswerKeeps(m.LengthRead().BodyRead());
        RunRest(InSync, m.Next().1.buffer);
      case _ => assert false;
    }
  }

  /** The reply to the command, or an error, ends the call. */
  lemma Concludes(command: Command, call: Call, link: Link, response: Response) returns (last: Call)
    requires call.Valid() && Clean(call.m) && call.m.Waiting()
    requires Ahead(call.m) != [] && Ahead(call.m)[0] == Answer(response)
    requires call.sent || response.code != Success
    ensures EndsWith(command, call, link, OutcomeOf(Some(response)), last, link)
    ensures |Ahead(call.m)| == 1 ==> last.m == Ready
  {
    hide Output, End;
    FirstIsAnswer(call.m, response);
    IterateProgress(command, Channel, call, link);
    last := call.(m := call.m.Next().1);
    assert |Strays(last.m.buffer)| == |last.m.buffer|;
  }

  /** If the acknowledgment of GET_SYNC is all that has been received, the call is in sync; otherwise it starts over. */
  ghost predicate Synced(command: Command, call: Call, link: Link, alone: bool, call': Call, link': Link)
    requires call.Valid()
  {
    if alone then call' == Call(Ready, false, call.retries, call'.log) && LeadsTo(command, call, link, call', link')
    else Dropped(command, call, link, call', link')
  }

  lemma Synchronizes(command: Command, call: Call, link: Link, response: Response, extra: seq<byte>)
    returns (call': Call)
    requires call.Valid() && Clean(call.m) && call.m.Waiting() && !call.sent
    requires response.code == Success && Ahead(call.m) == [Answer(response)] + Strays(extra)
    ensures Synced(command, call, link, extra == [], call', link)
  {
    hide Output, End;
    FirstIsAnswer(call.m, response);
    var m := call.m.Next().1;
    assert |Strays(m.buffer)| == |Strays(extra)|;
    NextFollows(call);
    IterateProgress(command, Channel, call, link);
    var next := call.(m := m);
    assert Iterate(command, Channel, call, link) == Again(next, link);
    if extra == [] {
      call' := next;
    } else {
      RunRest(InSync, m.buffer);
      call' := Discards(command, next, link);
    }
  }

  // ---- the automaton on a stream that has not been synchronized ----

  /** A marker and an accepted code. */
  predicate Marks(s: seq<byte>, at: nat)
    requires at + 2 <= |s|
  {
    s[at] == SYNC_BYTE && AcceptedCode(s[at + 1]).Some?
  }

  /** How many bytes it takes to notice whether there is a marker. */
  function DueAt(s: seq<byte>, at: nat): nat
    requires at < |s|
  {
    if s[at] == SYNC_BYTE then at + 2 else at + 1
  }

  /** A parser that has `payload` and awaits the marker. */
  lemma MarkerIsDue(payload: seq<byte>, s: seq<byte>)
    requires |s| >= 2
    ensures Due(Marker(payload), s, DueAt(s, 0))
    ensures var out := Output(Marker(payload), s[..DueAt(s, 0)]);
            if Marks(s, 0)
            then out == [Answer(Response(AcceptedCode(s[1]).value, payload))]
                 && End(Marker(payload), s[..DueAt(s, 0)]) == Rest(InSync)
            else out[0].Stray?
  {
    hide Output, End;
    NoStep(Marker(payload));
    if s[0] == SYNC_BYTE {
      var front := s[..2];
      RunMarked(payload, front);
      assert front[2..] == [] && s[..1] == [SYNC_BYTE];
      HalfMarker(payload, s[..1]);
      NoStep(Step(Result(payload), s[1]).1);
      assert Step(Result(payload), s[1]).0 + [] == Step(Result(payload), s[1]).0;
      assert Strays(payload + [SYNC_BYTE, s[1]])[0].Stray?;
    } else {
      assert s[..1] == [s[0]] + [] && s[..0] == [];
      OneStep(Marker(payload), s[0], []);
      NoStep(Marker([]));
      assert Strays(payload + [s[0]]) + [] == Strays(payload + [s[0]]);
      assert Strays(payload + [s[0]])[0].Stray?;
    }
  }

  /** A parser that awaits four bytes and the marker. */
  lemma WordIsDue(s: seq<byte>)
    requires |s| >= 6
    ensures Due(Body(4, []), s, DueAt(s, 4))
    ensures var out := Output(Body(4, []), s[..DueAt(s, 4)]);
            if Marks(s, 4)
            then out == [Answer(Response(AcceptedCode(s[5]).value, s[..4]))]
                 && End(Body(4, []), s[..DueAt(s, 4)]) == Rest(InSync)
            else out[0].Stray?
  {
    hide Output, End;
    var body, rest := s[..4], s[4..];
    MarkerIsDue(body, rest);
    var due := DueAt(rest, 0);
    assert s[..4 + due] == body + rest[..due];
    assert s[..4 + due - 1] == body + rest[..due - 1];
    RunFullBody(body, rest[..due]);
    RunFullBody(body, rest[..due - 1]);
  }

  // ---- attempts ----

  const GetWritePointer := Command(GET_WRITE_PTR, [])

  /** Nothing will be lost, and the device listens. */
  ghost predicate Serving(link: Link) {
    Lost(link.fates) == 0 && !link.device.exiting && link.device.Valid()
  }

  /** The bytes that spell the device's write pointer. */
  function PointerBytesOf(link: Link): (p: seq<byte>)
    ensures |p| == 4
  {
    ToLe(link.device.ptr, 4)
  }

  lemma Answers(link: Link)
    requires Serving(link)
    ensures NextFate(link) == Delivered && Lost(RestOf(link.fates)) == 0
    ensures Reached(link, GetSync) == link.device && Answered(link, GetSync) == StaleAck
    ensures Reached(link, GetWritePointer) == link.device
    ensures Answered(link, GetWritePointer) == PointerBytesOf(link) + StaleAck
  {
    hide ToLe;
    assert [] + StaleAck == StaleAck;
  }

  function Piece(cuts: seq<nat>, size: nat): nat {
    if cuts == [] || cuts[0] > size then size
    else if cuts[0] == 0 then 1
    else cuts[0]
  }

  function LaterCuts(cuts: seq<nat>): seq<nat> {
    if cuts == [] then [] else cuts[1..]
  }

  /** `j` bytes of what was pending have been received, at least `due`; all in the first piece if that is enough. */
  ghost predicate Received(link: Link, s: seq<byte>, due: nat, j: nat, link': Link) {
    && due <= j <= |s| && link'.pending == s[j..]
    && Serving(link') && link'.device == link.device
    && (Piece(link.cuts, |s|) >= due ==> j == Piece(link.cuts, |s|) && link'.cuts == LaterCuts(link.cuts))
  }

  /** Something has been transmitted, and its parser, started as `a`, has something to report about `s`. */
  ghost predicate Heeded(a: Scan, call: Call, link: Link, s: seq<byte>, due: nat, j: nat, call': Call, link': Link) {
    && Received(link, s, due, j, link')
    && Clean(call'.m) && call'.m.Waiting() && call'.retries == call.retries
    && call'.sent == (call.m.state == InSync)
    && Ahead(call'.m) == Output(a, s[..j])
  }

  lemma Attempt(call: Call, link: Link, s: seq<byte>, due: nat) returns (j: nat, call': Call, link': Link)
    requires call.Valid() && Rested(call.m) && Serving(link)
    requires var c := Outgoing(GetWritePointer, call.m);
             s == link.pending + Answered(link, c) && Due(Start(c.op), s, due)
    ensures LeadsTo(GetWritePointer, call, link, call', link')
    ensures Heeded(Start(Outgoing(GetWritePointer, call.m).op), call, link, s, due, j, call', link')
  {
    hide Output, End, Run, Lost, ToLe, Answered;
    var a := Start(Outgoing(GetWritePointer, call.m).op);
    Answers(link);
    var awaiting, sent := SendTurn(GetWritePointer, call, link);
    assert s[..0] == [] && s[0..] == s;
    NoStep(a);
    j, call', link' := Arrives(GetWritePointer, awaiting, sent, a, s, 0, due);
  }

  /** An attempt to synchronize while `s` comes in, of which `j` bytes have been received at its end. */
  ghost predicate SyncTried(call: Call, link: Link, s: seq<byte>, j: nat, call': Call, link': Link)
    requires call.Valid() && |s| >= 2
  {
    && Received(link, s, DueAt(s, 0), j, link')
    && if !Marks(s, 0) then Dropped(GetWritePointer, call, link, call', link')
       else
         var code := AcceptedCode(s[1]).value;
         if code == Success then Synced(GetWritePointer, call, link, j == 2, call', link')
         else EndsWith(GetWritePointer, call, link, Outcome.Refused(code), call', link')
  }

  lemma SyncAttempt(call: Call, link: Link, s: seq<byte>) returns (j: nat, call': Call, link': Link)
    requires call.Valid() && Rested(call.m) && call.m.state != InSync && Serving(link)
    requires s == link.pending + StaleAck
    ensures SyncTried(call, link, s, j, call', link')
  {
    hide Output, End, Run, Lost, ToLe, Answered, Received, Ahead;
    Answers(link);
    MarkerIsDue([], s);
    j, call', link' := Attempt(call, link, s, DueAt(s, 0));
    call' := SyncReported(call, link, s, j, call', link');
  }

  lemma SyncReported(call: Call, link: Link, s: seq<byte>, j: nat, waiting: Call, link': Link) returns (call': Call)
    requires call.Valid() && |s| >= 2 && call.m.state != InSync
    requires LeadsTo(GetWritePointer, call, link, waiting, link')
    requires Heeded(Marker([]), call, link, s, DueAt(s, 0), j, waiting, link')
    ensures SyncTried(call, link, s, j, call', link')
  {
    hide Output, End, Run, Lost;
    MarkerIsDue([], s);
    LoudAfter(Marker([]), s, DueAt(s, 0), j);
    if !Marks(s, 0) {
      call' := Discards(GetWritePointer, waiting, link');
    } else if AcceptedCode(s[1]).value == Success {
      RunRest(InSync, s[2..j]);
      call' := Synchronizes(GetWritePointer, waiting, link', Response(Success, []), s[2..j]);
    } else {
      call' := Concludes(GetWritePointer, waiting, link', Response(AcceptedCode(s[1]).value, []));
    }
  }

  /** An attempt to have the command answered while `s` comes in. */
  ghost predicate CommandTried(call: Call, link: Link, s: seq<byte>, j: nat, call': Call, link': Link)
    requires call.Valid() && |s| >= 6
  {
    && Received(link, s, DueAt(s, 4), j, link')
    && if !Marks(s, 4) then Dropped(GetWritePointer, call, link, call', link')
       else
         var code := AcceptedCode(s[5]).value;
         EndsWith(GetWritePointer, call, link, OutcomeOf(Some(Response(code, s[..4]))), call', link')
  }

  lemma CommandAttempt(call: Call, link: Link, s: seq<byte>) returns (j: nat, call': Call, link': Link)
    requires call.Valid() && Rested(call.m) && call.m.state == InSync && Serving(link)
    requires s == link.pending + (PointerBytesOf(link) + StaleAck)
    ensures CommandTried(call, link, s, j, call', link')
  {
    hide Output, End, Run, Lost, ToLe, Answered;
    Answers(link);
    WordIsDue(s);
    j, call', link' := Attempt(call, link, s, DueAt(s, 4));
    LoudAfter(Body(4, []), s, DueAt(s, 4), j);
    if !Marks(s, 4) {
      call' := Discards(GetWritePointer, call', link');
    } else {
      call' := Concludes(GetWritePointer, call', link', Response(AcceptedCode(s[5]).value, s[..4]));
    }
  }

  // ---- what can pile up ----

  /** The least number of retries with which the call can be misled, by the bytes of the pointer; perhaps none. */
  function Threshold(p: seq<byte>): Option<nat>
    requires |p| == 4
  {
    if p[2..] == StaleAck then if p[..2] == StaleAck then None else Some(0)
    else if p[2] == SYNC_BYTE then None
    else if p[..2] == StaleAck then Some(if p[3] == SYNC_BYTE then 3 else 2)
    else if Marks(p, 0) then None
    else if p[3] != SYNC_BYTE then Some(5)
    else if SYNC_BYTE in p[..2] then Some(7)
    else Some(6)
  }

  /** So many retries, spent and left, are below that number. */
  predicate Affordable(p: seq<byte>, retries: nat)
    requires |p| == 4
  {
    Threshold(p).Some? ==> retries < Threshold(p).value
  }

  /** It takes a retry more if the pointer's last byte is half of a marker. */
  function Delay(p: seq<byte>): nat
    requires |p| == 4
  {
    if p[3] == SYNC_BYTE then 1 else 0
  }

  /** The lower half of the pointer does not end the call. */
  predicate Open(p: seq<byte>)
    requires |p| == 4
  {
    p[2] != SYNC_BYTE && !Marks(p, 0)
  }

  /** With both ends being half markers, one more. */
  predicate Slow(p: seq<byte>)
    requires |p| == 4
  {
    Open(p) && p[3] == SYNC_BYTE && SYNC_BYTE in p[..2]
  }

  /** What can be pending out of sync after `t` retries. */
  predicate Astray(p: seq<byte>, t: nat, x: seq<byte>)
    requires |p| == 4
  {
    || x == [] || x == [0x10] || x == StaleAck
    || (p[2] != SYNC_BYTE && t >= 1 && x == [p[3]] + StaleAck)
    || (p[2] != SYNC_BYTE && t >= 2 && x == [0x10] + StaleAck)
    || (p[2] != SYNC_BYTE && t >= 2 + Delay(p) && x == StaleAck + StaleAck)
    || (Open(p) && t >= 3 + Delay(p) && x == p[2..] + StaleAck)
    || (Open(p) && t >= 3 + Delay(p) && p[0] != SYNC_BYTE && x == p[1..] + StaleAck)
    || (Slow(p) && t >= 5 && x == [p[3]] + (StaleAck + StaleAck))
    || (Slow(p) && t >= 5 && p[0] != SYNC_BYTE && p[1..3] == StaleAck && x == p + StaleAck)
  }

  /** What can be pending in sync after `t` retries. */
  predicate Aligned(p: seq<byte>, t: nat, y: seq<byte>)
    requires |p| == 4
  {
    || y == [] || y == StaleAck
    || (p[2] != SYNC_BYTE && t >= 2 + Delay(p) && y == StaleAck + StaleAck)
    || (Open(p) && t >= 3 + Delay(p) && p[0] != SYNC_BYTE && p[1..3] == StaleAck
        && y == [p[3]] + (StaleAck + StaleAck))
  }

  /** In sync, something else is read as the pointer. */
  predicate Fools(p: seq<byte>, y: seq<byte>)
    requires |p| == 4
  {
    var s := y + (p + StaleAck);
    s[4..6] == StaleAck && s[..4] != p
  }

  /** Out of sync, an acknowledgment that arrives alone does not lead there. */
  predicate Dull(p: seq<byte>, x: seq<byte>)
    requires |p| == 4
  {
    var s := x + StaleAck;
    s[..2] == StaleAck ==> !Fools(p, s[2..])
  }

  /** What is pending can do no harm with so many retries left. */
  predicate Harmless(p: seq<byte>, synced: bool, t: nat, retries: nat, x: seq<byte>)
    requires |p| == 4
  {
    && Affordable(p, t + retries)
    && if synced then Aligned(p, t, x) || (retries == 0 && !Fools(p, x))
       else Astray(p, t, x) || (retries == 0 && Dull(p, x))
  }

  // ---- it stays harmless ----

  predicate EndsInAck(x: seq<byte>) {
    x == [] || x == [0x10] || (|x| >= 2 && x[|x| - 2..] == StaleAck)
  }

  lemma SuffixEndsInAck(front: seq<byte>, j: nat)
    requires j <= |front| + 2
    ensures EndsInAck((front + StaleAck)[j..])
  {
    var s := front + StaleAck;
    assert s[|s| - 2..] == StaleAck;
    if j <= |front| {
      assert s[j..][|s[j..]| - 2..] == s[|s| - 2..];
    }
  }

  /** It takes six bytes to be misled. */
  lemma ShortIsDull(p: seq<byte>, x: seq<byte>)
    requires |p| == 4 && Open(p) && EndsInAck(x) && |x| <= 5
    ensures Dull(p, x)
  {
    var s := x + StaleAck;
    if s[..2] == StaleAck {
      var y := s[2..];
      var r := y + (p + StaleAck);
      assert s[0] == s[..2][0] && s[1] == s[..2][1];
      assert r[4..6] == [r[4], r[5]];
      assert |y| >= 2 ==> y[|y| - 2] == 0x12 && y[|y| - 1] == 0x10;
    }
  }

  /** What is left of the shortest strings. */
  lemma ShortDrops(p: seq<byte>, t: nat, x: seq<byte>, s: seq<byte>, j: nat)
    requires |p| == 4 && |x| <= 2 && Astray(p, t, x) && s == x + StaleAck && 1 <= j <= |s|
    requires s[0] == SYNC_BYTE ==> j >= 2
    ensures Astray(p, t + 1, s[j..])
  {
    if x == StaleAck {
      assert s == [0x12, 0x10, 0x12, 0x10];
      assert j == 2 ==> s[j..] == StaleAck;
      assert j == 3 ==> s[j..] == [0x10];
    } else if x == [0x10] {
      assert s == [0x10, 0x12, 0x10];
      assert j == 1 ==> s[j..] == StaleAck;
      assert j == 2 ==> s[j..] == [0x10];
    } else {
      assert s == [0x12, 0x10];
    }
    assert j == |s| ==> s[j..] == [];
  }

  /** A half of a stray answer and an acknowledgment. */
  lemma MiddleDrops(p: seq<byte>, t: nat, b: byte, s: seq<byte>, j: nat)
    requires |p| == 4 && p[2] != SYNC_BYTE && s == [b] + StaleAck + StaleAck && 1 <= j <= |s|
    requires if b == SYNC_BYTE then j >= 2 && t >= 1 else t >= 1 + Delay(p)
    ensures Astray(p, t + 1, s[j..])
  {
    assert s == [b, 0x12, 0x10, 0x12, 0x10];
    assert j == 1 ==> s[j..] == StaleAck + StaleAck;
    assert j == 2 ==> s[j..] == [0x10] + StaleAck;
    assert j == 3 ==> s[j..] == StaleAck;
    assert j == 4 ==> s[j..] == [0x10];
    assert j == 5 ==> s[j..] == [];
  }

  lemma TwoDrop(p: seq<byte>, t: nat, s: seq<byte>, j: nat)
    requires |p| == 4 && p[2] != SYNC_BYTE && s == StaleAck + StaleAck + StaleAck && 2 < j <= |s| && t >= 2
    ensures Astray(p, t + 1, s[j..])
  {
    assert s == [0x12, 0x10, 0x12, 0x10, 0x12, 0x10];
    assert j == 3 ==> s[j..] == [0x10] + StaleAck;
    assert j == 4 ==> s[j..] == StaleAck;
    assert j == 5 ==> s[j..] == [0x10];
    assert j == 6 ==> s[j..] == [];
  }

  /** What is left after the last retry, if it is longer. */
  predicate Over(p: seq<byte>, t: nat, retries: nat, x: seq<byte>)
    requires |p| == 4
  {
    Astray(p, t + 1, x) || (retries == 1 && Dull(p, x))
  }

  lemma UpperDrops(p: seq<byte>, t: nat, retries: nat, s: seq<byte>, j: nat)
    requires |p| == 4 && Open(p) && t >= 3 + Delay(p) && retries > 0 && Affordable(p, t + retries)
    requires s == p[2..] + StaleAck + StaleAck && 1 <= j <= |s|
    ensures Over(p, t, retries, s[j..])
  {
    assert s == [p[2], p[3], 0x12, 0x10, 0x12, 0x10];
    assert s == p[2..] + StaleAck + StaleAck;
    SuffixEndsInAck(p[2..] + StaleAck, j);
    if retries == 1 {
      ShortIsDull(p, s[j..]);
    } else {
      MiddleTail(p, t, s, j);
    }
  }

  /** Further back, there are only acknowledgments. */
  lemma MiddleTail(p: seq<byte>, t: nat, s: seq<byte>, j: nat)
    requires |p| == 4 && Slow(p) && |s| >= 5 && s[|s| - 5..] == [p[3]] + (StaleAck + StaleAck) && t >= 4
    requires |s| - 5 <= j <= |s|
    ensures Astray(p, t + 1, s[j..])
  {
    var i := j - (|s| - 5);
    assert s[j..] == s[|s| - 5..][i..];
    assert s[|s| - 5..] == [p[3], 0x12, 0x10, 0x12, 0x10];
    if i == 0 {
      assert s[j..] == [p[3]] + (StaleAck + StaleAck);
    } else {
      assert i == 1 ==> s[j..] == StaleAck + StaleAck;
      assert i == 2 ==> s[j..] == [0x10] + StaleAck;
      assert i == 3 ==> s[j..] == StaleAck;
      assert i == 4 ==> s[j..] == [0x10];
      assert i == 5 ==> s[j..] == [];
    }
  }

  lemma ThreeDrop(p: seq<byte>, t: nat, retries: nat, s: seq<byte>, j: nat)
    requires |p| == 4 && Open(p) && p[0] != SYNC_BYTE && t >= 3 + Delay(p)
    requires retries > 0 && Affordable(p, t + retries)
    requires s == p[1..] + StaleAck + StaleAck && DueAt(s, 0) <= j <= |s|
    ensures Over(p, t, retries, s[j..])
  {
    assert s == [p[1], p[2], p[3], 0x12, 0x10, 0x12, 0x10];
    if retries > 1 {
      MiddleTail(p, t, s, j);
    } else if j == 1 {
      assert s[j..][0] == p[2];
      NotAnAck(p, s[j..]);
    } else {
      SuffixEndsInAck(p[1..] + StaleAck, j);
      ShortIsDull(p, s[j..]);
    }
  }

  lemma NotAnAck(p: seq<byte>, x: seq<byte>)
    requires |p| == 4 && |x| >= 2 && x[..2] != StaleAck
    ensures Dull(p, x)
  {
    assert (x + StaleAck)[..2] == x[..2];
  }

  lemma AnswerDrops(p: seq<byte>, t: nat, retries: nat, s: seq<byte>, j: nat)
    requires |p| == 4 && Slow(p) && p[0] != SYNC_BYTE && p[1..3] == StaleAck && t >= 5
    requires retries > 0 && Affordable(p, t + retries)
    requires s == p + StaleAck + StaleAck && 1 <= j <= |s|
    ensures Over(p, t, retries, s[j..])
  {
    assert p[1] == p[1..3][0] && p[2] == p[1..3][1];
    assert s == [p[0], 0x12, 0x10, 0x12, 0x12, 0x10, 0x12, 0x10];
    if j == 1 {
      var y := s[3..] + StaleAck;
      assert (s[1..] + StaleAck)[2..] == y;
      assert (y + (p + StaleAck))[4] == 0x10;
      assert (y + (p + StaleAck))[4..6][0] == 0x10;
    } else if j == 2 {
      NotAnAck(p, s[j..]);
    } else {
      SuffixEndsInAck(p + StaleAck, j);
      ShortIsDull(p, s[j..]);
    }
  }

  /** Out of sync: excess data, or an acknowledgment that does not arrive alone. */
  lemma AstrayDrops(p: seq<byte>, t: nat, retries: nat, x: seq<byte>, s: seq<byte>, j: nat)
    requires |p| == 4 && retries > 0 && Harmless(p, false, t, retries, x)
    requires s == x + StaleAck && DueAt(s, 0) <= j <= |s| && (Marks(s, 0) ==> j > 2)
    ensures Harmless(p, false, t + 1, retries - 1, s[j..])
  {
    hide Dull, Threshold;
    if |x| <= 2 {
      ShortDrops(p, t, x, s, j);
    } else if x == [p[3]] + StaleAck {
      MiddleDrops(p, t, p[3], s, j);
    } else if x == [0x10] + StaleAck {
      MiddleDrops(p, t, 0x10, s, j);
    } else if x == StaleAck + StaleAck {
      TwoDrop(p, t, s, j);
    } else if x == p[2..] + StaleAck {
      UpperDrops(p, t, retries, s, j);
    } else if x == p[1..] + StaleAck {
      assert x[1] == p[2];
      ThreeDrop(p, t, retries, s, j);
    } else if x == [p[3]] + (StaleAck + StaleAck) {
      LastDrops(p, t, retries, x, s, j);
    } else {
      assert x == p + StaleAck;
      AnswerDrops(p, t, retries, s, j);
    }
  }

  lemma LastDrops(p: seq<byte>, t: nat, retries: nat, x: seq<byte>, s: seq<byte>, j: nat)
    requires |p| == 4 && Slow(p) && t >= 5 && retries > 0 && Affordable(p, t + retries)
    requires x == [p[3]] + (StaleAck + StaleAck) && s == x + StaleAck && 2 <= j <= |s|
    ensures Over(p, t, retries, s[j..])
  {
    SuffixEndsInAck(x, j);
    ShortIsDull(p, s[j..]);
  }

  /** In sync, when there is no marker behind four bytes. */
  lemma AlignedDrops(p: seq<byte>, t: nat, retries: nat, y: seq<byte>, s: seq<byte>, j: nat)
    requires |p| == 4 && retries > 0 && Harmless(p, true, t, retries, y)
    requires s == y + (p + StaleAck) && !Marks(s, 4) && DueAt(s, 4) <= j <= |s|
    ensures Harmless(p, false, t + 1, retries - 1, s[j..])
  {
    hide Dull, Threshold;
    if y == [] {
      assert false;
    } else if y == StaleAck {
      assert s == [0x12, 0x10, p[0], p[1], p[2], p[3], 0x12, 0x10];
      assert j == 5 ==> s[j..] == [p[3]] + StaleAck;
      assert j == 6 ==> s[j..] == StaleAck;
      assert j == 7 ==> s[j..] == [0x10];
    } else if y == StaleAck + StaleAck {
      assert s == [0x12, 0x10, 0x12, 0x10, p[0], p[1], p[2], p[3], 0x12, 0x10];
      assert j == 5 ==> s[j..] == p[1..] + StaleAck;
      assert j == 6 ==> s[j..] == p[2..] + StaleAck;
      assert j == 7 ==> s[j..] == [p[3]] + StaleAck;
      assert j == 8 ==> s[j..] == StaleAck;
      assert j == 9 ==> s[j..] == [0x10];
    } else {
      AnswerIsLeft(p, t, retries, y, s, j);
    }
    assert j == |s| ==> s[j..] == [];
  }

  lemma AnswerIsLeft(p: seq<byte>, t: nat, retries: nat, y: seq<byte>, s: seq<byte>, j: nat)
    requires |p| == 4 && Open(p) && p[0] != SYNC_BYTE && p[1..3] == StaleAck && t >= 3 + Delay(p)
    requires retries > 0 && Affordable(p, t + retries)
    requires y == [p[3]] + (StaleAck + StaleAck) && s == y + (p + StaleAck) && 5 <= j <= |s|
    ensures Over(p, t, retries, s[j..])
  {
    hide Dull;
    assert p[1] == p[1..3][0];
    assert s == [p[3], 0x12, 0x10, 0x12, 0x10, p[0], p[1], p[2], p[3], 0x12, 0x10];
    if j == 5 {
      assert s[j..] == p + StaleAck;
      assert (p + StaleAck)[..2][0] == p[0];
      NotAnAck(p, p + StaleAck);
    }
    assert j == 6 ==> s[j..] == p[1..] + StaleAck;
    assert j == 7 ==> s[j..] == p[2..] + StaleAck;
    assert j == 8 ==> s[j..] == [p[3]] + StaleAck;
    assert j == 9 ==> s[j..] == StaleAck;
    assert j == 10 ==> s[j..] == [0x10];
    assert j == 11 ==> s[j..] == [];
  }

  /** In sync, only what is really the pointer is read as the pointer. */
  lemma NotFooled(p: seq<byte>, t: nat, retries: nat, y: seq<byte>)
    requires |p| == 4 && Harmless(p, true, t, retries, y)
    ensures !Fools(p, y)
  {
    var s := y + (p + StaleAck);
    if y == [] {
      assert s == p + StaleAck;
    } else if y == StaleAck {
      assert s == StaleAck + p + StaleAck;
      assert s[4..6] == p[2..] && s[..4] == StaleAck + p[..2];
      assert p == p[..2] + p[2..];
    } else if y == StaleAck + StaleAck {
      assert s[4..6] == p[..2];
    } else if Aligned(p, t, y) {
      assert s[4..6][0] == 0x10;
    }
  }

  /** An acknowledgment that arrives alone. */
  lemma AstraySyncs(p: seq<byte>, t: nat, retries: nat, x: seq<byte>, s: seq<byte>)
    requires |p| == 4 && Harmless(p, false, t, retries, x) && s == x + StaleAck && s[..2] == StaleAck
    ensures Harmless(p, true, t, retries, s[2..])
  {
    hide Fools, Threshold;
    assert s[0] == s[..2][0] && s[1] == s[..2][1];
    if x == [] {
      assert s[2..] == [];
    } else if x == StaleAck {
      assert s[2..] == StaleAck;
    } else if x == StaleAck + StaleAck {
      assert s[2..] == StaleAck + StaleAck;
    } else if x == p[1..] + StaleAck {
      assert p[1..3] == [p[1], p[2]];
      assert s[2..] == [p[3]] + (StaleAck + StaleAck);
    }
  }

  // ---- the call ----

  ghost predicate NeverWrong(call: Call, link: Link, p: seq<byte>)
    requires call.Valid()
  {
    var outcome := Run(GetWritePointer, Channel, call, link).0;
    outcome.Returned? ==> outcome.value == p
  }

  /** The invariant of the loop: `t` retries have been spent, and what is pending can do no harm with those left. */
  lemma {:induction false} HarmlessCall(call: Call, link: Link, p: seq<byte>, t: nat)
    requires call.Valid() && Rested(call.m) && Serving(link) && p == PointerBytesOf(link)
    requires Harmless(p, call.m.state == InSync, t, call.retries, link.pending)
    ensures NeverWrong(call, link, p)
    decreases call.retries, if call.m.state == InSync then 0 else 1
  {
    hide Run, Harmless, ToLe, Lost;
    if call.m.state == InSync {
      var s := link.pending + (p + StaleAck);
      var j, call', link' := CommandAttempt(call, link, s);
      NotFooled(p, t, call.retries, link.pending);
      assert s[4..6] == [s[4], s[5]];
      if !Marks(s, 4) && call.retries > 0 {
        AlignedDrops(p, t, call.retries, link.pending, s, j);
        HarmlessCall(call', link', p, t + 1);
      }
    } else {
      var s := link.pending + StaleAck;
      var j, call', link' := SyncAttempt(call, link, s);
      if Marks(s, 0) && s[1] != 0x10 {
      } else if Marks(s, 0) && j == 2 {
        assert s[..2] == StaleAck;
        AstraySyncs(p, t, call.retries, link.pending, s);
        HarmlessCall(call', link', p, t);
      } else if call.retries > 0 {
        AstrayDrops(p, t, call.retries, link.pending, s, j);
        HarmlessCall(call', link', p, t + 1);
      }
    }
  }

  /** The call reports the pointer, but another one. */
  ghost predicate Misled(m: Machine, retries: nat, link: Link)
    requires Rested(m)
  {
    !NeverWrong(Call(m, false, retries, []), link, PointerBytesOf(link))
  }

  lemma BytesOfPointer(pointer: nat)
    requires pointer < 0x1_0000_0000
    ensures var p := ToLe(pointer, 4);
            && p[0] as int == pointer % 0x100 && p[1] as int == pointer / 0x100 % 0x100
            && p[2] as int == pointer / 0x1_0000 % 0x100 && p[3] as int == pointer / 0x100_0000 % 0x100
  {
    var p := ToLe(pointer, 4);
    assert p[1..] == ToLe(pointer / 0x100, 3);
    assert p[1..][1..] == ToLe(pointer / 0x100 / 0x100, 2);
    assert p[1..][1..][1..] == ToLe(pointer / 0x100 / 0x100 / 0x100, 1);
  }

  lemma Halves(pointer: nat)
    requires pointer < 0x1_0000_0000
    ensures var p := ToLe(pointer, 4);
            && (p[..2] == StaleAck <==> pointer % 0x1_0000 == 0x1012)
            && (p[2..] == StaleAck <==> pointer / 0x1_0000 == 0x1012)
  {
    hide ToLe;
    var p := ToLe(pointer, 4);
    BytesOfPointer(pointer);
    HalvesByBytes(pointer, 0x1012);
    assert p[..2] == [p[0], p[1]] && p[2..] == [p[2], p[3]];
  }

  /** Below the threshold, one stale acknowledgment misleads no call, however the bytes are cut into pieces. */
  lemma BelowThreshold(m: Machine, retries: nat, link: Link)
    requires Rested(m) && Serving(link) && link.pending == StaleAck
    requires Affordable(PointerBytesOf(link), retries)
    ensures !Misled(m, retries, link)
  {
    hide Run, ToLe, Lost, Threshold;
    HarmlessCall(Call(m, false, retries, []), link, PointerBytesOf(link), 0);
  }

  /** In particular, four retries are safe unless a half of the pointer reads as an acknowledgment itself. */
  lemma FewRetriesAreSafe(m: Machine, retries: nat, link: Link)
    requires Rested(m) && Serving(link) && link.pending == StaleAck && retries <= 4
    requires link.device.ptr % 0x1_0000 != 0x1012 && link.device.ptr / 0x1_0000 != 0x1012
    ensures !Misled(m, retries, link)
  {
    hide Run, Misled, ToLe, Lost;
    Halves(link.device.ptr);
    BelowThreshold(m, retries, link);
  }

  /**
   * If everything that is pending arrives in one piece, one retry is enough: the call starts out of sync, reports
   * exactly the device's pointer, and the stale acknowledgment is gone.
   */
  lemma WholePiecesRecover(m: Machine, retries: nat, link: Link)
    requires Rested(m) && m.state != InSync && Serving(link) && link.pending == StaleAck
    requires retries >= 1 && link.cuts == []
    ensures var (outcome, last, link') := Run(GetWritePointer, Channel, Call(m, false, retries, []), link);
            outcome == Returned(PointerBytesOf(link)) && last.m == Ready && link'.pending == []
  {
    hide Run, Lost, ToLe;
    var call, s := Call(m, false, retries, []), StaleAck + StaleAck;
    var j, call', link' := SyncAttempt(call, link, s);
    assert s[4..] == [];
    assert Marks(s, 0);
    PointerExpected(link');
    var k, outcome, last, link'' := CallEnds(GetWritePointer, call', link');
  }

  lemma PointerExpected(link: Link)
    requires Serving(link)
    ensures Reaction(link.device, GetWritePointer) == Some(Response(Success, PointerBytesOf(link)))
  {
    hide ToLe;
  }

  // ---- how the call is misled ----

  /** A point of the loop that the call passes, with what is then pending and how it will be cut. */
  ghost predicate Passes(origin: Call, start: Link, call: Call, link: Link, synced: bool, retries: int,
                         pending: seq<byte>, cuts: seq<nat>)
    requires origin.Valid()
  {
    && LeadsTo(GetWritePointer, origin, start, call, link)
    && Rested(call.m) && (call.m.state == InSync <==> synced) && call.retries == retries
    && Serving(link) && link.device == start.device && link.pending == pending && link.cuts == cuts
  }

  /** An acknowledgment arrives alone. */
  lemma PassAck(origin: Call, start: Link, call: Call, link: Link, retries: int, x: seq<byte>, cuts: seq<nat>)
    returns (call': Call, link': Link)
    requires origin.Valid() && Passes(origin, start, call, link, false, retries, StaleAck + x, [2] + cuts)
    ensures Passes(origin, start, call', link', true, retries, x + StaleAck, cuts)
  {
    hide Run, Lost, ToLe;
    var s := StaleAck + x + StaleAck;
    var j;
    j, call', link' := SyncAttempt(call, link, s);
    assert s[2..] == x + StaleAck && ([2] + cuts)[1..] == cuts;
    assert Marks(s, 0);
  }

  /** Something else comes first. */
  lemma PassJunk(origin: Call, start: Link, call: Call, link: Link, retries: int, x: seq<byte>, y: seq<byte>,
                 cuts: seq<nat>) returns (call': Call, link': Link)
    requires x != [] && (x[0] != SYNC_BYTE || (|x| >= 2 && AcceptedCode(x[1]) == None)) && retries > 0
    requires origin.Valid() && Passes(origin, start, call, link, false, retries, x + y, [|x|] + cuts)
    ensures Passes(origin, start, call', link', false, retries - 1, y + StaleAck, cuts)
  {
    hide Run, Lost, ToLe;
    var s := x + y + StaleAck;
    var j;
    j, call', link' := SyncAttempt(call, link, s);
    assert s[|x|..] == y + StaleAck && ([|x|] + cuts)[1..] == cuts;
  }

  /** The four bytes of the answer, and what should be the marker or half of it. */
  lemma PassExcess(origin: Call, start: Link, call: Call, link: Link, retries: int, y: seq<byte>, s: seq<byte>,
                   k: nat, cuts: seq<nat>) returns (call': Call, link': Link)
    requires retries > 0 && Serving(start) && s == y + (PointerBytesOf(start) + StaleAck)
    requires !Marks(s, 4) && DueAt(s, 4) <= k <= |s|
    requires origin.Valid() && Passes(origin, start, call, link, true, retries, y, [k] + cuts)
    ensures Passes(origin, start, call', link', false, retries - 1, s[k..], cuts)
  {
    hide Run, Lost, ToLe;
    var j;
    j, call', link' := CommandAttempt(call, link, s);
    assert ([k] + cuts)[1..] == cuts;
  }

  /** A marker where there should not be one yet. */
  lemma PassAnswer(origin: Call, start: Link, call: Call, link: Link, retries: int, y: seq<byte>, s: seq<byte>,
                   cuts: seq<nat>)
    requires Serving(start) && s == y + (PointerBytesOf(start) + StaleAck) && s[4..6] == StaleAck
    requires origin.Valid() && Passes(origin, start, call, link, true, retries, y, cuts)
    ensures Run(GetWritePointer, Channel, origin, start).0 == Returned(s[..4])
  {
    hide Run, Lost, ToLe;
    assert s[4..6][0] == s[4] && s[4..6][1] == s[5];
    var j, call', link' := CommandAttempt(call, link, s);
  }

  /** How the bytes have to be cut until two acknowledgments are pending. */
  function TwoCuts(p: seq<byte>): seq<nat>
    requires |p| == 4
  {
    if p[3] == SYNC_BYTE then [5] + ([2] + [1]) else [5] + [1]
  }

  /** One stale acknowledgment becomes two. */
  lemma FirstRound(origin: Call, start: Link, call: Call, link: Link, retries: int, p: seq<byte>, more: seq<nat>)
    returns (call': Call, link': Link)
    requires Serving(start) && p == PointerBytesOf(start) && p[2] != SYNC_BYTE && retries >= 2 + Delay(p)
    requires origin.Valid() && Passes(origin, start, call, link, true, retries, StaleAck, TwoCuts(p) + more)
    ensures Passes(origin, start, call', link', false, retries - 2 - Delay(p), StaleAck + StaleAck, more)
  {
    hide Run, Lost, ToLe, Passes, PointerBytesOf;
    var g := StaleAck;
    var s := g + (p + g);
    assert s[5..] == [p[3]] + g && s[4] == p[2];
    if p[3] == SYNC_BYTE {
      assert TwoCuts(p) + more == [5] + ([2] + ([1] + more));
      call', link' := PassExcess(origin, start, call, link, retries, g, s, 5, [2] + ([1] + more));
      assert [p[3]] + g == [p[3], 0x12] + [0x10];
      call', link' := PassJunk(origin, start, call', link', retries - 1, [p[3], 0x12], [0x10], [1] + more);
      call', link' := PassJunk(origin, start, call', link', retries - 2, [0x10], g, more);
    } else {
      assert TwoCuts(p) + more == [5] + ([1] + more);
      call', link' := PassExcess(origin, start, call, link, retries, g, s, 5, [1] + more);
      call', link' := PassJunk(origin, start, call', link', retries - 1, [p[3]], g, more);
    }
  }

  /** From two to three. */
  function ThreeCuts(p: seq<byte>): seq<nat>
    requires |p| == 4
  {
    if p[3] != SYNC_BYTE then [6] + ([1] + [1])
    else if SYNC_BYTE in p[..2] then [6] + ([1] + ([2] + [1]))
    else [5] + ([1] + [2])
  }

  /** The retries that this takes. */
  function ThreeCost(p: seq<byte>): nat
    requires |p| == 4
  {
    |ThreeCuts(p)|
  }

  /** Two become three. */
  lemma SecondRound(origin: Call, start: Link, call: Call, link: Link, retries: int, p: seq<byte>, more: seq<nat>)
    returns (call': Call, link': Link)
    requires Serving(start) && p == PointerBytesOf(start) && Open(p) && retries >= ThreeCost(p)
    requires origin.Valid()
    requires Passes(origin, start, call, link, true, retries, StaleAck + StaleAck, ThreeCuts(p) + more)
    ensures Passes(origin, start, call', link', false, retries - ThreeCost(p), StaleAck + (StaleAck + StaleAck), more)
  {
    hide Run, Lost, ToLe, Passes, PointerBytesOf;
    if p[3] == SYNC_BYTE && SYNC_BYTE !in p[..2] {
      call', link' := ThroughAnswer(origin, start, call, link, retries, p, more);
    } else {
      var g := StaleAck;
      var s := g + g + (p + g);
      assert s[4] == p[0] && s[5] == p[1] && s[6..] == p[2..] + g && p[2..] == [p[2]] + [p[3]];
      var after := if p[3] == SYNC_BYTE then [2] + ([1] + more) else [1] + more;
      assert ThreeCuts(p) + more == [6] + ([1] + after);
      call', link' := PassExcess(origin, start, call, link, retries, g + g, s, 6, [1] + after);
      assert p[2..] + g == [p[2]] + ([p[3]] + g);
      call', link' := PassJunk(origin, start, call', link', retries - 1, [p[2]], [p[3]] + g, after);
      assert [p[3]] + g + g == [p[3]] + (g + g) && g + g + g == g + (g + g);
      if p[3] == SYNC_BYTE {
        assert [p[3]] + (g + g) == [p[3], 0x12] + ([0x10] + g);
        call', link' := PassJunk(origin, start, call', link', retries - 2, [p[3], 0x12], [0x10] + g, [1] + more);
        assert [0x10] + g + g == [0x10] + (g + g);
        call', link' := PassJunk(origin, start, call', link', retries - 3, [0x10], g + g, more);
      } else {
        call', link' := PassJunk(origin, start, call', link', retries - 2, [p[3]], g + g, more);
      }
    }
  }

  lemma ThroughAnswer(origin: Call, start: Link, call: Call, link: Link, retries: int, p: seq<byte>, more: seq<nat>)
    returns (call': Call, link': Link)
    requires Serving(start) && p == PointerBytesOf(start) && Open(p) && retries >= 3
    requires p[3] == SYNC_BYTE && SYNC_BYTE !in p[..2]
    requires origin.Valid()
    requires Passes(origin, start, call, link, true, retries, StaleAck + StaleAck, ThreeCuts(p) + more)
    ensures Passes(origin, start, call', link', false, retries - 3, StaleAck + (StaleAck + StaleAck), more)
  {
    hide Run, Lost, ToLe, Passes, PointerBytesOf;
    var g := StaleAck;
    var s := g + g + (p + g);
    assert p[..2][0] == p[0] && p[..2][1] == p[1];
    assert s[4] == p[0] && s[5..] == [p[1]] + (p[2..] + g);
    assert ThreeCuts(p) + more == [5] + ([1] + ([2] + more));
    call', link' := PassExcess(origin, start, call, link, retries, g + g, s, 5, [1] + ([2] + more));
    call', link' := PassJunk(origin, start, call', link', retries - 1, [p[1]], p[2..] + g, [2] + more);
    assert p[2..] + g + g == p[2..] + (g + g) && g + g + g == g + (g + g);
    call', link' := PassJunk(origin, start, call', link', retries - 2, p[2..], g + g, more);
  }

  /** How the bytes have to be cut. */
  function AlignedCuts(p: seq<byte>): seq<nat>
    requires |p| == 4
  {
    if p[2..] == StaleAck then []
    else if p[..2] == StaleAck then TwoCuts(p) + [2]
    else TwoCuts(p) + ([2] + (ThreeCuts(p) + [2]))
  }

  function FoolingCuts(p: seq<byte>, synced: bool): seq<nat>
    requires |p| == 4
  {
    if synced then AlignedCuts(p) else [2] + AlignedCuts(p)
  }

  /** What is reported instead: two acknowledgments, or one and the pointer's lower half. */
  function WrongPointer(p: seq<byte>): seq<byte>
    requires |p| == 4
  {
    if p[2..] == StaleAck then StaleAck + p[..2] else StaleAck + StaleAck
  }

  lemma FromSync(origin: Call, start: Link, call: Call, link: Link, retries: nat, p: seq<byte>, more: seq<nat>)
    requires Serving(start) && p == PointerBytesOf(start) && Threshold(p).Some? && retries >= Threshold(p).value
    requires origin.Valid() && Passes(origin, start, call, link, true, retries, StaleAck, AlignedCuts(p) + more)
    ensures Run(GetWritePointer, Channel, origin, start).0 == Returned(WrongPointer(p))
  {
    hide Run, Lost, ToLe, Passes, PointerBytesOf;
    var g := StaleAck;
    if p[2..] == g {
      var s := g + (p + g);
      assert [] + more == more && s[4..6] == p[2..] && s[..4] == g + p[..2];
      PassAnswer(origin, start, call, link, retries, g, s, more);
    } else {
      var rest := if p[..2] == g then more else ThreeCuts(p) + ([2] + more);
      assert AlignedCuts(p) + more == TwoCuts(p) + ([2] + rest);
      var call', link' := FirstRound(origin, start, call, link, retries, p, [2] + rest);
      call', link' := PassAck(origin, start, call', link', retries - 2 - Delay(p), g, rest);
      if p[..2] == g {
        var s := g + g + (p + g);
        assert s[4..6] == p[..2] && s[..4] == g + g;
        PassAnswer(origin, start, call', link', retries - 2 - Delay(p), g + g, s, more);
      } else {
        FromTwo(origin, start, call', link', retries - 2 - Delay(p), p, more);
      }
    }
  }

  lemma FromTwo(origin: Call, start: Link, call: Call, link: Link, retries: int, p: seq<byte>, more: seq<nat>)
    requires Serving(start) && p == PointerBytesOf(start) && Open(p) && retries >= ThreeCost(p)
    requires origin.Valid()
    requires Passes(origin, start, call, link, true, retries, StaleAck + StaleAck, ThreeCuts(p) + ([2] + more))
    ensures Run(GetWritePointer, Channel, origin, start).0 == Returned(StaleAck + StaleAck)
  {
    hide Run, Lost, ToLe, Passes, PointerBytesOf, ThreeCuts;
    var g := StaleAck;
    var call', link' := SecondRound(origin, start, call, link, retries, p, [2] + more);
    call', link' := PassAck(origin, start, call', link', retries - ThreeCost(p), g + g, more);
    var s := g + g + g + (p + g);
    assert s[4..6] == g && s[..4] == g + g;
    PassAnswer(origin, start, call', link', retries - ThreeCost(p), g + g + g, s, more);
  }

  lemma StartsThere(m: Machine, retries: nat, link: Link)
    requires Rested(m) && Serving(link)
    ensures var origin := Call(m, false, retries, []);
            Passes(origin, link, origin, link, m.state == InSync, retries, link.pending, link.cuts)
  {
    hide Run, Lost;
  }

  lemma OtherValueMisleads(m: Machine, retries: nat, link: Link, v: seq<byte>)
    requires Rested(m) && v != PointerBytesOf(link)
    requires Run(GetWritePointer, Channel, Call(m, false, retries, []), link).0 == Returned(v)
    ensures Misled(m, retries, link)
  {
    hide Run, PointerBytesOf;
  }

  /** With as many retries as the threshold and suitable cuts, the call is misled. */
  lemma ManyRetriesMislead(m: Machine, retries: nat, link: Link, p: seq<byte>, more: seq<nat>)
    requires Rested(m) && Serving(link) && link.pending == StaleAck && p == PointerBytesOf(link)
    requires Threshold(p).Some? && retries >= Threshold(p).value
    requires link.cuts == FoolingCuts(p, m.state == InSync) + more
    ensures Run(GetWritePointer, Channel, Call(m, false, retries, []), link).0 == Returned(WrongPointer(p))
    ensures Misled(m, retries, link)
  {
    hide Run, Lost, ToLe, Passes, PointerBytesOf, Threshold, AlignedCuts, Misled;
    var origin := Call(m, false, retries, []);
    StartsThere(m, retries, link);
    if m.state == InSync {
      FromSync(origin, link, origin, link, retries, p, more);
    } else {
      assert link.cuts == [2] + (AlignedCuts(p) + more);
      assert StaleAck + [] == StaleAck && [] + StaleAck == StaleAck;
      var call, now := PassAck(origin, link, origin, link, retries, [], AlignedCuts(p) + more);
      FromSync(origin, link, call, now, retries, p, more);
    }
    WrongIsWrong(p);
    OtherValueMisleads(m, retries, link, WrongPointer(p));
  }

  lemma WrongIsWrong(p: seq<byte>)
    requires |p| == 4 && Threshold(p).Some?
    ensures WrongPointer(p) != p
  {
    assert (StaleAck + p[..2])[..2] == StaleAck && (StaleAck + StaleAck)[2..] == StaleAck;
  }

  /** So the call is safe for every way of cutting the bytes exactly below the threshold. */
  lemma RetriesDecide(m: Machine, retries: nat, link: Link)
    requires Rested(m) && Serving(link) && link.pending == StaleAck
    ensures (forall cuts :: !Misled(m, retries, link.(cuts := cuts))) <==> Affordable(PointerBytesOf(link), retries)
  {
    hide Run, Lost, ToLe, Misled, Threshold, FoolingCuts;
    var p := PointerBytesOf(link);
    if Affordable(p, retries) {
      forall cuts ensures !Misled(m, retries, link.(cuts := cuts)) {
        BelowThreshold(m, retries, link.(cuts := cuts));
      }
    } else {
      var cuts := FoolingCuts(p, m.state == InSync) + [];
      ManyRetriesMislead(m, retries, link.(cuts := cuts), p, []);
      assert Misled(m, retries, link.(cuts := cuts));
    }
  }

  lemma FirstChunkBytes()
    ensures ToLe(PROG_MULTI_MAX_PAYLOAD_LENGTH, 4) == [252, 0, 0, 0]
  {
    BytesOfPointer(252);
  }

  /** One such call, with the ten retries of the source and the pointer behind the first chunk. */
  lemma FirstChunkIsMisled(device: Device.State)
    requires device.Valid() && !device.exiting && device.ptr == PROG_MULTI_MAX_PAYLOAD_LENGTH
    ensures var link := Link(device, StaleAck, [], [2, 5, 1, 2, 6, 1, 1, 2], 0);
            Run(GetWritePointer, Channel, Call(Fresh, false, 10, []), link).0 == Returned([0x12, 0x10, 0x12, 0x10])
    ensures FromLe([0x12, 0x10, 0x12, 0x10]) == 0x1012_1012
  {
    hide Run, ToLe;
    var p: seq<byte> := [252, 0, 0, 0];
    var link := Link(device, StaleAck, [], [2, 5, 1, 2, 6, 1, 1, 2], 0);
    FirstChunkBytes();
    assert FoolingCuts(p, false) + [] == [2, 5, 1, 2, 6, 1, 1, 2];
    assert StaleAck + StaleAck == [0x12, 0x10, 0x12, 0x10];
    assert FromLe([0x12, 0x10]) == 0x1012;
    assert [0x12 as byte, 0x10, 0x12, 0x10][1..][1..] == [0x12, 0x10];
    ManyRetriesMislead(Fresh, 10, link, p, []);
  }
}
