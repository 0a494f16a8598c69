/** No byte fed to the parser is lost, duplicated or reordered: each one meets exactly one fate. */
module Conservation {
  import opened Bytes
  import opened Messages
  import opened Protocol

  /** The bytes an event accounts for; a reply includes its marker and its result code. */
  function BytesOf(e: Event): seq<byte> {
    match e
    case ExcessData(bytes) => bytes
    case Reply(r) => r.payload + [SYNC_BYTE, r.code.Code()]
    case _ => []
  }

  /** The length prefix that the next event consumes, if any. */
  function PrefixTaken(m: Machine): seq<byte> {
    if m.state == WaitResponseLength && |m.buffer| >= 4 then m.buffer[..4] else []
  }

  lemma LengthReadConserves(m: Machine)
    requires m.Valid()
    ensures m.Held() == PrefixTaken(m) + m.LengthRead().Held()
  {
    if m.state == WaitResponseLength && |m.buffer| >= 4 {
      assert m.buffer == m.buffer[..4] + m.buffer[4..];
    }
  }

  lemma BodyReadConserves(m: Machine)
    requires m.Valid()
    ensures m.BodyRead().Held() == m.Held()
  {
  }

  lemma PurgedConserves(m: Machine, upTo: nat)
    requires upTo <= |m.buffer|
    ensures m.Held() == BytesOf(m.Purged(upTo).0) + m.Purged(upTo).1.Held()
    ensures m.Purged(upTo).0 == OurTurn || BytesOf(m.Purged(upTo).0) != []
  {
    assert m.buffer == m.buffer[..upTo] + m.buffer[upTo..];
  }

  lemma HuntedConserves(m: Machine)
    requires m.Valid() && m.state == WaitSync
    ensures m.Held() == BytesOf(m.Hunted().0) + m.Hunted().1.Held()
    ensures m.Hunted().0.NeedMoreData? || BytesOf(m.Hunted().0) != []
  {
    var i := Find(m.buffer, SYNC_BYTE);
    if m.buffer == [] {
    } else if i > 0 {
      PurgedConserves(m, i);
    } else if i < 0 {
      PurgedConserves(m, |m.buffer|);
    } else if |m.buffer| >= 2 {
      if AcceptedCode(m.buffer[1]) == None {
        PurgedConserves(m, 2);
      } else {
        MarkedConserves(m);
      }
    }
  }

  lemma MarkedConserves(m: Machine)
    requires |m.buffer| >= 2 && m.buffer[0] == SYNC_BYTE && AcceptedCode(m.buffer[1]).Some?
    ensures m.Held() == BytesOf(Reply(Response(AcceptedCode(m.buffer[1]).value, m.payload))) + ([] + m.buffer[2..])
  {
    assert m.buffer == [SYNC_BYTE, m.buffer[1]] + m.buffer[2..];
  }

  /** One event: what was held is the length prefix taken, then the bytes of the event, then what is still held. */
  lemma NextConserves(m: Machine)
    requires m.Valid()
    ensures m.Held() == PrefixTaken(m) + (BytesOf(m.Next().0) + m.Next().1.Held())
  {
    LengthReadConserves(m);
    LengthReadValid(m);
    var read := m.LengthRead();
    BodyReadConserves(read);
    BodyReadValid(read);
    var m' := read.BodyRead();
    if m.buffer == [] && m.closed {
      assert PrefixTaken(m) == [];
    } else if m'.state == WaitSync {
      HuntedConserves(m');
    } else if m'.state != WaitResponseLength && m'.state != WaitResponse {
      PurgedConserves(m', |m'.buffer|);
    }
  }

  /** Replies and excess data always take bytes away, so draining the parser ends. */
  lemma NextShrinks(m: Machine)
    requires m.Valid() && (m.Next().0.ExcessData? || m.Next().0.Reply?)
    ensures BytesOf(m.Next().0) != []
    ensures |m.Next().1.Held()| < |m.Held()|
  {
    NextConserves(m);
    LengthReadValid(m);
    BodyReadValid(m.LengthRead());
    var m' := m.LengthRead().BodyRead();
    if m'.state == WaitSync {
      HuntedConserves(m');
    }
  }

  /** It is our turn only when nothing is held at all. */
  lemma OurTurnMeansEmpty(m: Machine)
    requires m.Valid() && m.Next().0 == OurTurn
    ensures m.Next().1 == m && m.Held() == [] && !m.Waiting()
  {
    LengthReadValid(m);
    BodyReadValid(m.LengthRead());
    var m' := m.LengthRead().BodyRead();
    if m'.state == WaitSync {
      HuntedConserves(m');
    }
  }

  /** What became of one byte: it waits, a reset dropped it, it was a length prefix, or event number `k` carries it. */
  datatype Fate = Waiting | Dropped | Prefix | InEvent(k: nat)

  /** The bytes with the given fate, in the order in which they were fed. */
  function Select(fed: seq<byte>, fates: seq<Fate>, f: Fate): seq<byte>
    requires |fed| == |fates|
  {
    if fed == [] then []
    else (if fates[0] == f then [fed[0]] else []) + Select(fed[1..], fates[1..], f)
  }

  /** Leaves the first `skip` waiting bytes alone and gives the next `take` of them the fate `f`. */
  function Mark(fates: seq<Fate>, skip: nat, take: nat, f: Fate): (r: seq<Fate>)
    ensures |r| == |fates|
  {
    if fates == [] then []
    else if fates[0] != Waiting then [fates[0]] + Mark(fates[1..], skip, take, f)
    else if skip > 0 then [Waiting] + Mark(fates[1..], skip - 1, take, f)
    else if take > 0 then [f] + Mark(fates[1..], 0, take - 1, f)
    else fates
  }

  function SkipLeft(first: Fate, skip: nat): nat {
    if first == Waiting && skip > 0 then skip - 1 else skip
  }

  function TakeLeft(first: Fate, skip: nat, take: nat): nat {
    if first == Waiting && skip == 0 && take > 0 then take - 1 else take
  }

  function Marked(first: Fate, skip: nat, f: Fate): Fate {
    if first == Waiting && skip == 0 then f else first
  }

  /** Nothing is left to be marked. */
  predicate Settled(fates: seq<Fate>, skip: nat, take: nat) {
    fates == [] || (fates[0] == Waiting && skip == 0 && take == 0)
  }

  lemma MarkStep(fates: seq<Fate>, skip: nat, take: nat, f: Fate)
    requires !Settled(fates, skip, take)
    ensures Mark(fates, skip, take, f) ==
            [Marked(fates[0], skip, f)] + Mark(fates[1..], SkipLeft(fates[0], skip), TakeLeft(fates[0], skip, take), f)
  {
  }

  lemma SelectCons(b: byte, fed: seq<byte>, first: Fate, fates: seq<Fate>, g: Fate)
    requires |fed| == |fates|
    ensures Select([b] + fed, [first] + fates, g) == (if first == g then [b] else []) + Select(fed, fates, g)
  {
    assert ([b] + fed)[1..] == fed && ([first] + fates)[1..] == fates;
  }

  lemma SelectMarked(fed: seq<byte>, fates: seq<Fate>, skip: nat, take: nat, f: Fate, g: Fate)
    requires |fed| == |fates| && !Settled(fates, skip, take)
    ensures Select(fed, Mark(fates, skip, take, f), g) ==
            (if Marked(fates[0], skip, f) == g then [fed[0]] else [])
            + Select(fed[1..], Mark(fates[1..], SkipLeft(fates[0], skip), TakeLeft(fates[0], skip, take), f), g)
    ensures Select(fed, fates, g) == (if fates[0] == g then [fed[0]] else []) + Select(fed[1..], fates[1..], g)
  {
    MarkStep(fates, skip, take, f);
    var rest := Mark(fates[1..], SkipLeft(fates[0], skip), TakeLeft(fates[0], skip, take), f);
    SelectCons(fed[0], fed[1..], Marked(fates[0], skip, f), rest, g);
    assert fed == [fed[0]] + fed[1..];
  }

  lemma {:induction false} MarkKeepsOthers(fed: seq<byte>, fates: seq<Fate>, skip: nat, take: nat, f: Fate, g: Fate)
    requires |fed| == |fates| && g != f && g != Waiting
    ensures Select(fed, Mark(fates, skip, take, f), g) == Select(fed, fates, g)
  {
    if !Settled(fates, skip, take) {
      SelectMarked(fed, fates, skip, take, f, g);
      MarkKeepsOthers(fed[1..], fates[1..], SkipLeft(fates[0], skip), TakeLeft(fates[0], skip, take), f, g);
    }
  }

  lemma KeptFront(b: byte, w: seq<byte>, skip: nat, take: nat, v: seq<byte>)
    requires v == [b] + w && skip > 0 && skip + take <= |v|
    ensures v[..skip] + v[skip + take..] == [b] + (w[..skip - 1] + w[skip - 1 + take..])
    ensures v[skip..skip + take] == [] + w[skip - 1..skip - 1 + take]
  {
    assert v[..skip] == [b] + w[..skip - 1];
    assert v[skip + take..] == w[skip - 1 + take..];
  }

  lemma TakenFront(b: byte, w: seq<byte>, take: nat, v: seq<byte>)
    requires v == [b] + w && 0 < take <= |v|
    ensures v[..0] + v[take..] == [] + (w[..0] + w[take - 1..])
    ensures v[0..take] == [b] + w[0..take - 1]
  {
    assert v[take..] == w[take - 1..];
  }

  lemma NothingInFront(w: seq<byte>, skip: nat, take: nat)
    requires skip + take <= |w|
    ensures [] + w == w && [] + (w[..skip] + w[skip + take..]) == w[..skip] + w[skip + take..]
    ensures [] + w[skip..skip + take] == w[skip..skip + take]
  {
  }

  /** Runs of a sequence that may have one more element in front. */
  lemma MovedRun(b: byte, first: Fate, skip: nat, take: nat, f: Fate, w: seq<byte>)
    requires f != Waiting && (first == Waiting ==> skip > 0 || take > 0)
    requires SkipLeft(first, skip) + TakeLeft(first, skip, take) <= |w|
    ensures var skip', take' := SkipLeft(first, skip), TakeLeft(first, skip, take);
            var v := (if first == Waiting then [b] else []) + w;
            && skip + take <= |v|
            && v[..skip] + v[skip + take..] ==
               (if Marked(first, skip, f) == Waiting then [b] else []) + (w[..skip'] + w[skip' + take'..])
            && (first != f ==>
                 v[skip..skip + take] == (if Marked(first, skip, f) == f then [b] else []) + w[skip'..skip' + take'])
  {
    if first != Waiting {
      NothingInFront(w, skip, take);
    } else if skip > 0 {
      KeptFront(b, w, skip, take, [b] + w);
    } else {
      TakenFront(b, w, take, [b] + w);
    }
  }

  /** Marking moves a run of the waiting bytes over to the new fate and leaves the rest waiting. */
  lemma {:induction false} MarkMoves(fed: seq<byte>, fates: seq<Fate>, skip: nat, take: nat, f: Fate, w: seq<byte>)
    requires |fed| == |fates| && f != Waiting
    requires w == Select(fed, fates, Waiting) && skip + take <= |w|
    ensures Select(fed, Mark(fates, skip, take, f), Waiting) == w[..skip] + w[skip + take..]
  {
    if !Settled(fates, skip, take) {
      var w' := Select(fed[1..], fates[1..], Waiting);
      SelectMarked(fed, fates, skip, take, f, Waiting);
      MarkMoves(fed[1..], fates[1..], SkipLeft(fates[0], skip), TakeLeft(fates[0], skip, take), f, w');
      MovedRun(fed[0], fates[0], skip, take, f, w');
    }
  }

  /** A fate that nothing had before goes to exactly that run. */
  lemma {:induction false} MarkCollects(fed: seq<byte>, fates: seq<Fate>, skip: nat, take: nat, f: Fate, w: seq<byte>)
    requires |fed| == |fates| && f != Waiting && Select(fed, fates, f) == []
    requires w == Select(fed, fates, Waiting) && skip + take <= |w|
    ensures Select(fed, Mark(fates, skip, take, f), f) == w[skip..skip + take]
  {
    if !Settled(fates, skip, take) {
      var w' := Select(fed[1..], fates[1..], Waiting);
      SelectMarked(fed, fates, skip, take, f, Waiting);
      SelectMarked(fed, fates, skip, take, f, f);
      MarkCollects(fed[1..], fates[1..], SkipLeft(fates[0], skip), TakeLeft(fates[0], skip, take), f, w');
      MovedRun(fed[0], fates[0], skip, take, f, w');
    }
  }

  lemma {:induction false} Absent(fed: seq<byte>, fates: seq<Fate>, f: Fate)
    requires |fed| == |fates| && f !in fates
    ensures Select(fed, fates, f) == []
  {
    if fed != [] {
      Absent(fed[1..], fates[1..], f);
    }
  }

  lemma {:induction false} MarkIntroducesOnly(fates: seq<Fate>, skip: nat, take: nat, f: Fate)
    ensures forall g :: g in Mark(fates, skip, take, f) ==> g == f || g in fates
  {
    if !Settled(fates, skip, take) {
      MarkStep(fates, skip, take, f);
      MarkIntroducesOnly(fates[1..], SkipLeft(fates[0], skip), TakeLeft(fates[0], skip, take), f);
    }
  }

  lemma {:induction false} MarkKeepsSettled(fates: seq<Fate>, skip: nat, take: nat, f: Fate, i: nat)
    requires i < |fates| && fates[i] != Waiting
    ensures Mark(fates, skip, take, f)[i] == fates[i]
  {
    if i > 0 && !Settled(fates, skip, take) {
      MarkStep(fates, skip, take, f);
      MarkKeepsSettled(fates[1..], SkipLeft(fates[0], skip), TakeLeft(fates[0], skip, take), f, i - 1);
    }
  }

  lemma {:induction false} SelectAppend(fed: seq<byte>, fates: seq<Fate>, more: seq<byte>, f: Fate)
    requires |fed| == |fates|
    ensures Select(fed + more, fates + seq(|more|, _ => Waiting), f)
         == Select(fed, fates, f) + (if f == Waiting then more else [])
  {
    var rest := seq(|more|, _ => Waiting);
    if fed == [] {
      assert fed + more == more && fates + rest == rest;
      SelectWaiting(more, f);
    } else {
      hide Select;
      SelectAppend(fed[1..], fates[1..], more, f);
      SelectCons(fed[0], fed[1..], fates[0], fates[1..], f);
      SelectCons(fed[0], fed[1..] + more, fates[0], fates[1..] + rest, f);
      assert fed == [fed[0]] + fed[1..] && fed + more == [fed[0]] + (fed[1..] + more);
      assert fates == [fates[0]] + fates[1..] && fates + rest == [fates[0]] + (fates[1..] + rest);
    }
  }

  lemma {:induction false} SelectWaiting(more: seq<byte>, f: Fate)
    ensures Select(more, seq(|more|, _ => Waiting), f) == if f == Waiting then more else []
  {
    if more != [] {
      SelectWaiting(more[1..], f);
      assert seq(|more|, _ => Waiting)[1..] == seq(|more| - 1, _ => Waiting);
    }
  }

  /** One call on the parser. */
  datatype Op = Feed(data: seq<byte>) | NextEvent | Send(command: Command) | SendFailed | Reset

  /** Each byte fed has one fate, those still waiting are `held`, and each event carries the bytes that went to it. */
  ghost predicate Booked(fed: seq<byte>, fates: seq<Fate>, held: seq<byte>, events: seq<Event>) {
    && |fed| == |fates|
    && Select(fed, fates, Waiting) == held
    && (forall k :: 0 <= k < |events| ==> Select(fed, fates, InEvent(k)) == BytesOf(events[k]))
    && (forall f :: f in fates && f.InEvent? ==> f.k < |events|)
  }

  /** The parser together with everything it was fed, the fate of each byte and the events it emitted. */
  datatype Ledger = Ledger(m: Machine, fed: seq<byte>, fates: seq<Fate>, events: seq<Event>) {
    ghost predicate Balanced() {
      m.Valid() && Booked(fed, fates, m.Held(), events)
    }
  }

  function Apply(l: Ledger, op: Op): Ledger {
    match op
    case Feed(data) =>
      (match l.m.Fed(data)
       case None => l
       case Some(m) => Ledger(m, l.fed + data, l.fates + seq(|data|, _ => Waiting), l.events))
    case NextEvent =>
      var (e, m) := l.m.Next();
      var afterPrefix := Mark(l.fates, 0, |PrefixTaken(l.m)|, Prefix);
      Ledger(m, l.fed, Mark(afterPrefix, 0, |BytesOf(e)|, InEvent(|l.events|)), l.events + [e])
    case Send(command) =>
      (match l.m.Sent(command)
       case Raw(_, m) => l.(m := m)
       case _ => l)
    case SendFailed => l.(m := l.m.SendFailed())
    case Reset => l.(m := l.m.Reset(), fates := Mark(l.fates, |l.m.payload|, |l.m.buffer|, Dropped))
  }

  function ApplyAll(l: Ledger, ops: seq<Op>): Ledger
    decreases |ops|
  {
    if ops == [] then l else ApplyAll(Apply(l, ops[0]), ops[1..])
  }

  lemma AppendBooked(fed: seq<byte>, fates: seq<Fate>, held: seq<byte>, events: seq<Event>, data: seq<byte>)
    requires Booked(fed, fates, held, events)
    ensures Booked(fed + data, fates + seq(|data|, _ => Waiting), held + data, events)
  {
    hide Select;
    SelectAppend(fed, fates, data, Waiting);
    forall k | 0 <= k < |events|
      ensures Select(fed + data, fates + seq(|data|, _ => Waiting), InEvent(k)) == BytesOf(events[k])
    {
      SelectAppend(fed, fates, data, InEvent(k));
    }
  }

  lemma FeedBalances(l: Ledger, data: seq<byte>)
    requires l.Balanced()
    ensures Apply(l, Feed(data)).Balanced()
  {
    hide Booked;
    OthersValid(l.m, data, GetSync);
    match l.m.Fed(data) {
      case None =>
      case Some(m) =>
        AppendBooked(l.fed, l.fates, l.m.Held(), l.events, data);
        assert m.Held() == l.m.Held() + data;
    }
  }

  /** Taking the first bytes off the held ones for a fate that is still unused. */
  lemma TakeFirst(fed: seq<byte>, fates: seq<Fate>, taken: seq<byte>, rest: seq<byte>, f: Fate)
    requires |fed| == |fates| && f != Waiting
    requires Select(fed, fates, Waiting) == taken + rest
    ensures Select(fed, Mark(fates, 0, |taken|, f), Waiting) == rest
    ensures f !in fates ==> Select(fed, Mark(fates, 0, |taken|, f), f) == taken
  {
    MarkMoves(fed, fates, 0, |taken|, f, taken + rest);
    if f !in fates {
      Absent(fed, fates, f);
      MarkCollects(fed, fates, 0, |taken|, f, taken + rest);
    }
  }

  lemma DropBooked(fed: seq<byte>, fates: seq<Fate>, taken: seq<byte>, rest: seq<byte>, events: seq<Event>)
    requires Booked(fed, fates, taken + rest, events)
    ensures Booked(fed, Mark(fates, 0, |taken|, Prefix), rest, events)
  {
    hide Select, Mark;
    TakeFirst(fed, fates, taken, rest, Prefix);
    MarkIntroducesOnly(fates, 0, |taken|, Prefix);
    forall k | 0 <= k < |events|
      ensures Select(fed, Mark(fates, 0, |taken|, Prefix), InEvent(k)) == BytesOf(events[k])
    {
      MarkKeepsOthers(fed, fates, 0, |taken|, Prefix, InEvent(k));
    }
  }

  lemma EmitBooked(fed: seq<byte>, fates: seq<Fate>, taken: seq<byte>, rest: seq<byte>, events: seq<Event>, e: Event)
    requires Booked(fed, fates, taken + rest, events) && taken == BytesOf(e)
    ensures Booked(fed, Mark(fates, 0, |taken|, InEvent(|events|)), rest, events + [e])
  {
    hide Select, Mark, BytesOf;
    var f := InEvent(|events|);
    TakeFirst(fed, fates, taken, rest, f);
    MarkIntroducesOnly(fates, 0, |taken|, f);
    forall k | 0 <= k < |events| ensures Select(fed, Mark(fates, 0, |taken|, f), InEvent(k)) == BytesOf(events[k]) {
      MarkKeepsOthers(fed, fates, 0, |taken|, f, InEvent(k));
    }
  }

  lemma NextEventBalances(l: Ledger)
    requires l.Balanced()
    ensures Apply(l, NextEvent).Balanced()
  {
    hide Booked, Select, Mark;
    var (e, m) := l.m.Next();
    NextValid(l.m);
    NextConserves(l.m);
    var prefix, bytes := PrefixTaken(l.m), BytesOf(e);
    assert l.m.Held() == prefix + (bytes + m.Held());
    DropBooked(l.fed, l.fates, prefix, bytes + m.Held(), l.events);
    EmitBooked(l.fed, Mark(l.fates, 0, |prefix|, Prefix), bytes, m.Held(), l.events, e);
  }

  lemma ResetBalances(l: Ledger)
    requires l.Balanced()
    ensures Apply(l, Reset).Balanced()
  {
    var p, b := |l.m.payload|, |l.m.buffer|;
    OthersValid(l.m, [], GetSync);
    MarkMoves(l.fed, l.fates, p, b, Dropped, l.m.Held());
    MarkIntroducesOnly(l.fates, p, b, Dropped);
    assert l.m.Held()[..p] + l.m.Held()[p + b..] == l.m.payload;
    forall k | 0 <= k < |l.events|
      ensures Select(l.fed, Mark(l.fates, p, b, Dropped), InEvent(k)) == BytesOf(l.events[k])
    {
      MarkKeepsOthers(l.fed, l.fates, p, b, Dropped, InEvent(k));
    }
  }

  /** Starting to wait for a reply discards nothing: only the state `InSync` sends commands that clear the payload. */
  lemma SendBalances(l: Ledger, command: Command)
    requires l.Balanced()
    ensures Apply(l, Send(command)).Balanced()
    ensures Apply(l, Send(command)).m.Held() == l.m.Held()
  {
    OthersValid(l.m, [], command);
  }

  /** Over every sequence of calls, each fed byte has exactly one fate and each event carries exactly its own bytes. */
  lemma {:induction false} EveryByteAccountedFor(l: Ledger, ops: seq<Op>)
    requires l.Balanced()
    ensures ApplyAll(l, ops).Balanced()
    decreases |ops|
  {
    if ops != [] {
      match ops[0] {
        case Feed(data) => FeedBalances(l, data);
        case NextEvent => NextEventBalances(l);
        case Send(command) => SendBalances(l, command);
        case SendFailed => OthersValid(l.m, [], GetSync);
        case Reset => ResetBalances(l);
      }
      EveryByteAccountedFor(Apply(l, ops[0]), ops[1..]);
    }
  }

  /** Once a byte has left the parser, no later call changes what became of it; no event is ever taken back. */
  lemma FatesAreFinal(l: Ledger, op: Op, i: nat)
    requires l.Balanced() && i < |l.fed| && l.fates[i] != Waiting
    ensures l.fed <= Apply(l, op).fed && l.events <= Apply(l, op).events
    ensures Apply(l, op).fates[i] == l.fates[i]
  {
    match op {
      case NextEvent =>
        MarkKeepsSettled(l.fates, 0, |PrefixTaken(l.m)|, Prefix, i);
        var mid := Mark(l.fates, 0, |PrefixTaken(l.m)|, Prefix);
        MarkKeepsSettled(mid, 0, |BytesOf(l.m.Next().0)|, InEvent(|l.events|), i);
      case Reset => MarkKeepsSettled(l.fates, |l.m.payload|, |l.m.buffer|, Dropped, i);
      case _ =>
    }
  }

  /** In particular from a new parser, which has been fed nothing. */
  lemma EveryByteAccountedForFromFresh(ops: seq<Op>)
    ensures ApplyAll(Ledger(Fresh, [], [], []), ops).Balanced()
  {
    EveryByteAccountedFor(Ledger(Fresh, [], [], []), ops);
  }

  // ---- the end of the input ----

  /** A parser reports that the connection is closed exactly if it is and nothing is buffered, and changes nothing. */
  lemma ClosedIsReported(m: Machine)
    requires m.Valid()
    ensures m.Next().0 == ConnectionClosed <==> m.closed && m.buffer == []
    ensures m.Next().0 == ConnectionClosed ==> m.Next().1 == m
  {
    LengthReadValid(m);
    BodyReadValid(m.LengthRead());
  }

  /** As long as something is buffered, it makes no difference to the next event whether more can come. */
  lemma ClosingIsNotNoticed(m: Machine)
    requires m.Valid() && m.buffer != []
    ensures m.(closed := true).Next() == (m.(closed := false).Next().0, m.(closed := false).Next().1.(closed := true))
  {
    hide FromLe, Find, AcceptedCode;
    var open, shut := m.(closed := false), m.(closed := true);
    assert shut.LengthRead() == open.LengthRead().(closed := true);
    assert shut.LengthRead().BodyRead() == open.LengthRead().BodyRead().(closed := true);
    HuntingIgnoresClosing(open.LengthRead().BodyRead());
  }

  lemma HuntingIgnoresClosing(m: Machine)
    ensures m.(closed := true).Hunted() == (m.Hunted().0, m.Hunted().1.(closed := true))
  {
    hide Find, AcceptedCode;
  }

  /** Whether the input is closed after some calls: the last feed of no bytes and the last reset decide. */
  function ClosedAfter(closed: bool, ops: seq<Op>): bool
    decreases |ops|
  {
    if ops == [] then closed
    else if ops[|ops| - 1] == Feed([]) then true
    else ops[|ops| - 1] != Reset && ClosedAfter(closed, ops[..|ops| - 1])
  }

  lemma NoCalls(l: Ledger)
    ensures ApplyAll(l, []) == l
  {
  }

  lemma {:induction false} ApplyLast(l: Ledger, ops: seq<Op>, op: Op)
    ensures ApplyAll(l, ops + [op]) == Apply(ApplyAll(l, ops), op)
    decreases |ops|
  {
    hide Apply;
    if ops == [] {
      assert [] + [op] == [op] && [op][1..] == [];
    } else {
      assert (ops + [op])[1..] == ops[1..] + [op];
      ApplyLast(Apply(l, ops[0]), ops[1..], op);
    }
  }

  lemma AskingKeepsClosed(m: Machine)
    requires m.Valid()
    ensures m.Next().1.closed == m.closed
  {
    hide FromLe, Find, AcceptedCode;
  }

  /** What one call does to the events and to the end of the input. */
  lemma OneCall(l: Ledger, op: Op)
    requires l.Balanced()
    ensures Apply(l, op).Balanced()
    ensures Apply(l, op).events == l.events + (if op == NextEvent then [l.m.Next().0] else [])
    ensures Apply(l, op).m.closed == ClosedAfter(l.m.closed, [op])
    ensures l.m.closed && l.m.buffer == [] && op != Reset ==>
              Apply(l, op).m.buffer == [] && Apply(l, op).fed == l.fed
  {
    hide Mark, Booked;
    EveryByteAccountedFor(l, [op]);
    assert ApplyAll(l, [op]) == Apply(l, op);
    AskingKeepsClosed(l.m);
    ClosedIsReported(l.m);
    assert [op][..0] == [];
  }

  lemma {:induction false} ClosedByLast(l: Ledger, ops: seq<Op>)
    requires l.Balanced()
    ensures ApplyAll(l, ops).m.closed == ClosedAfter(l.m.closed, ops)
    decreases |ops|
  {
    hide Apply, ApplyAll;
    if ops != [] {
      var front, op := ops[..|ops| - 1], ops[|ops| - 1];
      ClosedByLast(l, front);
      EveryByteAccountedFor(l, front);
      OneCall(ApplyAll(l, front), op);
      ApplyLast(l, front, op);
      assert front + [op] == ops && [op][..0] == [];
    } else {
      NoCalls(l);
    }
  }

  /** How often the parser was asked for an event. */
  function Asked(ops: seq<Op>): nat {
    if ops == [] then 0 else (if ops[0] == NextEvent then 1 else 0) + Asked(ops[1..])
  }

  /**
   * From the moment when the input is closed and everything buffered has been consumed, every answer is that the
   * connection is closed and no more bytes are accepted, until the parser is reset.
   */
  lemma {:induction false} ClosedUntilReset(l: Ledger, ops: seq<Op>)
    requires l.Balanced() && l.m.closed && l.m.buffer == [] && Reset !in ops
    ensures var l' := ApplyAll(l, ops);
            && l'.m.closed && l'.m.buffer == [] && l'.fed == l.fed
            && l'.events == l.events + seq(Asked(ops), _ => ConnectionClosed)
    decreases |ops|
  {
    hide Apply;
    if ops != [] {
      OneCall(l, ops[0]);
      ClosedIsReported(l.m);
      ClosedUntilReset(Apply(l, ops[0]), ops[1..]);
      assert [ops[0]][..0] == [];
      assert l.events + [ConnectionClosed] + seq(Asked(ops[1..]), _ => ConnectionClosed)
          == l.events + seq(1 + Asked(ops[1..]), _ => ConnectionClosed);
      assert l.events + [] == l.events;
    } else {
      assert l.events + seq(0, _ => ConnectionClosed) == l.events;
    }
  }

  /** A reset opens the input again, and until the next feed of no bytes nothing is reported as closed. */
  lemma {:induction false} OpenAfterReset(l: Ledger, ops: seq<Op>)
    requires l.Balanced() && Feed([]) !in ops
    ensures !Apply(l, Reset).m.closed
    ensures var l' := ApplyAll(Apply(l, Reset), ops);
            && !l'.m.closed && |l.events| <= |l'.events|
            && ConnectionClosed !in l'.events[|l.events|..]
  {
    ResetBalances(l);
    StaysOpen(Apply(l, Reset), ops);
  }

  lemma {:induction false} StaysOpen(l: Ledger, ops: seq<Op>)
    requires l.Balanced() && !l.m.closed && Feed([]) !in ops
    ensures var l' := ApplyAll(l, ops);
            && !l'.m.closed && l.events <= l'.events
            && ConnectionClosed !in l'.events[|l.events|..]
    decreases |ops|
  {
    hide Apply;
    if ops != [] {
      OneCall(l, ops[0]);
      ClosedIsReported(l.m);
      assert [ops[0]][..0] == [];
      var next := Apply(l, ops[0]);
      StaysOpen(next, ops[1..]);
      var last := ApplyAll(l, ops).events;
      assert last[|l.events|..] == next.events[|l.events|..] + last[|next.events|..];
    }
  }

  // ---- synchronization ----

  /**
   * Whether commands can be sent after some calls: a reply has been reported, and since then nothing has been sent
   * successfully, and no failure to send and no reset have been announced.
   */
  ghost predicate SyncedAfter(l: Ledger, ops: seq<Op>)
    decreases |ops|
  {
    if ops == [] then l.m.state == InSync
    else
      var front, m := ops[..|ops| - 1], ApplyAll(l, ops[..|ops| - 1]).m;
      SyncedThen(m, SyncedAfter(l, front), ops[|ops| - 1])
  }

  ghost predicate SyncedThen(m: Machine, synced: bool, op: Op) {
    match op
    case Feed(_) => synced
    case NextEvent => m.Next().0.Reply? || synced
    case Send(command) => !m.Sent(command).Raw? && synced
    case SendFailed => false
    case Reset => false
  }

  lemma OneCallSynchronizes(l: Ledger, op: Op)
    requires l.Balanced()
    ensures Apply(l, op).m.state == InSync <==> SyncedThen(l.m, l.m.state == InSync, op)
  {
    hide Mark, Booked;
    AskingSynchronizes(l.m);
  }

  lemma AskingSynchronizes(m: Machine)
    requires m.Valid()
    ensures m.Next().1.state == InSync <==> m.Next().0.Reply? || m.state == InSync
  {
    hide FromLe, Find, AcceptedCode;
    LengthReadValid(m);
    BodyReadValid(m.LengthRead());
  }

  lemma {:induction false} SyncedByReplies(l: Ledger, ops: seq<Op>)
    requires l.Balanced()
    ensures ApplyAll(l, ops).m.state == InSync <==> SyncedAfter(l, ops)
    decreases |ops|
  {
    hide Apply, SyncedThen, ApplyAll;
    if ops != [] {
      var front, op := ops[..|ops| - 1], ops[|ops| - 1];
      SyncedByReplies(l, front);
      EveryByteAccountedFor(l, front);
      OneCallSynchronizes(ApplyAll(l, front), op);
      ApplyLast(l, front, op);
      assert front + [op] == ops;
    } else {
      NoCalls(l);
    }
  }

  /** After any calls on a new parser, exactly then are commands accepted; the one that synchronizes always is. */
  lemma CommandsNeedReplies(ops: seq<Op>, command: Command)
    ensures var l := Ledger(Fresh, [], [], []);
            ApplyAll(l, ops).m.Sent(command).NeedSync? <==> command.op != GET_SYNC && !SyncedAfter(l, ops)
  {
    hide SyncedAfter, ApplyAll;
    SyncedByReplies(Ledger(Fresh, [], [], []), ops);
  }
}
