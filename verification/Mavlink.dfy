/** MAVLink packets: encoding messages, and parsing a stream of bytes that may also contain anything else. */
module Mavlink {
  import Arithmetic
  import opened Bytes
  import opened Crc
  import opened X25

  const MARKER_V1: byte := 0xFE
  const MARKER_V2: byte := 0xFD
  const SIGNATURE_LENGTH := 13

  const HEARTBEAT := 0
  const PARAM_SET := 23
  const COMMAND_LONG := 76
  const COMMAND_ACK := 77

  /** The messages that the uploader exchanges. Floating-point parameters are opaque, four bytes for each. */
  datatype Message =
    | Heartbeat(kind: byte, autopilot: byte, baseMode: byte, customMode: nat, systemStatus: byte, version: byte)
    | CommandLong(targetSystem: byte, targetComponent: byte, command: nat, confirmation: byte, params: seq<byte>)
    | CommandAck(command: nat, result: byte, progress: byte, resultParam2: int,
                 targetSystem: byte, targetComponent: byte)
  {
    /** The fields fit their places in the packet; packing anything else raises an error. */
    predicate Fits() {
      match this
      case Heartbeat(_, _, _, customMode, _, _) => customMode < 0x1_0000_0000
      case CommandLong(_, _, command, _, params) => command < 0x1_0000 && |params| == 28
      case CommandAck(command, _, _, resultParam2, _, _) =>
        command < 0x1_0000 && -0x8000_0000 <= resultParam2 < 0x8000_0000
    }

    function Id(): nat {
      match this
      case Heartbeat(_, _, _, _, _, _) => HEARTBEAT
      case CommandLong(_, _, _, _, _) => COMMAND_LONG
      case CommandAck(_, _, _, _, _, _) => COMMAND_ACK
    }

    /** The fields in the order of the wire, larger types first. */
    function Payload(): (p: seq<byte>)
      requires Fits()
      ensures SizeOf(Id()) == Some(|p|)
    {
      match this
      case Heartbeat(kind, autopilot, baseMode, customMode, systemStatus, version) =>
        ToLe(customMode, 4) + [kind, autopilot, baseMode, systemStatus, version]
      case CommandLong(targetSystem, targetComponent, command, confirmation, params) =>
        params + (ToLe(command, 2) + [targetSystem, targetComponent, confirmation])
      case CommandAck(command, result, progress, resultParam2, targetSystem, targetComponent) =>
        ToLe(command, 2)
        + ([result, progress] + (ToLe(TwosComplement(resultParam2), 4) + [targetSystem, targetComponent]))
    }
  }

  function TwosComplement(n: int): nat
  {
    if n >= 0 then n else if n >= -0x1_0000_0000 then n + 0x1_0000_0000 else 0
  }

  function Signed(n: nat): int {
    if n < 0x8000_0000 then n else n - 0x1_0000_0000
  }

  /** Message types that the parser knows, with the size of their payload and their contribution to the checksum. */
  function SizeOf(id: nat): Option<nat> {
    if id == HEARTBEAT then Some(9)
    else if id == COMMAND_LONG then Some(33)
    else if id == COMMAND_ACK then Some(10)
    else if id == PARAM_SET then Some(23)
    else None
  }

  function CrcExtra(id: nat): byte {
    if id == HEARTBEAT then 50
    else if id == COMMAND_LONG then 152
    else if id == COMMAND_ACK then 143
    else if id == PARAM_SET then 168
    else 0
  }

  /** Reading the fields back. A parameter setting cannot be read back: constructing it from its fields fails. */
  function FromPayload(id: nat, p: seq<byte>): Option<Message>
    requires SizeOf(id) == Some(|p|)
  {
    if id == HEARTBEAT then Some(Heartbeat(p[4], p[5], p[6], FromLe(p[..4]), p[7], p[8]))
    else if id == COMMAND_LONG then Some(CommandLong(p[30], p[31], FromLe(p[28..30]), p[32], p[..28]))
    else if id == COMMAND_ACK then Some(CommandAck(FromLe(p[..2]), p[2], p[3], Signed(FromLe(p[4..8])), p[8], p[9]))
    else None
  }

  lemma PayloadRoundTrip(m: Message)
    requires m.Fits()
    ensures FromPayload(m.Id(), m.Payload()) == Some(m)
  {
    Capacities();
    var p := m.Payload();
    match m {
      case Heartbeat(_, _, _, customMode, _, _) =>
        FromToLe(customMode, 4);
        assert p[..4] == ToLe(customMode, 4);
      case CommandLong(_, _, command, _, params) =>
        FromToLe(command, 2);
        assert p[28..30] == ToLe(command, 2) && p[..28] == params;
      case CommandAck(command, _, _, resultParam2, _, _) =>
        FromToLe(command, 2);
        FromToLe(TwosComplement(resultParam2), 4);
        assert p[..2] == ToLe(command, 2) && p[4..8] == ToLe(TwosComplement(resultParam2), 4);
    }
  }

  /** The fields that are read from a payload are those that it is made of. */
  lemma PayloadRecovered(id: nat, p: seq<byte>)
    requires SizeOf(id) == Some(|p|) && FromPayload(id, p).Some?
    ensures var m := FromPayload(id, p).value; m.Id() == id && m.Fits() && m.Payload() == p
  {
    hide FromLe, ToLe;
    Capacities();
    if id == HEARTBEAT {
      FromLeFits(p[..4]);
      ToFromLe(p[..4]);
      assert p == p[..4] + [p[4], p[5], p[6], p[7], p[8]];
    } else if id == COMMAND_LONG {
      FromLeFits(p[28..30]);
      ToFromLe(p[28..30]);
      assert p == p[..28] + (p[28..30] + [p[30], p[31], p[32]]);
    } else {
      FromLeFits(p[..2]);
      ToFromLe(p[..2]);
      FromLeFits(p[4..8]);
      ToFromLe(p[4..8]);
      assert TwosComplement(Signed(FromLe(p[4..8]))) == FromLe(p[4..8]);
      assert p == p[..2] + ([p[2], p[3]] + (p[4..8] + [p[8], p[9]]));
    }
  }

  // ---- truncation ----

  /** Without its trailing zeros, except that the first byte always stays. */
  function Stripped(p: seq<byte>): seq<byte> {
    if |p| > 1 && p[|p| - 1] == 0 then Stripped(p[..|p| - 1]) else p
  }

  /** Extended with zeros or cut to the given size. */
  function Resized(p: seq<byte>, size: nat): (r: seq<byte>)
    ensures |r| == size
  {
    if |p| < size then p + Fill(0, size - |p|) else p[..size]
  }

  lemma {:induction false} PaddingUndoesStripping(p: seq<byte>)
    ensures |Stripped(p)| <= |p| && Resized(Stripped(p), |p|) == p
  {
    if |p| > 1 && p[|p| - 1] == 0 {
      var front := p[..|p| - 1];
      PaddingUndoesStripping(front);
      assert p == front + [0];
      assert Resized(Stripped(front), |p|) == Resized(Stripped(front), |front|) + [0];
    }
  }

  /** What is left out is exactly the zeros at the end. */
  lemma {:induction false} NothingLeftToStrip(p: seq<byte>)
    requires p != []
    ensures var r := Stripped(p);
            && r != [] && r <= p && (|r| > 1 ==> r[|r| - 1] != 0)
            && forall i :: |r| <= i < |p| ==> p[i] == 0
  {
    if |p| > 1 && p[|p| - 1] == 0 {
      NothingLeftToStrip(p[..|p| - 1]);
      assert forall i :: 0 <= i < |p| - 1 ==> p[i] == p[..|p| - 1][i];
    }
  }

  // ---- frames ----

  predicate IsMarker(b: byte) {
    b == MARKER_V1 || b == MARKER_V2
  }

  function HeaderLength(marker: byte): nat {
    if marker == MARKER_V2 then 10 else 6
  }

  /** The flags in which version 2 announces incompatible features; the lowest one announces a signature. */
  function IncompatFlags(s: seq<byte>): nat
    requires |s| >= 3
  {
    if s[0] == MARKER_V2 then s[2] as nat else 0
  }

  function SignatureLength(s: seq<byte>): nat
    requires |s| >= 3
  {
    if IncompatFlags(s) % 2 == 1 then SIGNATURE_LENGTH else 0
  }

  /** The length of the packet that starts with these bytes. */
  function FrameLength(s: seq<byte>): (n: nat)
    requires |s| >= 3
    ensures n >= 8
  {
    s[1] as nat + HeaderLength(s[0]) + 2 + SignatureLength(s)
  }

  ghost predicate IsFrame(s: seq<byte>) {
    |s| >= 3 && IsMarker(s[0]) && |s| == FrameLength(s)
  }

  /** What the parser hands out, always with the bytes it was made of. */
  datatype Packet =
    | Bad(raw: seq<byte>)
    | Unknown(raw: seq<byte>, id: nat)
    | Known(raw: seq<byte>, seqNo: byte, system: byte, component: byte, message: Message)

  function IdOf(frame: seq<byte>): nat
    requires IsFrame(frame)
  {
    if frame[0] == MARKER_V2 then FromLe(frame[7..10]) else frame[5] as nat
  }

  /** Where the payload ends and the checksum begins. */
  function PayloadEnd(frame: seq<byte>): (n: nat)
    requires IsFrame(frame)
    ensures HeaderLength(frame[0]) <= n <= |frame| - 2
  {
    |frame| - 2 - SignatureLength(frame)
  }

  /** The checksum covers everything after the marker, and a byte that stands for the layout of the message. */
  predicate ChecksumHolds(frame: seq<byte>)
    requires IsFrame(frame)
  {
    var end := PayloadEnd(frame);
    Crc16(frame[1..end] + [CrcExtra(IdOf(frame))], INITIAL) as int == FromLe(frame[end..end + 2])
  }

  function Decoded(frame: seq<byte>): (p: Packet)
    requires IsFrame(frame)
    ensures p.raw == frame
  {
    var h := HeaderLength(frame[0]);
    if IncompatFlags(frame) > 1 then Bad(frame)
    else if SizeOf(IdOf(frame)) == None then Unknown(frame, IdOf(frame))
    else if !ChecksumHolds(frame) then Bad(frame)
    else
      match FromPayload(IdOf(frame), Resized(frame[h..PayloadEnd(frame)], SizeOf(IdOf(frame)).value))
      case Some(m) =>
        var at := if h == 10 then 4 else 2;
        Known(frame, frame[at], frame[at + 1], frame[at + 2], m)
      case None => Bad(frame)
  }

  // ---- the stream ----

  /** The first packet of a stream, once it is complete; a byte that starts no packet is one by itself. */
  function First(s: seq<byte>): (p: Option<Packet>)
    ensures p.Some? ==> p.value.raw != [] && p.value.raw <= s
  {
    if s == [] then None
    else if !IsMarker(s[0]) then
      assert [s[0]] <= s;
      Some(Bad([s[0]]))
    else if |s| < 3 || |s| < FrameLength(s) then None
    else Some(Decoded(s[..FrameLength(s)]))
  }

  lemma FirstStray(s: seq<byte>)
    requires s != [] && !IsMarker(s[0])
    ensures First(s) == Some(Bad([s[0]]))
  {
  }

  lemma FirstUnfinished(s: seq<byte>)
    requires s == [] || (IsMarker(s[0]) && (|s| < 3 || |s| < FrameLength(s)))
    ensures First(s) == None
  {
  }

  lemma FirstFrame(s: seq<byte>)
    requires |s| >= 3 && IsMarker(s[0]) && |s| >= FrameLength(s)
    ensures IsFrame(s[..FrameLength(s)]) && First(s) == Some(Decoded(s[..FrameLength(s)]))
  {
  }

  /** All complete packets, and what is left to be completed. */
  function ParseAll(s: seq<byte>): (seq<Packet>, seq<byte>)
    decreases |s|
  {
    match First(s)
    case None => ([], s)
    case Some(p) =>
      var (more, rest) := ParseAll(s[|p.raw|..]);
      ([p] + more, rest)
  }

  lemma FirstExtends(s: seq<byte>, t: seq<byte>)
    requires First(s).Some?
    ensures First(s + t) == First(s)
    ensures s[|First(s).value.raw|..] + t == (s + t)[|First(s).value.raw|..]
  {
    if IsMarker(s[0]) {
      var n := FrameLength(s);
      assert FrameLength(s + t) == n;
      assert (s + t)[..n] == s[..n];
    }
  }

  /** It makes no difference whether more bytes come later: the packets come out the same. */
  lemma {:induction false} ParseAllConcat(s: seq<byte>, t: seq<byte>)
    ensures var (packets, rest) := ParseAll(s);
            var (more, last) := ParseAll(rest + t);
            ParseAll(s + t) == (packets + more, last)
    decreases |s|
  {
    if First(s).Some? {
      FirstExtends(s, t);
      var n := |First(s).value.raw|;
      ParseAllConcat(s[n..], t);
      var (packets, rest) := ParseAll(s[n..]);
      assert [First(s).value] + (packets + ParseAll(rest + t).0) == ([First(s).value] + packets) + ParseAll(rest + t).0;
    } else {
      assert [] + ParseAll(s + t).0 == ParseAll(s + t).0;
    }
  }

  function Raws(packets: seq<Packet>): seq<byte> {
    if packets == [] then [] else packets[0].raw + Raws(packets[1..])
  }

  lemma RawsJoin(p: Packet, packets: seq<Packet>, rest: seq<byte>)
    ensures Raws([p] + packets) + rest == p.raw + (Raws(packets) + rest)
  {
    assert ([p] + packets)[1..] == packets;
  }

  lemma FirstIsInFront(s: seq<byte>)
    requires First(s).Some?
    ensures s == First(s).value.raw + s[|First(s).value.raw|..]
  {
  }

  /** The packets tile the stream: no byte is lost, duplicated or reordered. */
  lemma {:induction false} PacketsTileTheStream(s: seq<byte>)
    ensures Raws(ParseAll(s).0) + ParseAll(s).1 == s
    decreases |s|
  {
    if First(s).Some? {
      var p := First(s).value;
      var rest := s[|p.raw|..];
      FirstIsInFront(s);
      PacketsTileTheStream(rest);
      RawsJoin(p, ParseAll(rest).0, ParseAll(rest).1);
    }
  }

  /** What is left could still become a packet: it starts like one, and is too short. */
  lemma {:induction false} RestIsIncomplete(s: seq<byte>)
    ensures First(ParseAll(s).1) == None
    decreases |s|
  {
    if First(s).Some? {
      RestIsIncomplete(s[|First(s).value.raw|..]);
    }
  }

  // ---- what becomes of each packet ----

  /** What the header of a packet says, read off byte by byte. */
  datatype Anatomy = Anatomy(size: nat, flags: nat, id: nat, seqNo: byte, system: byte, component: byte, start: nat)

  function AnatomyOf(f: seq<byte>): Anatomy
    requires |f| >= 8 && (f[0] == 0xFE || |f| >= 12)
  {
    if f[0] == 0xFE then Anatomy(f[1] as nat + 8, 0, f[5] as nat, f[2], f[3], f[4], 6)
    else
      var id := f[7] as nat + 0x100 * f[8] as nat + 0x1_0000 * f[9] as nat;
      Anatomy(f[1] as nat + (if f[2] % 2 == 1 then 25 else 12), f[2] as nat, id, f[4], f[5], f[6], 10)
  }

  /** The checksum is behind the payload, and covers what is between it and the marker. */
  ghost predicate Sealed(f: seq<byte>, end: nat, extra: byte) {
    && 1 <= end && end + 2 <= |f|
    && Crc16(f[1..end] + [extra], INITIAL) as int == f[end] as nat + 0x100 * f[end + 1] as nat
  }

  /** The payload, followed by zeros if it is too short for the message, and cut if it is too long. */
  ghost predicate Carries(f: seq<byte>, start: nat, length: nat, m: Message) {
    && m.Fits() && start + length <= |f|
    && forall i :: 0 <= i < |m.Payload()| ==> m.Payload()[i] == if i < length then f[start + i] else 0
  }

  /**
   * What becomes of a packet, by its bytes. Unknown types come out as such, whatever their checksum is. Bad are stray
   * bytes, packets with flags that are not understood, a wrong checksum, or a parameter setting, and nothing else.
   */
  ghost predicate Classified(p: Packet) {
    var f := p.raw;
    if |f| == 1 then p.Bad? && f[0] != 0xFE && f[0] != 0xFD
    else
      && |f| >= 8 && (f[0] == 0xFE || (f[0] == 0xFD && |f| >= 12))
      && var a := AnatomyOf(f);
      && |f| == a.size
      && (p.Unknown? <==> a.flags <= 1 && a.id != 0 && a.id != 23 && a.id != 76 && a.id != 77)
      && (p.Unknown? ==> p.id == a.id)
      && (p.Known? <==> a.flags <= 1 && (a.id == 0 || a.id == 76 || a.id == 77)
                        && Sealed(f, a.start + f[1] as nat, if a.id == 0 then 50 else if a.id == 76 then 152 else 143))
      && (p.Known? ==>
            && p.message.Id() == a.id && Carries(f, a.start, f[1] as nat, p.message)
            && p.seqNo == a.seqNo && p.system == a.system && p.component == a.component)
  }

  lemma ThreeDigits(s: seq<byte>)
    requires |s| == 3
    ensures FromLe(s) == s[0] as nat + 0x100 * s[1] as nat + 0x1_0000 * s[2] as nat
  {
    assert s[1..][1..] == [s[2]] && s[1..][0] == s[1];
    assert FromLe([s[2]]) == s[2] as nat;
  }

  lemma TwoDigits(s: seq<byte>)
    requires |s| == 2
    ensures FromLe(s) == s[0] as nat + 0x100 * s[1] as nat
  {
    assert s[1..] == [s[1]];
    assert FromLe([s[1]]) == s[1] as nat;
  }

  /** The general notions for frames, spelled out for both versions. */
  lemma FrameAnatomy(f: seq<byte>)
    requires IsFrame(f)
    ensures |f| >= 8 && (f[0] == 0xFE || (f[0] == 0xFD && |f| >= 12))
    ensures var a := AnatomyOf(f);
            && |f| == a.size && IncompatFlags(f) == a.flags && IdOf(f) == a.id && HeaderLength(f[0]) == a.start
            && PayloadEnd(f) == a.start + f[1] as nat
            && (var at := if a.start == 10 then 4 else 2;
                f[at] == a.seqNo && f[at + 1] == a.system && f[at + 2] == a.component)
  {
    hide FromLe;
    if f[0] == MARKER_V2 {
      ThreeDigits(f[7..10]);
    }
  }

  lemma ChecksumIsSealed(f: seq<byte>)
    requires IsFrame(f)
    ensures ChecksumHolds(f) <==> Sealed(f, PayloadEnd(f), CrcExtra(IdOf(f)))
  {
    hide Crc16, FromLe, CrcExtra;
    var end := PayloadEnd(f);
    TwoDigits(f[end..end + 2]);
  }

  lemma FieldsAreCarried(f: seq<byte>, start: nat, end: nat, id: nat)
    requires start <= end <= |f| && SizeOf(id).Some?
    requires FromPayload(id, Resized(f[start..end], SizeOf(id).value)).Some?
    ensures var m := FromPayload(id, Resized(f[start..end], SizeOf(id).value)).value;
            m.Id() == id && Carries(f, start, end - start, m)
  {
    hide FromPayload;
    PayloadRecovered(id, Resized(f[start..end], SizeOf(id).value));
  }

  lemma DecodedIsClassified(f: seq<byte>)
    requires IsFrame(f)
    ensures Classified(Decoded(f))
  {
    hide FromPayload, ChecksumHolds, Sealed, Carries, Resized, FrameLength, PayloadEnd, IncompatFlags, IdOf, IsFrame;
    FrameAnatomy(f);
    ChecksumIsSealed(f);
    var id, h := IdOf(f), HeaderLength(f[0]);
    if SizeOf(id).Some? {
      var p := Resized(f[h..PayloadEnd(f)], SizeOf(id).value);
      OnlySettingsFail(id, p);
      if FromPayload(id, p).Some? {
        FieldsAreCarried(f, h, PayloadEnd(f), id);
      }
    }
  }

  lemma OnlySettingsFail(id: nat, p: seq<byte>)
    requires SizeOf(id) == Some(|p|)
    ensures FromPayload(id, p) == None <==> id == PARAM_SET
  {
  }

  lemma FirstIsClassified(s: seq<byte>)
    requires First(s).Some?
    ensures Classified(First(s).value)
  {
    hide Classified, Decoded;
    if IsMarker(s[0]) {
      DecodedIsClassified(s[..FrameLength(s)]);
    } else {
      StrayIsClassified(s[0]);
    }
  }

  lemma StrayIsClassified(b: byte)
    requires !IsMarker(b)
    ensures Classified(Bad([b]))
  {
  }

  /** Each packet of any stream is what its bytes say. */
  lemma {:induction false} PacketsAreClassified(s: seq<byte>)
    ensures forall p :: p in ParseAll(s).0 ==> Classified(p)
    decreases |s|
  {
    hide First, Classified;
    if First(s).Some? {
      FirstIsClassified(s);
      PacketsAreClassified(s[|First(s).value.raw|..]);
    }
  }

  // ---- chunks ----

  /** A parser of streams: the packets that are complete, and what is left. */
  type Parser = seq<byte> -> (seq<Packet>, seq<byte>)

  /** Parsing chunk after chunk, keeping what is left for the next one. */
  function ParseChunks(parse: Parser, unread: seq<byte>, chunks: seq<seq<byte>>): (seq<Packet>, seq<byte>)
    decreases |chunks|
  {
    if chunks == [] then ([], unread)
    else
      var (packets, rest) := parse(unread + chunks[0]);
      var (more, last) := ParseChunks(parse, rest, chunks[1..]);
      (packets + more, last)
  }

  /** Later bytes do not change the packets that have come out before them. */
  ghost predicate Incremental(parse: Parser, s: seq<byte>, t: seq<byte>) {
    && parse(s + t) == (parse(s).0 + parse(parse(s).1 + t).0, parse(parse(s).1 + t).1)
    && parse(parse(s).1) == ([], parse(s).1)
  }

  lemma {:induction false} IncrementalChunks(parse: Parser, unread: seq<byte>, chunks: seq<seq<byte>>)
    requires forall s, t :: Incremental(parse, s, t)
    requires parse(unread) == ([], unread)
    ensures ParseChunks(parse, unread, chunks) == parse(unread + Flatten(chunks))
    decreases |chunks|
  {
    if chunks == [] {
      assert unread + [] == unread;
    } else {
      var now, later := unread + chunks[0], Flatten(chunks[1..]);
      assert Incremental(parse, now, later);
      IncrementalChunks(parse, parse(now).1, chunks[1..]);
      assert unread + (chunks[0] + later) == now + later;
    }
  }

  lemma ParseAllIsIncremental(s: seq<byte>, t: seq<byte>)
    ensures Incremental(ParseAll, s, t)
  {
    ParseAllConcat(s, t);
    RestIsIncomplete(s);
  }

  /** How the stream is cut into chunks does not matter. */
  lemma ChunkingDoesNotMatter(unread: seq<byte>, chunks: seq<seq<byte>>)
    requires First(unread) == None
    ensures ParseChunks(ParseAll, unread, chunks) == ParseAll(unread + Flatten(chunks))
  {
    forall s, t ensures Incremental(ParseAll, s, t) {
      ParseAllIsIncremental(s, t);
    }
    IncrementalChunks(ParseAll, unread, chunks);
  }

  // ---- encoding ----

  function Header(v1: bool, length: byte, seqNo: byte, system: byte, component: byte, id: nat): (h: seq<byte>)
    requires id < 0x100
    ensures |h| == if v1 then 6 else 10
  {
    if v1 then [MARKER_V1, length, seqNo, system, component, id as byte]
    else [MARKER_V2, length, 0, 0, seqNo, system, component] + ToLe(id, 3)
  }

  /** The checksum that belongs to a packet. */
  function Checksum(body: seq<byte>, extra: byte): (c: seq<byte>)
    requires body != []
    ensures |c| == 2
  {
    ToLe(Crc16(body[1..] + [extra], INITIAL) as int, 2)
  }

  function Shortened(m: Message, v1: bool): (p: seq<byte>)
    requires m.Fits()
    ensures |p| <= 33 && Resized(p, SizeOf(m.Id()).value) == m.Payload()
  {
    PaddingUndoesStripping(m.Payload());
    assert m.Payload()[..|m.Payload()|] == m.Payload();
    if v1 then m.Payload() else Stripped(m.Payload())
  }

  /** The packet of a message; version 2 leaves out trailing zeros. */
  function Framed(m: Message, v1: bool, seqNo: byte, system: byte, component: byte): seq<byte>
    requires m.Fits()
  {
    var payload := Shortened(m, v1);
    var body := Header(v1, |payload| as byte, seqNo, system, component, m.Id()) + payload;
    body + Checksum(body, CrcExtra(m.Id()))
  }

  lemma HeaderReads(v1: bool, length: byte, seqNo: byte, system: byte, component: byte, id: nat, rest: seq<byte>)
    requires id < 0x100 && |rest| == length as nat + 2
    ensures var f := Header(v1, length, seqNo, system, component, id) + rest;
            var h := HeaderLength(f[0]);
            && IsFrame(f) && IncompatFlags(f) == 0 && IdOf(f) == id && PayloadEnd(f) == h + length as nat
            && h == (if v1 then 6 else 10) && f[h..] == rest && SignatureLength(f) == 0
            && (var at := if h == 10 then 4 else 2; f[at] == seqNo && f[at + 1] == system && f[at + 2] == component)
  {
    var f := Header(v1, length, seqNo, system, component, id) + rest;
    if !v1 {
      Capacities();
      assert Capacity(3) == 0x100 * Capacity(2);
      FromToLe(id, 3);
      assert f[7..10] == ToLe(id, 3);
    }
  }

  lemma NarrowChecksum(crc: bv32)
    requires crc < 0x1_0000
    ensures FromLe(ToLe(crc as int, 2)) == crc as int
  {
    Capacities();
    FromToLe(crc as int, 2);
  }

  lemma SealHolds(body: seq<byte>, f: seq<byte>)
    requires body != [] && IsFrame(f) && PayloadEnd(f) == |body| && f == body + Checksum(body, CrcExtra(IdOf(f)))
    ensures ChecksumHolds(f)
  {
    var data := body[1..] + [CrcExtra(IdOf(f))];
    Crc16IsNarrow(data, INITIAL);
    NarrowChecksum(Crc16(data, INITIAL));
    assert f[1..|body|] == body[1..];
    assert f[|body|..|body| + 2] == ToLe(Crc16(data, INITIAL) as int, 2);
  }

  lemma FramedParts(m: Message, v1: bool, seqNo: byte, system: byte, component: byte) returns (checksum: seq<byte>)
    requires m.Fits()
    ensures var payload := Shortened(m, v1);
            var header := Header(v1, |payload| as byte, seqNo, system, component, m.Id());
            && |checksum| == 2 && Framed(m, v1, seqNo, system, component) == header + (payload + checksum)
            && Framed(m, v1, seqNo, system, component) ==
               header + payload + Checksum(header + payload, CrcExtra(m.Id()))
  {
    hide Checksum, Header, Shortened;
    var payload := Shortened(m, v1);
    var header := Header(v1, |payload| as byte, seqNo, system, component, m.Id());
    checksum := Checksum(header + payload, CrcExtra(m.Id()));
    assert header + payload + checksum == header + (payload + checksum);
  }

  /** Decoding a packet gives back the message with its sequence number and its source. */
  lemma FramedDecodes(m: Message, v1: bool, seqNo: byte, system: byte, component: byte)
    requires m.Fits()
    ensures var f := Framed(m, v1, seqNo, system, component);
            IsFrame(f) && Decoded(f) == Known(f, seqNo, system, component, m)
  {
    hide Framed, Checksum, Shortened, Header, ChecksumHolds, Resized, FromPayload, CrcExtra;
    var f, payload := Framed(m, v1, seqNo, system, component), Shortened(m, v1);
    var checksum := FramedParts(m, v1, seqNo, system, component);
    HeaderReads(v1, |payload| as byte, seqNo, system, component, m.Id(), payload + checksum);
    SealHolds(Header(v1, |payload| as byte, seqNo, system, component, m.Id()) + payload, f);
    assert f[HeaderLength(f[0])..PayloadEnd(f)] == payload;
    PayloadRoundTrip(m);
  }

  /** Version 1 carries the whole payload; version 2 leaves out the zeros at its end, except for a first byte. */
  lemma OnlyZerosAreLeftOut(m: Message, v1: bool, seqNo: byte, system: byte, component: byte)
    requires m.Fits()
    ensures var f := Framed(m, v1, seqNo, system, component);
            && |f| >= 12 - (if v1 then 4 else 0) && f[0] == (if v1 then 0xFE else 0xFD)
            && var (start, n) := (if v1 then 6 else 10, f[1] as nat);
            && |f| == start + n + 2 && f[start..start + n] <= m.Payload()
            && f[..start] == (if v1 then [0xFE, n as byte, seqNo, system, component, m.Id() as byte]
                              else [0xFD, n as byte, 0, 0, seqNo, system, component, m.Id() as byte, 0, 0])
            && (if v1 then n == |m.Payload()| else n >= 1 && (n > 1 ==> f[start + n - 1] != 0))
            && forall i :: n <= i < |m.Payload()| ==> m.Payload()[i] == 0
  {
    hide Checksum, Stripped, Framed, Header;
    var payload := Shortened(m, v1);
    NothingLeftToStrip(m.Payload());
    var checksum := FramedParts(m, v1, seqNo, system, component);
    HeaderReads(v1, |payload| as byte, seqNo, system, component, m.Id(), payload + checksum);
    var f := Framed(m, v1, seqNo, system, component);
    assert f[if v1 then 6 else 10..|f| - 2] == payload;
    var header := Header(v1, |payload| as byte, seqNo, system, component, m.Id());
    HeaderBytes(v1, |payload| as byte, seqNo, system, component, m.Id());
    assert f[..if v1 then 6 else 10] == header && header[0] == f[0] && header[1] == f[1];
  }

  lemma HeaderBytes(v1: bool, length: byte, seqNo: byte, system: byte, component: byte, id: nat)
    requires id < 0x100
    ensures Header(v1, length, seqNo, system, component, id) ==
            if v1 then [0xFE, length, seqNo, system, component, id as byte]
            else [0xFD, length, 0, 0, seqNo, system, component, id as byte, 0, 0]
  {
    assert ToLe(id, 3)[1..] == ToLe(0, 2) && ToLe(0, 2)[1..] == ToLe(0, 1);
    assert ToLe(id, 3) == [id as byte, 0, 0];
  }

  /** The bytes of a number in two and in four bytes. */
  function Number2(s: seq<byte>, at: nat): nat
    requires at + 2 <= |s|
  {
    s[at] as nat + 0x100 * s[at + 1] as nat
  }

  function Number4(s: seq<byte>, at: nat): nat
    requires at + 4 <= |s|
  {
    Number2(s, at) + 0x1_0000 * Number2(s, at + 2)
  }

  lemma NumbersRead(n: nat)
    ensures n < 0x1_0000 ==> Number2(ToLe(n, 2), 0) == n
    ensures n < 0x1_0000_0000 ==> Number4(ToLe(n, 4), 0) == n
  {
    var s := ToLe(n, 4);
    assert s[1..] == ToLe(n / 0x100, 3) && s[1..][1..] == ToLe(n / 0x100 / 0x100, 2);
    assert s[1..][1..][1..] == ToLe(n / 0x100 / 0x100 / 0x100, 1);
  }

  /** Where each field is in the payload: numbers first, the wider the earlier, and then the single bytes. */
  lemma PayloadLayout(m: Message)
    requires m.Fits()
    ensures var p := m.Payload();
            match m
            case Heartbeat(kind, autopilot, baseMode, customMode, systemStatus, version) =>
              Number4(p, 0) == customMode && p[4..] == [kind, autopilot, baseMode, systemStatus, version]
            case CommandLong(targetSystem, targetComponent, command, confirmation, params) =>
              && p[..28] == params && Number2(p, 28) == command
              && p[30..] == [targetSystem, targetComponent, confirmation]
            case CommandAck(command, result, progress, resultParam2, targetSystem, targetComponent) =>
              && Number2(p, 0) == command && p[2..4] == [result, progress]
              && Number4(p, 4) == resultParam2 % 0x1_0000_0000 && p[8..] == [targetSystem, targetComponent]
  {
    hide ToLe;
    match m {
      case Heartbeat(_, _, _, customMode, _, _) => NumbersRead(customMode);
      case CommandLong(_, _, command, _, _) => NumbersRead(command);
      case CommandAck(command, _, _, resultParam2, _, _) =>
        NumbersRead(command);
        NumbersRead(TwosComplement(resultParam2));
        assert resultParam2 % 0x1_0000_0000 == TwosComplement(resultParam2);
    }
  }

  // ---- whole conversations ----

  /** What a stream is made of: bytes that start no packet, packets of types that are not known, and messages. */
  datatype Item =
    | Stray(b: byte)
    | Foreign(frame: seq<byte>)
    | Sent(message: Message, v1: bool)
  {
    /** A packet of an unknown type is complete and has no flags that are not understood; its checksum is arbitrary. */
    ghost predicate Possible() {
      match this
      case Stray(b) => b != 0xFE && b != 0xFD
      case Foreign(f) =>
        && |f| >= 8 && (f[0] == 0xFE || (f[0] == 0xFD && |f| >= 12))
        && var a := AnatomyOf(f);
        && |f| == a.size && a.flags <= 1 && a.id != 0 && a.id != 23 && a.id != 76 && a.id != 77
      case Sent(message, _) => message.Fits()
    }
  }

  ghost predicate Sendable(items: seq<Item>) {
    forall i :: 0 <= i < |items| ==> items[i].Possible()
  }

  /** The bytes of an item, and the sequence number of the next message. */
  function Spelled(item: Item, seqNo: byte, system: byte, component: byte): (seq<byte>, byte)
    requires item.Sent? ==> item.message.Fits()
  {
    match item
    case Stray(b) => ([b], seqNo)
    case Foreign(frame) => (frame, seqNo)
    case Sent(message, v1) => (Framed(message, v1, seqNo, system, component), ((seqNo as int + 1) % 256) as byte)
  }

  function Wire(items: seq<Item>, seqNo: byte, system: byte, component: byte): seq<byte>
    requires Sendable(items)
  {
    if items == [] then []
    else
      var (bytes, next) := Spelled(items[0], seqNo, system, component);
      bytes + Wire(items[1..], next, system, component)
  }

  /** How many of the items are messages. */
  function MessagesIn(items: seq<Item>): nat {
    if items == [] then 0 else (if items[0].Sent? then 1 else 0) + MessagesIn(items[1..])
  }

  /** What an item is heard as when this many messages have been sent before it. */
  ghost predicate HeardAs(item: Item, p: Packet, first: byte, before: nat, system: byte, component: byte) {
    match item
    case Stray(b) => p.Bad? && p.raw == [b]
    case Foreign(f) => p.Unknown? && p.raw == f && |f| >= 8 && (f[0] == 0xFE || |f| >= 12) && p.id == AnatomyOf(f).id
    case Sent(message, _) =>
      && p.Known? && p.message == message && p.system == system && p.component == component
      && p.seqNo as int == (first as int + before) % 256
  }

  /** Bytes that start no packet. */
  function Strays(noise: seq<byte>): seq<Packet> {
    seq(|noise|, i requires 0 <= i < |noise| => Bad([noise[i]]))
  }

  /** They cost one piece of bad data each, and nothing of what follows them. */
  lemma {:induction false} NoiseIsSkipped(noise: seq<byte>, s: seq<byte>)
    requires forall i :: 0 <= i < |noise| ==> !IsMarker(noise[i])
    ensures ParseAll(noise + s) == (Strays(noise) + ParseAll(s).0, ParseAll(s).1)
    decreases |noise|
  {
    if noise == [] {
      assert noise + s == s && Strays(noise) + ParseAll(s).0 == ParseAll(s).0;
    } else {
      var all := noise + s;
      assert First(all) == Some(Bad([noise[0]]));
      assert all[1..] == noise[1..] + s;
      NoiseIsSkipped(noise[1..], s);
      assert Strays(noise) + ParseAll(s).0 == [Bad([noise[0]])] + (Strays(noise[1..]) + ParseAll(s).0);
    }
  }

  lemma CompleteFrame(f: seq<byte>, s: seq<byte>)
    requires IsFrame(f)
    ensures ParseAll(f + s) == ([Decoded(f)] + ParseAll(s).0, ParseAll(s).1)
  {
    assert FrameLength(f + s) == |f|;
    assert (f + s)[..|f|] == f && (f + s)[|f|..] == s;
  }

  /** A complete packet of an unknown type is handed out as it is. */
  lemma ForeignIsUnknown(f: seq<byte>)
    requires Foreign(f).Possible()
    ensures IsFrame(f) && Decoded(f) == Unknown(f, AnatomyOf(f).id)
  {
    FrameAnatomy(f);
  }

  /** What an item is parsed to. */
  function ParsedItem(item: Item, seqNo: byte, system: byte, component: byte): Packet
    requires item.Sent? ==> item.message.Fits()
    requires item.Foreign? ==> IsFrame(item.frame)
  {
    match item
    case Stray(b) => Bad([b])
    case Foreign(f) => Decoded(f)
    case Sent(m, v1) => Known(Framed(m, v1, seqNo, system, component), seqNo, system, component, m)
  }

  lemma ItemIsHeard(item: Item, seqNo: byte, system: byte, component: byte)
    requires item.Possible()
    ensures item.Foreign? ==> IsFrame(item.frame)
    ensures HeardAs(item, ParsedItem(item, seqNo, system, component), seqNo, 0, system, component)
  {
    hide Framed, Decoded;
    if item.Foreign? {
      ForeignIsUnknown(item.frame);
    }
  }

  /** An item comes out whole, whatever follows it. */
  lemma ItemComesOut(item: Item, seqNo: byte, system: byte, component: byte, s: seq<byte>)
    requires item.Possible() && (item.Foreign? ==> IsFrame(item.frame))
    ensures ParseAll(Spelled(item, seqNo, system, component).0 + s) ==
            ([ParsedItem(item, seqNo, system, component)] + ParseAll(s).0, ParseAll(s).1)
  {
    hide Framed, Decoded, ParseAll;
    match item {
      case Stray(b) =>
        NoiseIsSkipped([b], s);
        assert Strays([b]) == [Bad([b])];
      case Foreign(f) => CompleteFrame(f, s);
      case Sent(m, v1) =>
        FramedDecodes(m, v1, seqNo, system, component);
        CompleteFrame(Framed(m, v1, seqNo, system, component), s);
    }
  }

  /** All items are heard, in order. */
  ghost predicate AllHeard(items: seq<Item>, packets: seq<Packet>, first: byte, system: byte, component: byte) {
    && |packets| == |items|
    && forall i :: 0 <= i < |items| ==>
         HeardAs(items[i], packets[i], first, MessagesIn(items[..i]), system, component)
  }

  lemma OneMoreBefore(item: Item, p: Packet, first: byte, next: byte, sent: nat, before: nat, system: byte,
                      component: byte)
    requires next as int == (first as int + sent) % 256 && HeardAs(item, p, next, before, system, component)
    ensures HeardAs(item, p, first, sent + before, system, component)
  {
    Arithmetic.CountedOn(first as nat, sent, before, 256);
  }

  lemma HeardOneByOne(items: seq<Item>, packets: seq<Packet>, first: byte, next: byte, system: byte, component: byte)
    requires items != [] && packets != [] && HeardAs(items[0], packets[0], first, 0, system, component)
    requires AllHeard(items[1..], packets[1..], next, system, component)
    requires next as int == (first as int + if items[0].Sent? then 1 else 0) % 256
    ensures AllHeard(items, packets, first, system, component)
  {
    hide HeardAs;
    forall i | 0 < i < |items|
      ensures HeardAs(items[i], packets[i], first, MessagesIn(items[..i]), system, component)
    {
      var before := items[1..][..i - 1];
      assert items[..i][1..] == before && items[..i][0] == items[0];
      assert items[1..][i - 1] == items[i] && packets[1..][i - 1] == packets[i];
      OneMoreBefore(items[i], packets[i], first, next, if items[0].Sent? then 1 else 0, MessagesIn(before), system,
                    component);
    }
  }

  lemma {:induction false} WireIsHeard(items: seq<Item>, seqNo: byte, system: byte, component: byte)
    requires Sendable(items)
    ensures var (packets, rest) := ParseAll(Wire(items, seqNo, system, component));
            AllHeard(items, packets, seqNo, system, component) && rest == []
    decreases |items|
  {
    hide HeardAs, First, Framed, AllHeard, ParsedItem;
    if items != [] {
      var (bytes, next) := Spelled(items[0], seqNo, system, component);
      var later := Wire(items[1..], next, system, component);
      WireIsHeard(items[1..], next, system, component);
      ItemIsHeard(items[0], seqNo, system, component);
      ItemComesOut(items[0], seqNo, system, component, later);
      HeardOneByOne(items, ParseAll(bytes + later).0, seqNo, next, system, component);
    } else {
      NothingHeard(seqNo, system, component);
    }
  }

  lemma NothingHeard(seqNo: byte, system: byte, component: byte)
    ensures AllHeard([], [], seqNo, system, component)
  {
  }

  /**
   * The round trip: messages sent one after the other come out in order with equal fields, consecutive sequence
   * numbers and their source, for both protocol versions, any stray bytes and packets of unknown types between them,
   * and any chunking.
   */
  lemma ConversationIsHeard(items: seq<Item>, seqNo: byte, system: byte, component: byte, chunks: seq<seq<byte>>)
    requires Sendable(items) && Flatten(chunks) == Wire(items, seqNo, system, component)
    ensures var (packets, rest) := ParseChunks(ParseAll, [], chunks);
            AllHeard(items, packets, seqNo, system, component) && rest == []
  {
    hide AllHeard;
    ChunkingDoesNotMatter([], chunks);
    assert [] + Flatten(chunks) == Flatten(chunks);
    WireIsHeard(items, seqNo, system, component);
  }

  // ---- recognizing autopilots ----

  /** The test that a scanner applies to each datagram. */
  predicate LooksLikeHeartbeat(data: seq<byte>) {
    if data == [] then false
    else if data[0] == MARKER_V1 && |data| >= 8 then data[4] == 1 && data[5] == 0
    else if data[0] == MARKER_V2 && |data| >= 12 then data[6] == 1 && data[7..10] == [0, 0, 0]
    else false
  }

  /** For any datagram that begins with a complete packet the test is exact, too, by the packet's own header. */
  lemma HeadersAreRecognized(f: seq<byte>, more: seq<byte>)
    requires IsFrame(f)
    ensures |f| >= 8 && (f[0] == 0xFE || |f| >= 12)
    ensures LooksLikeHeartbeat(f + more) <==> AnatomyOf(f).id == 0 && AnatomyOf(f).component == 1
  {
    FrameAnatomy(f);
    if f[0] == MARKER_V2 {
      assert (f + more)[7..10] == [f[7], f[8], f[9]];
    }
  }

  lemma HeaderOfAutopilot(v1: bool, length: byte, seqNo: byte, system: byte, component: byte, id: nat, rest: seq<byte>)
    requires id < 0x100 && |rest| >= 2
    ensures LooksLikeHeartbeat(Header(v1, length, seqNo, system, component, id) + rest) <==> id == 0 && component == 1
  {
    var f := Header(v1, length, seqNo, system, component, id) + rest;
    if !v1 {
      assert f[7..10] == ToLe(id, 3);
      assert ToLe(id, 3)[0] as nat == id;
      assert ToLe(0, 3) == [0, 0, 0];
    }
  }

  /** Among well-formed packets exactly the heartbeats of a component number 1 pass, in whatever system it is. */
  lemma HeartbeatsAreRecognized(m: Message, v1: bool, seqNo: byte, system: byte, component: byte)
    requires m.Fits()
    ensures LooksLikeHeartbeat(Framed(m, v1, seqNo, system, component)) <==> m.Heartbeat? && component == 1
  {
    hide Header, Framed, Checksum, Shortened, LooksLikeHeartbeat;
    var payload := Shortened(m, v1);
    var checksum := FramedParts(m, v1, seqNo, system, component);
    HeaderOfAutopilot(v1, |payload| as byte, seqNo, system, component, m.Id(), payload + checksum);
  }
}
