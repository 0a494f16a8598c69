/**
 * What one late acknowledgment can do to an upload: the write loop believes that it is at its end, and the device is
 * rebooted with an incomplete image. Everything that follows is answered by what is still pending.
 */
module LateAck {
  import opened Bytes
  import opened Messages
  import opened Protocol
  import opened Conservation
  import opened Segmentation
  import opened Connection
  import opened Rpc
  import opened Resync
  import opened Procedure
  import Crc
  import Device

  /** What has been pending before answers the command, and nothing behind it is received. */
  lemma StaleAnswers(command: Command, call: Call, link: Link, s: seq<byte>, due: nat, v: seq<byte>, more: seq<nat>)
    returns (last: Call, link': Link)
    requires Device.WellFormed(command) && call.Valid() && Rested(call.m) && call.m.state == InSync && Serving(link)
    requires s == link.pending + Answered(link, command) && Due(Start(command.op), s, due)
    requires Output(Start(command.op), s[..due]) == [Answer(Response(Success, v))] && link.cuts == [due] + more
    ensures EndsWith(command, call, link, Returned(v), last, link')
    ensures last.m == Ready && link'.pending == s[due..] && link'.cuts == more
    ensures link'.device == Reached(link, command) && Lost(link'.fates) == 0
  {
    hide Output, End, Run, Answered, Reached;
    var a := Start(command.op);
    var awaiting, sent := SendTurn(command, call, link);
    assert s[..0] == [] && s[0..] == s && ([due] + more)[1..] == more;
    NoStep(a);
    var j, call';
    j, call', link' := Arrives(command, awaiting, sent, a, s, 0, due);
    last := Concludes(command, call', link', Response(Success, v));
  }

  /** The first six bytes are four of an answer, and an acknowledgment. */
  lemma SixBytes(s: seq<byte>)
    requires |s| >= 6 && s[4..6] == StaleAck
    ensures Due(Body(4, []), s, 6) && Output(Body(4, []), s[..6]) == [Answer(Response(Success, s[..4]))]
  {
    hide Output, End;
    assert s[4..6][0] == s[4] && s[4..6][1] == s[5];
    WordIsDue(s);
  }

  lemma TwoBytes(s: seq<byte>)
    requires |s| >= 2 && s[..2] == StaleAck
    ensures Due(Marker([]), s, 2) && Output(Marker([]), s[..2]) == [Answer(Response(Success, []))]
  {
    hide Output, End;
    assert s[..2][0] == s[0] && s[..2][1] == s[1];
    MarkerIsDue([], s);
  }

  // ---- what the device adds to what is pending ----

  const Program := Command(PROG_MULTI, [])
  const GetCrc := Command(GET_CRC, [])
  const Reboot := Command(REBOOT, [])

  lemma ProgramAdds(link: Link)
    requires Serving(link)
    ensures Device.WellFormed(Program) && Start(PROG_MULTI) == Marker([])
    ensures Reached(link, Program) == link.device && Answered(link, Program) == StaleAck
  {
    assert [] + StaleAck == StaleAck;
  }

  lemma CrcAdds(link: Link) returns (crc: seq<byte>)
    requires Serving(link)
    ensures Device.WellFormed(GetCrc) && Start(GET_CRC) == Body(4, [])
    ensures Reached(link, GetCrc) == link.device && Answered(link, GetCrc) == crc + StaleAck
  {
    hide Crc.Crc32, ToLe;
    crc := ToLe(Crc.Crc32(link.device.flash, 0) as int, 4);
  }

  lemma RebootAdds(link: Link)
    requires Serving(link)
    ensures Device.WellFormed(Reboot) && Start(REBOOT) == Marker([])
    ensures Reached(link, Reboot) == link.device.(exiting := true) && Answered(link, Reboot) == StaleAck
  {
    assert [] + StaleAck == StaleAck;
  }

  // ---- GET_WRITE_PTR, with one acknowledgment more than it takes ----

  /** Two acknowledgments become four. */
  lemma FourPile(origin: Call, start: Link, call: Call, link: Link, retries: int, p: seq<byte>, more: seq<nat>)
    returns (call': Call, link': Link)
    requires Serving(start) && p == PointerBytesOf(start) && SYNC_BYTE !in p && retries >= 4 && origin.Valid()
    requires Passes(origin, start, call, link, true, retries, StaleAck + StaleAck, [5] + ([1] + ([1] + ([1] + more))))
    ensures Passes(origin, start, call', link', false, retries - 4,
                   StaleAck + (StaleAck + StaleAck + StaleAck), more)
  {
    hide Run, Lost, ToLe, Passes, PointerBytesOf;
    var g := StaleAck;
    var s := g + g + (p + g);
    assert s[4] == p[0] && s[5..] == [p[1]] + ([p[2], p[3]] + g);
    call', link' := PassExcess(origin, start, call, link, retries, g + g, s, 5, [1] + ([1] + ([1] + more)));
    call', link' := PassJunk(origin, start, call', link', retries - 1, [p[1]], [p[2], p[3]] + g, [1] + ([1] + more));
    assert [p[2], p[3]] + g + g == [p[2]] + ([p[3]] + g + g);
    call', link' := PassJunk(origin, start, call', link', retries - 2, [p[2]], [p[3]] + g + g, [1] + more);
    assert [p[3]] + g + g + g == [p[3]] + (g + g + g);
    call', link' := PassJunk(origin, start, call', link', retries - 3, [p[3]], g + g + g, more);
    assert g + g + g + g == g + (g + g + g);
  }

  /** The pieces of what arrives during GET_WRITE_PTR, before its answer. */
  const PILE_CUTS: seq<nat> := [2, 5, 1, 2, 5, 1, 1, 1, 2]

  lemma PileCuts(more: seq<nat>)
    ensures PILE_CUTS + more == [2] + (([5] + [1]) + ([2] + ([5] + ([1] + ([1] + ([1] + ([2] + more)))))))
  {
  }

  lemma PointerMisread(line: Line, p: seq<byte>, more: seq<nat>) returns (link': Link)
    requires Rested(line.m) && line.m.state != InSync && Serving(line.link) && line.link.pending == StaleAck
    requires p == PointerBytesOf(line.link) && SYNC_BYTE !in p && line.link.cuts == PILE_CUTS + ([6] + more)
    ensures Called(line, GetWritePointer, 10) == (Returned(StaleAck + StaleAck), Line(Ready, link'))
    ensures Serving(link') && link'.device == line.link.device && link'.cuts == more
    ensures link'.pending == StaleAck + (p + StaleAck)
  {
    hide Run, Lost, ToLe, Passes, PointerBytesOf, Answered, Reached, Serving;
    var g, origin, rest := StaleAck, Call(line.m, false, 10, []), [6] + more;
    PileCuts(rest);
    StartsThere(line.m, 10, line.link);
    assert g + [] == g && [] + g == g;
    var tail := [5] + ([1] + ([1] + ([1] + ([2] + rest))));
    var call, link := PassAck(origin, line.link, origin, line.link, 10, [], TwoCuts(p) + ([2] + tail));
    call, link := FirstRound(origin, line.link, call, link, 10, p, [2] + tail);
    call, link := PassAck(origin, line.link, call, link, 8, g, tail);
    call, link := FourPile(origin, line.link, call, link, 8, p, [2] + rest);
    call, link := PassAck(origin, line.link, call, link, 4, g + g + g, rest);
    link' := LastAnswer(origin, line.link, call, link, p, more);
  }

  lemma LastAnswer(origin: Call, start: Link, call: Call, link: Link, p: seq<byte>, more: seq<nat>)
    returns (link': Link)
    requires Serving(start) && p == PointerBytesOf(start) && origin.Valid()
    requires Passes(origin, start, call, link, true, 4, StaleAck + StaleAck + StaleAck + StaleAck, [6] + more)
    ensures var (outcome, last, link'') := Run(GetWritePointer, Channel, origin, start);
            outcome == Returned(StaleAck + StaleAck) && last.m == Ready && link'' == link'
    ensures Serving(link') && link'.device == start.device && link'.cuts == more
    ensures link'.pending == StaleAck + (p + StaleAck)
  {
    hide Run, Lost, ToLe, Answered, Reached;
    var g := StaleAck;
    var s := g + g + g + g + (p + g);
    Answers(link);
    assert s[4..6] == g && s[..4] == g + g && s[6..] == g + (p + g);
    SixBytes(s);
    var last;
    last, link' := StaleAnswers(GetWritePointer, call, link, s, 6, g + g, more);
  }

  // ---- the rest of the upload ----

  /** A call that is answered by what is pending leaves the connection ready for the next one. */
  lemma StaleCall(command: Command, retries: nat, line: Line, s: seq<byte>, due: nat, v: seq<byte>, more: seq<nat>)
    returns (link': Link)
    requires Device.WellFormed(command) && line.m == Ready && Serving(line.link)
    requires s == line.link.pending + Answered(line.link, command) && Due(Start(command.op), s, due)
    requires Output(Start(command.op), s[..due]) == [Answer(Response(Success, v))] && line.link.cuts == [due] + more
    ensures Called(line, command, retries) == (Returned(v), Line(Ready, link'))
    ensures link'.pending == s[due..] && link'.cuts == more && Lost(link'.fates) == 0
    ensures link'.device == Reached(line.link, command)
  {
    hide Run, Output, Answered, Reached;
    var last;
    last, link' := StaleAnswers(command, Call(line.m, false, retries, []), line.link, s, due, v, more);
  }

  /** The empty chunk behind the end of the image is taken for programmed. */
  lemma NothingProgrammed(line: Line, p: seq<byte>, more: seq<nat>) returns (link': Link)
    requires line.m == Ready && Serving(line.link) && line.link.cuts == [2] + more && |p| == 4
    requires line.link.pending == StaleAck + (p + StaleAck)
    ensures Called(line, Program, 0) == (Returned([]), Line(Ready, link'))
    ensures Serving(link') && link'.device == line.link.device && link'.cuts == more
    ensures link'.pending == p + StaleAck + StaleAck
  {
    hide Run, Output, Answered, Reached, Called;
    var s := StaleAck + (p + StaleAck) + StaleAck;
    ProgramAdds(line.link);
    assert s[..2] == StaleAck && s[2..] == p + StaleAck + StaleAck;
    TwoBytes(s);
    link' := StaleCall(Program, 0, line, s, 2, [], more);
  }

  /** The pointer, which was asked for before, is taken for the checksum. */
  lemma PointerForChecksum(line: Line, p: seq<byte>, more: seq<nat>) returns (link': Link, crc: seq<byte>)
    requires line.m == Ready && Serving(line.link) && line.link.cuts == [6] + more && |p| == 4
    requires line.link.pending == p + StaleAck + StaleAck
    ensures Called(line, GetCrc, 10) == (Returned(p), Line(Ready, link'))
    ensures Serving(link') && link'.device == line.link.device && link'.cuts == more
    ensures link'.pending == StaleAck + (crc + StaleAck)
  {
    hide Run, Output, Answered, Reached, Called;
    crc := CrcAdds(line.link);
    var s := p + StaleAck + StaleAck + (crc + StaleAck);
    assert s[..4] == p && s[4..6] == StaleAck && s[6..] == StaleAck + (crc + StaleAck);
    SixBytes(s);
    link' := StaleCall(GetCrc, 10, line, s, 6, p, more);
  }

  lemma RebootConfirmed(line: Line, crc: seq<byte>, more: seq<nat>) returns (link': Link)
    requires line.m == Ready && Serving(line.link) && line.link.cuts == [2] + more
    requires line.link.pending == StaleAck + (crc + StaleAck)
    ensures Called(line, Reboot, 10) == (Returned([]), Line(Ready, link'))
    ensures link'.device == line.link.device.(exiting := true)
  {
    hide Run, Output, Answered, Reached, Called;
    var s := StaleAck + (crc + StaleAck) + StaleAck;
    RebootAdds(line.link);
    assert s[..2] == StaleAck;
    TwoBytes(s);
    link' := StaleCall(Reboot, 10, line, s, 2, [], more);
  }

  const LATE_CUTS := PILE_CUTS + ([6] + ([2] + ([6] + [2])))

  lemma PointerIsNumber(link: Link)
    requires Serving(link)
    ensures FromLe(PointerBytesOf(link)) == link.device.ptr
    ensures FromLe(StaleAck + StaleAck) == 0x1012_1012
  {
    Capacities();
    FromToLe(link.device.ptr, 4);
    var s := StaleAck + StaleAck;
    assert s == [0x12, 0x10, 0x12, 0x10];
    assert FromLe([0x12, 0x10]) == 0x1012;
    assert s[1..][1..] == [0x12, 0x10];
  }

  /**
   * Programming has timed out, so the pointer is asked for; the acknowledgment arrives after all, in front of
   * everything else. For every pointer without the byte 0x12, and with these pieces, the write loop then ends at once,
   * the checksum that is observed is the pointer, and the upload ends normally: the device has rebooted with the memory
   * as it was. Nothing but a mismatch is reported, and not even that if the expected checksum is the pointer.
   */
  lemma OneLateAcknowledgment(firmware: Firmware, flashSize: nat, blRev: nat, line: Line)
    requires Rested(line.m) && line.m.state != InSync && Serving(line.link) && line.link.pending == StaleAck
    requires SYNC_BYTE !in PointerBytesOf(line.link) && line.link.cuts == LATE_CUTS
    requires blRev >= 6 && |firmware.image| <= 0x1012_1012
    ensures var turn := WriteTurn(firmware.image, blRev, None, line);
            && turn.Went? && Done(firmware.image, turn.pointer)
            && turn.news == [Progress(0x1012_1012, |firmware.image|)]
            && var verified := Verified(firmware, flashSize, turn.line);
            && verified.fault == None
            && var expected := Crc.Crc32(Padded(firmware, flashSize), 0) as int;
            && verified.news == [StepReached(Verifying)] + (if expected == line.link.device.ptr then []
                                                            else [CrcMismatch(expected, line.link.device.ptr)])
            && var rebooted := Rebooted(verified.line);
            && rebooted.fault == None && rebooted.news == AFTER
            && rebooted.line.link.device == line.link.device.(exiting := true)
  {
    hide Run, Called, PointerBytesOf, Crc.Crc32, Padded, FromLe;
    var p := PointerBytesOf(line.link);
    PointerIsNumber(line.link);
    var link := PointerMisread(line, p, [2] + ([6] + [2]));
    link := NothingProgrammed(Line(Ready, link), p, [6] + [2]);
    var crc;
    link, crc := PointerForChecksum(Line(Ready, link), p, [2]);
    assert [2] + [] == [2];
    link := RebootConfirmed(Line(Ready, link), crc, []);
  }
}
