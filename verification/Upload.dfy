/** Uploading a firmware image: the whole procedure, run against a device behind a channel that loses messages. */
module Upload {
  import opened Bytes
  import opened Crc
  import opened CrcPeriod
  import opened ShiftRegister
  import opened Messages
  import opened Protocol
  import opened Connection
  import opened Procedure
  import Device
  import Rpc

  // ---- what the loop keeps ----

  /** The image is in the memory up to the pointer, and the rest is still erased. */
  ghost predicate Burnt(image: seq<byte>, d: Device.State) {
    && d.ptr <= |image| <= |d.flash|
    && d.flash == image[..d.ptr] + Fill(0xFF, |d.flash| - d.ptr)
    && (d.ptr % PROG_MULTI_MAX_PAYLOAD_LENGTH == 0 || d.ptr == |image|)
  }

  /** Program calls that it takes to get this far when nothing is lost. */
  function Chunks(pointer: nat): nat {
    (pointer + PROG_MULTI_MAX_PAYLOAD_LENGTH - 1) / PROG_MULTI_MAX_PAYLOAD_LENGTH
  }

  lemma BurningExtends(image: seq<byte>, flash: seq<byte>, p: nat, end: nat)
    requires p <= end <= |image| <= |flash|
    requires flash == image[..p] + Fill(0xFF, |flash| - p)
    ensures flash[..p] + image[p..end] + flash[end..] == image[..end] + Fill(0xFF, |flash| - end)
  {
    assert flash[..p] == image[..p];
    assert image[..p] + image[p..end] == image[..end];
    assert flash[end..] == Fill(0xFF, |flash| - end);
  }

  lemma OneMoreChunk(pointer: nat, total: nat)
    requires pointer < total && pointer % PROG_MULTI_MAX_PAYLOAD_LENGTH == 0
    ensures Chunks(if pointer + PROG_MULTI_MAX_PAYLOAD_LENGTH >= total then total
                   else pointer + PROG_MULTI_MAX_PAYLOAD_LENGTH) == Chunks(pointer) + 1
  {
  }

  lemma NothingToBurn(d: Device.State)
    ensures 0 < |d.flash| ==> Device.Written(d, []) == d
  {
  }

  /** Programming the chunk at the device's own pointer keeps the invariant and makes progress. */
  lemma ChunkBurns(image: seq<byte>, d: Device.State)
    requires Burnt(image, d) && 0 < |d.flash|
    ensures var d' := Device.Written(d, ChunkAt(image, d.ptr));
            && Burnt(image, d') && d'.ptr == d.ptr + |ChunkAt(image, d.ptr)|
            && Chunks(d'.ptr) == Chunks(d.ptr) + (if d.ptr < |image| then 1 else 0)
  {
    hide Device.Written, ChunkAt, Chunks;
    ChunkLength(image, d.ptr);
    if d.ptr < |image| {
      var chunk := ChunkAt(image, d.ptr);
      Device.WrittenInside(d, chunk);
      BurningExtends(image, d.flash, d.ptr, d.ptr + |chunk|);
      OneMoreChunk(d.ptr, |image|);
    } else {
      NothingToBurn(d);
    }
  }

  /** Progress reports only grow, and never beyond `limit`. */
  ghost predicate Rising(news: seq<Notice>, total: nat, limit: nat) {
    && (forall i :: 0 <= i < |news| ==> news[i].Progress? && news[i].total == total && news[i].written <= limit)
    && (forall i, j :: 0 <= i < j < |news| ==> news[i].written <= news[j].written)
  }

  lemma RisesFurther(news: seq<Notice>, total: nat, limit: nat, written: nat)
    requires Rising(news, total, limit) && limit <= written
    ensures Rising(news + [Progress(written, total)], total, written)
  {
  }

  /** The state of the write loop: what the client believes, and what it has reported and spent so far. */
  datatype Tally = Tally(pointer: Option<nat>, news: seq<Notice>, calls: nat, timeouts: nat)

  /** The known pointer is the device's own, and the last report says how far that is. */
  ghost predicate InStep(image: seq<byte>, d: Device.State, programs: nat, t: Tally) {
    && Burnt(image, d)
    && (t.pointer.Some? ==> t.pointer.value == d.ptr)
    && Rising(t.news, |image|, d.ptr)
    && (t.pointer.Some? && t.news != [] ==> t.news[|t.news| - 1].written == d.ptr)
    && (t.pointer.Some? && t.news == [] ==> d.ptr == 0)
    // every chunk has been transmitted
    && Chunks(d.ptr) <= programs
    // a lost acknowledgment of the last chunk will cost one empty program call
    && t.calls + (if t.pointer == None && d.ptr == |image| then 1 else 0) <= Chunks(d.ptr) + t.timeouts
  }

  /** The outcomes of one program call and how the loop reacts to them. */
  function AfterProgram(t: Tally, pointer: nat, chunk: seq<byte>, total: nat, acknowledged: bool): Tally {
    if acknowledged
    then Tally(Some(pointer + |chunk|), t.news + [Progress(pointer + |chunk|, total)], t.calls + 1, t.timeouts)
    else Tally(None, t.news, t.calls + 1, t.timeouts + 1)
  }

  lemma ProgramKeepsStep(image: seq<byte>, d: Device.State, programs: nat, t: Tally, acknowledged: bool,
                         applied: bool, programs': nat)
    requires InStep(image, d, programs, t) && 0 < |d.flash| && (acknowledged ==> applied)
    requires t.pointer.Some? ==> t.pointer.value < |image|
    requires programs + (if applied then 1 else 0) <= programs'
    ensures var chunk := ChunkAt(image, d.ptr);
            InStep(image, if applied then Device.Written(d, chunk) else d, programs',
                   AfterProgram(t, d.ptr, chunk, |image|, acknowledged))
  {
    ChunkBurns(image, d);
    if acknowledged {
      RisesFurther(t.news, |image|, d.ptr, d.ptr + |ChunkAt(image, d.ptr)|);
    }
  }

  /**
   * What the write loop keeps, from `start` on. The calls that time out use up losses; the others, and only those
   * for sure, have transmitted their command. Without a timeout nothing is lost as long as nothing else is asked.
   */
  ghost predicate Kept(image: seq<byte>, blRev: nat, start: Rpc.Link, now: Rpc.Link, t: Tally) {
    && !now.device.exiting
    && now.device.revision == start.device.revision && |now.device.flash| == |start.device.flash|
    && start.programs + t.calls <= now.programs + t.timeouts && now.programs <= start.programs + t.calls
    && start.programs <= now.programs
    && (|image| <= |now.device.flash| ==> InStep(image, now.device, now.programs - start.programs, t))
    && Rpc.Lost(now.fates) + t.timeouts <= Rpc.Lost(start.fates)
    && (blRev < 6 && t.timeouts == 0 ==> Rpc.Lost(now.fates) == Rpc.Lost(start.fates))
    && (blRev < 6 && t.timeouts > 0 ==> t.pointer == None)
    && (t.pointer == None ==> t.timeouts > 0)
    // whatever its size, as much of the image as has been acknowledged has been written from the start of the memory on
    && (0 < |start.device.flash| && t.timeouts == 0 ==>
          t.pointer.value <= |image| && now.device == Device.Written(start.device, image[..t.pointer.value]))
  }

  lemma ErasedIsInStep(image: seq<byte>, d: Device.State)
    requires d == Erased(d)
    ensures |image| <= |d.flash| ==> InStep(image, d, 0, Tally(Some(0), [], 0, 0))
  {
    assert image[..0] + Fill(0xFF, |d.flash|) == Fill(0xFF, |d.flash|);
  }

  /** The next chunk of an image of any size. */
  lemma ChunkContinues(image: seq<byte>, d: Device.State, pointer: nat)
    requires d.Valid() && pointer <= |image|
    ensures var chunk := ChunkAt(image, pointer);
            && pointer + |chunk| <= |image|
            && Device.Written(Device.Written(d, image[..pointer]), chunk)
               == Device.Written(d, image[..pointer + |chunk|])
  {
    hide Device.Written;
    var chunk := ChunkAt(image, pointer);
    ChunkLength(image, pointer);
    Device.WrittenConcat(d, image[..pointer], chunk);
    assert image[..pointer] + chunk == image[..pointer + |chunk|];
  }

  lemma StartsKept(image: seq<byte>, blRev: nat, link: Rpc.Link)
    requires link.device.Valid() && !link.device.exiting && link.device == Erased(link.device)
    ensures Kept(image, blRev, link, link, Tally(Some(0), [], 0, 0))
  {
    hide InStep, Device.Written, Rpc.Lost;
    ErasedIsInStep(image, link.device);
    NothingToBurn(link.device);
    assert image[..0] == [];
  }

  lemma ProgramKeeps(image: seq<byte>, blRev: nat, start: Rpc.Link, before: Rpc.Link, now: Rpc.Link, t: Tally,
                     pointer: nat, outcome: Outcome)
    requires Kept(image, blRev, start, before, t) && before.device.Valid() && start.device.Valid()
    requires if t.pointer == None then blRev >= 6 && pointer == before.device.ptr
             else pointer == t.pointer.value < |image|
    requires Rpc.Programmed(ChunkAt(image, pointer), before, outcome, now)
    ensures Kept(image, blRev, start, now,
                 AfterProgram(t, pointer, ChunkAt(image, pointer), |image|, outcome.Returned?))
  {
    hide Burnt, Device.Written, ChunkAt, Chunks, Rising, Rpc.Lost;
    var d, chunk := before.device, ChunkAt(image, pointer);
    var applied := now.device == Device.Written(d, chunk) && now.programs == before.programs + 1;
    Device.WrittenValid(d, chunk);
    if |image| <= |d.flash| {
      ProgramKeepsStep(image, d, before.programs - start.programs, t, outcome.Returned?, applied,
                       now.programs - start.programs);
    }
    if t.timeouts == 0 {
      ChunkContinues(image, start.device, pointer);
    }
  }

  lemma SerialWordOf(address: nat)
    requires address == 0 || address == 4 || address == 8
    ensures Device.SerialWord(address) == Device.Reversed(Device.SERIAL_NUMBER[address..address + 4])
    ensures Device.SERIAL_NUMBER[..address + 4] ==
            Device.SERIAL_NUMBER[..address] + Device.SERIAL_NUMBER[address..address + 4]
  {
    hide Device.Reversed;
    var word := Device.SERIAL_NUMBER[address..address + 4];
    assert (if |Device.SERIAL_NUMBER[address..]| > 4 then Device.SERIAL_NUMBER[address..][..4]
            else Device.SERIAL_NUMBER[address..]) == word;
    assert word + Fill(0, 0) == word;
  }

  /** Each reply carries a word of the serial number in reverse. */
  lemma SerialWordReverses(d: Device.State, address: nat)
    requires d.Valid()
    requires address == 0 || address == 4 || address == 8
    ensures OnlyAsks(Command(GET_SN, ToLe(address, 4)))
    ensures Device.Handle(d, Command(GET_SN, ToLe(address, 4))).0 == Device.Payload(Device.SerialWord(address))
    ensures Device.Reversed(Device.SerialWord(address)) == Device.SERIAL_NUMBER[address..address + 4]
    ensures Device.SERIAL_NUMBER[..address + 4] ==
            Device.SERIAL_NUMBER[..address] + Device.SERIAL_NUMBER[address..address + 4]
  {
    hide Device.SerialWord, Device.Reversed, Device.Handle;
    SerialAsked(d, address);
    SerialWordOf(address);
    ReversedTwice(Device.SERIAL_NUMBER[address..address + 4]);
  }

  lemma {:induction false} ReversedLast(s: seq<byte>, b: byte)
    ensures Device.Reversed(s + [b]) == [b] + Device.Reversed(s)
  {
    if s != [] {
      assert (s + [b])[1..] == s[1..] + [b];
      ReversedLast(s[1..], b);
    } else {
      assert s + [b] == [b];
    }
  }

  lemma {:induction false} ReversedTwice(s: seq<byte>)
    ensures Device.Reversed(Device.Reversed(s)) == s
  {
    if s != [] {
      ReversedLast(Device.Reversed(s[1..]), s[0]);
      ReversedTwice(s[1..]);
    }
  }

  // ---- when a correct upload is reported as a mismatch ----

  /** The memory after a correct upload. */
  ghost predicate Complete(firmware: Firmware, flash: seq<byte>) {
    |firmware.image| <= |flash| && flash == firmware.image + Fill(0xFF, |flash| - |firmware.image|)
  }

  /** The checksum of what the expected and the actual contents have in common: the image and the shorter padding. */
  function CommonCrc(firmware: Firmware, flashSize: nat): bv32 {
    var expected, actual := PaddingLength(firmware.imageSize, flashSize), PaddingLength(|firmware.image|, flashSize);
    Crc32(firmware.image + Fill(0xFF, if expected < actual then expected else actual), 0)
  }

  /** By how many erased bytes the two differ. */
  function Excess(firmware: Firmware, flashSize: nat): nat {
    var expected, actual := PaddingLength(firmware.imageSize, flashSize), PaddingLength(|firmware.image|, flashSize);
    if expected < actual then actual - expected else expected - actual
  }

  lemma SameNumber(a: bv32, b: bv32)
    ensures a as int == b as int <==> a == b
  {
    if a as int == b as int {
      assert (a as int) as bv32 == (b as int) as bv32;
    }
  }

  lemma PaddingSplits(image: seq<byte>, n: nat, k: nat)
    ensures Crc32(image + Fill(0xFF, n + k), 0) == Crc32(Fill(0xFF, k), Crc32(image + Fill(0xFF, n), 0))
  {
    hide Crc32;
    assert image + Fill(0xFF, n + k) == (image + Fill(0xFF, n)) + Fill(0xFF, k);
    Crc32Concat(image + Fill(0xFF, n), Fill(0xFF, k), 0);
  }

  /** Only the bytes by which the two differ can raise an alarm. */
  lemma ExcessDecides(firmware: Firmware, flash: seq<byte>)
    requires Complete(firmware, flash)
    ensures var s := CommonCrc(firmware, |flash|);
            MismatchNotices(firmware, flash) == [] <==> Crc32(Fill(0xFF, Excess(firmware, |flash|)), s) == s
  {
    hide Crc32;
    var expected, actual := PaddingLength(firmware.imageSize, |flash|), PaddingLength(|firmware.image|, |flash|);
    var common := if expected < actual then expected else actual;
    PaddingSplits(firmware.image, common, Excess(firmware, |flash|));
    SameNumber(Crc32(Padded(firmware, |flash|), 0), Crc32(flash, 0));
  }

  /**
   * When the size in the metadata does no harm: the paddings have the same length, as they also have for every size
   * beyond the memory if the image fills it; or they differ by the whole period of the checksum's register; or the
   * checksum before the difference is the one value that erased bytes leave alone.
   */
  ghost predicate Unalarmed(firmware: Firmware, flashSize: nat) {
    Excess(firmware, flashSize) % PERIOD == 0 || CommonCrc(firmware, flashSize) == ERASED_FIXPOINT
  }

  /** A correct upload is reported as a mismatch exactly in all other cases. */
  lemma AlarmExactly(firmware: Firmware, flash: seq<byte>)
    requires Complete(firmware, flash)
    ensures MismatchNotices(firmware, flash) == [] <==> Unalarmed(firmware, |flash|)
  {
    hide Crc32, MismatchNotices, CommonCrc, Excess;
    ExcessDecides(firmware, flash);
    ErasedBytesReturn(Excess(firmware, |flash|), CommonCrc(firmware, |flash|));
  }

  /** Zeros leave a checksum of zero. */
  lemma {:induction false} ZeroStaysZero(bits: seq<bool>)
    requires forall i :: 0 <= i < |bits| ==> !bits[i]
    ensures Serial(CRC32, 0, bits) == 0
    decreases |bits|
  {
    if bits != [] {
      assert Shift(CRC32, 0, false) == 0;
      ZeroStaysZero(bits[1..]);
    }
  }

  lemma {:induction false} ZeroBytes(data: seq<byte>)
    requires forall i :: 0 <= i < |data| ==> data[i] == 0
    ensures Crc32(data, 0) == 0
    decreases |data|
  {
    if data != [] {
      ZeroDigits(8);
      ZeroStaysZero(BitsOf(0));
      SerialConcat(CRC32, 0, BitsOf(0), AllBits(data[1..]));
      ZeroBytes(data[1..]);
    }
  }

  lemma {:induction false} ZeroDigits(count: nat)
    ensures forall i :: 0 <= i < count ==> !Digits(0, count)[i]
  {
    if count > 0 {
      ZeroDigits(count - 1);
    }
  }

  /** So a correct upload can raise a false alarm: a zero byte in a memory of two, announced as an image of two. */
  lemma WrongSizeRaisesFalseAlarm()
    ensures Complete(Firmware([0], 2), [0, 0xFF]) && MismatchNotices(Firmware([0], 2), [0, 0xFF]) != []
  {
    hide Crc32;
    var firmware, flash := Firmware([0], 2), [0, 0xFF];
    assert Fill(0xFF, 1) == [0xFF] && [0] + [0xFF] == flash;
    ZeroBytes([0]);
    assert [0] + Fill(0xFF, 0) == [0];
    AlarmExactly(firmware, flash);
  }

  /** The result of an upload that fits, with this many program commands transmitted and this many losses. */
  ghost predicate Uploaded(image: seq<byte>, flash: seq<byte>, ptr: nat, news: seq<Notice>, programs: int, losses: int)
  {
    && |image| <= |flash|
    && flash == image + Fill(0xFF, |flash| - |image|)
    && ptr == |image|
    && Chunks(|image|) <= programs <= Chunks(|image|) + losses
    && Rising(news, |image|, |image|)
    && (image != [] ==> news != [] && news[|news| - 1] == Progress(|image|, |image|))
  }

  lemma KeptToTheEnd(firmware: Firmware, blRev: nat, start: Rpc.Link, now: Rpc.Link, t: Tally)
    requires Kept(firmware.image, blRev, start, now, t)
    requires t.pointer.Some? && t.pointer.value >= |firmware.image| && start.device.Valid()
    ensures |firmware.image| <= |now.device.flash| ==>
              && Uploaded(firmware.image, now.device.flash, now.device.ptr, t.news,
                          now.programs - start.programs, Rpc.Lost(start.fates) - Rpc.Lost(now.fates))
              && (MismatchNotices(firmware, now.device.flash) == [] <==> Unalarmed(firmware, |now.device.flash|))
    ensures blRev < 6 || Rpc.Lost(now.fates) == Rpc.Lost(start.fates) ==>
              now.device == Device.Written(start.device, firmware.image)
  {
    hide MismatchNotices, Unalarmed, Rpc.Lost, Device.Written;
    assert firmware.image[..|firmware.image|] == firmware.image;
    if |firmware.image| <= |now.device.flash| {
      AlarmExactly(firmware, now.device.flash);
    }
  }

  lemma MoreLosses(image: seq<byte>, link: Rpc.Link, news: seq<Notice>, programs: int, losses: int, more: int)
    requires losses <= more
    ensures Uploaded(image, link.device.flash, link.device.ptr, news, programs, losses) ==>
              Uploaded(image, link.device.flash, link.device.ptr, news, programs, more)
  {
  }

  lemma VerifyingKeeps(firmware: Firmware, flashSize: nat, line: Line)
    requires Listening(line)
    ensures Listening(Verified(firmware, flashSize, line).line)
  {
    hide Called, OnlyAsks, Padded, ToLe, FromLe, Crc32, Compared, Rpc.Lost;
    CrcAsked(line.link.device);
    AskingKeeps(line, Command(GET_CRC, []));
  }

  lemma CrcAsked(d: Device.State)
    requires d.Valid()
    ensures OnlyAsks(Command(GET_CRC, []))
    ensures var bytes := ToLe(Crc32(d.flash, 0) as int, 4);
            && Device.Handle(d, Command(GET_CRC, [])).0 == Device.Payload(bytes)
            && FromLe(bytes) == Crc32(d.flash, 0) as int
  {
    hide ToLe, FromLe, Crc32;
    Capacities();
    FromToLe(Crc32(d.flash, 0) as int, 4);
  }

  /** What becomes of the first reboot that arrives, if there is one. */
  function FirstReboot(line: Line): Option<Rpc.Fate> {
    Rpc.FirstArrival(line.link.fates, 10, line.m.state == InSync)
  }

  /** Confirmed exactly when the first transmission that arrives is; the device leaves when one arrives. */
  lemma RebootingKeeps(line: Line)
    requires Listening(line)
    ensures var (outcome, line') := Called(line, Command(REBOOT, []), 10);
            && Quiet(line') && Procedure.Losses(line') <= Procedure.Losses(line)
            && line'.link.programs == line.link.programs
            && line'.link.device == line.link.device.(exiting := FirstReboot(line).Some?)
            && (outcome == Returned([]) <==> FirstReboot(line) == Some(Rpc.Delivered))
            && (outcome == Returned([]) || (outcome == TimedOut && Procedure.Losses(line) > 0))
            && (FirstReboot(line) == None ==> Procedure.Losses(line') + ATTEMPTS <= Procedure.Losses(line))
  {
    hide Run, Rpc.Lost, Rpc.FirstArrival;
    RepeatableCall(REBOOT, line.m, 10, line.link);
    Rpc.RebootIsConfirmed(line.m, 10, line.link);
  }

  /** The reboot was attempted, and one arrived. */
  ghost predicate Left(firmware: Firmware, line: Line)
    requires Listening(line)
  {
    var before := UpToReboot(firmware, line);
    before.fault == None && FirstReboot(before.line).Some?
  }

  /** The first one that arrived was confirmed besides. */
  ghost predicate Confirmed(firmware: Firmware, line: Line)
    requires Listening(line)
  {
    var before := UpToReboot(firmware, line);
    before.fault == None && FirstReboot(before.line) == Some(Rpc.Delivered)
  }

  /** What a device that has left was told last. */
  function Ending(fault: Option<Fault>): seq<Notice> {
    if fault == None then AFTER else [StepReached(Rebooting)]
  }

  /** Verification fails only if the checksum cannot be asked for. */
  lemma VerifyingAsks(firmware: Firmware, flashSize: nat, line: Line)
    requires Usable(line)
    ensures var (r, (outcome, line')) := (Verified(firmware, flashSize, line), Called(line, Command(GET_CRC, []), 10));
            r.line == line' && (r.fault == None <==> outcome.Returned?)
  {
    hide Called;
  }

  /** The board's properties and the serial number are asked for one by one. */
  lemma BoardAsked(line: Line)
    requires Usable(line)
    ensures var (id, line1) := Called(line, DeviceInfo(BOARD_ID), 10);
            var whole := Asked(line, BOARD_COMMANDS + SERIAL_COMMANDS);
            if !id.Returned? then whole == (id, line1)
            else
              var (revision, line2) := Called(line1, DeviceInfo(BOARD_REV), 10);
              if !revision.Returned? then whole == (revision, line2)
              else whole == Asked(line2, SERIAL_COMMANDS)
  {
    hide Called;
    var all := BOARD_COMMANDS + SERIAL_COMMANDS;
    assert all[1..][0] == DeviceInfo(BOARD_REV) && all[1..][1..] == SERIAL_COMMANDS;
  }

  function After(news: seq<Notice>, report: Report): Report {
    report.(news := news + report.news)
  }

  lemma AfterNothing(report: Report)
    ensures After([], report) == report
  {
  }

  lemma AfterBoth(news: seq<Notice>, more: seq<Notice>, report: Report)
    ensures After(news, After(more, report)) == After(news + more, report)
  {
  }

  lemma NothingWritten(image: seq<byte>, blRev: nat, pointer: Option<nat>, line: Line)
    requires Listening(line) && Done(image, pointer)
    ensures Written(image, blRev, pointer, line) == Report(None, [], line)
  {
  }

  /** What a turn of the write loop does, and that the rest of the loop follows. */
  lemma OneTurn(image: seq<byte>, blRev: nat, pointer: Option<nat>, line: Line)
    requires Listening(line) && !Done(image, pointer)
    ensures var turn, whole := WriteTurn(image, blRev, pointer, line), Written(image, blRev, pointer, line);
            && Listening(turn.line)
            && (turn.Stopped? ==> whole == Report(Some(turn.fault), [], turn.line))
            && (turn.Went? ==> whole == After(turn.news, Written(image, blRev, turn.pointer, turn.line)))
    ensures var turn := WriteTurn(image, blRev, pointer, line);
            var (outcome, location, line') := Located(pointer, line);
            if pointer == None && blRev < 6 then turn == Stopped(AcknowledgmentLost, line)
            else if outcome.Returned? then turn == Sent(image, location, line')
            else turn == Stopped(CallFailed(outcome), line')
  {
    hide Sent, Located, Called;
    TurnProgress(image, blRev, pointer, line);
  }

  /** Whether the device leaves, and whether the upload ends normally. */
  lemma EndIsDecided(firmware: Firmware, line: Line)
    requires Listening(line)
    ensures var r := WholeUpload(firmware, line);
            && (r.fault == None <==> Confirmed(firmware, line))
            && (r.line.link.device.exiting <==> Left(firmware, line))
  {
    hide Called, UpToReboot;
    var before := UpToReboot(firmware, line);
    QuietUpToReboot(firmware, line);
    if before.fault == None {
      RebootingKeeps(before.line);
    }
  }

  lemma QuietUpToReboot(firmware: Firmware, line: Line)
    requires Listening(line)
    ensures Listening(UpToReboot(firmware, line).line)
  {
    hide Called, Prepared, Written, Verified;
    PreparingKeeps(line);
    var survey := Prepared(line).0;
    if survey.fault == None {
      var written := Written(firmware.image, survey.blRev, Some(0), survey.line);
      VerifyingKeeps(firmware, survey.flashSize, written.line);
    }
  }

  /** What happens after the device has been erased. */
  function Transferred(firmware: Firmware, flashSize: nat, blRev: nat, line: Line): (r: Report)
    requires Listening(line)
    ensures Usable(r.line)
  {
    var written := Written(firmware.image, blRev, Some(0), line);
    var verified := Verified(firmware, flashSize, written.line);
    Before(written, Before(verified, Rebooted(verified.line)))
  }

  /** The parts of an upload. */
  lemma InParts(firmware: Firmware, line: Line)
    requires Listening(line)
    ensures Listening(Prepared(line).0.line)
    ensures var whole, (survey, news) := WholeUpload(firmware, line), Prepared(line);
            if survey.fault.Some? then whole == Report(survey.fault, news, survey.line)
            else whole == After(news, Transferred(firmware, survey.flashSize, survey.blRev, survey.line))
  {
    hide Called, Prepared, Written, Verified, Rebooted;
    PreparingKeeps(line);
    var (survey, news) := Prepared(line);
    if survey.fault == None {
      var written := Written(firmware.image, survey.blRev, Some(0), survey.line);
      var verified := Verified(firmware, survey.flashSize, written.line);
      Associates(news + written.news, verified.news, Rebooted(verified.line).news);
      Associates(news, written.news, verified.news + Rebooted(verified.line).news);
      Associates(news, written.news, verified.news);
    }
  }

  lemma Associates(a: seq<Notice>, b: seq<Notice>, c: seq<Notice>)
    ensures a + b + c == a + (b + c)
  {
  }

  // ---- the mismatch that is reported ----

  /**
   * A mismatch is reported at most once, between the checksums' comparison and the reboot, and exactly if the two
   * differ; it says which checksum was expected and which was found.
   */
  ghost predicate ToldBetween(news: seq<Notice>, expected: nat, observed: nat) {
    && (forall i :: 0 <= i < |news| && news[i].CrcMismatch? ==>
          && news[i].expected == expected && news[i].observed == observed && expected != observed
          && 0 < i < |news| - 1 && news[i - 1] == StepReached(Verifying) && news[i + 1] == StepReached(Rebooting))
    && (forall i, j :: 0 <= i < j < |news| && news[i].CrcMismatch? ==> !news[j].CrcMismatch?)
    && (expected != observed && StepReached(Rebooting) in news ==>
          exists i :: 0 <= i < |news| && news[i].CrcMismatch?)
  }

  /** What is expected is the image and, after it, as many erased bytes as the metadata leaves room for. */
  ghost predicate MismatchTold(news: seq<Notice>, firmware: Firmware, flash: seq<byte>) {
    var padding := if |flash| > firmware.imageSize then |flash| - firmware.imageSize else 0;
    ToldBetween(news, Crc32(firmware.image + Fill(0xFF, padding), 0) as int, Crc32(flash, 0) as int)
  }

  /** Nothing of the upload's end. */
  ghost predicate Early(news: seq<Notice>) {
    forall n :: n in news ==> !n.CrcMismatch? && n != StepReached(Rebooting)
  }

  lemma ToldLater(front: seq<Notice>, news: seq<Notice>, expected: nat, observed: nat)
    requires Early(front) && ToldBetween(news, expected, observed)
    ensures ToldBetween(front + news, expected, observed)
  {
    var all := front + news;
    forall i | 0 <= i < |front|
      ensures !all[i].CrcMismatch? && all[i] != StepReached(Rebooting)
    {
      assert all[i] == front[i] && front[i] in front;
    }
    assert forall i :: |front| <= i < |all| ==> all[i] == news[i - |front|];
    if expected != observed && StepReached(Rebooting) in all {
      var i :| 0 <= i < |news| && news[i].CrcMismatch?;
      assert all[|front| + i] == news[i];
    }
  }

  lemma LaterNotices(events: seq<Notice>, front: seq<Notice>, news: seq<Notice>, firmware: Firmware, flash: seq<byte>)
    requires Early(front) && MismatchTold(news, firmware, flash)
    ensures MismatchTold((events + (front + news))[|events|..], firmware, flash)
  {
    hide Crc32, ToldBetween, Early;
    NewNotices(events, front + news);
    var padding := if |flash| > firmware.imageSize then |flash| - firmware.imageSize else 0;
    ToldLater(front, news, Crc32(firmware.image + Fill(0xFF, padding), 0) as int, Crc32(flash, 0) as int);
  }

  lemma NewNotices(events: seq<Notice>, news: seq<Notice>)
    ensures (events + news)[|events|..] == news
  {
  }

  lemma EarlyTells(news: seq<Notice>, firmware: Firmware, flash: seq<byte>)
    requires Early(news)
    ensures MismatchTold(news, firmware, flash)
  {
    hide Crc32;
  }

  lemma {:induction false} OnlyProgress(image: seq<byte>, blRev: nat, pointer: Option<nat>, line: Line)
    requires Listening(line)
    ensures forall n :: n in Written(image, blRev, pointer, line).news ==> n.Progress?
    ensures Early(Written(image, blRev, pointer, line).news)
    decreases Procedure.Losses(line), Distance(pointer, |image|)
  {
    hide Called, Rpc.Lost, Located;
    if !Done(image, pointer) {
      TurnProgress(image, blRev, pointer, line);
      var turn := WriteTurn(image, blRev, pointer, line);
      if turn.Went? {
        OnlyProgress(image, blRev, turn.pointer, turn.line);
      }
    }
  }

  lemma PreparingIsEarly(line: Line)
    requires Usable(line)
    ensures Early(Prepared(line).1)
  {
    hide Called, Examined;
  }

  /** Whatever step follows, as long as the reboot is next. */
  lemma ComparisonTells(expected: nat, observed: nat, after: seq<Notice>)
    requires after == AFTER || after == [StepReached(Rebooting)]
    ensures ToldBetween([StepReached(Verifying)] + Compared(expected, observed) + after, expected, observed)
  {
    var news := [StepReached(Verifying)] + Compared(expected, observed) + after;
    assert expected != observed ==> news[1].CrcMismatch?;
  }

  /** The comparison tells the true checksums, the image's as the one that was expected. */
  lemma VerifyingTells(firmware: Firmware, flashSize: nat, line: Line, after: seq<Notice>)
    requires Listening(line) && flashSize == |line.link.device.flash|
    requires after == AFTER || after == [StepReached(Rebooting)]
    ensures var r, d := Verified(firmware, flashSize, line), line.link.device;
            && Listening(r.line) && r.line.link.device == d
            && if r.fault == None then MismatchTold(r.news + after, firmware, d.flash) else Early(r.news)
  {
    hide Called, OnlyAsks, ToLe, FromLe, Crc32, Rpc.Lost, Compared, ToldBetween, Device.Handle;
    var d := line.link.device;
    CrcAsked(d);
    AskingKeeps(line, Command(GET_CRC, []));
    var expected := Crc32(firmware.image + Fill(0xFF, PaddingLength(firmware.imageSize, flashSize)), 0) as int;
    ComparisonTells(expected, Crc32(d.flash, 0) as int, after);
  }

  lemma FinishTells(firmware: Firmware, flashSize: nat, line: Line)
    requires Listening(line) && flashSize == |line.link.device.flash|
    ensures var verified := Verified(firmware, flashSize, line);
            var r := Before(verified, Rebooted(verified.line));
            && r.line.link.device.flash == line.link.device.flash
            && MismatchTold(r.news, firmware, line.link.device.flash)
  {
    hide Called, Crc32, Verified, MismatchTold, FirstReboot;
    VerifyingTells(firmware, flashSize, line, AFTER);
    VerifyingTells(firmware, flashSize, line, [StepReached(Rebooting)]);
    var verified := Verified(firmware, flashSize, line);
    if verified.fault == None {
      RebootingKeeps(verified.line);
    } else {
      EarlyTells(verified.news, firmware, line.link.device.flash);
    }
  }

  // ---- the steps ----

  const STEPS := [Erasing, Uploading, Verifying, Rebooting, Step.Finished]

  /** The steps among the notices. */
  function StepsOf(news: seq<Notice>): seq<Step> {
    if news == [] then [] else (if news[0].StepReached? then [news[0].step] else []) + StepsOf(news[1..])
  }

  lemma {:induction false} StepsJoin(a: seq<Notice>, b: seq<Notice>)
    ensures StepsOf(a + b) == StepsOf(a) + StepsOf(b)
  {
    if a == [] {
      assert a + b == b;
    } else {
      assert (a + b)[1..] == a[1..] + b;
      StepsJoin(a[1..], b);
    }
  }

  lemma {:induction false} NoSteps(news: seq<Notice>)
    requires forall n :: n in news ==> !n.StepReached?
    ensures StepsOf(news) == []
  {
    if news != [] {
      assert news[0] in news;
      NoSteps(news[1..]);
    }
  }

  lemma StepsBefore(line: Line)
    requires Listening(line)
    ensures var (survey, news) := Prepared(line);
            && StepsOf(news) == (if survey.fault == None then STEPS[..2] else if news == [] then [] else STEPS[..1])
            && (news == [] ==> survey.line.link.device == line.link.device)
  {
    hide Called, Examined, Rpc.Lost;
    ExaminingKeeps(line);
    assert BEFORE[1..][0] == BEFORE[1] && BEFORE[1..][1..] == [];
  }

  lemma StepsCompared(expected: nat, observed: nat)
    ensures StepsOf([StepReached(Verifying)]) == [Verifying]
    ensures StepsOf([StepReached(Verifying)] + Compared(expected, observed)) == [Verifying]
  {
    StepsJoin([StepReached(Verifying)], Compared(expected, observed));
    NoSteps(Compared(expected, observed));
  }

  lemma StepsVerified(firmware: Firmware, flashSize: nat, line: Line)
    requires Usable(line)
    ensures StepsOf(Verified(firmware, flashSize, line).news) == STEPS[2..3]
  {
    hide Called, Crc32, Padded, Compared, StepsOf, FromLe;
    var outcome := Called(line, Command(GET_CRC, []), 10).0;
    StepsCompared(Crc32(Padded(firmware, flashSize), 0) as int, if outcome.Returned? then FromLe(outcome.value) else 0);
  }

  lemma StepsRebooted(line: Line)
    requires Usable(line)
    ensures StepsOf(Rebooted(line).news) == if Rebooted(line).fault != None then STEPS[3..4] else STEPS[3..]
  {
    hide Called;
    assert AFTER[1..][0] == AFTER[1] && AFTER[1..][1..] == [];
  }

  lemma StepsAfter(firmware: Firmware, flashSize: nat, line: Line)
    requires Usable(line)
    ensures var verified := Verified(firmware, flashSize, line);
            var r := Before(verified, Rebooted(verified.line));
            StepsOf(r.news) == if verified.fault != None then STEPS[2..3]
                               else if r.fault != None then STEPS[2..4] else STEPS[2..]
  {
    hide Verified, Rebooted, StepsOf;
    var verified := Verified(firmware, flashSize, line);
    StepsVerified(firmware, flashSize, line);
    StepsRebooted(verified.line);
    StepsJoin(verified.news, Rebooted(verified.line).news);
  }

  /** The steps are always reached in this order, all of them at a normal end; before the first, nothing changes. */
  lemma StepsInOrder(firmware: Firmware, line: Line)
    requires Listening(line)
    ensures var r := WholeUpload(firmware, line);
            && StepsOf(r.news) <= STEPS && (r.fault == None <==> StepsOf(r.news) == STEPS)
            && (StepsOf(r.news) == [] ==> r.line.link.device == line.link.device)
  {
    hide Called, Prepared, Written, Verified, Rebooted, WholeUpload, StepsOf;
    InParts(firmware, line);
    StepsBefore(line);
    var (survey, news) := Prepared(line);
    if survey.fault == None {
      var written := Written(firmware.image, survey.blRev, Some(0), survey.line);
      OnlyProgress(firmware.image, survey.blRev, Some(0), survey.line);
      NoSteps(written.news);
      var verified := Verified(firmware, survey.flashSize, written.line);
      var end := Before(verified, Rebooted(verified.line));
      StepsAfter(firmware, survey.flashSize, written.line);
      StepsJoin(written.news, end.news);
      StepsJoin(news, written.news);
      StepsJoin(news, written.news + end.news);
    }
  }

  /** The uploader: what it asks of the device and in which order, and what it reports on the way. */
  class Uploader {
    const connection: BootloaderConnection<Rpc.Link>
    const firmware: Firmware
    var events: seq<Notice>

    constructor (connection: BootloaderConnection<Rpc.Link>, firmware: Firmware)
      ensures this.connection == connection && this.firmware == firmware && events == []
    {
      this.connection, this.firmware, this.events := connection, firmware, [];
    }

    function TheLine(): Line
      reads connection, connection.protocol
    {
      Line(connection.protocol.Snapshot(), connection.env)
    }

    function Link(): Rpc.Link
      reads connection
    {
      connection.env
    }

    /** Losses that the channel still has in store. */
    function Losses(): nat
      reads connection
    {
      Rpc.Lost(connection.env.fates)
    }

    /** PROG_MULTI commands that have been transmitted over the channel. */
    function Programs(): nat
      reads connection
    {
      connection.env.programs
    }

    function TheDevice(): Device.State
      reads connection
    {
      connection.env.device
    }

    /** Between two calls nothing is on its way, and the parser holds nothing. */
    ghost predicate Valid()
      reads connection, connection.protocol
    {
      connection.peer == Rpc.Channel && Quiet(TheLine())
    }

    method ProcessCommand(command: Command, retries: nat) returns (outcome: Outcome)
      requires connection.peer == Rpc.Channel && Usable(TheLine())
      modifies connection, connection.protocol
      ensures (outcome, TheLine()) == Called(old(TheLine()), command, retries)
    {
      ghost var log;
      outcome, log := connection.ProcessCommandInner(command, retries);
    }

    method Ask(command: Command) returns (outcome: Outcome)
      requires Valid() && OnlyAsks(command) && !TheDevice().exiting
      modifies connection, connection.protocol
      ensures (outcome, TheLine()) == Called(old(TheLine()), command, 10)
      ensures Valid() && Unchanged(old(TheLine()), TheLine())
      ensures || (outcome == Returned(Device.Handle(TheDevice(), command).0.bytes)
                  && connection.protocol.Snapshot() == Rpc.Ready)
              || (outcome == TimedOut && Losses() + ATTEMPTS <= old(Losses()))
    {
      hide Called;
      AskingKeeps(TheLine(), command);
      outcome := ProcessCommand(command, 10);
    }

    /** A number in the reply's four bytes. */
    method AskForNumber(command: Command, ghost expected: nat) returns (outcome: Outcome, value: nat)
      requires Valid() && OnlyAsks(command) && !TheDevice().exiting && expected < 0x1_0000_0000
      requires Device.Handle(TheDevice(), command).0 == Device.Payload(ToLe(expected, 4))
      modifies connection, connection.protocol
      ensures (outcome, TheLine()) == Called(old(TheLine()), command, 10)
      ensures value == if outcome.Returned? then FromLe(outcome.value) else 0
      ensures Valid() && Unchanged(old(TheLine()), TheLine())
      ensures outcome.Returned? ==> value == expected && connection.protocol.Snapshot() == Rpc.Ready
      ensures outcome.Returned? || (outcome == TimedOut && Losses() + ATTEMPTS <= old(Losses()))
    {
      hide Called;
      value := 0;
      outcome := Ask(command);
      if outcome.Returned? {
        Capacities();
        FromToLe(expected, 4);
        value := FromLe(outcome.value);
      }
    }

    /** The single attempt either programs the bytes and hears about it, or times out, having programmed them or not. */
    method ProgramBytes(data: seq<byte>) returns (outcome: Outcome)
      requires Valid() && |data| <= PROG_MULTI_MAX_PAYLOAD_LENGTH && !TheDevice().exiting
      modifies connection, connection.protocol
      ensures (outcome, TheLine()) == Called(old(TheLine()), Command(PROG_MULTI, data), 0)
      ensures Valid() && Rpc.Programmed(data, old(Link()), outcome, Link())
    {
      hide Called, Rpc.Programmed;
      ProgrammingKeeps(TheLine(), data);
      outcome := ProcessCommand(Command(PROG_MULTI, data), 0);
    }

    method EraseFlashMemory() returns (outcome: Outcome)
      requires Valid() && !TheDevice().exiting
      modifies connection, connection.protocol
      ensures (outcome, TheLine()) == Called(old(TheLine()), Command(CHIP_ERASE, []), 10)
      ensures Valid() && Losses() <= old(Losses()) && Programs() == old(Programs())
      ensures || (outcome == Returned([]) && TheDevice() == Erased(old(TheDevice())))
              || (outcome == TimedOut && Losses() + ATTEMPTS <= old(Losses())
                  && (TheDevice() == Erased(old(TheDevice())) || TheDevice() == old(TheDevice())))
    {
      hide Called;
      ErasingKeeps(TheLine());
      outcome := ProcessCommand(Command(CHIP_ERASE, []), 10);
    }

    /** Confirmed exactly when the first transmission that arrives is; the device leaves when one arrives. */
    method Reboot() returns (outcome: Outcome)
      requires Valid() && !TheDevice().exiting
      modifies connection, connection.protocol
      ensures (outcome, TheLine()) == Called(old(TheLine()), Command(REBOOT, []), 10)
      ensures Valid() && Losses() <= old(Losses()) && Programs() == old(Programs())
      ensures TheDevice() == old(TheDevice()).(exiting := FirstReboot(old(TheLine())).Some?)
      ensures outcome == Returned([]) <==> FirstReboot(old(TheLine())) == Some(Rpc.Delivered)
      ensures outcome == Returned([]) || (outcome == TimedOut && old(Losses()) > 0)
      ensures !TheDevice().exiting ==> Losses() + ATTEMPTS <= old(Losses())
    {
      hide Called, FirstReboot;
      RebootingKeeps(TheLine());
      outcome := ProcessCommand(Command(REBOOT, []), 10);
    }

    /**
     * The write loop. For an image that fits, the part of it below the device's pointer is in the memory all the
     * time; when the loop ends normally that is the whole image. An unknown pointer is asked for, which bootloaders
     * before revision 6 cannot answer.
     */
    method WriteImage(blRev: nat) returns (fault: Option<Fault>, ghost tally: Tally)
      requires Valid() && !TheDevice().exiting
      requires TheDevice() == Erased(TheDevice())
      modifies connection, connection.protocol, `events
      ensures Written(firmware.image, blRev, Some(0), old(TheLine())) == Report(fault, tally.news, TheLine())
      ensures Valid() && Kept(firmware.image, blRev, old(Link()), Link(), tally)
      ensures events == old(events) + tally.news
      ensures fault == None ==> tally.pointer.Some? && tally.pointer.value >= |firmware.image|
      ensures fault == Some(AcknowledgmentLost) ==> blRev < 6 && Losses() < old(Losses())
      ensures fault == None && blRev < 6 ==> Losses() == old(Losses())
      ensures fault == None || fault == Some(AcknowledgmentLost) || fault == Some(CallFailed(TimedOut))
      ensures fault == Some(CallFailed(TimedOut)) ==> Losses() + ATTEMPTS <= old(Losses())
    {
      hide InStep, Burnt, Device.Written, Run, Called, Written, WriteTurn, Rpc.Lost;
      hide Rising, Chunks, OnlyAsks, Rpc.AlwaysAnswered;
      var pointer: Option<nat> := Some(0);
      tally := Tally(Some(0), [], 0, 0);
      fault := None;
      StartsKept(firmware.image, blRev, Link());
      ghost var whole := Written(firmware.image, blRev, Some(0), TheLine());
      AfterNothing(whole);
      while pointer == None || pointer.value < |firmware.image|
        invariant Valid() && Kept(firmware.image, blRev, old(Link()), Link(), tally)
        invariant events == old(events) + tally.news && pointer == tally.pointer && fault == None
        invariant whole == After(tally.news, Written(firmware.image, blRev, pointer, TheLine()))
        decreases Losses(), Distance(pointer, |firmware.image|)
      {
        ghost var news := tally.news;
        OneTurn(firmware.image, blRev, pointer, TheLine());
        pointer, fault, tally := WriteNext(blRev, pointer, old(Link()), tally);
        if fault.Some? {
          return;
        }
        ghost var rest := Written(firmware.image, blRev, pointer, TheLine());
        AfterBoth(news, tally.news[|news|..], rest);
        assert news + tally.news[|news|..] == tally.news;
      }
      NothingWritten(firmware.image, blRev, pointer, TheLine());
    }

    /** The loop's body. */
    method WriteNext(blRev: nat, pointer: Option<nat>, ghost start: Rpc.Link, ghost t: Tally)
      returns (pointer': Option<nat>, fault: Option<Fault>, ghost t': Tally)
      requires Valid() && Kept(firmware.image, blRev, start, Link(), t) && start.device.Valid()
      requires pointer == t.pointer && !Done(firmware.image, pointer)
      modifies connection, connection.protocol, `events
      ensures |t.news| <= |t'.news| && t'.news[..|t.news|] == t.news
      ensures WriteTurn(firmware.image, blRev, pointer, old(TheLine())) ==
              if fault.Some? then Stopped(fault.value, TheLine())
              else Went(pointer', t'.news[|t.news|..], TheLine())
      ensures Valid() && Kept(firmware.image, blRev, start, Link(), t') && pointer' == t'.pointer
      ensures events == old(events) + t'.news[|t.news|..] && (fault.Some? ==> t' == t)
      ensures fault == Some(AcknowledgmentLost) ==> blRev < 6 && Losses() < Rpc.Lost(start.fates)
      ensures fault == None || fault == Some(AcknowledgmentLost)
              || (fault == Some(CallFailed(TimedOut)) && Losses() + ATTEMPTS <= old(Losses()))
      ensures fault == None ==>
                Losses() < old(Losses())
                || (Losses() == old(Losses())
                    && Distance(pointer', |firmware.image|) < Distance(pointer, |firmware.image|))
      ensures Losses() <= old(Losses())
    {
      hide InStep, Burnt, Device.Written, Run, Called, Sent, Located, ChunkAt, Rpc.Lost;
      hide Rising, Chunks, AfterProgram, OnlyAsks, Rpc.AlwaysAnswered;
      OneTurn(firmware.image, blRev, pointer, TheLine());
      pointer', t' := pointer, t;
      if pointer == None && blRev < 6 {
        fault := Some(AcknowledgmentLost);
        return;
      }
      var location;
      fault, location := Locate(blRev, pointer, start, t);
      if fault.Some? {
        return;
      }
      pointer', fault, t' := ProgramNext(blRev, location, start, t);
    }

    /** The part of the loop's body that finds out the pointer if it is not known. */
    method Locate(blRev: nat, pointer: Option<nat>, ghost start: Rpc.Link, ghost t: Tally)
      returns (fault: Option<Fault>, location: nat)
      requires Valid() && Kept(firmware.image, blRev, start, Link(), t) && pointer == t.pointer
      modifies connection, connection.protocol
      ensures var (outcome, found, line) := Located(pointer, old(TheLine()));
              && TheLine() == line && location == found
              && fault == if outcome.Returned? then None else Some(CallFailed(outcome))
      ensures Valid() && Unchanged(old(TheLine()), TheLine())
      ensures Kept(firmware.image, blRev, start, Link(), t)
      ensures fault == None ==> location == if pointer == None then TheDevice().ptr else pointer.value
      ensures fault == None || (fault == Some(CallFailed(TimedOut)) && Losses() + ATTEMPTS <= old(Losses()))
    {
      hide InStep, Device.Written, Called;
      fault, location := None, 0;
      if pointer == None {
        var outcome;
        outcome, location := AskForNumber(Command(GET_WRITE_PTR, []), TheDevice().ptr);
        if !outcome.Returned? {
          fault := Some(CallFailed(outcome));
        }
      } else {
        location := pointer.value;
      }
    }

    /** The part of the loop's body that programs the chunk at the pointer. */
    method ProgramNext(blRev: nat, location: nat, ghost start: Rpc.Link, ghost t: Tally)
      returns (pointer: Option<nat>, fault: Option<Fault>, ghost t': Tally)
      requires Valid() && Kept(firmware.image, blRev, start, Link(), t) && start.device.Valid()
      requires if t.pointer == None then blRev >= 6 && location == TheDevice().ptr
               else location == t.pointer.value < |firmware.image|
      modifies connection, connection.protocol, `events
      ensures |t.news| <= |t'.news| && t'.news[..|t.news|] == t.news
      ensures Sent(firmware.image, location, old(TheLine())) == Went(pointer, t'.news[|t.news|..], TheLine())
      ensures Valid() && Kept(firmware.image, blRev, start, Link(), t')
      ensures fault == None && pointer == t'.pointer
      ensures t'.calls == t.calls + 1 && t'.timeouts == t.timeouts + (if pointer == None then 1 else 0)
      ensures pointer == None <==> Losses() < old(Losses())
      ensures events == old(events) + t'.news[|t.news|..]
      ensures || Losses() < old(Losses())
              || (Losses() == old(Losses())
                  && Distance(pointer, |firmware.image|) < Distance(t.pointer, |firmware.image|))
    {
      hide InStep, Device.Written, ChunkAt, Called;
      var chunk := ChunkAt(firmware.image, location);
      ChunkLength(firmware.image, location);
      ghost var before := Link();
      var outcome := ProgramBytes(chunk);
      t' := AfterProgram(t, location, chunk, |firmware.image|, outcome.Returned?);
      ProgramKeeps(firmware.image, blRev, start, before, Link(), t, location, outcome);
      fault := None;
      if outcome.Returned? {
        pointer := Some(location + |chunk|);
        events := events + [Progress(location + |chunk|, |firmware.image|)];
      } else if outcome == TimedOut {
        pointer := None;
      } else {
        fault := Some(CallFailed(outcome));
      }
    }

    /** The chip's serial number, a word at a time; the device sends each word in reverse. */
    method GetSerialNumber() returns (outcome: Outcome, serial: seq<byte>)
      requires Valid() && !TheDevice().exiting
      modifies connection, connection.protocol
      ensures (outcome, TheLine()) == Asked(old(TheLine()), SERIAL_COMMANDS)
      ensures Valid() && Unchanged(old(TheLine()), TheLine())
      ensures outcome.Returned? ==> serial == Device.SERIAL_NUMBER
      ensures outcome.Returned? || (outcome == TimedOut && Losses() + ATTEMPTS <= old(Losses()))
    {
      hide Device.Handle, Device.SerialWord, Device.Reversed, Called, OnlyAsks;
      serial, outcome := [], Returned([]);
      var address := 0;
      while address < 12
        invariant 0 <= address <= 12 && address % 4 == 0 && outcome == Returned([])
        invariant Valid() && Unchanged(old(TheLine()), TheLine())
        invariant Asked(TheLine(), SERIAL_COMMANDS[address / 4..]) == Asked(old(TheLine()), SERIAL_COMMANDS)
        invariant serial == Device.SERIAL_NUMBER[..address]
      {
        SerialWordReverses(TheDevice(), address);
        ghost var rest := SERIAL_COMMANDS[address / 4..];
        assert rest[0] == SerialCommand(address) && rest[1..] == SERIAL_COMMANDS[(address + 4) / 4..];
        outcome := Ask(Command(GET_SN, ToLe(address, 4)));
        if !outcome.Returned? {
          return;
        }
        serial := serial + Device.Reversed(outcome.value);
        address := address + 4;
        outcome := Returned([]);
      }
    }

    method AskForDeviceInfo(item: byte) returns (outcome: Outcome, value: nat)
      requires Valid() && 1 <= item <= 4 && !TheDevice().exiting
      modifies connection, connection.protocol
      ensures (outcome, TheLine()) == Called(old(TheLine()), DeviceInfo(item), 10)
      ensures value == if outcome.Returned? then FromLe(outcome.value) else 0
      ensures Valid() && Unchanged(old(TheLine()), TheLine())
      ensures outcome.Returned? ==> value == InfoOf(TheDevice(), item)
      ensures outcome.Returned? || (outcome == TimedOut && Losses() + ATTEMPTS <= old(Losses()))
    {
      hide Called;
      InfoAnswered(TheDevice(), item);
      outcome, value := AskForNumber(DeviceInfo(item), InfoOf(TheDevice(), item));
    }

    /** What the uploader asks before it changes anything. */
    method Examine() returns (fault: Option<Fault>, flashSize: nat, blRev: nat)
      requires Valid() && !TheDevice().exiting
      modifies connection, connection.protocol
      ensures Survey(fault, flashSize, blRev, TheLine()) == Examined(old(TheLine()))
      ensures Valid() && Unchanged(old(TheLine()), TheLine())
      ensures fault == None ==> flashSize == |TheDevice().flash| && blRev == TheDevice().revision >= 4
      ensures fault == Some(NotSupported) ==> TheDevice().revision < 4
      ensures fault == None || fault == Some(NotSupported)
              || (fault == Some(CallFailed(TimedOut)) && Losses() + ATTEMPTS <= old(Losses()))
    {
      hide Called, Asked, OnlyAsks;
      ExaminingKeeps(TheLine());
      var outcome;
      fault, blRev := None, 0;
      outcome, flashSize := AskForDeviceInfo(FLASH_SIZE);
      if outcome.Returned? {
        outcome, blRev := AskForDeviceInfo(BL_REV);
        if outcome.Returned? {
          if blRev < 4 {
            fault := Some(NotSupported);
            return;
          }
          ghost var line := TheLine();
          var boardId, boardRevision, serial;
          outcome, boardId := AskForDeviceInfo(BOARD_ID);
          BoardAsked(line);
          if outcome.Returned? {
            outcome, boardRevision := AskForDeviceInfo(BOARD_REV);
            if outcome.Returned? {
              outcome, serial := GetSerialNumber();
            }
          }
        }
      }
      if !outcome.Returned? {
        fault := Some(CallFailed(outcome));
      }
    }

    /** The checksum of the image padded with erased bytes, according to the size that the metadata gives. */
    method ExpectedCrc(flashSize: nat) returns (expected: bv32)
      ensures expected == Crc32(Padded(firmware, flashSize), 0)
    {
      var crc := ComputeCrc32(firmware.image);
      var padding := Fill(0xFF, PaddingLength(firmware.imageSize, flashSize));
      expected := ComputeCrc32(padding, crc);
      Crc32Concat(firmware.image, padding, 0);
    }

    method ObservedCrc() returns (outcome: Outcome, observed: nat)
      requires Valid() && !TheDevice().exiting
      modifies connection, connection.protocol
      ensures (outcome, TheLine()) == Called(old(TheLine()), Command(GET_CRC, []), 10)
      ensures outcome.Returned? ==> observed == FromLe(outcome.value) == Crc32(TheDevice().flash, 0) as int
      ensures Valid() && Unchanged(old(TheLine()), TheLine())
      ensures outcome.Returned? ==> connection.protocol.Snapshot() == Rpc.Ready
      ensures outcome.Returned? || (outcome == TimedOut && Losses() + ATTEMPTS <= old(Losses()))
    {
      hide Called, Crc32;
      CrcAsked(TheDevice());
      outcome, observed := AskForNumber(Command(GET_CRC, []), Crc32(TheDevice().flash, 0) as int);
    }

    /** Compares the checksums. */
    method Verify(flashSize: nat) returns (fault: Option<Fault>)
      requires Valid() && !TheDevice().exiting && flashSize == |TheDevice().flash|
      modifies connection, connection.protocol, `events
      ensures var r := Verified(firmware, flashSize, old(TheLine()));
              fault == r.fault && events == old(events) + r.news && TheLine() == r.line
      ensures Valid() && Unchanged(old(TheLine()), TheLine())
      ensures events == old(events) + [StepReached(Verifying)]
                        + (if fault == None then MismatchNotices(firmware, TheDevice().flash) else [])
      ensures var news := events[|old(events)|..];
              if fault == None then MismatchTold(news + [StepReached(Rebooting)], firmware, TheDevice().flash)
              else Early(news)
      ensures fault == None ==> connection.protocol.Snapshot() == Rpc.Ready
      ensures fault == None || (fault == Some(CallFailed(TimedOut)) && Losses() + ATTEMPTS <= old(Losses()))
    {
      hide Called, Crc32, Padded, MismatchTold, Early;
      VerifyingTells(firmware, flashSize, TheLine(), [StepReached(Rebooting)]);
      ghost var told := Verified(firmware, flashSize, TheLine()).news;
      NewNotices(events, told);
      fault := None;
      events := events + [StepReached(Verifying)];
      var expected := ExpectedCrc(flashSize);
      var outcome, observed := ObservedCrc();
      if outcome.Returned? {
        events := events + Compared(expected as int, observed);
      } else {
        fault := Some(CallFailed(outcome));
      }
    }

    /** The part of an upload before the write loop. */
    method Prepare() returns (fault: Option<Fault>, flashSize: nat, blRev: nat)
      requires Valid() && !TheDevice().exiting
      modifies connection, connection.protocol, `events
      ensures var (survey, news) := Prepared(old(TheLine()));
              Survey(fault, flashSize, blRev, TheLine()) == survey && events == old(events) + news
      ensures Valid() && Losses() <= old(Losses()) && Programs() == old(Programs())
      ensures fault == None ==>
                && TheDevice() == Erased(old(TheDevice())) && events == old(events) + BEFORE
                && flashSize == |TheDevice().flash| && blRev == TheDevice().revision >= 4
      ensures TheDevice() == Erased(old(TheDevice())) || TheDevice() == old(TheDevice())
      ensures fault == Some(NotSupported) ==> TheDevice().revision < 4 && TheDevice() == old(TheDevice())
      ensures fault == None || fault == Some(NotSupported)
              || (fault == Some(CallFailed(TimedOut)) && Losses() + ATTEMPTS <= old(Losses()))
    {
      hide Called, Examined, Device.Handle;
      fault, flashSize, blRev := Examine();
      if fault.Some? {
        return;
      }
      events := events + [StepReached(Erasing)];
      var outcome := EraseFlashMemory();
      if !outcome.Returned? {
        fault := Some(CallFailed(outcome));
        return;
      }
      events := events + [StepReached(Uploading)];
    }

    /**
     * The part of an upload after the write loop: its end is normal exactly when the checksum can be asked for and,
     * with the fates that the channel then has in store, the first reboot that arrives is confirmed.
     */
    method Finish(flashSize: nat) returns (fault: Option<Fault>)
      requires Valid() && !TheDevice().exiting && flashSize == |TheDevice().flash|
      modifies connection, connection.protocol, `events
      ensures var verified := Verified(firmware, flashSize, old(TheLine()));
              var r := Before(verified, Rebooted(verified.line));
              fault == r.fault && events == old(events) + r.news && TheLine() == r.line
      ensures var (outcome, line) := Called(old(TheLine()), Command(GET_CRC, []), 10);
              && (fault == None <==>
                    outcome.Returned? && Rpc.FirstArrival(line.link.fates, 10, true) == Some(Rpc.Delivered))
              && (TheDevice().exiting <==>
                    outcome.Returned? && Rpc.FirstArrival(line.link.fates, 10, true).Some?)
      ensures Valid() && Losses() <= old(Losses()) && Programs() == old(Programs())
      ensures TheDevice() == old(TheDevice()).(exiting := TheDevice().exiting)
      ensures TheDevice().exiting ==>
                events == old(events) + [StepReached(Verifying)] + MismatchNotices(firmware, TheDevice().flash)
                          + Ending(fault)
      ensures MismatchTold(events[|old(events)|..], firmware, TheDevice().flash)
      ensures fault == None || (fault == Some(CallFailed(TimedOut)) && old(Losses()) > 0)
      ensures !TheDevice().exiting ==> Losses() + ATTEMPTS <= old(Losses())
    {
      hide MismatchNotices, Called, Verified, OnlyAsks, Rpc.FirstArrival, Rpc.Lost, Rpc.AlwaysAnswered;
      hide MismatchTold, Early;
      VerifyingAsks(firmware, flashSize, TheLine());
      FinishTells(firmware, flashSize, TheLine());
      ghost var verified := Verified(firmware, flashSize, TheLine());
      NewNotices(events, Before(verified, Rebooted(verified.line)).news);
      fault := Verify(flashSize);
      if fault.Some? {
        return;
      }
      events := events + [StepReached(Rebooting)];
      var outcome := Reboot();
      if !outcome.Returned? {
        fault := Some(CallFailed(outcome));
        return;
      }
      events := events + [StepReached(Step.Finished)];
    }

    /** The part of an upload after the device has been erased. */
    method Transfer(flashSize: nat, blRev: nat) returns (fault: Option<Fault>, ghost tally: Tally)
      requires Valid() && !TheDevice().exiting && TheDevice() == Erased(TheDevice())
      requires flashSize == |TheDevice().flash| && blRev == TheDevice().revision >= 4
      modifies connection, connection.protocol, `events
      ensures var r := Transferred(firmware, flashSize, blRev, old(TheLine()));
              fault == r.fault && events == old(events) + r.news && TheLine() == r.line
      ensures Valid() && |TheDevice().flash| == flashSize && TheDevice().revision == blRev && Losses() <= old(Losses())
      ensures TheDevice().exiting ==>
                events == old(events) + tally.news + [StepReached(Verifying)]
                          + MismatchNotices(firmware, TheDevice().flash) + Ending(fault)
      ensures TheDevice().exiting && |firmware.image| <= |TheDevice().flash| ==>
                && Uploaded(firmware.image, TheDevice().flash, TheDevice().ptr, tally.news,
                            Programs() - old(Programs()), if blRev < 6 then 0 else old(Losses()) - Losses())
                && (MismatchNotices(firmware, TheDevice().flash) == [] <==> Unalarmed(firmware, |TheDevice().flash|))
      ensures TheDevice().exiting && (blRev < 6 || Losses() == old(Losses())) ==>
                TheDevice() == Device.Written(old(TheDevice()), firmware.image).(exiting := true)
      ensures MismatchTold(events[|old(events)|..], firmware, TheDevice().flash)
      ensures fault == Some(AcknowledgmentLost) ==> blRev < 6 && Losses() < old(Losses())
      ensures fault == None || fault == Some(AcknowledgmentLost) || fault == Some(CallFailed(TimedOut))
      ensures old(Losses()) < ATTEMPTS && blRev >= 6 ==> TheDevice().exiting
      ensures old(Losses()) == 0 ==> fault == None
    {
      hide InStep, Uploaded, MismatchNotices, Unalarmed, Rpc.Lost, Run, Device.Written, Called, Written;
      hide Verified, Rebooted, Erased, OnlyAsks, Rpc.AlwaysAnswered, Rpc.FirstArrival, Burnt, Rising, Chunks, Ending;
      hide MismatchTold, Early;
      ghost var start, before := Link(), events;
      assert start.device.Valid();
      OnlyProgress(firmware.image, blRev, Some(0), TheLine());
      fault, tally := WriteImage(blRev);
      NewNotices(before, tally.news);
      if fault.Some? {
        EarlyTells(tally.news, firmware, TheDevice().flash);
        return;
      }
      ghost var halfway := events;
      KeptToTheEnd(firmware, blRev, start, Link(), tally);
      ghost var written := Link();
      fault := Finish(flashSize);
      LaterNotices(before, tally.news, events[|halfway|..], firmware, TheDevice().flash);
      assert events == before + (tally.news + events[|halfway|..]);
      MoreLosses(firmware.image, written, tally.news, written.programs - start.programs,
                 Rpc.Lost(start.fates) - Rpc.Lost(written.fates),
                 if blRev < 6 then 0 else old(Losses()) - Losses());
    }

    /**
     * The whole upload, beginning with a device that listens in its bootloader. How it ends, what it reports and what
     * the device and the channel are like then are those of `WholeUpload`. In particular it ends normally exactly when
     * the device was asked to reboot and the first such command that arrived was confirmed; the device has rebooted
     * exactly when one arrived.
     *
     * If the image fits, the device is only ever rebooted with exactly the image and erased bytes behind it in its
     * memory, the write pointer behind the image, and progress reported up to the total; each chunk has been
     * transmitted, and beyond that at most one program command for each loss. A checksum mismatch is reported then
     * unless `Unalarmed` holds of the metadata. The size of the image is not checked: a larger one goes around.
     *
     * The upload survives losses: with a bootloader of revision 6, up to ten lost messages, wherever they happen,
     * cannot keep the image from being completed. Below revision 6 any loss in the write loop ends the upload.
     */
    method UploadFirmware() returns (fault: Option<Fault>, ghost tally: Tally)
      requires Valid() && !TheDevice().exiting
      modifies connection, connection.protocol, `events
      ensures var r := WholeUpload(firmware, old(TheLine()));
              fault == r.fault && events == old(events) + r.news && TheLine() == r.line
      ensures fault == None <==> Confirmed(firmware, old(TheLine()))
      ensures TheDevice().exiting <==> Left(firmware, old(TheLine()))
      ensures Valid() && |TheDevice().flash| == |old(TheDevice()).flash|
      ensures TheDevice().revision == old(TheDevice()).revision && Losses() <= old(Losses())
      ensures TheDevice().exiting ==>
                && TheDevice().revision >= 4
                && events == old(events) + BEFORE + tally.news + [StepReached(Verifying)]
                             + MismatchNotices(firmware, TheDevice().flash) + Ending(fault)
      ensures TheDevice().exiting && |firmware.image| <= |TheDevice().flash| ==>
                && Uploaded(firmware.image, TheDevice().flash, TheDevice().ptr, tally.news,
                            Programs() - old(Programs()),
                            if TheDevice().revision < 6 then 0 else old(Losses()) - Losses())
                && (MismatchNotices(firmware, TheDevice().flash) == [] <==> Unalarmed(firmware, |TheDevice().flash|))
      ensures TheDevice().exiting && (TheDevice().revision < 6 || Losses() == old(Losses())) ==>
                TheDevice() == Device.Written(Erased(old(TheDevice())), firmware.image).(exiting := true)
      ensures MismatchTold(events[|old(events)|..], firmware, TheDevice().flash)
      ensures var steps := StepsOf(events[|old(events)|..]);
              && steps <= [Erasing, Uploading, Verifying, Rebooting, Step.Finished]
              && (fault == None <==> |steps| == 5)
              && (steps == [] ==> TheDevice() == old(TheDevice()))
      ensures fault == Some(NotSupported) ==> TheDevice().revision < 4 && TheDevice() == old(TheDevice())
      ensures fault == Some(AcknowledgmentLost) ==> 4 <= TheDevice().revision < 6 && Losses() < old(Losses())
      ensures fault.None? || fault.value == NotSupported || fault.value == AcknowledgmentLost
              || fault.value == CallFailed(TimedOut)
      ensures old(Losses()) <= 10 && TheDevice().revision >= 6 ==> TheDevice().exiting
      ensures old(Losses()) == 0 && TheDevice().revision >= 4 ==> fault == None
    {
      hide InStep, Uploaded, MismatchNotices, Unalarmed, Rpc.Lost, Run, Device.Written, Called, Written, Prepared;
      hide Transferred, WholeUpload, Confirmed, Left, MismatchTold, Early, StepsOf;
      StepsInOrder(firmware, TheLine());
      NewNotices(events, WholeUpload(firmware, TheLine()).news);
      tally := Tally(Some(0), [], 0, 0);
      InParts(firmware, TheLine());
      EndIsDecided(firmware, TheLine());
      PreparingIsEarly(TheLine());
      ghost var before, first := events, Prepared(TheLine()).1;
      NewNotices(before, first);
      var flashSize, blRev;
      fault, flashSize, blRev := Prepare();
      if fault.Some? {
        EarlyTells(first, firmware, TheDevice().flash);
        return;
      }
      ghost var losses, halfway := Losses(), events;
      fault, tally := Transfer(flashSize, blRev);
      LaterNotices(before, first, events[|halfway|..], firmware, TheDevice().flash);
      assert events == before + (first + events[|halfway|..]);
      MoreLosses(firmware.image, Link(), tally.news, Programs() - old(Programs()),
                 if blRev < 6 then 0 else losses - Losses(), if blRev < 6 then 0 else old(Losses()) - Losses());
    }
  }
}
