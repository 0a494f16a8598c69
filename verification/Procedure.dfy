/**
 * Uploading a firmware image as a function of the parser and the channel: what is asked of the device, in which order,
 * and what is reported. The class in `Upload` refines it.
 */
module Procedure {
  import opened Bytes
  import opened Crc
  import opened Messages
  import opened Protocol
  import opened Connection
  import CallGuarantees
  import Device
  import Rpc

  datatype Firmware = Firmware(image: seq<byte>, imageSize: nat)

  datatype Step = Erasing | Uploading | Verifying | Rebooting | Finished

  datatype Notice =
    | StepReached(step: Step)
    | Progress(written: nat, total: nat)
    | CrcMismatch(expected: nat, observed: nat)

  /** Why an upload was given up. */
  datatype Fault =
    | NotSupported
    | AcknowledgmentLost
    | CallFailed(outcome: Outcome)

  const BEFORE := [StepReached(Erasing), StepReached(Uploading)]
  const AFTER := [StepReached(Rebooting), StepReached(Step.Finished)]

  /** A call makes one attempt and ten retries, except for programming. */
  const ATTEMPTS := 11

  // ---- the calls that an upload makes ----

  function DeviceInfo(item: byte): Command {
    Command(GET_DEVICE, [item])
  }

  const BL_REV: byte := 1
  const BOARD_ID: byte := 2
  const BOARD_REV: byte := 3
  const FLASH_SIZE: byte := 4

  /** A command whose handler only produces a reply. */
  ghost predicate OnlyAsks(command: Command) {
    && Rpc.AlwaysAnswered(command)
    && (command.op == GET_DEVICE || command.op == GET_SN || command.op == GET_CRC || command.op == GET_WRITE_PTR)
  }

  lemma AskingIsAnswered(d: Device.State, command: Command)
    requires d.Valid() && OnlyAsks(command)
    ensures Device.Handle(d, command).1 == d
    ensures Rpc.Expected(d, command) == Returned(Device.Handle(d, command).0.bytes)
  {
    hide Crc32, ToLe, Device.SerialWord, Device.Word4;
    Rpc.AnsweredInAnyState(d, command);
  }

  lemma {:induction false} RepeatingIsHarmless(d: Device.State, c: Command, k: nat)
    requires d.Valid() && k > 0
    requires var once := Device.Handle(d, c).1; once.Valid() && Device.Handle(once, c).1 == once
    ensures Rpc.Times(d, c, k) == Device.Handle(d, c).1
  {
    hide Device.Handle;
    Rpc.OnceOrNever(d, c);
    if k > 1 {
      RepeatingIsHarmless(d, c, k - 1);
    }
  }

  /** What a first and a second application of a repeatable command do. */
  lemma RepeatableEffect(op: OpCode, d: Device.State)
    requires (op == CHIP_ERASE || op == REBOOT) && d.Valid()
    ensures var c, after := Command(op, []), if op == CHIP_ERASE then Erased(d) else d.(exiting := true);
            && Rpc.AlwaysAnswered(c) && Device.WellFormed(c)
            && Rpc.Reaction(d, c) == Some(Response(Success, []))
            && after.Valid() && Device.Handle(d, c) == (Device.Payload([]), after)
            && Device.Handle(after, c) == (Device.Payload([]), after)
  {
  }

  function Erased(d: Device.State): Device.State {
    d.(flash := Fill(0xFF, |d.flash|), ptr := 0)
  }

  /** Erasing and rebooting may be repeated; a repetition changes nothing more. */
  lemma RepeatableCall(op: OpCode, m: Machine, retries: nat, link: Rpc.Link)
    requires op == CHIP_ERASE || op == REBOOT
    requires Rpc.Rested(m) && link.pending == [] && link.device.Valid() && !link.device.exiting
    ensures var (outcome, last, link') := Run(Command(op, []), Rpc.Channel, Call(m, false, retries, []), link);
            var after := if op == CHIP_ERASE then Erased(link.device) else link.device.(exiting := true);
            && link'.pending == [] && Rpc.Rested(last.m) && Rpc.Lost(link'.fates) <= Rpc.Lost(link.fates)
            && link'.programs == link.programs
            && (link'.device == link.device || link'.device == after)
            && (|| (outcome == Returned([]) && link'.device == after)
                || (outcome == TimedOut && Rpc.Lost(link.fates) > 0
                    && (link'.device.exiting || Rpc.Lost(link'.fates) + retries + 1 <= Rpc.Lost(link.fates))))
  {
    hide Run, Device.Handle, Device.WellFormed, Rpc.Times, Rpc.Reaction, Rpc.Lost, Rpc.AlwaysAnswered, Erased;
    var c, d := Command(op, []), link.device;
    RepeatableEffect(op, d);
    var k := Rpc.LossyCall(c, m, retries, link);
    Rpc.OnceOrNever(d, c);
    if k > 0 {
      RepeatingIsHarmless(d, c, k);
      AlwaysSucceeds(d, c, k - 1);
    }
  }

  /** The reaction to a repetition is the same, too. */
  lemma AlwaysSucceeds(d: Device.State, c: Command, k: nat)
    requires d.Valid() && (c == Command(CHIP_ERASE, []) || c == Command(REBOOT, []))
    ensures Rpc.Expected(Rpc.Times(d, c, k), c) == Returned([])
  {
    hide Rpc.Times;
    RepeatableEffect(c.op, Rpc.Times(d, c, k));
  }

  // ---- one call ----

  /** A connection as a value: the parser, and the channel with the device at its other end. */
  datatype Line = Line(m: Machine, link: Rpc.Link)

  /** A call can be made. */
  ghost predicate Usable(line: Line) {
    line.m.Valid() && !line.m.closed
  }

  /** Between two calls nothing is on its way, and the parser holds nothing. */
  ghost predicate Quiet(line: Line) {
    && Rpc.Rested(line.m) && line.link.pending == []
    && line.link.device.Valid()
  }

  /** The device listens besides. */
  ghost predicate Listening(line: Line) {
    Quiet(line) && !line.link.device.exiting
  }

  function Called(line: Line, command: Command, retries: nat): (r: (Outcome, Line))
    requires Usable(line)
    ensures Usable(r.1)
  {
    CallGuarantees.NeverInvalid(command, Rpc.Channel, line.m, retries, line.link);
    var (outcome, last, link) := Run(command, Rpc.Channel, Call(line.m, false, retries, []), line.link);
    (outcome, Line(last.m, link))
  }

  /** Losses that the channel still has in store. */
  function Losses(line: Line): nat {
    Rpc.Lost(line.link.fates)
  }

  /** The device and the number of programming commands are as before. */
  ghost predicate Unchanged(line: Line, line': Line) {
    && line'.link.device == line.link.device && line'.link.programs == line.link.programs
    && Losses(line') <= Losses(line)
  }

  /** Asking leaves everything as it is; it is answered truly, or takes a loss for every attempt. */
  lemma AskingKeeps(line: Line, command: Command)
    requires Listening(line) && OnlyAsks(command)
    ensures var (outcome, line') := Called(line, command, 10);
            && Listening(line') && Unchanged(line, line')
            && (|| (outcome == Returned(Device.Handle(line.link.device, command).0.bytes) && line'.m == Rpc.Ready)
                || (outcome == TimedOut && Losses(line') + ATTEMPTS <= Losses(line)))
  {
    hide Run, Device.Handle, Rpc.Lost;
    AskingIsAnswered(line.link.device, command);
    Rpc.AskingTwiceIsHarmless(command, line.m, 10, line.link);
  }

  lemma ErasingKeeps(line: Line)
    requires Listening(line)
    ensures var (outcome, line') := Called(line, Command(CHIP_ERASE, []), 10);
            && Listening(line') && Losses(line') <= Losses(line) && line'.link.programs == line.link.programs
            && (|| (outcome == Returned([]) && line'.link.device == Erased(line.link.device))
                || (outcome == TimedOut && Losses(line') + ATTEMPTS <= Losses(line)
                    && (line'.link.device == Erased(line.link.device) || line'.link.device == line.link.device)))
  {
    hide Run, Device.Handle, Rpc.Lost;
    RepeatableCall(CHIP_ERASE, line.m, 10, line.link);
  }

  /** Programming happens once, or a loss is reported as a timeout. */
  lemma ProgrammingKeeps(line: Line, data: seq<byte>)
    requires Listening(line) && |data| <= PROG_MULTI_MAX_PAYLOAD_LENGTH
    ensures var (outcome, line') := Called(line, Command(PROG_MULTI, data), 0);
            && Listening(line') && Rpc.Programmed(data, line.link, outcome, line'.link)
  {
    hide Run, Device.Handle, Rpc.Lost, Device.Written;
    Device.WrittenValid(line.link.device, data);
    Rpc.ProgrammingHappensAtMostOnce(data, line.m, line.link);
  }

  // ---- what is asked first ----

  function SerialCommand(address: nat): Command {
    Command(GET_SN, ToLe(address, 4))
  }

  ghost predicate AllAsk(commands: seq<Command>) {
    forall c :: c in commands ==> OnlyAsks(c)
  }

  /** One question after the other, until one is not answered. */
  function Asked(line: Line, commands: seq<Command>): (r: (Outcome, Line))
    requires Usable(line)
    ensures Usable(r.1)
    decreases |commands|
  {
    if commands == [] then (Returned([]), line)
    else
      var (outcome, line') := Called(line, commands[0], 10);
      if outcome.Returned? then Asked(line', commands[1..]) else (outcome, line')
  }

  const SERIAL_COMMANDS := [SerialCommand(0), SerialCommand(4), SerialCommand(8)]
  const BOARD_COMMANDS := [DeviceInfo(BOARD_ID), DeviceInfo(BOARD_REV)]

  lemma SerialAsked(d: Device.State, address: nat)
    requires d.Valid() && address < 0x1_0000_0000
    ensures OnlyAsks(Command(GET_SN, ToLe(address, 4)))
    ensures Device.Handle(d, Command(GET_SN, ToLe(address, 4))).0 == Device.Payload(Device.SerialWord(address))
  {
    hide Device.SerialWord;
    Capacities();
    FromToLe(address, 4);
  }

  /** What is known about the device before anything is changed. */
  datatype Survey = Survey(fault: Option<Fault>, flashSize: nat, blRev: nat, line: Line)

  function InfoOf(d: Device.State, item: byte): nat {
    if item == BL_REV then d.revision else if item == BOARD_ID then 9 else if item == BOARD_REV then 0 else |d.flash|
  }

  /** What the device answers is what it is. */
  lemma InfoAnswered(d: Device.State, item: byte)
    requires d.Valid() && 1 <= item <= 4
    ensures OnlyAsks(DeviceInfo(item))
    ensures Device.Handle(d, DeviceInfo(item)).0 == Device.Payload(ToLe(InfoOf(d, item), 4))
    ensures FromLe(ToLe(InfoOf(d, item), 4)) == InfoOf(d, item)
  {
    hide ToLe, FromLe;
    Capacities();
    FromToLe(InfoOf(d, item), 4);
  }

  lemma {:induction false} AskedKeeps(line: Line, commands: seq<Command>)
    requires Listening(line) && AllAsk(commands)
    ensures var (outcome, line') := Asked(line, commands);
            && Listening(line') && Unchanged(line, line')
            && (outcome.Returned? || (outcome == TimedOut && Losses(line') + ATTEMPTS <= Losses(line)))
    decreases |commands|
  {
    hide Called, OnlyAsks, Device.Handle, Rpc.Lost;
    if commands != [] {
      AskingKeeps(line, commands[0]);
      var (outcome, line') := Called(line, commands[0], 10);
      if outcome.Returned? {
        AskedKeeps(line', commands[1..]);
      }
    }
  }

  lemma BoardIsAsked(d: Device.State)
    requires d.Valid()
    ensures AllAsk(BOARD_COMMANDS + SERIAL_COMMANDS)
  {
    hide OnlyAsks, Device.Handle, Device.SerialWord;
    InfoAnswered(d, BOARD_ID);
    InfoAnswered(d, BOARD_REV);
    SerialAsked(d, 0);
    SerialAsked(d, 4);
    SerialAsked(d, 8);
  }

  function Examined(line: Line): (r: Survey)
    requires Usable(line)
    ensures Usable(r.line)
  {
    var (size, line1) := Called(line, DeviceInfo(FLASH_SIZE), 10);
    if !size.Returned? then Survey(Some(CallFailed(size)), 0, 0, line1)
    else
      var (revision, line2) := Called(line1, DeviceInfo(BL_REV), 10);
      if !revision.Returned? then Survey(Some(CallFailed(revision)), FromLe(size.value), 0, line2)
      else if FromLe(revision.value) < 4 then
        Survey(Some(NotSupported), FromLe(size.value), FromLe(revision.value), line2)
      else
        var (last, line3) := Asked(line2, BOARD_COMMANDS + SERIAL_COMMANDS);
        var fault := if last.Returned? then None else Some(CallFailed(last));
        Survey(fault, FromLe(size.value), FromLe(revision.value), line3)
  }

  /** Asking changes nothing, the size and the revision are true, and old bootloaders are refused. */
  lemma ExaminingKeeps(line: Line)
    requires Listening(line)
    ensures var r := Examined(line);
            && Listening(r.line) && Unchanged(line, r.line)
            && (r.fault == None ==>
                  r.flashSize == |line.link.device.flash| && r.blRev == line.link.device.revision >= 4)
            && (r.fault == Some(NotSupported) ==> line.link.device.revision < 4)
            && (r.fault == None || r.fault == Some(NotSupported)
                || (r.fault == Some(CallFailed(TimedOut)) && Losses(r.line) + ATTEMPTS <= Losses(line)))
  {
    hide Called, OnlyAsks, Device.Handle, ToLe, FromLe, Asked, AllAsk, Rpc.Lost;
    var d := line.link.device;
    InfoAnswered(d, FLASH_SIZE);
    InfoAnswered(d, BL_REV);
    BoardIsAsked(d);
    AskingKeeps(line, DeviceInfo(FLASH_SIZE));
    var (size, line1) := Called(line, DeviceInfo(FLASH_SIZE), 10);
    if size.Returned? {
      AskingKeeps(line1, DeviceInfo(BL_REV));
      var (revision, line2) := Called(line1, DeviceInfo(BL_REV), 10);
      if revision.Returned? && FromLe(revision.value) >= 4 {
        AskedKeeps(line2, BOARD_COMMANDS + SERIAL_COMMANDS);
      }
    }
  }

  /** The part of an upload before the write loop, and what it reports. */
  function Prepared(line: Line): (r: (Survey, seq<Notice>))
    requires Usable(line)
    ensures Usable(r.0.line)
  {
    var survey := Examined(line);
    if survey.fault.Some? then (survey, [])
    else
      var (outcome, line') := Called(survey.line, Command(CHIP_ERASE, []), 10);
      if outcome.Returned? then (survey.(line := line'), BEFORE)
      else (survey.(fault := Some(CallFailed(outcome)), line := line'), [StepReached(Erasing)])
  }

  /** Afterwards the memory is erased; if that cannot be told, it may be. */
  lemma PreparingKeeps(line: Line)
    requires Listening(line)
    ensures var (r, news) := Prepared(line);
            var d, d' := line.link.device, r.line.link.device;
            && Listening(r.line) && Losses(r.line) <= Losses(line) && r.line.link.programs == line.link.programs
            && (d' == d || d' == Erased(d))
            && (r.fault == None ==>
                  d' == Erased(d) && news == BEFORE && r.flashSize == |d.flash| && r.blRev == d.revision >= 4)
            && (r.fault == Some(NotSupported) ==> d.revision < 4 && d' == d)
            && (r.fault == None || r.fault == Some(NotSupported)
                || (r.fault == Some(CallFailed(TimedOut)) && Losses(r.line) + ATTEMPTS <= Losses(line)))
  {
    hide Called, Examined, Rpc.Lost, Erased;
    ExaminingKeeps(line);
    var survey := Examined(line);
    if survey.fault == None {
      ErasingKeeps(survey.line);
    }
  }

  // ---- the write loop ----

  function ChunkAt(image: seq<byte>, pointer: nat): (chunk: seq<byte>)
    ensures |chunk| <= PROG_MULTI_MAX_PAYLOAD_LENGTH
  {
    if pointer >= |image| then []
    else if pointer + PROG_MULTI_MAX_PAYLOAD_LENGTH >= |image| then image[pointer..]
    else image[pointer..pointer + PROG_MULTI_MAX_PAYLOAD_LENGTH]
  }

  lemma ChunkLength(image: seq<byte>, pointer: nat)
    ensures pointer >= |image| ==> ChunkAt(image, pointer) == []
    ensures pointer < |image| ==>
              var end := if pointer + PROG_MULTI_MAX_PAYLOAD_LENGTH >= |image| then |image|
                         else pointer + PROG_MULTI_MAX_PAYLOAD_LENGTH;
              ChunkAt(image, pointer) == image[pointer..end]
    ensures pointer + 252 <= |image| ==> |ChunkAt(image, pointer)| == 252
  {
  }

  /** What one turn of the write loop leads to. */
  datatype Turned =
    | Stopped(fault: Fault, line: Line)
    | Went(pointer: Option<nat>, news: seq<Notice>, line: Line)

  /** Finds out where to go on, if that is not known. */
  function Located(pointer: Option<nat>, line: Line): (r: (Outcome, nat, Line))
    requires Usable(line)
    ensures Usable(r.2)
  {
    match pointer
    case Some(p) => (Returned([]), p, line)
    case None =>
      var (outcome, line') := Called(line, Command(GET_WRITE_PTR, []), 10);
      (outcome, if outcome.Returned? then FromLe(outcome.value) else 0, line')
  }

  function Sent(image: seq<byte>, location: nat, line: Line): (r: Turned)
    requires Usable(line)
    ensures Usable(r.line)
  {
    var chunk := ChunkAt(image, location);
    var (outcome, line') := Called(line, Command(PROG_MULTI, chunk), 0);
    match outcome
    case Returned(_) => Went(Some(location + |chunk|), [Progress(location + |chunk|, |image|)], line')
    case TimedOut => Went(None, [], line')
    case _ => Stopped(CallFailed(outcome), line')
  }

  /** One turn. Bootloaders before revision 6 cannot be asked for the pointer. */
  function WriteTurn(image: seq<byte>, blRev: nat, pointer: Option<nat>, line: Line): (r: Turned)
    requires Usable(line)
    ensures Usable(r.line)
  {
    if pointer == None && blRev < 6 then Stopped(AcknowledgmentLost, line)
    else
      var (outcome, location, line') := Located(pointer, line);
      if outcome.Returned? then Sent(image, location, line') else Stopped(CallFailed(outcome), line')
  }

  function Distance(pointer: Option<nat>, total: nat): nat {
    if pointer == None then total + 1 else if pointer.value < total then total - pointer.value else 0
  }

  predicate Done(image: seq<byte>, pointer: Option<nat>) {
    pointer.Some? && pointer.value >= |image|
  }

  /** A turn that does not stop the loop either gets further or uses up a loss. */
  lemma TurnProgress(image: seq<byte>, blRev: nat, pointer: Option<nat>, line: Line)
    requires Listening(line) && !Done(image, pointer)
    ensures var turn := WriteTurn(image, blRev, pointer, line);
            && Listening(turn.line) && Losses(turn.line) <= Losses(line)
            && (turn.Went? ==> Losses(turn.line) < Losses(line)
                               || Distance(turn.pointer, |image|) < Distance(pointer, |image|))
  {
    hide Called, Device.Handle, Device.Written, ChunkAt, Rpc.Lost, OnlyAsks;
    if pointer == None && blRev < 6 {
      return;
    }
    PointerIsAsked();
    if pointer == None {
      AskingKeeps(line, Command(GET_WRITE_PTR, []));
    }
    var (outcome, location, line') := Located(pointer, line);
    if outcome.Returned? {
      ProgrammingKeeps(line', ChunkAt(image, location));
      ChunkLength(image, location);
    }
  }

  lemma PointerIsAsked()
    ensures OnlyAsks(Command(GET_WRITE_PTR, []))
  {
  }

  /** A part of an upload: how it ended, what it has reported, and what the connection is like then. */
  datatype Report = Report(fault: Option<Fault>, news: seq<Notice>, line: Line)

  /** The write loop, from a pointer that may be unknown. */
  function Written(image: seq<byte>, blRev: nat, pointer: Option<nat>, line: Line): (r: Report)
    requires Listening(line)
    ensures Listening(r.line)
    decreases Losses(line), Distance(pointer, |image|)
  {
    if Done(image, pointer) then Report(None, [], line)
    else
      TurnProgress(image, blRev, pointer, line);
      match WriteTurn(image, blRev, pointer, line)
      case Stopped(fault, line') => Report(Some(fault), [], line')
      case Went(pointer', news, line') =>
        var rest := Written(image, blRev, pointer', line');
        rest.(news := news + rest.news)
  }

  // ---- the whole upload ----

  /** Erased bytes behind an image of the given size. */
  function PaddingLength(size: nat, flashSize: nat): nat {
    if flashSize > size then flashSize - size else 0
  }

  /** The image with erased bytes behind it, as many as the metadata leaves room for. */
  function Padded(firmware: Firmware, flashSize: nat): seq<byte> {
    firmware.image + Fill(0xFF, PaddingLength(firmware.imageSize, flashSize))
  }

  function Compared(expected: nat, observed: nat): seq<Notice> {
    if expected != observed then [CrcMismatch(expected, observed)] else []
  }

  /** A mismatch is reported exactly when the checksums differ. */
  function MismatchNotices(firmware: Firmware, flash: seq<byte>): seq<Notice> {
    Compared(Crc32(Padded(firmware, |flash|), 0) as int, Crc32(flash, 0) as int)
  }

  /** The checksums are compared; a mismatch is reported, and the upload goes on. */
  function Verified(firmware: Firmware, flashSize: nat, line: Line): (r: Report)
    requires Usable(line)
    ensures Usable(r.line)
  {
    var (outcome, line') := Called(line, Command(GET_CRC, []), 10);
    if !outcome.Returned? then Report(Some(CallFailed(outcome)), [StepReached(Verifying)], line')
    else
      var expected := Crc32(Padded(firmware, flashSize), 0) as int;
      Report(None, [StepReached(Verifying)] + Compared(expected, FromLe(outcome.value)), line')
  }

  function Rebooted(line: Line): (r: Report)
    requires Usable(line)
    ensures Usable(r.line)
  {
    var (outcome, line') := Called(line, Command(REBOOT, []), 10);
    if outcome.Returned? then Report(None, AFTER, line')
    else Report(Some(CallFailed(outcome)), [StepReached(Rebooting)], line')
  }

  /** One part after another, unless the first fails. */
  function Before(report: Report, next: Report): Report {
    if report.fault.Some? then report else next.(news := report.news + next.news)
  }

  /** The whole upload, except for the reboot. */
  function UpToReboot(firmware: Firmware, line: Line): (r: Report)
    requires Listening(line)
    ensures Usable(r.line)
  {
    PreparingKeeps(line);
    var (survey, news) := Prepared(line);
    if survey.fault.Some? then Report(survey.fault, news, survey.line)
    else
      var written := Written(firmware.image, survey.blRev, Some(0), survey.line);
      var report := written.(news := news + written.news);
      Before(report, Verified(firmware, survey.flashSize, written.line))
  }

  function WholeUpload(firmware: Firmware, line: Line): (r: Report)
    requires Listening(line)
    ensures Usable(r.line)
  {
    var report := UpToReboot(firmware, line);
    Before(report, Rebooted(report.line))
  }
}
