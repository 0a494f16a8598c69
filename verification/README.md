# A verified model of the ArduPilot / PX4 firmware uploader

The uploader writes a firmware image into a device through the device's bootloader. It consists of a
parser that performs no input or output (`Protocol`), a remote call that obtains synchronization, sends a
command and retries (`BootloaderConnection`), and an upload procedure whose write loop recovers from lost
acknowledgments (`Uploader`). The repository also has the other end, a mock bootloader with a command parser
and a flash memory, and a MAVLink encoder and parser. This project models all of these in Dafny and proves
what they promise, up to one statement about the whole: if the image fits, a device is only rebooted with exactly
the image in its memory, whatever the channel in between loses.

## The files

| file | contents |
|---|---|
| `Arithmetic.dfy`, `Bytes.dfy` | facts about division and primes; bytes, little-endian numbers, streams cut into chunks |
| `Protocol.dfy` | opcodes, commands, responses; the parser as a snapshot with operations, and as a class that refines it |
| `Conservation.dfy` | every byte fed to the parser has exactly one fate |
| `Segmentation.dfy` | the parser refines an automaton that sees one byte at a time; stale acknowledgments |
| `Connection.dfy` | the remote call against an arbitrary peer: a terminating function, and the loop that refines it |
| `CallGuarantees.dfy` | bounded traffic, sound answers, unreachable errors |
| `CallOutcomes.dfy` | which error a call reports and what each failure costs, by the log of what was sent and received |
| `Crc.dfy`, `X25.dfy` | shift registers for any word type; CRC-32 by table, CRC-16/MCRF4XX by formula |
| `CrcPeriod.dfy` | the register of CRC-32 has the full period 2^32 - 1, and what the checksum therefore cannot see |
| `Device.dfy`, `MockBootloader.dfy` | the bootloader's commands, ring memory and command parser; the class that refines them |
| `Rpc.dfy` | a call composed with the device over a channel that keeps order, cuts bytes into pieces and loses messages |
| `Resync.dfy` | the same call when one stale acknowledgment is still on its way, on a channel without losses |
| `Procedure.dfy` | the whole upload as a function of the parser and the channel |
| `Upload.dfy` | the class that refines it, and what an upload guarantees, end to end |
| `LateAck.dfy` | what one late acknowledgment can do to an upload |
| `Mavlink.dfy`, `MavlinkCodec.dfy` | packets, streams of packets, and the class that encodes and parses them |
| `KnownAnswers.dfy` | literal packets, checksums and exchanges from the source and its tests, which fix the constants |

An object whose methods update its fields is a class here as well. Each of its methods is proved equal to an
operation on values, and the properties are proved about those operations. The peer of a connection is a pair
of functions over a private state of any type, so a statement for every peer covers every behaviour that
depends on the history. Real time appears as outcomes: a receive operation may be `Late`, and the mock's input
contains pauses that are long enough for a time limit to pass.

## Findings

* One stale acknowledgment can make GET_WRITE_PTR return a wrong pointer, although the loop is there to notice
  it: every piece of excess data makes the loop send another GET_SYNC, and the acknowledgments of those can pile up
  until two of them are read as the pointer 0x10121012. With the ten retries of the source this happens behind the
  first chunk already, at pointer 252, if the bytes arrive in unfortunate pieces (`Resync.FirstChunkIsMisled`).
  - Exactly: for every pointer there is a number of retries below which no way of cutting the bytes misleads the
    call, and from which on some way does, or there is none at all (`Resync.Threshold`, `Resync.RetriesDecide`). It
    is 5 for most pointers, up to 7 for those with more bytes 0x12, and at most 3 if one half is 0x1012; four
    retries are safe for all others (`Resync.FewRetriesAreSafe`).
  - If pending bytes always arrive in one piece, a call out of sync with one retry or more returns exactly the
    device's pointer (`Resync.WholePiecesRecover`).
  - The parser's first event is excess data exactly unless the upper half spells a marker and an accepted code
    (`Segmentation.StaleAckIsNoticed`, `Segmentation.StaleAckCanFool`); that alone does not make the call safe.
  - An upload can be ruined by it: after one acknowledgment of PROG_MULTI that is late, the write loop stops at
    0x10121012, the pointer is taken for the checksum, and the device is rebooted with the memory as it was. At most
    a mismatch is reported (`LateAck.OneLateAcknowledgment`).
* A receive operation that times out costs two retries instead of one if the parser had received a whole value but
  not the marker behind it: resetting the parser keeps the value, which is excess data for the next turn. So a call
  that was last silent can report excess data instead of a timeout; and if it gave up, the next call without retries
  fails with nothing sent. Exactly that case differs (`CallOutcomes.SilenceCosts`, `CallOutcomes.SilenceAsExcess`,
  `CallOutcomes.LeftoverFailsNextCall`).
* A command to the mock that is cut short by a pause is refused, but arguments that have arrived stay in its buffer,
  where they may be taken for commands later (`Device.LateRestIsRefused`).
* A GET_CHIP call to the mock always times out, because the mock's reply is shorter than `response_length` says.
  The same holds for an error reply to any command with a non-empty response (`Rpc.ReliableCall`).
* When the acknowledgment of REBOOT is lost, the upload reports a timeout although the device has rebooted
  with the complete image, and no number of retries helps. Exactly: REBOOT succeeds if and only if the first of its
  transmissions that reaches the device has its reply delivered (`Rpc.RebootIsConfirmed`, for whole uploads
  `Upload.EndIsDecided`).
* The size of the image is not checked. One that is larger than the memory goes around and is reported as uploaded;
  if nothing is lost, what it leaves is one ring write from the start of the erased memory
  (`Upload.Uploader.UploadFirmware`).
* When the metadata's `image_size` leaves another padding than the image does, a correct upload is reported as a
  checksum mismatch (`Upload.WrongSizeRaisesFalseAlarm`). Exactly: unless the paddings differ by a multiple of
  2^32 - 1 bytes (none included), or the checksum before the difference is 0xB6D0FDC0, the one value that erased
  bytes leave alone (`Upload.AlarmExactly`). That there is no other case rests on the register of CRC-32 passing
  through all non-zero values before one of them returns (`CrcPeriod.ReturnsExactly`).
* The comments in `looks_like_mavlink_heartbeat_from_autopilot` (src/ap_uploader/utils.py:211, 216) speak of the
  system ID; the code looks at the component ID, and so does the model (`Mavlink.HeartbeatsAreRecognized`).
* The two "cannot happen" errors of the call (src/ap_uploader/connection.py:302, 357) are never raised
  (`CallGuarantees.NeverInvalid`), nor is the length error of the MAVLink decoder
  (`MavlinkCodec.MAVLink.Decode`).

## Model

| member | source | states |
|---|---|---|
| Messages.OpCodeOf | src/ap_uploader/protocol.py:32-62 | a byte is looked up to exactly the opcode with that number, and to none otherwise |
| Protocol.AcceptedCode | src/ap_uploader/protocol.py:520-530 | exactly OK, FAILED and INVALID are accepted after a marker; BAD_SILICON_REV is not |
| Protocol.NextValid | src/ap_uploader/protocol.py:467-533 | asking for an event keeps: waiting states have bytes to expect, and a payload is held only while the marker is awaited or after the command was abandoned |
| Protocol.OthersValid | src/ap_uploader/protocol.py:445-568 | feeding, resetting, sending and a failed send keep the same |
| Protocol.Protocol.constructor | src/ap_uploader/protocol.py:421-443 | a new parser is idle and holds nothing |
| Protocol.Protocol.Feed | src/ap_uploader/protocol.py:445-458 | bytes are appended, no bytes close the receiver, and a closed receiver refuses bytes |
| Protocol.Protocol.NextEvent | src/ap_uploader/protocol.py:467-533 | the method's event and new fields are those of the operation on snapshots |
| Protocol.Protocol.Reset | src/ap_uploader/protocol.py:535-539 | the buffer is dropped and the receiver reopened, while the payload stays |
| Protocol.Protocol.Send | src/ap_uploader/protocol.py:541-561 | out of sync only GET_SYNC is sent; a refused command changes nothing |
| Protocol.Protocol.SendFailed | src/ap_uploader/protocol.py:563-573 | the error state, everything else unchanged |
| Protocol.Protocol.PurgeExcessData | src/ap_uploader/protocol.py:580-591 | the payload and the first bytes become excess data, or it is the caller's turn |
| Protocol.Protocol.StartWaitingForResponse | src/ap_uploader/protocol.py:593-607 | a length prefix, nothing, or a body is awaited; a length of zero leaves the payload alone |
| Conservation.NextConserves | src/ap_uploader/protocol.py:467-533 | held bytes are the length prefix taken, then the event's bytes (with the marker), then what is still held |
| Conservation.NextShrinks | src/ap_uploader/protocol.py:467-533 | every reply and every piece of excess data takes bytes away, so asking until quiet ends |
| Conservation.OurTurnMeansEmpty | src/ap_uploader/protocol.py:467-533 | when it is the caller's turn, buffer and payload are empty |
| Conservation.EveryByteAccountedFor | src/ap_uploader/protocol.py:445-607 | over every sequence of operations each fed byte has one fate (held, dropped by a reset, length prefix, in one event), in order |
| Conservation.EveryByteAccountedForFromFresh | src/ap_uploader/protocol.py:441-607 | the same from a new parser |
| Conservation.FatesAreFinal | src/ap_uploader/protocol.py:445-607 | a byte that has left the parser keeps its fate, and events are never taken back |
| Conservation.ClosedIsReported | src/ap_uploader/protocol.py:475-477 | a parser reports that the connection is closed if and only if it is and nothing is buffered, and changes nothing |
| Conservation.ClosingIsNotNoticed | src/ap_uploader/protocol.py:467-533 | as long as something is buffered, events do not depend on whether the connection is closed |
| Conservation.ClosedByLast | src/ap_uploader/protocol.py:445-458 | after any sequence of operations the input is closed if and only if the last feed of no bytes came after the last reset |
| Conservation.ClosedUntilReset | src/ap_uploader/protocol.py:445-477 | once it is closed and the buffer is consumed, every event is that, and no byte is accepted, over every sequence without a reset |
| Conservation.OpenAfterReset | src/ap_uploader/protocol.py:535-539 | a reset ends this: over every sequence without a feed of no bytes it is not reported again |
| Conservation.CommandsNeedReplies | src/ap_uploader/protocol.py:541-568 | after any sequence of operations a command other than GET_SYNC is refused if and only if no reply has been reported since the last successful send, failed send or reset |
| Segmentation.NextRefines | src/ap_uploader/protocol.py:467-533 | each event is the next part of the byte-wise automaton's output, and quiet means that there is none left |
| Segmentation.FeedAllRefines | src/ap_uploader/protocol.py:445-533 | feeding chunks and draining outputs what the automaton outputs for their concatenation |
| Segmentation.SegmentationIndependence | src/ap_uploader/protocol.py:445-533 | two ways of cutting a stream give the same trace up to joining neighbouring excess data |
| Segmentation.ReadyAfterSending | src/ap_uploader/protocol.py:541-561 | just after a send with nothing held, the parser starts as the automaton does |
| Segmentation.FrameIsAnswer | src/ap_uploader/protocol.py:268-289 | the frame of every value, with its length prefix where there is one, is read back as exactly that value |
| Segmentation.StaleAckIsNoticed | src/ap_uploader/protocol.py:490-530 | after a stale acknowledgment before a GET_WRITE_PTR reply, the parser's first event is excess data if and only if the pointer's upper half does not look like a marker; always below 0x10120000 |
| Segmentation.StaleAckCanFool | src/ap_uploader/protocol.py:490-530 | the pointer 0x10120000 after a stale acknowledgment is read as a wrong answer |
| Connection.IterateProgress | src/ap_uploader/connection.py:291-357 | every turn of the loop keeps its invariant, comes closer to the end, and raises neither "invalid state" nor "unexpected event" |
| Connection.BootloaderConnection.constructor | src/ap_uploader/connection.py:61-72 | a connection starts with a new parser |
| Connection.BootloaderConnection.ProcessCommandInner | src/ap_uploader/connection.py:279-357 | the loop ends for every peer, with the outcome, traffic and state of the recursive specification |
| Connection.BootloaderConnection.SendNext | src/ap_uploader/connection.py:294-316 | synchronize when necessary, otherwise send the command once; a failed send costs a retry |
| Connection.BootloaderConnection.ReceiveMore | src/ap_uploader/connection.py:318-337 | a timeout resets the parser and costs a retry; received bytes are fed |
| CallGuarantees.TransmissionBound | src/ap_uploader/connection.py:286-316 | with r retries the command and GET_SYNC are each transmitted at most r + 1 times against every peer; with none, once |
| CallGuarantees.ReceiveBound | src/ap_uploader/connection.py:318-337 | from every valid start, with replies of a fixed length n, the transport is asked at most (r + 1)(n + 4) times, even under constant garbage, plus what an earlier reply may still have if the parser is left waiting for one |
| CallGuarantees.AnswerSoundness | src/ap_uploader/connection.py:291-345 | a returned value has the announced length, and the bytes received since the last transmission of the command begin with its frame |
| CallGuarantees.NeverInvalid | src/ap_uploader/connection.py:294-357 | the two internal errors never happen, and a call leaves the parser waiting only if the transport broke |
| CallOutcomes.LogIsTrue | src/ap_uploader/connection.py:291-337 | what is logged is what the peer really did, and nothing but encoded GET_SYNC and command is sent |
| CallOutcomes.ErrorsAreGenuine | src/ap_uploader/connection.py:305-337 | for every peer, a call ends with the error of sending if and only if its last interaction was a failed send, and with the transport's if and only if that broke; a timeout is reported only after a silent receive operation, and after one nothing else but excess data |
| CallOutcomes.RefusalsAreReceived | src/ap_uploader/connection.py:339-345 | a refusal's code has been received right behind a marker since the last transmission; arguments are too long only if they cannot be encoded |
| CallOutcomes.TooLongIsNotSent | src/ap_uploader/connection.py:304 | in sync, a command with too long arguments fails with nothing sent and nothing changed |
| CallOutcomes.SilenceCosts | src/ap_uploader/connection.py:329-335 | what one silent receive operation costs: a retry, two if the parser holds a whole value without its marker; with one retry left that ends the call with excess data |
| CallOutcomes.SilenceAsExcess | src/ap_uploader/connection.py:329-354 | an instance: GET_WRITE_PTR with one retry, four bytes and then silence, ends with excess data |
| CallOutcomes.LeftoverFailsNextCall | src/ap_uploader/connection.py:347-354 | a value left over by a call makes the next one without retries fail at once, with nothing sent |
| CallOutcomes.FailuresArePaid | src/ap_uploader/connection.py:305-354 | failed sends and silent receive operations together never exceed the retries by more than the one that ends the call, and a call only gives up when no retry is left |
| CallOutcomes.FirstFailureEnds | src/ap_uploader/connection.py:308-335 | without retries the first failed send ends the call with its error, and the first silence with a timeout |
| ShiftRegister.SerialIsSteps | src/ap_uploader/utils.py:126-133 | as many bits as the register has may be mixed in at once instead of one by one |
| ShiftRegister.BurstsAreDetected | src/ap_uploader/utils.py:126-133 | for every lawful register, different bits within one register's width never collide |
| Crc.ComputeCrc32 | src/ap_uploader/utils.py:77-133 | the table-driven loop computes the bit-serial reflected CRC with polynomial 0xEDB88320, for all data and all states |
| Crc.Lookup | src/ap_uploader/utils.py:77-122 | every table entry is eight steps of the register on its index |
| Crc.Crc32IsLawful | src/ap_uploader/utils.py:126-133 | the register is linear, and its steps, mixing and digits are injective |
| Crc.Crc32Concat | src/ap_uploader/utils.py:126-133 | the checksum of a concatenation continues from the checksum of the first part |
| Crc.FlashDamageIsDetected | src/ap_uploader/utils.py:126-133 | contents that differ only within four neighbouring bytes have different checksums |
| Crc.BitBurstIsDetected | src/ap_uploader/utils.py:126-133 | so do bit strings that differ only within 32 neighbouring bits |
| X25.X25Crc.Accumulate | src/ap_uploader/mavlink.py:39-54 | the byte-wise formula computes the bit-serial CRC with polynomial 0x8408, and the unmasked accumulator stays below 65536 |
| X25.FormulaStep | src/ap_uploader/mavlink.py:50-53 | one evaluation of the formula is eight steps of the register |
| X25.Crc16IsNarrow | src/ap_uploader/mavlink.py:47-54 | from a 16-bit state the checksum always fits 16 bits |
| X25.Crc16Concat | src/ap_uploader/mavlink.py:277-279 | accumulating two pieces is accumulating their concatenation |
| Device.RingWrittenConcat | src/ap_uploader/mock.py:230-256 | writing two pieces is writing their concatenation |
| Device.RingWrittenAt | src/ap_uploader/mock.py:230-256 | byte j of the data is at address (start + j) mod size afterwards |
| Device.RingWrittenElsewhere | src/ap_uploader/mock.py:230-256 | all other addresses keep their bytes |
| Device.WrittenInside | src/ap_uploader/mock.py:237-242 | data that fits before the end replaces a slice and moves the pointer behind it |
| Device.WrittenConcat | src/ap_uploader/mock.py:230-256 | two programming commands one after the other are one, around the end of the memory as well |
| Device.PointerGoesAround | src/ap_uploader/mock.py:237-256 | data that goes around the end leaves the pointer behind its last byte, never at zero |
| Device.PointerBeyondTheEnd | src/ap_uploader/mock.py:237-256 | a pointer set beyond the end writes like one at zero |
| Device.HandleValid | src/ap_uploader/mock.py:113-164 | every command keeps the size of the memory and the pointer inside it |
| Device.ParseEncoded | src/ap_uploader/protocol.py:308-322 | the device's parser reads back every encoded command, whatever its arguments contain, and nothing behind it |
| Device.CommandsSurvive | src/ap_uploader/mock.py:84-216 | commands with noise between them are handled exactly as sent and in order, until the device exits |
| Device.OneCommand | src/ap_uploader/mock.py:84-111 | one command to a waiting device is one application of the handler and one reply |
| Device.PausesAreWaitedOut | src/ap_uploader/mock.py:190-199 | noise and a pause in front of a command change nothing |
| Device.WrongEndIsRefused | src/ap_uploader/mock.py:93-94 | every command with another byte in the place of its end byte is answered 0x12 0x13, without any effect |
| Device.LateRestIsRefused | src/ap_uploader/mock.py:93-94 | so is every command of which only some bytes have arrived before a pause; incomplete arguments stay unread in front of what comes next |
| MockBootloader.CommandsSurviveChunking | src/ap_uploader/mock.py:171-228 | the same for every cutting of the stream into chunks |
| MockBootloader.WrittenInTwoParts | src/ap_uploader/mock.py:253-256 | the recursion's two parts with the pointer reset in between are the ring write |
| MockBootloader.MockBootloader.constructor | src/ap_uploader/mock.py:64-69 | erased memory of the given size, pointer at zero |
| MockBootloader.MockBootloader.Run | src/ap_uploader/mock.py:84-111 | the loop sends the replies and leaves the device as serving the whole stream specifies, across timeouts |
| MockBootloader.MockBootloader.HandleCommand | src/ap_uploader/mock.py:113-164 | payload or exception, and the new state, are those of the specification |
| MockBootloader.MockBootloader.WriteToFlashMemory | src/ap_uploader/mock.py:230-256 | the recursive in-place write terminates and equals the ring write |
| MockBootloader.MockBootloader.ReceiveNextCommand | src/ap_uploader/mock.py:180-216 | the next command, a malformed one, a timeout that leaves partial arguments unread, or waiting, by the stream alone |
| MockBootloader.MockBootloader.ReadExactly | src/ap_uploader/mock.py:171-178 | exactly the bytes asked for, or nothing taken when time runs out |
| MockBootloader.MockBootloader.ReadArguments | src/ap_uploader/mock.py:208-228 | arguments and the end-of-command byte; anything else in its place makes the command malformed |
| Rpc.ReliableCall | src/ap_uploader/connection.py:279-357 | over a channel without losses a call is one application of the handler, ends in sync and empty, and returns the handler's payload (length prefix stripped) exactly when there is one and the command is not GET_CHIP |
| Rpc.LossyCall | src/ap_uploader/connection.py:279-357 | with losses every well-formed command is applied at most r + 1 times, a result is that of the last application with at most r losses before it, and, where the device always answers, a timeout takes a loss for every attempt |
| Rpc.AskingTwiceIsHarmless | src/ap_uploader/connection.py:270-277 | a command that changes nothing returns the right answer however often it is repeated |
| Rpc.ProgrammingHappensAtMostOnce | src/ap_uploader/connection.py:188-201 | transmitted, written and acknowledged with nothing lost; or one loss, with the bytes written once and the acknowledgment lost, or nothing written |
| Rpc.DeafDevice | src/ap_uploader/connection.py:279-357 | after the device has left the bootloader every call times out and changes nothing |
| Rpc.RebootIsConfirmed | src/ap_uploader/connection.py:359-363 | for all fates and retries, REBOOT returns if and only if the first of its transmissions that arrives has its reply delivered; the device leaves if and only if one arrives; otherwise a timeout |
| Rpc.LostRebootAcknowledgment | src/ap_uploader/connection.py:359-363 | in sync, if the very first transmission arrives, the call returns exactly when its acknowledgment is delivered, for every number of retries, and the device has left |
| Resync.HarmlessCall | src/ap_uploader/connection.py:279-357 | the invariant behind it: which few byte strings can be pending after so many retries, in sync and out of sync, for every pointer; as long as retries spent and left are below the threshold, no cutting makes the call return another value than the pointer |
| Resync.FewRetriesAreSafe | src/ap_uploader/connection.py:279-357 | in particular at most four retries are safe, unless a half of the pointer is 0x1012 |
| Resync.WholePiecesRecover | src/ap_uploader/connection.py:347-354 | if pending bytes arrive whole, a call out of sync with at least one retry returns exactly the pointer and leaves nothing pending |
| Resync.ManyRetriesMislead | src/ap_uploader/connection.py:347-354 | from the threshold on, with certain pieces, 0x10121012 is returned for the pointer, or 0x1012 and its own lower half |
| Resync.RetriesDecide | src/ap_uploader/connection.py:279-357 | with one stale acknowledgment pending, for every pointer, in sync or not: the call is safe for all cuttings if and only if its retries are below the threshold, or there is none |
| Resync.FirstChunkIsMisled | src/ap_uploader/connection.py:279-357 | the instance with pointer 252 and ten retries |
| Procedure.AskingKeeps | src/ap_uploader/connection.py:143-186 | asking changes nothing; it is answered truly, or takes a loss for every attempt |
| Procedure.ExaminingKeeps | src/ap_uploader/uploader.py:403-412 | what is known before anything is changed is true, revisions below 4 are refused, and the device is as before |
| Procedure.PreparingKeeps | src/ap_uploader/uploader.py:403-448 | the write loop begins with an erased memory; a failure leaves it erased or untouched |
| Procedure.TurnProgress | src/ap_uploader/uploader.py:450-474 | a turn of the write loop stops it, gets further, or uses up a loss, so that the loop ends |
| Upload.ChunkBurns | src/ap_uploader/uploader.py:464-473 | programming the chunk at the device's pointer keeps memory below the pointer equal to the image, and is one more of the necessary chunks |
| Upload.ProgramKeepsStep | src/ap_uploader/uploader.py:450-474 | acknowledged, applied or lost, a program call keeps the loop's invariant |
| Upload.ZeroBytes | src/ap_uploader/utils.py:126-133 | zero bytes leave a checksum of zero |
| CrcPeriod.ReturnsExactly | src/ap_uploader/utils.py:126-133 | n steps of the register without data lead back if and only if n is a multiple of 2^32 - 1, or from zero: the polynomial is primitive |
| CrcPeriod.TwoFlips | src/ap_uploader/utils.py:126-133 | two wrong bits in any data, any distance apart, go unnoticed if and only if the distance is a multiple of 2^32 - 1 |
| CrcPeriod.ErasedBytesReturn | src/ap_uploader/utils.py:126-133 | k erased bytes leave a checksum unchanged if and only if it is 0xB6D0FDC0 or k is a multiple of 2^32 - 1 |
| Upload.ExcessDecides | src/ap_uploader/uploader.py:476-484 | for a correct memory and any size in the metadata, no mismatch if and only if the erased bytes in which the two paddings differ leave the checksum of the common part unchanged |
| Upload.AlarmExactly | src/ap_uploader/uploader.py:476-484 | for a correct memory, no mismatch if and only if the paddings differ by a multiple of 2^32 - 1 bytes (as by none) or the checksum before the difference is 0xB6D0FDC0 |
| Upload.WrongSizeRaisesFalseAlarm | src/ap_uploader/uploader.py:476-484 | an instance: a wrong size in the metadata raises a mismatch for a correct memory |
| Upload.SerialWordReverses | src/ap_uploader/mock.py:139-144 | reversing the words of the device gives the serial number |
| Upload.Uploader.GetSerialNumber | src/ap_uploader/connection.py:171-179 | what is returned is the device's serial number |
| Upload.Uploader.Examine | src/ap_uploader/uploader.py:403-412 | the device is unchanged, the size and revision are true, and revisions below 4 are refused |
| Upload.Uploader.ProgramBytes | src/ap_uploader/connection.py:188-201 | the three possible results of programming, on the connection object |
| Upload.Uploader.WriteImage | src/ap_uploader/uploader.py:450-474 | the write loop terminates and keeps its invariant for any losses; for an image that fits, the PROG_MULTI commands transmitted cover every chunk and exceed the chunks by at most the losses; below revision 6 it ends normally only without any loss, and a lost acknowledgment it reports was a loss |
| Upload.KeptToTheEnd | src/ap_uploader/uploader.py:450-484 | at its end, an image that fits is in the memory with erased bytes behind it, transmissions lie between ceil(total / 252) and that plus the losses, and a mismatch depends on the metadata exactly as above; an image of any size has been written around the ring if nothing was lost |
| Upload.EndIsDecided | src/ap_uploader/uploader.py:403-490 | an upload ends normally if and only if it came to rebooting and, with the fates then in store, the first reboot that arrives is confirmed; the device leaves if and only if one arrives |
| LateAck.OneLateAcknowledgment | src/ap_uploader/uploader.py:450-490 | with one stale acknowledgment pending while the pointer is asked for, and certain pieces, the rest of the upload ends normally although nothing more is written: for every pointer without the byte 0x12; a mismatch that is reported gives the pointer as the checksum that was found |
| Upload.Uploader.ProcessCommand | src/ap_uploader/connection.py:270-277 | outcome, parser and channel are those of the call as a function |
| Upload.Uploader.WriteNext | src/ap_uploader/uploader.py:450-474 | the loop's body is one turn of the specification, and gets further or uses up a loss |
| Upload.Uploader.ProgramNext | src/ap_uploader/uploader.py:464-474 | one program call is counted, it advances or uses up a loss, and the pointer is unknown afterwards exactly when something was lost |
| Upload.VerifyingTells | src/ap_uploader/uploader.py:476-484 | among the notices up to the reboot there is a mismatch if and only if the checksum of the image, padded by what the metadata leaves room for, differs from that of the memory; it gives the first as expected and the second as observed |
| Upload.StepsInOrder | src/ap_uploader/uploader.py:414-490 | the steps reported are always the first few of erasing, uploading, verifying, rebooting, finished; all of them if and only if the upload ends normally; before the first the device is as it was |
| Upload.Uploader.Verify | src/ap_uploader/uploader.py:476-484 | the same for the events of the method: at most one mismatch, behind the step and before the reboot, with the two checksums in their places, exactly when they differ |
| Upload.Uploader.Reboot | src/ap_uploader/connection.py:359-363 | confirmed if and only if the first transmission that arrives has its reply delivered; the device keeps everything but its listening |
| Upload.Uploader.Finish | src/ap_uploader/uploader.py:476-490 | a normal end if and only if the checksum is answered and, with the fates that the channel has in store after that, the first reboot that arrives is confirmed; the mismatch among the events is the true one |
| Upload.Uploader.Transfer | src/ap_uploader/uploader.py:450-490 | the same for the write loop and what follows it |
| Upload.Uploader.UploadFirmware | src/ap_uploader/uploader.py:403-490 | outcome, all events, parser, channel and device are those of the upload as a function of the start; if the image fits, a device is only rebooted with exactly the image and erased bytes behind it, the pointer behind it, progress up to the total and at most ceil(total / 252) plus the losses program commands transmitted (exactly that many below revision 6), with a mismatch reported exactly when the metadata's size gives one; for every image and every end, steps come in order, and a mismatch tells the true checksums; an image of any size is one ring write if nothing was lost; with revision 6, up to ten losses anywhere cannot prevent that it comes to rebooting; without losses every upload ends normally |
| Mavlink.PayloadRoundTrip | src/ap_uploader/mavlink.py:373-387 | the fields of the three message types are read back from their payload |
| Mavlink.PayloadRecovered | src/ap_uploader/mavlink.py:997-1056 | every message that is read from a payload is packed into the same payload again |
| Mavlink.PayloadLayout | src/ap_uploader/mavlink.py:316-566 | each field of the three types is at its place in the payload, little-endian, by number and byte |
| Mavlink.PaddingUndoesStripping | src/ap_uploader/mavlink.py:257-262 | padding with zeros undoes the removal of trailing zeros |
| Mavlink.OnlyZerosAreLeftOut | src/ap_uploader/mavlink.py:257-284 | the header of a packet byte by byte; version 1 carries the whole payload, version 2 all but the zeros at its end, and at least one byte |
| Mavlink.FramedDecodes | src/ap_uploader/mavlink.py:250-284 | decoding an encoded packet of either version gives the message, sequence number and source back |
| Mavlink.PacketsTileTheStream | src/ap_uploader/mavlink.py:752-840 | the packets' raw bytes and the rest are exactly the stream |
| Mavlink.ChunkingDoesNotMatter | src/ap_uploader/mavlink.py:752-840 | packets and rest do not depend on how the stream is cut |
| Mavlink.PacketsAreClassified | src/ap_uploader/mavlink.py:766-1075 | for any stream, what becomes of each packet is decided by its bytes: unknown if and only if its flags are acceptable and its type is none of the four, whatever its checksum; a message if and only if its type is one of three and its checksum is right, with the fields that the bytes spell, zeros where they end early; otherwise bad data, as stray bytes are |
| Mavlink.NoiseIsSkipped | src/ap_uploader/mavlink.py:774-784 | bytes without a marker cost one piece of bad data each and nothing behind them |
| Mavlink.ConversationIsHeard | src/ap_uploader/mavlink.py:746-840 | messages of both versions, with stray bytes and packets of unknown types between them in any order, cut in any way, come out one for one and in order; the message that k others precede has the sequence number (first + k) mod 256 |
| Mavlink.HeadersAreRecognized | src/ap_uploader/utils.py:199-219 | a datagram that begins with any complete packet is taken for an autopilot's heartbeat if and only if the packet's header has type 0 and component 1 |
| Mavlink.HeartbeatsAreRecognized | src/ap_uploader/utils.py:199-219 | among encoded packets exactly the heartbeats of component 1 are recognized |
| MavlinkCodec.MAVLink.constructor | src/ap_uploader/mavlink.py:714-736 | a new parser has nothing unread and sequence number zero |
| MavlinkCodec.MAVLink.Encode | src/ap_uploader/mavlink.py:746-750 | the packet of the message, and a sequence number that is one more mod 256; an error and no change when a field does not fit |
| MavlinkCodec.MAVLink.PackMessage | src/ap_uploader/mavlink.py:250-284 | stripping, header and checksum put together the specified packet |
| MavlinkCodec.MAVLink.ParseChar | src/ap_uploader/mavlink.py:752-764 | the first packet of the unread bytes, if complete, is taken out |
| MavlinkCodec.MAVLink.ParseCharLegacy | src/ap_uploader/mavlink.py:766-828 | the same for the part without the buffer's compaction; the remembered length never matters |
| MavlinkCodec.MAVLink.Decode | src/ap_uploader/mavlink.py:890-1075 | unknown types, checksum errors, padding, truncation and fields as specified and as the bytes say; a wrong length cannot occur |
| MavlinkCodec.MAVLink.ParseBuffer | src/ap_uploader/mavlink.py:830-840 | terminates and returns all complete packets, each of which is what its bytes say |
| KnownAnswers.RebootPacket | src/ap_uploader/connection.py:379 | the prepared packet is the model's packet of that message: marker, layout, checksum polynomial, initial value and extra byte |
| KnownAnswers.TextCrc | test/test_utils.py:6 | the checksum of "spam ham" |
| KnownAnswers.ProgrammedMemory | test/test_mock.py:59-71 | the bytes exchanged when seven bytes are programmed and the checksum of sixteen is asked for, and the memory afterwards |
| KnownAnswers.BoardAnswers | test/test_mock.py:32-36 | the bytes exchanged for the board's number and revision |
| KnownAnswers.UnknownProperty | src/ap_uploader/mock.py:105-117 | any other property is answered 0x12 0x11 |
| KnownAnswers.ChipAnswers | test/test_mock.py:23-56 | the bytes exchanged for synchronization, chip and one-time programmable area |
| KnownAnswers.DescriptionAnswer | src/ap_uploader/mock.py:131-136 | and for the chip's description, with its length prefix |
| KnownAnswers.SerialAnswer | test/test_mock.py:45-49 | and for the first word of the serial number |
| KnownAnswers.SerialEnds | src/ap_uploader/mock.py:142-144 | words beyond the end of the serial number are filled with zeros |
| KnownAnswers.StateCommands | src/ap_uploader/mock.py:145-162 | the bytes exchanged for erasing, the write pointer and rebooting, and the device afterwards |
| KnownAnswers.NoiseBeforeSync | test/test_mock.py:98-100 | bytes that start no command, in front of one |
| KnownAnswers.UnhandledCommand | test/test_mock.py:103-105 | a command that the mock does not handle is answered 0x12 0x13 |
| KnownAnswers.BrokenCommands | test/test_mock.py:108-118 | the three broken commands, each answered 0x12 0x13 |

## Left out

- CallGuarantees.ReceiveBound: not for GET_CHIP_DES, the length of whose reply the peer chooses.
- Transports, sockets, serial ports and threads (src/ap_uploader/io): replaced by an arbitrary peer, or by a channel with chosen pieces and losses.
- Real time: timeout values, sleeps and the simulated progress during erasing; timeouts are outcomes.
- Messages that arrive after their timeout: the channel of `Rpc` loses messages but does not delay them. A single stale acknowledgment is treated for the parser in `Segmentation` and for one call of GET_WRITE_PTR, without further losses, in `Resync`, and for the rest of one upload in `LateAck`; `Upload` covers all uploads without any.
- Rpc.Send: a device without any memory does not answer; in the source its ring write recurses until an exception.
- MockBootloader.MockBootloader.Run: `drop_next_response` and the simulated desynchronization are not modelled, because lost commands and replies are choices of the channel; the reported revision is a parameter instead of 5 or 6.
- Upload.Uploader.UploadFirmware: begins after `ensure_in_bootloader`; the MAVLink reboot into the bootloader, the lifecycle events and cancellation are not modelled.
- Connection.BootloaderConnection.ProcessCommandInner: the lock is left out, since calls are made one after the other; other exceptions of `receive` are one outcome, `Disconnected`.
- The `_mode` bookkeeping of the connection, when it sends the prepared reboot packet, and its factory reset and bootloader flashing: single calls without further logic.
- `UploaderTask` and `UploaderTaskGroup`: retry counting around the upload, which would only add easy members.
- Firmware files (JSON, base64, zlib): the image is a given byte sequence, its checksum is computed from it.
- MAVLink signing: signed packets are parsed like unsigned ones, as the source does without a key; signatures are neither made nor checked.
- `PARAM_SET` messages are recognized by the parser and always become bad data, as in the source; encoding them is not modelled.
- The parser's non-robust mode, printing, JSON and scanners: constants and user interface.
- Floating-point parameters of MAVLink messages are opaque, four bytes each.
