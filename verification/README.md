# CANnuccia, verified

CANnuccia is a bootloader for microcontrollers on a CAN bus: a master selects flash pages, streams their
contents in frames of at most eight bytes, checks them by CRC and has them committed. This project models
the device side in Dafny and proves what a master relies on: what a whole session leaves in flash, exactly
when a session stays clear of the bootloader, that sessions of different devices do not disturb each other,
what the timeout interrupt does wherever in the program it fires, what a loss of power can tear, and what the
checksum, the identifiers, the mailboxes and the timers compute. Where that is not what the comments promise,
it says for which inputs.

Code that updates state in the repository is a class or a method with loops here: the two flash drivers,
the message pump, the CRC loops, the mailboxes, the timers. Each of these is proved against functions on
plain values, and the theorems are about those functions and about runs of them.

| module | what it holds |
|---|---|
| `Words` | C's `&`, `\|`, `^` on naturals, and the little-endian accessors of `util.h` |
| `Gf2`, `Crc` | polynomials over GF(2), the division register, CRC-16/XMODEM and its theory |
| `FlashBase`, `Stm32Flash`, `AvrFlash`, `Flash` | the two flash controllers, their drivers, and the interface both implement |
| `Messages` | frames, identifiers, acceptance filters |
| `Geometry` | the integer logarithm and the geometry report |
| `Protocol`, `Pump` | one message, one event, one run; and the pump as a class |
| `Session`, `Upload`, `Staging` | theorems about whole runs |
| `Replies` | what a master may conclude from a reply and from its absence |
| `Interleaving` | the pump statement by statement, with the interrupt between any two statements |
| `Timeout` | what the interrupt ends, wherever it fires, and the UNLOCK that takes the pump back from DONE |
| `Linearization`, `Realization` | every such schedule has the effect of a run, so the theorems about runs hold of schedules; and every run of messages is a schedule |
| `Schedules` | what flash holds after any schedule, between two messages and wherever else the device stops |
| `Bus` | many devices on one bus |
| `Bxcan`, `EidBits`, `Mcp25625` | the CAN controllers: mailboxes on STM32, identifier registers on AVR |
| `Stm32Timer`, `AvrTimer` | the prescaler searches and when a timer can fire |

Things the code does that its comments or contracts do not say, kept as they are and stated exactly:

- The upper-bound test of `cnFlashPageWriteable` adds the page size in a fixed-width integer. It refuses the
  last page of the region, and it accepts the page whose sum wraps to zero: 0xFFFFFC00 on STM32, 0xFF80 on
  AVR, which the controller decodes as the last page of the bootloader (`PageWriteableExactly`,
  `CommitTopPage`, `BootloaderOverwritten`).
- Address 0 means "no page". AVR accepts page 0 and never programs it; on STM32 a COMMIT before any
  SELECT_PAGE starts an erase at address 0 and leaves PG set (`CommitNoPage`). `RegionSafeExactly` is the
  resulting exact condition for region safety.
- An UNLOCK that is in hand when the timeout fires overwrites DONE with UNLOCKED: the pump goes on with flash
  locked and no timer left, and answers UNLOCKED. Nothing but a PROG_DONE ends it then
  (`TimeoutOverwritten`, `OverwrittenNeverEnds`, `UnlockReplyExactly`). `TimeoutEndsExactly` is the exact
  condition under which a timeout ends the pump. No schedule changes flash because of this.
- `mcpGetEID` is not the inverse of `mcpPutEID`: identifier bits 3..13 come back three places lower. Message
  types are read from bits 12 and up, so on AVR a PROG_REQ is never recognised (`GetInvertsExactly`,
  `DispatchReadBack`, `AvrTimesOut`). The repository's README.md names this target as supported; the
  model follows the code.
- STM32's `cnTimerStart` sets the one-pulse bit and never clears it, so a later start as repeating timer
  stays one-shot, against the comment in `timer.h`; `RepeatingStart` says exactly when.
- AVR's `cnTimerStart` loads the counter with the ticks to wait although the timer counts up to its overflow:
  the three seconds of the bootloader become 1.19 (`BootloaderTimeout`). `FiresInTimeExactly` lists the delays for
  which it is right. Its product 16 * delayUs wraps at 2^28 microseconds (`TicksWrap`).

Hardware is modelled as far as the drivers can see it. STM32: the key sequence, LOCK/PER/PG/STRT, AR, a busy
flag that lasts for an arbitrary number of polls and must be clear before the next operation, page erase to
0xFF, half-word stores that are refused unless the half-word is erased. AVR: a temporary buffer of 64 words
that can each be loaded once, page erase to 0xFF, a page write that can only clear bits and that empties the
buffer, 15 decoded address bits. Both record every operation they are asked for, and latch a fault for every
access the controller would refuse; `CommitReplacesPage` shows that none is raised.

## Model

| member | source | states |
|---|---|---|
| Words.ReadU16LE | src/common/util.h:13-18 | the two bytes combined by OR are the little-endian number |
| Words.ReadU32LE | src/common/util.h:27-34 | the four bytes combined by OR are the little-endian number |
| Words.U16LE | src/common/util.h:20-25 | the bytes written read back as the same number |
| Words.U32LE | src/common/util.h:36-43 | the bytes written read back as the same number |
| Words.U32LEInverse | src/common/util.h:27-43 | any four bytes read and written again are the same four bytes |
| Words.AndBit | src/common/main.c:123 | C's bitwise and works bit by bit |
| Words.OrBit | src/common/util.h:13-34 | C's bitwise or works bit by bit |
| Geometry.ShiftLog2I | src/common/util.h:52-60 | the shift loop finds the exponent of the largest power of two not above n |
| Geometry.Log2FormsAgree | src/common/util.h:45-66 | the ctz form and the shift form agree exactly on zero and the powers of two |
| Geometry.TrailingZerosCounts | src/common/util.h:45-51 | the ctz form counts what it should: n is that power of two times an odd number |
| Geometry.ReportRoundTrip | src/common/main.c:86-94 | a master recovers the flash size from the report exactly when the page size is a power of two and the page count fits 16 bits |
| Protocol.ReportedGeometry | src/common/main.c:86-94 | for both targets the report decodes to their page size, their number of pages, their flash size and their ELF machine number |
| Crc.BitwiseCrc16 | src/stm32/util.c:10-31 | the nested loops return the remainder of x^16 * M(x) modulo x^16+x^12+x^5+1; the accumulator is below 2^16 after every inner step although one branch does not mask |
| Crc.BytewiseCrc16 | src/avr/util.c:12-20 | the per-byte loop returns the same remainder |
| Crc.CrcIsRemainder | src/stm32/util.c:10-31 | the CRC is the only remainder: r is a remainder on division by the generator if and only if it is the CRC |
| Crc.CrcOfOne | src/stm32/util.c:10-31 | the CRC of the byte 1 is 0x1021, so the generator is x^16+x^12+x^5+1 |
| Crc.CrcConcat | src/stm32/util.c:17-29 | the CRC of a concatenation continues from the CRC of the prefix |
| Crc.CrcLinear | src/stm32/util.c:17-30 | crc(a xor b) = crc(a) xor crc(b) for equal lengths |
| Crc.CrcCollision | src/stm32/util.c:10-31 | two buffers of equal length collide exactly when the generator divides x^16 times their difference |
| Crc.BurstDetected | src/stm32/util.c:18-29 | buffers that differ only within 16 consecutive bits, at any bit position, have equal CRCs only if they are equal |
| Crc.CrcSelfCheck | src/stm32/util.c:17-30 | a buffer followed by its CRC, high byte first, has CRC 0 |
| Stm32Flash.Driver.FlashUnlock | src/stm32/flash.c:55-67 | writes both keys and reports whether LOCK cleared |
| Stm32Flash.UnlockSucceeds | src/stm32/flash.c:55-67 | from a locked controller it succeeds exactly if no wrong key was written before |
| Stm32Flash.KeysOpen | src/stm32/flash.c:55-67 | two key writes open the controller if and only if they are the two documented keys in order, on an unspoilt sequence |
| Stm32Flash.EraseExactly | src/stm32/flash.c:84-108 | on the modelled controller an erase happens if and only if LOCK is clear, PER set without PG and the page in flash; refused it changes nothing |
| Stm32Flash.StoreExactly | src/stm32/flash.c:110-132 | likewise a half-word is stored if and only if LOCK is clear, PG set, and it is an erased half-word of flash |
| Stm32Flash.LockedControl | src/stm32/flash.c:84-147 | on a locked controller the calls of a COMMIT change nothing but the driver's page address |
| Stm32Flash.Driver.FlashBeginWrite | src/stm32/flash.c:84-108 | refuses when locked; otherwise erases, sets PG and remembers the page; the controller is not busy at any register access nor afterwards |
| Stm32Flash.Driver.FlashFill | src/stm32/flash.c:110-132 | the loop stores exactly the half-words of the data, in order, each on an idle controller |
| Stm32Flash.Driver.FlashEndWrite | src/stm32/flash.c:134-147 | clears PG and forgets the page, or fails when none is open |
| Stm32Flash.PageWriteableExactly | src/stm32/flash.c:48-53 | the accepted pages are the application pages but the last, and the wrapping top page |
| Stm32Flash.CommitReplacesPage | src/stm32/flash.c:84-147 | begin, fill, end on an unlocked controller at rest: exactly one page replaced, everything else kept, only erased half-words programmed, PER, PG and curPageAddr back at rest, the operations in order |
| AvrFlash.Driver.FlashFill | src/avr/flash.c:55-77 | the loop loads the words that fit the page, in order, and returns their bytes |
| AvrFlash.Driver.FlashEndWrite | src/avr/flash.c:79-100 | erases, then writes the page, and forgets it; fails without effect when locked or no page is open |
| AvrFlash.MaskedPage | src/avr/AVRtoolchain.cmake:57 | the mask keeps sixteen address bits and yields the start of a page |
| AvrFlash.PageWriteableExactly | src/avr/flash.c:22-27 | the accepted pages are the application pages but the last, and the wrapping top page |
| AvrFlash.CommitReplacesPage | src/avr/flash.c:49-100 | begin, fill, end when unlocked: exactly the decoded page becomes the data, the buffer is empty again, the driver at rest |
| AvrFlash.CommitPageZero | src/avr/flash.c:57-85 | page 0 is accepted; BeginWrite succeeds, Fill stores nothing and EndWrite fails, so a COMMIT of it does nothing |
| AvrFlash.CommitLocked | src/avr/flash.c:81-85 | when locked nothing but the temporary buffer and the remembered page can change |
| AvrFlash.LoadsOnce | src/avr/flash.c:64-74 | each word of the temporary buffer takes one load |
| AvrFlash.WriteOnlyClears | src/avr/flash.c:87-97 | a page write ANDs the loaded words into the page, bit by bit, and leaves the rest of flash |
| Flash.CommitReplacesPage | src/common/flash.h:43-66 | both drivers refine one "replace page": an application page becomes the data, every other byte is kept, no fault, at rest afterwards |
| Flash.CommitLocked | src/common/flash.h:30-44 | a locked flash keeps its contents and starts no operation |
| Flash.CommitNoPage | src/stm32/flash.c:97-107 | what a COMMIT without a page does on either target |
| Flash.CommitTopPage | src/stm32/flash.c:48-53 | what a COMMIT of the wrapping page does on either target |
| Flash.CallsRespectLock | src/common/flash.h:43-66 | taken one by one, no call of a COMMIT moves the lock or changes a locked flash |
| Flash.LockedStartsNothing | src/common/flash.h:43-66 | nor does it start an operation on a locked flash; STM32's driver gives up at the first call |
| Flash.PageWriteableExactly | src/common/flash.h:36-41 | for both targets: an application page other than the last, or the top page |
| Flash.MemoryMap | src/stm32/STM32toolchain.cmake:48-51 | page, flash and bootloader sizes and the region bounds of both targets in numbers |
| Flash.MaskedPageExactly | src/common/main.c:119-123 | the masked address is the start of the page the address lies in; on AVR after dropping the upper 16 bits |
| Flash.FillInPieces | src/common/flash.h:52-57 | filling a page at an offset in two calls is filling it in one, and the counts add up |
| Flash.FillCounts | src/common/flash.h:52-57 | the count returned: nothing without an open page, all on STM32, the words that start inside the page on AVR |
| Messages.DispatchCommand | src/common/can_msgs.h:29-54 | a device id masked into a command leaves its type intact |
| Messages.CommandLayout | src/common/can_msgs.h:29-54 | a command identifier, field by field: 0xCA, the number of the command, the device, and only IDE of the low four bits |
| Messages.AnswerLayout | src/common/can_msgs.h:56-64 | a reply identifier is that of its command with bit 24 set |
| Messages.DispatchExactly | src/common/can_msgs.h:36-54 | the switch takes an identifier for a command if and only if its upper 20 bits are that command's |
| Messages.AcceptsExactly | src/common/can_msgs.h:14-33 | exactly which identifiers pass a device's filter |
| Messages.MasterAcceptsExactly | src/common/can_msgs.h:20-33 | exactly which identifiers pass a master's filter |
| Messages.CommandAddressing | src/common/can_msgs.h:14-33 | a command passes the filter of the addressed device and of no other |
| Messages.ReplyNotAccepted | src/common/can_msgs.h:14-64 | no reply passes the command filter of any device |
| Messages.ReplyAddressing | src/common/can_msgs.h:21-33 | a master's filter for one device passes exactly that device's replies |
| Messages.ReplyIdentifies | src/common/can_msgs.h:56-64 | a reply identifier determines its type and its sender |
| Messages.FiltersDisjoint | src/common/can_msgs.h:14-33 | no identifier whatever passes the filters of two devices |
| Pump.Bootloader.ProgReqReceived | src/common/main.c:80-95 | the new state and the reply are those of the specification |
| Pump.Bootloader.UnlockReceived | src/common/main.c:97-114 | likewise, with the driver called in LOCKED only |
| Pump.Bootloader.SelectPageReceived | src/common/main.c:116-134 | likewise, for every payload length |
| Pump.Bootloader.WriteReceived | src/common/main.c:147-155 | the loop stores what fits before the end of the buffer and moves the cursor behind it |
| Pump.Bootloader.CheckWritesReceived | src/common/main.c:157-163 | the reply carries the CRC of the whole buffer |
| Pump.Bootloader.CommitReceived | src/common/main.c:165-182 | the three driver calls, stopping at the first that fails, and the reply |
| Pump.Bootloader.MessagePump | src/common/main.c:68-197 | over any sequence of messages and timer ticks the loop ends in the state, and sends the frames, of the specified run, and locks flash when it ends |
| Protocol.StepWellFormed | src/common/main.c:27-34 | whatever arrives, 0 <= writeOffset <= page size |
| Session.RunReached | src/common/main.c:59-113 | with the interrupt between messages: in every run UNLOCKED holds exactly while flash is unlocked, and the timer runs exactly while IDLE |
| Session.TimeoutEndsSession | src/common/main.c:41-77 | with the interrupt between messages: without a PROG_REQ flash is untouched, and the pump is done if and only if a PROG_DONE came or the timer has run out, with the ticks left stated otherwise |
| Session.AcceptedInTime | src/common/main.c:80-95 | a PROG_REQ after any such events is accepted, the timer stopped and the geometry sent, if and only if the timer has not run out and no PROG_DONE came |
| Session.StepFrame | src/common/main.c:78-190 | which events can touch each part of the state, and that only a command is answered |
| Session.OnlyProgDoneEndsProgramming | src/common/main.c:80-85 | after an accepted PROG_REQ the run is DONE if and only if a PROG_DONE came |
| Session.RunSelects | src/common/main.c:116-133 | the selected page is the one of the last accepted SELECT_PAGE |
| Session.CommitSafeExactly | src/common/main.c:165-176 | a COMMIT of an unlocked session stays inside the application region if and only if the selected page is not stray |
| Session.StepOps | src/common/main.c:165-176 | flash is only touched by a COMMIT of an unlocked session, which replaces the selected page with the buffer |
| Session.RegionSafety | src/common/main.c:116-182 | over every run in which no COMMIT of an unlocked session found a stray page selected, flash is at rest, every erase and program lies in the application region and the bootloader's bytes never change |
| Session.RegionSafeExactly | src/common/main.c:116-182 | for every run: all operations lie in the application region if and only if no COMMIT of its unlocked session found a stray page |
| Upload.BootloaderOverwritten | src/avr/flash.c:22-27 | a run from power-on that is not region safe: on AVR a session that COMMITs page 0xFF80 replaces the bootloader's last page by any image of the master's choice, is acknowledged, and keeps the bootloader if and only if that image was there already |
| Upload.WritesAppend | src/common/main.c:147-155 | WRITE frames append their data at the cursor, however it is split |
| Upload.SessionEffect | src/common/main.c:116-182 | SELECT_PAGE, SEEK 0, WRITEs, COMMIT: the whole state afterwards and the two replies |
| Upload.UploadFlashes | src/common/main.c:116-182 | any list of page sessions, any split into frames, from any ready device: flash is the old flash with those pages overwritten in order, and each page is acknowledged once |
| Upload.FlashedPage | src/common/main.c:165-181 | every page uploaded once holds its image at the end |
| Upload.FlashedElsewhere | src/common/main.c:165-181 | every byte outside the uploaded pages is unchanged |
| Upload.CompleteSessionFlashes | src/common/main.c:68-197 | from power-on through PROG_REQ, UNLOCK, the pages and PROG_DONE: final flash, final lock and the complete list of replies |
| Upload.ReachedReady | src/common/main.c:97-113 | every UNLOCKED state reached from power-on can start an upload, unless a COMMIT of the unlocked session found a stray page |
| Upload.ReplayIsIdempotent | src/common/main.c:116-182 | repeating a page session changes neither buffer nor flash |
| Upload.CheckThenCommit | src/common/main.c:157-182 | if CHECK_WRITES answered c and a later COMMIT of a page other than the wrapping one is acknowledged, with no WRITE in between and no COMMIT of the unlocked session on a stray page, the page in flash has CRC c |
| Replies.UnlockAnswered | src/common/main.c:97-114 | with the interrupt between messages: UNLOCK is answered if and only if session and flash are unlocked afterwards |
| Replies.SelectPageAnswered | src/common/main.c:116-134 | SELECT_PAGE is answered if and only if the requested page is accepted, which every application page but the last is; the answer names the page now selected; unanswered it changes nothing |
| Replies.CommitAnswered | src/common/main.c:165-182 | COMMIT is answered if and only if the session is unlocked and a page selected; unanswered, no byte of flash changes; answered, that page of flash holds the buffer, unless it was the wrapping page: then STM32's flash is unchanged and AVR's last bootloader page is overwritten |
| Replies.CheckPredicted | src/common/main.c:136-163 | from power-on and after any messages, CHECK_WRITES is answered by one WRITES_CHECKED with the CRC a reader of the bus computes from the WRITE traffic alone, and changes nothing |
| Replies.AnswerMatchesCommand | src/common/main.c:78-190 | any message has at most one answer, under the identifier of its command with bit 24 set |
| Replies.FlashAtJump | src/common/main.c:116-197 | over every run without a stray COMMIT, the user program finds flash locked and holding the old contents with, for each acknowledged COMMIT in order, the page of the last accepted SELECT_PAGE replaced by the image that was on the bus |
| Staging.StagingIsOverlay | src/common/main.c:136-155 | after any messages the buffer is the last-writer-wins overlay of the cursor history |
| Staging.StagingIsReplica | src/common/main.c:136-155 | from power-on, while the pump runs, the buffer is the one a reader of the bus keeps |
| Staging.FullBufferIgnoresWrites | src/common/main.c:147-155 | with the cursor at the end nothing is written until the next SEEK |
| Staging.DisjointWritesCommute | src/common/main.c:136-155 | SEEK+WRITE pairs on disjoint ranges commute in the buffer |
| Interleaving.IterationRefinesHandle | src/common/main.c:69-190 | executed statement by statement without interrupts, in any mode, an iteration does exactly what the message specification says |
| Interleaving.AfterConsistent | src/common/main.c:42-197 | the invariant of every interleaving of statements and interrupt |
| Interleaving.FlashChangeExplained | src/common/main.c:80-113 | in every interleaving flash changes only after a PROG_REQ test that read IDLE and a later successful cnFlashUnlock made in LOCKED |
| Interleaving.UnlockedExactly | src/common/main.c:97-113 | in every interleaving, UNLOCKED comes with an unlocked flash if and only if a PROG_REQ was accepted |
| Interleaving.UnacceptedUntouched | src/common/main.c:80-113 | in every interleaving, until a PROG_REQ found the device IDLE no operation is started and no byte of flash changes |
| Interleaving.OnlyProgDoneEnds | src/common/main.c:42-113 | once LOCKED was set for an accepted PROG_REQ, only PROG_DONE sets DONE |
| Interleaving.JumpsLocked | src/common/main.c:194-197 | in every interleaving the jump happens with flash locked |
| Timeout.InterruptInside | src/common/main.c:41-113 | a timeout while a message is handled in IDLE: an UNLOCK ends in UNLOCKED, a PROG_REQ comes too late, any other message has its effect and the device is DONE |
| Timeout.TimeoutEndsExactly | src/common/main.c:41-114 | wherever the interrupt fires before a PROG_REQ was accepted, the turn of the loop ends at the loop test, in DONE if and only if no UNLOCK is in hand |
| Timeout.TimeoutEndsPump | src/common/main.c:41-197 | after every schedule: if the timeout fires, the pump reaches the jump by itself when no UNLOCK is in hand, and the loop test in UNLOCKED otherwise |
| Timeout.TimerOffExactly | src/common/main.c:41-113 | in every schedule, a timer that is off means DONE, an accepted PROG_REQ, or an UNLOCK that overwrote DONE |
| Timeout.HistoryFetched | src/common/main.c:68-113 | in every schedule only a received PROG_REQ is accepted, only an UNLOCK overwrites DONE, and only a PROG_DONE sets DONE while the timer runs |
| Timeout.OverwrittenNeverEnds | src/common/main.c:65-114 | after an UNLOCK has overwritten DONE the pump stays in UNLOCKED, flash locked and untouched, in every schedule in which no PROG_DONE is received |
| Timeout.OverwrittenTurn | src/common/main.c:65-190 | such a pump becomes DONE in handling a message if and only if it is a PROG_DONE |
| Timeout.UnlockReplyExactly | src/common/main.c:97-114 | in every schedule, when UNLOCKED is answered flash is unlocked if and only if the UNLOCK did not overwrite a DONE, that is, if and only if a PROG_REQ was accepted |
| Timeout.TimeoutOverwritten | src/common/main.c:97-113 | a schedule, from every start, in which UNLOCK overwrites the DONE of the interrupt |
| Linearization.Linearizable | src/common/main.c:41-197 | every schedule in which no DONE was overwritten has, between messages and after the loop, the effect and the replies of a run of its messages in order with the timeout between two of them, but for the answer to a PROG_REQ that came too late; while not DONE, no other schedule has |
| Linearization.AcceptedIsRun | src/common/main.c:80-197 | once a PROG_REQ was accepted, a schedule has exactly the effect and the replies of its messages alone |
| Linearization.RegionSafeAlways | src/common/main.c:41-197 | after every schedule that ends between two messages or after the loop: all operations lie in the application region if and only if no COMMIT found flash unlocked and a stray page; then the bootloader keeps its bytes |
| Schedules.RegionSafeAnywhere | src/common/main.c:41-197 | at every statement of every schedule, inside a COMMIT too: if no COMMIT found flash unlocked and a stray page, all operations lie in the application region and the bootloader keeps its bytes |
| Schedules.FlashOfSchedule | src/common/main.c:41-197 | after every schedule without a stray COMMIT that ends between two messages or after the loop: if a PROG_REQ was accepted, flash is the old contents with each acknowledged COMMIT of the received messages replayed, otherwise the old contents; at the jump it is locked |
| Schedules.OnePageTorn | src/common/main.c:165-182 | at every statement of every schedule without a stray COMMIT: flash is what it was at the last moment between two messages, except for bytes of the one application page selected for the message in hand |
| Schedules.OnePageTornInside | src/stm32/flash.c:110-132 | nor is more torn when the device stops inside a driver call, after any number of half-words stored on STM32 or between erase and write on AVR |
| Linearization.UploadAllOrNothing | src/common/main.c:41-197 | under every schedule that receives a complete session, the user program finds exactly the uploaded flash, every page acknowledged, if the PROG_REQ was accepted, and the old flash otherwise; locked either way |
| Realization.RunRealised | src/common/main.c:65-190 | for every message sequence that does not end the pump before its last message there is a schedule that receives exactly it and has the state and the replies of the run |
| Realization.UploadHappens | src/common/main.c:65-197 | for every upload there is a schedule that receives it, accepts its PROG_REQ and reaches the jump |
| Bus.NonInterference | src/common/main.c:52-55 | each of any number of devices goes through the states it would go through alone with the frames that pass its filter, whatever commands, replies and other frames are on the bus |
| Bus.ReactsToOwn | src/common/main.c:52-55 | each event changes a device, and makes it send, exactly what it would alone: nothing unless the event is its own |
| Bus.SendsReplies | src/common/main.c:90-187 | all a device sends are replies under its own id |
| Bus.RepliesChangeNothing | src/common/can.h:20-24 | a reply changes no device that hears it and causes no traffic |
| Bus.AtMostOneHears | src/common/can_msgs.h:14-33 | of two devices with different ids at most one reacts to any frame |
| Bus.UploadsShareBus | src/common/main.c:52-197 | uploads interleaved on one bus: each device that receives a complete session has its own pages in its own flash, locked, after its jump |
| Bxcan.Controller.Send | src/stm32/can.c:146-191 | -1 exactly when all three mailboxes are pending; otherwise the frame, cut to 8 bytes, waits in one that was free, with its identifier and TXRQ; pending mailboxes are untouched; nothing accepted is lost or sent twice |
| Bxcan.FallThrough | src/stm32/can.c:159-187 | the fall-through switch packs the bytes little-endian, zero beyond the end |
| Bxcan.PackedRegisters | src/stm32/can.c:154-189 | the four registers of a frame: the identifier with IDE and RTR kept and TXRQ set, the length, and the payload as two little-endian words |
| Bxcan.Controller.Recv | src/stm32/can.c:193-240 | -1 exactly on an empty FIFO; otherwise id, length, the payload bytes, and nothing else in the destination changed |
| Bxcan.ExtractIsMask | src/stm32/can.c:217-231 | masking with 0xFF at a byte and shifting down extracts that byte |
| Bxcan.FrameRoundTrip | src/stm32/can.c:146-240 | sending and receiving gives min(len, 8), the same bytes, the same identifier with IDE and RTR, and the rest of the buffer as it was |
| Mcp25625.McpPutEid | src/avr/can.c:155-165 | fills the four registers with the 29 identifier bits and EXIDE, and nothing else |
| Mcp25625.PutLayout | src/avr/can.c:155-165 | the registers recompose to exactly the 29 identifier bits, with EXIDE set and the other bits of SIDL clear |
| Mcp25625.ExtendedOnly | src/avr/can.c:190-197 | an installed filter lets extended frames through only |
| Mcp25625.McpGetEid | src/avr/can.c:170-179 | assembles the identifier; bits 11 to 13 of it are always zero |
| Mcp25625.FilterRefined | src/avr/can.c:190-197 | for extended frames, register-wise masked equality is masked equality of the 29 identifier bits |
| Mcp25625.PutInjective | src/avr/can.c:157-165 | the registers determine exactly the 29 identifier bits |
| Mcp25625.GetAfterPut | src/avr/can.c:157-179 | the identifier read back, exactly |
| Mcp25625.GetInvertsExactly | src/avr/can.c:157-179 | reading inverts writing exactly when identifier bits 3..13 are zero |
| Mcp25625.CommandsPassFilter | src/avr/can.c:190-197 | through these registers a device accepts its own commands and no others |
| Mcp25625.DispatchReadBack | src/avr/can.c:170-179 | what the pump takes each command for when its id went through mcpGetEID |
| Mcp25625.AvrTimesOut | src/avr/can.c:356-359 | with identifiers read that way no schedule touches flash; the device is IDLE until the timer fires and DONE from then on; wherever it fires, the pump goes on to the jump |
| Stm32Timer.Search | src/stm32/timer.c:97-108 | for 1..29825251 us: no int overflow; the smallest prescaler that covers the delay; 0 < arr <= 65535; the shortfall is at most psc ticks and below one 65536th of the delay |
| Stm32Timer.Tim2.TimerStart | src/stm32/timer.c:69-123 | fails exactly on zero delay or no handler; otherwise armed with the values of the search |
| Stm32Timer.Tim2.TimerStop | src/stm32/timer.c:125-131 | counter, update interrupt, interrupt line and clock are off, so the handler cannot be called |
| Stm32Timer.RepeatingStart | src/common/timer.h:15-23 | after any calls, a repeating start repeats if and only if no successful start before it was one-shot (and OPM was clear at first) |
| Stm32Timer.BootloaderTimeout | src/common/main.c:36-59 | for the bootloader's timeout the accurate choice is unique: psc 3295, arr 65532, 3232 ticks short of 216000000 |
| AvrTimer.TicksWrap | src/avr/timer.c:73 | the 32-bit product is 16 times the delay modulo 2^28 us, and exact exactly below that |
| AvrTimer.Search | src/avr/timer.c:58-85 | for every uint32_t delay, with t its ticks: the smallest fitting prescaler P, saturated exactly from 67108864 ticks on, otherwise P*cnt <= t < P*(cnt+1) with error below one 8192th |
| AvrTimer.Timer1.TimerStart | src/avr/timer.c:38-94 | fails exactly on zero delay or no handler; otherwise armed with the values of the search |
| AvrTimer.FiresInTimeExactly | src/avr/timer.c:38-94 | for every delay that is taken: counting up from the chosen count, the overflow comes when the delay has passed or less than one prescaled tick before, if and only if the delay is 2048, 16384, 131072..131075, 524288..524303 or 2097152..2097215 us |
| AvrTimer.BootloaderTimeout | src/common/main.c:36-59 | for the bootloader's timeout the choice is unique, prescaler 1024 and count 46875; the overflow comes after 1194304 us |
| AvrTimer.Timer1.OverflowInterrupt | src/avr/timer.c:24-35 | a one-shot timer calls its handler and cannot fire again |

## Left out

- Clock setup, vector table, `.data`/`.bss` initialisation, the debug LED and reading the device id: plumbing; the device id is a parameter.
- `cnJumpToProgram`: inline assembly, modelled as the end of the run.
- SPI transfers, pin setup, bit timing and the initialisation handshakes of both CAN controllers; of `cnCANInit` only the filter it promises is kept.
- `cnCANSend` and `cnCANRecv` on AVR: their register traffic is SPI. The identifier registers they go through are modelled.
- The result of `cnCANSend` is ignored by the pump: replies are the frames handed to it, and whether a mailbox was free is the subject of `Bxcan`.
- CR1.DIR, CR1.URS, EGR and the pending-interrupt bits of TIM2 are not modelled; of AVR's Timer 1 only what decides when it first overflows.
- Session.RunReached: lets the interrupt fire between messages only; `Interleaving.AfterConsistent` and `Linearization.Linearizable` say what holds when it fires anywhere.
- Session.TimeoutEndsSession: counts timer ticks, between messages only; `Timeout.TimeoutEndsExactly` and `Timeout.TimeoutEndsPump` are the exact statements for an interrupt anywhere, which do not count ticks.
- Replies.UnlockAnswered: lets the interrupt fire between messages only; `Timeout.UnlockReplyExactly` is the statement for an interrupt anywhere.
- Pump.Bootloader.MessagePump: the class handles each message as a whole; the interrupt inside one is the subject of `Interleaving`, whose undisturbed iterations do the same (`IterationRefinesHandle`).
- The body of avr-libc's `_crc_xmodem_update` is not part of this model; it is given the effect of one pass of the STM32 outer loop.
- Stm32Timer.Search: takes delays up to 29825251 us only; beyond that the C code's `int` products overflow and the result is undefined.
- Stm32Flash.StartErase: what the part does when an erase is started while PG is set, or at an address outside of the flash, is not documented; the model refuses it and latches a fault. After a stray COMMIT only the record of operations can be relied on.
- Disabling interrupts around the AVR page write: in `Interleaving` each driver call is one step, which loses nothing because the interrupt only writes `state` and no driver reads it.
- The interrupt firing before the assignment `state = IDLE` at the head of the pump.
- AVR's RWW section handling and the `_safe` busy-waits inside the `boot_page_*` macros.
