# RTK base station firmware: verified model

A Dafny 4.11 model of the parts of the firmware that must not go wrong unattended, with proofs
about whole runs of them. `dafny verify dfyconfig.toml` checks everything.

What is modelled, and what is proved about it:

* **RTCM send path** (`main/interface/ntrip_tx_core.c`, the drain loop in
  `main/interface/ntrip_server.c`). `Polynomials` and `Crc24q` show that the table-driven CRC-24Q
  is division of the message polynomial by 0x1864CFB, and what damage it always detects.
  `RtcmScan` is the simple form of the parser, a recursive scan of the whole byte stream;
  `RtcmParser` is the incremental one over a fixed buffer, proved equal to the scan of everything
  fed. `FrameRing` is the sixteen-slot overwriting ring, tied to the unbounded history of pushes.
  `NtripTx` says what a sender does to its state, `TxSender` is the sender that updates its fields
  and buffer in place, and `TxAccounting` and `TxRuns` prove the end-to-end statement: for any
  UART bytes in any chunks, any interleaving of pushes, copies, sends, failures and reconnects, a
  connection carries whole checked frames in order followed by one prefix, and the same parser at
  the other end recovers exactly those frames. `Wakeups` says what a sequence of wake-ups does to one
  connection and what its reasons to end mean; `DrainLoop` is the loop that serves it.
* **Receiver replies** (`main/gnss_ack.c`). `GnssAck` says without a scan what a complete record
  is and proves that the scanner finds exactly those; `GnssAckScan` is the scanner as it loops;
  `GnssReply` proves which replies decide for their command behind any bytes at all, and that an
  approval is the word OK and nothing else.
* **Freshness of the required messages** (`main/interface/ntrip_server.c`). `MsgFreshness` is a
  state machine of three tasks whose steps are single accesses to shared 32-bit words; `FreshCalls`
  follows a whole call from its clock reading to its answer. `Station` steps that machine together
  with the one of the send path, as the one UART task does, so that what is stamped is what goes
  into the ring; `StationRuns` is a life of the station in which a call misjudges it.
* **Updates** (`main/update.c`). `OtaBootGuard` (boot-loop counter and planned-reboot marker over a
  log), `OtaBootRuns` (which runs of boots end in the factory image), `OtaAttempts` (version order
  and attempt budget), `OtaVersions` (the images that follow each other over installs, rollbacks and
  fallbacks), `OtaConfirm` (when an image is confirmed or rolled back, and what the checks of one
  life of the station say about it), `OtaConfirmRuns` (a life in which a healthy image is rolled
  back), `WebUpdate` (staging and live partition, order of files).
* **Receiver truth and recovery** (`main/gnss.c`, `main/supervisor.c`). `GnssBase` and
  `Supervisor`.

Code that updates state step by step is modelled by classes and loops with ghost histories, and
each method is tied to a function or a history; protocols between tasks are state machines. What
comes from outside (sockets, flash, clocks, receiver replies, reset reasons) is a parameter.

## Where the code does less than it says

Each of these is proved: an input on which the code fails, and the exact condition under which it
does what it promises.

* A reply is lost if its command ends in `$command`: the comma behind the echo completes a record
  start. An OK reply decides behind any bytes if and only if the echoed command neither starts a
  record nor ends one early and is not itself cut by `response:`
  (`GnssReply.OkReplyDecides`, `GnssReply.StraddlingEchoIsLost`).
* A fresh verdict is genuine if and only if the timestamp that the call read is less than 2^32 ms, 49
  days, old (`MsgFreshness.FreshIsGenuineIff`). The reader's comment says that a timestamp read just
  before a newer write is rejected by its tag; it is not, and such a read is how a type silent for
  49 days can make a whole call answer all-fresh (`MsgFreshness.TornReadMisleads`). A device that is
  on for less than 49 days, or on which every type was stamped in the 49 days before the call, is
  safe from it, however the call interleaves (`FreshCalls.StampedAndFreshMeansHeard`). A timestamp
  and a tag of the same frame bound the silence by the age of the epoch
  (`MsgFreshness.TagBoundsSilence`).
* In the other direction, a call that begins with every type heard and tagged answers all-fresh if
  and only if no reset takes effect in it, every sample lies less than 2^31 ms (or a whole number of
  2^32 ms more) behind the start of its epoch, and no sample was stamped later than the clock reading
  of the call (`FreshCalls.HeardAnswersIff`, `FreshCalls.HeardAnswersUndisturbedIff`). So a station
  whose receiver was not reset for 25 days reports every required type missing
  (`MsgFreshness.OldEpochHidesHealth`), and one whose next frame arrives in the middle of the call
  reports that frame's type missing (`StationRuns.LateStampReadsMissing`): the age of a frame stamped
  after the clock was read wraps to 49 days.
* Behind the deadline a pending image is rolled back on one such answer, and the question is asked
  again at every check while the caster is away. A receiver heard when the call began is rolled back
  if and only if the call does not accept it, which in an epoch of less than 25 days without a reset
  in the call means: if and only if a required frame was stamped in the call, from a later clock
  reading, before its word was read (`OtaConfirm.HeardRolledBackIff`,
  `OtaConfirm.HeardRolledBackByClockIff`). In `OtaConfirmRuns.HealthyReceiverRolledBack` a receiver
  that was found fresh by all 180 checks of half an hour is rolled back.
* A coordinate push answers true although the receiver may stand a whole undulation too high: the
  reply to the zero-undulation command is discarded. The receiver is on the coordinate if and only
  if its undulation was zero when it took the base command, and the replies guarantee that if and
  only if a zeroing was answered with OK between the last reset and that command
  (`GnssBase.Session`, `GnssBase.ZeroKnownIff`, `GnssBase.LostZeroing`).
* A coordinate that failed may be tried again within its minute: another try is refused if and only
  if the last thing that happened was a failed try at the same coordinate
  (`GnssBase.RetryRefusedIff`, `GnssBase.OtherCoordinateForgets`).
* A wake-up reads its clock once and then polls while frames keep arriving. A frame received after
  that reading has a wrapped age and is dropped as stale, new as it is. What is dropped as stale was
  older than the limit if and only if the clock was not read before its receipt
  (`TxAccounting.StaleMeansOldIff`, `DrainLoop.LateArrivalIsDropped`).
* The boot-loop counter is one byte. A fault is answered if and only if the number of faults since
  the last clear, modulo 256, has reached five (`OtaBootGuard.FallbackIff`,
  `OtaBootGuard.WrapHidesFaults`). The header comment also says that the health task clears this
  counter; a task of its own does.
* The attempt budget holds for a version if and only if it has at most 23 characters: a longer one
  is never read back from flash (`OtaAttempts.BudgetHoldsIff`).
* The next install is above the last one if and only if nothing older was returned to in between: a
  rolled-back release is newer again and is installed again, as often as its budget allows (`OtaVersions.InstallsIncreaseIff`,
  `OtaVersions.RollbackLoopInstalls`).
* Two versions are each newer than the other if and only if they differ and one of them holds no
  number; exactly then a channel that alternates between them is followed back and forth for ever
  (`OtaAttempts.NewerBothWaysIff`, `OtaVersions.AlternatingInstallsIff`).
* The length check of a firmware download compares the announced length with a running total over
  all files of the release. A release of faultless files installs if and only if no firmware file
  stands behind another file, and behind one a truncated download can pass the check
  (`WebUpdate.FirmwareMustComeFirst`, `WebUpdate.TruncationGoesUnnoticed`).
* The link is to be restarted sixty seconds after its address was lost. What is measured is the age of
  the address, so a link that was up for ninety seconds is restarted one second after it is lost, and
  an outage is aged as it is meant if and only if the address was lost in the instant it was obtained
  (`Supervisor.OutageAgedRightIff`, `Supervisor.ShortOutageRestartsLink`). The same age decides
  whether a silent caster counts as a wedged data path.

## Model

| member | source | states |
|---|---|---|
| Polynomials.DivideSum | main/interface/ntrip_tx_core.c:29-37 | division by the generator is linear: the remainder of a sum is the sum of the remainders |
| Polynomials.DivideInjective | main/interface/ntrip_tx_core.c:29-37 | appending the same bits to different remainders leaves different remainders |
| Polynomials.TrailerMatchesIffDivisible | main/interface/ntrip_tx_core.c:87-91 | a trailer is the checksum of the message if and only if message and trailer together are divisible |
| Polynomials.BurstDetected | main/interface/ntrip_tx_core.c:29-37 | strings that differ only within 24 consecutive bits have different checksums |
| Crc24q.ShiftReduceStep | main/interface/ntrip_tx_core.c:20-23 | one shift-and-reduce of the table construction is one step of the polynomial division |
| Crc24q.CrcStep | main/interface/ntrip_tx_core.c:33-35 | the checksum of one more byte follows from the checksum so far |
| Crc24q.TableStep | main/interface/ntrip_tx_core.c:33-35 | one table look-up continues the division by the eight bits of the next byte |
| Crc24q.Table.Build | main/interface/ntrip_tx_core.c:17-27 | fills all 256 entries with the remainders of their index shifted by sixteen |
| Crc24q.Table.Checksum | main/interface/ntrip_tx_core.c:29-37 | for every length the table-driven loop returns the remainder of bit-by-bit division |
| Crc24q.BitsInjective | main/interface/ntrip_tx_core.c:87-91 | different byte strings of one length are different polynomials |
| Crc24q.GeneratorCoefficients | main/interface/ntrip_tx_core.c:11-12 | the generator is the CRC-24Q polynomial of the standard, coefficient by coefficient |
| RtcmScan.ScanAppend | main/interface/ntrip_tx_core.c:112-144 | scanning a and then b with the rest carried over is scanning a followed by b, for every split |
| RtcmScan.ScanConserves | main/interface/ntrip_tx_core.c:92-107 | every byte is in an emitted frame, discarded or still buffered; every emitted frame passes its checksum |
| RtcmScan.RestIsSettled | main/interface/ntrip_tx_core.c:62-67 | what a scan leaves is empty or an undecided beginning of a frame |
| RtcmScan.DecideStable | main/interface/ntrip_tx_core.c:70-109 | a decision taken on the bytes so far is not changed by more bytes |
| RtcmScan.CleanStream | main/interface/ntrip_tx_core.c:68-110 | whole frames followed by the beginning of one parse back to exactly those, nothing discarded |
| RtcmScan.CleanFrames | main/interface/ntrip_tx_core.c:68-110 | whole frames in front of any bytes are emitted first and change nothing behind them |
| RtcmScan.GarbageSkipped | main/interface/ntrip_tx_core.c:49-60 | garbage in which no frame starts costs exactly itself |
| RtcmScan.LongEnoughDecides | main/interface/ntrip_tx_core.c:83-85 | a false preamble is decided once 1029 bytes follow it |
| RtcmScan.Resynchronises | main/interface/ntrip_tx_core.c:49-110 | a valid frame behind garbage in which no complete frame starts is emitted intact |
| RtcmScan.CrcOkIffDivisible | main/interface/ntrip_tx_core.c:87-91 | the trailer test is divisibility of the whole frame |
| RtcmScan.AdjacentDamageDetected | main/interface/ntrip_tx_core.c:87-91 | two strings that differ only within three adjacent bytes cannot both pass |
| RtcmScan.DamagedFrameRejected | main/interface/ntrip_tx_core.c:87-107 | a frame damaged in up to three adjacent bytes is never a frame of its length, and fails its checksum if the damage is behind the header |
| RtcmScan.DamagedFrameCounted | main/interface/ntrip_tx_core.c:87-107 | damage behind the header costs one byte and counts one checksum error, wherever the frame stands |
| RtcmScan.EncodedIsFrame | main/interface/ntrip_tx_core.c:68-110 | every payload of at most 1023 bytes, sent behind 0xD3 and its length and in front of its checksum, is a frame, and the scan finds exactly it in front of anything |
| RtcmScan.FrameIsEncoded | main/interface/ntrip_tx_core.c:68-110 | and nothing else is a frame |
| RtcmParser.Parser.Reinit | main/interface/ntrip_tx_core.c:41-44 | forgets buffer and counters: as if nothing had been fed |
| RtcmParser.Parser.HuntInBuf | main/interface/ntrip_tx_core.c:49-60 | drops only bytes a scan discards, counts them, and leaves the buffer empty or at a preamble |
| RtcmParser.Parser.TrailerMatches | main/interface/ntrip_tx_core.c:87-91 | the table checksum equals the big-endian trailer if and only if the frame is divisible |
| RtcmParser.Parser.Digest | main/interface/ntrip_tx_core.c:70-109 | one round takes exactly the scan's first decision on the buffer |
| RtcmParser.Parser.Process | main/interface/ntrip_tx_core.c:68-110 | emits the frames of the scan of the buffer, ends settled; terminates because the buffer shrinks |
| RtcmParser.Parser.TopUp | main/interface/ntrip_tx_core.c:129-138 | moves input to the buffer up to the next decision point without losing or reordering a byte |
| RtcmParser.Parser.Feed | main/interface/ntrip_tx_core.c:112-144 | keeps frames, discarded bytes, checksum errors and buffer equal to the scan of everything fed, whatever the chunks |
| FrameRing.PushAgrees | main/interface/ntrip_tx_core.c:159-176 | writing one slot keeps the slots equal to the last sixteen frames of the history |
| FrameRing.CumBytesPush | main/interface/ntrip_tx_core.c:170-171 | a slot's running byte count is the prefix sum through its frame |
| FrameRing.Ring.Push | main/interface/ntrip_tx_core.c:159-176 | appends a frame of admissible length to the history and ignores any other |
| FrameRing.Ring.Lookup | main/interface/ntrip_tx_core.c:178-181 | every sequence number from the oldest resident to the newest is found in its slot with its own bytes, length, receipt time and byte count |
| TxSender.Tx.Abort | main/interface/ntrip_tx_core.c:207-213 | counts the unsent remainder as dropped and forgets the frame |
| TxSender.Tx.ResetConn | main/interface/ntrip_tx_core.c:189-205 | gives up pending and waiting frames with their bytes counted and starts behind the newest frame |
| TxSender.Tx.JumpToOldest | main/interface/ntrip_tx_core.c:235-245 | a lagging cursor moves to the oldest resident frame and counts exactly the frames and bytes lost |
| TxSender.Tx.CopyNext | main/interface/ntrip_tx_core.c:229-280 | computed from ring slots, equals the choice made from the whole history |
| TxSender.Tx.SendOnce | main/interface/ntrip_tx_core.c:295-317 | short sends, EAGAIN, hard errors and zero returns change the sender as specified; what that does to clock and counters is TxAccounting.PollMovesClock and PollCounts |
| TxSender.Tx.Poll | main/interface/ntrip_tx_core.c:282-321 | equals the specified poll over the ring's history, for any send limit and any send results |
| TxSender.Tx.Stalled | main/interface/ntrip_tx_core.c:215-219 | a pending frame without progress for longer than the timeout, on a wrapping clock; what progress is says TxAccounting.StalledIff |
| TxSender.Tx.FrameOverdue | main/interface/ntrip_tx_core.c:221-225 | a pending frame older than the deadline since its receipt, on a wrapping clock |
| TxAccounting.FateCountIsSize | main/interface/ntrip_tx_core.c:196-199 | skipped and stale counters are the sizes of disjoint sets of sequence numbers |
| TxAccounting.FatesPartitionBytes | main/interface/ntrip_tx_core.c:170-173 | copied, skipped and stale bytes together are the bytes below the cursor |
| TxAccounting.BytesConserved | main/interface/ntrip_tx_core.c:189-213 | accepted, pending, dropped, skipped, stale and still-ahead bytes add up to the bytes ever pushed |
| TxAccounting.CopyNextDecides | main/interface/ntrip_tx_core.c:235-276 | first exactly the frames are skipped behind which sixteen more were pushed, then exactly those whose wrapping age exceeds the limit dropped, then the first other one is copied |
| TxAccounting.TooOldIff | main/interface/ntrip_tx_core.c:251-253 | the wrapping age test drops a frame exactly if it is older than the limit or was received after the clock was read |
| TxAccounting.StaleMeansOldIff | main/interface/ntrip_tx_core.c:251-258 | a frame given up as stale was truly older than the limit if and only if the clock was not read before its receipt |
| TxAccounting.SendOnceOk | main/interface/ntrip_tx_core.c:295-317 | a send keeps wire, counters and current frame in step; a hard error closes with the remainder counted |
| TxAccounting.WireParsesBack | main/interface/ntrip_tx_core.c:68-144 | the parser over the accepted bytes returns the frames taken, discards nothing, and leaves the cut frame's prefix |
| TxAccounting.PollOk | main/interface/ntrip_tx_core.c:282-321 | a poll keeps the sender's invariant and its result means what the drain loop takes it to mean |
| TxAccounting.IdleIsCaughtUp | main/interface/ntrip_tx_core.c:288-293 | a poll reports idle only when nothing is pending and the cursor is at the end of the ring |
| TxAccounting.DeadlineIsFrameAge | main/interface/ntrip_tx_core.c:221-225 | corollary of the invariant: the overdue test measures the age of the frame on the wire since its receipt |
| TxAccounting.NoFalseStall | main/interface/ntrip_tx_core.c:265-269 | taking a frame restarts the progress clock, so idle time never counts as a stall |
| TxAccounting.PollMovesClock | main/interface/ntrip_tx_core.c:265-302 | over any poll the progress clock is restarted by every byte accepted and every frame taken, and by nothing else |
| TxAccounting.StalledIff | main/interface/ntrip_tx_core.c:215-219 | in true times: behind a poll a pending frame is stalled if and only if it has waited longer than the timeout since that poll, or, if the poll moved nothing, since the time the clock stood at before |
| TxAccounting.PollCounts | main/interface/ntrip_tx_core.c:282-321 | every frame a poll had or took is counted as sent, still pending or given up with the connection; refusals are counted one by one and the error on record is that of the send that failed |
| TxAccounting.TakeAges | main/interface/ntrip_tx_core.c:270 | the greatest queue age grows exactly to the age of the frame taken |
| TxRuns.StepKeepsInvariant | main/interface/ntrip_tx_core.c:159-321 | every step of every task keeps the invariant of ring, parser and all connections |
| TxRuns.RunKeepsInvariant | main/interface/ntrip_tx_core.c:159-321 | so does every run |
| TxRuns.EndToEnd | main/interface/ntrip_server.c:721-794 | in every reachable state each connection's accepted bytes are whole checked frames in increasing order and one prefix, recovered exactly by the same parser |
| TxRuns.SentIsNewer | main/interface/ntrip_tx_core.c:189-205 | in every run: what a connection sends was pushed after it was made; nothing that waited for it, and no rest of a frame, goes out on it |
| TxRuns.RingFollowsUart | main/interface/ntrip_server.c:931-946 | between re-initialisations the ring's history is the frames of the scan of the UART bytes, in order |
| TxRuns.EveryByteAccounted | main/interface/ntrip_tx_core.c:189-276 | in every reachable state the counters balance and are the sizes of the sets they count |
| TxRuns.FatesAreFinal | main/interface/ntrip_tx_core.c:235-276 | what became of a frame for a sender is decided once and never changes |
| TxRuns.PollIsRun | main/interface/ntrip_tx_core.c:282-321 | an undisturbed poll is a run of its critical sections and sends |
| DrainLoop.PollSame | main/interface/ntrip_tx_core.c:299-308 | accepted bytes are counted on the connection and over the lifetime alike |
| DrainLoop.DrainOnce | main/interface/ntrip_server.c:732-755 | polls until caught up, pushed back or, with bytes accepted in each of 64 polls, capped, with frames arriving in between; reports progress by accepted bytes, not by the last status |
| DrainLoop.WakeUp | main/interface/ntrip_server.c:723-794 | every wake-up drains first; a hard error ends the connection before anything else is sent; a wake-up that moved a byte never ends it for want of progress; the peer is probed whenever a probe is due and a dead one ends the connection; stall, overdue frame and dead peer are reported only when they hold |
| DrainLoop.LateArrivalIsDropped | main/interface/ntrip_server.c:725-755 | a frame that arrives behind the wake-up's clock reading is dropped as stale by the next poll and nothing is sent |
| DrainLoop.Serve | main/interface/ntrip_server.c:685-799 | from handshake to close: exactly the wake-ups up to the first reason to give the connection up or the first request to reconnect are served, and nothing is sent behind them; clean wire, balanced counters, one reconnect counted, and the retry backoff reset exactly if a byte was accepted |
| Wakeups.RestDoesNotMatter | main/interface/ntrip_server.c:721-794 | behind the wake-up that gave a reason nothing that could follow changes where the connection ends or why |
| Wakeups.MovedIsNoStall | main/interface/ntrip_server.c:764-769 | a wake-up in which a byte was accepted or a frame taken does not end the connection for want of progress |
| Wakeups.NoProgressMeansSilence | main/interface/ntrip_server.c:764-769 | a connection given up for want of progress moved no byte and took no frame in any wake-up of the last five seconds |
| Wakeups.StallEndsConnection | main/interface/ntrip_server.c:764-769 | a frame that waits for more than five seconds since anything last moved ends the connection |
| GnssAck.FirstStarExact | main/gnss_ack.c:79-83 | the star search returns the first correctly checksummed star not behind the next record start |
| GnssAck.StarOfExact | main/gnss_ack.c:77-87 | it completes a record if one can be completed at all, and only then |
| GnssAck.RecordsExact | main/gnss_ack.c:65-134 | the scanner judges exactly the complete records of the buffer, in order, each once |
| GnssAck.RecordsExtend | main/gnss_ack.c:72-87 | the records judged in a buffer stay the first records judged in every extension |
| GnssAck.Streaming | main/gnss_ack.c:60-137 | more bytes change a verdict only by a later complete record that judges the same command |
| GnssAck.EchoedVerdictExact | main/gnss_ack.c:111-127 | an echoed text approves if and only if behind spaces it is OK and then only spaces and carriage returns, and refuses if and only if behind spaces it starts with PARSING FAIL |
| GnssAckScan.FindAt | main/gnss_ack.c:12-19 | the bounded search returns the first occurrence, or -1 if there is none |
| GnssAckScan.RecordValidAt | main/gnss_ack.c:49-58 | true exactly if both digits are there and equal the exclusive or from the dollar to the star |
| GnssAckScan.FindStar | main/gnss_ack.c:77-83 | the loop over stars stops at the specified one |
| GnssAckScan.JudgeRecord | main/gnss_ack.c:88-131 | both reply grammars, judged in place in the buffer, agree with judging the text alone, which GnssAck.EchoedVerdictExact and GnssReply.NoEchoJudged say without the trimming |
| GnssAckScan.Scan | main/gnss_ack.c:60-137 | returns the last verdict among the complete records of the buffer |
| GnssReply.RecordsBehind | main/gnss_ack.c:65-87 | behind any bytes the scanner finds what it finds in them and then the complete record |
| GnssReply.RecordDecides | main/gnss_ack.c:72-133 | a complete record decides for its command whatever precedes it |
| GnssReply.OtherCommandsIgnored | main/gnss_ack.c:111 | a complete record that echoes another command changes no verdict |
| GnssReply.ChecksumIsParity | main/gnss_ack.c:49-58 | a checksum is right if and only if each bit of it is the parity of that bit over all characters from the dollar, included, to the star, excluded |
| GnssReply.ReplyVerdictExact | main/gnss_ack.c:111-133 | whatever verdict text a complete reply carries behind any bytes: OK and nothing else approves, PARSING FAIL refuses, and anything else leaves what was known before |
| GnssReply.VerdictTexts | main/gnss_ack.c:112-116 | a carriage return behind OK does no harm; NOT OK and an empty text are no verdict |
| GnssReply.ReplySelfContained | main/gnss_ack.c:72-87 | a printed reply is one record if and only if nothing in the echoed command starts or ends one |
| GnssReply.OkReplyDecides | main/gnss_ack.c:88-128 | an OK reply decides behind any bytes if and only if its command reads back and does not break the record |
| GnssReply.RejectReplyDecides | main/gnss_ack.c:88-126 | PARSING FAIL replies refuse their command behind any bytes and with any plain text behind them if and only if the command reads back and does not break the record |
| GnssReply.NoEchoJudged | main/gnss_ack.c:88-101 | a reply without echo refuses exactly the command it ends in |
| GnssReply.NoEchoRejectDecides | main/gnss_ack.c:88-101 | and does so behind any bytes |
| GnssReply.PlainCommandsUnbroken | main/gnss_ack.c:72-87 | commands without star and dollar never break their reply |
| GnssReply.StraddlingEchoIsLost | main/gnss_ack.c:66-77 | a command ending in "$command" loses its OK reply although it holds no complete record start |
| MsgFreshness.StepInv | main/interface/ntrip_server.c:836-911 | every single-word step keeps timestamps, tags, epochs and half-read samples tied to the frames and resets they came from |
| MsgFreshness.RunInv | main/interface/ntrip_server.c:836-911 | so does every interleaving |
| MsgFreshness.WordsDecide | main/interface/ntrip_server.c:874-882 | for a sample less than one turn of the counter old, the tests on words say that it was received after the start and within budget, with the start in reach |
| MsgFreshness.FreshSample | main/interface/ntrip_server.c:867-885 | a type reads as fresh if and only if its sample is tagged with the snapshot epoch, is a frame received after the start read for it and within its budget, and has that start in reach |
| MsgFreshness.FreshIsGenuineIff | main/interface/ntrip_server.c:867-885 | a fresh verdict is that of a frame received after the start and within budget if and only if the timestamp the call read is less than 2^32 ms old |
| MsgFreshness.TagBoundsSilence | main/interface/ntrip_server.c:864-874 | an untorn sample of the snapshot epoch is no older than the epoch, but for the time a frame takes to be tagged, although tag and timestamp are written and read separately |
| MsgFreshness.EarlierFrameNeverFresh | main/interface/ntrip_server.c:837-847 | a frame stamped at or before the start of the epoch never counts, whatever its tag |
| MsgFreshness.AllFreshMeansHeard | main/interface/ntrip_server.c:854-892 | in every run, all-fresh means a checked frame of each required type after the start of the epoch current at the end of the call and within budget |
| MsgFreshness.AllFreshIff | main/interface/ntrip_server.c:854-892 | unless a word is a whole turn of the counter old, a call answers all-fresh if and only if it is coherent and each sample is tagged with its epoch and is a frame received since the start it read, within budget, with that start in reach |
| MsgFreshness.OldEpochHidesHealth | main/interface/ntrip_server.c:874 | a run in which every type is heard at once and reads as missing, 25 days after the last reset |
| MsgFreshness.TornReadMisleads | main/interface/ntrip_server.c:864-891 | a run whose call answers all-fresh although a type silent for 49 days was not heard after the reset |
| FreshCalls.StepOrdered | main/interface/ntrip_server.c:836-911 | every step keeps each timestamp word that of the latest stamped frame of its type, and no tag ever gives way to an older one |
| FreshCalls.RunsAreCalls | main/interface/ntrip_server.c:854-892 | in every run, between the clock reading of a call and its answer timestamps and samples only move on and current tags stay current while there is no new epoch |
| FreshCalls.LateStampsSuffice | main/interface/ntrip_server.c:867-882 | if no type was silent for 2^32 ms when a call began, none of its samples is that old, however it interleaves |
| FreshCalls.StampedAndFreshMeansHeard | main/interface/ntrip_server.c:854-892 | and then an all-fresh answer means that every required type was heard in the epoch of the call and within budget |
| FreshCalls.HeardAnswersIff | main/interface/ntrip_server.c:854-892 | with every type heard when a call begins, it answers all-fresh if and only if it is coherent and each sample is tagged with its epoch and stamped behind its start, not behind its clock reading, with the start in reach |
| FreshCalls.HeardButNotAccepted | main/interface/ntrip_server.c:856-882 | what keeps a heard type from being accepted is a tag of another epoch, a reset under way, a frame stamped in the call from a later clock reading, or a start out of reach |
| FreshCalls.HeardAnswersUndisturbedIff | main/interface/ntrip_server.c:854-892 | with every type heard and tagged when the call begins and the snapshot of that epoch, the answer is all-fresh if and only if no reset takes effect, every start is in reach and no sample was stamped later than the clock of the call |
| FreshCalls.HeardAnswersInYoungEpochIff | main/interface/ntrip_server.c:874-882 | in an epoch of less than 25 days only the reset and the clock are left |
| Station.RingIsStamped | main/interface/ntrip_server.c:894-927 | in every life of the station the stamps are exactly the frames of the required types that went into the ring, in order, at the times they were received, and the frame in hand |
| Station.HeardIsReceived | main/interface/ntrip_server.c:900-927 | a heard message is a frame received in that time that went or is about to go into the ring |
| Station.LiveIsDataRun | main/interface/ntrip_server.c:931-946 | a life of the station is a run of the send path, so all that holds of those runs holds of it |
| Station.CallsAreCalls | main/interface/ntrip_server.c:854-892 | a call between two turns of a life is a call of the freshness machine |
| StationRuns.LateStampReadsMissing | main/interface/ntrip_server.c:856-882 | a life of 100 ms in which every type is heard and tagged, no reset is near, every start is in reach, and the call answers that one is missing |
| OtaBootGuard.Flash.NotePlannedReboot | main/update.c:968-974 | announces the next software reset as planned |
| OtaBootGuard.Flash.Guard | main/update.c:976-1070 | counter, marker and selection bytes always say what the log of boots says; restarts exactly when it selects the factory image; which boots are faults says OtaBootRuns.FaultsAreBadBoots |
| OtaBootGuard.Flash.ClearBootloop | main/update.c:1238-1258 | surviving 45 minutes clears the count if the write works, else not |
| OtaBootGuard.MarkerExcusesOnce | main/update.c:991-1014 | in every history the excused software resets are at most as many as the announcements |
| OtaBootGuard.NoFifthFaultUnanswered | main/update.c:1016-1069 | with storage working and below the wrap, no image other than the factory one gets past four fault boots |
| OtaBootGuard.FallbackIff | main/update.c:1009-1069 | corollary: when exactly a boot selects the factory image |
| OtaBootGuard.FallbackStartsClean | main/update.c:1062-1069 | a fallback leaves the factory image selected, no faults counted, and its own restart excused |
| OtaBootGuard.FailedEraseRetries | main/update.c:1051-1060 | a failed erase keeps the count, and the next fault boot tries again |
| OtaBootGuard.WrapHidesFaults | main/update.c:1015-1034 | behind 255 faults of the factory image a fault of a new image is not answered |
| OtaBootRuns.MarkerIff | main/update.c:991-996 | the marker stands if and only if some announcement, a planned restart or the guard's own, has not been read by a boot since |
| OtaBootRuns.FaultsAreBadBoots | main/update.c:1009-1013 | the counter counts exactly the boots by crash, watchdog, brownout or unknown reason and the software resets that nobody announced and no installation explains |
| OtaBootRuns.TurnsIff | main/update.c:1009-1069 | in every run, told from the boots alone: when exactly one of them turns to the factory image |
| OtaBootRuns.FiveBadBootsTurn | main/update.c:1009-1069 | with storage working, no survival and the count below its wrap, five bad boots of an image end in the factory one, whatever happens between them |
| OtaBootRuns.HarmlessBootsChangeNothing | main/update.c:1015-1024 | no number of power-ons, external resets, wake-ups from sleep and announced or installing restarts brings it nearer |
| OtaBootRuns.RestartLoopEnds | main/update.c:981-987 | the fifth unannounced software restart of a confirmed image turns to the factory image, and no earlier one |
| OtaAttempts.VersionIsNewer | main/update.c:111-121 | true if and only if the first of three numbers in which the versions differ is greater in the candidate; difference if one of them holds no number |
| OtaAttempts.NewerBothWaysIff | main/update.c:111-121 | two versions are each newer than the other if and only if they differ and one of them holds no number |
| OtaAttempts.NewerTransitive | main/update.c:111-121 | among parseable versions being newer is a strict order whose complement composes with it |
| OtaAttempts.PrintedReadsBack | main/update.c:112-114 | a version printed as one to three decimal numbers reads back as those numbers, the missing ones zero |
| OtaAttempts.PrintedNewerIff | main/update.c:108-121 | releases are ordered by their numbers, as numbers: 1.0.10 is newer than 1.0.9 |
| OtaAttempts.ReleaseFetchedIff | main/update.c:128-175 | a device fetches, or restarts for, a published release if and only if it is greater than the running one, there is room, and fewer than three attempts are booked |
| OtaAttempts.Budget.AttemptAllowed | main/update.c:128-155 | refuses exactly a spent version and books every other attempt before it starts |
| OtaAttempts.Budget.AttemptsExhausted | main/update.c:164-175 | says spent exactly when the booking function would refuse, and writes nothing |
| OtaAttempts.Budget.ClearAttempts | main/update.c:1217-1225 | a confirmation forgets the booked version |
| OtaAttempts.Budget.BootCheck | main/update.c:835-925 | downloads only a newer version with room for it and budget left; a deferral books nothing |
| OtaAttempts.Budget.DailyPoll | main/update.c:1338-1361 | restarts only for a newer version whose budget is not spent |
| OtaAttempts.AtMostThreeDownloads | main/update.c:128-155 | over every run with storage working at most three downloads of a version start before another is booked or one confirmed |
| OtaAttempts.SpentStaysSpent | main/update.c:907-912 | once spent, no boot check or poll about the version does anything |
| OtaAttempts.BudgetHoldsIff | main/update.c:134-140 | repeated boots stay within three downloads if and only if the version has at most 23 characters |
| OtaVersions.DownloadsAreNewer | main/update.c:853-914 | in every life of a device each download and install is newer than the version running at that moment |
| OtaVersions.InstallsIncrease | main/update.c:853-914 | without a rollback or fallback in between, a later download or install is strictly newer than an earlier install |
| OtaVersions.InstallsIncreaseIff | main/update.c:853-914 | in every life: whatever is published next is installed only above the last install if and only if nothing was returned to since or nothing older, which without a factory fallback means that it was not rolled back |
| OtaVersions.RollbackLoopInstalls | main/update.c:128-155 | a release that is rolled back each time is installed exactly as often as its budget allows, and every time if its version cannot be read back |
| OtaVersions.AlternatingInstallsIff | main/update.c:115 | a channel alternating between two versions is followed for ever if and only if they differ and one holds no number |
| OtaConfirm.Watch | main/update.c:1082-1189 | the running count of good checks decides exactly at three good intervals in a row, and the first deciding check ends the loop |
| OtaConfirm.MarkValidTask | main/update.c:1079-1227 | confirms or rolls back only as decided and only a pending image; attempts are forgotten only behind a confirmation that worked |
| OtaConfirm.DeltaNeverOverstates | main/update.c:1102-1103 | the clamped counter difference never exceeds the frames received in between, across any parser restarts |
| OtaConfirm.RunAccepts | main/update.c:1097-1103 | the total of accepted bytes grows by exactly what the sockets took, across connections that break, close and are made again |
| OtaConfirm.FreshMeansReceived | main/update.c:1099-1100 | an all-fresh answer in a life of the station, with no type silent for 49 days, stands for a frame of every required type received in time on its way into the ring |
| OtaConfirm.ConfirmedMeansAlive | main/update.c:1097-1123 | in every life of the station, with no required type silent for 49 days, a semantic confirmation comes at the fourth check or later behind three intervals that each brought ten new frames out of the parser, 2048 bytes onto sockets, a frame of every required type received in the epoch and within budget, and no recovery |
| OtaConfirm.HealthyIsConfirmed | main/update.c:1102-1123 | three intervals in a row with ten frames, 2048 bytes, a fresh answer and no recovery are enough, from the fourth check on |
| OtaConfirm.UnprovisionedIff | main/update.c:1126-1133 | exactly a device without any connection configured is confirmed as unprovisioned, after ten minutes and with 20 KiB of memory free |
| OtaConfirm.RollbackMeansLocalFault | main/update.c:1135-1188 | behind a rollback, after 30 minutes and without health ever shown, a required type was not heard when the deciding call began, or a reset took effect in the call, or a type met with another epoch's tag, a reset under way, a frame stamped in the call from a later clock reading, or a start out of reach |
| OtaConfirm.HeardRolledBackIff | main/update.c:1150-1152 | behind the deadline a receiver heard when the call began is rolled back if and only if the call is not coherent or does not accept some sample |
| OtaConfirm.HeardRolledBackByClockIff | main/update.c:1150-1152 | heard and tagged, in an epoch of less than 25 days with no reset in the call: if and only if some sample was stamped later than the clock of the call |
| OtaConfirm.DeafReceiverRolledBack | main/update.c:1150-1180 | behind the deadline an image whose receiver did not deliver some required type in time is rolled back |
| OtaConfirmRuns.HealthyReceiverRolledBack | main/update.c:1135-1188 | a life of half an hour in which every required type is heard before every check, all 180 checks find them fresh, and the image is rolled back |
| WebUpdate.Device.CopyToLive | main/update.c:364-433 | succeeds exactly if nothing fails and the copy fits, and then the live partition is the staging copy, erased behind it; a copy that breaks off leaves its first part in front of erased flash, a failed erase a partly erased partition |
| WebUpdate.Device.Receive | main/update.c:518-541 | chunks land behind one another, and success means the whole body was written |
| WebUpdate.Device.UpdateWeb | main/update.c:435-596 | the live partition is untouched unless the staging copy is complete; success means it equals it, and failure behind that point leaves what the broken copy left |
| WebUpdate.Device.UpdateSlot | main/update.c:233-342 | the new slot is selected exactly on success, which compares the running total with the announced length |
| WebUpdate.Device.InstallRelease | main/update.c:679-738 | succeeds exactly if every file applies in its place; the live partition survives any release whose web download is incomplete |
| WebUpdate.InstalledIsWhole | main/update.c:263-322 | what an installed file stands for: status, length, reads and writes |
| WebUpdate.FirmwareMustComeFirst | main/update.c:263-322 | a release of faultless files installs if and only if no firmware stands behind another file |
| WebUpdate.TruncationGoesUnnoticed | main/update.c:311-317 | firmware cut short by exactly what came before it passes the length check |
| GnssBase.RoundedNear | main/gnss.c:457-459 | printing rounds by at most half a unit of the last digit |
| GnssBase.FirstVerdictDecides | main/gnss.c:134-194 | an exchange is acknowledged if and only if the first of its sendings that was answered was answered with OK |
| GnssBase.ValidIffOnEarth | main/gnss.c:399-407 | the gate lets through exactly the coordinates in range, not the origin, at a height between -500 and 9000 metres |
| GnssBase.Base.SendAcked | main/gnss.c:134-194 | resends until the first verdict; true means applied, false means nothing |
| GnssBase.Base.ResetPulse | main/gnss.c:200-215 | afterwards nothing about the receiver is believed and the cooldown is gone |
| GnssBase.Base.Configure | main/gnss.c:311-397 | latches exactly an acknowledged restore of a stored valid coordinate; a survey drops the latch |
| GnssBase.Base.Recover | main/gnss.c:500-507 | whatever the receiver is after the reset, the latch is true again when the lock is released |
| GnssBase.Base.SetFixedBase | main/gnss.c:399-498 | true means the receiver took the latched coordinate as printed; invalid, latched and cooling calls send nothing; otherwise exactly one exchange, whose acknowledged mode alone settles the latch, whose answered zeroing is known to be in force, and which a true answer ends in an acknowledged save |
| GnssBase.PrintedWithinTolerance | main/gnss.c:425-428 | a printed latched coordinate is within 1.5e-9 degrees and 0.55 mm of any request the gate lets through |
| GnssBase.OnCoordinateIff | main/gnss.c:317-330 | where the undulation is more than a millimetre, the broadcast height is right if and only if the undulation was zero when the base command was taken |
| GnssBase.ZeroKnownIff | main/gnss.c:461-469 | in every course of events with the same replies the undulation was zero, if and only if a zeroing was answered with OK between the last reset and the base command |
| GnssBase.SpacedAppend | main/gnss.c:448-455 | a try the cooldown lets through keeps all failed tries at one coordinate a minute apart while nothing else lies between |
| GnssBase.RetryRefusedIff | main/gnss.c:448-455 | within a minute of a failed try another is refused if and only if the last thing that happened was a failed try at that coordinate |
| GnssBase.Session | main/gnss.c:399-507 | over any sequence of pushes and recoveries: no coordinate off the Earth is ever sent, what every true answer is worth for position and height, and the spacing of failed tries |
| GnssBase.LostZeroing | main/gnss.c:468 | a call that answers true with the receiver a whole undulation off |
| GnssBase.OtherCoordinateForgets | main/gnss.c:446-492 | a run in which a failed coordinate is tried again at once, behind another one |
| Supervisor.ArmedByHandshake | main/supervisor.c:104-107 | before any send the progress time is that of the first handshake |
| Supervisor.HandshakesNeverMove | main/supervisor.c:92-108 | once armed, no number of bare handshakes moves the caster's progress time |
| Supervisor.ProgressIsLastSend | main/supervisor.c:92-108 | the progress time is that of the last positive send |
| Supervisor.DeadCasterIsSeen | main/supervisor.c:175-177 | thirty seconds after the last positive send the caster counts as silent, handshakes or not |
| Supervisor.PacedNext | main/supervisor.c:197-222 | an action allowed by the debounce keeps the k-th action behind the grace period and k-1 debounces |
| Supervisor.LowRunIsTail | main/supervisor.c:159-170 | the low-memory streak reaches fifteen exactly if the last fifteen checks were low |
| Supervisor.Watch.SilencesMean | main/supervisor.c:170-182 | the ladder's three ages, told from the reports: no frame since the last one or since power-on, no progress of a caster once tried, and the age of the last address of a link that is down |
| Supervisor.OutageAgedRightIff | main/supervisor.c:110-113 | an outage is aged from its beginning if and only if the address was lost in the instant it was obtained |
| Supervisor.ShortOutageRestartsLink | main/supervisor.c:180-206 | a link that was up for ninety seconds is restarted one second after it is lost |
| Supervisor.Watch.NoteCasterTx | main/supervisor.c:92-108 | keeps the timestamp equal to the progress of all reports |
| Supervisor.Watch.Tick | main/supervisor.c:143-224 | acts on a rung exactly if the reports so far, registration and debounce say so, and reboots exactly on exhausted memory or a wedged data path |
| Supervisor.Patrol | main/supervisor.c:143-224 | over every run the watch knows exactly the reports of the run, and the k-th action of a rung comes no earlier than 30 + (k-1) debounces seconds after power-on |

## Left out

- FrameRing.Ring.Push: requires fewer than 2^32 pushes; the code compares sequence numbers without wrap handling.
- MsgFreshness.AllFreshMeansHeard: assumes that a call is shorter than 2^31 - 30000 ms, that none of the timestamps it read is 2^32 ms old (exact by FreshIsGenuineIff, and guaranteed for types stamped in time by FreshCalls.LateStampsSuffice), fewer than 2^32 resets, and sequentially consistent words.
- MsgFreshness.TagBoundsSilence: bounds the time a frame is in flight by a parameter of the machine.
- TxAccounting.StaleMeansOldIff: clock readings and receipt times are true times less than 2^32 ms apart.
- MsgFreshness.StepInv: follows one reader, since readers write nothing another could see.
- Station.RingIsStamped: the parser may start over at any chunk; that it does so at the first one behind a reset request is not tied to the request.
- OtaBootGuard.NoFifthFaultUnanswered: assumes that opened NVS namespaces can be read and written; opening may fail.
- OtaAttempts.Budget.BootCheck: memory, uplink and closing of the access point before a download are one flag; versions longer than NVS strings allow are not modelled.
- OtaAttempts.VersionIsNewer: numbers are unbounded, where `sscanf` would overflow an `int`.
- OtaConfirm.MarkValidTask: the checks are a finite sequence of readings; after the last one the task is still waiting.
- OtaVersions.DownloadsAreNewer: an image that installs reports the version its release was published under.
- OtaConfirm.ConfirmedMeansAlive: the recovery count and the free heap are readings of their own, not tied to a run of the supervisor; a check reads all totals at one moment; the ten seconds between checks are not required, and the life may do anything in them.
- WebUpdate.Device.Receive: flash cells take what is written behind an erase, and a failed erase has erased a first part; progress reports and the size estimate are left out.
- GnssBase.Base.SendAcked: a reply is its verdict, as GnssAckScan.Scan computes it from the capture; the capture buffer's overflow and the text of commands other than the coordinate are left out.
- GnssBase.Base.SetFixedBase: coordinates are real numbers, so rounding in `double` arithmetic and in the NVS blob is not modelled.
- Supervisor.Watch.Tick: reports of other tasks arrive between passes, not within one.
- DrainLoop.Serve: frames arrive between polls; arrivals inside a poll are covered by TxRuns. Dialling, handshake text, LEDs and logs are left out.
- TxRuns.EndToEnd: lock-granular steps; the mutexes themselves, task scheduling and notifications are left out.
- RtcmParser.Parser.Feed: the callback's frames are returned as a sequence; counters are unbounded where the code has 64-bit ones.
- TxSender.Tx.Poll: the send callback honours its contract not to accept more than offered; errno values are those of lwIP.
- GnssAckScan.Scan: null pointers are not modelled; characters stand for bytes and are below 256.
- Sockets, DNS, TLS, HTTP, cJSON, FreeRTOS, UART driver, NVS and flash internals: libraries; their results are parameters.
- Configuration storage, web server, Wi-Fi, provisioning, enrolment, telemetry, statistics, DNS label walk, retry table: event plumbing and formatting outside the modelled components.
- The byte queue of `main/uart.c`: not instantiated by the firmware.
- `ota_check_newupdate`: never started, and it bypasses the attempt budget.
- That a reconnect request always yields the newest credentials: only requests behind the generation snapshot are covered by the code.
- That a failed update leaves the boot selection alone: it may already be switched when a later file fails.
