# Verified model of the epoll / thread-pool server

This project models the protocol and concurrency core of a C++ server for
measuring devices and proves properties of it with Dafny 4.11. Run
`dafny verify dfyconfig.toml` in this directory.

The server accepts device connections, runs one handler per connection on a
thread pool, talks to each device over a stop-and-wait link on a TCP socket
(SLIP frames, CRC, ACK/NACK, bounded retry, heartbeats), reassembles raw data
sets that arrive in blocks, sends files in blocks, and writes to MySQL through
a connection pool.

| file | what it models |
|---|---|
| `Bytes.dfy` | words, bytes, lists whose elements may stutter |
| `Slip.dfy` | SLIP (section "PROTOCOL" of RFC 1055) and the read loop with its idle budget |
| `Socket.dfy` | the partial-progress loops of `iputil.c`, and the epoll interest each runs under |
| `AmiLink.dfy` | `amilink.cpp` on bytes: one end of the link as a value and as a class; injected loss |
| `Dialogue.dfy` | two ends in lock-step on the actual bytes, with an answer in the way, and with other connections about |
| `LinkProtocol.dfy` | `amilink.cpp` as two ends and two FIFO channels, every interleaving |
| `Assembly.dfy` | block reassembly, in place and as a step function; the insert loops |
| `Transfer.dfy` | the chunk loops and the round trip through the assembler |
| `EndToEnd.dfy` | link, assembler and insert loops together |
| `Refinement.dfy` | the byte-level ends as a refinement of the two-channel system, and end to end from the bytes |
| `Sample.dfy` | a concrete wire and data set for which the end-to-end assumptions hold |
| `Server.dfy` | the request handlers and the handler loop of one connection |
| `ThreadPool.dfy` | the thread pool as critical sections and notifications, every interleaving |
| `ConnectionPool.dfy` | the MySQL connection pool |

How to read it. Each class holds the source's fields and one method per
function (per critical section where a mutex divides the function); each method
is proved equal to a step function on values, and the theorems are about runs
of those step functions. `Run` ranges over all finite sequences of actions, and
an action that is not enabled changes nothing, so a theorem about `Run` is a
theorem about every reachable state.

What the environment decides is a parameter and is universally quantified: the
bytes that arrive and when, what each `send` accepts, the answers of the
database, which sleeper a notification picks, the order of all steps. What is
not part of the source tree stays symbolic: struct sizes, `MQS_CLD_*` constants,
the CRC, and where headers keep their fields (`Layout`, `Format`).

Results that limit what the code promises:

- The link has no sequence numbers. In every interleaving the receiver accepts
  `m1^k1 m2^k2 ...` in send order with each `ki` within the retry limit
  (`LogStutters`). "Returned its length" implies "was accepted" exactly when no
  ACK, and no frame that will cause one, is left over when the send begins
  (`SuccessMeansDeliveredIff`); such a leftover is reachable (`StaleAckReached`).
- The converse depends on the message. One that is not answered is reported as
  sent whenever the two loss counters leave a gap (`DuplexOutcome`). One that is
  answered is reported as sent exactly when the ACK of the first copy that
  arrives comes through: otherwise the answer and the retries use each other up
  and linkSendRetry returns 0, although the message was accepted
  (`AnsweredOutcome`), so with any loss at the sender no retry limit suffices
  (`AnsweredAlwaysIff`). Among raw data blocks only the one that completes the
  set is answered; the end-to-end results ask of it only that it arrives.
- The loss counter is one static for the whole process. The lock-step results are
  for a receiver with one active connection: reads on others can bring the counter
  round so that every attempt is dropped, whatever the limit
  (`OthersDefeatRetries`).
- A raw data set of two or more blocks is inserted once however the blocks
  stutter; one that fits a single block is inserted once per copy
  (`SingleBlockRepeats`). The assembler does not notice a missing middle block
  (`InsertsPayloadIff`).
- After a CRC mismatch `readMessage` clears `rawLength`, not `messageLength`,
  so amilinkReadMessage returns the length of the first DATA frame, copied or not
  (`FirstDataFrame`). The end-to-end results therefore exclude damaged frames.
- The bound check of the assembler protects the copy only while `offset + length`
  does not wrap 32 bits and `length` stays within the payload area
  (`AcceptedCopyFits`, with an accepted block for each failure:
  `WrappingBlockAccepted`, `OverlongBlockAccepted`).
- The counts checked on the first block stay those in memory exactly while every
  accepted block keeps them (`CountsSurviveIff`); a block that begins inside the
  header need not (`OverlapBreaksCounts`). The insert loops read inside the set
  exactly when the points called for fit it (`ReadsInsideIff`), and visit all of a
  checked set exactly while its counts do not wrap (`SweepIff`,
  `WrappingCountsAccepted`).
- `resume` notifies `pauseCondition` only. A run loses no wakeup exactly when it
  never resumes a paused pool with a task queued, all workers asleep and no
  notify_one under way (`LiveIff`); such a resume is reachable (`ResumeStrands`).
- Each attempt of `getConnection` ends, whatever the database does afterwards,
  exactly when a queued handle is good, or nothing queued is good and no
  replacement can be opened, or the first connection it opens passes its first
  check (`EndsIff`). Connections opened earlier may have died, checked before or
  not (`WorkingFromNowOn`, `OutageThrows`). Otherwise the inner loop can turn
  forever with the mutex held (`MaySpin`).

## Model

| member | source | states |
|---|---|---|
| Slip.BodyLength | src/socket-utilities/amilink.cpp:60 | SLIP at most doubles a frame and never shortens it |
| Slip.EncodingFitsIff | src/socket-utilities/amilink.cpp:15 | XMIT_BUFFER_MAX_SIZE holds the encoding of every frame of length n exactly when n is smaller than MqsCldFrame_t |
| Slip.FeedBody | src/socket-utilities/amilink.cpp:240 | decoding byte by byte inverts the encoding, from any point inside a frame |
| Slip.Scan | src/socket-utilities/amilink.cpp:227-261 | the read loop never returns more than the frame buffer holds, and a non-empty frame has used up input |
| Slip.ReadsBack | src/socket-utilities/amilink.cpp:215-261 | a frame that arrives with idle polls within the budget is returned exactly and nothing after it is consumed |
| Slip.FramingRoundTrip | src/socket-utilities/amilink.cpp:215-261 | any sequence of frames sent one after the other is read back as that sequence |
| Slip.TooLate | src/socket-utilities/amilink.cpp:227-258 | a frame that has not ended when its idle polls are worth the budget is given up at that poll: the read returns 0, and what comes later is left for the next read |
| Slip.SpecialBytes | src/socket-utilities/amilink.cpp:60 | END and ESC go out as RFC 1055 has them, and one END follows |
| Socket.ProgressStops | src/socket-utilities/iputil.c:194-215 | the loop stops short exactly at an EAGAIN or an error, the last outcome it looks at, with the sum of what was taken before, and reports an error exactly then; no send is made without need |
| Socket.Socket.IPUtilSendData | src/socket-utilities/iputil.c:194-215 | the bytes accepted are a prefix of the buffer, also when an error hides their number; one send event under the current interest |
| Socket.Socket.IPUtilReceiveData | src/socket-utilities/iputil.c:172-191 | the buffer is filled in place with what arrived, up to maxlen, EAGAIN, close or error, and is otherwise unchanged |
| Socket.ReceiveConserves | src/socket-utilities/iputil.c:172-191 | receiving neither loses nor reorders bytes |
| Socket.ReceiveStops | src/socket-utilities/iputil.c:172-191 | it reads the bytes of the first polls, and stops short exactly at a poll without a byte; a failed one is an error |
| Socket.ReceiveSplits | src/socket-utilities/iputil.c:172-191 | a full receive followed by another reads what one larger receive would |
| AmiLink.HeartbeatsAreTransparent | src/socket-utilities/amilink.cpp:148-173 | any number of heartbeat frames in front of a frame leaves the result of readFrame unchanged |
| AmiLink.HeartbeatsChangeNothing | src/socket-utilities/amilink.cpp:109-213 | and therefore those of readAck and readMessage |
| AmiLink.Exchange | src/socket-utilities/amilink.cpp:44-213 | if the bytes each end sends reach the other in order and in time, among heartbeats, the receiver holds the message and the sender returns its length |
| AmiLink.AckMeans | src/socket-utilities/amilink.cpp:44-78 | whatever header and data come, among heartbeats and in time: linkSendData returns the length exactly for a bare header with the seed and CMD_ACK that is not dropped, and 0 for a NACK, another CRC, or a frame with data |
| AmiLink.MessageMeans | src/socket-utilities/amilink.cpp:175-213 | whatever header and data come: only CMD_DATA is answered; if the CRC sent is that of the data, they are in the message and an ACK is on the wire, else the message is untouched and a NACK is; the length is that of the data both times |
| AmiLink.LateMeans | src/socket-utilities/amilink.cpp:227-258 | a frame too late for the budget acknowledges nothing and is not read |
| AmiLink.HeartbeatMeans | src/socket-utilities/amilink.cpp:384-406 | true exactly when a bare header with the seed and CMD_HEARTBEAT has gone out in full; the far readFrame reads on behind it |
| AmiLink.RetryShape | src/socket-utilities/amilink.cpp:80-90 | linkSendRetry transmits the same frame, each time as far as the socket takes it, until it is acknowledged or the limit is reached; it returns 0 only after exactly MQS_CLD_RETRY_MAX transmissions |
| AmiLink.RetryStops | src/socket-utilities/amilink.cpp:80-90 | linkSendRetry stops at the first attempt that succeeds, and otherwise after the last one allowed |
| AmiLink.FirstDataFrame | src/socket-utilities/amilink.cpp:372-382 | over the whole loop: 0 when none of the reads finds data, else at once the length of the first DATA frame that carries some; the message is its payload exactly if the CRC matches (and it was ACKed), else untouched (and NACKed) |
| AmiLink.LossBounds | src/socket-utilities/amilink.cpp:162-171 | over n frames from any counter value the injector drops the quotient of counter plus n by the interval |
| AmiLink.LossRate | src/socket-utilities/amilink.cpp:162-171 | of n frames read from the start, exactly n / interval are dropped |
| AmiLink.LockStepIff | src/socket-utilities/amilink.cpp:80-90 | for all loss intervals and retry limits: whether the retries survive injected loss at both ends from every phase of the counters |
| Dialogue.HeartbeatArrives | src/socket-utilities/amilink.cpp:384-406 | the bytes of amilinkHeartbeat, as they come, are what readFrame skips |
| Dialogue.AttemptOutcome | src/socket-utilities/amilink.cpp:44-78 | one attempt with both ends live, on the actual bytes, succeeds exactly when neither injector fires, hands the message over exactly when the receiver's does not, and each injector counts one frame |
| Dialogue.DamagedFails | src/socket-utilities/amilink.cpp:196-205 | an attempt whose DATA frame arrives with a CRC that is not that of its data: NACKed, and 0 at the sender, whatever the injectors do; the receiver's handler is called with the old buffer unless its injector fires |
| Dialogue.DuplexOutcome | src/socket-utilities/amilink.cpp:80-90 | for a message its receiver does not answer: linkSendRetry, on the actual bytes, succeeds exactly when the two loss counters leave a gap within the limit; the handler gets the message as often as the counters let a DATA frame through |
| Dialogue.CrossedFails | src/socket-utilities/amilink.cpp:109-146 | an attempt while the other end is in linkSendRetry too: both fail, each readAck having met the other's DATA frame |
| Dialogue.AnsweredOutcome | src/socket-utilities/amilink.cpp:80-90 | for a message its receiver answers: handed over, once, exactly when its counter lets a DATA frame through; linkSendRetry returns the length exactly when the ACK of that first copy passes the sender's counter, and else 0 |
| Dialogue.AnsweredAlwaysIff | src/socket-utilities/amilink.cpp:162-171 | that is so from every phase of the counters exactly when the sender drops nothing, the receiver no two frames in a row, and there are two attempts |
| Dialogue.OthersDefeatRetries | src/socket-utilities/amilink.cpp:148-171 | whatever the limit and the receiver's interval, reads on other connections between the attempts can make all of them fail |
| Dialogue.AloneIsRetried | src/socket-utilities/amilink.cpp:80-90 | without reads on other connections it is the plain retry loop |
| Dialogue.HandedOverIff | src/socket-utilities/amilink.cpp:162-171 | a DATA frame gets through from every phase of the receiver's counter exactly when it drops no two frames in a row and there are two attempts |
| AmiLink.Link.SlipCharToRawChars | src/socket-utilities/amilink.cpp:240 | the frame buffer is decoded in place, one byte at a time |
| AmiLink.Link.ReadPhysicalFrame | src/socket-utilities/amilink.cpp:215-261 | the loop fills the frame in place as the scan function says, stops for good, and receives only under EPOLLIN |
| AmiLink.Link.ReadFrame | src/socket-utilities/amilink.cpp:148-173 | heartbeats are skipped and the static counter advances as specified |
| AmiLink.Link.ReadAck | src/socket-utilities/amilink.cpp:109-146 | ACK only for a bare header with the seed CRC and CMD_ACK |
| AmiLink.Link.LinkSendData | src/socket-utilities/amilink.cpp:44-78 | one attempt as specified; sends under EPOLLOUT, waits under EPOLLIN, ends registered for EPOLLIN |
| AmiLink.Link.LinkSendRetry | src/socket-utilities/amilink.cpp:80-90 | the retry loop as specified; returns 0 or the length |
| AmiLink.Link.ReadMessage | src/socket-utilities/amilink.cpp:175-213 | copies in place and answers as specified; the answer goes out under EPOLLOUT and EPOLLIN is restored |
| AmiLink.Link.AmilinkReadMessage | src/socket-utilities/amilink.cpp:372-382 | the receive retry loop as specified |
| AmiLink.Link.AmilinkHeartbeat | src/socket-utilities/amilink.cpp:384-406 | true exactly when every byte was accepted; interest is switched and restored |
| LinkProtocol.AckAccounting | src/socket-utilities/amilink.cpp:72-77 | in every interleaving ACKs read, in flight and lost add up to ACKs sent, which are the accepted copies, and successful sends are the ACKs read |
| LinkProtocol.AlwaysOrdered | src/socket-utilities/amilink.cpp:44-90 | in every interleaving the accepted and in-flight frames are in send order, and no send has more frames than its retry counter allows |
| LinkProtocol.SortedLogExpands | src/socket-utilities/amilink.cpp:187-194 | a log in send order is each message repeated as often as it was accepted |
| LinkProtocol.LogStutters | src/socket-utilities/amilink.cpp:80-90 | under every schedule the receiver accepts m1^k1 m2^k2 ... in send order with every ki at most MQS_CLD_RETRY_MAX |
| LinkProtocol.CleanSuccess | src/socket-utilities/amilink.cpp:80-90 | whatever is lost, damaged, slow, or sent by the far end in between: if no ACK is left over whenever a send begins, a send that reports success was accepted at least once |
| LinkProtocol.PromptIsClean | src/socket-utilities/amilink.cpp:72-77 | that is so on a channel that drops or damages but does not delay, while the far end sends nothing of its own |
| LinkProtocol.AsGoodAsNew | src/socket-utilities/amilink.cpp:44-90 | a run from any idle state with nothing in flight is a run from the start on top of it |
| LinkProtocol.SuccessMeansDeliveredIff | src/socket-utilities/amilink.cpp:72-77 | success means accepted, under every continuation, exactly when no ACK or ACK-causing frame is left over at the start of the send |
| LinkProtocol.Misleading | src/socket-utilities/amilink.cpp:72-77 | from any state with a stale ACK, a schedule that reports success for a message nobody accepted |
| LinkProtocol.StaleAckReached | src/socket-utilities/amilink.cpp:72-77 | an idle state with a stale ACK is reached when a send gives up on a slow frame |
| Assembly.AcceptedCopyFits | src/server-core/server.cpp:40-92 | the copy of an accepted block stays inside the buffer and the payload area exactly when offset + length does not wrap and length is within the payload area |
| Assembly.WrappingBlockAccepted | src/server-core/server.cpp:46 | an accepted block whose offset + length wraps, copied behind the buffer |
| Assembly.OverlongBlockAccepted | src/server-core/server.cpp:179 | an accepted block longer than its payload area |
| Assembly.Step | src/server-core/server.cpp:170-199 | for every block that is rejected or whose copy fits: buffer null exactly when maxAssemblyLength is 0, buffer of that size, header bytes always initialised |
| Assembly.PassesCheckIff | src/server-core/server.cpp:46-79 | exactly which blocks pass the check, in 32-bit arithmetic |
| Assembly.RejectedChangesNothing | src/server-core/server.cpp:174 | one that does not pass leaves buffer, maxAssemblyLength and the inserted sets alone |
| Assembly.RejectedMakeNoDifference | src/server-core/server.cpp:174 | blocks rejected where they stand may be left out of any sequence |
| Assembly.OthersMakeNoDifference | src/server-core/server.cpp:77 | in particular later blocks that announce another length |
| Assembly.CutAmongOthers | src/server-core/server.cpp:170-198 | a stuttering cut among such blocks still gives the one insert |
| Assembly.AssemblyBuffer.CheckAssemblyBuffer | src/server-core/server.cpp:40-92 | accepts as the check says; reallocates keeping the old bytes; a rejected block changes nothing |
| Assembly.AssemblyBuffer.ReallocBuffer | src/server-core/server.cpp:58-59 | the old bytes up to the new size, the rest undefined |
| Assembly.AssemblyBuffer.HandleRawDataPushRequest | src/server-core/server.cpp:170-199 | any block, in place: the step function; rejected exactly when it fails the check, and then nothing changed; completed exactly when a set was inserted; stops exactly where the copy would leave its memory |
| Assembly.ProcessAlike | src/server-core/server.cpp:179 | what is behind a block's length in its payload area makes no difference over any sequence of blocks |
| Assembly.CompletesOnce | src/server-core/server.cpp:170-198 | two or more stuttering blocks whose first and last arrive complete exactly once from any earlier state, with the delivered blocks laid over the reallocated buffer |
| Assembly.StutterAssembles | src/server-core/server.cpp:170-198 | if no block is missing, the one inserted set is the original |
| Assembly.InsertsPayloadIff | src/server-core/server.cpp:170-198 | on a new connection with first and last block delivered, the inserted set is the original if and only if no block is missing |
| Assembly.SingleBlockRepeats | src/server-core/server.cpp:170-198 | a set that fits one block is inserted once per copy received |
| Assembly.StepKeepsCountsIff | src/server-core/server.cpp:179 | after one block the counts in memory agree with the length exactly when the header it leaves, partly overwritten perhaps, calls for the same length |
| Assembly.CountsSurviveIff | src/server-core/server.cpp:53-59 | over all runs: the counts checked on the first block agree with the length in every later state and inserted set exactly when every accepted block keeps them |
| Assembly.SparedHeaderKeepsCounts | src/server-core/server.cpp:75-80 | a later block that begins behind the header keeps them |
| Assembly.OverlapBreaksCounts | src/server-core/server.cpp:75-80 | two accepted blocks, the second starting inside the header, after which a set of two points calls for 201 |
| Assembly.OverlapReadsOutside | src/mysql-connection-pool/mysqlConnectionPool.cpp:363-364 | the insert loops read outside that set |
| Assembly.InsertRawDatapoints | src/mysql-connection-pool/mysqlConnectionPool.cpp:357-377 | row i of a sweep reads data point dataOffset + i in 32-bit arithmetic |
| Assembly.MysqlInsertRawDataSet | src/mysql-connection-pool/mysqlConnectionPool.cpp:485-492 | row by row: the base rows under the base sweep, then the after-exposure rows under theirs, each counted from 0, for any set with a header, whatever its counts |
| Assembly.ReadsInsideIff | src/mysql-connection-pool/mysqlConnectionPool.cpp:363-364 | whatever the counts in memory: every row reads a point of the set exactly when the points called for, counted without wrapping, fit it |
| Assembly.SweepIff | src/mysql-connection-pool/mysqlConnectionPool.cpp:485-488 | for a set whose counts passed the check: the two loops visit every data point once, in order, up to the end of the buffer, exactly when the length called for fits 32 bits |
| Assembly.WrappingCountsAccepted | src/server-core/server.cpp:53-56 | an accepted header whose counts wrap; the set it completes is neither swept whole nor read inside |
| Transfer.ChunksCarryAll | src/server-core/server.cpp:448-483 | the send loop cuts any payload into non-empty contiguous blocks of at most the payload limit whose data concatenates to it |
| Transfer.SequenceCarries | src/server-core/server.cpp:525-557 | contiguous pieces of any sizes carry the file up to where they end |
| Transfer.WholeBlocksAreChunks | src/server-core/server.cpp:453-483 | contiguous blocks that are each as long as possible are the chunks of the send loop |
| Transfer.ChunkAssembleRoundTrip | src/server-core/server.cpp:170-198 | a data set cut by the send loop is rebuilt by the assembler with one completion, from any earlier state |
| EndToEnd.OneInsert | src/server-core/server.cpp:170-198 | from any idle, settled state of the link: for every schedule of dropped, slow and crossing frames in which sends start clean and every block is reported sent or accepted, exactly one more data set is inserted and it is the original |
| EndToEnd.EveryPointInserted | src/mysql-connection-pool/mysqlConnectionPool.cpp:485-488 | and if its counts do not wrap, each of its data points is written once and in order |
| EndToEnd.InsertedSetsSweep | src/server-core/server.cpp:53-59 | every set inserted in any run of blocks whose copies fit has its header written; it is read inside, and swept whole, exactly when its counts call for at most, and for just, what it holds |
| Refinement.AttemptRefines | src/socket-utilities/amilink.cpp:44-78 | from the head of the retry loop, an attempt that loses nothing, the DATA frame or the ACK is a prompt run of the two-channel system with the same outcome and copies |
| Refinement.DamagedRefines | src/socket-utilities/amilink.cpp:196-205 | such an attempt is a transmission, a corruption, a delivery and a read of the NACK in the two-channel system; nothing is accepted and the sender goes on while it may |
| Refinement.TriesRefine | src/socket-utilities/amilink.cpp:80-90 | so is the whole retry loop, from any phase of the loss counters |
| Refinement.ConversationRefines | src/socket-utilities/amilink.cpp:44-90 | any list of messages that are not answered, pushed over the actual bytes, each delivered at once or lost to an injector, is one plain run of the two-channel system: same result per send, and the handler was given what that run accepted |
| Refinement.AllSucceed | src/socket-utilities/amilink.cpp:80-90 | if the counters always leave a gap, every send of messages that are not answered returns its length |
| Refinement.AnswerDrownsRetries | src/socket-utilities/amilink.cpp:138-144 | a run of the two-channel system for every limit above 1 in which a message is accepted, one ACK lost, and linkSendRetry returns 0 |
| Refinement.AnsweredRefines | src/socket-utilities/amilink.cpp:80-90 | the attempts at an answered message, from any phase of the counters, are an undamaged run of the two-channel system with the result and copies of Dialogue.AnsweredOutcome |
| Refinement.LastOutcome | src/socket-utilities/amilink.cpp:80-90 | the last message of a data set is handed over once, if at all, and reported as sent exactly when the ACK of its first copy comes through |
| Refinement.GivenStutters | src/socket-utilities/amilink.cpp:80-90 | if the messages before the last were reported sent and the last was handed over, the handler is given each of them, in order, some more than once |
| Refinement.BytesOneInsert | src/server-core/server.cpp:170-198 | from the bytes on the sockets to the assembler: up to the last block nothing is inserted, hence nothing answered; once the last was handed over, however often, exactly one more data set is inserted and it is the original |
| Refinement.InjectedLossOneInsert | src/server-core/server.cpp:170-198 | with loss intervals of at least 3 at both ends and at least 3 retries that always comes about: every block but the last is reported sent, the last is handed over, and the set is inserted exactly once with its original bytes, from every phase of the counters and any earlier assembly state |
| Refinement.HandlerOneInsert | src/server-core/server.cpp:664-714 | the same for what the requests of the handler loop make of the assembly, when the messages it reads are those of the data set, whatever lies behind them in its buffers |
| Sample.WireIsReadable | src/socket-utilities/amilink.cpp:46-49 | a wire with a three-byte header meets what is assumed of headers |
| Sample.PushIsSendable | src/socket-utilities/amilink.cpp:80-90 | and a push of two blocks over it what InjectedLossOneInsert assumes of a push |
| Sample.PayloadIsCut | src/server-core/server.cpp:40-92 | and what it assumes of the blocks |
| Sample.SampleInserts | src/server-core/server.cpp:664-714 | so the handler loop that reads these messages inserts their four bytes once |
| Server.Handler.Respond | src/server-core/server.cpp:155-167 | a response goes through the retry loop, and the connection ends registered for EPOLLIN |
| Server.Handler.SendChunks | src/server-core/server.cpp:453-483 | offers the chunks of the text in order; it succeeds with all of them offered and every send positive, and otherwise stops right after the first send that returned 0 |
| Server.Handler.HandleAlgoRequest | src/server-core/server.cpp:386-490 | all chunks in order, each delivered; or those up to the first that is not, and an error response; all traffic under its own interest |
| Server.Handler.SendReads | src/server-core/server.cpp:525-557 | pieces as they are read follow each other from the start of the file; it ends at the end of the file with every send positive, right after the first send that returned 0, or at the first read that brings nothing |
| Server.Handler.HandleFirmwareRequest | src/server-core/server.cpp:492-566 | the same, with an error response unless the end of the file was reached |
| Server.Handler.HandleFileRequest | src/server-core/server.cpp:568-593 | chosen by the file name's length and ending; other names get no response |
| Server.Handler.HandleRawDataPushRequest | src/server-core/server.cpp:170-199 | any block: one assembly step, answered exactly when it completes a set, or stopped where the copy would leave its memory |
| Server.Handler.HandleRequest | src/server-core/server.cpp:595-634 | per topic what is sent and what happens to the assembly; false exactly after a goodbye |
| Server.Handler.OneEvent | src/server-core/server.cpp:693-703 | a turn of the loop handles the message amilinkReadMessage makes of the socket's bytes with what it parsed to, or none and may send a heartbeat; it leaves the link as that does, and says exactly when the loop goes on |
| Server.Handler.ConnectionHandler | src/server-core/server.cpp:664-714 | over every run each send was under EPOLLOUT, each receive under EPOLLIN; there is a turn for every event up to the first that ends the loop; the turns follow from what the socket brings, and the assembly is what the requests parsed from the messages read make of it |
| Server.OnlyPushesMatter | src/server-core/server.cpp:595-634 | requests of other topics in between make no difference to the assembly |
| ThreadPool.AlwaysInv | src/thread-pool/threadPool.cpp:12-37 | in every reachable state: accepted tasks are started tasks followed by the queue, started ones are running or finished as often as started, activeThreads counts the running workers, a returned worker means stopped and drained, no waiter sleeps while its predicate holds, no worker sleeps after shutdown's notify_all |
| ThreadPool.InvStep | src/thread-pool/threadPool.h:51-60 | that invariant is kept by every critical section and notification |
| ThreadPool.RunningIsCounted | src/thread-pool/threadPool.cpp:31 | the decrement of activeThreads never wraps |
| ThreadPool.AcceptedAsRequested | src/thread-pool/threadPool.h:52-58 | in every run the accepted tasks are those of the enqueue calls before the stop, in order |
| ThreadPool.FinishedWereRunning | src/thread-pool/threadPool.cpp:28-30 | the finished tasks are those that were running on a worker when they returned |
| ThreadPool.JoinedMeansDrained | src/thread-pool/threadPool.cpp:39-47 | when all workers have returned, the tasks enqueued before the stop were started in that order, and each has run to its end on a worker, once for each time it was enqueued |
| ThreadPool.WaitMeansFinished | src/thread-pool/threadPool.cpp:62-65 | waitForCompletion returns only when every task enqueued by then has run to its end |
| ThreadPool.WorkerDecides | src/thread-pool/threadPool.cpp:15-27 | for each combination of stop, paused and an empty queue: whether the worker returns, waits on which condition, or takes the oldest task |
| ThreadPool.PausedPoolRests | src/thread-pool/threadPool.cpp:20-22 | while the pool is paused no task is started, and a worker waiting for the pause to end goes on waiting |
| ThreadPool.CallersWait | src/thread-pool/threadPool.cpp:62-65 | a caller of waitForCompletion is counted, and leaves only by testing its predicate |
| ThreadPool.AlwaysCovered | src/thread-pool/threadPool.h:51-60 | in runs without pause: no worker sleeps, or every queued task has a notification or a waking worker of its own |
| ThreadPool.NoLostWakeup | src/thread-pool/threadPool.cpp:12-24 | in runs without pause a queued task always has a notification on its way or a worker that is neither asleep nor gone |
| ThreadPool.LiveIff | src/thread-pool/threadPool.cpp:54-60 | in any run, pauses included: an unpaused pool with a task queued always has a notification on its way or a worker that will look, exactly when the run has no bad resume (paused, task queued, all workers asleep on condition, no notify_one under way) |
| ThreadPool.LiveStep | src/thread-pool/threadPool.cpp:12-37 | every other step keeps that |
| ThreadPool.ResumeEmptyIsSafe | src/thread-pool/threadPool.cpp:54-60 | so it is enough never to resume a paused pool whose queue is not empty |
| ThreadPool.BadResumeReached | src/thread-pool/threadPool.cpp:49-60 | pause, enqueue, let the worker look: the next resume is bad |
| ThreadPool.ResumeStrands | src/thread-pool/threadPool.cpp:49-60 | a run that strands a task |
| ThreadPool.WaitsKeptStep | src/thread-pool/threadPool.cpp:62-65 | whoever returned from waitForCompletion left with everything accepted before then finished, and that stays so |
| ThreadPool.StoppingStep | src/thread-pool/threadPool.cpp:12-37 | once stopping and not paused, every step of the pool decreases the measure |
| ThreadPool.StoppingProgress | src/thread-pool/threadPool.cpp:12-37 | while a worker has not returned, some step of the pool is enabled |
| ThreadPool.ShutdownTerminates | src/thread-pool/threadPool.cpp:39-47 | from any reachable stopping state at most Measure further pool steps happen, in any interleaving with callers that do not pause, resume or add workers; when none is left all workers have returned and every task enqueued before the stop has run to its end |
| ThreadPool.RequestsDoubleOrHalve | src/server-core/server.cpp:849-861 | whatever the two reads return, sizes 10, 20, 40, ... lead to a request of twice the size when more tasks were read than workers, of half of it (not below 10) when fewer than half as many, and of the same size otherwise |
| ThreadPool.Pool.constructor | src/thread-pool/threadPool.cpp:3-6 | the given number of workers, all ready, and the invariant |
| ThreadPool.Pool.Enqueue | src/thread-pool/threadPool.h:51-60 | appends the task under the lock, whatever is queued, and owes a notification; rejected, with nothing changed, after stop |
| ThreadPool.Pool.NotifyOne | src/thread-pool/threadPool.h:60 | wakes the chosen sleeper, if there is one |
| ThreadPool.Pool.WorkerSection | src/thread-pool/threadPool.cpp:15-27 | sleep, return, pause or take the front task, never from an empty queue |
| ThreadPool.Pool.FinishSection | src/thread-pool/threadPool.cpp:29-35 | decrement, and notify all exactly when the predicate of waitForCompletion became true |
| ThreadPool.Pool.NotifyPause | src/thread-pool/threadPool.cpp:33 | wakes every worker and waiter blocked on pauseCondition |
| ThreadPool.Pool.SetStop | src/thread-pool/threadPool.cpp:40-43 | stop is set under the lock |
| ThreadPool.Pool.NotifyStop | src/thread-pool/threadPool.cpp:44 | wakes every worker blocked on condition |
| ThreadPool.Pool.SetPaused | src/thread-pool/threadPool.cpp:49-52 | paused is set under the lock |
| ThreadPool.Pool.ClearPaused | src/thread-pool/threadPool.cpp:54-58 | paused is cleared and a notify_all is owed |
| ThreadPool.Pool.NotifyResume | src/thread-pool/threadPool.cpp:59 | wakes everyone blocked on pauseCondition |
| ThreadPool.Pool.AddWorker | src/thread-pool/threadPool.cpp:92-94 | one more ready worker |
| ThreadPool.Pool.Resize | src/thread-pool/threadPool.cpp:77-83 | the growing branch: grows to the requested size with ready workers |
| ThreadPool.Pool.WaitForCompletion | src/thread-pool/threadPool.cpp:62-65 | returns only when every accepted task has finished, else blocks |
| ConnectionPool.CreateFailsIff | src/mysql-connection-pool/mysqlConnectionPool.cpp:145-170 | createNewConnection fails exactly when three attempts in a row are refused |
| ConnectionPool.AlwaysAccounted | src/mysql-connection-pool/mysqlConnectionPool.cpp:43-143 | in every reachable state queued, held and lost places add up to the pool size, and no handle is queued twice or both queued and held |
| ConnectionPool.GiveBackMeans | src/mysql-connection-pool/mysqlConnectionPool.cpp:121-132 | a returned handle that passes its check is queued last and nothing is dialled; one that does not is gone, and a fresh one is queued last, unless three attempts are refused: exactly then a place is lost |
| ConnectionPool.TakeMeans | src/mysql-connection-pool/mysqlConnectionPool.cpp:68-91 | the front handle goes to the client if it passes its check, and is gone and replaced in the same way if not |
| ConnectionPool.LostIsFailedCreations | src/mysql-connection-pool/mysqlConnectionPool.cpp:43-143 | over every run the places lost are the failed initial creations and the failed replacements |
| ConnectionPool.EndsIff | src/mysql-connection-pool/mysqlConnectionPool.cpp:66-93 | the inner loop ends, whatever the database does later, exactly when a queued handle is good, or none is and none can be opened, or the first connection it opens passes its first check |
| ConnectionPool.TakeShrinks | src/mysql-connection-pool/mysqlConnectionPool.cpp:66-93 | then a turn of the inner loop that does not return uses up one bad handle |
| ConnectionPool.AttemptYields | src/mysql-connection-pool/mysqlConnectionPool.cpp:66-93 | an attempt returns a handle just validated and removed, or leaves the queue empty; the places still add up |
| ConnectionPool.AttemptFailsIff | src/mysql-connection-pool/mysqlConnectionPool.cpp:66-93 | an attempt that ends finds nothing exactly when every queued handle, used before or not, fails its next check and every reconnection is refused |
| ConnectionPool.AttemptTakesFirstGood | src/mysql-connection-pool/mysqlConnectionPool.cpp:66-93 | an attempt returns the first queued handle that passes its check; those behind it keep their places |
| ConnectionPool.AttemptOpensOne | src/mysql-connection-pool/mysqlConnectionPool.cpp:74-91 | if none passes and not all reconnections are refused, it returns the first connection it opens |
| ConnectionPool.MaySpin | src/mysql-connection-pool/mysqlConnectionPool.cpp:66-93 | with a database that accepts connections and fails every check, the inner loop turns for any number of rounds without change |
| ConnectionPool.GetConnectionThrowsIff | src/mysql-connection-pool/mysqlConnectionPool.cpp:59-106 | it throws exactly when the queue is dead at all three attempts, whatever others do in between |
| ConnectionPool.WorkingFromNowOn | src/mysql-connection-pool/mysqlConnectionPool.cpp:59-106 | getConnection ends if connections opened from the call on pass their first check; nothing is asked of those in the queue |
| ConnectionPool.OutageThrows | src/mysql-connection-pool/mysqlConnectionPool.cpp:74-105 | a database that goes down after start-up makes the first getConnection of a full pool throw |
| ConnectionPool.MySqlConnectionPool.constructor | src/mysql-connection-pool/mysqlConnectionPool.cpp:43-48 | one place per requested connection, filled or lost, and lost exactly for each creation that failed |
| ConnectionPool.MySqlConnectionPool.CreateNewConnection | src/mysql-connection-pool/mysqlConnectionPool.cpp:145-170 | the bounded retry loop as specified |
| ConnectionPool.MySqlConnectionPool.ReturnConnection | src/mysql-connection-pool/mysqlConnectionPool.cpp:121-132 | a valid handle is queued last; a dead one is replaced, or its place lost exactly if three attempts to connect are refused |
| ConnectionPool.MySqlConnectionPool.TakeFront | src/mysql-connection-pool/mysqlConnectionPool.cpp:68-91 | one turn of the inner loop as specified |
| ConnectionPool.MySqlConnectionPool.AttemptOnce | src/mysql-connection-pool/mysqlConnectionPool.cpp:66-93 | the inner loop, which ends |
| ConnectionPool.MySqlConnectionPool.GetConnection | src/mysql-connection-pool/mysqlConnectionPool.cpp:59-106 | ends; returns a handle just validated, held and not queued, or throws with the queue empty |

## Left out

- SLIP and CRC code: the plf directory is not part of this model; SLIP follows RFC 1055 and drops bytes beyond the frame buffer, the CRC is an arbitrary function.
- Message and header layouts and the MQS constants: symbolic, with only the inequalities the proofs need.
- Assembly.Step: has no result for an accepted block whose copy leaves the buffer or the payload area (AcceptedCopyFits), where the source's behaviour is undefined; the handler's model stops there.
- EndToEnd.OneInsert: assumes no damaged frame, because a damaged one makes the handler run on a message that was never received (FirstDataFrame), and that no ACK is left over when a send begins, because of SuccessMeansDeliveredIff.
- ConnectionPool.MySqlConnectionPool.GetConnection: assumes that each attempt ends (AllEnd), which EndsIff and WorkingFromNowOn make precise; accounting does not assume it.
- Server.Handler.ConnectionHandler: assumes that modifyEpollEvent succeeds and that getConnection did not throw; the loop ends when the list of events does, where the source would block. Files and texts to send are smaller than 4 GiB.
- Dialogue.DuplexOutcome: assumes that each end gets exactly the bytes the other sends, in lock-step, and that no other connection of the process reads in between (OthersDefeatRetries).
- Dialogue.AnsweredOutcome: follows the sender to the end of its attempts; what becomes of the answer after that is not modelled.
- ThreadPool.Pool.Resize: the shrinking branch, which enqueues while it holds the queue's mutex, is not modelled.
- ThreadPool.NoLostWakeup: does not cover runs with pause, where it is false (ResumeStrands); LiveIff does.
- The joins of a second shutdown.
- Refinement.BytesOneInsert: where a message keeps its block is symbolic (any function of the message), and the only loss before the last block is what the two ends inject; lost and slow frames of the channel itself are covered by EndToEnd.OneInsert.
- Refinement.HandlerOneInsert: that the messages the handler reads from one socket are those of the lock-step dialogue is a hypothesis.
- lossFreeRun is one counter per link in the class Link; in the source all connections of a process share it, which OthersDefeatRetries takes up.
- SQL failures inside the insert loops, SQL text and drivers, JSON parsing and the meat-type filter, directory listing, configuration, logging, real time and sleeping.
- Listening, accepting and connecting sockets, and the counters of active connections.
- Results of `read` that are negative or exceed what the file still has.
