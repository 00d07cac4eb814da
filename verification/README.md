# The sliding-window DAG transfer, verified

A Scionic Merkle DAG is uploaded as a sequence of batched packets. The sender writes the root packet and waits for
a reply. If the reply carries a window acknowledgment, the sender goes on with a sliding window (cumulative
acknowledgments, a packet limit, a byte limit, a table of packets in flight, a goroutine that reads replies into a
bounded channel); if not, it goes on with stop-and-wait. The receiver checks each packet, applies it to its DAG,
commits it, verifies the DAG after the last one, and only then acknowledges. This project models both ends, the
goroutine between them, the acknowledgment text, the framing underneath and the progress reported on top, and proves
what they promise each other.

How the files fit together:

- `Wire`, `Decimal`, `WindowAck`, `PacketSize`: the values exchanged, the acknowledgment text down to its decimal
  digits, and the size estimate the byte limit counts in.
- `ReceiveState`, `ReceiveFaults`, `ReceiveRuns`, `Credentials`, `Download`, `DownloadOutcome`: the class that checks
  and commits packets, which fault it finds, what it keeps over every run of offers, the checks on the first message's
  credentials, the download loop around them, and exactly which message streams that loop accepts.
- `Sender`, `SenderRuns`, `ByteCount`, `Upload`, `Progress`: the sender as a state machine over its writes and replies,
  what that machine keeps against any peer, when its int64 byte count matters, the imperative upload proved to be that
  machine, and the progress table above it.
- `AckReader`: the reply-reading goroutine and its channel against any peer.
- `Session`, `SessionSafety`, `SessionLiveness`, `SessionOutcome`, `SessionBuffers`, `SessionExamples`,
  `SessionSimulation`, `SessionResults`: both ends, the goroutine, the channel and two FIFO streams of any capacity,
  none included, stepping one at a time in any order. Safety holds for any packet sequence and under any faults; how a
  run without faults ends is settled for every packet sequence the sender lets through.
- `Cbor`, `CborLayout`, `Framing`, `Handover`, `ReadRetry`: an encoder and a decoder of CBOR data items, the bytes of
  an item as section 3 of RFC 8949 lays them out, one retained decoder versus a decoder per message over arbitrarily cut
  reads, why the sender may mix the two, and the retry loop on such a decoder.
- `ByteSession`, `ByteOutcome`: the session once more, on two byte streams with the decoders the code uses, proved to
  have exactly the runs of the session on messages and to end as they do.

The repository holds the client ends of an upload and of a download; the relay between them is not part of it. The
session composes the repository's sender with the repository's receiver, which speak the same protocol. Its
`legacyPeer` variant is a receiver whose wire format has no packet counters, so that it sees them as zero and
answers without a window.

What the model takes as given: the DAG and signing libraries are the functions of `Wire.Library` (`rootLeaf`,
`apply`, `verify`, `parsesKey`, `parsesSignature`, `signs`, and `explain` for the text of an error), otherwise
arbitrary. `ParentlessLeafIsRoot` assumes that the root leaf found in a packet is one of its leaves; `ModesAgree`
compares the resulting DAGs when the library ignores packet counters; size estimates are non-negative; converting a
packet to its serializable form and back changes nothing. `ByteSession` assumes a codec that loses nothing of the
upload's messages and of responses (`LosslessCodecsExist` gives one). Timeouts, cancellations and stream failures are
outcomes that may occur at any point.

Things the proofs brought to light about the code as it is:

- A receiver that rejects a packet reads no more, while a sender with room in its window writes on before it looks for
  replies. If the stream's buffer is smaller than what the sender then writes, the sender blocks in that write and never
  sees the rejection (`SettlesExactly`, `CanBlockExactly`); `BlocksExactly` says for which transfers, in terms of the
  buffer, the window, the packets left and their sizes. A buffer of 15 packets, the window less one, is enough for every
  transfer and no smaller one is (`BufferSufficesExactly`); without a buffer three packets are enough to block
  (`SmallerBufferBlocks`). Closing the
  stream or the write time limit ends the block, but with a write error in place of the rejection
  (`BlockedEndsInWriteError`).
- The receiver's range check, its check for an incomplete stream and the sender's check for a skipped unknown packet
  can never fire in any run, whatever the other end does (`NeverImpossiblyRejected`, `NeverSkipsUnknownPacket`).
- Progress on packet 0 is reported before the root acknowledgment's index is checked, so a transfer can fail with
  progress already reported; `ProgressBeforeRootCheck` says exactly when, and `ProgressThenFailure` gives a reply that
  does it.
- A rejected first packet can leave the receive state in windowed mode; `RejectedFirstPacketFixesMode` says exactly
  when and what that changes, and `ModeSurvivesRejection` gives such a packet.
- The acknowledgment parser accepts signs, leading zeros and extra white space, "-0" among them; `AcceptedExactly`
  describes all it accepts.
- A decoder per message loses bytes exactly when no read ended where the message did
  (`FreshReaderLosesNothingExactly`); the sender uses one only while nothing can follow the reply.
- A message of the wrong type is skipped by the retry loop, and the next one that fits is returned in its place
  (`SkipsToFirstFitting`); the end of the stream is never retried (`EndIsFinal`).
- With a negative number of retries the read loop returns neither a message nor an error, and only then
  (`ResultExactly`).
- A transfer can succeed exactly when it is well-formed (`CanSucceedExactly`), and a well-formed one without faults
  always does (`StuckMeansDelivered` with `EveryRunSettles`). `WellFormedTransfersExist` gives a concrete one.
- The byte count is an int64 and wraps around. Its test is exact as long as the sum fits (`GuardExactlyFits`), and
  `NeverOverflowsExactly` says for which packets and limits it fits at every test, against any peer; packets below 2^62
  bytes are among them (`ModestFits`), and with packets of 2^62 bytes the window is overrun (`GiganticPacketsOverrun`).
- An upload that succeeds can leave its goroutine in a read: it has exited exactly if its budget is used up or a
  terminating reply waits unread, so a peer that acknowledges two packets in one reply leaves it behind
  (`ReaderAtSuccess`, `ReaderLeftBehind`).
- A read that times out closes the stream, and the loop then retries on the closed stream; it returns no message any
  more (`TimeoutIsRetried`, `NoMessageAfterTimeout`).

## Model

| member | source | states |
|---|---|---|
| SessionSafety.ReachableInv | lib/connmgr/transfer_window.go:137-273 | in every reachable state, for any packet sequence and under any faults, the forward stream holds exactly the packets written and not yet received, the unread acknowledgments are queued exactly in the order sent, the highest acknowledgment is one behind the replies taken, and both ends are sound |
| SessionSafety.SuccessMeansDelivered | lib/connmgr/download.go:85-118 | in any run, faults included, sender success implies that the receiver finished, accepted exactly the N packets sent, each once and in order, holds the verified DAG assembled from them, and sent exactly N acknowledgments |
| SessionOutcome.CanSucceedExactly | lib/connmgr/transfer_window.go:83-273 | a transfer the sender lets through can succeed if and only if what the receiver sees of it is a whole DAG, cut into packets of new, hashed and related leaves with the root first, that the library assembles and verifies |
| SessionOutcome.SuccessNeedsWellFormed | lib/connmgr/download.go:54-118 | whatever fails on the way, a transfer that succeeds was well-formed |
| DownloadOutcome.FinishesExactly | lib/connmgr/download.go:49-130 | a download succeeds if and only if the stream begins with a deliverable run of messages and as many replies can be written; it then took exactly these messages and holds the DAG they assemble to |
| DownloadOutcome.NextIsAnswered | lib/connmgr/download.go:85-112 | the next message of a deliverable stream passes every check and is answered positively |
| DownloadOutcome.FinishedIsDeliverable | lib/connmgr/transfer_window.go:295-363 | the messages of a finished download satisfy every condition of a deliverable stream |
| SessionOutcome.NoErrorBranch | lib/connmgr/transfer_window.go:205-251 | in every fault-free run of a well-formed transfer neither end ever takes an error branch |
| SessionOutcome.SettlesExactly | lib/connmgr/transfer_window.go:182-273 | a fault-free run, of any transfer the sender lets through, that can go no further has delivered everything if and only if the transfer is well-formed, has left the sender blocked in a write if and only if the transfer blocks, and otherwise the sender was told of the rejection |
| SessionOutcome.CanBlockExactly | lib/connmgr/transfer_window.go:253-268 | such a transfer can deadlock without faults if and only if it blocks: the sender writes more packets before it waits for the reply to the rejected one than the receiver reads and the stream holds |
| SessionOutcome.NeverDeadlocks | lib/connmgr/transfer_window.go:182-273 | in every fault-free run of a transfer that does not block, some non-fault step is enabled until both ends know how it ended |
| SessionBuffers.BlocksExactly | lib/connmgr/transfer_window.go:253-268 | a transfer blocks if and only if a packet after the first is rejected under a window and the packet one buffer behind it exists and fits the window with those from the rejected one on, where sums fit an int64 wherever they can be tested |
| SessionBuffers.BufferSufficesExactly | lib/connmgr/transfer_window.go:14-20 | a buffer size keeps every transfer from blocking if and only if it is at least the window less one packet |
| SessionBuffers.AmpleBufferNeverBlocks | lib/connmgr/transfer_window.go:253-268 | no transfer blocks over a stream that holds at least 15 packets |
| SessionBuffers.SmallerBufferBlocks | lib/connmgr/transfer_window.go:253-268 | for every smaller buffer a concrete transfer that blocks: a root packet and then packets without leaves, three more in all than the buffer holds |
| SessionBuffers.WritesAheadExactly | lib/connmgr/transfer_window.go:254-267 | before the sender waits for reply k it has written exactly the packets that fit the window with those from k on, where sums fit an int64 wherever they can be tested |
| SessionBuffers.BlockedEndsInWriteError | lib/connmgr/transfer_window.go:261-263 | a blocked write that fails makes the upload fail with a write error, not with the rejection |
| SessionLiveness.NoDeadlock | lib/connmgr/transfer_window.go:182-273 | in every state that satisfies the invariant and in which no stream has failed, for any transfer and any stream capacities: a non-fault step is enabled, or everything was delivered, or the sender was told of a rejection, or it is blocked writing to a receiver that has rejected a packet |
| SessionLiveness.FaultFreeIsUndisturbed | lib/connmgr/transfer_window.go:216-237 | without faults the only way a sender fails is to be told of a rejection, with nothing left in the goroutine, the channel or the stream |
| SessionLiveness.EveryRunSettles | lib/connmgr/transfer_window.go:253-271 | every fault-free run of any transfer extends to one that can go no further, within 9N+6 steps |
| SessionLiveness.RunsAreBounded | lib/connmgr/transfer_window.go:253-271 | every run, whatever is sent and whatever fails, ends within 9N+6 steps |
| SessionLiveness.StepWorks | lib/connmgr/transfer_window.go:253-271 | a measure over unwritten, in-transit, queued and unanswered packets falls with every step of either end |
| SessionOutcome.EveryRunCompletes | lib/connmgr/transfer_window.go:83-273 | every fault-free run of a well-formed transfer extends to one in which both ends succeed and everything is delivered |
| SessionOutcome.StuckMeansDelivered | lib/connmgr/download.go:85-123 | a fault-free run of a well-formed transfer that can go no further has delivered everything |
| SessionLiveness.ChannelHasRoom | lib/connmgr/transfer_window.go:182-198 | in every state that satisfies the invariant, rejections and stream faults included, a goroutine that holds a result finds room for it in the channel of capacity packets+1; results unread exceed the packets in flight by at most the one that tells of a failure |
| SessionLiveness.ChannelNeverBlocks | lib/connmgr/transfer_window.go:184-192 | in every run, faults included, the goroutine can deliver the result it holds while the sender is in its pipelined phase |
| SessionOutcome.MessageIsAccepted | lib/connmgr/download.go:85-112 | the receiver answers the next message of a well-formed transfer positively |
| SessionSimulation.SenderIsUpload | lib/connmgr/transfer_window.go:83-273 | in every run, faults included, the session's sender is where the upload stands, or ended, after as many writes, given the receiver's replies in order and possibly a failing wait as the last |
| SessionSimulation.ReceiverIsDownload | lib/connmgr/download.go:49-123 | in every run, faults included, the session's receiver is where the download stands, or ended, after the sender's messages and as many replies |
| SessionSimulation.EndsMeet | lib/connmgr/transfer_window.go:83-273 | whenever both ends of a session have ended, faults included, upload and download run apart, each on what the other wrote, end in the session's two final states |
| SessionResults.ModesAgree | lib/connmgr/transfer_window.go:154-171 | a windowed and a stop-and-wait transfer of the same packets, both successful, report the same progress and leave the receivers with the same messages (counters aside), leaves and DAG |
| SessionResults.ProgressNeverOverstates | lib/connmgr/upload.go:54-71 | in every run, faults included, each progress figure reported counts at most the leaves the receiver has verified and recorded |
| SessionResults.ProgressEndsExact | lib/connmgr/upload.go:54-71 | on success progress went through every packet, and its last figure is exactly the number of leaves the receiver recorded |
| SessionResults.CredentialsArrive | lib/connmgr/transfer_window.go:105-117 | whenever the sender succeeds, message k at the receiver has the upload's root, the leaves and relationships of packet k, the public key and signature in the first message only, and the final mark on the last; the receive state holds the upload's public key and signature |
| SessionResults.ValidExactly | lib/connmgr/transfer_window.go:93-103 | the transfers of the session are exactly those whose sequence passes the upload's checks |
| Upload.SendBatchedUpload | lib/connmgr/transfer_window.go:83-273 | against any stream: a sequence that is empty or whose packets do not all say which packet of how many they are changes nothing and fails for what is first wrong with it; otherwise every message written, field by field, has the given root and the packet at its place in the sequence, the given public key and signature in the first message and none after it, and the final mark exactly on the last packet; result, writes, replies consumed and progress are those of the sender machine, in int64 arithmetic; the statistics name a window exactly as the root reply did; it never fails on a skipped unknown packet; on success exactly the N messages were written in order and progress climbed from 0 to N-1 |
| Upload.LimitExactly | lib/connmgr/transfer_window.go:128-181 | the window an upload ends with has the packet and byte limits of the root reply, and there is one exactly if that reply is positive and names packet 0 |
| Upload.CheckSequence | lib/connmgr/transfer_window.go:93-103 | success if and only if the sequence is non-empty with consistent counters; a fault is that of the first offending packet |
| Upload.SendLegacy | lib/connmgr/transfer_window.go:154-171 | stop-and-wait follows the sender machine to its end |
| Upload.FillWindow | lib/connmgr/transfer_window.go:254-267 | writes follow the sender machine until the window has no room or nothing is left to write |
| Upload.ReadAck | lib/connmgr/transfer_window.go:205-251 | the nested release loop yields exactly the machine's transition, with the same fault on every error branch |
| Upload.SendWindowed | lib/connmgr/transfer_window.go:200-272 | the pipelined loop follows the sender machine to its end and keeps the negotiated limit |
| SenderRuns.PathIsSound | lib/connmgr/transfer_window.go:200-273 | against any peer, before and after every write and reply, failing and completing ones included: the table holds exactly the packets after the highest acknowledged and before the next, with their sizes; the byte count is their sum as an int64; at most the packet limit is in flight; where sums fit an int64 wherever they can be tested, the sum keeps to the byte limit or exactly one packet is in flight; on success the table is empty and the count 0 |
| SenderRuns.EndingIsSound | lib/connmgr/transfer_window.go:83-273 | every transfer ends, and in a sound state |
| SenderRuns.WriteKeepsSound | lib/connmgr/transfer_window.go:254-267 | a write made when due keeps the invariant |
| SenderRuns.ReadKeepsSound | lib/connmgr/transfer_window.go:205-251 | any reply or failure keeps the invariant |
| SenderRuns.WindowReplyAcceptedExactly | lib/connmgr/transfer_window.go:216-245 | a pipelined reply is accepted if and only if it is positive, repeats the negotiated window and names a packet written and not yet acknowledged |
| SenderRuns.WindowReplyEffect | lib/connmgr/transfer_window.go:238-249 | an accepted reply frees exactly the packets up to the one named, keeps the sizes of the others, and reports that index |
| SenderRuns.ReplyFaultExactly | lib/connmgr/transfer_window.go:118-251 | in every reachable wait, each fault ends the transfer exactly if the reply, or the lack of one, is as that fault says: no reply, a refusal, a malformed text, a window taken back or changed, an index not beyond the highest acknowledged or not yet written |
| SenderRuns.RootReplyDecides | lib/connmgr/transfer_window.go:124-181 | the root reply leads to stop-and-wait exactly if it is positive and has no window text, to a window exactly if it acknowledges packet 0 with one, and to success in these cases exactly if there is only the root packet |
| SenderRuns.UnknownPacketUnreachable | lib/connmgr/transfer_window.go:239-242 | with a safe window no acknowledgment can find a packet missing from the table |
| SenderRuns.NeverSkipsUnknownPacket | lib/connmgr/transfer_window.go:238-242 | whatever the peer replies, no transfer ends on a skipped unknown packet |
| SenderRuns.ProgressBeforeRootCheck | lib/connmgr/transfer_window.go:147-174 | a transfer fails on the root reply with progress already reported if and only if that reply names a later packet |
| SenderRuns.ProgressThenFailure | lib/connmgr/transfer_window.go:151-174 | a reply that does so: it acknowledges packet 1 |
| SenderRuns.WaitsOnlyWhenFull | lib/connmgr/transfer_window.go:253-268 | the sender waits only with something in flight, and only when a limit is reached or nothing is left to write |
| SenderRuns.RepliesWithinBudget | lib/connmgr/transfer_window.go:187-197 | while the sender waits, it has read fewer than N-1 pipelined replies |
| SenderRuns.SuccessInEitherMode | lib/connmgr/transfer_window.go:154-171 | success against any peer means all packets written, progress strictly climbing from 0 to N-1, and in stop-and-wait exactly 0..N-1 |
| SenderRuns.InFlightOverhead | lib/connmgr/transfer_window.go:253-267 | 128 bytes for each packet in flight never exceed the sum of sizes in flight, nor the byte count if that sum fits an int64 |
| ByteCount.GuardExactlyFits | lib/connmgr/transfer_window.go:257 | the byte test in int64 arithmetic agrees with the exact one if and only if the sum fits |
| ByteCount.GuardNeverOverflows | lib/connmgr/transfer_window.go:253-267 | where sums fit wherever they can be tested, they fit at every test with something in flight, against any peer, and the test lets a packet in if and only if it keeps to both limits or nothing is in flight |
| ByteCount.NeverOverflowsExactly | lib/connmgr/transfer_window.go:253-267 | no transfer under a given limit tests a sum beyond int64, whatever the peer, if and only if sums fit wherever they can be tested |
| ByteCount.ModestFits | lib/connmgr/transfer_window.go:14-20 | packets below 2^62 bytes fit under every limit a peer can negotiate |
| ByteCount.GiganticPacketsOverrun | lib/connmgr/transfer_window.go:255-266 | that bound is tight: a packet of 2^62 bytes is let in beside another, in a state that GiganticIsReached reaches from the start |
| AckReader.EveryPipeIsSound | lib/connmgr/transfer_window.go:182-198 | against any peer, replies taken, queued and still to be read add up to the reading budget, unless a terminating reply waits last |
| AckReader.ReaderNeverAbandonsSender | lib/connmgr/transfer_window.go:185-215 | a sender that waits on an empty channel always waits on a goroutine still at work |
| AckReader.ReaderAtSuccess | lib/connmgr/transfer_window.go:182-197 | when the upload has succeeded, the goroutine has exited if and only if its budget is used up or a terminating reply waits unread; with nothing unread, if and only if every packet was acknowledged separately |
| AckReader.ReaderLeftBehind | lib/connmgr/transfer_window.go:185-197 | a reply that acknowledges two packets leaves the goroutine in a read when the upload succeeds |
| ReceiveState.PacketReceiveState.Validate | lib/connmgr/transfer_window.go:295-363 | the check's result and the state it leaves behind, including mode and total set by a first packet later rejected |
| ReceiveState.PacketReceiveState.CheckLeaves | lib/connmgr/transfer_window.go:342-362 | the leaf loop finds the first faulty leaf |
| ReceiveState.PacketReceiveState.Commit | lib/connmgr/transfer_window.go:365-371 | the state after a commit |
| ReceiveState.HashedBefore | lib/connmgr/transfer_window.go:342-360 | the hashes collected by the leaf loop are those of the leaves passed |
| ReceiveFaults.FaultIsFirst | lib/connmgr/transfer_window.go:295-363 | a packet is turned away for a fault exactly if it has that fault and none that is asked about before, each fault described apart from the others; it is accepted exactly if it has none |
| ReceiveRuns.RunIsConsistent | lib/connmgr/transfer_window.go:295-371 | over every run of failing and succeeding checks: accepted packets are 0..next-1 of one frozen total, finalized holds exactly at next = total > 0, stop-and-wait transfers accept only zero counters, root and credentials are stable, and the seen leaves are the disjoint union of the packets' leaves with matching cardinality |
| ReceiveRuns.LeavesAcceptedExactly | lib/connmgr/transfer_window.go:342-361 | the leaf checks succeed if and only if the leaves are hashed, distinct, related, parentless only at the root, and new to the transfer |
| ReceiveRuns.ParentlessLeafIsRoot | lib/connmgr/transfer_window.go:313-359 | across a run at most one leaf declares an empty parent: the root, in packet 0 |
| ReceiveRuns.RangeCheckUnreachable | lib/connmgr/transfer_window.go:332-334 | the range check never fires |
| ReceiveRuns.FinalMeansComplete | lib/connmgr/download.go:99-104 | a final packet always completes a windowed transfer |
| ReceiveRuns.AcknowledgmentNamesLastPacket | lib/connmgr/transfer_window.go:373-378 | the acknowledgment parses back to the index just committed, or to no window in stop-and-wait |
| ReceiveRuns.RejectedFirstPacketFixesMode | lib/connmgr/transfer_window.go:305-361 | a first packet is rejected and leaves its mode behind if and only if it counts itself and fails a later check; that makes exactly the stop-and-wait first packets unacceptable |
| ReceiveRuns.ModeSurvivesRejection | lib/connmgr/transfer_window.go:305-338 | a packet that does so |
| Download.DownloadDag | lib/connmgr/download.go:49-130 | a DAG is returned only if the first message names the requested root, its public key parses, its signature text decodes to bytes that parse, and these sign the root under that key; root, key, hexadecimal text, signature and signing are the fault returned exactly if they are the first of these to fail; messages taken, replies written, result and error are those of the receiver machine, which ends soundly; the text of a rejection written is that of the fault returned; a DAG is returned if and only if the machine finished; the error is never an incomplete stream or an index out of range |
| Download.ReceivePackets | lib/connmgr/download.go:83-123 | the packet loop follows the receiver machine to its end |
| Download.ApplyPacket | lib/connmgr/download.go:86-109 | check, application, commit and final verification yield a reply, or the same fault, as the receiver machine does |
| Download.Acknowledge | lib/connmgr/download.go:110-118 | the acknowledgment is written after the commit, and the download goes on, finishes or breaks |
| Download.Reject | lib/connmgr/download.go:45-47 | a message turned away is answered negatively with the text of its error, and ends the download |
| Download.RejectsExactly | lib/connmgr/download.go:54-109 | a sound listening receiver turns a message away for a fault exactly if the message has it: another root, refused credentials, a packet fault, a packet that does not apply, or a tree that does not verify after the last one; otherwise, and only then, it owes a positive reply |
| Download.DownloadExplains | lib/connmgr/download.go:45-47 | the last reply of a rejected download, if it could be written, is negative and says what explains the fault returned, of the last message received |
| Download.ServedIsSound | lib/connmgr/download.go:85-123 | every download ends having acknowledged only packets it accepted, in order and one each; a finished one holds the verified DAG assembled from all packets accepted |
| Download.DownloadIsSound | lib/connmgr/download.go:49-130 | the same for every download from its start |
| Download.ProcessedIsSound | lib/connmgr/download.go:86-109 | one message keeps the receiver's invariant |
| Download.NeverImpossiblyRejected | lib/connmgr/download.go:99-104 | no download, on whatever stream, is rejected for an incomplete packet stream or an index out of range |
| Credentials.HexRoundTrip | lib/connmgr/upload.go:66 | the signature an upload prints is the one a download decodes |
| Credentials.PrintedHex | lib/connmgr/upload.go:66 | it is printed as two lower-case digits a byte |
| Credentials.DecodesExactly | lib/connmgr/download.go:65-70 | a signature text is decoded if and only if it is an even number of hexadecimal digits |
| Credentials.AuthenticExactly | lib/connmgr/download.go:59-81 | credentials are accepted exactly if the key parses and the signature text decodes to bytes that parse as a signature and sign the root under this key |
| Credentials.CauseExactly | lib/connmgr/download.go:59-81 | key, hexadecimal text, signature and signing are each the cause named exactly if they are the first to fail |
| Credentials.DecodedBytes | lib/connmgr/download.go:65-70 | each decoded byte is sixteen times the value of its first digit plus that of its second |
| Credentials.HexDigits | lib/connmgr/download.go:65-70 | a digit has the value of its place in 0123456789abcdef, in either case |
| Download.RepliedIsSound | lib/connmgr/download.go:110-118 | writing a reply, or failing to, keeps the receiver's invariant |
| WindowAck.AcceptedExactly | lib/connmgr/transfer_window.go:39-60 | a message is accepted with a given index and window if and only if it lays out spellings of these numbers within bounds between white space; it is unsupported if and only if it lacks the prefix |
| WindowAck.RoundTrip | lib/connmgr/transfer_window.go:35-60 | a printed acknowledgment parses back to its index and the 16-packet, 32-MiB window exactly for indices from 0 to the largest int |
| WindowAck.WrittenAcknowledgment | lib/connmgr/transfer_window.go:35-37 | the text of an acknowledgment, spelled out but for its index |
| WindowAck.WordsExactly | lib/connmgr/transfer_window.go:47-60 | four spaced words are refused for the first of index, packet limit and byte limit that spells no number within 0 to the largest int, 1 to 64 and 1 to 268435456; otherwise they are read in this order |
| WindowAck.ShapeExactly | lib/connmgr/transfer_window.go:39-46 | a text is refused for its shape exactly if it has the prefix and is not the protocol name followed by three words between white space |
| WindowAck.ReadsAsIndexZero | lib/connmgr/transfer_window.go:47-50 | zero behind any sign, zeros and trailing white space is read as index 0 |
| WindowAck.LayoutFields | lib/connmgr/transfer_window.go:43 | a spaced layout splits into exactly its four words |
| WindowAck.FieldsLayout | lib/connmgr/transfer_window.go:43-46 | every message of four fields headed by the protocol is such a layout |
| Decimal.ParseIntExact | lib/connmgr/transfer_window.go:47-55 | the integer parser accepts exactly the signed, zero-padded spellings of 64-bit integers |
| Decimal.PrintedSpells | lib/connmgr/transfer_window.go:36 | what is printed is one of these spellings |
| PacketSize.TransferPacketSize | lib/connmgr/transfer_window.go:62-76 | the estimate, an int64 that may wrap around, is the same whatever order the relationships are visited in, and zero for a nil packet |
| PacketSize.EmptyPacketSize | lib/connmgr/transfer_window.go:66 | a packet of no leaves and no relationships weighs 128 |
| PacketSize.RelationshipAdds | lib/connmgr/transfer_window.go:72-74 | one more relationship adds the bytes of its child and of its parent and 32, for texts below 0x80 their characters and 32 |
| PacketSize.LeafAdds | lib/connmgr/transfer_window.go:67-71 | one more leaf, wherever it stands, adds its estimate and 256, and a nil leaf nothing |
| PacketSize.CharacterAdds | lib/connmgr/transfer_window.go:73 | a character adds one to four bytes, as its UTF-8 encoding takes |
| PacketSize.OrderIrrelevant | lib/connmgr/transfer_window.go:72-74 | every order of visiting the relationships adds up to the same sum |
| PacketSize.Size | lib/connmgr/transfer_window.go:62-76 | a packet weighs at least 128 bytes |
| Progress.UploadDagSingle | lib/connmgr/upload.go:54-78 | one report per acknowledgment with the leaves of all packets up to it, a last one for a failure; the figures never fall, and on success end at the sum over all packets; what is written are the messages of the upload, field by field |
| Progress.FillTable | lib/connmgr/upload.go:57-63 | entry i of the table counts the leaves of packets 0 to i |
| Progress.ReportAll | lib/connmgr/upload.go:66-77 | what the callback and the failure path report |
| Progress.ReportsClimb | lib/connmgr/upload.go:66-71 | reported figures never fall |
| Framing.MessageReader.ReadEnvelope | lib/connmgr/stream.go:306-342 | one read takes an item off the pending bytes exactly if they begin with the bytes RFC 8949 lays out for it, and keeps every byte after it, whatever the chunks; it reports the end of the stream exactly if nothing is pending, an unexpected end exactly if the bytes are a beginning of some item, and an error exactly if they are neither |
| Framing.VerdictReadsOff | lib/connmgr/stream.go:319-335 | what a read makes of the pending bytes, told by the layout of items alone |
| Framing.ReadIgnoresChunks | lib/connmgr/stream.go:116-127 | for every cutting of the byte stream and any read-ahead, result and remaining bytes are those of decoding at once |
| Framing.ReadSequence | lib/connmgr/stream.go:116-127 | one retained reader returns exactly the sent envelopes, in order, none lost |
| Framing.ReadWithFreshReader | lib/connmgr/stream.go:302-304 | a decoder of its own per message: its result, and what is lost with it |
| Framing.FreshReaderLosesNothingExactly | lib/connmgr/stream.go:218-220 | a dropped decoder holds no bytes if and only if some read ended exactly at the message's end |
| Framing.LoneEnvelopeIsSafe | lib/connmgr/stream.go:190-192 | with one envelope on the stream nothing can be lost |
| Framing.PipelinedEnvelopeIsLost | lib/connmgr/stream.go:116-119 | two envelopes in one read: a decoder per message swallows the second |
| Handover.OneOutstanding | lib/connmgr/transfer_window.go:137-171 | while the sender awaits the root reply or a stop-and-wait reply, at most one packet or reply is under way |
| Handover.FreshReadersLoseNothing | lib/connmgr/transfer_window.go:118-123 | in every run, faults included, the decoder made for such a reply returns it and drops nothing, whatever the chunks |
| Handover.RetainedReaderKeepsOrder | lib/connmgr/transfer_window.go:186-188 | the goroutine's reader hands on the oldest reply in transit and leaves exactly the others |
| Cbor.RoundTrip | lib/connmgr/stream.go:319-324 | decoding an encoded item yields it and leaves what follows |
| Cbor.PrefixNeedsMore | lib/connmgr/stream.go:319-324 | a proper prefix of an encoding is never mistaken for an item or for an error |
| Cbor.Stable | lib/connmgr/stream.go:319-324 | a verdict on some bytes stands whatever follows them, for every item of RFC 8949, section 3, indefinite lengths, tags and floating-point values included |
| Cbor.IndefiniteArray | lib/connmgr/stream.go:319-324 | an array written with indefinite length is read as the array it is |
| CborLayout.CompleteExactly | lib/connmgr/stream.go:319-324 | the decoder reads an item off the front of some bytes exactly if they begin with a spelling of it: literal first bytes by major type, arguments in the first byte or the next one, two, four or eight, the most significant first, definite and indefinite lengths, tags, simple values and floats |
| CborLayout.NeedMoreExactly | lib/connmgr/stream.go:319-324 | the decoder asks for more bytes exactly if those it has can still become a spelling of some item |
| CborLayout.MalformedExactly | lib/connmgr/stream.go:319-324 | the decoder gives up exactly if the bytes neither begin with a spelling of an item nor can become one |
| CborLayout.EncodedIsSpelled | lib/connmgr/stream.go:319-324 | what the encoder yields is a spelling of the item |
| CborLayout.ShortItems | lib/connmgr/stream.go:319-324 | for instance, for n below 24: n is read as n, 0x20 + n as -1 - n, 0x40 + n and 0x60 + n with n bytes as these bytes and this text, 0xE0 + n as a simple value, and 0x18 and 0x19 announce one and two bytes of argument |
| ReadRetry.ReadMessageFromReader | lib/connmgr/stream.go:222-300 | an uninitialised reader is turned away; otherwise the loop reads on where the last attempt left the reader, ends with the first attempt that cannot be retried or with the last one allowed, and returns its message or error; a read that times out closes the stream |
| ReadRetry.ResultExactly | lib/connmgr/stream.go:233-300 | a message is returned if and only if it comes within the allowed attempts and all before it could be retried; neither message nor error is returned if and only if no attempt is allowed; at most maxRetries+1 attempts are made |
| ReadRetry.TerminalWhenWrapped | lib/connmgr/stream.go:25-43 | wrapping a terminal error leaves it terminal |
| ReadRetry.TerminalExactly | lib/connmgr/stream.go:19-46 | an error ends the loop exactly if its text contains one of the five conditions |
| ReadRetry.SkipsToFirstFitting | lib/connmgr/stream.go:234-297 | however the bytes are cut, the first of the sent envelopes that is of another kind than "error" and whose payload has the wanted type is returned when all before it are unreadable without ending the stream and are few enough, and exactly those after it are left |
| ReadRetry.RemoteErrorEnds | lib/connmgr/stream.go:255-276 | if the first envelope not skipped has kind "error" and its text decodes, the loop returns that text as an error at once, whatever its payload could be decoded as |
| ReadRetry.ReturnsExactly | lib/connmgr/stream.go:233-297 | on a stream of envelopes that then ends, a message is returned if and only if some envelope within the attempts made in time is of another kind than "error" and holds it, and those before it are skipped |
| ReadRetry.FailureTold | lib/connmgr/stream.go:245-297 | the error returned is what is wrong with the item the last attempt read: no envelope, an error text that does not decode or does, a payload of another type; or it names the time limit exceeded, or what reading from a closed stream yields |
| ReadRetry.EndIsFinal | lib/connmgr/stream.go:245-253 | the end of the stream, between envelopes or inside one, is returned at once with its text and never retried |
| ReadRetry.NoMessageAfterTimeout | lib/connmgr/stream.go:336-340 | after a read that timed out no message is returned any more |
| ReadRetry.TimeoutIsRetried | lib/connmgr/stream.go:245-253 | and yet the loop tries again, if it may, on the stream it has closed |
| ByteSession.BytesRunIsSessionRun | lib/connmgr/stream.go:116-127 | every run on byte streams, however they are cut and whatever fails, with fresh decoders for the root and stop-and-wait replies and retained ones for the goroutine and the receiver, is a run of the session on messages, and loses no byte |
| ByteSession.SessionRunIsBytesRun | lib/connmgr/stream.go:306-342 | every run of the session is one on byte streams |
| ByteSession.BytesSuccessMeansDelivered | lib/connmgr/download.go:85-118 | sender success on byte streams, too, means delivery of all packets and the verified DAG |
| ByteSession.MoveProjects | lib/connmgr/stream.go:190-204 | one read, write or local step on bytes is the session's step on messages |
| ByteOutcome.BytesSettleExactly | lib/connmgr/transfer_window.go:182-273 | a fault-free run on bytes that can go no further, however they were cut, has delivered everything if the transfer is well-formed, and otherwise the sender was told of the rejection |

## Left out

- How CBOR items are matched to Go types, text checked for UTF-8 among it, is given by a schema of functions; limits on nesting and length, the pauses between attempts, and a decoder still at work after its read timed out are not modelled.
- Byte streams with bounded buffers: ByteSession's streams take every write; SessionBuffers settles what bounded message buffers change.
- ByteSession.BytesRunIsSessionRun: a read completes with a whole envelope; a read that fails is the session's fault step.
- Time: sleeps, read and write deadlines, the AckWait statistic and logging. A timeout or cancellation is a failing outcome at any point.
- Write retries in WriteMessageToStream: a write is appended whole or ends the run.
- The upload's goroutine runs inside the steps of AckReader and Session; Upload.SendBatchedUpload itself takes the outcomes of its waits from the stream object.
- Strings are sequences of characters; Go strings that are not valid UTF-8 are not modelled.
- GetStream, the deferred stream.Close (for a blocked peer it is a failing write), the initial DownloadMessage with its own signature and filter, and the download progress channel.
- Signing the root; what keys and signatures parse and verify is given by functions of the signing library.
- Inside the DAG library: applying and verifying a packet, cutting a DAG into packets, size estimation, serialization.
- UploadDag's loop over connections, and a nil progress callback or channel.
- The connection manager, the libp2p, websocket and hyperswarm connectors, blossom, queries, claims and universal events: plumbing over other libraries.
