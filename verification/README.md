# Wavry in Dafny

A model of the small state machines that Wavry's RIFT streaming protocol depends on, and proofs
that they are right for every arrival order, every interleaving and every run.

| file | what it models |
|---|---|
| SequenceWindow, SecureEndpoint | the 128-bit replay window and the encrypted endpoints that use it |
| NackWindow, SendHistory, LossRepair | loss reports, the host's resend history, and the repair loop between them |
| PacketCodec | the two-format physical packet codec |
| Fec, Frames, ReorderBuffer | parity recovery, video chunking and reassembly, the circular reorder buffer |
| FileTransfer, FileProtocol, SendQueue, TokenBucket | chunked file transfer over a lossy network, turn taking and rate limiting |
| WindowBudget, Relay, RelayLaws | fixed-window accounting, the gateway's blind relay as one transition system, and what it owes its peers |
| RateLimiter, LeaseLimiter | the gateway's request limiter and the master's lease limiter |
| Delta, DeltaLaws | DELTA congestion control, and what it does in terms of the delays it measures |

Objects that the source updates in place are classes. Each keeps, beside the source's fields, a
ghost record of its whole past (arrivals, grants, samples, forwarded packets), and its invariant
says what the bounded fields mean in terms of that past; so what follows from the invariant holds
in every reachable state. The laws about those records are lemmas on plain values.

Conventions. Clocks are parameters that never go back. Floating point is modelled by reals and
truncating casts are written out. Integers are unbounded and the source's wrap-around is explicit
where it can be observed: the replay window, parity recovery and the bitrate use wrapping
arithmetic. A `u128` bitmap is its 128 bits. The AEAD, the CRC and the Noise library are arbitrary
functions or outcomes.

Where code and documentation differ, the model follows the code. The header sizes are 30 and 18
bytes although the comments above them say 26 and 14. The replay window refuses the number exactly
`window_size` behind the highest, which its description calls still inside. The request limiter is
called a sliding window in its description and is a fixed one.

Properties that turned out false are stated with an input that shows it and their exact condition:

| expected | input | condition |
|---|---|---|
| a number never seen is accepted | `WrapRefusesNewNumber` | `AcceptsExactly`, `RunAnswersExactly` |
| decoding undoes encoding | `WideSessionIdLost`, `ZeroAliasLost` | `DecodeEncode` |
| an accepted packet is held under its own id | `NextIdMisfiled` | `HeldUnderOwnId` |
| a reported packet can still be delivered | `ReportedTooOld` | `ReportedAdmissible` |
| a lost id is reported | `ForgedPacketSilences` | `ReportedExactly` |
| the chunks below the cursor have been sent | `FailedSendLeavesGap` | `BelowCursor` |
| an offer passes its own validation | `SizeCutAway` | `FromSource`, `CutKeepsCount` |
| an order to pause pauses | `PauseTakesHold` | `PauseTakesHold` |
| an additive increase does not lower the bitrate | `IncreaseOverflows` | `IncreaseRaisesExactly` |
| the bitrate stays in its range | `IncreaseOverflows` | `IncreaseInRangeExactly`, `RangeOverRun` |

## Model

| member | source | states |
|---|---|---|
| SequenceWindows.SequenceWindow.CheckAndUpdate | crates/rift-crypto/src/seq_window.rs:88-127 | the bitmap update is the update of the value window, answers are the value window's, and the set of everything ever accepted grows by exactly the accepted number, which was not in it |
| SequenceWindows.SequenceWindow.Check | crates/rift-crypto/src/seq_window.rs:63-83 | the read-only check gives the same answer and passes only numbers never accepted |
| SequenceWindows.SequenceWindow.Reset | crates/rift-crypto/src/seq_window.rs:135-138 | back to the empty window |
| SequenceWindows.SequenceWindow.BitsAreAccepted | crates/rift-crypto/src/seq_window.rs:25-27 | in every reachable state bit i is set exactly when `highest - i` was accepted, for all i below 128 |
| SequenceWindows.AdmitTracks | crates/rift-crypto/src/seq_window.rs:88-127 | one update keeps the bounded memory in step with the unbounded set, and never accepts a number twice |
| SequenceWindows.AcceptsExactly | crates/rift-crypto/src/seq_window.rs:63-83 | the answer is the unbounded specification's if and only if the number plus the window size does not wrap onto a number already passed |
| SequenceWindows.WrapRefusesNewNumber | crates/rift-crypto/src/seq_window.rs:70 | a concrete number near 2^64 that the code refuses although it was never seen |
| SequenceWindows.RunTracks | crates/rift-crypto/src/seq_window.rs:88-127 | after any run the window is the bounded memory of everything the run accepted |
| SequenceWindows.AcceptedAtMostOnce | crates/rift-crypto/src/seq_window.rs:85-127 | no run of any length and order accepts a number twice, for every window size from 1 to 128 |
| SequenceWindows.RunAnswersExactly | crates/rift-crypto/src/seq_window.rs:63-127 | every answer of every run equals the unbounded specification's, except exactly where the number plus the window size wraps to or below a number already accepted |
| SecureEndpoints.SecureEndpoint.FinishHandshake | crates/rift-crypto/src/connection.rs:145-171 | a session is taken once; failure leaves cipher and window alone; success starts with nothing delivered |
| SecureEndpoints.SecureEndpoint.Decrypt | crates/rift-crypto/src/connection.rs:192-208 | delivers exactly when fresh, established and authentic; at most one plaintext per packet id over the whole life; a refused or forged packet leaves the window unchanged; the update after a passing check succeeds |
| NackWindows.NackWindow.OnPacket | crates/wavry-client/src/media.rs:252-286 | reports exactly the skipped ids the window still covers, in order, each above every earlier arrival and report; the two sets and the reports are functions of the whole arrival list |
| NackWindows.PartitionOfWindow | crates/wavry-client/src/media.rs:273-285 | every covered id after the first packet is in exactly one of the two sets, which together hold at most `window + 1` ids |
| NackWindows.ReportsAfterArrival | crates/wavry-client/src/media.rs:254-276 | over a run the reports are strictly increasing and cover everything missing |
| NackWindows.PacketAccounted | crates/wavry-client/src/media.rs:252-286 | adding the gap and dropping what left the window turns the sets of one arrival list into those of the next |
| NackWindows.ReportedExactly | crates/wavry-client/src/media.rs:252-277 | an id is ever reported if and only if the first arrival at or above it is not the very first one and lies above it by at most a window, over all arrivals, authentic or not |
| NackWindows.SilentBelow | crates/wavry-client/src/media.rs:254-272 | once an id has arrived, nothing at or below it is newly reported |
| SendHistories.SendHistory.Insert | crates/wavry-ffi/src/session.rs:69-79 | a known id is overwritten in place, a new one pushes the oldest out, and the map holds exactly the ids of the order |
| SendHistories.Host.Send | crates/wavry-ffi/src/session.rs:293-316 | ids are consecutive, a failed encryption uses up its id, and the history is the latest 512 packets sent |
| SendHistories.Host.HistoryExact | crates/wavry-ffi/src/session.rs:69-83 | every packet whose id is at most 512 back is held with the bytes sent, and nothing older than 512 packets is |
| SendHistories.Host.HeldExactly | crates/wavry-ffi/src/session.rs:69-83 | what is held was sent, byte for byte; for ids at most 512 back, what was sent is held |
| SendHistories.Host.OnNack | crates/wavry-ffi/src/session.rs:662-668 | answers with the held packets, in the order asked |
| LossRepair.ClientReceiver.OnArrival | crates/wavry-client/src/client.rs:1202-1224 | every id reaches the NACK window, forged or not; a packet is delivered exactly when it opens, is new and in reach of the replay window; if it is delivered, every id it reveals as missing would be admitted except the one 128 back and those at the very top of the range |
| LossRepair.ClientReceiver.Receive | crates/wavry-client/src/client.rs:1190-1224 | bytes that do not decode change nothing; the others are reported on, and delivered exactly when they open and are admissible |
| LossRepair.ForgedPacketSilences | crates/wavry-client/src/client.rs:1202-1224 | a concrete run in which one packet that does not open keeps two lost ids from ever being reported |
| LossRepair.AdmitsExactly | crates/rift-crypto/src/seq_window.rs:63-83 | the replay window admits exactly what is new and has nothing delivered 128 or more ahead, in wrapping arithmetic |
| LossRepair.ReportedAdmissible | crates/wavry-client/src/media.rs:258-264 | an id revealed by an accepted packet is still admissible if and only if it is not 128 behind that packet and its sum with the window size does not wrap |
| LossRepair.ReportedTooOld | crates/wavry-client/src/media.rs:258-264 | a concrete gap of 129 whose first missing id is reported although the replay window has passed it |
| LossRepair.NackAnswered | crates/wavry-ffi/src/session.rs:662-668 | the answer holds only reported packets that were sent, byte for byte and in order; while the host is at most 384 ids ahead it holds all of them, so only an id whose encryption failed goes unanswered |
| LossRepair.SendMessage | crates/wavry-ffi/src/session.rs:293-316 | every packet of the host is the wire image of the message it sealed under that id; a failed encryption sends none |
| LossRepair.ReceiveAll | crates/wavry-client/src/client.rs:1190-1224 | of any stream of newer packets, retransmissions, copies and junk, each datagram that opens is delivered exactly when it is new and less than 128 behind the highest delivered at that moment |
| LossRepair.DeliveredInTime | crates/wavry-client/src/client.rs:1190-1224 | a new id is delivered by a stream if and only if one of its datagrams comes while nothing delivered is too far ahead, in wrapping arithmetic |
| LossRepair.DeliversTrue | crates/wavry-client/src/client.rs:1190-1224 | from packets of the host and junk, only messages the host sealed are delivered, each under its id |
| LossRepair.RepairRound | crates/wavry-client/src/client.rs:1190-1224 | report, resend and return through one object of each end, among newer packets, copies and junk, whatever forged packets came before: a reported id is delivered exactly when it comes in time; if nothing is lost or runs 128 ahead of it, exactly when the host ever sent it and it is not the one 128 behind; and what is delivered is the message the host sealed |
| LossRepair.PassOnLosesNothing | crates/wavry-ffi/src/session.rs:662-668 | the network that passes on what the host resends meets every assumption made about networks |
| LossRepair.RepairsOneLoss | crates/wavry-client/src/client.rs:1190-1224 | for any session and any three messages, the second packet is lost, reported, resent and delivered |
| PacketCodec.Encode | crates/rift-core/src/lib.rs:72-108 | the buffer with its patched checksum is header, checksum of the header, payload |
| PacketCodec.DecodeEncode | crates/rift-core/src/lib.rs:72-174 | decoding undoes encoding if and only if the packet is version 1 and its ids can be told apart from the other format, for any checksum function |
| PacketCodec.WideSessionIdLost | crates/rift-core/src/lib.rs:124-127 | session id 2^96 does not survive the wire |
| PacketCodec.ZeroAliasLost | crates/rift-core/src/lib.rs:124-127 | alias zero with twelve bytes of payload does not survive the wire |
| PacketCodec.EncodeDecode | crates/rift-core/src/lib.rs:110-174 | whatever the decoder accepts is the encoding of what it returns |
| PacketCodec.WireBytes | crates/rift-core/src/lib.rs:72-108 | where every field of the two formats lies, and which bytes the checksum covers |
| PacketCodec.FirstByteWeighsMost | crates/rift-core/src/lib.rs:80-98 | numbers are written with the most significant byte first |
| PacketCodec.LeadingZeros | crates/rift-core/src/lib.rs:124-127 | an id looks like a handshake exactly when it is below 2^96 |
| PacketCodec.RelayReadsPacketId | crates/wavry-gateway/src/relay.rs:475-489 | the relay reads the same packet id the endpoints use |
| PacketCodec.RelayReadsFirstEight | crates/wavry-gateway/src/relay.rs:485-488 | of anything else the relay reads the first eight bytes, if there are that many |
| PacketCodec.SequenceInRange | crates/wavry-gateway/src/relay.rs:475-489 | whatever the relay reads is a 64-bit number |
| Fec.XorInPlace | crates/rift-core/src/lib.rs:306-311 | XORs a shorter or longer payload over the front of the buffer |
| Fec.XorParity | crates/rift-core/src/lib.rs:298-304 | byte i is the XOR of byte i of every payload, absent bytes counting as zero |
| Fec.FecBuilder.Create | crates/rift-core/src/lib.rs:249-261 | fewer than two shards is an error, otherwise an empty group |
| Fec.FecBuilder.Push | crates/rift-core/src/lib.rs:263-295 | a parity packet leaves exactly when the group is full, is the parity of that group, and the next group starts empty |
| Fec.RecoversTheLostShard | crates/wavry-client/src/media.rs:120-163 | if the cache holds all of a group but one, the residue cut to the recorded length is the missing payload |
| Fec.XorLeavesMissing | crates/wavry-client/src/media.rs:126-136 | XOR of a whole group with its held part leaves the missing packet |
| Fec.FecCache.TryRecover | crates/wavry-client/src/media.rs:120-163 | recovers if and only if exactly one packet of the group is missing, for any announced shard count, in wrapping arithmetic; given the parity of a group of which all but one packet is held, the result is that packet |
| Fec.FecCache.Insert | crates/wavry-client/src/media.rs:111-118 | a full cache drops its smallest id; fed increasing ids it holds exactly the latest 256 |
| Frames.ChunkVideoPayload | crates/rift-core/src/lib.rs:192-222 | the chunks are the consecutive pieces of the payload, or the right error |
| Frames.JoinPieces | crates/rift-core/src/lib.rs:209-220 | the pieces joined are the payload |
| Frames.PieceCount | crates/rift-core/src/lib.rs:204 | the announced chunk count is the number of pieces |
| Frames.PieceLengths | crates/rift-core/src/lib.rs:209-220 | every piece is full but the last, which is not empty |
| Frames.FrameAssembler.Push | crates/wavry-client/src/media.rs:46-91 | no buffer outlives its timeout and no younger one is lost; a chunk that finds only a stale buffer completes nothing unless it is alone; a complete frame is emitted and forgotten, and the latest copy of a chunk counts |
| Frames.RunProgress | crates/wavry-client/src/media.rs:46-91 | until a frame is complete the assembler holds exactly what has arrived of it |
| Frames.EmittedOnLastChunk | crates/wavry-client/src/media.rs:46-91 | under any order, repetition and interleaving inside the timeout, the frame is emitted exactly when its last missing chunk arrives, and equals the frame that was chunked |
| Frames.EmittedInTime | crates/wavry-client/src/media.rs:46-91 | whatever the events, an emitted frame consists of pieces of one frame id, all of which came less than a timeout after the first of them |
| ReorderBuffers.ReorderBuffer.Insert | crates/wavry-media/src/buffer_pool.rs:199-221 | inside the window an insert is a map update; beyond it the packet lands on the id that shares its slot; the byte counter is the stored bytes plus what was overwritten |
| ReorderBuffers.ReorderBuffer.Get | crates/wavry-media/src/buffer_pool.rs:224-236 | lookup and removal in the map |
| ReorderBuffers.ReorderBuffer.FlushOrdered | crates/wavry-media/src/buffer_pool.rs:239-254 | terminates and returns exactly the maximal consecutive run from the window start |
| ReorderBuffers.ReorderBuffer.SlideWindow | crates/wavry-media/src/buffer_pool.rs:257-265 | drops exactly the ids below the new start, and slides at most one window |
| ReorderBuffers.HeldUnderOwnId | crates/wavry-media/src/buffer_pool.rs:205-216 | an accepted packet is held under its own id if and only if it was inside the window it found |
| ReorderBuffers.WindowFollows | crates/wavry-media/src/buffer_pool.rs:205-209 | the window moves only for an id beyond its end, just far enough to hold it, and by at most its own length |
| ReorderBuffers.NextIdMisfiled | crates/wavry-media/src/buffer_pool.rs:206 | the id right after a window of ten does not slide it and is held as its first id |
| ReorderBuffers.WriteSlot | crates/wavry-media/src/buffer_pool.rs:211-216 | writing a slot of the circular buffer updates the map at one id only |
| FileTransfer.ValidatedIsConsistent | crates/wavry-common/src/file_transfer.rs:369-416 | validation accepts exactly the offers within the limit, with usable name and checksum, whose chunk count is the least that covers the size |
| FileTransfer.ChunkBounds | crates/wavry-common/src/file_transfer.rs:418-427 | chunks are non-empty and adjacent, and the last ends where the file ends |
| FileTransfer.ChunksCover | crates/wavry-common/src/file_transfer.rs:418-427 | every byte of the file lies in a chunk |
| FileTransfer.OutgoingFile.FromSource | crates/wavry-common/src/file_transfer.rs:37-92 | a file is offered exactly when id, name, chunk size and size allow it; its offer validates under the same limit if and only if the chunk size survives the cut to 32 bits |
| FileTransfer.CutKeepsCount | crates/wavry-common/src/file_transfer.rs:74-84 | the cut leaves the chunk count as it was if and only if the size is below 2^32 or what is left of it holds the whole file in one chunk |
| FileTransfer.SizeCutAway | crates/wavry-common/src/file_transfer.rs:84 | a chunk size of 2^32 makes an offer that its own validation refuses |
| FileTransfer.OutgoingFile.NextChunk | crates/wavry-common/src/file_transfer.rs:147-176 | produces the chunk under the cursor, cut from the source, and moves on; an empty chunk ends the file, which a consistent offer never meets |
| FileTransfer.OutgoingFile.SetNextChunk | crates/wavry-common/src/file_transfer.rs:118-128 | moves the cursor within the file, else refuses |
| FileTransfer.IncomingFile.WriteChunk | crates/wavry-common/src/file_transfer.rs:253-288 | refuses bad indices and lengths, writes a chunk once and in place, and counts it |
| FileTransfer.IncomingFile.NextMissingChunk | crates/wavry-common/src/file_transfer.rs:233-239 | the first missing chunk, or the total exactly when complete |
| FileTransfer.IncomingFile.CompleteMeansSource | crates/wavry-common/src/file_transfer.rs:225-227 | complete means every chunk marked, and then the file is the source |
| FileTransfer.WriteKeepsAgreement | crates/wavry-common/src/file_transfer.rs:272-285 | writing a genuine chunk fills its slot and disturbs no other |
| FileTransfer.CompleteIsSource | crates/wavry-common/src/file_transfer.rs:225-227 | a file whose every chunk agrees with the source is the source |
| FileProtocol.ApplyToOutgoing | crates/wavry-client/src/client.rs:387-478 | the exact cursor, header mark, pause and removal for any combination of kind, resume point, command and phrase; rewinds only move back |
| FileProtocol.PauseTakesHold | crates/wavry-client/src/client.rs:427-453 | an order to pause takes hold if and only if the status is not also pending or in progress, and a concrete status where it does not |
| FileProtocol.StatusMeanings | crates/wavry-client/src/client.rs:387-513 | which statuses start the sender over, end the transfer at either end, rewind it, pause it or resume it, and which do none of these |
| FileProtocol.FileLink.SendTick | crates/wavry-client/src/client.rs:1739-1830 | sends exactly when the file is queued, its offer is out, it is not paused and not finished, and the limiter grants it; a chunk the limiter refuses goes back under the cursor, one whose send fails does not, and a failed offer stays to be sent; every try is recorded with its outcome |
| FileProtocol.FileLink.BelowCursor | crates/wavry-client/src/client.rs:1786-1815 | every chunk below the cursor was tried; all of them have been on the wire if and only if no send failed that another did not make good |
| FileProtocol.FileLink.FailedSendLeavesGap | crates/wavry-client/src/client.rs:1786-1815 | a one-chunk file whose cursor is at the end although nothing ever left |
| FileProtocol.FileLink.StatusToSender | crates/wavry-client/src/client.rs:387-478 | arbitrary statuses never move the cursor forward; a resume request brings it to the requested chunk or below; a file no longer queued is left alone |
| FileProtocol.FileLink.StatusToReceiver | crates/wavry-client/src/client.rs:480-513 | exactly cancel, retry, complete and error drop a partial file |
| FileProtocol.FileLink.DeliverHeader | crates/wavry-client/src/client.rs:1423-1520 | opens an acceptable offer once, answers a repeated one with the first missing chunk, turns down a different one, ignores the rest |
| FileProtocol.FileLink.DeliverChunk | crates/wavry-client/src/client.rs:1833-1968 | under loss, repetition and reordering every marked slot holds the source's bytes; with its last chunk in, the file is the source and is handed over exactly when the offer carried the source's checksum and the file could be moved into place; an incomplete file reports its first gap exactly when there is one below the chunk that came, at every 64 chunks, and when at most two are left |
| FileProtocol.FileLink.RewindAndFinish | crates/wavry-client/src/client.rs:408-423 | from any state with a queued file and an open receiver, applying its first missing chunk and one pass without loss completes the file |
| FileProtocol.FileLink.ReportAndFinish | crates/wavry-client/src/client.rs:1846-1910 | whatever was lost, one later chunk that arrives makes the receiver report the gap, the report brings the sender back, and one pass without loss completes the file |
| FileProtocol.FileLink.FinishPass | crates/wavry-client/src/client.rs:1739-1830 | one pass without loss completes the file; the offer is repeated where needed, and the replies take the file off the sender's queue |
| FileProtocol.FileLink.TransferWhole | crates/wavry-client/src/client.rs:1739-1968 | any file that can be offered, sent without loss, arrives whole and leaves the queue |
| SendQueues.SendQueue.Tick | crates/wavry-client/src/client.rs:377-385 | serves the first file that has its offer to send or is neither paused nor finished; a served file goes to the back, a refused one keeps its turn, order is otherwise kept, whatever the tick does to the file |
| SendQueues.OneTurnCloser | crates/wavry-client/src/client.rs:1823-1827 | a turn brings every other ready file exactly one turn closer |
| SendQueues.ServedGoesLast | crates/wavry-client/src/client.rs:1823-1827 | the served file goes behind every other ready file |
| SendQueues.ServedInTurn | crates/wavry-client/src/client.rs:377-385 | a ready file with n ready files ahead of it is next after n turns, whatever each turn does to the file it serves |
| TokenBucket.FileTransferLimiter.TryTake | crates/wavry-client/src/client.rs:318-327 | granted if and only if the bucket can hold the request and has or has earned enough; up to four chunks are granted once the income since any earlier refill covers them, however many attempts were refused since; each call adds its refill to the log |
| TokenBucket.FileTransferLimiter.SetRateKbps | crates/wavry-client/src/client.rs:299-308 | pays out at the old rate before changing, caps, and adds its refill to the log |
| TokenBucket.FileTransferLimiter.Level | crates/wavry-client/src/client.rs:310-316 | tokens stay between zero and the capacity |
| TokenBucket.IncomeInBits | crates/wavry-client/src/client.rs:310-316 | a rate brings in a thousand bits per kilobit and second |
| TokenBucket.CapacityMeans | crates/wavry-client/src/client.rs:294-297 | the bucket holds half a second of income or four chunks, whichever is more |
| TokenBucket.BurstPlusRate | crates/wavry-client/src/client.rs:294-327 | from any refill of any run to any later one, grants are at most the capacity in force at the first plus what the rates bring in after the next: idle time counts for no more than the capacity |
| TokenBucket.IntervalBound | crates/wavry-client/src/client.rs:294-327 | between any two instants, grants are at most the capacity in force at the first plus the income between them, however the rate changes |
| TokenBucket.RefusalsKeepIncome | crates/wavry-client/src/client.rs:310-327 | a run of refusals and rate changes loses no income below four chunks |
| TokenBucket.CoveredRequest | crates/wavry-client/src/client.rs:318-327 | a request of at most four chunks is covered once the income since any refill without a later grant is |
| WindowBudgets.TwiceTheLimit | crates/wavry-gateway/src/relay.rs:435-441 | fixed-window accounting never lets any interval of one window exceed twice the limit |
| Relay.RelayServer.CreateSession | crates/wavry-gateway/src/signal.rs:625-660 | is the Create step: stale sessions go, capacity is respected, a new session starts unbound and unseen |
| Relay.RelayServer.ExpireSessions | crates/wavry-gateway/src/main.rs:261-295 | is the Expire step: any sessions may go |
| Relay.RelayServer.CleanupRoutes | crates/wavry-gateway/src/relay.rs:491-494 | is the CleanUp step: exactly the idle routes go |
| Relay.RelayServer.HandleLease | crates/wavry-gateway/src/relay.rs:261-395 | is the Present step: the exact reply, no bound address ever moves, and routes appear once both sides are bound |
| Relay.RelayServer.HandleForward | crates/wavry-gateway/src/relay.rs:397-473 | is the Forward step: a packet leaves exactly on a Pass verdict, refusals leave windows and trace alone |
| Relay.RelayServer.ForwardOn | crates/wavry-gateway/src/relay.rs:435-473 | budget, payload and replay decide in that order, and a forwarded packet is charged and recorded |
| Relay.LeaseKeepsInv | crates/wavry-gateway/src/relay.rs:320-371 | a lease keeps the whole-run invariant: packets go only to the peer bound on the other side, once, within budget |
| Relay.ForwardKeepsInv | crates/wavry-gateway/src/relay.rs:435-472 | so does forwarding |
| Relay.CreateKeepsInv | crates/wavry-gateway/src/signal.rs:643-657 | so does session creation |
| Relay.VerdictKeepsInv | crates/wavry-gateway/src/relay.rs:397-473 | so does every verdict on a packet |
| Relay.NextKeepsInv | crates/wavry-gateway/src/relay.rs:261-494 | every step keeps the invariant and every binding |
| Relay.RunKeepsInv | crates/wavry-gateway/src/relay.rs:261-494 | so does every run of steps from the empty relay |
| Relay.BindingsPersist | crates/wavry-gateway/src/relay.rs:320-371 | over any run, an address once bound to a side of a session is never moved |
| Relay.ForwardedSafely | crates/wavry-gateway/src/relay.rs:397-473 | over any run, every packet ever forwarded went from the address bound on its side to the one bound on the other side of the same session, and no other packet of that side carried its sequence number |
| Relay.TraceExtends | crates/wavry-gateway/src/relay.rs:426-472 | no (session, side, sequence) is forwarded twice, and source and destination are the two bound addresses |
| Relay.SeenMeansForwarded | crates/wavry-gateway/src/relay.rs:453-464 | after any run, a sequence within reach is marked seen if and only if its packet was forwarded |
| Relay.BandwidthOverAnySecond | crates/wavry-gateway/src/relay.rs:435-466 | over any run, for every session ever, no half-open second carries more than twice the limit |
| Relay.BandwidthPerWindow | crates/wavry-gateway/src/relay.rs:435-466 | over any run, no accounting window of any session carries more than the limit |
| RelayLaws.VerdictExactly | crates/wavry-gateway/src/relay.rs:397-473 | a packet passes if and only if its address has a route of an existing session with that id, the session's accounting window has room for it, and its number was never forwarded on its own side nor is 128 behind one that was |
| RelayLaws.ForwardExactly | crates/wavry-gateway/src/relay.rs:397-473 | after any run: such a packet goes to the other end and renews its route, a route that leads nowhere is dropped, and nothing else changes |
| RelayLaws.LeaseSides | crates/wavry-gateway/src/relay.rs:324-337 | which side a lease gets, for either role and whoever holds the sides |
| RelayLaws.LeaseReplies | crates/wavry-gateway/src/relay.rs:269-348 | which leases are accepted and why the others are not |
| RelayLaws.LeaseBinds | crates/wavry-gateway/src/relay.rs:377-395 | an accepted lease binds its address to that side and touches nothing else of any session |
| RelayLaws.LeaseConnects | crates/wavry-gateway/src/relay.rs:350-371 | once both sides are bound to different addresses each has a route to the other, and every other route stays |
| RelayLaws.SessionCarriesBothWays | crates/wavry-gateway/src/relay.rs:261-473 | create, lease, lease: a packet from either end leaves for the other, whatever the relay did before and even under one sequence number |
| RelayLaws.CreateKeepsYoung | crates/wavry-gateway/src/signal.rs:625-660 | exactly the sessions past their time to live go, and the rest stay as they are |
| RelayLaws.CreateExactly | crates/wavry-gateway/src/signal.rs:625-660 | the new session is there exactly when fewer than the limit are left, bound to no one and with nothing spent |
| RelayLaws.CleanUpExactly | crates/wavry-gateway/src/relay.rs:491-494 | exactly the routes not renewed for more than two minutes go |
| RelayLaws.BusyRouteStays | crates/wavry-gateway/src/relay.rs:466-494 | after any run, a peer whose packet was forwarded within the last two minutes keeps its route |
| RateLimiters.FixedWindowRateLimiter.Allow | crates/wavry-gateway/src/security.rs:81-107 | refused for capacity only when more keys than allowed have a running window; otherwise allowed exactly when fewer than the limit were allowed in the window it falls into; only the called key's history grows, and of the other keys exactly the expired may go |
| RateLimiters.AnswersExactly | crates/wavry-gateway/src/security.rs:94-106 | the counter answers as the record of allowed requests does |
| RateLimiters.ForgettingInvisible | crates/wavry-gateway/src/security.rs:88-104 | forgetting expired keys never changes a later answer |
| RateLimiters.FixedWindowRateLimiter.TwiceTheRequests | crates/wavry-gateway/src/security.rs:94-106 | any interval one window long allows a key at most twice the limit |
| LeaseLimiters.LeaseLimiter.CheckLeaseRateLimit | crates/wavry-master/src/main.rs:182-196 | granted if and only if fewer than ten of all the grants ever made to the user are less than a minute old |
| LeaseLimiters.ListCountsGrants | crates/wavry-master/src/main.rs:185-190 | the kept list counts exactly those grants |
| LeaseLimiters.CallKeepsExact | crates/wavry-master/src/main.rs:185-195 | every user's list is all their grants younger than a minute as of their last call |
| LeaseLimiters.GrantKeepsLimit | crates/wavry-master/src/main.rs:190-194 | no half-open minute ever holds more than ten grants |
| Common.RecentTwice | crates/wavry-master/src/main.rs:188 | pruning early loses nothing a later call needs; the congestion controller prunes its samples the same way |
| Delta.DeltaCC.OnRttSample | crates/rift-core/src/cc.rs:97-130 | minimum, smoothed time, delay, noise floor, signal, state and outputs after a sample, as functions of the whole history |
| Delta.DeltaCC.UpdateRttMin | crates/rift-core/src/cc.rs:132-147 | the minimum is over every sample ever fed that is younger than ten seconds |
| Delta.DeltaCC.UpdateState | crates/rift-core/src/cc.rs:149-180 | counters and state stay equal to their definitions over all signals |
| Delta.DeltaCC.UpdateParams | crates/rift-core/src/cc.rs:182-238 | the control law in wrapping 32-bit arithmetic, and its bounds on every step |
| Delta.WindowMin | crates/rift-core/src/cc.rs:140-146 | the minimum of the kept samples is the minimum of all young ones |
| Delta.SmoothTracks | crates/rift-core/src/cc.rs:103-109 | the smoothed time stays between the smallest and largest sample |
| Delta.StateStep | crates/rift-core/src/cc.rs:149-180 | the incremental machine computes the state defined over the whole history |
| Delta.Hysteresis | crates/rift-core/src/cc.rs:161-179 | each move needs its k consistent samples, and Congested is left only for Stable |
| Delta.RisingRunMeaning | crates/rift-core/src/cc.rs:161-170 | the rising counter counts rising samples in a final stretch free of over-target and non-increasing ones |
| Delta.CalmRunMeaning | crates/rift-core/src/cc.rs:171-179 | the stable counter counts non-increasing samples in a final stretch free of over-target and rising ones |
| Delta.ClassifyReads | crates/rift-core/src/cc.rs:149-171 | over target, rising, falling or flat, in terms of the delay, the one before it and the noise floor |
| DeltaLaws.RisingTakesRises | crates/rift-core/src/cc.rs:161-170 | becoming Rising takes k samples that rose by more than the noise floor, with no fall and none over target among them |
| DeltaLaws.StableTakesFalls | crates/rift-core/src/cc.rs:171-179 | returning to Stable takes k samples at or below the one before, with no rise above the floor and none over target among them |
| DeltaLaws.CongestedByDelay | crates/rift-core/src/cc.rs:150-160 | a delay over target makes the controller Congested, and nothing else does |
| DeltaLaws.CalmStaysStable | crates/rift-core/src/cc.rs:149-180 | delays within target that never rise by more than the noise floor never leave Stable |
| DeltaLaws.RisesMakeRising | crates/rift-core/src/cc.rs:161-170 | k rising samples in a row take Stable to Rising |
| DeltaLaws.FallsMakeStable | crates/rift-core/src/cc.rs:171-179 | k samples in a row that do not rise bring any state back to Stable |
| DeltaLaws.SmoothConverges | crates/rift-core/src/cc.rs:103-109 | the distance to a steady round-trip time shrinks by the factor 1 - alpha with every sample |
| DeltaLaws.EpsilonMeans | crates/rift-core/src/cc.rs:116-123 | the noise floor is a twentieth of the smoothed time, else half the jitter, else the configured one |
| DeltaLaws.GainMeans | crates/rift-core/src/cc.rs:199 | the share of the increase taken is the share of the target delay that is left |
| DeltaLaws.BitrateMoves | crates/rift-core/src/cc.rs:196-221 | what each state does to the bitrate, with its rounding |
| DeltaLaws.FecSinks | crates/rift-core/src/cc.rs:204-207 | calm and stable, the redundancy sinks by a thousandth per sample to five percent |
| DeltaLaws.FecClimbsOnHighJitter | crates/rift-core/src/cc.rs:185-191 | high jitter raises it by two hundredths per sample, to a quarter |
| DeltaLaws.FecClimbsOnJitter | crates/rift-core/src/cc.rs:192-194 | jitter raises it by a hundredth per sample, to a fifth |
| DeltaLaws.FecClimbsOnLoss | crates/rift-core/src/cc.rs:232-235 | congestion with losses raises it by half per sample, to a half |
| DeltaLaws.FecElsewhere | crates/rift-core/src/cc.rs:185-235 | otherwise jitter alone decides, and without it nothing changes |
| DeltaLaws.FpsLadder | crates/rift-core/src/cc.rs:240-256 | the ladder of frame rates, and that four steps reach 30 |
| Delta.TimerStep | crates/rift-core/src/cc.rs:224-229 | over a run the congestion timer stands at a sample since which the controller was congested, no more than a second ago |
| DeltaLaws.DropAfterSecond | crates/rift-core/src/cc.rs:224-229 | the frame rate falls only after more than a second of congestion |
| DeltaLaws.TimerFromEntry | crates/rift-core/src/cc.rs:150-160 | in the first second of a congestion the timer stands where it was entered |
| DeltaLaws.SteadyConnection | crates/rift-core/src/cc.rs:97-238 | fed one round-trip time, the controller stays Stable and climbs by the full step with every sample |
| Delta.ControlKeepsBounds | crates/rift-core/src/cc.rs:182-238 | bitrate stays in its range and redundancy between 5% and 50% |
| Delta.IncreaseRaisesExactly | crates/rift-core/src/cc.rs:199-202 | an additive increase never lowers the bitrate if and only if the sum fits 32 bits |
| Delta.IncreaseInRangeExactly | crates/rift-core/src/cc.rs:199-202 | an additive increase keeps the bitrate in its range if and only if the sum fits 32 bits or what is left of it is not below the minimum |
| Delta.RangeOverRun | crates/rift-core/src/cc.rs:182-238 | over any run and configuration the bitrate stays in its range if and only if every additive increase of the run fits |
| Delta.DeltaCC.RangeSoFar | crates/rift-core/src/cc.rs:182-238 | so it does for everything a controller has put out |
| Delta.IncreaseOverflows | crates/rift-core/src/cc.rs:199-202 | a concrete configuration where it drops to 499, below the minimum |
| Delta.CongestionConverges | crates/rift-core/src/cc.rs:216-221 | n congested samples bring the bitrate to at most the larger of the floor and beta^n times the start |
| Delta.FpsOnlyFalls | crates/rift-core/src/cc.rs:240-256 | over a run the frame rate never rises and never falls below 30 from above |

## Left out

- NackWindows.NackWindow.OnPacket: packets after the id 2^64 - 1, where `highest + 1` overflows, are excluded by a precondition.
- SendHistories.Host.Send: the wrap of packet ids after 2^64 packets is excluded by a precondition.
- LossRepair.RepairRound: the packet that reveals the gap has an id that leaves room for a window below 2^64, and no datagram claims the id 2^64 - 1, after which the NACK window overflows.
- LossRepair.ClientReceiver.OnArrival: the bound of the NACK window.
- LossRepair.ClientReceiver.Receive: the bound of the NACK window.
- LossRepair.SendMessage: the bound of the host's packet ids.
- FileProtocol.FileLink.RewindAndFinish: requires the file to be queued, since a file taken off the queue is never sent again.
- ReorderBuffers.ReorderBuffer.constructor: a window of size zero, on which every later call divides by zero, is excluded by a precondition.
- ReorderBuffers.ReorderBuffer.Insert: where the source adds window start and size, windows whose end passes 2^32 are excluded by a precondition.
- ReorderBuffers.ReorderBuffer.Get: the same bound, for the same addition.
- ReorderBuffers.ReorderBuffer.FlushOrdered: a buffer that holds the id 2^32 - 1, past which the window start cannot move, is excluded by a precondition.
- FileProtocol.FileLink.DeliverHeader: a different offer under this file's id is modelled only while the file is open; the lower-casing of the offered checksum is not, as the sender writes it in lower case.
- Relay.RelayServer.CreateSession: assumes the random token and session id are new.
- Delta.ControlKeepsBounds: the bitrate range and the size of one increase are stated together for configurations whose maximum plus increase fits 32 bits; for the others `RangeOverRun` decides the range.
- Sockets, select loops, WebSocket and HTTP handlers, SQL, FFI entry points, capture and rendering: I/O.
- Noise, ChaCha20-Poly1305, Ed25519, PASETO, SHA-256, CRC-16 and protobuf internals: arbitrary functions or outcomes here.
- The relay's per-address packet counter and strike list: they only drop packets before the modelled steps.
- File names, paths and rename logic; the text matching behind a status, whose results are parameters.
- JitterBuffer, ArrivalJitter, Pacer, CongestionDetector, FecController, relay scoring: mostly clamps and constants.
- FrameBufferPool, StagingBufferPool, ReferenceFrameManager, EncoderPool and the Handshake enum: bookkeeping that none of the protocols above depends on.
