# Reliable message transfer over UDP, as a Dafny model

This project models how `sdr-udp/` moves one message from a sender's buffer to a receiver's
buffer over packets that may be lost, repeated and reordered, with an ordered control
connection back, and proves what the code promises about it: that a finished transfer has
delivered the message, in every interleaving of sender, receiving workers, poller and
control messages.

From the bottom up:

- `WordBits`, `Geometry`, `Wire`: 64-bit words, the arithmetic that cuts a message into
  packets and chunks, packet headers, and the loops that emit packets.
- `Backend`, `Frontend`, `Receiver`: the packet bitmap, the chunk bitmap its poller derives
  from it, and what a worker does with a packet, as classes over arrays of words and bytes.
- `Control`, `SrReceiver`, `RestReport`: control messages, run-length gaps, and `pump`, which
  builds a report in several passes over a bitmap that changes under it. Each read of the
  bitmap is a separate moment of a history of bitmaps that only grow.
- `SrSender`, `SenderLaws`, `SrSenderObject`: the sender as a function of its state, what that
  function transmits, in terms of chunks, acknowledgements and clock readings alone, and the
  sender as the object with its loops, each method proved equal to the function.
- `Protocol`, `ProtocolSafety`, `StepLaws`, `EndToEnd`: the whole system as a state machine. Workers copy
  byte by byte, the poller scans word by word, `pump` starts and sends in separate steps, the
  connection can go down. An invariant that also speaks about the messages still under way is
  kept by every step, and `StepLaws` says what hearing each message, a timeout, the start and
  the verdict do in any run. `pump` enters this machine by the contract proved of it (`Honest`), and the
  reads it makes inside a run are shown to be a history of the kind its passes are proved over.
- `Progress`, `Clocks`, `Reach`, `Completion`, `Flight`: every round of reports that names a gap
  shrinks the set of missing chunks, however stale the report is when it is heard; which live states can still lead to a completed transfer, exactly; and what
  the window bounds, exactly.
- `Slots`, `SlotLaws`, `Posts`, `Handshake`: the message table under late packets, what each
  operation leaves in a slot and its buffer, message after message, and the OFFER, CTS, ACCEPT
  exchange that precedes data.
- `Ec`, `Stripes`: erasure-coding control over whole runs, its gap coding, and where data and
  parity blocks lie. Decoding itself is a yes or no from outside.

Words are sequences of 64 booleans; `&`, `|` and `1 << i` are the functions `And`, `Or` and
`OneHot` on them. Time is a function from the number of clock readings to nanoseconds. What
holds of every run holds on any such function; where a run is claimed to exist, it is one on a
clock that never runs backwards and starts no earlier than a time the claim is given.

The statements about a transfer assume what the negotiation and the field widths provide
(`Geometry.Layout.Valid`): an MTU of 1 to 65496 bytes, at least one packet per chunk, at most
2^18 packets and 65535 chunks, the same length on both sides, and the first message of a
receiving process. `Handshake` and `Posts` show where these come from and why the last one is
needed.

## What turned out not to hold

- `pump` can send an SR_ACK: when the first missing chunk completes between two reads of the
  same pass. Which report is sent is decided by the history of the bitmap
  (`SrReceiver.BuildReport`); an SR_ACK is possible exactly with more than one chunk
  (`SrReceiver.SrAckPossible`).
- `poll` returns 0 once the control connection is gone, delivered or not
  (`EndToEnd.LostConnectionReportsSuccess`); with the connection up, 0 means delivered, for good.
- The window is documented (`sdr-udp/README.md:88`) as limiting chunks in flight. It always
  limits the cursor (`EndToEnd.CursorInEveryRun`); it limits what is in flight in every run
  exactly when it is as large as the message (`Flight.WindowLimitsExactly`).
- Once a control timeout has taken the sender into `sdr_send_poll`, it transmits nothing while
  the connection is up and the receiver goes on: a live transfer can then be completed exactly
  when everything missing has been transmitted already (`Completion.CompletableExactly`).
- Only the first post of a receiving process gets a slot whose generation is the stamp its CTS
  hands out (`Posts.StampMatchesFirstPostOnly`). Packets stamped for post n are accepted exactly
  while their slot is active and has been handed out n + 1 times (`Posts.AcceptedExactly`): a later
  post's own packets are ignored, and late ones may be taken for another message
  (`Posts.StalePacketsAccepted`).
- Retransmissions go to `udp_server_port` alone, which need not be a bound port when the
  receiver configures both ports (`Handshake.RetransmitPortBound`, exact condition).
- `ECSender::poll` counts chunks from `data_bytes` only; when that is 0, the first request from
  the receiver ends it with success (`Ec.PollEndsOnRequest`).
- A short last stripe is padded with chunk 0, where a comment says zeros
  (`Stripes.PaddingIsChunkZero`).
- The packet header is 32 bytes; a comment in `sdr-udp/include/sdr_packet.h:19` says 16.

## Model

| member | source | states |
|---|---|---|
| Geometry.CountsAgree | sdr-udp/reliability/sr.cpp:93-94 | the sender's one ceiling over bytes per chunk gives the receiver's nested ceilings over packets and chunks |
| Geometry.CalculateBitmapSizes | sdr-udp/include/sdr_connection.h:194-210 | packet and chunk counts, 0 and 0 for a zero MTU or zero packets per chunk |
| Geometry.ChunkMembers | sdr-udp/include/sdr_backend.h:98-105 | a packet lies in a chunk's clipped range exactly when its index divided by the packets per chunk is the chunk |
| Geometry.Layout.PacketSlice | sdr-udp/src/sdr_api.cpp:489-497 | every packet's slice is non-empty, inside the message and at most an MTU long |
| Geometry.Layout.PacketOfByte | sdr-udp/include/sdr_receiver.h:266 | every byte of the message lies in the slice of the packet that its offset divided by the MTU names |
| Wire.Header.OrderRoundTrip | sdr-udp/include/sdr_packet.h:80-103 | to_host_order undoes to_network_order for every header that fits its fields |
| Wire.Header.OrderReversesBytes | sdr-udp/include/sdr_packet.h:80-90 | the bytes of every 16- and 32-bit field are reversed; bit fields and single bytes stay |
| Wire.PacketFields | sdr-udp/include/sdr_packet.h:121-146 | a built header fits its fields, its length is the payload's, and each argument arrives as given exactly when it fits its field: offsets below 2^18, message ids below 1024 |
| Wire.BuildPacket | sdr-udp/src/sdr_api.cpp:489-507 | packet p of a message carries slice p of the buffer and the message's stamps |
| Wire.Outgoing.PacketCarries | sdr-udp/src/sdr_api.cpp:489-507 | packet p carries the bytes from p times MTU on, a full MTU or all that are left, and names itself, its chunk and its message |
| Wire.Outgoing.ChunkHolds | sdr-udp/reliability/sr.cpp:55-68 | a chunk is sent as exactly the packets whose number divided by the packets per chunk is the chunk's |
| Wire.SendPacketsRange | sdr-udp/reliability/sr.cpp:30-52 | emits the packets of the range, in order, cut off at the end of the message |
| Wire.RetransmitRange | sdr-udp/reliability/sr.cpp:55-68 | the byte arithmetic emits exactly the packets of the chunks asked for, ragged last chunk included |
| Wire.RetransmitOne | sdr-udp/reliability/sr.cpp:105 | retransmit_range(c, 1) emits exactly the packets of chunk c |
| Wire.SendAll | sdr-udp/src/sdr_api.cpp:480-523 | the one-shot loop emits every packet once, in order, to port base + i mod channels in 16 bits |
| Wire.Outgoing.ChunksMakeMessage | sdr-udp/reliability/sr.cpp:104-107 | the chunks one after the other are exactly the packets of the one-shot loop |
| Wire.Outgoing.PayloadsMakeMessage | sdr-udp/src/sdr_api.cpp:489-507 | the payloads one after the other are a prefix of the buffer that ends where the last packet ends |
| Wire.Outgoing.WholeMessage | sdr-udp/src/sdr_api.cpp:489-507 | all payloads together are the buffer |
| WordBits.RangeMask | sdr-udp/include/sdr_backend.h:151-154 | the mask loop sets exactly the bits of the range |
| WordBits.Covers | sdr-udp/include/sdr_backend.h:157 | value & mask == mask exactly when every bit of the mask is set in the value |
| Backend.BackendBitmap.SetPacketReceived | sdr-udp/include/sdr_backend.h:67-82 | sets the packet's bit alone, ignores offsets past the end, and answers whether the bit is new |
| Backend.BackendBitmap.IsPacketReceived | sdr-udp/include/sdr_backend.h:84-96 | reads one packet's bit; false past the end |
| Backend.BackendBitmap.CheckChunkRange | sdr-udp/include/sdr_backend.h:137-186 | the masked scan over first, middle and last words is true exactly when every packet of the range is received |
| Backend.BackendBitmap.IsChunkComplete | sdr-udp/include/sdr_backend.h:98-108 | true exactly when every packet of the chunk is received |
| Backend.BackendBitmap.GetChunkPacketCount | sdr-udp/include/sdr_backend.h:110-125 | counts the chunk's packets, reaches the chunk's size exactly when the chunk is complete, and is 0 past the last chunk |
| Backend.BackendBitmap.GetTotalPacketsReceived | sdr-udp/include/sdr_backend.h:127-135 | counts all received packets |
| Backend.WordScan | sdr-udp/include/sdr_backend.h:149-184 | bits lo..hi of a word stand for the packets at those places, and a full word for all 64 |
| Backend.ScanUnderInterference | sdr-udp/include/sdr_backend.h:137-186 | with bits being set between the loads of its words, a true scan holds on return and a false one means a packet was missing at the call |
| Backend.CountFull | sdr-udp/include/sdr_backend.h:118-124 | a count reaches the length of its range exactly when the whole range is set |
| Backend.CountIsSize | sdr-udp/include/sdr_backend.h:127-135 | the count is the number of different packets whose bits are set |
| Backend.ChunkCountsTotal | sdr-udp/include/sdr_backend.h:110-135 | the chunk counts add up to the packet count |
| Backend.Conservation | sdr-udp/include/sdr_backend.h:67-135 | over any calls, true returns, received packets and the sum of chunk counts are one number, and exactly the offsets named are set |
| Frontend.FrontendBitmap.IsChunkComplete | sdr-udp/include/sdr_frontend.h:122-134 | reads one chunk's bit; false past the end |
| Frontend.FrontendBitmap.CheckAndSetChunk | sdr-udp/include/sdr_frontend.h:174-194 | sets the bit exactly when the packet bitmap says complete, and answers whether it is now set |
| Frontend.FrontendBitmap.UpdateChunkBitmap | sdr-udp/include/sdr_frontend.h:163-172 | a poll adds exactly the complete chunks and clears none |
| Frontend.FrontendBitmap.GetTotalChunksCompleted | sdr-udp/include/sdr_frontend.h:136-144 | counts the set chunk bits |
| Frontend.FrontendBitmap.PollOnce | sdr-udp/include/sdr_frontend.h:146-148 | keeps every set bit a true promise; at rest the count is full exactly when every packet is received |
| Frontend.SoundUnderArrivals | sdr-udp/include/sdr_frontend.h:174-194 | arrivals between polls never break a promise of the chunk bitmap |
| Frontend.ChunksAndPackets | sdr-udp/include/sdr_frontend.h:136-144 | chunk bits that agree with the packets are all set exactly when all packets are received |
| Receiver.WritePacketToBuffer | sdr-udp/include/sdr_receiver.h:260-300 | in place: the payload at offset times MTU, cut at the end of the buffer, and nothing else |
| Receiver.WriteKeepsBytes | sdr-udp/include/sdr_receiver.h:266-297 | writing a packet puts its bytes in place and disturbs no other packet's |
| Receiver.PastTheEndWritesNothing | sdr-udp/include/sdr_receiver.h:271-275 | a packet numbered past the last one leaves the buffer as it is |
| Receiver.PostedMessage.ProcessPacket | sdr-udp/include/sdr_receiver.h:245-257 | a duplicate changes nothing; any other packet is written, then its bit is set |
| Receiver.PostedMessage.ReceivePacket | sdr-udp/include/sdr_receiver.h:224-257 | keeps "a set bit means the bytes are there", adds exactly that packet, and ignores offsets past the end |
| Receiver.AllPublished | sdr-udp/include/sdr_receiver.h:250-256 | with every packet bit set the buffer is the message |
| Control.RunsUnique | sdr-udp/reliability/sr.cpp:331-346 | only one gap list answers the description of first maximal runs |
| Control.FirstRunsExpand | sdr-udp/reliability/ec.cpp:298-312 | a gap list expands to the missing list, or to a prefix of it when the limit was hit |
| SrReceiver.CumulativePass | sdr-udp/reliability/sr.cpp:287-292 | the prefix is exactly as long as its reads, one moment each, answered complete |
| SrReceiver.BitmapPass | sdr-udp/reliability/sr.cpp:295-304 | each of the first 512 bits is what its own read answered; true when the pass ends, and including all that were set when pump began |
| SrReceiver.ProbePass | sdr-udp/reliability/sr.cpp:307-320 | the run its reads make; none exactly when every read was complete or the first missing chunk completed before its second read |
| SrReceiver.GapPass | sdr-udp/reliability/sr.cpp:331-346 | the gaps its reads make: in order and missing when the pass began; at rest exactly the first four maximal runs, extra increment included |
| SrReceiver.BuildReport | sdr-udp/reliability/sr.cpp:286-370 | every field, the kind and the last read are determined by the history; without a snapshot every claim is true when sent and gaps are unclaimed; which kind is sent, case by case; at rest the report is exact |
| SrReceiver.SRReceiver.Pump | sdr-udp/reliability/sr.cpp:264-374 | sends one honest report or nothing; after a COMPLETE_ACK it answers yes, after any other report exactly when a second count finds every chunk complete, and yes means they all are |
| SrReceiver.SentStaysTrue | sdr-udp/reliability/sr.cpp:286-373 | what a report claims stays true while bits are only added |
| SrReceiver.SrAckPossible | sdr-udp/reliability/sr.cpp:364-369 | some history makes pump send an SR_ACK exactly when there is more than one chunk |
| SrReceiver.SrAckHappens | sdr-udp/reliability/sr.cpp:309-320 | for every larger number of chunks a history that loses the race in pass three and ends in an SR_ACK |
| RestReport.Report | sdr-udp/reliability/sr.cpp:286-370 | the report of a bitmap at rest, as a function, is exact |
| RestReport.ExactUnique | sdr-udp/reliability/sr.cpp:286-370 | no other report is: kind, prefix, gaps and bits are determined by the bitmap |
| SrSender.StartCursor | sdr-udp/reliability/sr.cpp:99-107 | start_send leaves the cursor at the edge of the window with everything below it sent |
| SrSender.NackHandled | sdr-udp/reliability/sr.cpp:197-237 | after an SR_NACK acked is old acked plus the claims, ack_base_ the maximum, nothing is lost, and the cursor is at the edge again |
| SrSender.AckHandled | sdr-udp/reliability/sr.cpp:171-195 | the same for an SR_ACK |
| SrSender.TimeoutHandled | sdr-udp/reliability/sr.cpp:154-168 | the timeout sweep only transmits; acknowledgements and cursor stay |
| SrSender.WalkSendsAll | sdr-udp/reliability/sr.cpp:213-229 | with no chunk acked and all guards passed the walk sends exactly the first chunks up to its limit, in order |
| SrSender.ClipExpands | sdr-udp/reliability/sr.cpp:217-221 | gaps inside the message lose nothing to the sender's clipping |
| SenderLaws.StartSends | sdr-udp/reliability/sr.cpp:99-107 | start_send transmits chunks 0, 1, 2 and so on: as many as max_inflight_chunks says, all of them when it is 0 |
| SenderLaws.MissingResent | sdr-udp/reliability/sr.cpp:123-133 | one reading of the clock, then, ascending, the first four chunks that are unacked and were last sent 50 ms or more before it, or all of them if fewer |
| SenderLaws.WalkSends | sdr-udp/reliability/sr.cpp:213-229 | the gap walk decides chunk by chunk, each unacked one by a later reading of its own, sends exactly those 50 ms old, and ends with the list or its last allowed chunk |
| SenderLaws.CursorSends | sdr-udp/reliability/sr.cpp:186-192 | the cursor goes to the edge of the window and sends exactly the unacked chunks it passes |
| SenderLaws.AckSends | sdr-udp/reliability/sr.cpp:171-195 | an SR_ACK: claims applied, then the sweep's at most four chunks, then the cursor's, and nothing else |
| SenderLaws.NackSends | sdr-udp/reliability/sr.cpp:197-237 | an SR_NACK: claims applied, then at most eight chunks of its gaps, then the sweep's, then the cursor's, and nothing else |
| SenderLaws.ClipMembers | sdr-udp/reliability/sr.cpp:217-221 | the walk is given the chunks of the gaps that the message has, and no others |
| SenderLaws.AckEndsPoll | sdr-udp/reliability/sr.cpp:193-195 | an SR_ACK ends poll exactly when its prefix reaches the count it names; without a prefix only when that count is 0 |
| SenderLaws.TimeoutSends | sdr-udp/reliability/sr.cpp:158-168 | one reading of the clock, then exactly the unacked chunks last sent longer ago than the timeout, in order, noted as sent at that reading |
| SrSenderObject.WireHolds | sdr-udp/reliability/sr.cpp:55-74 | on the wire are the packets of the chunks transmitted and no others |
| SrSenderObject.SRSender.StartSend | sdr-udp/reliability/sr.cpp:90-108 | sets every field and sends the initial window, all chunks when none is configured; the wire holds exactly the packets of the chunks logged |
| SrSenderObject.SRSender.RetransmitChunk | sdr-udp/reliability/sr.cpp:55-74 | puts the chunk's packets on the wire and records when |
| SrSenderObject.SRSender.ApplyReport | sdr-udp/reliability/sr.cpp:203-212 | bit loops over words and prefix mark exactly what the message claims |
| SrSenderObject.SRSender.RetransmitMissingFromBitmap | sdr-udp/reliability/sr.cpp:123-133 | the throttled sweep is the function whose transmissions `SenderLaws.MissingResent` lists |
| SrSenderObject.SRSender.WalkGaps | sdr-udp/reliability/sr.cpp:213-229 | the nested gap loops are one walk over the clipped, expanded gap list |
| SrSenderObject.SRSender.AdvanceCursor | sdr-udp/reliability/sr.cpp:231-237 | the cursor loop is the function whose transmissions `SenderLaws.CursorSends` lists |
| SrSenderObject.SRSender.HandleMessage | sdr-udp/reliability/sr.cpp:171-248 | one turn of the poll loop: new state, counters and verdict for each kind of message |
| SrSenderObject.SRSender.AfterTimeout | sdr-udp/reliability/sr.cpp:154-168 | returns 0 or does what `SenderLaws.TimeoutSends` lists with the configured timeout |
| SrSenderObject.GapsWalkIsWalk | sdr-udp/reliability/sr.cpp:217-229 | nested loops with a shared limit equal a single walk over the flattened list |
| ProtocolSafety.InitInv | sdr-udp/src/sdr_api.cpp:221-237 | the invariant holds when the message has been posted on both sides |
| ProtocolSafety.WriteKeeps | sdr-udp/include/sdr_receiver.h:294-297 | a byte written by any worker at any moment keeps the invariant |
| ProtocolSafety.PublishKeeps | sdr-udp/include/sdr_receiver.h:252-256 | so does publishing the packet's bit once its bytes are there |
| ProtocolSafety.ScanComplete | sdr-udp/include/sdr_backend.h:148-185 | words found full at different moments make a complete chunk |
| ProtocolSafety.PollMarkKeeps | sdr-udp/include/sdr_frontend.h:185-193 | a chunk is marked only when all its packets are received |
| ProtocolSafety.PumpSendKeeps | sdr-udp/reliability/sr.cpp:348-370 | an honest report joins a queue whose claims all stay true and whose gaps no earlier message claims |
| ProtocolSafety.DeliverKeeps | sdr-udp/reliability/sr.cpp:171-248 | handling the head of the queue keeps every acknowledgement true and every gap unacked |
| ProtocolSafety.FinishKeeps | sdr-udp/src/sdr_api.cpp:312-361 | the completion message tells the truth |
| ProtocolSafety.StepKeeps | sdr-udp/reliability/sr.cpp:111-250 | every step of every participant keeps the invariant |
| ProtocolSafety.RunKeeps | sdr-udp/reliability/sr.cpp:111-250 | the invariant holds in every state of every run |
| StepLaws.AckHeard | sdr-udp/reliability/sr.cpp:171-195 | in every run an SR_ACK heard while polling is applied in full; poll returns exactly when its prefix is the whole message |
| StepLaws.NackHeard | sdr-udp/reliability/sr.cpp:197-237 | in every run an SR_NACK heard while polling is applied in full, gaps, sweep and cursor; poll goes on |
| StepLaws.VerdictHeard | sdr-udp/reliability/sr.cpp:238-243 | COMPLETE_ACK ends poll with 0 anywhere, INCOMPLETE_NACK with -1 while polling; reports heard inside sdr_send_poll are dropped |
| StepLaws.FailureHeard | sdr-udp/src/sdr_api.cpp:573-576 | INCOMPLETE_NACK inside sdr_send_poll: everything overdue is sent again and polling resumes |
| StepLaws.TimeoutPolling | sdr-udp/src/sdr_api.cpp:553-557 | a control timeout takes the sender into sdr_send_poll, or out of poll with 0 when the connection is gone |
| StepLaws.TimeoutDraining | sdr-udp/src/sdr_api.cpp:561-568 | inside it a timeout does nothing while the connection is up; when it is gone, everything overdue is sent again |
| StepLaws.StartedInRun | sdr-udp/reliability/sr.cpp:90-108 | in every run the start sends the first chunks, all of them without a configured window, and acks none |
| StepLaws.VerdictSent | sdr-udp/src/sdr_api.cpp:312-361 | the receiver sends its verdict last: COMPLETE_ACK exactly when every chunk is marked, else INCOMPLETE_NACK |
| StepLaws.FinishedForGood | sdr-udp/src/sdr_api.cpp:312-361 | after it no byte is written, no bit set and nothing more sent, in every later state |
| EndToEnd.AckedMeansDelivered | sdr-udp/reliability/sr.cpp:135-212 | in every run: acked implies marked complete, implies every packet bit, implies the sender's bytes in the buffer |
| EndToEnd.ReturnMeansDelivered | sdr-udp/reliability/sr.cpp:238-241 | poll returned 0 with the connection up: the buffers are equal, then and in every later state |
| EndToEnd.SenderOnlyGrows | sdr-udp/reliability/sr.cpp:135-237 | in every run acknowledgements, ack_base_, cursor and transmissions are never taken back |
| EndToEnd.RunIsHistory | sdr-udp/reliability/sr.cpp:286-373 | whenever its reads happen in a run, pump sees a bitmap that only grows |
| EndToEnd.HonestMayBeSent | sdr-udp/reliability/sr.cpp:348-370 | a report honest about those reads is one the global machine lets pump send |
| EndToEnd.AllChunksDelivered | sdr-udp/src/sdr_api.cpp:322-333 | all chunks complete at the receiver means it holds the message |
| EndToEnd.LostConnectionReportsSuccess | sdr-udp/src/sdr_api.cpp:553-587 | a run in which poll returns 0 with nothing delivered, the connection being down |
| EndToEnd.NothingIsLost | sdr-udp/include/sdr_receiver.h:245-257 | chunk bits, packet bits and landed bytes are never undone in any run |
| EndToEnd.CursorInEveryRun | sdr-udp/reliability/sr.cpp:186-192 | in every run: the cursor is min(total, ack_base_ + max_inflight_), all below ack_base_ is acked, all below the cursor was transmitted |
| EndToEnd.PassCatchesUp | sdr-udp/include/sdr_frontend.h:163-172 | a finished poller pass has marked every chunk that was complete when it began |
| EndToEnd.GapsAreNeverAcked | sdr-udp/reliability/sr.cpp:213-229 | in every run no chunk in a received NACK's gaps is acked, and with guards passed exactly the first eight are resent in order |
| EndToEnd.ReportRoundTrip | sdr-udp/reliability/sr.cpp:203-212 | reading a resting report back: acked becomes old acked, complete chunks below 512 and the complete prefix; ack_base_ follows |
| Progress.ReportOwes | sdr-udp/reliability/sr.cpp:286-370 | a report names, in order, only chunks that were missing when pump began, whatever the poller did meanwhile |
| Progress.RestNamesAGap | sdr-udp/reliability/sr.cpp:331-355 | a report built at rest with chunks missing is an SR_NACK that names at least one gap |
| Progress.RoundShrinks | sdr-udp/reliability/sr.cpp:213-230 | from where pump began, a round whose report names a gap and whose retransmissions arrive and are polled leaves as many chunks fewer missing as the walk resent, at least one |
| Progress.RoundsAreBounded | sdr-udp/reliability/sr.cpp:213-230 | there are no more such rounds, one after the other, than chunks, and when they are used up all is complete |
| Reach.ReceiveOne | sdr-udp/include/sdr_receiver.h:245-257 | the steps of one undisturbed worker together do what process_packet's contract says, write and bit |
| Reach.FinishPass | sdr-udp/include/sdr_frontend.h:163-194 | the steps of a poller pass together mark exactly the complete chunks, as update_chunk_bitmap's contract says |
| Reach.CatchUp | sdr-udp/include/sdr_frontend.h:150-172 | the poller, wherever it stands, can get to mark every complete chunk |
| Completion.CalmDown | sdr-udp/reliability/sr.cpp:152-249 | from every live state a quiet one, or the end of the transfer, can be reached, on a clock with a guard time between readings |
| Completion.OneRound | sdr-udp/reliability/sr.cpp:197-237 | from a quiet state some run of one round leaves fewer chunks missing, with other workers and the poller anywhere |
| Completion.CompletionReachable | sdr-udp/reliability/sr.cpp:238-241 | from every live state in which the sender polls some path on a forward clock ends with poll returning 0 and equal buffers |
| Completion.StuckStays | sdr-udp/src/sdr_api.cpp:557-584 | inside sdr_send_poll the sender transmits nothing more unless the connection is lost or the receiver gives up |
| Completion.CompletableExactly | sdr-udp/reliability/sr.cpp:154-168 | a live transfer can be completed, on a forward clock, exactly when the sender polls or everything missing has been transmitted already |
| Completion.CompletableInRuns | sdr-udp/reliability/sr.cpp:154-168 | the same in every state of every run |
| Completion.RunCompletes | sdr-udp/reliability/sr.cpp:238-241 | every run that has come to such a state goes on to a run that ends in a completed transfer |
| Completion.StartedMeansCompletable | sdr-udp/reliability/sr.cpp:76-109 | from the posted state on a live connection a whole run starts and completes the transfer |
| Flight.WindowLimitsExactly | sdr-udp/reliability/sr.cpp:101-107 | on a live connection nothing at or beyond ack_base_ + max_inflight_ is transmitted in any run exactly when max_inflight_chunks is 0 or at least the number of chunks |
| Flight.WideWindow | sdr-udp/reliability/sr.cpp:101-102 | with such a window every transmitted chunk lies inside it, in every state of every run |
| Flight.NarrowWindow | sdr-udp/reliability/sr.cpp:217-228 | with any smaller one a run in which the gap walk transmits the chunk at its edge while nothing is acked |
| Slots.ConnectionContext.AllocateMessageSlot | sdr-udp/include/sdr_connection.h:126-154 | succeeds exactly on an unused, released or older finished slot, and stamps it from the slot's counter |
| Slots.ConnectionContext.GetMessage | sdr-udp/include/sdr_connection.h:156-169 | the slot's message, or none |
| Slots.ConnectionContext.ReleaseMessage | sdr-udp/include/sdr_connection.h:171-178 | empties the slot and nothing else |
| Slots.ConnectionContext.CompleteMessage | sdr-udp/include/sdr_connection.h:180-192 | marks the slot dead and redirects its buffer to the null sink |
| Slots.UDPReceiver.ProcessPacket | sdr-udp/include/sdr_receiver.h:221-257 | the slot, generation and state checks, then the write and the bit that `SlotLaws.PacketTaken` describes |
| Slots.GenerationsIncrease | sdr-udp/include/sdr_connection.h:146-149 | over any run the generations a slot hands out strictly increase, across release too |
| Slots.ActiveKeepsItsSlot | sdr-udp/include/sdr_connection.h:134-144 | an active message keeps slot, generation and buffer until ended, and the slot is refused meanwhile |
| Slots.PacketsTouchOnlyTheirMessage | sdr-udp/include/sdr_receiver.h:224-257 | a packet with any effect carries the slot's latest generation and touches that slot's bitmap and region only |
| Slots.StalePacketChangesNothing | sdr-udp/include/sdr_receiver.h:231-235 | a packet stamped with an earlier generation of a reissued slot changes nothing |
| Slots.CompletionSeals | sdr-udp/include/sdr_receiver.h:237-243 | after complete_message no packet changes anything until the slot is handed out again |
| Slots.MemoryIsSafe | sdr-udp/include/sdr_connection.h:188-191 | a user buffer no active slot points to keeps its bytes until it is posted again, whatever arrives |
| SlotLaws.PacketTaken | sdr-udp/include/sdr_receiver.h:221-300 | a packet with its slot's generation whose bit is not set: exactly that bit is set and its payload lies at offset times MTU of that slot's region, every other byte, bit and slot as before; any other packet changes nothing |
| SlotLaws.SlotAllocated | sdr-udp/include/sdr_connection.h:126-154 | in every run a slot is given out exactly when unused or ended and its counter is not beyond the generation asked; it is then empty and stamped from the counter, which moves on by one |
| SlotLaws.SlotAttached | sdr-udp/src/sdr_api.cpp:221-235 | a slot just posted has the region, MTU and packet count it was given and no bit set |
| SlotLaws.SlotEnded | sdr-udp/include/sdr_connection.h:171-192 | released: empty; completed: dead and redirected to the null sink; decoded: only its state changes |
| SlotLaws.EndSeals | sdr-udp/include/sdr_receiver.h:224-243 | after each of these no packet for the slot changes anything until it is given out again |
| SlotLaws.SlotFound | sdr-udp/include/sdr_connection.h:156-169 | in every run get_message finds whatever the slot holds |
| SlotLaws.BitsAreArrivals | sdr-udp/include/sdr_receiver.h:245-257 | over any run, while the message lasts, a packet's bit is set exactly when the packet has come since the slot was posted |
| SlotLaws.RegionHoldsMessage | sdr-udp/include/sdr_receiver.h:250-255 | over any run in which the packets for the slot are those of a message and no other message shares the buffer, the buffer holds that message wherever a bit is set, all of it when all are |
| Posts.PostNeedsAnInactiveSlot | sdr-udp/src/sdr_api.cpp:209-219 | a post is refused exactly when its slot is still active |
| Posts.StampMatchesFirstPostOnly | sdr-udp/src/sdr_api.cpp:207-213 | the slot's generation is the CTS's transfer_id exactly for the first post of the process |
| Posts.AcceptedExactly | sdr-udp/include/sdr_receiver.h:224-243 | packets stamped for post n are accepted exactly while their slot is active and has been handed out n + 1 times |
| Posts.LaterPostsReceiveNothing | sdr-udp/include/sdr_receiver.h:231-235 | packets stamped for post n are ignored until its slot has been asked for n + 1 times |
| Posts.StalePacketsAccepted | sdr-udp/include/sdr_connection.h:146-149 | for every n a life of the process ends in which they are accepted, for n > 0 by a message posted later |
| Handshake.NegotiateParams | sdr-udp/src/sdr_api.cpp:162-193 | the assignments of the receiver compute the parameters `Handshake.WhoseValueWins` describes |
| Handshake.WhoseValueWins | sdr-udp/src/sdr_api.cpp:162-213 | field by field whose value wins: the receiver's packets per chunk, MTU and ports, the offer's channels and length; defaults 64, 65496, 1 and 9999 |
| Handshake.ProposedFields | sdr-udp/src/sdr_api.cpp:381-388 | what a sender offers: its own values, else 65496, 32 and 1, the buffer's length, and no port |
| Handshake.BothSidesUse | sdr-udp/src/sdr_api.cpp:159-213 | in every run, the parameters both sides work with, field by field from the two configurations |
| Handshake.NegotiatedIsUsable | sdr-udp/src/sdr_api.cpp:162-193 | for any offer and configuration: MTU within bounds, packets per chunk, channels and ports at least 1 |
| Handshake.ProposalDecides | sdr-udp/src/sdr_api.cpp:381-388 | against a sender's own offer the receiver's channel count never counts, nor its default of 64 |
| Handshake.PacketPortIsBound | sdr-udp/src/sdr_api.cpp:480-520 | every one-shot packet goes to a port the receiver bound |
| Handshake.PortsTakeTurns | sdr-udp/src/sdr_api.cpp:480-520 | packet i goes to the port of worker i mod num_channels, in 16 bits, and every bound port gets its share |
| Handshake.RetransmitPortBound | sdr-udp/reliability/sr.cpp:23 | the retransmission port is bound exactly when it lies in the channel range |
| Handshake.OnePortConfigured | sdr-udp/src/sdr_api.cpp:175-178 | it is whenever the receiver configured at most one of the two ports |
| Handshake.BothPortsConfigured | sdr-udp/reliability/sr.cpp:23 | a configuration for which it is not |
| Handshake.IdsTakeTurns | sdr-udp/src/sdr_api.cpp:19-24 | message ids go round all 1024 slots |
| Handshake.DataFindsTheReceiver | sdr-udp/src/sdr_api.cpp:211-263 | in every run no data precedes CTS, both sides hold the same usable parameters, packets go to bound ports with the slot's transfer stamp and chunk size, and name its slot exactly when both contexts had numbered equally many messages |
| Ec.MissingList | sdr-udp/reliability/ec.cpp:250-255 | the missing data chunks, in order |
| Ec.CollapseGaps | sdr-udp/reliability/ec.cpp:298-312 | the collapse loop with its casts yields exactly the first sixteen maximal runs |
| Ec.ECReceiver.TryDecode | sdr-udp/reliability/ec.cpp:238-384 | new state, message and result of each branch, as `Ec.EveryCallDoes` and `Ec.CallCounts` describe them |
| Ec.RequestsAreBounded | sdr-udp/reliability/ec.cpp:258-326 | over a whole receive: EC_NACKs, then at most one EC_FALLBACK_SR, then only EC_ACKs; at most max(1, max_retries) requests, and the one to fall back is the last of exactly that many |
| Ec.EveryCallDoes | sdr-udp/reliability/ec.cpp:238-384 | in every receive with a control server each call does one thing: EC_ACK when all has come or the library rebuilt it, nothing after a fallback, otherwise with more than m missing exactly one request, EC_FALLBACK_SR exactly when it is number max_retries or later |
| Ec.CallCounts | sdr-udp/reliability/ec.cpp:258-384 | a call answers true exactly when it settles the message, and moves each counter by what happened |
| Ec.NoServerNoMessage | sdr-udp/reliability/ec.cpp:294 | without a control server nothing is sent and fallback never starts |
| Ec.EveryAckSettled | sdr-udp/reliability/ec.cpp:258-290 | every single EC_ACK was sent by a call that found every data chunk, or whose missing chunks the library rebuilt |
| Ec.AckMeansReceived | sdr-udp/reliability/ec.cpp:278-288 | one not owed to the library means every data chunk has been received, at every later reading too |
| Ec.CompletedExactly | sdr-udp/reliability/ec.cpp:258-290 | declared complete exactly when some call found every data chunk, or the library rebuilt at most m before any fallback |
| Ec.RequestsCarryRuns | sdr-udp/reliability/ec.cpp:293-320 | every request carries the first runs of what one reading found missing |
| Ec.ECSender.HandleRequest | sdr-udp/reliability/ec.cpp:175-196 | bitmap, gap and clear-bit loops: new acked set, chunks resent in order, and whether poll returns |
| Ec.RequestAnswered | sdr-udp/reliability/ec.cpp:182-190 | the sender answers a request with exactly the chunks of its gaps, in order, all the missing ones if fewer than sixteen runs |
| Ec.AnswerSends | sdr-udp/reliability/ec.cpp:175-196 | any request: bits below 1024 are applied, then the unacked chunks of its gaps go out, then the first eight it shows clear; poll ends exactly when all are acked |
| Ec.ChunksAgree | sdr-udp/reliability/ec.cpp:97 | poll counts the chunks that were laid out exactly when data_bytes is configured |
| Ec.PollEndsOnRequest | sdr-udp/reliability/ec.cpp:191-195 | a request ends poll with success exactly when data_bytes is 0, and then nothing is resent |
| Stripes.EncodeStripes | sdr-udp/reliability/ec.cpp:57-70 | the pointer tables handed over for every stripe |
| Stripes.StripesTileStorage | sdr-udp/reliability/ec.cpp:40-68 | data blocks then parity blocks of all stripes are the chunks of the storage, each once, in order |
| Stripes.EntriesPointApart | sdr-udp/reliability/ec.cpp:59-68 | different data and parity entries of the pointer tables, of whatever stripes, point to different blocks |
| Stripes.BlocksAreDisjoint | sdr-udp/reliability/ec.cpp:44-68 | their byte ranges do not overlap and lie inside the storage |
| Stripes.ShortStripe | sdr-udp/reliability/ec.cpp:58 | only the last stripe can be short, exactly when k does not divide the chunk count |
| Stripes.PaddingIsChunkZero | sdr-udp/reliability/ec.cpp:62-65 | a short stripe is padded with the first data block, not with zeros |

## Left out

- Sockets, threads, sleeps, real clocks, logging, configuration files and example programs: input and output.
- TCP framing: the control connection is an ordered queue of whole messages that may go down for good.
- Galois-field encoding and decoding: the library is not part of this model, so nothing is said about recovered bytes; the library branch of `try_decode` succeeds or fails freely.
- Several messages end to end: the end-to-end statements are for the first message of a receiving process, since `Posts` shows that later ones cannot be received.
- Unconditional liveness: on a control timeout the sender waits in `sdr_send_poll`, which drops reports; progress is stated round by round, and completion as reachable, with the exact condition.
- Completion racing with a worker in the middle of a packet: the completion step of `Protocol` waits for workers to finish the packet they are writing; memory is sequentially consistent.
- Wrap-around of the generation and transfer counters after 2^32 messages.
- `pump` inside the global machine is its proved contract, two steps around any number of poller steps; its single reads are in `SrReceiver`, and `EndToEnd.HonestMayBeSent` relates the two.
- The poller's and workers' loops appear twice, as methods over arrays and as steps of the global machine; `Reach.ReceiveOne` and `Reach.FinishPass` relate the two where nothing interferes, `Backend.ScanUnderInterference` where something does.
- Slots hold their contexts as values, and user buffers are numbered regions of a memory map; a handle kept beyond the slot's life is not modelled.
- Parameter mismatch between erasure-coding sender and receiver, and overflow of 32-bit products in the stripe layout.
- Binding failures of UDP ports, and posts after the first, which do not bind again.
- The streaming-send interface: further entry points to the same packet loop.
- SrSender.WalkSendsAll: assumes guard times have passed for every chunk of the walk, as the promise about the resent chunks does.
- Backend.BackendBitmap.CheckChunkRange: the empty range, which no caller passes, would wrap around in the source and is excluded.
