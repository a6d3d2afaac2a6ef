# PacketForge: a verified model

PacketForge is a single-threaded TCP/IP stack and router in C. This project models its protocol core in Dafny and
proves what that core is for. Time is an argument of each operation, and what is transmitted is a log or a result.

- **TCP** (`SeqSpace`, `ByteRings`, `PacketQueue`, `TcpSpec`, `TcpEvents`, `TcpSteps`, `TcpReceiver`, `TcpSender`,
  `TcpPhases`, `TcpArrival`, `TcpControlBlock`, `TcpSystem`, `TcpTheorems`, `TcpRefinement`, `TcpTraces`, `TcpAlone`,
  `TcpStall`, `TcpSocket`). A control block is a class over
  real byte rings, a linked out-of-order list and 32-bit sequence numbers. `Tcb.Abs()` gives its value: unbounded
  streams and positions (the SYN at 0, byte *i* at 1 + *i*, the FIN after the last byte). Each method is proved to take that value to what its
  specification (`OutputSpec`, `InputSpec`, `TickSpec`, ...) says, to keep the invariant `Inv` and to move only forward
  (`Extends`). `TcpSystem` then joins two such values by a network that may deliver any segment ever sent, any number of
  times and in any order, as long as it is at most 2^31 old (a RST at any age); `TcpTheorems` states what
  holds in every run. A step of that system asks of each end what the methods guarantee of themselves, `Inv` and `Extends`. `TcpRefinement` discharges this: a
  `Pair` of control blocks is opened and driven by any calls and arrivals, each shown to extend a run, so the theorems
  hold of the two objects at all times. `TcpTraces` states what holds of one block that faces any peer whatever: its
  segment sizes, its windows, the promptness of its acknowledgments, its timers; `TcpAlone` discharges its steps likewise.
- **IPv4** (`Checksum`, `Ipv4`, `Forwarding`, `Fib`). One's-complement arithmetic with its loops, header build and check,
  the forwarding decision and rewrite, and the binary trie over its entry pool, refined to a map from prefixes to routes.
- **Fragmentation and reassembly** (`Fragmentation`, `Ranges`, `ReassemblySpec`, `Reassembly`, `ReassemblyTheorems`,
  `ReassemblyRuns`). The in-place range list, the context table, the sender's loop, and the proof that the one undoes the
  other for any order of arrival and amid other traffic. A context carries, as ghost state, the fragments it accepted.
- **ARP** (`ArpSpec`, `Arp`, `ArpTheorems`, `ArpAnswers`). The entry table in place, with a ghost history from which the
  wait queues can be replayed, and what the answers of `arp_resolve` mean over a run.

Where the source does not keep what one would expect, the model follows the source and says exactly when it does:

- The congestion window is an unchecked 32-bit sum that becomes 0 when it reaches exactly 2^32. A connection with unsent
  text, nothing in flight and an open peer window then has neither timer nor probe. `TcpStall` states, for every event
  in every state, exactly when the connection is stalled after it (`StallIff`): on the acknowledgment that wraps the
  window, and, once the window is 0, also on a write into the idle connection or on a segment that reopens the peer's
  window. It shows which segments bring the window to 0 (`CwndStep`), that a run without one never stalls
  (`NeverStalls`), exhibits a stall, and shows that the application and the clock cannot end it.
- A FIN of the peer that arrives while text or our own FIN waits for the window leads to CLOSING, where the source no
  longer sends: the rest and the FIN never go out (`ClosingIsMute`), and only an abort, the eleventh expiry or a RST
  ends the connection (`ClosingEnds`).
- The incremental checksum update differs from recomputation, while other words are nonzero, in exactly one case
  (`UpdateEqualsRecompute`).
- `pf_recv` returns 0, which reads as end of stream, for a capacity that is a multiple of 2^32 (`Tcb.Recv`), and `pf_send`
  never finishes for a length of 2^32 or more (`TcpSocket.SendEndsIff`).
- A segment delayed by more than 2^31 is read at the wrong position (`UnwrapExact`, `StaleIsMisread`).
- A route through a gateway may take the place of the connected route another gateway depends on; `ViaAnchoredIff` says
  exactly when, `GatewayStranded` gives one.
- The list of 32 ranges is enough for every order of arrival of up to 62 fragments, and of no more (`RoundTrip`,
  `TooManyFragments`).
- The comment at src/tcp/tcp.c:683 says a repeated FIN restarts 2MSL; such a FIN fails the acceptability test first
  (`RepeatedFinRejected`).

## Model

| member | source | states |
|---|---|---|
| SeqSpace.SignedDiffExact | src/tcp/tcp.h:77-93 | the signed 32-bit difference of two wrapped positions is their true distance if and only if that lies in [-2^31, 2^31) |
| SeqSpace.Compare | src/tcp/tcp.h:77-93 | within 2^31 the four comparisons and equality agree with the order of the positions |
| SeqSpace.UnwrapExact | src/tcp/tcp.h:77-93 | a sequence number is read back as the position it was sent for if and only if that position is within 2^31 of what is expected |
| SeqSpace.StaleIsMisread | src/tcp/tcp.h:77-93 | a segment one full turn old is taken for the one now expected: the limit is real |
| SeqSpace.InWindow | src/tcp/tcp.c:502-510 | the two-sided window test decides exactly whether a position is in the window |
| SeqSpace.SeqLtNotAnOrder | src/tcp/tcp.h:77-93 | beyond 2^31 the comparison has cycles |
| ByteRings.ByteRing.Put | src/tcp/tcp.c:260-270 | appends as much as fits to the bytes held, across the end of the buffer |
| ByteRings.ByteRing.CopyOut | src/tcp/tcp_out.c:21-27 | returns exactly the requested slice of the bytes held |
| ByteRings.ByteRing.Drop | src/tcp/tcp.c:588-589 | releases the oldest bytes and keeps the rest |
| PacketQueue.Queue.Push | src/core/pkt.c:63-72 | the linked list grows by one packet at the tail; head, tail and count agree with it |
| PacketQueue.Queue.Pop | src/core/pkt.c:74-85 | returns and unlinks the head, or null exactly when empty |
| PacketQueue.Queue.FreeAll | src/core/pkt.c:87-92 | leaves a valid empty list |
| PacketQueue.Queue.InsertOrdered | src/tcp/tcp.c:316-325 | links before the first packet whose sequence number is not below, and fixes the tail |
| TcpSpec.DrainReachesHole | src/tcp/tcp.c:273-294 | after draining, nothing parked touches the next expected byte |
| TcpSpec.DrainConsumes | src/tcp/tcp.c:273-294 | what leaves the out-of-order list is a prefix of it and was wholly received |
| TcpSpec.DrainAgrees | src/tcp/tcp.c:273-294 | draining adds only bytes of the stream the segments were cut from |
| TcpSpec.InsertOrderly | src/tcp/tcp.c:296-326 | inserting a segment that overlaps nothing keeps the list sorted, disjoint and inside the window |
| TcpSpec.ReceiveKeepsInv | src/tcp/tcp.c:329-371 | any segment text leaves the ring within its size and the list sorted, disjoint, above RCV.NXT, inside the window and at most 16 long |
| TcpSpec.ReceiveAgrees | src/tcp/tcp.c:329-371 | if a segment is a slice of a stream, all that is received and parked afterwards is of that stream |
| TcpSpec.AheadIsKept | src/tcp/tcp.c:296-326 | in-window text ahead of a hole is kept if and only if fewer than 16 segments are parked and it overlaps none; no parked segment is ever lost to it |
| TcpArrival.FeedGap | src/tcp/tcp.c:357-362 | a segment at the gap brings RCV.NXT to the next gap |
| TcpArrival.FeedAhead | src/tcp/tcp.c:368-371 | a segment beyond the gap leaves RCV.NXT and is kept |
| TcpArrival.AnyOrder | src/tcp/tcp.c:329-371 | segments that do not overlap, in any order and repeated at will, with at most 16 ahead of a gap: RCV.NXT is the first position none has brought, and exactly those beyond it are parked |
| TcpArrival.CoverIsReceived | src/tcp/tcp.c:329-371 | hence pieces of a stream that cover it up to a point bring RCV.NXT there with exactly those bytes, in whatever order they came |
| TcpReceiver.ReceiveHalf.DrainOne | src/tcp/tcp.c:276-292 | one parked segment is consumed; it always fits, so the ring-full exit is not taken |
| TcpReceiver.ReceiveHalf.DrainAll | src/tcp/tcp.c:273-294 | the loop over the linked list computes the specification `Drain` |
| TcpReceiver.ReceiveHalf.TrimToWindow | src/tcp/tcp.c:332-350 | the 32-bit trimming steps yield exactly the part of the text inside the window, and classify it |
| TcpReceiver.ReceiveHalf.Overlaps | src/tcp/tcp.c:306-312 | finds an overlap if and only if some parked segment overlaps |
| TcpReceiver.ReceiveHalf.Insert | src/tcp/tcp.c:296-326 | the list changes as `Park` says: full list and overlaps drop the segment, otherwise ordered insert |
| TcpReceiver.ReceiveHalf.Payload | src/tcp/tcp.c:329-371 | ring, list and RCV.NXT end as `Receive` says, for any position, length and overlap of the text |
| TcpReceiver.ReceiveHalf.TakeFin | src/tcp/tcp.c:665-670 | the FIN takes one sequence number and marks end of stream |
| TcpReceiver.ReceiveHalf.Read | src/tcp/tcp_sock.c:142-150 | returns the oldest unread bytes, as many as the capacity allows, in order, each once |
| TcpEvents.EffectiveMss | src/tcp/tcp.c:253-257 | the segment size is between 1 and ours, and no more than the peer announced; 536 if it announced none |
| TcpSender.SendHalf.Flight | src/tcp/tcp_out.c:125-131 | the 32-bit differences are the true ones; data in flight never exceeds what the ring holds |
| TcpSender.SendHalf.Append | src/tcp/tcp_sock.c:117-128 | the stream grows by exactly the bytes accepted, as many as there is room for |
| TcpSender.SendHalf.Release | src/tcp/tcp.c:584-590 | an acknowledgment releases exactly the bytes it covers, never more than the ring holds, and recognises that of the FIN |
| TcpSender.RtoTimer.Arm | src/tcp/tcp_out.c:15-19 | starts the timer unless it runs |
| TcpSender.RtoTimer.Sample | src/tcp/tcp.c:114-133 | SRTT and RTTVAR move by the rules of section 2 of RFC 6298 and the timeout stays in [200, 60000] for any sample |
| TcpSender.RtoTimer.Progress | src/tcp/tcp.c:592-610 | the retry count is reset and the timer restarted if and only if something is outstanding |
| TcpSender.RtoTimer.Expire | src/tcp/tcp_timer.c:19-43 | ten expiries double the timeout up to its bound, the next gives up |
| TcpSender.Congestion.Start | src/tcp/tcp.c:98-103 | the initial window of section 3.1 of RFC 5681 |
| TcpSender.Congestion.NewAck | src/tcp/tcp.c:600-607 | slow start, congestion avoidance or the end of fast recovery, in 32-bit arithmetic |
| TcpSender.Congestion.Timeout | src/tcp/tcp_timer.c:33-37 | window of one segment, threshold half the flight but at least two |
| TcpSender.Congestion.Duplicate | src/tcp/tcp.c:627-637 | the third duplicate starts fast recovery, later ones inflate the window |
| TcpSender.WindowZeroOnlyByWrap | src/tcp/tcp.c:600-606 | a new acknowledgment brings the window to 0 if and only if the 32-bit sum is exactly 2^32 |
| TcpSender.DuplicateZeroOnlyByWrap | src/tcp/tcp.c:627-637 | a duplicate does so if and only if it inflates the window to 2^32, and the next new acknowledgment restores it |
| TcpSender.InitialWindow | src/tcp/tcp.c:98-103 | two to four segments: four up to 1095 bytes, 4380 bytes up to 2190 |
| TcpSender.SlowStart | src/tcp/tcp.c:602-603 | below the threshold `n` acknowledgments of a segment add `n` segments, so a window of them doubles the window |
| TcpSender.AvoidanceIsLinear | src/tcp/tcp.c:604-605 | from the threshold on, a window full of acknowledgments adds at least a byte each and at most one segment, or a byte each |
| TcpSender.RecoveryHalves | src/tcp/tcp.c:600-601 | after the third duplicate and `k` more the window is half the flight plus 3 + k segments, and the acknowledgment that ends recovery leaves half the flight, at least two segments |
| TcpControlBlock.Tcb.constructor | src/tcp/tcp.c:34-58 | a block that is closed, with empty rings, no timer and nothing sent |
| TcpControlBlock.Tcb.SendSegment | src/tcp/tcp_out.c:31-73 | the segment logged carries the ring bytes at its offset, the wrapped numbers and the current window |
| TcpControlBlock.Tcb.SendAck | src/tcp/tcp_out.c:82-88 | a bare acknowledgment of what has been received, with the current window |
| TcpControlBlock.Tcb.OutputText | src/tcp/tcp_out.c:142-175 | new text is contiguous, from the stream, inside min(SND.WND, cwnd), in segments of at most the peer's MSS that Nagle's algorithm lets out; it stops only for want of data or window or by that algorithm |
| TcpControlBlock.Tcb.Output | src/tcp/tcp_out.c:133-184 | also the FIN, once all text is sent; nothing in other states; nothing more could be sent afterwards, so the result cannot stall |
| TcpControlBlock.Tcb.Retransmit | src/tcp/tcp_out.c:186-208 | one segment from SND.UNA: as much of the written bytes there as is in flight and fits a segment, or the FIN, or the SYN; nothing is timed any longer |
| TcpControlBlock.Tcb.Free | src/tcp/tcp.c:71-88 | the block is closed and its timer stopped; its streams do not change |
| TcpControlBlock.Tcb.ResetAndFree | src/tcp/tcp.c:211-216 | unless told to be quiet, exactly one RST with the current numbers is sent before the block is freed |
| TcpControlBlock.Tcb.Abort | src/tcp/tcp.c:211-216 | exactly one RST is sent, none in SYN-SENT, and the block is freed |
| TcpControlBlock.Tcb.Expired | src/tcp/tcp_timer.c:19-44 | eleventh expiry: exactly one RST is sent and the block closes; before that retransmit from SND.UNA, double the timeout, collapse the window |
| TcpControlBlock.Tcb.Probe | src/tcp/tcp_out.c:76-80 | exactly one byte, the first unsent one, beyond a closed window |
| TcpControlBlock.Tcb.ProbeAndAck | src/tcp/tcp_timer.c:49-59 | the probe is sent exactly when due; otherwise an acknowledgment exactly when one is due; none is due afterwards |
| TcpControlBlock.Tcb.Tick | src/tcp/tcp_timer.c:6-60 | per state: TIME-WAIT ends exactly at its deadline, otherwise expiry, probe or delayed acknowledgment; the invariant is kept |
| TcpControlBlock.Tcb.Connect | src/tcp/tcp.c:169-188 | SYN at position 0, timer running, SYN-SENT |
| TcpControlBlock.Tcb.Accept | src/tcp/tcp.c:431-453 | SYN and acknowledgment of the peer's SYN, SYN-RECEIVED |
| TcpControlBlock.Tcb.Write | src/tcp/tcp_sock.c:104-133 | bytes are appended to the stream, then the send engine runs |
| TcpControlBlock.Tcb.Recv | src/tcp/tcp_sock.c:135-165 | bytes in order, or end of stream, or nothing yet; returns 0 with bytes pending if and only if the capacity is a multiple of 2^32 |
| TcpControlBlock.Tcb.Close | src/tcp/tcp.c:190-209 | marks the stream closed, moves to FIN-WAIT-1 or LAST-ACK, sends what it can; SYN-SENT is freed |
| TcpControlBlock.Tcb.EnterTimeWait | src/tcp/tcp.c:105-111 | TIME-WAIT with both timers stopped and the 2MSL deadline set |
| TcpControlBlock.Tcb.Credit | src/tcp/tcp.c:582-610 | releases what is acknowledged, restarts or stops the timer, grows the window by what was acknowledged |
| TcpControlBlock.Tcb.NewAck | src/tcp/tcp.c:582-621 | and moves the state when the FIN is covered; TIME-WAIT gets its deadline |
| TcpControlBlock.Tcb.TakeNewAck | src/tcp/tcp.c:582-622 | and sends all that the new window allows |
| TcpControlBlock.Tcb.DupAck | src/tcp/tcp.c:623-639 | third duplicate retransmits from SND.UNA, later ones send within the inflated window, fewer change nothing; the timer runs |
| TcpControlBlock.Tcb.UpdateWindow | src/tcp/tcp.c:642-651 | SND.WND is replaced exactly under the SND.WL1/WL2 rule; a window that reopens restarts sending |
| TcpControlBlock.Tcb.ProcessAckField | src/tcp/tcp.c:550-651 | handshake completion, acknowledgment and window together do what the positions say |
| TcpControlBlock.Tcb.ProcessText | src/tcp/tcp.c:654-660 | text changes the receive half as `Receive` says; duplicates and holes are acknowledged at once, text in order at every second segment |
| TcpControlBlock.Tcb.ProcessFin | src/tcp/tcp.c:663-689 | the FIN is consumed, the state moves by the diagram, and exactly the acknowledgment of the FIN is sent |
| TcpControlBlock.Tcb.RepeatFin | src/tcp/tcp.c:683-685 | a FIN that got this far in TIME-WAIT is acknowledged and starts 2MSL over; between two endpoints of this stack none does (`TcpTraces.NoRestart`) |
| TcpControlBlock.Tcb.Process | src/tcp/tcp.c:550-692 | all phases of a segment that passes the checks |
| TcpControlBlock.Tcb.SendResetFor | src/tcp/tcp_out.c:91-122 | a RST is never answered; anything else is answered by the RST of section 3.10.7.1 of RFC 9293 and nothing else |
| TcpControlBlock.Tcb.InputSynSent | src/tcp/tcp.c:458-495 | every branch of SYN-SENT, simultaneous open included |
| TcpControlBlock.Tcb.Input | src/tcp/tcp.c:497-696 | every branch for a live block: acceptability, RST, SYN, ACK, text, FIN; the invariant is kept, the connection only moves forward, and every processed segment leaves both windows exactly as computed and sends nothing new outside the sending states |
| TcpPhases.KindOf | src/tcp/tcp.c:329-371 | text moves RCV.NXT if and only if it is in order; old text is a duplicate, text beyond the next byte leaves a hole |
| TcpPhases.PhasesMeet | src/tcp/tcp.c:653-692 | text and FIN together leave what is owed, the receive stream and the end of TIME-WAIT as specified |
| TcpSteps.AcceptableExact | src/tcp/tcp.c:500-510 | the 32-bit acceptability test decides section 3.10.7.4 of RFC 9293 for every sequence number |
| TcpSteps.OutputNeverStalls | src/tcp/tcp_out.c:133-184 | when the send engine stops with nothing in flight, nothing is left that only it could send |
| TcpSteps.ResendKeepsCore | src/tcp/tcp_out.c:186-208 | every retransmission carries the bytes written at its position |
| TcpSteps.TextKeepsCore | src/tcp/tcp_out.c:150-174 | every first transmission does |
| TcpSteps.FinCompare | src/tcp/tcp.c:664-667 | the FIN test on sequence numbers is the test on positions |
| TcpSteps.AckInWindow | src/tcp/tcp.c:642 | which old acknowledgment numbers pass the window test: the last one, and one exactly 2^31 below SND.NXT |
| TcpSteps.AckCompare | src/tcp/tcp.c:576-582 | the acknowledgment tests on sequence numbers are the tests on positions |
| TcpSystem.ReadBack | src/tcp/tcp.c:398-400 | a segment delayed by at most 2^31 is read at the positions it was sent for |
| TcpSystem.TextAgrees | src/tcp/tcp.c:329-371 | text and FIN of a faithful segment bring only what the peer wrote |
| TcpSystem.DeliverKeepsLink | src/tcp/tcp.c:373-696 | any segment ever sent, lost, repeated or late by up to 2^31 (a RST by any time), keeps both directions consistent |
| TcpSystem.NextKeepsInv | src/tcp/tcp.c:373-696 | every event at either end keeps the two streams consistent, given that the end keeps its own invariant |
| TcpSystem.RunKeepsInv | src/tcp/tcp.c:373-696 | hence in every state of every run of such steps; `TcpRefinement.Pair` shows that the control blocks take no others |
| TcpRefinement.Perform | src/tcp/tcp.c:190-216 | every call of a control block (send, receive, close, abort, tick, segment, also one that comes after it closed) is a step of the two-endpoint system, with the values really accepted and returned, and keeps its invariant |
| TcpRefinement.PerformBeside | src/tcp/tcp.c:373-696 | and leaves alone another block that shares nothing with it; they still share nothing |
| TcpRefinement.StepIsNext | src/tcp/tcp.c:373-696 | a step of either end is a step of the system and keeps its invariant |
| TcpRefinement.RunGrows | src/tcp/tcp.c:373-696 | such a step extends a run by one |
| TcpRefinement.OpenActive | src/tcp/tcp.c:169-188 | a new block that has sent its SYN |
| TcpRefinement.OpenPassive | src/tcp/tcp.c:431-453 | a new block that has answered a SYN |
| TcpRefinement.Pair.constructor | src/tcp/tcp.c:169-188 | two blocks opened against each other, actively or by a listener, are at the start of a run |
| TcpRefinement.Pair.Step | src/tcp/tcp.c:373-696 | any call on either block, with any fresh segment the other ever sent, extends their run; so every use of the two blocks is a run |
| TcpRefinement.Pair.Safe | src/tcp/tcp_sock.c:104-165 | of the two blocks at all times: what one application has read is a prefix of what the other has written |
| TcpRefinement.Pair.Lively | src/tcp/tcp_out.c:133-184 | of the two blocks at all times: with something left to deliver the timer runs or the next tick probes, unless cwnd is 0; and the timer runs exactly while something is unacknowledged |
| TcpRefinement.Pair.Bounded | src/tcp/tcp_timer.c:19-44 | of the two blocks at all times: at most ten expiries since any earlier point without progress |
| TcpRefinement.Pair.EdgeStands | src/tcp/tcp_out.c:9-13 | of the two blocks at all times: the right edge is at or past every earlier one and all that was ever promised |
| TcpTheorems.StreamSafety | src/tcp/tcp_sock.c:104-165 | in every run the bytes read on one side are a prefix of the bytes accepted on the other, across wrap-around |
| TcpTheorems.EndOfStream | src/tcp/tcp_sock.c:142-161 | end of stream is seen only after every byte ever written by the peer was returned |
| TcpTheorems.GracefulClose | src/tcp/tcp.c:612-621 | in FIN-WAIT-2 and TIME-WAIT the peer has received the whole stream and nothing is left in the ring |
| TcpTheorems.LastAckClose | src/tcp/tcp.c:617-620 | so too when LAST-ACK ends by an acknowledgment |
| TcpTheorems.RunExtends | src/tcp/tcp.c:260-371 | streams, positions and the log of an endpoint only grow over a run, step by step |
| TcpTheorems.RightEdgeNeverShrinks | src/tcp/tcp_out.c:9-13 | the right edge never moves left, nor below what any sent segment has promised |
| TcpTheorems.TimerDiscipline | src/tcp/tcp_timer.c:19-44 | the timer runs exactly while something is unacknowledged; at most ten expiries without progress |
| TcpTheorems.EleventhExpiryEnds | src/tcp/tcp_timer.c:23-29 | in every run: after ten expiries without progress, a tick at the deadline sends a RST and closes |
| TcpTheorems.NoStall | src/tcp/tcp_out.c:133-184 | in every run: with something left to deliver, the timer runs or the next tick probes, unless cwnd is 0 |
| TcpTheorems.StallExactly | src/tcp/tcp_out.c:140-149 | what a stall is: unsent text, nothing in flight, open peer window, and then cwnd is 0 |
| TcpTheorems.ProbeIsSent | src/tcp/tcp_timer.c:49-55 | in every run: with something left and no timer, the next tick sends exactly the first unsent byte and starts the timer |
| TcpTheorems.MuteStep | src/tcp/tcp_out.c:133-137 | in CLOSING with our FIN unsent, a step sends nothing new, and ends the connection if and only if it is an abort, the eleventh expiry or a RST at RCV.NXT |
| TcpTheorems.ClosingIsMute | src/tcp/tcp_out.c:133-137 | over every run from there: SND.NXT never moves, no FIN is ever sent, and the peer never sees the end of the stream |
| TcpTheorems.ClosingEnds | src/tcp/tcp_out.c:133-137 | over every run: what ends such a connection, exactly |
| TcpTheorems.RepeatedFinRejected | src/tcp/tcp.c:502-516 | in every run: a FIN that comes again in TIME-WAIT fails the acceptability test and is only acknowledged |
| TcpTheorems.FollowsDiagram | src/tcp/tcp.c:612-689 | every step follows the diagram of section 3.3.2 of RFC 9293 or closes |
| TcpTheorems.StateMoves | src/tcp/tcp.c:190-209 | the state is a function of what was closed, acknowledged and consumed, and moves along its arcs |
| TcpTheorems.ResetIsHeeded | src/tcp/tcp_out.c:91-122 | the RST by which a segment of ours is refused is acceptable to the connection that sent it and ends it, as long as nothing has arrived since; so the numbers of `tcp_send_reset_for` are the right ones |
| TcpTraces.MssTaken | src/tcp/tcp.c:253-257 | facing any peer: the segment size in use is that of the SYN taken, in every state |
| TcpTraces.SegmentsFit | src/tcp/tcp_out.c:153-174 | facing any peer: no text segment ever sent, first or again, is longer than the MSS option of the peer's SYN, or 536 bytes without one, or our own MSS |
| TcpTraces.WindowIsNewest | src/tcp/tcp.c:641-651 | facing any peer: SND.WND is that of the newest segment by sequence, then acknowledgment number, whose acknowledgment lies in the send window; none that counted since is newer |
| TcpTraces.WaitLasts | src/tcp/tcp.c:105-111 | facing any peer: in TIME-WAIT the deadline is 10 seconds after the last step that started it, and the next step closes exactly on a tick at or past it, an abort or a RST |
| TcpTraces.TimeWaitLasts | src/tcp/tcp_timer.c:14-18 | in every run of two endpoints: one that enters TIME-WAIT at time t is closed by a tick if and only if it comes at t plus 10 seconds or later |
| TcpTraces.NoRestart | src/tcp/tcp.c:683-685 | in every run of two endpoints nothing starts TIME-WAIT over |
| TcpTraces.AckedInTime | src/tcp/tcp.c:357-366 | facing any peer: what arrives in order is acknowledged by the first tick 40 ms later, whatever happens in between |
| TcpTraces.ClosedWindowIsTrue | src/tcp/tcp_sock.c:152-155 | facing any peer: one that was last told a window of 0 has not been left waiting, there is no room for a segment |
| TcpTraces.SampleIsHonest | src/tcp/tcp.c:592-595 | facing any peer: each measured round trip is that of a byte sent exactly once, from the step that first sent it to its acknowledgment |
| TcpTraces.BackoffDoubles | src/tcp/tcp_timer.c:39-42 | facing any peer: `n` expiries without progress double the timeout `n` times, up to 60 seconds |
| TcpAlone.Meet | src/tcp/tcp.c:373-696 | whatever is called and whatever segment arrives, the control block makes a move of such a trace |
| TcpAlone.Alone.constructor | src/tcp/tcp.c:169-188 | a block opened actively or by a listener starts a trace |
| TcpAlone.Alone.Face | src/tcp/tcp.c:373-696 | each use of the block extends its trace by one |
| TcpAlone.Alone.Fits | src/tcp/tcp_out.c:153-174 | of the object at all times: no text segment is longer than the peer's SYN allows |
| TcpAlone.Alone.Waits | src/tcp/tcp.c:105-111 | of the object at all times: its TIME-WAIT deadline is 10 seconds after the step that started it |
| TcpStall.LocalStallIff | src/tcp/tcp_out.c:133-184 | after a write, read, close, abort or tick: exactly when the connection is stalled; in particular a write into an idle connection whose cwnd is 0 and whose peer window is open |
| TcpStall.ProcessedStallIff | src/tcp/tcp.c:582-689 | after a processed segment, with or without text and FIN, window updates and duplicates included: stalled if and only if it leaves nothing in flight, text unsent, cwnd 0, the peer window open and a sending state |
| TcpStall.InputStallIff | src/tcp/tcp.c:497-696 | after any segment in any live state |
| TcpStall.StallIff | src/tcp/tcp.c:373-696 | for every event: the connection is stalled after it if and only if `StallAfter` holds before it |
| TcpStall.Arrive | src/tcp/tcp.c:497-696 | the same of the control block itself, for any segment in any live state |
| TcpStall.Act | src/tcp/tcp.c:190-216 | the same of the control block itself, for any call in any state |
| TcpStall.StalledStays | src/tcp/tcp_out.c:140-149 | no write, read, close or tick ends the stall |
| TcpStall.CwndZeroIff | src/tcp/tcp.c:600-637 | a processed segment brings a nonzero cwnd to 0 if and only if the 32-bit sum is exactly 2^32, by growth or by inflation |
| TcpStall.CwndStep | src/tcp/tcp.c:582-651 | of all events only such a segment brings the cwnd of a live connection to 0, and it always does |
| TcpStall.FirstStall | src/tcp/tcp.c:582-651 | from a nonzero cwnd a connection stalls if and only if a new acknowledgment of all in flight wraps the cwnd while text is left, the peer window is open and the state can send |
| TcpStall.NeverStalls | src/tcp/tcp.c:373-696 | a run in which the cwnd of an endpoint never wraps has no state in which it is stalled |
| TcpStall.PairNeverStalls | src/tcp/tcp.c:373-696 | the same of two control blocks at all times |
| TcpStall.StallHappens | src/tcp/tcp.c:600-606 | a sound connection, its segments in the log, and an acknowledgment that meet the condition |
| TcpSocket.Send | src/tcp/tcp_sock.c:112-131 | the loop of `pf_send` over the ring spaces it finds |
| TcpSocket.ShortEnds | src/tcp/tcp_sock.c:112-131 | below 2^32 bytes every pass with space takes at least one |
| TcpSocket.LongNeverEnds | src/tcp/tcp_sock.c:123-129 | from 2^32 bytes on, at least 2^32 are left for ever |
| TcpSocket.SendEndsIff | src/tcp/tcp_sock.c:112-131 | the loop ends whenever the ring keeps offering space if and only if the length is below 2^32 |
| Checksum.Partial | src/ipv4/checksum.c:3-14 | the 32-bit sum of the big-endian words, odd length included |
| Checksum.CsumFold | src/ipv4/checksum.c:16-21 | terminates with the complement of the one's-complement reduction: it depends only on the sum modulo 65535 and on whether it is 0 |
| Checksum.FoldStep | src/ipv4/checksum.c:18-19 | one fold keeps the reduction and strictly decreases the sum |
| Checksum.PseudoIsHeader | src/ipv4/checksum.c:23-33 | `csum_pseudo` is the word sum of the 12 bytes of the pseudo-header, so it starts the sum over pseudo-header and segment joined; it cannot overflow |
| Checksum.InetCsum | src/ipv4/checksum.h:21-24 | for every message of up to 65535 bytes the 32-bit accumulator does not overflow |
| Checksum.TransportCsum | src/tcp/tcp_out.c:60-62 | the checksum is the fold of the word sum of pseudo-header and segment joined, without overflow |
| Checksum.Update16 | src/ipv4/checksum.c:35-42 | equation 3 of RFC 1624 |
| Checksum.WordSumPut | src/ipv4/checksum.c:3-14 | replacing an even-offset field changes the sum by the difference |
| Checksum.FillVerifies | src/tcp/tcp_out.c:60-62 | fill then verify succeeds for every byte string, with or without pseudo-header |
| Checksum.UdpFillVerifies | src/udp/udp.c:94-97 | also with 0xffff sent for 0 |
| Checksum.DetectsWordChange | src/ipv4/ipv4.c:103-108 | a change to one word goes unnoticed exactly when it swaps 0x0000 and 0xffff |
| Checksum.UpdateEqualsRecompute | src/ipv4/checksum.c:35-42 | the incremental update of a message that verifies equals recomputation if and only if both sums are zero or neither is: with a nonzero remaining sum it fails exactly from an all-ones checksum and word to a zero word |
| Checksum.TransportFillVerifies | src/tcp/tcp_out.c:60-62 | a segment filled for its addresses verifies there |
| Checksum.DetectsMisdelivery | src/tcp/tcp.c:388-392 | a segment that verifies for one destination and is read at one that differs in one 16-bit half goes unnoticed exactly when 0x0000 and 0xffff are swapped |
| Ipv4.WriteHeader | src/ipv4/ipv4.c:149-164 | the header and checksum are written in front of an untouched payload |
| Ipv4.BuiltIsAccepted | src/ipv4/ipv4.c:67-108 | what one host builds another accepts untrimmed and reads back, every field |
| Ipv4.PaddingIsTrimmed | src/ipv4/ipv4.c:91-101 | what is accepted is a prefix of what arrived, as long as its header says, with a good header and a unicast source; padding behind it makes no difference |
| Ipv4.CorruptionRejected | src/ipv4/ipv4.c:103-108 | one changed word of an accepted header makes it unacceptable unless 0x0000 and 0xffff are swapped |
| Ipv4.AddressClasses | src/ipv4/ipv4.h:42-57 | the class tests are exactly 127.0.0.0/8, 224.0.0.0/4 and 240.0.0.0/4 |
| Fib.MatchUnique | src/route/fib.c:112-126 | the longest match is unique |
| Fib.DelChangesOnlyItsOwn | src/route/fib.c:102-110 | removing a prefix leaves alone every address it was not the match of |
| Fib.DelRestoresShorter | src/route/fib.c:102-110 | and brings back the next shorter match for the others, or none |
| Fib.WalkVisitsAll | src/route/fib.c:138-151 | pre-order over the trie is every route once, ascending in (prefix, length) |
| Fib.Table.constructor | src/route/fib.c:8-11 | an empty table |
| Fib.Table.Lookup | src/route/fib.c:112-126 | the route of the longest installed prefix covering the address, null exactly when none does |
| Fib.Table.PoolAlloc | src/route/fib.c:28-34 | a free entry, or null exactly when all are in use |
| Fib.Table.PoolCounts | src/route/fib.c:28-34 | pool entries in use and installed routes are equally many; full exactly at 64 |
| Fib.Table.Grow | src/route/fib.c:54-59 | adding a node changes no route |
| Fib.Table.Reach | src/route/fib.c:49-60 | the node of the prefix exists, and no route has changed |
| Fib.Table.Install | src/route/fib.c:62-74 | exactly one route is added or replaced |
| Fib.Table.Add | src/route/fib.c:41-76 | succeeds if and only if the arguments are valid and the prefix is installed or an entry free; then changes that route only, otherwise none |
| Fib.Table.Prune | src/route/fib.c:95-98 | freeing an empty node changes no route and leaves only the link to it |
| Fib.Table.DelRec | src/route/fib.c:80-100 | removes the route, leaves no empty node on its path, reports both truthfully |
| Fib.Table.Del | src/route/fib.c:102-110 | succeeds if and only if the prefix is installed, removes that route only, and leaves no empty node on its path |
| Fib.Table.Walk | src/route/fib.c:148-151 | the callback sees every route once, in ascending order |
| Fib.Table.AddVia | src/route/fib.c:128-136 | succeeds if and only if the gateway is under a connected route and the route can be added |
| Fib.Table.Run | src/route/fib.c:41-126 | after any run of additions and removals lookups answer as the plain map does |
| Forwarding.HopRecomputes | src/fwd/fwd.c:63-68 | for every good header with TTL at least 2 the incremental update equals full recomputation and verifies |
| Forwarding.HopAccepted | src/fwd/fwd.c:63-68 | a packet accepted by one router is accepted by the next, with only TTL and checksum changed |
| Forwarding.Directed | src/fwd/fwd.c:28-34 | finds a directed broadcast if and only if there is one |
| Forwarding.BroadcastIsLast | src/fwd/fwd.c:30 | for a prefix mask that address is the last of the subnet |
| Forwarding.Rewrite | src/fwd/fwd.c:65-68 | the in-place rewrite of TTL and checksum |
| Forwarding.Forward | src/fwd/fwd.c:15-80 | the verdict that destination, TTL, longest match and MTU require; the buffer changes exactly when it is sent |
| Forwarding.ChainSafe | src/fwd/fwd.c:36-68 | over any path of routers the packet stays acceptable, only TTL and checksum change, and there are at most TTL - 1 forwards |
| Forwarding.ViaAnchoredIff | src/route/fib.c:128-136 | a route through a checked gateway leaves every gateway on the link of its device if and only if it takes the place of no connected route that a gateway needs |
| Forwarding.GatewayStranded | src/route/fib.c:128-136 | tables and a call for which it does not |
| Forwarding.SentOnLink | src/fwd/fwd.c:70 | a packet goes out by the device of its longest match to an address on that link: its own destination when the match is connected, the checked gateway otherwise |
| Ranges.CanonicalUnique | src/ipv4/ip_reass.c:91-99 | a coalesced list is determined by the bytes it covers |
| Ranges.Position | src/ipv4/ip_reass.c:73-81 | detects any overlap, and finds the place otherwise |
| Ranges.Place | src/ipv4/ip_reass.c:85-89 | the move up and the store |
| Ranges.Coalesce | src/ipv4/ip_reass.c:91-99 | the result is sorted, non-empty, strictly separated and covers the same bytes |
| Ranges.Insert | src/ipv4/ip_reass.c:71-101 | refuses if and only if there is an overlap or 32 ranges; otherwise canonical and exactly the new bytes added |
| ReassemblySpec.ClearIsDisjoint | src/ipv4/ip_reass.c:75-76 | the range test admits a fragment if and only if it overlaps no accepted fragment |
| ReassemblySpec.StoredKeepsInv | src/ipv4/ip_reass.c:178-189 | storing keeps ranges, bytes, header and total in agreement with the accepted fragments |
| ReassemblySpec.NeverOverwrites | src/ipv4/ip_reass.c:183 | a stored byte is never overwritten |
| ReassemblySpec.CompleteAssembles | src/ipv4/ip_reass.c:191-193 | a complete context holds each byte from exactly one fragment, under the header of the one at offset 0 |
| ReassemblySpec.RebuiltIsAccepted | src/ipv4/ip_reass.c:103-123 | the rebuilt datagram passes every check of `ip_input`, is no fragment, and keeps the other fields |
| ReassemblySpec.OvershotNeverDelivers | src/ipv4/ip_reass.c:161-176 | a context holding bytes past the declared end never delivers |
| Reassembly.InputKeepsInv | src/ipv4/ip_reass.c:125-197 | an arrival keeps the table invariant: every context consistent, no two live ones with one key |
| Reassembly.TickKeepsInv | src/ipv4/ip_reass.c:199-221 | so does a tick |
| Reassembly.QuoteHasData | src/ipv4/ip_reass.c:209-213 | the time-exceeded message of a context with its first fragment quotes some data |
| Reassembly.Rebuild | src/ipv4/ip_reass.c:107-117 | the header rewrite of a completed datagram |
| Reassembly.Slot.Release | src/ipv4/ip_reass.c:15-19 | the context is cleared |
| Reassembly.Slot.Store | src/ipv4/ip_reass.c:178-189 | range, bytes and first header in place, or nothing changed |
| Reassembly.Slot.Deliver | src/ipv4/ip_reass.c:103-123 | the rebuilt datagram, and the context released |
| Reassembly.Slot.Accept | src/ipv4/ip_reass.c:154-193 | each objection kills the context, otherwise the fragment is stored and a complete datagram delivered |
| Reassembly.Table.constructor | src/ipv4/ip_reass.c:10-13 | eight free contexts |
| Reassembly.Table.Find | src/ipv4/ip_reass.c:28-38 | finds the live context of a key if and only if there is one |
| Reassembly.Table.Choose | src/ipv4/ip_reass.c:40-52 | the first free context, else the first with the earliest deadline |
| Reassembly.Table.Take | src/ipv4/ip_reass.c:40-63 | evicts and opens that context, no other |
| Reassembly.Table.Input | src/ipv4/ip_reass.c:125-197 | the table changes as the fragment and its context require; other contexts do not |
| Reassembly.Table.Tick | src/ipv4/ip_reass.c:199-221 | frees exactly the contexts past their deadline; quotes exactly those with a first fragment |
| Fragmentation.ChunkSize | src/ipv4/ipv4.c:198 | a multiple of 8, at least 8, the largest that fits |
| Fragmentation.Output | src/ipv4/ipv4.c:191-219 | one packet if it fits, else consecutive pieces that cover the payload once, all but the last with MF |
| Fragmentation.PieceParses | src/ipv4/ipv4.c:201-217 | every fragment fits the MTU, is accepted, and is read back as its piece |
| Fragmentation.RebuiltIsWhole | src/ipv4/ip_reass.c:112-117 | rebuilding from any piece's header gives the packet that was never cut |
| ReassemblyTheorems.FewRanges | src/ipv4/ip_reass.c:82-83 | with at most 62 pieces the list of 32 ranges never fills, in any order |
| ReassemblyTheorems.NoObjection | src/ipv4/ip_reass.c:154-182 | a missing piece is let in exactly when the list has room |
| ReassemblyTheorems.AllComplete | src/ipv4/ip_reass.c:191-193 | when every piece has come the context is complete |
| ReassemblyTheorems.SomeIncomplete | src/ipv4/ip_reass.c:191-193 | and not before |
| ReassemblyTheorems.RoundTrip | src/ipv4/ip_reass.c:125-197 | at most 62 fragments in any order: parked until the last, which delivers the payload |
| ReassemblyTheorems.TooManyFragments | src/ipv4/ip_reass.c:82-83 | 62 is exact: from 63 on, even fragments first make the 33rd arrival drop the datagram |
| ReassemblyRuns.RunKeepsInv | src/ipv4/ip_reass.c:125-221 | the table invariant holds in every run |
| ReassemblyRuns.RunOrigin | src/ipv4/ip_reass.c:125-197 | everything held came from fragments that arrived |
| ReassemblyRuns.DeliveredContent | src/ipv4/ip_reass.c:103-197 | in every run, whatever arrives, a delivered packet has each byte from exactly one arrived fragment of its key and the header of the one at offset 0 |
| ReassemblyRuns.NoEviction | src/ipv4/ip_reass.c:40-56 | with at most 8 keys about, a new datagram finds a free context |
| ReassemblyRuns.OtherArrival | src/ipv4/ip_reass.c:125-197 | and leaves the contexts of other keys alone |
| ReassemblyRuns.RoundTripInTraffic | src/ipv4/ip_reass.c:125-221 | the round trip holds amid any other fragments and ticks, within 8 keys and the timeout |
| ReassemblyRuns.SendReceive | src/ipv4/ipv4.c:191-219 | from `ip_output` to delivery: the very packet that was never cut, once, when the last fragment comes and only then |
| ArpSpec.Conservation | src/arp/arp.c:158-189 | in a history of queues, the packets parked for an address are those that left, in order, then those that wait |
| ArpSpec.DrainKeeps | src/arp/arp.c:53-59 | emptying a queue keeps history and queues in agreement |
| ArpSpec.EvictInv | src/arp/arp.c:36-40 | eviction keeps the invariant |
| ArpSpec.BoundInv | src/arp/arp.c:43-60 | so does a resolution, which sends the queue in order |
| ArpSpec.AskingInv | src/arp/arp.c:167-175 | so does a new resolution with its first request |
| ArpSpec.QueuedInv | src/arp/arp.c:177-187 | so does parking, which drops the oldest of a full queue |
| ArpSpec.AgedInv | src/arp/arp.c:195-213 | so does the tick of an entry: expiry, retry or give-up |
| Arp.Cache.constructor | src/arp/arp.c:8-13 | 64 free entries |
| Arp.Cache.Lookup | src/arp/arp.c:15-22 | finds the live entry of an address if and only if there is one |
| Arp.Cache.Drain | src/arp/arp.c:57-58 | the packets leave head first, each once |
| Arp.Cache.Choose | src/arp/arp.c:28-35 | the first free entry, else the first with the earliest deadline |
| Arp.Cache.Alloc | src/arp/arp.c:25-41 | that entry, its packets dropped |
| Arp.Cache.Bind | src/arp/arp.c:43-60 | the entry is bound and its queue sent to that MAC |
| Arp.Cache.Enqueue | src/arp/arp.c:177-187 | parked at the tail, the oldest dropped when 8 wait |
| Arp.Cache.Resolve | src/arp/arp.c:158-189 | the MAC if resolved; otherwise one pending entry for the address, and the packet parked |
| Arp.Cache.Merge | src/arp/arp.c:132-144 | any ARP packet updates a binding, only one for us creates it |
| Arp.Cache.Input | src/arp/arp.c:103-156 | malformed frames change nothing; merge, then a reply exactly to a request for us |
| Arp.Cache.Tick | src/arp/arp.c:191-215 | every entry ages by its own rule |
| ArpTheorems.StepInv | src/arp/arp.c:103-215 | every operation keeps the invariant |
| ArpTheorems.RunInv | src/arp/arp.c:103-215 | hence every run: distinct addresses, packets only with pending entries, at most 8, one to three requests |
| ArpTheorems.ParkedIsTaken | src/arp/arp.c:158-189 | in every run the packets parked for an address are those its `arp_resolve` calls gave up, in order |
| ArpTheorems.PacketsConserved | src/arp/arp.c:158-215 | in every run each packet given up to `arp_resolve` is exactly one of sent, dropped or waiting, in FIFO order; no resolution asks more than three times |
| ArpTheorems.SentWhereAnnounced | src/arp/arp.c:43-60 | a parked packet is sent only to the MAC and device of a frame from its next hop |
| ArpAnswers.AnswersAsTold | src/arp/arp.c:158-166 | in every run: an answer of `arp_resolve` is the sender address of the latest well-formed frame from that neighbour, and no tick has come 60 seconds after it |
| ArpAnswers.ToldIsAnswered | src/arp/arp.c:132-144 | in every run: what a frame for us, or from a known neighbour, told is what `arp_resolve` answers until the neighbour tells again, 60 seconds are over or the cache fills |
| ArpAnswers.FirstAsk | src/arp/arp.c:168-176 | in every run: the first call for an unknown neighbour asks once and waits one second |
| ArpAnswers.SilentIsGivenUp | src/arp/arp.c:191-215 | in every run: an overdue resolution asks again; after the third time it is given up and nothing waits |
| ArpAnswers.ResolutionSends | src/arp/arp.c:53-59 | in every run: all that waits for a neighbour is sent in order on the first frame that tells its address |
| ArpAnswers.RoomKeepsAll | src/arp/arp.c:177-187 | in every run: a packet parked while fewer than eight wait displaces none |
| ArpAnswers.RequestsAreAnswered | src/arp/arp.c:146-152 | in every run: each well-formed request for us is answered to its sender once, and nothing else is |

## Left out

- TcpControlBlock.Tcb.Close: is not called in SYN-RECEIVED, where the source counts the unacknowledged SYN as data; the socket interface does not reach that call.
- TcpControlBlock.Tcb.SendSegment: options other than MSS, PSH and URG, and the segment bytes are not part of a segment value; the checksum is proved on bytes in `Checksum`.
- TcpControlBlock.Tcb.Input: the segment belongs to this block and is well formed; LISTEN, the accept queue, the lookup by addresses and ports and the option parser are not modelled. A full backlog is an input.
- TcpTheorems.NoStall: CLOSING is not among the states of the claim, since the source sends nothing there; `ClosingIsMute` and `ClosingEnds` say exactly what it does.
- Fragmentation.Output: the MTU is at least 28; below that the loop of the source does not advance. The route lookup and the drawing of the identification are inputs.
- ReassemblyRuns.SendReceive: the source address is a unicast address, as `ip_input` demands.
- Forwarding.Forward: the ICMP errors and the hand-over to ARP are the verdict, not messages.
- Reassembly.Slot.Store: the saved header is a sequence, not a 60-byte array; the payload buffer stays with its slot instead of being allocated and freed.
- Arp.Cache.Resolve: the wait queue is a sequence; the linked queue itself is proved in `PacketQueue`.
- The C structure `tcp_cb` is split into its send half, receive half, timer, congestion state and outbox, which are separate objects here.
- Blocking loops of the socket calls, initial sequence numbers, the socket and connection tables, 64-bit time wrap-around.
- ICMP generation, Ethernet and UDP demultiplexing, statistics, the CLI, devices and logging: single-branch checks or input and output.
- Memory allocation failure and packet buffer headroom.
