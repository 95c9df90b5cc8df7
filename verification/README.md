# Proofs about the CS144 TCP stack, a worker pool and two text codecs

This project models the parts of the repository in which several pieces of state have to stay consistent over
arbitrary runs, and proves what those runs guarantee. `dafny verify dfyconfig.toml` checks all of it.

## The TCP stack (`CS144_note`)

| file | what it models |
|---|---|
| `MachineInts.dfy`, `Wrap32.dfy` | 64-bit wrap-around, and 32-bit sequence numbers (section 3.4 of RFC 9293) |
| `ByteStream.dfy` | the bounded FIFO, as an object and as a value: everything accepted, and how much of it was popped |
| `Assembly.dfy` | what a reassembler must do, as a sparse map from stream index to byte; no cache, no cases |
| `Intervals.dfy` | the ordered cache of both reassemblers (`std::set` by first index only, `std::map`), and the walk over it |
| `ReassemblerV1.dfy`, `ReassemblerV2.dfy` | the two implementations as objects, each refining `Assembly` |
| `OneStream.dfy`, `Lockstep.dfy` | reassembling pieces of one text: order independence, end of stream, both implementations compared, and where they differ |
| `Segments.dfy`, `Receiver.dfy` | the messages and the receiving endpoint |
| `Sender.dfy`, `SenderLaws.dfy` | the sending endpoint in its normal mode, and what its runs keep |
| `Probing.dfy`, `ZeroWindow.dfy`, `SentBytes.dfy` | both modes of the sender: when it probes, what a probe and its answer do and break, and that only written bytes are sent |
| `TcpSender.dfy` | the sender and its timer as objects, refining the functions of `Sender` and `Probing` |
| `Protocol.dfy`, `EndToEnd.dfy` | both endpoints over a channel that loses, duplicates, delays and reorders: what every run keeps |
| `FlowControl.dfy` | that what is transmitted fits into the receiver, and when it does not |
| `FinApart.dfy`, `Recovery.dfy` | before a FIN arrives: a way on from losing everything, to an empty queue and a closed stream |
| `EarlyFin.dfy`, `RepeatedFin.dfy` | when the FIN is counted too early, and when it never is |
| `Handshake.dfy`, `Pitfalls.dfy` | concrete inputs and runs on which the code goes wrong |

A run of `Protocol` interleaves writes, closes, pushes, ticks, deliveries of any segment ever sent, acknowledgements,
deliveries of any acknowledgement ever sent (with a number and a non-zero window) and reads. Losing a message is never
delivering it; `Protocol.Lost` is the state in which everything under way has been lost. A stream is shorter than 2^31
bytes.

From every state that a run reaches before a FIN arrives there is a way on that completes the transfer, although the
channel has just lost everything (`Recovery.EveryRunCompletes`). Once a FIN has arrived that can fail, in both of the
ways in which the code miscounts it: `EarlyFin.EarlyFinLosesByte` and `RepeatedFin.RepeatedFinStaysOutstanding` are runs
after which no way on exists.

The receiver object's contract is a relation (`Receiver.Received`): between substrings that contradict each other it
leaves open which byte is kept. `Protocol.OnlyOneOutcome` shows that for segments of one stream this relation is the
function used in the runs. The reassemblers themselves are pinned down byte by byte (`Assembly.Resolved`): which of two
contradicting bytes stays depends on where the cached strings start and end, and differs between the two versions.

## The worker pool (`test_code/ChatServer`)

`WorkerPool.dfy` has the worker loop and the bodies of `SendTask` and `KillAll` as steps that interleave freely, with
spurious wake-ups and signals that may wake several sleepers; `PoolProgress.dfy` bounds every run by what its calls pay
for, and says when a pool is at rest; `PoolShutdown.dfy` bounds every shutdown by a measure of its own;
`ThreadPool.dfy` has the callers' side as an object whose methods are runs of those steps.

## The codecs

`Frames.dfy` is the length-prefixed framing of the calculator server and client, with decimal printing, `std::stoi` and
the 16-bit and unsigned 64-bit arithmetic of the code. `HttpHeaders.dfy` is the HTTP/1.0 head (section 4.2 of RFC 1945):
receiving in pieces, the request line, the header map, and printed responses.

## Where the code and its description differ

Each of these is stated as an exact condition, together with a concrete input, state or run.

- `unwrap` (`CS144_note/Lab2.md:151-193`) is the search for the nearest candidate except in the last of the 2^32 cycles,
  where the nearest candidate would need 65 bits (`Wrap32.UnwrapIsNearest`, `Pitfalls.UnwrapsTooLow`).
- `peek` shows at most 128 bytes (`CS144_note/Lab0.md:433-436`), but a segment may pop up to 1000 after one `peek`
  (`CS144_note/Lab3.md:286-292`): a push loses bytes exactly when its first segment asks for more than `peek` shows
  (`SenderLaws.PushConserves`, `Pitfalls.RunLosesOneByte`).
- Once the SYN is sent and while the window is overrun, a FIN is still sent as soon as the stream is done, because the
  difference at `CS144_note/Lab3.md:238` is unsigned; nothing else is (`SenderLaws.OverrunSendsOnlyFin`,
  `Pitfalls.FinOverrunsWindow`). The push of the SYN always starts an overrun, since the window is still zero. Hence up
  to 65536 sequence numbers may be in flight, not 65535.
- In the second reassembler an empty substring closes the stream whenever the end is known and nothing is pending
  (`CS144_note/Lab1.md:686-691`), possibly too early (`OneStream.ClosesTooEarly`, `Pitfalls.EmptyLastClosesEarly`); and
  an end learned after everything was pushed never closes it (`OneStream.ClosesExactlyAtEnd`,
  `Pitfalls.LateEndNeverCloses`).
- Once it knows the end, the first reassembler drops substrings that reach it without being marked as the last
  (`CS144_note/Lab1.md:200-201`), even if they carry missing bytes; and an empty substring closes its stream only if it
  is the last one, everything before it was pushed and the end is new (`CS144_note/Lab1.md:203-208`), so never too
  early. Elsewhere the two versions agree (`Lockstep.FirstDiffers`, `Lockstep.Compare`,
  `Pitfalls.FirstDropsMissingByte`).
- A FIN is counted when exactly one is owed and nothing is pending (`CS144_note/Lab2.md:297-301`), even if bytes before
  it are missing (`EarlyFin.FinCounts`); `EarlyFin.EarlyFinLosesByte` is a run after which the byte is never sent again.
  If copies of the FIN arrive while something is pending, more than one is owed, and then none is ever counted
  (`RepeatedFin.NeverCounted`): `RepeatedFin.RepeatedFinStaysOutstanding` is a run after which everything is pushed and
  the stream closed, but the FIN is retransmitted for ever.
- A segment that overtakes the SYN sets the error flag of the receiving stream (`CS144_note/Lab2.md:262-264`), and
  nothing resets it: every later acknowledgement carries a reset, also after the SYN has arrived
  (`Receiver.ReceiveKeepsValid`, `EndToEnd.ErrorForGood`, `Pitfalls.OvertakenSynIsReset`).
- The time-out doubles in 64-bit arithmetic and reaches zero in the end; it then stays zero, with every tick
  retransmitting, until new data is acknowledged (`SenderLaws.ClockBelowTimeout`, `Pitfalls.TimeoutReachesZero`,
  `Pitfalls.ZeroTimeoutStays`).
- A zero-window probe with segments outstanding repeats the front of the queue under the next fresh sequence number and
  cuts the queued segment to one byte (`ZeroWindow.ProbeIsTruthful`, `ZeroWindow.ProbeKeepsQueuedBytes`,
  `Pitfalls.ProbeCutsAndLies`). This is why the end-to-end results are about non-zero windows. A second acknowledgement
  before the first probe takes the last element of an empty list (`ZeroWindow.AnswersDefined`).
- The answer to a probe with a fresh byte is taken for its acknowledgement without looking at the number
  (`CS144_note/Lab3.md:481-489`). When a receiver whose window is still closed rejects the byte, it is neither queued
  nor buffered nor remembered, and never sent again (`ZeroWindow.AnswerAccounts`, `SentBytes.RejectedProbeIsForgotten`,
  `Receiver.ClosedWindowRejects`, `Pitfalls.RejectedProbeLosesByte`).
- The window of an acknowledgement is taken over even if a newer one has come before (`CS144_note/Lab3.md:340-348`). The
  sender then believes in room that has been used up, exactly if that window, counted from what is acknowledged by now,
  goes beyond what the receiver holds (`FlowControl.TransmittedFits`, `FlowControl.OldWindowOverruns`).
- A frame longer than 65535 bytes is not read back (`Frames.FrameDecodes`, `Frames.LongFrameIsEmpty`), and a buffer that
  ends within three characters of the delimiter is taken whole, because the size check wraps around
  (`Frames.AcceptsWholeFrames`, `Frames.HeaderAlone`, `Frames.SplitDoesNotMatter`).
- A header with `": "` or a line break in its key, or a line break in its value, does not survive printing and parsing
  (`HttpHeaders.ParseInvertsPrint`, `HttpHeaders.UncleanHeader`); a word of the request line is split off correctly only
  if its space comes within 65536 characters (`HttpHeaders.WordSplits`, `HttpHeaders.LongWordIsEmpty`).

## Model

| member | source | states |
|---|---|---|
| Wrap32.UnwrapValue | CS144_note/Lab2.md:151-193 | the unwrapped number is congruent to the raw value, and lies within 2^31 of the checkpoint unless it is in the first cycle or past the last one |
| Wrap32.UnwrapIsNearest | CS144_note/Lab2.md:135-193 | the constant-time computation returns the candidate nearest to the checkpoint, the lower one on a tie, if and only if that candidate fits in 64 bits |
| Wrap32.WrapUnwrap | CS144_note/Lab2.md:130-193 | unwrap(wrap(n)) == n exactly when no other candidate is nearer, for every checkpoint below 2^64 - 2^32 |
| ByteStreams.Stream.Push | CS144_note/Lab0.md:380-406 | what is accepted is a prefix of the data, the longest that fits, behind the bytes accepted before |
| ByteStreams.Stream.Pop | CS144_note/Lab0.md:438-446 | popped bytes followed by what stays buffered are what was buffered; at most what is there is popped |
| ByteStreams.ByteStream.constructor | CS144_note/Lab0.md:373 | an open, empty stream |
| ByteStreams.ByteStream.AvailableCapacity | CS144_note/Lab0.md:413-416 | capacity minus accepted-but-not-popped bytes |
| ByteStreams.ByteStream.Peek | CS144_note/Lab0.md:433-436 | the oldest buffered bytes, at most 128 of them |
| ByteStreams.ByteStream.BytesBuffered | CS144_note/Lab0.md:448-451 | pushed minus popped |
| ByteStreams.ByteStream.IsFinished | CS144_note/Lab0.md:423-426 | closed and everything accepted has been popped |
| ByteStreams.ByteStream.Push | CS144_note/Lab0.md:380-406 | the longest prefix that fits is appended to the accepted bytes, and nothing else changes |
| ByteStreams.ByteStream.Close | CS144_note/Lab0.md:408-411 | the stream is closed, its bytes untouched |
| ByteStreams.ByteStream.Pop | CS144_note/Lab0.md:438-446 | the oldest bytes leave the buffer, counted as popped |
| Assembly.InsertMeaning | CS144_note/Lab1.md:127-147 | after an insertion the known bytes are the old ones and those of the substring inside window and stream, each from one of the two; pushed is the longest run known without a gap, and what was pushed stays |
| Assembly.EndLearnedOnce | CS144_note/Lab1.md:649-684 | the first substring marked as the last decides where the stream ends, and nothing changes that later |
| Assembly.InsertedAgree | CS144_note/Lab1.md:127-147 | when the substring agrees with what is known, the outcome is unique |
| Assembly.KeepingIsUnique | CS144_note/Lab1.md:773-838 | when it does not, the outcome is unique once it is said at which indices cached bytes stay |
| Intervals.TotalCounts | CS144_note/Lab1.md:596-599 | the sum of the lengths of an ordered cache is the number of distinct indices it holds |
| Intervals.WinsInFirst | CS144_note/Lab1.md:278-306 | in the first version the new string wins against every cached one that does not contain it as it came |
| Intervals.WinsInSecond | CS144_note/Lab1.md:791-809 | in the second version it wins against those that it covers or that start inside it |
| Intervals.LosesInSecond | CS144_note/Lab1.md:811-820 | and loses against those that start before it |
| Intervals.WalkTake | CS144_note/Lab1.md:791-820 | taking an entry that meets the string out of the cache keeps the walk: the bytes merged so far and who won them, order, size |
| Intervals.WalkContained | CS144_note/Lab1.md:785-789 | a string inside an entry adds nothing, and nothing has been taken out before |
| Intervals.WalkEnd | CS144_note/Lab1.md:834-835 | the final insert finds no entry with an equal first index; the cache is ordered, in the window, and holds exactly the merged bytes; `std::set::insert` and map assignment agree |
| Intervals.DrainedIsSettled | CS144_note/Lab1.md:732-771 | pushing from the front until a gap pushes exactly the longest known run |
| ReassemblerV2.Reassembler.constructor | CS144_note/Lab1.md:347-357 | nothing known, end unknown; the awaited index is right if and only if the stream has not been written to |
| ReassemblerV2.Reassembler.WindowFilter | CS144_note/Lab1.md:601-647 | what passes is exactly the part of the substring inside the window; what is rejected has no byte in it |
| ReassemblerV2.Reassembler.EndFilter | CS144_note/Lab1.md:649-706 | the end is learned once, later bytes are cut, and an empty substring with nothing cached closes the stream |
| ReassemblerV2.Reassembler.CacheIn | CS144_note/Lab1.md:773-838 | through the six overlap cases the cache stays ordered, disjoint, consistent, in the window and counted, and knows exactly old union new, with the winner of every contradicted byte determined |
| ReassemblerV2.Reassembler.Write | CS144_note/Lab1.md:732-771 | pushes the longest contiguous run and keeps the rest; the left-over branch is never taken |
| ReassemblerV2.Reassembler.Admit | CS144_note/Lab1.md:568-582 | both filters together pass exactly the bytes inside the window and before the end |
| ReassemblerV2.Reassembler.Absorb | CS144_note/Lab1.md:571-586 | the filters and the cache in a row |
| ReassemblerV2.Reassembler.Insert | CS144_note/Lab1.md:565-594 | the whole pipeline keeps the cache invariant and refines the sparse map, down to the winner of every contradicted byte |
| ReassemblerV2.Reassembler.BytesPushed | CS144_note/Lab1.md:593 | the awaited index is the number of bytes pushed |
| ReassemblerV2.Reassembler.BytesPending | CS144_note/Lab1.md:596-599 | the number of distinct known indices that are not pushed yet |
| ReassemblerV2.Reassembler.Read | CS144_note/Lab0.md:438-446 | a read moves the window without breaking the cache invariant |
| ReassemblerV1.Reassembler.constructor | CS144_note/Lab1.md:118-125 | nothing known, end unknown; the awaited index is right if and only if the stream has not been written to |
| ReassemblerV1.Reassembler.EndOfStream | CS144_note/Lab1.md:197-208 | what is dropped because of the end, when the end is learned, and that this closes the stream at once for an empty substring at the awaited index with nothing cached, and for no other |
| ReassemblerV1.Reassembler.CutCacheIn | CS144_note/Lab1.md:257-321 | through its own overlap cases the map stays ordered, disjoint and counted, and knows exactly old union new cut to the window, with the winner of every contradicted byte determined |
| ReassemblerV1.Reassembler.WriteOut | CS144_note/Lab1.md:226-243 | pushes the longest contiguous run, and closes the stream when that reaches its end |
| ReassemblerV1.Reassembler.Insert | CS144_note/Lab1.md:195-249 | in every case the invariant is kept, known bytes become old union new with the winner of every contradicted byte determined, some of them are pushed in order, and what stops the pushing and closes the stream is said; an end that has been reached already closes the stream for an empty substring at the awaited index with nothing cached, and for no other; unless substrings have contradicted each other about the end, the outcome is that of the sparse map under its own rules for the end |
| ReassemblerV1.Reassembler.CacheAndPush | CS144_note/Lab1.md:210-249 | behind the rules for the end, the same |
| ReassemblerV1.TakenIsInserted | CS144_note/Lab1.md:195-249 | for non-empty substrings that are not dropped, those rules agree with the second version |
| ReassemblerV1.Reassembler.BytesPending | CS144_note/Lab1.md:251-255 | the number of distinct known indices that are not pushed yet |
| ReassemblerV1.Reassembler.Read | CS144_note/Lab0.md:438-446 | a read moves the window without breaking the invariant |
| OneStream.PieceKeepsText | CS144_note/Lab1.md:127-147 | pieces of one text only ever yield bytes of that text at their own indices, with a unique outcome |
| OneStream.SameKnowledge | CS144_note/Lab1.md:127-147 | two reassemblers of one text that know the same indices are in the same state |
| OneStream.KnownAfter | CS144_note/Lab1.md:565-647 | after any list of arrivals, known is what was known and everything covered below the tail of the window |
| OneStream.CoverageDecides | CS144_note/Lab1.md:732-838 | lists that cover the same indices of the window lead to the same state, whatever their order, overlaps and repetitions |
| OneStream.OrderIndependent | CS144_note/Lab1.md:732-838 | every order of the same multiset of substrings reaches the same state |
| OneStream.LongestCoveredPrefix | CS144_note/Lab1.md:134-143 | from the empty state, pushed is the longest covered prefix of the window and pending the covered rest |
| OneStream.ClosesExactlyAtEnd | CS144_note/Lab1.md:592-593 | once the last substring was seen, after any further non-empty arrivals and reads the stream is closed exactly when everything is pushed, if and only if something was missing when the last substring arrived |
| OneStream.ClosedAtEndStays | CS144_note/Lab1.md:657-706 | closed-exactly-at-the-end is kept by every later event, and so is a missed end |
| OneStream.ClosesTooEarly | CS144_note/Lab1.md:686-691 | a substring closes the stream before its end exactly when it is empty, the end is known, nothing is pending and bytes are missing |
| Lockstep.FirstDiffers | CS144_note/Lab1.md:197-208 | on any piece of a text the first version does what is specified of the second, if and only if it does not drop it, as an unmarked one that reaches the known end with something new to show, and does not leave the stream open where the second closes it at once; and what it does in these two cases |
| Lockstep.FirstClosesAtEnd | CS144_note/Lab1.md:203-239 | the first version closes the stream only when all of the text has been pushed, and for an empty last piece as the second does |
| Lockstep.EmptyStreamCloses | CS144_note/Lab1.md:203-208 | both versions close an empty stream |
| Lockstep.DroppedShows | CS144_note/Lab1.md:200-201 | what is dropped can be seen: pushed plus pending bytes are fewer than specified |
| Lockstep.StepFirst | CS144_note/Lab1.md:195-249 | one event takes the first implementation to the specified state, except that it stays where it is if it drops the piece, and stays open if it leaves the stream open |
| Lockstep.StepSecond | CS144_note/Lab1.md:565-594 | one event takes the second implementation to the specified state |
| Lockstep.StepBoth | CS144_note/Lab1.md:195-249 | one event leaves both implementations, if they were in the same state, in the same state, except if the first drops the piece or leaves the stream open, and then they show different things |
| Lockstep.Compare | CS144_note/Lab1.md:565-594 | on every interleaving of pieces of one text with reads, empty and last pieces included, the second implementation shows the specified bytes, counts and close after every step, and the first shows the same throughout if and only if there is no piece that it drops or leaves the stream open on |
| Receiver.ReceiveKeepsValid | CS144_note/Lab2.md:260-303 | after every message the checkpoint counts the bytes pushed, nothing acknowledged is taken back, and the error flag is set exactly if it was or the SYN is still missing |
| Receiver.AckCountsPushed | CS144_note/Lab2.md:306-316 | an acknowledgement number exists exactly after a SYN, and unwraps to SYN plus bytes pushed plus counted FIN for any sender less than 2^31 away |
| Receiver.AckMonotone | CS144_note/Lab2.md:280-314 | the acknowledgement number never goes back, whatever arrives in whatever order |
| Receiver.TCPReceiver.constructor | CS144_note/Lab2.md:211-219 | closed connection, zero point 100 |
| Receiver.TCPReceiver.Receive | CS144_note/Lab2.md:260-303 | a message moves the receiver, its error flag included, as `Received` says, and keeps it valid |
| Receiver.TCPReceiver.Open | CS144_note/Lab2.md:262-279 | the first SYN, and only the first, fixes the zero point; anything else before it sets the error flag |
| Receiver.TCPReceiver.Count | CS144_note/Lab2.md:291-301 | pushed bytes are counted, and a FIN when exactly one is owed and nothing is pending |
| Receiver.WindowIsRoom | CS144_note/Lab2.md:306-321 | the window is all the room behind what has been pushed, up to 65535, and a reset is carried exactly if the stream is in error |
| Receiver.OfferIsTaken | CS144_note/Lab2.md:260-316 | a segment at the acknowledged number, within the window of the answer, is pushed whole, and no byte behind that window is kept |
| Receiver.ClosedWindowRejects | CS144_note/Lab2.md:260-316 | a segment without FIN that comes while the window is closed changes nothing about the answers |
| Receiver.TCPReceiver.Send | CS144_note/Lab2.md:306-321 | the answer of the abstract state; its window ends where the reassembler's does, unless it is 65535, and its reset is the error flag |
| SenderLaws.FreshSays | CS144_note/Lab3.md:272-312 | the segment built starts at the next sequence number and says the truth about the stream, and the counters advance by its length |
| SenderLaws.SegmentAsks | CS144_note/Lab3.md:284-293 | how many bytes a segment takes from the stream, in plain numbers: what the window leaves, at most 1000 and at most what is there; and what it takes into a window that is overrun or not known yet |
| SenderLaws.FinTakenAlong | CS144_note/Lab3.md:296-300 | a segment carries the FIN exactly if the stream is done and the window not filled exactly without it |
| SenderLaws.PushOneTakes | CS144_note/Lab3.md:284-293 | how much one segment removes from the stream, and that its payload is the front of that, cut to 128 bytes |
| SenderLaws.PushKeeps | CS144_note/Lab3.md:226-239 | every push keeps the queue gap-free and truthful, appends the new segments in order, and leaves a sender that was within its window within it |
| SenderLaws.PushFillsWindow | CS144_note/Lab3.md:226-239 | after every push the window is full, or nothing is left in the stream; and the FIN of a finished stream stays behind only in a window filled exactly |
| SenderLaws.PushConserves | CS144_note/Lab3.md:286-292 | a push transmits exactly the bytes it pops, if and only if its first segment does not ask for more than `peek` shows |
| SenderLaws.SmallStreamConserves | CS144_note/Lab3.md:286-292 | a stream of capacity at most 128 loses nothing |
| SenderLaws.LosesOneByte | CS144_note/Lab3.md:286-292 | with 129 bytes buffered and a window of 1000, the last one is popped and never transmitted |
| SenderLaws.PushFins | CS144_note/Lab3.md:296-300 | fresh FINs are counted by the flag, so there is at most one over a run |
| SenderLaws.OverrunSendsOnlyFin | CS144_note/Lab3.md:226-239 | once the SYN is sent, a push neither starts nor ends an overrun of the window, and during one sends exactly the FIN, exactly when it is due; the push of the SYN into the initial window of zero always starts one |
| SenderLaws.QueueMeans | CS144_note/Lab3.md:340-373 | the queue is empty exactly when nothing is in flight, at most 65536 sequence numbers are in flight, and every queued number unwraps exactly |
| SenderLaws.DropAckedExact | CS144_note/Lab3.md:351-359 | exactly the wholly acknowledged segments leave; a partly acknowledged one stays whole at the front |
| SenderLaws.ReceiveAckKeeps | CS144_note/Lab3.md:340-373 | an acknowledgement counts exactly if it is new and not beyond what was sent; the queue invariant is kept in all three cases |
| SenderLaws.TickKeepsTimer | CS144_note/Lab3.md:377-398 | a tick retransmits the front segment exactly on a time-out, then doubles the time-out, counts and restarts the clock; otherwise only the clock moves, and only with something outstanding; no other field changes |
| SenderLaws.AckKeepsTimer | CS144_note/Lab3.md:360-368 | only an acknowledgement of new data resets count, time-out and clock |
| SenderLaws.PushKeepsTimer | CS144_note/Lab3.md:226-239 | a push leaves the timer alone |
| SenderLaws.TimeOutFires | CS144_note/Lab3.md:377-398 | waiting for what is left of the time-out makes the front of the queue go out again |
| SenderLaws.ClockBelowTimeout | CS144_note/Lab3.md:549-572 | a tick leaves the clock below the time-out, except if that is zero already or doubles from 2^63 to zero in this tick |
| TcpSender.RetransmissionTimer.constructor | CS144_note/Lab3.md:114-120 | clock zero, initial time-out |
| TcpSender.RetransmissionTimer.TimePlus | CS144_note/Lab3.md:554-557 | the clock advances in 64-bit arithmetic |
| TcpSender.RetransmissionTimer.TimeReset | CS144_note/Lab3.md:559-562 | the clock is zero |
| TcpSender.RetransmissionTimer.RTOReset | CS144_note/Lab3.md:564-567 | the time-out is the given one |
| TcpSender.RetransmissionTimer.RTOMulti | CS144_note/Lab3.md:569-572 | the time-out doubles in 64-bit arithmetic |
| TcpSender.TCPSender.constructor | CS144_note/Lab3.md:37-57 | nothing sent, nothing in flight, no window; the first sequence number is zero |
| TcpSender.TCPSender.TakePayload | CS144_note/Lab3.md:284-293 | the payload and the stream after taking it, in all three cases of the room computation |
| TcpSender.TCPSender.PushSimple | CS144_note/Lab3.md:272-316 | one segment, as the specification function says, with all fields |
| TcpSender.TCPSender.PushWindow | CS144_note/Lab3.md:226-239 | SYN, data loop and FIN: the final state and the transmitted list are those of the recursive specification, of which `SenderLaws.PushFillsWindow`, `SenderLaws.PushKeeps` and `SenderLaws.PushConserves` speak |
| TcpSender.TCPSender.PushProbe | CS144_note/Lab3.md:403-474 | one probe, from the queue or from the stream |
| TcpSender.TCPSender.Push | CS144_note/Lab3.md:218-247 | at most one probe is out in the probing mode (`ZeroWindow.ProbeAndAnswer`), and a full push in the normal one (`SenderLaws.PushFillsWindow`) |
| TcpSender.TCPSender.ReceiveAckno | CS144_note/Lab3.md:340-372 | the loop over the queue drops what the specification drops, and timer and counters follow |
| TcpSender.TCPSender.ReceiveSimple | CS144_note/Lab3.md:319-375 | a non-zero window ends the probing (`ZeroWindow.ModeFollowsWindow`); undefined exactly with no probe to answer |
| TcpSender.TCPSender.ReceiveProbe | CS144_note/Lab3.md:476-528 | a zero window starts the probing, later ones answer probes; undefined exactly with no probe to answer |
| TcpSender.TCPSender.Receive | CS144_note/Lab3.md:204-216 | the mode follows the window of the message (`ZeroWindow.ProbesWhileClosed`); undefined exactly when probing with no probe out |
| TcpSender.TCPSender.TickSimple | CS144_note/Lab3.md:377-388 | clock, count and retransmission of the normal mode |
| TcpSender.TCPSender.TickProbe | CS144_note/Lab3.md:530-544 | a probe is repeated without back-off (`ZeroWindow.ProbeRepeated`) |
| TcpSender.TCPSender.Tick | CS144_note/Lab3.md:249-257 | the mode decides which clock rule applies |
| TcpSender.TCPSender.Retransmit | CS144_note/Lab3.md:390-398 | the segment goes out unchanged, the count grows, the time-out doubles, the clock restarts |
| ZeroWindow.AlwaysDoubled | CS144_note/Lab3.md:360-398 | in every run, probing included, the time-out is the initial one times 2 to the retransmission count, modulo 2^64 |
| ZeroWindow.AnswersDefined | CS144_note/Lab3.md:476-488 | in every run at most one probe is out, and an acknowledgement is defined exactly outside the probing mode or with a probe out |
| ZeroWindow.ModeFollowsWindow | CS144_note/Lab3.md:319-375 | after an acknowledgement the sender probes if and only if its window is zero; a non-zero window is known from then on, with no probe out |
| ZeroWindow.ProbesWhileClosed | CS144_note/Lab3.md:204-257 | in every run the sender probes if and only if the last acknowledgement closed the window, and knows that acknowledgement's window |
| ZeroWindow.ProbeAndAnswer | CS144_note/Lab3.md:403-488 | a probe carries the next number and one number only, and no other goes out before its answer; together they leave as many numbers in flight as before a fresh probe, one less than before a repeated one, the clock at zero, and the acknowledged number as the answer says |
| ZeroWindow.AnswerAccounts | CS144_note/Lab3.md:476-488 | after a fresh probe and its answer, acknowledged plus in flight is what was sent, if and only if the answer acknowledges the probe |
| ZeroWindow.ProbeRepeated | CS144_note/Lab3.md:530-544 | on a time-out exactly the probe that is out goes out again, the clock restarts, time-out and count stay; otherwise only the clock moves |
| ZeroWindow.ProbeTimesOut | CS144_note/Lab3.md:530-544 | in every run with a probe out, waiting for what is left of the time-out repeats it |
| ZeroWindow.ProbeRepeatsFront | CS144_note/Lab3.md:403-435 | a probe with something queued is the first number of the front of the queue, and what is left of that segment |
| ZeroWindow.ProbeKeepsQueuedBytes | CS144_note/Lab3.md:407-435 | a probe leaves the queued bytes alone if and only if the front segment carries the SYN or at most one byte |
| ZeroWindow.ProbeIsTruthful | CS144_note/Lab3.md:403-474 | a first probe says the truth about the stream if and only if nothing is outstanding and no FIN was sent |
| ZeroWindow.ProbeAfterRun | CS144_note/Lab3.md:403-474 | the same after every run of the protocol in which a zero window arrives |
| SentBytes.OnlyWritten | CS144_note/Lab3.md:218-257 | in every run of both modes, every payload sent is a stretch of what the application wrote |
| SentBytes.RunWritten | CS144_note/Lab3.md:218-257 | and of what it wrote behind the first `k` bytes, once these are out of stream, queue and probes |
| SentBytes.RejectedProbeIsForgotten | CS144_note/Lab3.md:476-488 | when the answer to a fresh probe with a byte does not acknowledge it, that byte is not sent again, whatever follows |
| Protocol.PushOk | CS144_note/Lab3.md:226-239 | pushing keeps the end-to-end invariant |
| Protocol.TickOk | CS144_note/Lab3.md:377-398 | retransmitting puts nothing new on the channel |
| Protocol.DeliveredPiece | CS144_note/Lab2.md:280-290 | a delivered segment reaches the reassembler at its true stream index, with its true bytes |
| Protocol.Delivered | CS144_note/Lab2.md:260-303 | delivering any segment ever sent keeps the receiver's bytes those of the transmitted stream |
| Protocol.OnlyOneOutcome | CS144_note/Lab2.md:260-303 | for a segment of the stream, the relation the receiver object satisfies has one outcome |
| Protocol.AckUnwraps | CS144_note/Lab3.md:341-348 | an acknowledgement on the channel, however old, unwraps to no more than the receiver has acknowledged |
| Protocol.DeliverAckOk | CS144_note/Lab3.md:340-373 | an old, duplicated or reordered acknowledgement keeps the invariant |
| Protocol.AckWithinSent | CS144_note/Lab2.md:313-314 | the receiver never acknowledges beyond the sender's next sequence number |
| Protocol.NextOk | CS144_note/Lab3.md:204-257 | every event keeps the end-to-end invariant |
| Protocol.RunOk | CS144_note/Lab3.md:204-257 | every run keeps the end-to-end invariant |
| EndToEnd.DeliveredInOrder | CS144_note/Lab1.md:565-594 | in every run, with losses, duplicates, reordering, retransmissions and FINs, the receiver has pushed a prefix of the transmitted bytes, and stores later bytes at their places |
| EndToEnd.RunConserves | CS144_note/Lab3.md:272-316 | over any run what is transmitted is exactly what is removed from what was written, if and only if no push asks for more than `peek` shows |
| EndToEnd.WrittenArrivesInOrder | CS144_note/Lab3.md:272-316 | the same for every run from the start, and then the receiver has pushed a prefix of what the application wrote |
| EndToEnd.PushConservesWorld | CS144_note/Lab3.md:286-292 | a push keeps transmitted equal to popped, if and only if it does not ask for more than `peek` shows |
| EndToEnd.SmallStreamIsCareful | CS144_note/Lab0.md:433-436 | with a sending stream of at most 128 bytes no push in any run asks for too much |
| EndToEnd.NothingUnsentAcknowledged | CS144_note/Lab3.md:345-348 | in every run, no acknowledgement on the channel exceeds what was sent, the sender's view never exceeds the receiver's, and at most one fresh FIN is sent |
| EndToEnd.GoneIsPushed | CS144_note/Lab3.md:589-592 | in every run all bytes of the segments that left the queue are in the receiver's stream, if and only if no FIN counted too early was acknowledged |
| EndToEnd.GoneIsPushedUnlessEarly | CS144_note/Lab3.md:589-592 | in particular in every run in which a counted FIN means that everything transmitted was pushed |
| EndToEnd.RetransmissionAdvances | CS144_note/Lab3.md:390-398 | in every run, even if the channel then loses everything, the next time-out puts exactly the front of the queue on it, and delivering that to a receiver with room makes it acknowledge something new |
| EndToEnd.ErrorForGood | CS144_note/Lab2.md:262-321 | once the error flag is set, it stays, and every later answer carries a reset |
| FinApart.RunApart | CS144_note/Lab3.md:284-300 | in every run everything transmitted is a gap-free list that ends with the FIN, and before a FIN arrives the receiver has only bytes of the segments before it |
| Recovery.Retransmits | CS144_note/Lab3.md:377-398 | a tick as long as the timer still runs puts the front of the queue on the channel |
| Recovery.DeliverFront | CS144_note/Lab2.md:260-303 | the front of the queue, delivered to a receiver with room, is acknowledged beyond what the sender knew |
| Recovery.AnswerArrives | CS144_note/Lab3.md:340-373 | an answer of a receiver with room makes the sender know all that is acknowledged |
| Recovery.Round | CS144_note/Lab3.md:340-398 | reading, a time-out, the delivery of what it sent, and the answer move the sender on |
| Recovery.FinReceived | CS144_note/Lab2.md:280-301 | to a receiver that has everything before it, the segment with the FIN brings all that there is room for, has its FIN counted, and closes the stream when all has been pushed |
| Recovery.FinRounds | CS144_note/Lab3.md:340-398 | however small the receiver's window, copies of the segment with the FIN and one answer close the stream and empty the queue |
| Recovery.Recovers | CS144_note/Lab3.md:340-398 | from every state of a run before a FIN arrives, rounds lead to an empty queue, with everything transmitted delivered and the stream closed if the FIN was sent |
| Recovery.PushProgress | CS144_note/Lab3.md:226-239 | with nothing in flight, an open window and something to send, a push removes bytes from the stream or sends the FIN |
| Recovery.Completes | CS144_note/Lab3.md:204-257 | such rounds and pushes lead to a state in which, unless the FIN was already sent, the input is drained, and the FIN is across if the input is closed |
| Recovery.EveryRunRecovers | CS144_note/Lab3.md:340-398 | after every run in which no FIN has arrived, if the channel loses all it carries, there is a way on that delivers everything transmitted, FIN included, and empties the queue, on which only messages put out on it are delivered |
| Recovery.EveryRunCompletes | CS144_note/Lab3.md:204-257 | and one that then also sends and delivers what is buffered, and the FIN if the input is closed |
| Recovery.EverythingWrittenArrives | CS144_note/Lab3.md:204-257 | with a sending stream of at most 128 bytes, after every run without a FIN there is a way on from losing everything after which the receiver has pushed exactly what the application wrote, and is closed if the input is |
| EndToEnd.TimeoutDoubles | CS144_note/Lab3.md:377-398 | in every run the time-out is the doubled initial one, the clock is below it unless it wrapped to zero, and stands still with nothing outstanding |
| FlowControl.TransmittedFits | CS144_note/Lab3.md:340-373 | in every run the sender never knows a window beyond the receiver's room, if and only if no acknowledgement is overtaken so far that its window has been used up; and then everything transmitted, apart from the payload of the first segment, is something the receiver has room for |
| FlowControl.NothingCutOff | CS144_note/Lab2.md:260-303 | in such a state every byte of a delivered segment is known to the receiver afterwards |
| FlowControl.OldWindowOverruns | CS144_note/Lab3.md:340-348 | a run in which four bytes are sent to a receiver with room for three, because an old acknowledgement arrives last |
| EarlyFin.FinCounts | CS144_note/Lab2.md:280-301 | for every message after a SYN, a FIN is counted exactly when one is owed and everything known has become contiguous, and too early exactly when that does not reach the end of the stream |
| EarlyFin.CountedBeforeLostByte | CS144_note/Lab2.md:294-301 | a bare FIN behind a lost byte is counted at once |
| EarlyFin.CountedByLaterSegment | CS144_note/Lab2.md:297-301 | a segment without FIN makes one owed count, with a byte still missing |
| EarlyFin.CountedBeyondWindow | CS144_note/Lab2.md:287-301 | a segment that does not fit into the window has its FIN counted all the same |
| EarlyFin.StuckForever | CS144_note/Lab3.md:351-369 | whatever follows that run, the receiver pushes nothing, unless a copy of the lost segment gets through |
| EarlyFin.EarlyFinLosesByte | CS144_note/Lab2.md:294-301 | a run after which a byte gets into the receiver's closed stream only by a copy of its one segment still under way; once the channel has lost that, it is never sent again |
| RepeatedFin.NeverCounted | CS144_note/Lab2.md:294-301 | whatever follows a state in which two FINs are owed, none is counted, and segments stay outstanding |
| RepeatedFin.RepeatedFinStaysOutstanding | CS144_note/Lab2.md:294-301 | a run in which the FIN arrives twice while a byte is missing, after which everything is pushed and the stream closed, but no way on empties the queue |
| Pitfalls.UnwrapsTooLow | CS144_note/Lab2.md:179-190 | a checkpoint in the last cycle for which a nearer candidate exists |
| Pitfalls.EmptyLastClosesEarly | CS144_note/Lab1.md:686-691 | an empty last substring closes the stream before its only byte |
| Pitfalls.LateEndNeverCloses | CS144_note/Lab1.md:592-593 | a stream whose end is learned late stays open whatever follows |
| Pitfalls.FirstDropsMissingByte | CS144_note/Lab1.md:200-201 | of two bytes the second came first, as the last; the first version then drops a substring with both, and the specification pushes both |
| Pitfalls.RunLosesOneByte | CS144_note/Lab3.md:286-292 | a run that writes 129 bytes and never transmits the last |
| Pitfalls.FinOverrunsWindow | CS144_note/Lab3.md:238-239 | a run to two bytes in flight and a window of one, in which the FIN is sent all the same |
| Pitfalls.Unanswered | CS144_note/Lab3.md:377-398 | any number of time-outs without answer can follow one another, each counted |
| Pitfalls.TimeoutReachesZero | CS144_note/Lab3.md:569-572 | a run of 61 retransmissions after which a time-out of 1000 ms is zero |
| Pitfalls.ZeroTimeoutStays | CS144_note/Lab3.md:377-398 | a time-out of zero stays zero, and every tick retransmits, until new data is acknowledged |
| Pitfalls.ProbeCutsAndLies | CS144_note/Lab3.md:407-422 | a run to a closed window with two bytes queued; the probe says the first again as the third, and drops the second |
| Pitfalls.RejectedProbeLosesByte | CS144_note/Lab3.md:476-488 | a run in which the probe with the only byte is answered by the same number and a closed window, after which that byte is never sent again |
| Pitfalls.OvertakenSynIsReset | CS144_note/Lab2.md:262-264 | a run in which the FIN overtakes the SYN, after which every answer, whatever follows, carries a reset |
| WorkerPool.ApplyOk | test_code/ChatServer/mythread.hpp:143-181 | every step of workers and callers keeps mutual exclusion, the tasks, the exit tokens and the wake-up guarantee |
| WorkerPool.RunOk | test_code/ChatServer/mythread.hpp:143-181 | so does every interleaving |
| WorkerPool.Conservation | test_code/ChatServer/mythread.hpp:157-172 | in every interleaving tasks start in the order of submission, submitted is queued plus running plus finished, and exit tokens are those queued plus the workers past their loop |
| WorkerPool.NoLostWakeUp | test_code/ChatServer/mythread.hpp:147-167 | with a non-empty queue and no caller inside its critical section somebody in the loop is awake, and nobody sleeps while an exit token is queued |
| WorkerPool.SignalOk | test_code/ChatServer/mythread_pool.hpp:60-67 | one signal per task is enough |
| WorkerPool.BroadcastOk | test_code/ChatServer/mythread_pool.hpp:39-45 | after the broadcast nobody sleeps |
| PoolProgress.RunPaid | test_code/ChatServer/mythread.hpp:143-181 | in every run the number of steps is bounded by a fixed cost for each call and each spurious wake-up in it, less what is still ahead |
| PoolProgress.StepOrRest | test_code/ChatServer/mythread.hpp:143-181 | a pool goes on by itself until no caller is inside its critical section and every worker sleeps or is killed |
| PoolProgress.RestMeansDone | test_code/ChatServer/mythread.hpp:147-181 | at rest the queue is empty and everything submitted is finished, unless all workers are killed |
| PoolProgress.WorkGetsDone | test_code/ChatServer/mythread_pool.hpp:53-68 | so in every run: either the pool can go on without calls and spurious wake-ups, which it does only for a bounded number of steps, or its work is done or its workers are killed |
| PoolShutdown.ShutdownStep | test_code/ChatServer/mythread_pool.hpp:34-46 | after KillAll every step, spurious wake-ups included, decreases a natural number, except that another KillAll adds its own work to it |
| PoolShutdown.NeverStuck | test_code/ChatServer/mythread.hpp:143-181 | a shutdown can always go on without relying on spurious wake-ups, until every worker is killed |
| PoolShutdown.KilledMeansDrained | test_code/ChatServer/mythread.hpp:169-181 | when every worker is killed, every submitted task was finished, once |
| PoolShutdown.ShutdownDrains | test_code/ChatServer/mythread_pool.hpp:34-46 | from the first KillAll of any run on, with no later SendTask but any further KillAll such as the destructor's, the number of steps is bounded and the end state has all tasks finished and all workers killed |
| ThreadPool.MyThreadPool.constructor | test_code/ChatServer/mythread_pool.hpp:21-32 | the given number of workers, all starting, and an empty queue |
| ThreadPool.MyThreadPool.SendTask | test_code/ChatServer/mythread_pool.hpp:53-68 | without workers nothing happens; otherwise the call is a run of the protocol's steps |
| ThreadPool.MyThreadPool.KillAll | test_code/ChatServer/mythread_pool.hpp:34-46 | the call is a run of one token per worker and a broadcast |
| Frames.StoiToString | test_code/CalculatorServer_v2/Protocol.cc:29 | reading back a printed length gives it, exactly as long as it is an `int` |
| Frames.StoiReads | test_code/CalculatorServer_v2/Protocol.cc:29 | white space, a sign, digits and anything behind them are read as the signed number, if that is in range |
| Frames.DeserializeFrame | test_code/CalculatorServer_v2/Protocol.cc:66-72 | a frame of at most 65535 bytes yields its payload, line breaks in it or not |
| Frames.TakeFrame | test_code/CalculatorServer_v2/Protocol.cc:28-42 | a frame at the front of the buffer is taken whole, with the exact remainder left |
| Frames.FrameDecodes | test_code/CalculatorServer_v2/Protocol.cc:28-42 | a frame decodes to its payload and the exact remainder, if and only if it has at most 65535 bytes |
| Frames.AcceptsWholeFrames | test_code/CalculatorServer_v2/Protocol.cc:31-35 | the size check accepts exactly whole frames, if and only if four bytes from the delimiter on are there |
| Frames.HeaderAlone | test_code/CalculatorServer_v2/Protocol.cc:31-35 | a length line arriving alone is taken for an empty message |
| Frames.PartialFrameWaits | test_code/CalculatorServer_v2/Protocol.cc:21-35 | a proper prefix of a frame is not taken, unless it ends within three characters of the delimiter |
| Frames.UnguardedTakesAll | test_code/CalculatorServer_v2/Protocol.cc:31-40 | one that does is taken whole |
| Frames.LongFrameIsEmpty | test_code/CalculatorServer_v2/Protocol.cc:28-40 | a payload of 65536 bytes is taken for an empty message |
| Frames.WireDecodes | test_code/CalculatorServer_v2/Protocol.cc:28-42 | concatenated frames decode one by one to their payloads, with the exact remainder kept |
| Frames.SplitDoesNotMatter | test_code/CalculatorServer_v2/Protocol.cc:17-45 | however the bytes are split, the server receives the payload and loses nothing behind it, if and only if no attempt is made on a buffer that ends within three characters of the delimiter |
| Frames.GarbageCrashes | test_code/CalculatorServer_v2/Protocol.cc:17-45 | bytes that no number can start with make the server throw exactly when a line break has come, however they arrive |
| Frames.ProtocolServer.Obtain | test_code/CalculatorServer_v2/Protocol.cc:17-45 | the receiving loop, outcome and buffer |
| Frames.ProtocolClient.Obtain | test_code/CalculatorClient/Protocol.cc:22-51 | a whole frame yields its payload and leaves what follows it; a part of one yields nothing and stays, exactly if it does not end within three characters of the delimiter |
| HttpHeaders.FindStable | test_code/MyHTTP_1.0/HTTPforServer/HttpMessageCodec.cc:22-28 | what is found in a prefix is found at the same place when more bytes arrive |
| HttpHeaders.ParseInvertsPrint | test_code/MyHTTP_1.0/HTTPforServer/HttpMessageCodec.cc:107-111 | parsing the printed block gives the headers back, if and only if no key has a colon-space or line break and no value a line break |
| HttpHeaders.PrintInvertsParse | test_code/MyHTTP_1.0/HTTPforServer/HttpMessageCodec.cc:165-205 | what is read from a block prints as that block again: nothing is lost |
| HttpHeaders.ParsesExactlyPrints | test_code/MyHTTP_1.0/HTTPforServer/HttpMessageCodec.cc:165-205 | a block is read without the exit on an error if and only if it is the print of clean headers |
| HttpHeaders.LaterLineWins | test_code/MyHTTP_1.0/HTTPforServer/HttpMessageCodec.cc:203 | of several lines with one key the last is in the map |
| HttpHeaders.UncleanHeader | test_code/MyHTTP_1.0/HTTPforServer/HttpMessageCodec.cc:186-193 | a key with a colon and a space comes back split elsewhere |
| HttpHeaders.MapRoundTrip | test_code/MyHTTP_1.0/HTTPforServer/HttpMessageCodec.cc:165-205 | the header map comes back for every enumeration order, exactly if its entries are clean |
| HttpHeaders.ChunksDoNotMatter | test_code/MyHTTP_1.0/HTTPforServer/HttpMessageCodec.cc:14-28 | request and remaining buffer depend only on the text up to the first blank line, not on how it arrives; with nothing more arriving, even a request already buffered is given up |
| HttpHeaders.HeadHasBreak | test_code/MyHTTP_1.0/HTTPforServer/HttpMessageCodec.cc:31-36 | the exit on a head without line break is never taken |
| HttpHeaders.RequestRoundTrip | test_code/MyHTTP_1.0/HTTPforServer/HttpMessageCodec.cc:26-58 | a printed request is recovered, whatever follows it and however its headers are ordered, if and only if its fields are clean |
| HttpHeaders.ParsedRequestIsClean | test_code/MyHTTP_1.0/HTTPforServer/HttpMessageCodec.cc:30-58 | every request that the parser yields, on any text, has clean fields |
| HttpHeaders.RequestReceived | test_code/MyHTTP_1.0/HTTPforServer/HttpMessageCodec.cc:11-65 | however the bytes of a printed request and of what follows it arrive, it is obtained, with exactly what follows its headers left, if and only if its fields are clean |
| HttpHeaders.HttpMessageCodec.Obtain | test_code/MyHTTP_1.0/HTTPforServer/HttpMessageCodec.cc:11-65 | the receiving loop, outcome and buffer |
| HttpHeaders.HttpMessageCodec.ReadHead | test_code/MyHTTP_1.0/HTTPforServer/HttpMessageCodec.cc:30-58 | the request line, then the headers if there are any |
| HttpHeaders.WordSplits | test_code/MyHTTP_1.0/HTTPforServer/HttpMessageCodec.cc:143-157 | splitting off a word loses nothing and stops at the first space, if and only if that comes within 65536 characters |
| HttpHeaders.LongWordIsEmpty | test_code/MyHTTP_1.0/HTTPforServer/HttpMessageCodec.cc:143-157 | a word of 65536 characters is taken for an empty one and loses its first character |
| HttpHeaders.HttpMessageCodec.TakeWord | test_code/MyHTTP_1.0/HTTPforServer/HttpMessageCodec.cc:143-157 | the same of the code that does it; a line without space is taken whole |
| HttpHeaders.HttpMessageCodec.GetHeader | test_code/MyHTTP_1.0/HTTPforServer/HttpMessageCodec.cc:165-205 | the loop that consumes the block reads the map of the recursive parser, later lines winning |
| HttpHeaders.ResponseRoundTrip | test_code/MyHTTP_1.0/HTTPforServer/HttpMessageCodec.cc:103-119 | in a printed response the first line splits into version, code and state, the headers are read back in order, and what follows the blank line is the data, if and only if its fields are clean |
| HttpHeaders.HttpMessageCodec.Serialize | test_code/MyHTTP_1.0/HTTPforServer/HttpMessageCodec.cc:103-119 | the same of the printing loop |

## Left out

- Runs of both endpoints with zero windows: the first probe already breaks what they rely on
  (`ZeroWindow.ProbeIsTruthful`). Of the sender alone, time-out, mode, probes and the bytes sent are proved in such
  runs.
- Acknowledgements without a number: the code dereferences the missing value.
- The sender's own error and RST flags, and what it does on a reset: it sets the error flag of its input stream, which
  only sets RST flags in its segments, and the receiver does not look at them. The reset block at
  `CS144_note/Lab2.md:269-273` needs the SYN count to be 0 and 1 at once.
- Fairness of the channel: `Recovery.EveryRunCompletes` says that a way to complete the transfer exists, not that every
  fair channel and timer will take one. From states in which a FIN has arrived it may not exist.
- Counters beyond 2^62: reassembler and receiver are modelled for streams whose window ends below 2^63 and 2^62, and the
  acknowledged numbers of a sender below 2^63.
- ReassemblerV1.Reassembler.Insert: when a last substring puts the end at or before bytes that are pending already, so
  that two substrings contradict each other about the end, how far the loop pushes is said only up to a gap or a string
  that reaches the end; it depends on where the cached strings end.
- TcpSender.TCPSender.Receive: says that it is undefined, and not what happens, when the code takes the last element of
  an empty list.
- TcpSender.TCPSender.PushSimple: transmitted segments are returned in order where the code calls a function for each.
- WorkerPool.ApplyOk: critical sections are steps of a transition system; the thread objects, their moves and
  destructors, `ClearTrash` and the status flags other than KILLED are not modelled.
- PoolShutdown.ShutdownDrains: tasks are assumed to return.
- Empty user tasks: the code cannot tell them from exit tokens.
- The JSON inside the frames, the calculator, and sockets, logging, addresses and console loops everywhere.
- HTTP bodies: the line break left in the buffer at
  `test_code/MyHTTP_1.0/HTTPforServer/HttpMessageCodec.cc:28` makes them disagree with their length. `HttpRouter`, file
  reading and the superseded framing in `test_code/TcpServer_v3` are left out as well.
