# A verified model of a user-space TCP/IP stack

This project models the core of a small TCP/IP stack and proves what it promises over whole
runs: a sender and a receiver with a network in between that drops, duplicates, delays and
reorders; two whole connections talking through such a network in both directions; the
reassembler under the receiver; 32-bit sequence arithmetic; the life and death of a
connection; address resolution; longest-prefix routing; and TCP in IPv4 on the wire.

Every object the source updates in place is a class here, and each of its methods is proved
equal to a function on the object's value (its `View`). The theorems are about those
functions, over runs of any length.

| layer | files |
|---|---|
| numbers and streams | `option.dfy`, `wrapping_integers.dfy`, `byte_stream.dfy` |
| reassembly | `fragments.dfy`, `stream_reassembler.dfy`, `reassembler_runs.dfy` |
| TCP halves | `tcp_segment.dfy`, `tcp_receiver.dfy`, `tcp_sender.dfy`, `segmentation.dfy`, `sender_runs.dfy`, `sender_progress.dfy`, `wrap_around.dfy` |
| both halves and a network | `data_path.dfy`, `rounds.dfy`, `lost_byte.dfy`, `stalled_transfer.dfy` |
| connections | `tcp_connection.dfy`, `tcp_state.dfy`, `connection_runs.dfy`, `resets.dfy`, `stalled_shutdown.dfy`, `reported_states.dfy`, `unnamed_states.dfy` |
| two connections and a network | `duplex.dfy`, `duplex_runs.dfy`, `stalled_pair.dfy` |
| link and network layer | `ipv4.dfy`, `network_interface.dfy`, `arp_runs.dfy`, `router.dfy` |
| wire formats | `parser.dfy`, `checksum.dfy`, `tcp_codec.dfy`, `ipv4_codec.dfy`, `tcp_over_ip.dfy` |

`dafny verify dfyconfig.toml` checks the whole project.

## What the proofs say about the code

Most of what the stack promises holds on all inputs. Where it does not, the project gives a
concrete run that breaks the promise and the exact condition under which it is kept.

- **A byte can be lost.** `set_eof` ends the output when the end is at most one past the next
  index. A FIN that overtakes the last byte therefore ends the receiver's stream, the
  acknowledgment covers the missing byte, and the sender forgets it: `LostByte.ByteCanBeLost`
  is such a run from a fresh connection, and from there on no sender run emits the byte again
  (`LostByte.LostForGood`). `ReassemblerRuns.EndIsExactIff` gives the exact condition for one
  push, `DataPath.Completeness` the guarantee for all other runs.
- **A sender can stall.** A zero-window acknowledgment that arrives after a larger window was
  granted makes the sender forget the grant, and a later window that ends at the same right
  edge is not adopted. `StalledTransfer.TransferCanStall` is a run of sender, network and a
  receiver of capacity 2 in which only two acknowledgments are swapped and the sender ends
  stuck: bytes unsent, nothing in flight, no window. `SenderProgress.StuckEndsIff` says exactly
  which events get a stuck sender going, `SenderProgress.StallAfterAckIff` and
  `SenderProgress.StallAfterFillIff` give the exact condition for one call to stall it, and
  `SenderProgress.NoStall` excludes stalls from all runs without such acknowledgments.
- **A shutdown without error can drop unsent bytes.** A stalled sender has nothing in flight,
  so a connection whose streams are both closed leaves although bytes were never sent:
  `StalledPair.PairCanDropBytes` is such a run of two connections.
  `ConnectionRuns.ShutdownIsCompleteIff` tells from the state before the event whether a
  shutdown is complete, and `DuplexRuns.ShutdownMeansDelivered` what that means for two
  connections: the peer holds everything exactly when the shutdown is complete, while the
  endpoint that leaves may itself lack the last byte of what the peer wrote.
- **A reset connection can go on sending.** `tick` does not ask whether the connection is
  active, so after a RST with segments outstanding later ticks retransmit them:
  `Resets.ResetCanRetransmit` is such a run, and `Resets.SilentIff` says exactly when ticks put
  nothing out.
- **Raw 32-bit comparison.** The sender compares sequence numbers without unwrapping them.
  As long as acknowledgments are of the sender's own numbers and less than 2^31 of them are in
  flight, the acknowledgment that covers an outstanding segment makes the sender drop it if
  and only if the next raw number is still below 2^32 (`WrapAround.AckDropsIff`), and once it
  has reached 2^32 nothing is ever acknowledged again, whatever arrives
  (`WrapAround.WrapIsFinal`). With the initial number 2^32 - 1 the count starts over at 0 once
  the SYN is acknowledged, and only the SYN is never dropped (`WrapAround.LastIsNeverDropped`).
  `WrapAround.WrapWitness` is a run from a fresh sender. Theorems that depend on the order of
  acknowledgments assume `SenderRuns.NoWrap`, those about right window edges
  `SenderRuns.NoEdgeWrap`.
- **The memory limit of the reassembler** is broken by a piece that starts past the window,
  which is kept whole because the size computation wraps (`ReassemblerRuns.CapacityWitness`).
  `ReassemblerRuns.RunStaysInCapacityIff` says for every run exactly when the limit is kept;
  starting every piece inside the window suffices (`ReassemblerRuns.RunStaysInCapacity`).
- **16-bit ARP ages** wrap: `ArpRuns.SafeTickIff` says exactly which ticks let a cached address
  outlive its 30 seconds, `ArpRuns.SafeForTimersIff` which ones suppress a due request;
  `ArpRuns.UnsafeTickHarms` and `ArpRuns.UnsafeForTimersHarms` give a history for each of them.
- **`pop_output`** counts what it was asked for, not what it removed:
  `ByteStreams.CountIsExactIff` says for every run exactly when the count is right,
  `ByteStreams.CountWitness` is a run in which it is not.

Apart from the stall the transfer always gets on. A segment delivered to a receiver with room, and
the acknowledgment it is answered with, raise the highest acknowledgment
(`Rounds.RetransmissionGetsFurther`). From every state in which no stream was truncated and that
cannot wrap, such rounds deliver everything, or they leave the sender stuck, which happens only if
an acknowledgment had shrunk its window before (`Rounds.TransferCanFinish`).

The state a connection reports only moves forward (`ReportedStates.StateMovesForward`). It is not
always one of the official TCP states; `ReportedStates.OfficialIff` says exactly when it is, and
`UnnamedStates.UnnamedStatesAreReached` gives a run into each of the three other situations.

Assumptions that appear as hypotheses: an application does not write after closing its stream
(the documentation of `ByteStream` says it cannot; `write` does not check), a delivered segment
is less than 2^31 away from what the receiver expects (always so for streams shorter than 2^31
bytes, `DataPath.ShortStreamsAreNear`), and 64-bit counters do not overflow.

## Model

| member | source | states |
|---|---|---|
| WrappingIntegers.Abs64OfDifference | libsponge/wrapping_integers.cc:17-20 | the signed magnitude of a wrapping 64-bit difference is the true distance whenever that is below 2^63, and the one value whose negation overflows does not occur |
| WrappingIntegers.WrapCongruence | libsponge/wrapping_integers.cc:25 | two absolute numbers wrap alike exactly when they differ by a multiple of 2^32 |
| WrappingIntegers.UnwrapIsNearest | libsponge/wrapping_integers.cc:42-70 | for every number, initial number and checkpoint, unwrap returns a 64-bit number that wraps back, and no 64-bit number that does lies closer to the checkpoint |
| WrappingIntegers.UnwrapOfWrap | libsponge/wrapping_integers.cc:25-70 | round trip: a number less than 2^31 from the checkpoint survives wrapping and unwrapping |
| ByteStreams.ByteStream.constructor | libsponge/byte_stream.cc:29-32 | a new stream is empty, open and of the given capacity |
| ByteStreams.ByteStream.BytesToRead | libsponge/byte_stream.cc:19-27 | the smaller of the length asked for and the bytes buffered |
| ByteStreams.ByteStream.Write | libsponge/byte_stream.cc:34-45 | takes as many bytes as there is room for, in order, and returns their number |
| ByteStreams.ByteStream.PeekOutput | libsponge/byte_stream.cc:48-51 | the next bytes, without removing them |
| ByteStreams.ByteStream.PopOutput | libsponge/byte_stream.cc:54-58 | removes up to the length asked for, counting all of it |
| ByteStreams.ByteStream.Read | libsponge/byte_stream.cc:63-71 | returns and removes the next bytes, counting those removed |
| ByteStreams.ByteStream.EndInput | libsponge/byte_stream.cc:73 | closes the input and changes nothing else |
| ByteStreams.StreamConserves | libsponge/byte_stream.cc:34-71 | over every run of writes, reads, pops and ends, what left followed by what is buffered is what was accepted, and at most the capacity is inside |
| ByteStreams.CountStaysExactIff | libsponge/byte_stream.cc:54-58 | a step keeps bytes_read() equal to the bytes removed if and only if it does not pop more than is buffered |
| ByteStreams.CountIsExactIff | libsponge/byte_stream.cc:54-71 | over every run bytes_read() is the number of bytes removed if and only if no pop asked for more than it found |
| ByteStreams.CountWitness | libsponge/byte_stream.cc:54-58 | a run in which one byte left and two are counted |
| Fragments.CoalesceIsUnion | libsponge/stream_reassembler.cc:28-62 | coalescing succeeds exactly when no index is missing in between, and then holds the union of the indices |
| Fragments.CoalesceIsPiece | libsponge/stream_reassembler.cc:28-62 | coalescing two pieces of one stream gives a piece of that stream |
| Fragments.InsertSeparates | libsponge/stream_reassembler.cc:120-147 | insertion keeps the list sorted, with a missing index between neighbours |
| Fragments.InsertIsUnion | libsponge/stream_reassembler.cc:120-147 | insertion holds exactly the old indices and the new piece's |
| Fragments.InsertKeepsPieces | libsponge/stream_reassembler.cc:120-147 | inserting a piece of a stream among pieces of it leaves pieces of it |
| Fragments.TotalSizeIsCardinality | libsponge/stream_reassembler.cc:171-176 | in a separated list the bytes stored are as many as the distinct indices held |
| Reassembly.StreamReassembler.constructor | libsponge/stream_reassembler.cc:150-151 | a new reassembler holds nothing and expects index 0 |
| Reassembly.StreamReassembler.TryCoalesce | libsponge/stream_reassembler.cc:28-62 | computes the coalesced fragment, or reports failure |
| Reassembly.StreamReassembler.SetEof | libsponge/stream_reassembler.cc:64-70 | records the end and ends the output when the end is at most one past the next index |
| Reassembly.StreamReassembler.WriteToOutput | libsponge/stream_reassembler.cc:80-85 | writes what fits, advances the index by that much, and ends the output when the recorded end is reached |
| Reassembly.StreamReassembler.FlushToOutput | libsponge/stream_reassembler.cc:88-97 | writes and removes the front fragment when it is next in line |
| Reassembly.StreamReassembler.AbsorbFollowing | libsponge/stream_reassembler.cc:134-142 | the inner loop merges every following fragment the merged one reaches, and no other |
| Reassembly.StreamReassembler.InsertFragment | libsponge/stream_reassembler.cc:120-147 | the nested insertion loops compute sorted insertion with coalescing |
| Reassembly.StreamReassembler.PushUnassembled | libsponge/stream_reassembler.cc:99-148 | trims the piece on both sides, in wrapping 64-bit arithmetic, and inserts it |
| Reassembly.StreamReassembler.PushSubstring | libsponge/stream_reassembler.cc:156-169 | marks the end, ignores what is empty, old or too far, else inserts and flushes |
| Reassembly.StreamReassembler.UnassembledBytes | libsponge/stream_reassembler.cc:171-176 | the number of bytes stored in the fragments |
| Reassembly.PushAdvances | libsponge/stream_reassembler.cc:156-169 | whatever is pushed, nothing assembled is taken back, an ended output stays ended and the window's end stays put |
| ReassemblerRuns.PushKeeps | libsponge/stream_reassembler.cc:99-169 | no push of a piece of a stream, wherever it starts and however it is cut, disturbs the order of fragments or puts a wrong byte into the output |
| ReassemblerRuns.IndexIsLeastMissing | libsponge/stream_reassembler.cc:88-97 | the next index to write is the least index whose byte is not known |
| ReassemblerRuns.PushRefines | libsponge/stream_reassembler.cc:99-169 | a push that starts inside the window adds to the known indices exactly the piece clipped to the window |
| ReassemblerRuns.RunIsSafe | libsponge/stream_reassembler.cc:80-176 | over every run of pieces of one stream and reads, with no window assumption: fragments sorted and separated, stored bytes equal distinct indices held, output a prefix of the stream |
| ReassemblerRuns.RunStaysInCapacity | libsponge/stream_reassembler.hh:43-44 | over every run whose pieces start inside the window, buffered and held bytes together never exceed the capacity |
| ReassemblerRuns.LimitKeptIff | libsponge/stream_reassembler.cc:99-169 | from any ordered state within the limit, a push keeps buffered and held bytes within the capacity if and only if the indices held and kept fit beside the buffer or are one run from the next index on |
| ReassemblerRuns.RunStaysInCapacityIff | libsponge/stream_reassembler.hh:43-44 | over every run of pushes and reads, the limit is kept throughout if and only if every push fits in that sense |
| ReassemblerRuns.StaysWindowedIff | libsponge/stream_reassembler.cc:117-118 | a push leaves all fragments inside the window if and only if it starts no later than the window's end or is ignored |
| ReassemblerRuns.PastWindowKeptWhole | libsponge/stream_reassembler.cc:117-118 | a piece that starts past the window is not cut at all |
| ReassemblerRuns.FarPieces | libsponge/stream_reassembler.cc:163-165 | past the next index plus the capacity only a piece's end mark counts; up to there a piece past the window is held |
| ReassemblerRuns.CapacityWitness | libsponge/stream_reassembler.cc:117-118 | two pushes that make a reassembler of capacity 1 store 4 bytes |
| ReassemblerRuns.RunRefinesUnion | libsponge/stream_reassembler.cc:99-169 | for a stream that fits the capacity, the known indices after any run are the union of the pieces pushed, whatever their order and repetition |
| ReassemblerRuns.RunDeliversAll | libsponge/stream_reassembler.cc:156-169 | any order and duplication of pieces that cover the stream outputs exactly the stream |
| ReassemblerRuns.RunEnds | libsponge/stream_reassembler.cc:64-85 | over every run: end seen and all bytes assembled implies ended; ended implies end seen and at most one byte missing |
| ReassemblerRuns.NextByteAdvances | libsponge/stream_reassembler.cc:80-148 | a push that brings the next byte, with room for it, advances the assembled length |
| ReassemblerRuns.EndIsExactIff | libsponge/stream_reassembler.cc:64-70 | a push that ends the output leaves every byte assembled if and only if it is not end-marked with one byte missing and either empty or without room |
| ReassemblerRuns.RunEndsExactly | libsponge/stream_reassembler.cc:64-85 | over every run without such pushes, an ended output is the whole stream |
| ReassemblerRuns.EarlyEndWitness | libsponge/stream_reassembler.cc:69-70 | a bare end mark ends a one-byte stream with nothing assembled |
| Receivers.TCPReceiver.SegmentReceived | libsponge/tcp_receiver.cc:13-33 | waits for a SYN, then pushes the payload at the index its number unwraps to |
| Receivers.TCPReceiver.Ackno | libsponge/tcp_receiver.cc:35-50 | none before the SYN, else the truncated count of SYN, bytes and FIN past the initial number |
| Receivers.TCPReceiver.WindowSize | libsponge/tcp_receiver.cc:52 | the capacity left besides the buffered bytes |
| Receivers.NeverMovesBack | libsponge/tcp_receiver.cc:13-52 | over every run of arbitrary segments and reads, neither the absolute acknowledgment nor the right window edge decreases, and the first SYN fixes the initial number |
| Receivers.AckUnwraps | libsponge/tcp_receiver.cc:35-50 | the peer unwraps the advertised number to bytes written plus SYN plus FIN, also beyond 2^32 bytes |
| Receivers.SynStartsTheStream | libsponge/tcp_receiver.cc:13-33 | before the SYN nothing is taken; the SYN fixes the initial number, and data and FIN that come with it start the stream |
| Receivers.WindowIsExact | libsponge/tcp_receiver.hh:44-54 | of a piece that starts in the advertised window the receiver keeps precisely the bytes before its right edge |
| Senders.TCPSender.constructor | libsponge/tcp_sender.hh:20-59 | the initial field values |
| Senders.TCPSender.InsertOutstanding | libsponge/tcp_sender.cc:42-53 | the loop inserts before the first segment with a greater raw number |
| Senders.TCPSender.SendSegment | libsponge/tcp_sender.cc:28-54 | queues the segment, spends the window, starts the timer if off and records it as outstanding; empty segments do nothing |
| Senders.TCPSender.SendNewSegment | libsponge/tcp_sender.cc:21-25 | numbers the segment with the next number and advances it |
| Senders.TCPSender.FillWindow | libsponge/tcp_sender.cc:72-108 | SYN first, then payloads while window and stream last, FIN with the last payload or alone when the window allows |
| Senders.TCPSender.RemoveAcknowledged | libsponge/tcp_sender.cc:122-131 | the loop drops the leading segments whose last number is acknowledged |
| Senders.TCPSender.AdoptWindow | libsponge/tcp_sender.cc:133-143 | window zero counts as one; another is adopted only if its right edge is new |
| Senders.TCPSender.RestartTimer | libsponge/tcp_sender.cc:145-153 | new data acknowledged resets the timeout, the timer and the retransmission count |
| Senders.TCPSender.AckReceived | libsponge/tcp_sender.cc:112-156 | ignores impossible and old numbers, else drops, adopts, restarts and fills |
| Senders.TCPSender.Tick | libsponge/tcp_sender.cc:159-177 | advances the 32-bit timer and retransmits the first outstanding segment on timeout, backing off unless the window is empty |
| Senders.TCPSender.SendEmptySegment | libsponge/tcp_sender.cc:181-186 | queues an empty segment with the next number |
| Senders.TCPSender.BytesInFlight | libsponge/tcp_sender.cc:65-70 | the numbers occupied by the outstanding segments |
| SenderRuns.RunKeeps | libsponge/tcp_sender.cc:21-177 | every run of writes, close, fill, tick, arbitrary acknowledgments, empty segments and draining keeps the sender's invariant |
| SenderRuns.EverySegmentCarriesItsBytes | libsponge/tcp_sender.cc:21-108 | over every run, each segment ever emitted carries the slice of the application's stream that its number names, at most 1452 bytes, the FIN only after all data, and the next number is 1 + bytes sent + FIN |
| SenderRuns.OutstandingIsExact | libsponge/tcp_sender.cc:42-131 | over every non-wrapping run with any acknowledgments, the outstanding list is one contiguous run up to the next number and holds exactly the emitted segments not acknowledged to their end; bytes in flight is its extent; the timer runs exactly while it is not empty |
| SenderRuns.InFlightIsDistance | libsponge/tcp_sender.cc:65-70 | the bytes in flight are the distance from the first outstanding number to the next number |
| SenderRuns.DropKeepsUnacked | libsponge/tcp_sender.cc:122-131 | of a contiguous list, dropping keeps exactly the segments that end after the acknowledged number |
| SenderRuns.FillKeeps | libsponge/tcp_sender.cc:72-108 | filling keeps the invariant, spends exactly the window it uses, and leaves something unsent only with the window used up |
| Segmentation.FillFollows | libsponge/tcp_sender.cc:72-108 | once the SYN is sent, filling adds exactly the planned segments, in order, and leaves exactly the rest of stream and window |
| Segmentation.FillCuts | libsponge/tcp_sender.cc:80-98 | the bytes the window allows go out in ceil(n / 1452) segments, full payloads and a last one, each at the number of its first byte; the FIN is on the last of them and on no other, exactly when the stream has ended and the window reaches one past the bytes |
| Segmentation.BareFinIff | libsponge/tcp_sender.cc:100-107 | a FIN without payload goes out exactly when the stream has ended with an empty buffer, the FIN was not sent and there is window, and then alone |
| Segmentation.SynComesFirst | libsponge/tcp_sender.cc:72-79 | the first filling sends the bare SYN at the initial number and uses up the window of 1 |
| SenderProgress.WindowIsSpentExactly | libsponge/tcp_sender.cc:28-40 | between adopted windows numbers sent plus window left is constant; an adopted window starts a new budget of its size |
| SenderProgress.StepRoomy | libsponge/tcp_sender.cc:133-156 | only an accepted zero-window acknowledgment left of the highest right edge can put the window out of step |
| SenderProgress.ForwardEdgeNeverShrinks | libsponge/tcp_sender.cc:133-143 | acknowledgments whose right edge does not move back never do that |
| SenderProgress.NoStall | libsponge/tcp_sender.cc:72-156 | over every non-wrapping run without such acknowledgments, whenever bytes or the FIN remain unsent after a call that fills the window, a segment is outstanding and the timer runs |
| SenderProgress.StallAfterFillIff | libsponge/tcp_sender.cc:72-108 | filling leaves the sender stalled if and only if it was stalled with no window |
| SenderProgress.StallAfterAckIff | libsponge/tcp_sender.cc:112-156 | an accepted acknowledgment leaves the sender stalled if and only if something is pending, all is acknowledged, no window was left and the new right edge, as the 32-bit number computed, is not beyond the highest |
| SenderProgress.StuckEndsIff | libsponge/tcp_sender.cc:72-177 | an event gets a stuck sender going if and only if it is an acknowledgment whose window is adopted; all others emit at most segments without a number |
| SenderProgress.StuckForAsLong | libsponge/tcp_sender.cc:72-177 | over every run without such an acknowledgment a stuck sender stays stuck and its next number stays |
| SenderProgress.NoMorePayload | libsponge/tcp_sender.cc:72-176 | a sender with everything sent and no payload in flight never again emits a segment with payload |
| SenderProgress.RetransmissionsAreSpaced | libsponge/tcp_sender.cc:145-177 | over every run the timeout is initial * 2^k after k consecutive retransmissions, k <= 9, and they took at least initial * (2^k - 1) ms since the timer was restarted (section 5 of RFC 6298) |
| WrapAround.AcceptsIff | libsponge/tcp_sender.cc:114-120 | with the highest acknowledgment before the wrap and less than 2^31 numbers in flight, an acknowledgment of new data is looked at if and only if the next raw number is below 2^32 |
| WrapAround.AckDropsIff | libsponge/tcp_sender.cc:112-131 | in such a state, for every initial number, the acknowledgment that covers an outstanding segment to its end makes ack_received drop it if and only if the next raw number is below 2^32 and it is not a SYN at number 2^32 - 1 |
| WrapAround.RunStaysInStep | libsponge/tcp_sender.cc:112-156 | over every run whose acknowledgments are of the sender's own numbers and with less than 2^31 of them in flight, for every initial number, the state is one the two statements above speak about |
| WrapAround.RunStaysSound | libsponge/tcp_sender.cc:21-156 | over every run of a sender with the initial number 2^32 - 1, the outstanding list is one contiguous run up to the next raw number followed by the SYN |
| WrapAround.DeafForGood | libsponge/tcp_sender.cc:114-120 | from a state whose next raw number has reached 2^32 while the highest acknowledgment is before the wrap and the window left does not lead around to it, no run with any acknowledgments acknowledges anything or drops an outstanding segment |
| WrapAround.WrapIsFinal | libsponge/tcp_sender.cc:112-131 | over every run from a fresh sender as above, once something is acknowledged and the next raw number has reached 2^32, no continuation with any acknowledgments acknowledges or drops anything more |
| WrapAround.LastIsNeverDropped | libsponge/tcp_sender.cc:122-131 | a segment whose last number is 2^32 - 1 or beyond stays outstanding in every run with any acknowledgments |
| WrapAround.WrapWitness | libsponge/tcp_sender.cc:114-131 | a run from a fresh sender after which two bytes stay in flight however it goes on |
| DataPath.PlacedRight | libsponge/tcp_receiver.cc:29-31 | the receiver places every data segment at the stream index its number names |
| DataPath.StepKeeps | libsponge/tcp_sender.cc:21-177 | every step of sender, network, receiver and reader keeps the invariant of the data path |
| DataPath.Safety | libsponge/tcp_receiver.cc:13-50 | over every run with a dropping, duplicating, delaying and reordering network, the bytes assembled are a prefix of those written and nothing is acknowledged that was not sent |
| DataPath.ShortStreamsAreNear | libsponge/wrapping_integers.cc:42-70 | for streams shorter than 2^31 bytes every segment ever emitted may be delivered at any time |
| DataPath.DroppedIsAssembled | libsponge/tcp_sender.cc:112-131 | without wrap-around, while the receiver's stream has not ended, the sender has dropped a segment only if its payload is in the receiver's stream at its place |
| DataPath.HighestAckBound | libsponge/tcp_receiver.cc:35-50 | the highest acknowledgment exceeds the bytes assembled by at most 1, after the end by at most 2 |
| DataPath.Completeness | libsponge/stream_reassembler.cc:64-85 | over every run in which no end-marked segment arrives one byte early, an ended receiver has exactly the bytes the application wrote and closed |
| DataPath.EarlyDeliveryTruncates | libsponge/stream_reassembler.cc:69-70 | every such delivery ends the stream one byte short while the next acknowledgment covers the missing byte |
| LostByte.ByteCanBeLost | libsponge/stream_reassembler.cc:69-70 | a run from a fresh connection after which the receiver's stream is ended and empty, the application's byte is acknowledged and dropped, and only the FIN is in flight |
| LostByte.LostForGood | libsponge/tcp_sender.cc:72-176 | from such a state on, whatever happens to the sender, it emits no segment with a byte in it |
| StalledTransfer.TransferCanStall | libsponge/tcp_sender.cc:133-143 | a run of sender, network and a receiver of capacity 2 after which the sender is stuck, with bytes unsent, nothing in flight and no window, although the receiver has room |
| Rounds.RunKeepsEdges | libsponge/tcp_receiver.cc:35-52 | over every run of the data path no acknowledgment, sent or taken, has a right edge beyond the receiver's |
| Rounds.RetransmissionGetsFurther | libsponge/tcp_sender.cc:112-176 | when the timeout has passed the first outstanding segment is queued again, and once it is delivered to a receiver with room and acknowledged, the highest acknowledgment has grown |
| Rounds.TransferCanFinish | libsponge/tcp_sender.cc:21-177 | from every state of the data path in which no stream was truncated, with a receive capacity above 0 and a stream shorter than 2^31 whose numbers stay below 2^32, some continuation without further writes makes everything written arrive, and the end if the application has closed, or leaves the sender stuck; never the latter if no acknowledgment has shrunk the window so far, the capacity is below 2^16 and right edges stay below 2^32 |
| Connections.TCPConnection.constructor | libsponge/tcp_connection.hh:12-25 | the initial state of an endpoint |
| Connections.TCPConnection.SendSegments | libsponge/tcp_connection.cc:58-74 | the loop moves every queued segment out, in order, filling in the acknowledgment fields |
| Connections.TCPConnection.SendRst | libsponge/tcp_connection.cc:49-55 | queues a reset, shuts down and marks both streams as failed |
| Connections.TCPConnection.Connect | libsponge/tcp_connection.cc:154-158 | activates and sends the SYN |
| Connections.TCPConnection.UpdateConnectionStatus | libsponge/tcp_connection.cc:26-37 | stops lingering when the inbound stream ended first; shuts down when both streams ended, nothing is in flight and no lingering is due |
| Connections.TCPConnection.SegmentReceived | libsponge/tcp_connection.cc:84-117 | resets the clock, activates on SYN, dies on RST, else feeds both halves, answers and updates the status |
| Connections.TCPConnection.Write | libsponge/tcp_connection.cc:121-125 | writes to the outbound stream and sends what the window allows |
| Connections.TCPConnection.EndInputStream | libsponge/tcp_connection.cc:149-152 | closes the outbound stream and sends what the window allows |
| Connections.TCPConnection.GiveUp | libsponge/tcp_connection.cc:134-140 | after too many retransmissions throws away what is queued and resets the connection |
| Connections.TCPConnection.Tick | libsponge/tcp_connection.cc:128-147 | passes time on, resets after too many retransmissions, and shuts down after lingering |
| ConnectionRuns.SenderShareIsRight | libsponge/tcp_connection.cc:15-158 | each connection event does to the sender exactly a sequence of sender events |
| ConnectionRuns.ShutdownGuards | libsponge/tcp_connection.cc:26-37 | a shutdown without error happens only with the inbound stream ended, the outbound closed and nothing in flight, and while lingering only on a tick after ten timeouts of silence |
| ConnectionRuns.WillStallIff | libsponge/tcp_connection.cc:84-147 | an event that shuts down without error and without wrap-around leaves the sender stalled if and only if it was stalled before or the acknowledgment it brings meets the stall condition in the state before |
| ConnectionRuns.ShutdownIsCompleteIff | libsponge/tcp_connection.cc:26-37 | such a shutdown leaves the official state CLOSED if and only if the state before the event neither was stalled nor met the stall condition of the arriving acknowledgment |
| ConnectionRuns.CleanShutdown | libsponge/tcp_connection.cc:26-147 | over every non-wrapping run whose acknowledgments do not shrink the window, a shutdown without error means SYN, every byte written and FIN are acknowledged and the inbound stream has ended |
| ConnectionRuns.LingersLongEnough | libsponge/tcp_connection.cc:128-147 | over every run from a fresh connection up to its first departure, an endpoint that closed before the inbound stream ended leaves without error only on a tick with at least 10 * rt_timeout ms since the last segment |
| ConnectionRuns.TickLeavesIff | libsponge/tcp_connection.cc:143-146 | a tick makes an active connection leave in peace exactly when both streams have ended, nothing is in flight and ten timeouts have passed in silence |
| Resets.ResetEnds | libsponge/tcp_connection.cc:98-102 | a RST ends the connection at once: not active, not lingering, both streams in error, state RESET, nothing put out, and the rest of a live connection's state unchanged |
| Resets.GivingUpEnds | libsponge/tcp_connection.cc:135-141 | giving up ends it in the same way and leaves one reset segment to go out |
| Resets.TickPutsOut | libsponge/tcp_connection.cc:128-141 | what a tick puts out, active or not: nothing, the first outstanding segment when its timeout has passed, or a reset in place of all |
| Resets.SilentIff | libsponge/tcp_connection.cc:128-133 | no tick of a connection, reset or not, puts anything out if and only if its sender has nothing outstanding under its timer |
| Resets.SilentForGood | libsponge/tcp_connection.cc:84-147 | over every run of ticks, reads and segments without SYN such a connection stays inactive and puts nothing out |
| Resets.ResetCanRetransmit | libsponge/tcp_connection.cc:128-133 | a run of a fresh connection that a reset ends and whose later tick puts a segment out |
| StalledShutdown.ShutdownCanDropBytes | libsponge/tcp_connection.cc:143-146 | a run of a fresh connection that ends in a shutdown without error with a written byte never sent |
| ConnectionRuns.SegmentsOutAreStamped | libsponge/tcp_connection.cc:58-74 | what goes out has the queued data unchanged and, once the SYN is received, an acknowledgment the peer unwraps to the bytes assembled, with the window left |
| ConnectionRuns.SendSegmentsAppends | libsponge/tcp_connection.cc:58-74 | draining appends one segment for each queued one, in order, after what was waiting, with its data unchanged |
| ConnectionRuns.AnswerIs | libsponge/tcp_connection.cc:104-115 | what a processed segment puts out: what its acknowledgment lets the sender send, or else exactly one empty segment if it occupies sequence numbers, or else nothing |
| ConnectionRuns.OutOnlyGrows | libsponge/tcp_connection.cc:58-158 | no event but the owner's taking and giving up loses or changes what waits to go out |
| Duplex.ShareKeeps | libsponge/tcp_connection.cc:84-158 | whatever happens at one endpoint keeps the invariant of the direction it sends in |
| Duplex.HeardKeeps | libsponge/tcp_connection.cc:84-147 | and of the direction it receives in, including the acknowledgment it then stands for |
| Duplex.OutIsGenuine | libsponge/tcp_connection.cc:49-74 | every segment an endpoint puts out is a reset, or data its sender emitted at the same number with an acknowledgment and window its receiver stood for |
| Duplex.DoKeeps | libsponge/tcp_connection.cc:26-158 | every event at either endpoint keeps the invariant of the pair |
| DuplexRuns.BothDirectionsAreSafe | libsponge/tcp_connection.cc:84-158 | over every run of two fresh connections and a network that loses, repeats and reorders, each application has been given a prefix of what the other wrote, and neither side acknowledges what was not sent |
| DuplexRuns.QuietMeansDelivered | libsponge/tcp_connection.cc:26-37 | without wrap-around, an endpoint that closed with nothing in flight is not stalled if and only if its peer's stream has ended, and then the peer has every byte |
| DuplexRuns.ShutdownMeansDelivered | libsponge/tcp_connection.cc:26-147 | over every run, when an endpoint leaves without error and without wrap-around its peer has closed and it holds all the peer wrote except possibly the last byte; the peer holds the end and every byte of its own stream exactly when the state before the event did not announce a stall |
| DuplexRuns.EndedStreamsAreExact | libsponge/stream_reassembler.cc:64-85 | over every run of the pair without early deliveries, an inbound stream that has ended is exactly what the peer wrote and closed |
| StalledPair.PairCanDropBytes | libsponge/tcp_connection.cc:143-146 | a run of two fresh connections, one with a receive capacity of 2, in which one leaves without error although the other lacks a byte it wrote |
| States.SummaryIsExact | libsponge/tcp_helpers/tcp_state.cc:94-110 | in every reachable non-wrapping state the sender summary is exact; FIN_ACKED holds exactly when SYN, every byte written and FIN are acknowledged |
| States.SummaryMovesForward | libsponge/tcp_helpers/tcp_state.cc:94-110 | over every non-wrapping run the summary only moves forward, with ERROR absorbing |
| ReportedStates.StateMovesForward | libsponge/tcp_helpers/tcp_state.cc:76-110 | over every non-wrapping run of a connection, the sender and receiver parts of the state it reports only move forward and lingering is not resumed |
| ReportedStates.OfficialIff | libsponge/tcp_helpers/tcp_state.cc:17-110 | over every non-wrapping run from a fresh connection, while it has neither failed nor been shut down, the state it reports is an official one if and only if it is in none of three named situations |
| UnnamedStates.UnnamedStatesAreReached | libsponge/tcp_helpers/tcp_state.cc:17-110 | each of the three situations is reached by some run of a fresh connection, which then reports no official state |
| NetworkInterfaces.NetworkInterface.constructor | libsponge/network_interface.cc:57-58 | a new interface knows and holds nothing |
| NetworkInterfaces.NetworkInterface.SendDatagram | libsponge/network_interface.cc:66-83 | sends to a cached address, else asks and queues unless a request is pending, in which case it drops |
| NetworkInterfaces.NetworkInterface.SendWaiting | libsponge/network_interface.cc:105-114 | the loop sends what waits for an address, in order, and forgets it |
| NetworkInterfaces.NetworkInterface.ReceiveFrame | libsponge/network_interface.cc:86-126 | hands up datagrams addressed to it; learns from, releases for and answers ARP messages |
| NetworkInterfaces.NetworkInterface.AgeTimers | libsponge/network_interface.cc:130-140 | the loop ages every request timer modulo 2^16 and removes those above 5000 |
| NetworkInterfaces.NetworkInterface.AgeCache | libsponge/network_interface.cc:142-152 | the loop ages every cached address modulo 2^16 and removes those above 30000 |
| ArpRuns.AnnouncementReleases | libsponge/network_interface.cc:97-122 | an announcement releases exactly what waits for the announcer, in order, to the address announced |
| ArpRuns.RunOrderly | libsponge/network_interface.cc:66-122 | over every history no address has both a cache entry and waiting datagrams, and what ever waited is what was released followed by what waits |
| ArpRuns.RequestsAreSpaced | libsponge/network_interface.cc:75-82 | over every history, whatever the ticks, two requests for one address are more than 5000 ms apart |
| ArpRuns.AsksIff | libsponge/network_interface.cc:75-140 | over every history of ticks that wrap no timer, a datagram for an address not cached makes the interface broadcast a request and keep the datagram if and only if it did not ask in the last 5000 ms; otherwise it is dropped and nothing happens |
| ArpRuns.SafeForTimersIff | libsponge/network_interface.cc:130-140 | exactly which ticks wrap no running timer |
| ArpRuns.UnsafeForTimersHarms | libsponge/network_interface.cc:130-140 | for every other tick there is a history after which a datagram is dropped although the last request is more than 5000 ms old |
| ArpRuns.FrameEffect | libsponge/network_interface.cc:86-126 | what each frame does: releases to the announcer, a reply exactly to a broadcast request for the own address, the sender learned, and only datagrams in frames to the own address handed up |
| ArpRuns.SafeTickIff | libsponge/network_interface.cc:142-152 | exactly which ticks cannot let an entry outlive 30000 ms by wrapping its age |
| ArpRuns.UnsafeTickHarms | libsponge/network_interface.cc:142-152 | for every other tick there is a history of an announcement and one safe tick after which it keeps an entry announced more than 30000 ms ago |
| ArpRuns.CacheIsExact | libsponge/network_interface.cc:101-152 | over every history of safe ticks the cache holds exactly the addresses learned afresh in the last 30000 ms, each with its age; hearing a host again does not renew it |
| ArpRuns.CacheIsCurrent | libsponge/network_interface.cc:66-73 | over every history of such ticks a datagram sent from the cache goes to the address announced last, at most 30000 ms ago |
| ArpRuns.ResolutionDelivers | libsponge/network_interface.cc:66-126 | between two interfaces, request, reply and release deliver the datagram to the interface that has the address |
| Routers.FindRoute | libsponge/router.cc:46-57 | the loop finds a matching route of greatest prefix length, the last added among equals, and finds none exactly when none matches |
| Routers.LookupFinds | libsponge/router.cc:48-57 | there is a best route exactly when dst / 2^(32 - length) equals some stored prefix, and it is a longest such route |
| Routers.OrderIsIrrelevant | libsponge/router.cc:27-57 | with one route for each prefix and length, the choice does not depend on the order of insertion |
| Routers.AddedRouteMatches | libsponge/router.cc:34-52 | an added route matches exactly the destinations with dst / 2^(32 - length) = prefix / 2^(32 - length), the block of 2^(32 - length) addresses around the prefix |
| Routers.ForwardedIff | libsponge/router.cc:39-66 | a datagram is forwarded exactly when its time to live exceeds 1 and a route matches; it leaves by the best route, unchanged but for one hop less to live |
| Routers.InterfacesAreIndependent | libsponge/router.cc:59-76 | routing any number of datagrams does to each interface exactly what sending it its own share in order does |
| Routers.Router.AddInterface | libsponge/router.hh:67-70 | appends the interface with an empty queue and returns its number |
| Routers.Router.AddRoute | libsponge/router.cc:27-36 | appends the route, whatever its length and interface; up to 32 bits it keeps the leading bits |
| Routers.Router.RouteOne | libsponge/router.cc:39-66 | forwards one datagram as decided |
| Routers.Router.RouteBox | libsponge/router.cc:71-75 | the inner loop empties one interface's queue in order |
| Routers.Router.RouteAll | libsponge/router.cc:68-77 | routes everything received, interface by interface, and leaves no queue filled |
| Checksums.InternetChecksum.Add | libsponge/util/util.cc:89-98 | adds the bytes in pairs to the 32-bit sum, continuing an odd byte |
| Checksums.InternetChecksum.Value | libsponge/util/util.cc:100-108 | folds the carries back in, terminating, and complements |
| Checksums.FoldIsResidue | libsponge/util/util.cc:101-105 | folding keeps the sum modulo 65535, fits 16 bits and is zero only for zero |
| Checksums.SumIsOfWords | libsponge/util/util.cc:89-98 | the sum is that of 16-bit words in network byte order, an odd last byte counting as a word with a zero behind it |
| Checksums.ChecksumVerifies | libsponge/util/util.cc:77-83 | adding its checksum to any sum makes the checksum zero |
| Parsers.BytesRoundTrip | libsponge/util/parser.cc:27-60 | an integer that fits is read back from the bytes written for it |
| Parsers.FirstCountsMost | libsponge/util/parser.cc:26-43 | network byte order: the first byte counts most |
| Parsers.LayoutField | libsponge/util/parser.cc:27-60 | every number of a header layout is read back from its offset, whatever follows |
| Parsers.NetParser.ParseInt | libsponge/util/parser.cc:26-43 | reads a big-endian integer and consumes it; too little data sets the error and yields 0 |
| Parsers.NetParser.RemovePrefix | libsponge/util/parser.cc:45-51 | drops bytes, or sets the error |
| Parsers.UnparseInt | libsponge/util/parser.cc:53-60 | appends an integer in network byte order |
| TcpCodec.WireLayout | libsponge/tcp_helpers/tcp_header.cc:51-78 | where each field of a sent header is, bit by bit, as section 3.1 of RFC 793 has it, with zeros for options |
| TcpCodec.HeaderRoundTrip | libsponge/tcp_helpers/tcp_header.cc:17-78 | for data offsets 5 to 15 every header field is read back from the bytes sent |
| TcpCodec.SentVerifies | libsponge/tcp_helpers/tcp_segment.cc:30-45 | the checksum sum over a sent segment does not overflow 32 bits and verifies |
| TcpCodec.SegmentRoundTrip | libsponge/tcp_helpers/tcp_segment.cc:12-45 | a serialised segment parses back to the same payload and header with the computed checksum |
| TcpCodec.SerializeHeader | libsponge/tcp_helpers/tcp_header.cc:51-78 | writes the header padded to its data offset; nothing for offsets below 5 |
| TcpCodec.ParseHeader | libsponge/tcp_helpers/tcp_header.cc:17-48 | for every input: the fields, 0 where data runs out, the options skipped, and the verdict returned |
| TcpCodec.Serialize | libsponge/tcp_helpers/tcp_segment.cc:30-45 | computes the checksum over header and payload and writes both |
| TcpCodec.Parse | libsponge/tcp_helpers/tcp_segment.cc:12-23 | rejects bad checksums and short data, otherwise header and payload |
| Ipv4Codec.WireLayout | libsponge/tcp_helpers/ipv4_header.cc:78-110 | where each field of a sent header is, as section 3.1 of RFC 791 has it |
| Ipv4Codec.PseudoIsSum | libsponge/tcp_helpers/ipv4_header.cc:112-131 | the share of the pseudo-header in the checksum is the sum over its twelve bytes |
| Ipv4Codec.HeaderRoundTrip | libsponge/tcp_helpers/ipv4_header.cc:23-110 | every header field is read back from the bytes sent |
| Ipv4Codec.SentHeaderVerifies | libsponge/tcp_helpers/ipv4_datagram.cc:28-38 | the header as sent has checksum zero |
| Ipv4Codec.DatagramRoundTrip | libsponge/tcp_helpers/ipv4_datagram.cc:11-41 | a datagram with a right length field parses back, and the header parser objects to nothing |
| Ipv4Codec.SerializeDatagram | libsponge/tcp_helpers/ipv4_datagram.cc:23-41 | writes header, with checksum, and payload; nothing when the length field is wrong |
| Ipv4Codec.ParseIpv4Header | libsponge/tcp_helpers/ipv4_header.cc:23-75 | fields, verdict and how much was consumed, for every input |
| Ipv4Codec.ParseBytes | libsponge/tcp_helpers/ipv4_datagram.cc:11-21 | checks only the payload's size |
| TcpOverIp.TCPOverIPv4Adapter.Wrap | libsponge/tcp_helpers/tcp_over_ip.cc:75-90 | sets the ports in the caller's segment and makes the datagram that carries it |
| TcpOverIp.TCPOverIPv4Adapter.Unwrap | libsponge/tcp_helpers/tcp_over_ip.cc:26-71 | filters by address, protocol, checksum and port; a listening adapter takes its peer from the first SYN |
| TcpOverIp.WrapVerifies | libsponge/tcp_helpers/tcp_over_ip.cc:75-90 | the datagram made for a segment: every header field, the payload's length, and Internet checksum 0 over the bytes of pseudo-header and payload |
| TcpOverIp.UnwrapAcceptsIff | libsponge/tcp_helpers/tcp_over_ip.cc:27-71 | a datagram is accepted exactly when it holds an intact TCP segment to the adapter's port from its peer's address and port, or, while listening, a SYN without RST; only a listening adapter changes, to talk to whom it heard |
| TcpOverIp.WireRoundTrip | libsponge/tcp_helpers/tcp_over_ip.cc:27-90 | a segment wrapped, sent as bytes, parsed and unwrapped at a mirrored or listening peer comes out with its payload, the ports of the adapter and every other header field but the checksum unchanged |

## Left out

- The loop in `set_eof` that prunes fragments after the end (libsponge/stream_reassembler.cc:72-77): it dereferences a past-the-end iterator and has no defined meaning; the model does nothing there.
- The read of the list's end element in `ack_received` (libsponge/tcp_sender.cc:125, 129): its value is never used; the model checks for the end first.
- 64-bit counters (`_next_seqno`, `_bytes_written`, `_index`, `_time_since_last_segment_received`) are unbounded numbers; theorems that need them below 2^64 say so.
- Reassembly.StreamReassembler.PushSubstring: `index + size` and `_index + _capacity` are not wrapped at 2^64; only the size computation at libsponge/stream_reassembler.cc:117, where wrapping is visible, is.
- NetworkInterfaces.NetworkInterface.ReceiveFrame: frames arrive with their payload parsed; Ethernet and ARP byte formats are not part of this model.
- Routers.Router.RouteOne: the table holds prefix lengths up to 32 and existing interfaces; longer ones make the source shift by a negative amount, missing ones make it throw. Shifting by 32 bits is read as division. Interfaces are values held by the router, as in the source's vector; their objects are not shared.
- Rejection of malformed packets: the datagram and segment parsers drop the header parser's verdict, so no such claim is made.
- Datagrams sent to an address while a request for it is pending are dropped by the source; no claim that they arrive is made.
- The destructor's reset, sockets, the event loop, TUN/TAP devices, address and DNS lookup, the socket class, lossy adapters, applications and printing: input and output only.
- Sharing and reference counts of buffers: payloads are plain byte sequences.
