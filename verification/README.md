# Sponge, a TCP/IP stack

A verification project for the user-space TCP/IP stack in `sponge/libsponge`: the reliable byte
stream from `ByteStream` to `TCPConnection`, the wire formats of TCP and IPv4, the ARP-resolving
network interface and the longest-prefix router.

## How it is built

Every component exists twice. The objects of the source are classes with the source's fields,
loops and branches (`StreamReassembler`, `TCPReceiver`, `TCPSender`, `TCPConnection`,
`InternetChecksum`, `NetParser`, `NetworkInterface`, `Router`, ...). Each of their methods is
proved to take the object from any state to the state that a function of the old one gives. Those
functions are total: they describe the code also where it misbehaves. The theorems are about them.

- **Sequence numbers** (`WrappingIntegers`): `wrap` and `unwrap` with the 64-bit overflow written out.
- **Reassembly** (`Reassembly`, `ReassemblyMeaning`, `ReassemblyTheorems`, `ReassemblyLimits`): the
  interval map with its narrowing comparison refines a partial map from index to byte, as long as
  narrowing keeps the order of the indices in the window. `ReassemblyLimits` says exactly when it
  does.
- **Sender** (`Sending`, `SenderInvariant`, `SenderSteps`, `SenderTheorems`): one invariant, `Flying`,
  says that the outstanding segments tile the sequence space. `SendWindows` says how far the peer's
  window lets it go. `SenderTimer` shows that the per-segment deadlines are the single timer of
  RFC 6298, and `BackOff` how its timeout grows.
- **Connection** (`Connecting`, `Hearing`, `Endings`, `CleanClose`, `SkippedSyn`, `Quiescence`): what a segment
  does, closing, lingering, resetting, giving up, and the measure that every delivery decreases.
- **Two connections and a network** (`Honesty`, `Emission`, `Delivery`, `World`, `Acknowledging`,
  `Reporting`, `NoLoss`, `Answering`): the network is the set of all segments ever sent, so that loss, duplication and
  reordering are just the choice of what to deliver. Both ends write, read, end, tick and receive in
  any order. `LostByte` shows why a FIN has to land.
- **Wire** (`Checksums`, `Parsing`, `TcpWire`, `TcpLayout`, `Ipv4Wire`, `Ipv4Layout`, `TcpInIpv4`), **link** (`Arp`, `ArpRuns`) and
  **routing** (`Routing`).

`dafny verify dfyconfig.toml` checks everything.

## What the code does not do

Each of these is stated as a lemma, with the exact condition where there is one.

- The reassembler compares 64-bit keys as `int`, which start over at 2^31 modulo 2^32. A window of 2
  to 2^31 bytes is handled correctly exactly when no such index lies in it or at its end
  (`WindowExact`). Reading moves the window there at every capacity from 2 on (`CorruptingRun`,
  `CapacityExact`); as long as nothing is read, capacities below 2^31 are safe (`CapacityLimit`), and
  above them bytes are overwritten (`NarrowingCorrupts`).
- `ackno` counts a FIN as soon as it has been seen and nothing is stored, even over a hole. A byte
  can be acknowledged that never arrived (`AcknoSoundIff`, `ByteIsLost`). The receiver can tell when a
  FIN arrives whether it lands; if it does not, the next segment can already draw an acknowledgment
  of more than has been assembled, and if it does, none can (`FinLandsExact`).
- A SYN that the network repeats after the stream has ended takes the acknowledgment of the FIN back
  until a FIN comes in again (`AcknoExactIff`, `TakenBack`).
- The count of consecutive retransmissions starts over when something new is sent, not when something
  is acknowledged (`CountIs`, `AckRestores`); at nine the connection resets (`FailedIff`).
- An acknowledgment of the ISN before the SYN has been sent opens the window, and whatever follows,
  the SYN is then never sent (`EarlyAck`, `SynSkipped`). The connection only lets such a segment in
  together with a SYN (`OnlySynLetIn`). If it does, it can still close without an error, but never
  with its SYN acknowledged (`ClosedCleanlyIff`, `ClosesUnopened`).
- Bytes written after the FIN are accepted (`LateWrites.LateWrite`) and never sent, on any later run
  (`NeverSent`); with room in the window a write is sent exactly if the FIN was not out (`SentIff`).
  Such a write also takes the sender's summary back from FIN_SENT or FIN_ACKED to SYN_ACKED
  (`WriteLowersIff`).
- `TCPSegment::parse` and `IPv4Datagram::parse` ignore what the header's `parse` returns. A data offset
  below 5 and a bad IPv4 header checksum go unreported (`Verdict`, `AnyChecksum`).
- The router stops at the first matching direct route that is as long as everything before it, and a
  longer match behind it is missed (`LongestPrefixMatch`, `DefaultHides`). Re-adding a route keeps its old interface
  (`AddRouteIs`), although the comment on `add_route` does not say so.
- While an ARP request is cooling down, further datagrams for that address are dropped, not queued
  (`InOrder`, `Conservation`).

## Model

| member | source | states |
|---|---|---|
| WrappingIntegers.UnwrapCongruent | sponge/libsponge/wrapping_integers.cc:18-65 | `unwrap` wraps back to its argument for every ISN and every 64-bit checkpoint, overflow included |
| WrappingIntegers.UnwrapNearest | sponge/libsponge/wrapping_integers.cc:35-65 | below 2^63, no number that wraps to `n` is closer to the checkpoint (RFC 793, section 3.3) |
| WrappingIntegers.UnwrapExactIff | sponge/libsponge/wrapping_integers.cc:35-65 | `unwrap(wrap(v)) == v` exactly within 2^31 of the checkpoint, below 2^32 when no smaller candidate exists, or when the tie at 2^31 is won |
| WrappingIntegers.WrapInjective | sponge/libsponge/wrapping_integers.cc:18-20 | two absolute numbers share a wire form exactly when they agree modulo 2^32 |
| Streams.ReadAllInOrder | sponge/libsponge/byte_stream.cc:20-48 | whatever is read, in whatever pieces, is what was written, in order |
| ByteStreams.ByteStream.Write | sponge/libsponge/byte_stream.cc:20-28 | accepts as much as fits, appends exactly that, and reports how much |
| ByteStreams.ByteStream.PopOutput | sponge/libsponge/byte_stream.cc:33-38 | removes a prefix; the accounting stays consistent exactly when the caller pops no more than is buffered |
| ByteStreams.ByteStream.Read | sponge/libsponge/byte_stream.cc:42-48 | returns the front of the buffer and removes it, with the same condition on the caller |
| ByteStreams.ByteStream.PeekOutput | sponge/libsponge/byte_stream.cc:30 | the front of the buffer |
| ByteStreams.ByteStream.Eof | sponge/libsponge/byte_stream.cc:58 | true exactly when the input has ended and everything has been read |
| ByteStreams.ByteStream.BufferSize | sponge/libsponge/byte_stream.cc:54 | the bytes written and not yet read |
| ByteStreams.ByteStream.RemainingCapacity | sponge/libsponge/byte_stream.cc:64 | capacity not taken up by unread bytes |
| ReassemblyMeaning.PushRefines | sponge/libsponge/stream_reassembler.cc:23-65 | while narrowing keeps the order of the window, or nothing is stored, one push adds to the partial map exactly the bytes of the window not already held, moves the maximal contiguous prefix to the output in full, and keeps the intervals sorted, disjoint and non-empty |
| ReassemblyMeaning.PushRefinesUpTo | sponge/libsponge/stream_reassembler.cc:23-65 | the same in any window as long as no stored or pushed byte lies past a point up to which narrowing keeps the order |
| ReassemblyMeaning.PushAscends | sponge/libsponge/stream_reassembler.cc:28 | every push, also a corrupting one, leaves the interval map in the order of its own comparison |
| ReassemblyMeaning.GapsAreMissing | sponge/libsponge/stream_reassembler.cc:37-51 | the scan cuts out exactly the bytes of the pushed range that are not stored, as sorted disjoint pieces |
| ReassemblyMeaning.PutAllAdds | sponge/libsponge/stream_reassembler.cc:52-55 | with keys that narrowing keeps in order, inserting the pieces adds them to the partial map and overwrites nothing |
| ReassemblyMeaning.DrainAssembles | sponge/libsponge/stream_reassembler.cc:56-60 | draining moves exactly the contiguous prefix, and every drained write is accepted in full |
| ReassemblyMeaning.BeforeExact | sponge/libsponge/stream_reassembler.hh:15-17 | on disjoint non-empty intervals between two indices with the same number of wraps the narrowing comparison is the order of the intervals |
| ReassemblyTheorems.PushHeld | sponge/libsponge/stream_reassembler.cc:23-65 | nothing held is lost or changed; of the pushed bytes exactly those of the window that were not held are added |
| ReassemblyTheorems.PushShape | sponge/libsponge/stream_reassembler.cc:56-64 | the output only grows, the byte after it never waits, and the stream ends exactly when it meets the announced end |
| ReassemblyTheorems.MemoryBound | sponge/libsponge/stream_reassembler.cc:52-67 | `unassembled_bytes` counts distinct stored indices, `firstUnasb` counts bytes written, and unread plus stored bytes fit the capacity |
| ReassemblyTheorems.AlwaysBounded | sponge/libsponge/stream_reassembler.cc:23-71 | the same after any mix of pushes, genuine or not, and reads, if narrowing keeps the order of the window whenever something is pushed while something is stored |
| ReassemblyTheorems.Confluence | sponge/libsponge/stream_reassembler.cc:37-64 | slices covering S, shorter than 2^31 and not longer than the capacity, in any order, with overlap and repetition and reads in between, give exactly S, ended, with nothing left stored |
| ReassemblyTheorems.AlwaysAscending | sponge/libsponge/stream_reassembler.hh:15-28 | on every run, correct or not, the interval map is in the order of its own comparison |
| ReassemblyLimits.WindowExact | sponge/libsponge/stream_reassembler.hh:15-17 | in every valid state with a window of 2 to 2^31 bytes all sequences of pushes are handled correctly exactly when no index congruent to 2^31 modulo 2^32 lies in the window or at its end |
| ReassemblyLimits.CorruptingRun | sponge/libsponge/stream_reassembler.hh:15-17 | at every capacity from 2 on, a run of pushes and reads from a fresh reassembler that goes wrong |
| ReassemblyLimits.CapacityExact | sponge/libsponge/stream_reassembler.hh:15-17 | with reads, every run is handled correctly exactly at capacities 0 and 1 |
| ReassemblyLimits.NarrowingCorrupts | sponge/libsponge/stream_reassembler.hh:15-17 | with 2^31 or more of capacity two pushes make one overwrite the other's byte |
| ReassemblyLimits.CapacityLimit | sponge/libsponge/stream_reassembler.hh:15-17 | as long as nothing is read, every sequence of pushes is handled correctly exactly when the capacity is below 2^31 |
| StreamReassemblers.StreamReassembler.PushSubstring | sponge/libsponge/stream_reassembler.cc:23-65 | the object's new state is the one the theorems are about |
| StreamReassemblers.StreamReassembler.Scan | sponge/libsponge/stream_reassembler.cc:37-51 | the scanning loop finds the gaps |
| TcpReceivers.TCPReceiver.SegmentReceived | sponge/libsponge/tcp_receiver.cc:13-31 | the object's new state for any segment in any state |
| TcpReceivers.TCPReceiver.Ackno | sponge/libsponge/tcp_receiver.cc:33-46 | nothing before a SYN, otherwise the wrapped acknowledgment with 1 or the state's number added |
| TcpReceivers.TCPReceiver.WindowSize | sponge/libsponge/tcp_receiver.cc:48 | capacity minus unread bytes |
| Delivery.GenuineExcerpt | sponge/libsponge/tcp_receiver.cc:13-30 | a genuine segment pushes bytes of the sender's stream at their own indices modulo 2^32, whatever the decoding checkpoint |
| Delivery.PushTruthful | sponge/libsponge/stream_reassembler.cc:23-65 | pushing such an excerpt stores only bytes of the stream and ends only at its end; indices a whole turn away fall outside the window |
| Delivery.ReceiveFaithful | sponge/libsponge/tcp_receiver.cc:13-31 | a genuine segment, however late, repeated or reordered, keeps the receiver holding only the sender's bytes and ending only where the sender's stream ends |
| Acknowledging.AcknoSoundIff | sponge/libsponge/tcp_receiver.cc:33-46 | `ackno` never exceeds what is assembled, exactly unless a FIN was noted, nothing is stored and the stream has not ended |
| Acknowledging.FinLandsIff | sponge/libsponge/tcp_receiver.cc:25-30 | a FIN leaves the stream ended or its last byte stored exactly when a test the receiver can make beforehand holds |
| Acknowledging.FinLandsExact | sponge/libsponge/tcp_receiver.cc:13-46 | a FIN passes that test exactly if no genuine data or bare segment delivered next makes the receiver acknowledge more than it has assembled |
| Acknowledging.ReceiveSettled | sponge/libsponge/tcp_receiver.cc:13-31 | later segments keep that state as long as FINs pass the test |
| Acknowledging.TopGrows | sponge/libsponge/tcp_receiver.cc:33-46 | what the receiver may acknowledge never shrinks |
| Reporting.AcknoExactIff | sponge/libsponge/tcp_receiver.cc:33-46 | as long as FINs land, `ackno` is 1 plus the bytes assembled, plus 1 once the stream has ended, exactly unless a SYN has come in again after the end; then the FIN is left out |
| Reporting.TakenBack | sponge/libsponge/tcp_receiver.cc:15-17 | a SYN and a FIN are acknowledged with 2, and after the SYN is repeated with 1 |
| Reporting.StatusIs | sponge/libsponge/tcp_receiver.cc:15-28 | the receiver listens until the first SYN, and has noted a FIN exactly if one has come since and no SYN without a FIN after it |
| Reporting.SynIndex | sponge/libsponge/tcp_receiver.cc:15-30 | a SYN's payload and end are placed at the index of the last segment without a SYN |
| Reporting.WindowEndsAt | sponge/libsponge/tcp_receiver.cc:48 | the advertised window ends where the reassembler stops taking bytes |
| TcpSenders.TCPSender.BytesInFlight | sponge/libsponge/tcp_sender.cc:34-41 | the sum over the outstanding segments |
| TcpSenders.TCPSender.FillWindow | sponge/libsponge/tcp_sender.cc:43-98 | the object's new state, in every state |
| TcpSenders.TCPSender.AckReceived | sponge/libsponge/tcp_sender.cc:102-128 | the object's new state for any acknowledgment |
| TcpSenders.TCPSender.EraseAcked | sponge/libsponge/tcp_sender.cc:114-126 | the erase loop drops what is acknowledged and restarts the rest if the acknowledgment is new |
| TcpSenders.TCPSender.Tick | sponge/libsponge/tcp_sender.cc:131-162 | the object's new state after any time |
| TcpSenders.TCPSender.FindDue | sponge/libsponge/tcp_sender.cc:133-153 | among the due entries, one with the smallest decoded sequence number |
| TcpSenders.TCPSender.SendEmptySegment | sponge/libsponge/tcp_sender.cc:166-171 | queues a bare segment and uses up no sequence number |
| SenderTheorems.RunFlies | sponge/libsponge/tcp_sender.cc:43-162 | in every reachable state the outstanding segments, in sequence order, tile the space up to `next_seqno`, carry the matching slices of the written stream, and straddle `acked`, with non-decreasing deadlines |
| SenderTheorems.ApplyFlies | sponge/libsponge/tcp_sender.cc:43-171 | every single step keeps that invariant and the oldest unacknowledged number never goes back |
| SenderTheorems.InFlight | sponge/libsponge/tcp_sender.cc:34-41 | `bytes_in_flight` is `next_seqno` minus the start of the tiling, and zero exactly when everything sent is acknowledged |
| SenderTheorems.FillWindowSends | sponge/libsponge/tcp_sender.cc:66-97 | `fill_window` emits, in order and at consecutive sequence numbers, exactly what it takes from the stream, in payloads of at most 1000 bytes, within the window, and stops only with the FIN out, the window full, or nothing buffered and the input open |
| SendWindows.AnsweredUpTo | sponge/libsponge/tcp_sender.cc:66-113 | once an acknowledgment is taken, `fill_window` sends exactly what is buffered up to the acknowledged number plus the window that came with it, a window of 0 counting as 1, and the FIN if it fits as well; `zeroWindow` says whether the window was 0 |
| SendWindows.WindowIsLast | sponge/libsponge/tcp_sender.cc:102-114 | on every run the window, its zero flag and `acked` are those of the last acknowledgment taken |
| SendWindows.FilledUpTo | sponge/libsponge/tcp_sender.cc:66-114 | on every run `fill_window` goes exactly as far as that acknowledgment allows, whatever happened since |
| SendWindows.SegmentsFull | sponge/libsponge/tcp_sender.cc:66-97 | of the segments one `fill_window` sends all but the last carry 1000 bytes |
| SendWindows.FilledOnce | sponge/libsponge/tcp_sender.cc:43-98 | a second `fill_window` sends nothing |
| SenderInvariant.FillFlies | sponge/libsponge/tcp_sender.cc:43-98 | the same with the initial SYN or SYN and FIN, and every new segment gets a deadline one timeout away |
| SenderSteps.FlightsDecode | sponge/libsponge/tcp_sender.cc:115-121 | every outstanding 32-bit sequence number decodes to the absolute number it was sent at, for streams below 2^63 |
| SenderTheorems.RunDecodes | sponge/libsponge/tcp_sender.cc:115-152 | in every reachable state at most 65535 sequence numbers are unacknowledged and every outstanding one decodes to the place of its bytes in the stream, for streams below 2^63 |
| SenderSteps.OldestFires | sponge/libsponge/tcp_sender.cc:133-153 | a tick retransmits exactly when the oldest outstanding segment is due, and then that one |
| SenderSteps.AckAtFlies | sponge/libsponge/tcp_sender.cc:102-128 | an acknowledgment removes exactly the fully acknowledged front of the tiling and restarts the rest exactly if it is new |
| SenderTheorems.EarlyAck | sponge/libsponge/tcp_sender.cc:102-113 | before the SYN is out, an acknowledgment breaks the invariant exactly when it acknowledges the ISN itself |
| SenderTheorems.SynSkipped | sponge/libsponge/tcp_sender.cc:47-66 | after such an acknowledgment, on every run, the sender never sends or resends a SYN, its window stays open, and it counts sequence numbers as if there were no SYN |
| SenderTimer.TimerRefines | sponge/libsponge/tcp_sender.cc:102-162 | each step of the per-segment deadlines is a step of one timer as in section 5 of RFC 6298, and a tick sends exactly what that timer says |
| SenderTimer.TimerRunRefines | sponge/libsponge/tcp_sender.cc:43-162 | over whole runs the deadlines are the timer's and what the ticks send is what the timer retransmits |
| OneTimers.ExpiriesAt | sponge/libsponge/tcp_sender.cc:139-160 | from a timeout of r on, the k-th expiry in a row comes after (2^k - 1) * r and leaves a timeout of 2^k * r, as long as that fits 32 bits (section 5 of RFC 6298) |
| BackOff.BacksOff | sponge/libsponge/tcp_sender.cc:139-141 | over every run without acknowledgments k timeouts multiply the timeout by 2^k, modulo 2^32, and leave it alone if the window is zero |
| BackOff.AckRestores | sponge/libsponge/tcp_sender.cc:102-113 | an acknowledgment that is taken and new restores the initial timeout, any other keeps it, and none restarts the count of retransmissions |
| BackOff.CountIs | sponge/libsponge/tcp_sender.cc:76-171 | over every run the count of consecutive retransmissions is the number since new data, a FIN or a bare segment was last queued |
| LateWrites.NeverSent | sponge/libsponge/tcp_sender.cc:43-46 | after the FIN, over every run, no byte is read, no sequence number used, and no segment carries a byte that had not been read before |
| LateWrites.SentIff | sponge/libsponge/tcp_sender.cc:43-97 | with room in the window for all that is buffered, an accepted write is sent exactly if the FIN was not out |
| TcpStates.SummaryMonotone | sponge/libsponge/tcp_helpers/tcp_state.cc:94-110 | over every run without an error or a write that backslides the sender's summary moves only forward |
| TcpStates.WriteLowersIff | sponge/libsponge/tcp_helpers/tcp_state.cc:94-110 | a write lowers the summary exactly if bytes are accepted while it is FIN_SENT or FIN_ACKED |
| TcpStates.FinAckedIff | sponge/libsponge/tcp_helpers/tcp_state.cc:94-110 | FIN_ACKED exactly when `acked` is the number of bytes written plus 2 |
| TcpStates.SenderSummaryExact | sponge/libsponge/tcp_helpers/tcp_state.cc:94-110 | CLOSED before anything is sent, SYN_SENT while the SYN is outstanding, SYN_ACKED until the FIN is out, FIN_SENT until it is acknowledged, then FIN_ACKED, with the FIN at the number of bytes written plus 1 |
| TcpStates.ReceiverForward | sponge/libsponge/tcp_helpers/tcp_state.cc:82-92 | whatever arrives in whatever state, the receiver's summary moves only forward and its error flag stays as it is |
| Reporting.SummaryExact | sponge/libsponge/tcp_helpers/tcp_state.cc:82-92 | over every run of genuine segments and reads on which FINs land: LISTEN until the first SYN, FIN_RECV exactly once a FIN has been heard and the whole stream is assembled, SYN_RECV in between |
| TcpConnections.TCPConnection.FillWindowAndSend | sponge/libsponge/tcp_connection.cc:37-65 | the object's new state and the number of segments moved |
| TcpConnections.TCPConnection.SegmentReceived | sponge/libsponge/tcp_connection.cc:67-116 | the object's new state for any segment: listening, passive close, RST, FIN, ACK, answer, close |
| TcpConnections.TCPConnection.Write | sponge/libsponge/tcp_connection.cc:120-127 | the object's new state and the bytes accepted |
| TcpConnections.TCPConnection.Tick | sponge/libsponge/tcp_connection.cc:130-150 | the object's new state: lingering, retransmission, giving up after 8 attempts |
| TcpConnections.TCPConnection.EndInputStream | sponge/libsponge/tcp_connection.cc:152-158 | the object's new state |
| TcpConnections.TCPConnection.SendRst | sponge/libsponge/tcp_connection.cc:162-171 | resets with whatever heads the sender's queue and raises both error flags |
| Hearing.ResetIff | sponge/libsponge/tcp_connection.cc:86-92 | a heard reset before a SYN or at the next number expected closes the connection at once, raises both error flags, and changes and sends nothing else; any other segment raises neither |
| Hearing.Dropped | sponge/libsponge/tcp_connection.cc:72-79 | a segment to a closed connection, or without a SYN to a listening one, changes nothing |
| Hearing.AnsweredWithin | sponge/libsponge/tcp_connection.cc:99-110 | after a heard segment whose acknowledgment is taken, the connection has sent exactly as far as that segment's window allows |
| Hearing.AnswerIsNoReset | sponge/libsponge/tcp_connection.cc:106-110 | an answer contains no reset, and a segment that occupies sequence space draws one |
| Endings.FailedIff | sponge/libsponge/tcp_connection.cc:86-171 | over every run both error flags are up exactly if a valid reset was heard or the ninth retransmission since anything new was sent has happened; an open connection has neither |
| Endings.TimeExact | sponge/libsponge/tcp_connection.cc:137-149 | on giving up, a tick sends a reset numbered like the head of the sender's queue and raises both flags; otherwise it closes exactly if everything is acknowledged and ten initial timeouts have passed since the connection last sent |
| Endings.TimeClosesIff | sponge/libsponge/tcp_connection.cc:137-144 | the same over every run, in terms of what has been acknowledged |
| Endings.LingersIff | sponge/libsponge/tcp_connection.cc:93-99 | over every run an open connection will linger exactly if the peer's FIN has not arrived before its own went out |
| Endings.ArrivalClosesIff | sponge/libsponge/tcp_connection.cc:80-115 | over every run a heard segment that is no valid reset closes the connection exactly if the peer closed first, the segment acknowledges something, and the SYN, every byte and the FIN are acknowledged |
| Endings.LastSentIs | sponge/libsponge/tcp_connection.cc:56-58 | `tlastsent` is the time of the last event that sent something |
| Endings.LastHeardIs | sponge/libsponge/tcp_connection.cc:94-100 | `tlast` is the time of the last heard segment that was no valid reset, and `finreceived` says whether one of them was a FIN |
| Endings.NothingHeldBack | sponge/libsponge/tcp_connection.cc:37-160 | over every run the sender's queue is handed over and nothing that could be sent is left unsent |
| Endings.TickGoesOut | sponge/libsponge/tcp_connection.cc:144-149 | what a tick retransmits goes out stamped |
| Endings.WriteAccepts | sponge/libsponge/tcp_connection.cc:120-127 | `write` appends what fits and returns how much that was, and nothing to a closed connection |
| Endings.AlwaysConfigured | sponge/libsponge/tcp_connection.cc:37-171 | over every run the ISN, the initial timeout and both capacities are those of the configuration |
| CleanClose.InvFill | sponge/libsponge/tcp_sender.cc:43-98 | after any `fill_window`, an ended stream with nothing in flight means the FIN has been sent |
| CleanClose.ClosedCleanly | sponge/libsponge/tcp_connection.cc:81-143 | on every run on which no SYN arrives with an acknowledgment of the ISN before the own SYN is out, a connection that is inactive without its error flag has had its SYN, every byte and its FIN acknowledged |
| CleanClose.OnlySynLetIn | sponge/libsponge/tcp_connection.cc:67-79 | on such runs a connection that has sent nothing drops every segment without a SYN |
| SkippedSyn.ClosedCleanlyIff | sponge/libsponge/tcp_connection.cc:67-143 | on every run a connection that closes without its error flag has had its SYN, every byte and its FIN acknowledged exactly if no such SYN has arrived; if one has, no queued segment ever carries a SYN |
| SkippedSyn.ClosesUnopened | sponge/libsponge/tcp_connection.cc:96-143 | a run on which a connection ends, closes without an error, and has never sent its SYN |
| Emission.EventMoves | sponge/libsponge/tcp_connection.cc:37-171 | whatever a connection emits is a genuine excerpt of its stream and acknowledges what its receiver then has |
| Emission.EmittedAs | sponge/libsponge/tcp_connection.cc:37-171 | every segment an event emits is a reset without acknowledgment and window, or advertises the fixed receive capacity cut to 16 bits and acknowledges exactly what the receiver then does |
| Emission.StampedAs | sponge/libsponge/tcp_connection.cc:41-50 | the stamping keeps sequence number, flags and payload and fills in window and acknowledgment |
| Answering.AcknowledgesAll | sponge/libsponge/tcp_connection.cc:37-171 | on every run of two connections on which delivered FINs land, every segment sent other than a reset acknowledges exactly what its end has assembled, and the FIN once the input has ended, with the exception of `AcknoExactIff` |
| Answering.FinIsAcknowledged | sponge/libsponge/tcp_connection.cc:93-110 | on such runs a FIN that is heard is answered, and if it completes the stream, with acknowledgments of all bytes written plus 2 |
| World.Safety | sponge/libsponge/tcp_connection.cc:37-171 | on every run of two connections over a network that loses, repeats and reorders: the output is a prefix of what was written at the other end, and an ended input is all of it |
| World.StepLinked | sponge/libsponge/tcp_connection.cc:37-171 | every event keeps the invariant behind it, in both directions |
| NoLoss.NoByteForgotten | sponge/libsponge/tcp_sender.cc:102-128 | if delivered FINs land, `acked` never exceeds what the peer has assembled, and every byte missing there is still outstanding or buffered here |
| NoLoss.CleanCloseDelivers | sponge/libsponge/tcp_connection.cc:81-143 | on such runs a clean close means the peer has assembled the whole stream and seen its end |
| NoLoss.AckIsOffset | sponge/libsponge/tcp_sender.cc:102-113 | an accepted acknowledgment is the number its 32 bits say |
| LostByte.ByteIsLost | sponge/libsponge/tcp_receiver.cc:39-40 | a legal run of two connections on which a bare FIN over a hole does not land, and the only byte of the stream is acknowledged, dropped and lost |
| Quiescence.FallsSilent | sponge/libsponge/tcp_connection.cc:37-116 | without ticks, writes and duplication any two connections stop within three times what is unsent plus what is in flight |
| Quiescence.Decreases | sponge/libsponge/tcp_connection.cc:67-116 | every delivery and every loss strictly decreases that measure |
| Quiescence.Answers | sponge/libsponge/tcp_connection.cc:100-110 | a segment is answered with new sequence space, or with exactly one bare acknowledgment at the next sequence number if it occupies sequence space, or not at all |
| Checksums.ChunksDoNotMatter | sponge/libsponge/util/util.cc:89-98 | however the bytes are cut into chunks of even or odd length, the checksum is that of the whole, also where the 32-bit sum wraps |
| Checksums.FoldIs | sponge/libsponge/util/util.cc:100-108 | folding is reduction to a residue in 1 .. 65535 |
| Checksums.Inserted | sponge/libsponge/util/util.cc:89-108 | a checksum computed over a zero field and put there makes the data check out (section 1 of RFC 1071), up to 65535 bytes |
| Checksums.DetectsWord | sponge/libsponge/util/util.cc:89-108 | of all contents of one aligned 16-bit word only the transmitted one checks out, except that 0x0000 and 0xffff are alike |
| InternetChecksums.InternetChecksum.Add | sponge/libsponge/util/util.cc:89-98 | the object's new state |
| InternetChecksums.InternetChecksum.Value | sponge/libsponge/util/util.cc:100-108 | the folding loop and the complement |
| NetParsers.NetParser.ParseInt | sponge/libsponge/util/parser.cc:27-43 | reads a big-endian integer and consumes it, or sets the error and consumes nothing |
| NetParsers.NetParser.RemovePrefix | sponge/libsponge/util/parser.cc:45-51 | skips bytes, or sets the error |
| NetParsers.UnparseInt | sponge/libsponge/util/parser.cc:54-60 | appends the big-endian bytes of an integer |
| Parsing.NumberOfBytes | sponge/libsponge/util/parser.cc:27-60 | writing a number and reading it gives it back |
| Parsing.BytesOfNumber | sponge/libsponge/util/parser.cc:27-60 | reading bytes and writing them gives them back |
| TcpWire.HeaderReads | sponge/libsponge/tcp_helpers/tcp_header.cc:17-78 | a serialized header parses to itself, field by field and flag by flag, with the data offset cut to four bits |
| TcpWire.RoundTrip | sponge/libsponge/tcp_helpers/tcp_segment.cc:12-45 | a segment of up to 65535 bytes that can be serialized parses back to itself without error, checksum filled in, exactly when its data offset is at most 15 |
| TcpWire.CorruptionDetected | sponge/libsponge/tcp_helpers/tcp_segment.cc:12-18 | a serialized segment with one aligned word changed is rejected |
| TcpWire.Verdict | sponge/libsponge/tcp_helpers/tcp_segment.cc:12-23 | exactly when parsing reports which error; a data offset below 5 is not reported |
| TcpLayout.Written | sponge/libsponge/tcp_helpers/tcp_header.cc:51-78 | each field of a serialized header is at its own position (section 3.1 of RFC 793), followed by zeros up to the data offset |
| TcpLayout.Parsed | sponge/libsponge/tcp_helpers/tcp_header.cc:17-43 | parsing any 20 bytes or more takes each field from its own position |
| TcpWireMethods.ParseHeader | sponge/libsponge/tcp_helpers/tcp_header.cc:17-48 | assigns every field while consuming the parser |
| TcpWireMethods.SerializeHeader | sponge/libsponge/tcp_helpers/tcp_header.cc:51-78 | appends every field, or refuses a short data offset |
| TcpWireMethods.ParseSegment | sponge/libsponge/tcp_helpers/tcp_segment.cc:12-23 | checks the checksum, then parses |
| TcpWireMethods.SerializeSegment | sponge/libsponge/tcp_helpers/tcp_segment.cc:30-45 | computes the checksum over header and payload, then serializes |
| Ipv4Wire.RoundTrip | sponge/libsponge/tcp_helpers/ipv4_datagram.cc:11-41 | a datagram that can be serialized parses back to itself exactly when its header fields fit and the length field covers the header, or there are no options |
| Ipv4Wire.AnyChecksum | sponge/libsponge/tcp_helpers/ipv4_datagram.cc:11-21 | the same with any header checksum: the datagram's `parse` does not reject a bad one |
| Ipv4Wire.HeaderVerdict | sponge/libsponge/tcp_helpers/ipv4_header.cc:23-75 | the header's own `parse` reports exactly whether the header adds up |
| Ipv4Wire.FieldsRead | sponge/libsponge/tcp_helpers/ipv4_header.cc:23-109 | the twenty fixed bytes parse to the fields that were serialized |
| Ipv4Layout.Written | sponge/libsponge/tcp_helpers/ipv4_header.cc:78-109 | each field of a serialized header is at its own position (section 3.1 of RFC 791), source before destination, followed by zeros up to the header length |
| Ipv4Layout.Parsed | sponge/libsponge/tcp_helpers/ipv4_header.cc:23-75 | parsing any buffer takes each field from its own position and reports, in this order, a short buffer, a wrong version, a short header, a wrong length, a bad checksum |
| Ipv4Layout.DatagramParsed | sponge/libsponge/tcp_helpers/ipv4_datagram.cc:11-21 | the datagram's `parse` takes what is left as the payload and reports only a payload of another size than the header says |
| Ipv4Wire.PseudoIsSum | sponge/libsponge/tcp_helpers/ipv4_header.cc:112-131 | the sum over the bytes of the pseudo-header, without wrapping in 32 bits |
| Ipv4WireMethods.ParseHeader | sponge/libsponge/tcp_helpers/ipv4_header.cc:23-75 | the same fields, in the source's order of checks |
| Ipv4WireMethods.SerializeHeader | sponge/libsponge/tcp_helpers/ipv4_header.cc:78-109 | appends every field, or refuses |
| Ipv4WireMethods.ParseDatagram | sponge/libsponge/tcp_helpers/ipv4_datagram.cc:11-21 | fills the datagram and compares the payload's size |
| Ipv4WireMethods.SerializeDatagram | sponge/libsponge/tcp_helpers/ipv4_datagram.cc:23-41 | fills in the header checksum |
| TcpInIpv4.Unwrapped | sponge/libsponge/tcp_helpers/ipv4_header.cc:125-131 | a segment wrapped in a datagram and unwrapped with the pseudo-header is the segment again, without error |
| NetworkInterfaces.NetworkInterface.SendDatagram | sponge/libsponge/network_interface.cc:32-60 | the object's new state: send, drop, or queue and ask |
| NetworkInterfaces.NetworkInterface.RecvFrame | sponge/libsponge/network_interface.cc:63-111 | the object's new state and what is handed up |
| NetworkInterfaces.NetworkInterface.SendPending | sponge/libsponge/network_interface.cc:86-94 | the loop sends and erases exactly what waited for the address, in order |
| NetworkInterfaces.NetworkInterface.Tick | sponge/libsponge/network_interface.cc:114-130 | the loops drop exactly the expired mappings and cooldowns |
| ArpRuns.InOrder | sponge/libsponge/network_interface.cc:32-94 | over every run, per next hop: datagrams not dropped leave exactly once in the order given, and the rest wait in that order |
| ArpRuns.Conservation | sponge/libsponge/network_interface.cc:32-94 | over every run: given = emitted + pending + dropped, as multisets |
| ArpRuns.FramesAreEmitted | sponge/libsponge/network_interface.cc:32-94 | the IPv4 frames queued are exactly the emitted datagrams, each to the address it was sent to |
| ArpRuns.CacheIs | sponge/libsponge/network_interface.cc:81-85 | the cache holds exactly the latest announcement of every address for 30 seconds |
| ArpRuns.FreshlyMapped | sponge/libsponge/network_interface.cc:40-46 | every datagram goes to the address its hop announced last, less than 30 seconds ago (RFC 826, section "Packet Reception") |
| ArpRuns.RequestsSpaced | sponge/libsponge/network_interface.cc:47-60 | two requests for one address are at least 5 seconds apart |
| ArpRuns.RequestsQueued | sponge/libsponge/network_interface.cc:47-60 | the ARP requests queued for an address over a run are exactly one broadcast for each of those times |
| ArpRuns.RepliesQueued | sponge/libsponge/network_interface.cc:95-109 | the ARP replies queued over a run are exactly one for each request for the interface's own address, to the requester, with the interface's addresses as the sender's |
| ArpRuns.HandedUpIs | sponge/libsponge/network_interface.cc:63-75 | exactly the datagrams that parse, in IPv4 frames broadcast or sent to the interface, are handed up, in order |
| ArpRuns.ClockIs | sponge/libsponge/network_interface.cc:114-115 | the interface's clock is the time that has passed |
| ArpRuns.RunApart | sponge/libsponge/network_interface.cc:40-94 | no address is both known and waited for |
| Routers.Router.AddRoute | sponge/libsponge/router.cc:25-40 | the new table |
| Routers.Router.RouteOneDatagram | sponge/libsponge/router.cc:44-70 | the decremented TTL and the interface and next hop, if any |
| Routing.LongestPrefixMatch | sponge/libsponge/router.cc:44-70 | a datagram is forwarded exactly when its TTL is above 1 and some route matches, on the chosen route's interface and to its next hop, or to the destination on a direct route; the chosen route is a longest match exactly unless a longer one hides behind a direct route at which the loop breaks (section 5.2.4.3 of RFC 1812) |
| Routing.DefaultHides | sponge/libsponge/router.cc:53-64 | a direct default route in front of 10.0.0.0/8 takes the datagrams for 10.0.0.1 |
| Routing.MatchesTopBits | sponge/libsponge/router.cc:56 | the shift test is agreement on the top bits, and length 0 matches everything |
| Routing.AddRouteIs | sponge/libsponge/router.cc:33-39 | a new prefix is appended; a known one only gets the new next hop, not even the new interface |
| Routing.AddRouteKeys | sponge/libsponge/router.cc:33-39 | prefixes stay distinct |

## Left out

- World.Safety: states safety for streams below 2^31 bytes, up to where narrowing keeps the order of their indices, that with the peer's capacity stay below 2^32, so that an index decoded a whole turn away falls outside the window (`ExcerptEnds`); and without writes after the FIN, because those are never sent (`NeverSent`). `PushTruthful`, `ReceiveFaithful`, `NoByteForgotten` and `CleanCloseDelivers` have the same bounds.
- NoLoss.NoByteForgotten: assumes that every delivered FIN lands (`FinLands`), because otherwise it is false (`ByteIsLost`).
- SenderTheorems.RunFlies: assumes streams below 2^63 bytes and no acknowledgment of the ISN before the SYN; the 64-bit wrap-around of `_next_seqno` beyond is not modelled.
- NetworkInterfaces.NetworkInterface.RecvFrame: frames are datatypes, so the byte layout of Ethernet and ARP and the exception for a datagram that cannot be serialized are not modelled.
- Routers.Router.RouteOneDatagram: demands prefix lengths of at most 32, because the source's shift is undefined beyond. For a route of length 0 met after a longer match the source evaluates a shift by 32, which is undefined too; whatever it gives, that route is not taken, since its length is below the longest so far. The method returns the interface number and next hop instead of calling that interface; `route` and the interfaces' incoming queues are not modelled.
- Clocks and byte counters (`now`, `tnow`, `totRead`, `totWrite`) are unbounded numbers; their 64-bit overflow is not modelled. `rto`, `acked`, `eof2` and decoded sequence numbers do wrap.
- `std::map` and `std::multimap` are sequences in key order, or maps; tree lookup is a linear search for the same element.
- `Buffer` and `BufferList` are byte sequences; sharing of storage is not modelled. The views `to_string` and `summary` are not either.
- The order of segments inside `TCPConnection::segments_out` is kept, but its owner's reads are modelled as taking everything.
- The RST sent by the destructor of `TCPConnection`, and the random choice of an ISN, which is a parameter.
- The constructor of `TCPState` from a named state and the comparison of two `TCPState` objects: enumerations only.
- Liveness of the stream, which needs fairness and a bound on losses. `FallsSilent` bounds exchanges without ticks instead.
- A clean close implying that the inbound stream has ended: lingering ends on time alone.
- Sockets, TUN/TAP, the event loop, threads, adapters, DNS, applications and the older copies under `Labs/`.
