# Verified model of an embedded IPv6 and 6LoWPAN stack and its AT command engine

This project models the parts of the Nanostack network stack and of the AT command engine whose correctness depends on several
functions, or on whole runs, and proves what they promise. The code works in place on buffers, lists and counters, and so does the
model: classes and loops for the operations, pure functions for what they stand for, and lemmas that connect the two.

| component | modules |
|---|---|
| IPv6 fragmentation and reassembly, hole descriptors kept inside the reassembly buffer | Ecn, HoleList, Reassembly, Fragmenter, FragRoundTrip |
| Socket buffers over real arrays | Sockbuf |
| TCP session from ESTABLISHED on, and two of them joined by a bad network | TcpNumbers, TcpSender, TcpReceiver, TcpSession, TcpArrival, TcpWorld |
| AT command engine: arguments, lines, command names, output | CatNumbers, CatBuffers, CatVariables, CatRoundTrip, CatLine, CatMatch, CatOutput |
| 6LoWPAN transmit adaptation: fragments, priorities, MAC handles | LowpanFragmenter, LowpanQueue, LowpanAdaptation |
| Router Advertisement scheduling | RaQueue, RaScheduler |
| Source address selection | Addresses, PolicyTable, SourceSelect |

Bytes holds the shared number types. `dafny verify dfyconfig.toml` checks everything.

How the model is built:

- Integers are unbounded in Dafny. Where the code relies on a width, or can overflow it, the model writes the wrap-around out:
  sequence numbers and the window field, the 16-bit round-trip estimator, 16-bit ticks, 64-bit parsing, 8-bit handles and offsets.
- Random delays, answers of the MAC, what handlers return, congestion and the passing of time are inputs or arbitrary choices.
- A TCP session's variables are one record, which the session object updates in place; the code's own fields never depend on the
  history beside it (the streams, and the positions that sequence numbers stand for), which exists only to state what is true.
- TCP sequence comparison has the meaning of RFC 1982, and arrivals have sequence numbers less than 2^31 from those expected.

Seven properties that one might expect turn out not to hold of the code as it is. Each has a concrete case and its exact condition:

- The advertised TCP window (WindowOverrun, ProbeOverruns, ReadAfterOverrun): a receiver takes data beyond the edge it advertised
  when it has the space. Afterwards the edge stays behind exactly when the silly-window rule suppresses the step to the new one, or
  when that step does not fit 16 bits, and the window field reads up to 65535. A session gets there in either way.
- A running retransmission timer for whatever is outstanding (FinArrives, Up, FinWhileOutstanding, FinStopsTimer): a FIN taken in
  ESTABLISHED stops the timer; every other step of a session keeps it, and afterwards no user and no tick starts it again. The
  timeout itself stays positive and within bounds as long as no round trip is measured at more than 4095 ticks (MeasuredCalm, Do).
- Spacing of restarted Router Advertisements (RequeuedExactly, Restart, RestartBreaksSpacing): without initial advertisements a
  restart adds the rate limit to old ticks in 16 bits; the minimum delay is lost exactly when they wrap within 65536 ticks of the
  last transmission.
- Reassembly when the first fragment brings more headers than there is room for (Collect, LagIsStale, LastPieceFirst, LastPieceLast):
  the data are moved up but the end of the buffer is not, until a fragment arrives that lies behind everything before it. The packet
  is handed on exactly if such a fragment came later, or the headers fitted; else it lacks its last bytes.
- Rule 1 of source selection (OwnAddress, OwnAddressCanLose): an own address that is the first candidate is not recognised.
- Distinct prefixes in the policy table (AddEntry, AddedDistinct, DuplicateSlipsIn): only the first entry of equal length is compared.
- AT strings over the line (SendBack, ReturnIsLost): a carriage return is printed as itself, and the line it is sent back on drops it.

Two more have their exact condition: the end of the 6LoWPAN send loop (SendAll and Stuck), and reading back the AT variables that were
printed (ReadBack: all but write-only ones survive).

## Model

| member | source | states |
|---|---|---|
| Ecn.CombineAllIsVerdict | sal-stack-nanostack/Common_Protocols/ipv6_fragmentation.c:264-290 | folding the combination table over any arrival order gives a verdict that depends only on the set of marks seen; an illegal pair anywhere makes it illegal |
| Ecn.VerdictStep | sal-stack-nanostack/Common_Protocols/ipv6_fragmentation.c:543-547 | the running combination is the verdict of the marks so far, one arrival at a time |
| HoleList.PunchShape | sal-stack-nanostack/Common_Protocols/ipv6_fragmentation.c:496-521 | taking a fragment out of a hole keeps the list sorted, disjoint, on 8-byte boundaries and every hole at least 8 bytes |
| HoleList.PunchMembers | sal-stack-nanostack/Common_Protocols/ipv6_fragmentation.c:496-521 | exactly the bytes of the fragment (and, for a last fragment, everything after it) leave the set of missing bytes |
| HoleList.HoleIsMaximal | sal-stack-nanostack/Common_Protocols/ipv6_fragmentation.c:474-527 | two neighbouring holes never touch, so a run of missing bytes lies in one hole |
| HoleList.LinkedDelete | sal-stack-nanostack/Common_Protocols/ipv6_fragmentation.c:165-170 | unhooking a hole through the link that leads to it gives the chain without that hole |
| HoleList.LinkedInsert | sal-stack-nanostack/Common_Protocols/ipv6_fragmentation.c:172-181 | hooking a hole in through a link gives the chain with that hole at that place |
| Reassembly.HolePointer | sal-stack-nanostack/Common_Protocols/ipv6_fragmentation.c:87-92 | a descriptor stands at the hole start, rounded up to an even address, so at most one byte later |
| Reassembly.FirstHoleDecides | sal-stack-nanostack/Common_Protocols/ipv6_fragmentation.c:474-527 | the first hole that does not end before the fragment decides alone whether the fragment overlaps anything received or follows a last fragment, both ways |
| Reassembly.PunchCovers | sal-stack-nanostack/Common_Protocols/ipv6_fragmentation.c:496-521 | the holes stay the exact complement of the bytes received |
| Reassembly.NoHolesMeansWhole | sal-stack-nanostack/Common_Protocols/ipv6_fragmentation.c:587-591 | the list is empty exactly when the last fragment and every byte before it have arrived |
| Reassembly.MergeWellFormed | sal-stack-nanostack/Common_Protocols/ipv6_fragmentation.c:442-582 | an accepted fragment keeps the partial datagram within its size limits and its single header |
| Reassembly.ReceivedBytesKept | sal-stack-nanostack/Common_Protocols/ipv6_fragmentation.c:165-181 | writes to descriptors change no header byte and no received byte |
| Reassembly.OverlayMerges | sal-stack-nanostack/Common_Protocols/ipv6_fragmentation.c:535-536 | copied data lands beside the bytes already received and outside every remaining hole, so no live descriptor is overwritten |
| Reassembly.Datagram.constructor | sal-stack-nanostack/Common_Protocols/ipv6_fragmentation.c:230-247 | a new record holds nothing, has one hole that covers everything, and has exactly the headroom the allocation gives in front of the data |
| Reassembly.Datagram.DeleteHole | sal-stack-nanostack/Common_Protocols/ipv6_fragmentation.c:165-170 | in the buffer: the list loses hole k, and only descriptor bytes change |
| Reassembly.Datagram.CreateHole | sal-stack-nanostack/Common_Protocols/ipv6_fragmentation.c:172-181 | in the buffer: the list gains the hole at position k, the returned link leads behind it, and only descriptor bytes change |
| Reassembly.Datagram.FindHole | sal-stack-nanostack/Common_Protocols/ipv6_fragmentation.c:471-484 | the walk stops at the first hole that does not end before the fragment, with the link that leads to it |
| Reassembly.Datagram.ReplaceHole | sal-stack-nanostack/Common_Protocols/ipv6_fragmentation.c:496-509 | the hole is replaced by what remains of it in front and behind, inside the old hole |
| Reassembly.Datagram.Fill | sal-stack-nanostack/Common_Protocols/ipv6_fragmentation.c:471-533 | succeeds exactly when the fragment overlaps nothing and follows no last fragment, and then the list is the exact complement of the merged datagram; received bytes and headers stay |
| Reassembly.Datagram.Insert | sal-stack-nanostack/Common_Protocols/ipv6_fragmentation.c:471-536 | list and data together: afterwards every received byte is in place and the holes are its complement |
| Reassembly.Datagram.Absorb | sal-stack-nanostack/Common_Protocols/ipv6_fragmentation.c:442-582 | everything that can fail: accepted exactly when size, overlap, last-fragment, ECN and header checks allow it; then the merged datagram is stored, shuffled up or not |
| Reassembly.Datagram.Receive | sal-stack-nanostack/Common_Protocols/ipv6_fragmentation.c:435-617 | one fragment, for every record, shuffled up before or not: dropped for good, waiting, or handed on, exactly as the abstract merge of fragments says; what is handed on is the packet if and only if the end of the buffer does not lag behind the data |
| Reassembly.Datagram.TakeHeader | sal-stack-nanostack/Common_Protocols/ipv6_fragmentation.c:550-574 | refused exactly if headers and data exceed the MRU; otherwise the headers stand in front of the data, shuffled up if there was no room |
| Reassembly.Datagram.Shuffle | sal-stack-nanostack/Common_Protocols/ipv6_fragmentation.c:563-574 | the record stores the same datagram at its new place, the linked hole list included, but the end of the buffer stays behind |
| Reassembly.LinkedCarried | sal-stack-nanostack/Common_Protocols/ipv6_fragmentation.c:563-569 | the bytes that are moved are enough to carry every hole descriptor along, each to where the list looks for it at the new place |
| Reassembly.Datagram.Conclude | sal-stack-nanostack/Common_Protocols/ipv6_fragmentation.c:587-616 | handed on exactly once the datagram is whole: the patched bytes between start and end of the buffer |
| Reassembly.ShortenedLoses | sal-stack-nanostack/Common_Protocols/ipv6_fragmentation.c:563-616 | what is handed on lacks as many bytes at its end as the end of the buffer lags behind, and is the packet only if that is none |
| Reassembly.StaleStep | sal-stack-nanostack/Common_Protocols/ipv6_fragmentation.c:526-569 | one more fragment makes a run stale if it brings headers for which there is no room, and cures it if it lies behind all that arrived before |
| Reassembly.LagIsStale | sal-stack-nanostack/Common_Protocols/ipv6_fragmentation.c:526-569 | the end of the buffer lags behind exactly while the run is stale, a condition on the fragments alone |
| Reassembly.Datagram.ReceiveNext | sal-stack-nanostack/Common_Protocols/ipv6_fragmentation.c:435-617 | the next fragment of a run keeps the record in step with the fragments taken so far, and ends the run as the specification says |
| Reassembly.Collect | sal-stack-nanostack/Common_Protocols/ipv6_fragmentation.c:230-617 | every run of a record, for any fragments in any order: it waits, is discarded at the first fragment that is not acceptable, or hands on the packet if and only if the run is not stale: no headers came for which there was no room, or a later fragment lay behind everything before it |
| Reassembly.AllNeeded | sal-stack-nanostack/Common_Protocols/ipv6_fragmentation.c:435-617 | fragments that are all acceptable and whole together are all used, and complete the datagram |
| Reassembly.CollectWhole | sal-stack-nanostack/Common_Protocols/ipv6_fragmentation.c:230-617 | such fragments give the packet unless the run is stale, and else all but as many bytes of it as the headers exceed 40 |
| Reassembly.LastPieceFirst | sal-stack-nanostack/Common_Protocols/ipv6_fragmentation.c:526-616 | three fragments, the last piece first and then headers of 88 bytes: 64 of the 112 bytes of the packet are handed on |
| Reassembly.LastPieceLast | sal-stack-nanostack/Common_Protocols/ipv6_fragmentation.c:526-616 | the same pieces with the last one last: the packet, although the headers did not fit |
| Fragmenter.PiecesTile | sal-stack-nanostack/Common_Protocols/ipv6_fragmentation.c:674-714 | the pieces are in order, disjoint, on multiples of 8, fit the path, cover the data, and only the last has no successor |
| Fragmenter.PiecesFull | sal-stack-nanostack/Common_Protocols/ipv6_fragmentation.c:674-686 | every piece but the last takes as many blocks of 8 bytes as the path has room for |
| Fragmenter.SkipHeaders | sal-stack-nanostack/Common_Protocols/ipv6_fragmentation.c:643-650 | the walk finds the Next Header octet in front of the fragmentable part and where that part starts |
| Fragmenter.WireHasFields | sal-stack-nanostack/Common_Protocols/ipv6_fragmentation.c:674-714 | byte for byte: a fragment has the headers of the packet with the Next Header octet changed, its own length in the Payload Length field, the fragment header, and exactly its piece of the data |
| Fragmenter.FragDown | sal-stack-nanostack/Common_Protocols/ipv6_fragmentation.c:629-726 | refuses exactly when 8 bytes of payload do not fit; otherwise pushes one fragment for each piece, last first; each fits the path, announces its own length, and has every field of its headers |
| Fragmenter.CutUp | sal-stack-nanostack/Common_Protocols/ipv6_fragmentation.c:674-714 | the splitting loop makes the wire form of each piece |
| FragRoundTrip.ParseFragment | sal-stack-nanostack/Common_Protocols/ipv6_fragmentation.c:371-426 | what is accepted as part of a datagram is a well-formed fragment, and a first part always announces more |
| FragRoundTrip.Refused | sal-stack-nanostack/Common_Protocols/ipv6_fragmentation.c:371-426 | which fragments are refused, and with which pointer, for all bytes that arrive; and that the others are a packet in themselves exactly if nothing lies before or behind them |
| FragRoundTrip.ChainAgrees | sal-stack-nanostack/Common_Protocols/ipv6_fragmentation.c:640-654 | the receiver walks the rewritten headers to the same place as the sender |
| FragRoundTrip.ParseUndoesBuild | sal-stack-nanostack/Common_Protocols/ipv6_fragmentation.c:371-433 | parsing a fragment made by the splitter, by the length it announces, gives back its piece, its bytes, its mark and, for the first one, the original headers |
| FragRoundTrip.PieceAccepted | sal-stack-nanostack/Common_Protocols/ipv6_fragmentation.c:435-582 | a piece that has not arrived yet is never rejected, whatever has arrived before it |
| FragRoundTrip.AllPiecesWhole | sal-stack-nanostack/Common_Protocols/ipv6_fragmentation.c:587-591 | the datagram is complete exactly when every piece has arrived, and then its payload is the original one |
| FragRoundTrip.PatchRestores | sal-stack-nanostack/Common_Protocols/ipv6_fragmentation.c:603-608 | patching ECN and length into the kept header gives back the original header |
| FragRoundTrip.Arrive | sal-stack-nanostack/Common_Protocols/ipv6_fragmentation.c:369-617 | one arrival at the real record: pending until the last piece, then the packet |
| FragRoundTrip.Deliver | sal-stack-nanostack/Common_Protocols/ipv6_fragmentation.c:369-726 | round trip: every well-formed packet within the MRU, every path that fits 8 bytes, every order of arrival and every legal marking on the way end in the original packet with the order-independent ECN |
| FragRoundTrip.AtomicRoundTrip | sal-stack-nanostack/Common_Protocols/ipv6_fragmentation.c:393-426 | a packet that fits one fragment comes back from its atomic fragment at once, by the length that the fragment announces |
| Sockbuf.DataBytesCount | sal-stack-nanostack/Core/sockbuf.c:152-160 | the recomputed data count is the length of the byte queue |
| Sockbuf.CompressedGrows | sal-stack-nanostack/Core/sockbuf.c:58-86 | appending adds the bytes at the end whether or not they are packed; a new buffer is counted exactly when they are not |
| Sockbuf.DroppedShrinks | sal-stack-nanostack/Core/sockbuf.c:89-107 | dropping removes exactly that many bytes from the front, or all of them |
| Sockbuf.Buffer.Pack | sal-stack-nanostack/Core/sockbuf.c:71-77 | moving the data down in place loses and reorders nothing and makes the room asked for |
| Sockbuf.SockBuf.Append | sal-stack-nanostack/Core/sockbuf.c:45-53 | the queue grows by the buffer, and both counters by its sizes |
| Sockbuf.SockBuf.AppendAndCompress | sal-stack-nanostack/Core/sockbuf.c:58-86 | over real arrays: the queue grows by the bytes at its end, in bounds |
| Sockbuf.SockBuf.Drop | sal-stack-nanostack/Core/sockbuf.c:89-107 | over real arrays: the queue loses its front, as the buffer-by-buffer specification says |
| Sockbuf.SockBuf.Flush | sal-stack-nanostack/Core/sockbuf.c:120-124 | nothing is left and both counters are zero |
| Sockbuf.SockBuf.Check | sal-stack-nanostack/Core/sockbuf.c:152-167 | the counters it recomputes are the ones kept, after any mix of operations |
| Sockbuf.SockBuf.SpaceLeft | sal-stack-nanostack/Core/sockbuf.c:145-150 | the smaller of the two spaces left, negative when overfilled |
| TcpNumbers.SeqGtAt | sal-stack-nanostack/Common_Protocols/tcp.c:129-146 | on positions less than 2^31 apart the serial comparisons are comparisons of positions |
| TcpNumbers.SeqInRangeAt | sal-stack-nanostack/Common_Protocols/tcp.c:120-128 | the wrapped range test is a range test on positions |
| TcpNumbers.WindowKept | sal-stack-nanostack/Common_Protocols/tcp.c:704-732 | with nothing taken beyond it, the right edge never moves left and stays within 65535 of what has arrived; it moves exactly if it can and the silly-window rule does not suppress the step, and then to the end of the free space |
| TcpNumbers.WindowOverrun | sal-stack-nanostack/Common_Protocols/tcp.c:704-732 | for every edge left behind by less than 2^31: the window is sound again exactly when the whole step fits the 16-bit variable and the silly-window rule does not suppress it |
| TcpNumbers.SampleIs | sal-stack-nanostack/Common_Protocols/tcp.c:864-868 | the round trip measured is the time since the timer was started, never negative |
| TcpNumbers.SmoothedIsRfc | sal-stack-nanostack/Common_Protocols/tcp.c:862-889 | section 2 of RFC 6298, up to less than one unit of the scaled values: first sample, gains of 1/8 and 1/4, and rto = srtt + 4 * rttvar with its minimum |
| TcpNumbers.EstimateBounded | sal-stack-nanostack/Common_Protocols/tcp.c:862-889 | one round-trip sample of at most 4095 ticks: no 16-bit step overflows, the no-sample marker is not hit, and the bounds on estimate and timeout are kept |
| TcpNumbers.EstimateAllBounded | sal-stack-nanostack/Common_Protocols/tcp.c:862-889 | the same over every sequence of samples |
| TcpSender.AdvanceOk | sal-stack-nanostack/Common_Protocols/tcp.c:789-815 | numbering the front of the queue, or the FIN behind the last byte, keeps the stream invariant |
| TcpSender.AckedOk | sal-stack-nanostack/Common_Protocols/tcp.c:826-850 | an acknowledgement of something outstanding takes exactly those bytes off the queue; one that covers the FIN covers everything |
| TcpSender.FlightsLater | sal-stack-nanostack/Common_Protocols/tcp.c:327-349 | what was transmitted stays true of the stream when it grows or is closed |
| TcpReceiver.Trim | sal-stack-nanostack/Common_Protocols/tcp.c:1441-1500 | accepts exactly what section 3.3 of RFC 793 calls acceptable, and leaves exactly the part inside the window |
| TcpReceiver.AdvertisedTaken | sal-stack-nanostack/Common_Protocols/tcp.c:1441-1461 | everything below the advertised edge is taken in full, even if the space behind it has shrunk |
| TcpReceiver.WindowField | sal-stack-nanostack/Common_Protocols/tcp.c:1091-1093 | the window field sent is the distance to the advertised edge |
| TcpReceiver.OverrunField | sal-stack-nanostack/Common_Protocols/tcp.c:1091-1093 | with the edge left behind, the field is 65536 less the distance |
| TcpSession.ComputeWindow | sal-stack-nanostack/Common_Protocols/tcp.c:704-732 | moves the edge by the computed step and keeps the window invariant |
| TcpSession.Uack | sal-stack-nanostack/Common_Protocols/tcp.c:789-815 | send_next moves by what was sent, the FIN is never outstanding twice, and the timer runs |
| TcpSession.Build | sal-stack-nanostack/Common_Protocols/tcp.c:1012-1134 | exactly one segment, numbered send_next, whose data is the stream at that position; FIN only with the last byte |
| TcpSession.SegmentStart | sal-stack-nanostack/Common_Protocols/tcp.c:590-675 | what goes out is the front of the queue as far as segment size and window allow, one byte as a probe, or the FIN, after a timeout from the first unacknowledged byte; exactly what went out is outstanding; the timers are set as coded, and whatever is outstanding has a running timer |
| TcpSession.StartsSends | sal-stack-nanostack/Common_Protocols/tcp.c:590-675 | nothing goes out exactly if there is nothing to send, or the window is closed and no timeout asks for a probe; otherwise one segment from the first unacknowledged byte, as long as one buffer, the segment size and the window allow, never longer |
| TcpSession.ArmedMeans | sal-stack-nanostack/Common_Protocols/tcp.c:590-675 | whatever goes out starts the timer with the timeout; a closed window makes the session persist and its count start anew, and a segment into an open one ends that |
| TcpSession.Resend | sal-stack-nanostack/Common_Protocols/tcp.c:684-702 | gives up after six retries, otherwise retransmits and counts |
| TcpSession.Send | sal-stack-nanostack/Common_Protocols/tcp.c:327-349 | the stream and the queue grow by the data; transmission starts if the session was idle; refused once closed |
| TcpSession.Close | sal-stack-nanostack/Common_Protocols/tcp.c:516-551 | the state moves at once, the FIN follows the data |
| TcpSession.BackOff | sal-stack-nanostack/Common_Protocols/tcp.c:953-958 | the timeout doubles up to its maximum and the segment is sent again, or the session gives up |
| TcpSession.Tick | sal-stack-nanostack/Common_Protocols/tcp.c:941-971 | nothing happens before the timer runs out; then backing off with twice the timeout, giving up after six tries, leaving TIME-WAIT, or the FIN-WAIT-2 timeout; a running timer of something outstanding keeps running |
| TcpSession.AckNow | sal-stack-nanostack/Common_Protocols/tcp.c:755-780 | receive_next moves by what is acknowledged, the edge by the computed step, and a bare acknowledgement with exactly that window goes out |
| TcpSession.Read | sal-stack-nanostack/Common_Protocols/tcp.c:734-743 | the bytes given out and those left are the queue that was there; an opened window is announced, and one that has not opened is not |
| TcpSession.SameNumberSameByte | sal-stack-nanostack/Common_Protocols/tcp.c:590-675 | first sends, retransmissions and probes never give two bytes the same number, and every FIN is numbered just after the last byte |
| TcpArrival.AckSegment | sal-stack-nanostack/Common_Protocols/tcp.c:826-902 | the acknowledged bytes leave the queue, and once nothing is outstanding the next segment or FIN follows |
| TcpArrival.Next | sal-stack-nanostack/Common_Protocols/tcp.c:855-901 | the round-trip estimate is updated as measured, and transmission goes on exactly if there is data or an unsent FIN |
| TcpArrival.ProbeAnswered | sal-stack-nanostack/Common_Protocols/tcp.c:1585-1597 | an answer that opens the window restarts transmission; otherwise only the retry count is reset |
| TcpArrival.NewerAt | sal-stack-nanostack/Common_Protocols/tcp.c:1569-1583 | a segment updates the window exactly if it lies further on in the stream than the one the window came from, or equally far on and acknowledges no less |
| TcpArrival.MeasuredIs | sal-stack-nanostack/Common_Protocols/tcp.c:855-889 | only an acknowledgement of something sent once is measured (Karn's rule), and then, within bounds, the estimate is that of RFC 6298 |
| TcpArrival.FinAcknowledged | sal-stack-nanostack/Common_Protocols/tcp.c:1599-1631 | FIN-WAIT-1, CLOSING and LAST-ACK move on exactly when the FIN has been acknowledged |
| TcpArrival.ProcessAck | sal-stack-nanostack/Common_Protocols/tcp.c:1557-1632 | below una: nothing happens; above nxt: answered, and processing stops; between: the window becomes that of the segment exactly if it is not older, the acknowledged bytes leave the queue, only an acknowledgement of everything outstanding or a window that opens under a persisting session sends, and FIN-WAIT-1, CLOSING and LAST-ACK follow the acknowledgement of the FIN |
| TcpArrival.FinArrives | sal-stack-nanostack/Common_Protocols/tcp.c:1674-1710 | the state after an in-order FIN, for every state; the timer of something outstanding keeps running exactly if the state was not ESTABLISHED |
| TcpArrival.TakeText | sal-stack-nanostack/Common_Protocols/tcp.c:1650-1716 | in-order text is appended to the queue as it is, counted and acknowledged, with the window exactly as computed; the timer is lost exactly by a FIN taken in ESTABLISHED while something is outstanding |
| TcpArrival.ProcessText | sal-stack-nanostack/Common_Protocols/tcp.c:1643-1716 | only text at the expected position is taken, and its FIN moves the state; other text is answered and changes nothing; data for a socket that cannot receive resets the session |
| TcpArrival.Up | sal-stack-nanostack/Common_Protocols/tcp.c:1431-1716 | an arrival adds exactly the in-order part of its data that lies in the window, takes a FIN exactly when everything before it is there, moves the sender exactly by an acceptable acknowledgement, and takes the window exactly from a segment that is not older; the state, whether the session lives on, and the answer are exact for every state, RST, SYN and missing ACK; a new SYN in TIME-WAIT is handed on exactly if its number is not old |
| TcpArrival.ReceivedIsPrefix | sal-stack-nanostack/Common_Protocols/tcp.c:1643-1667 | if what was received is a prefix of the peer's stream, it still is after any segment of that stream; a FIN taken means that it is the whole stream |
| TcpArrival.ProbeOverruns | sal-stack-nanostack/Common_Protocols/tcp.c:1441-1716 | for every size of the queue: a session filled up, which then takes a probe of one byte beyond its edge and answers with a window of 65535 where it has no room |
| TcpArrival.ReadAfterOverrun | sal-stack-nanostack/Common_Protocols/tcp.c:704-743 | when the application then reads everything in one go, the window is sound again if and only if the queue takes less than 65535 bytes; else the step of 65536 reads as none and the peer is told nothing |
| TcpArrival.MeasuredCalm | sal-stack-nanostack/Common_Protocols/tcp.c:862-889 | an acknowledgement measured at no more than 4095 ticks keeps the bounds of estimate and timeout, whatever the session did before |
| TcpWorld.Session.Write | sal-stack-nanostack/Common_Protocols/tcp.c:327-349 | a send is a local step that extends the stream, and neither stops nor starts a timer of something outstanding |
| TcpWorld.Session.Take | sal-stack-nanostack/Common_Protocols/tcp.c:734-743 | what the application reads is the received stream, in order |
| TcpWorld.Session.Do | sal-stack-nanostack/Common_Protocols/tcp.c:327-971 | any event of user or clock is a local step; with the timeout in its bounds, which it keeps, a running timer is not lost; and a session that has lost it sends nothing but bare acknowledgements |
| TcpWorld.Session.Arrive | sal-stack-nanostack/Common_Protocols/tcp.c:1159-1716 | an arrival does to the session object what the specification of a step says; whatever is outstanding keeps its timer unless a FIN is taken in ESTABLISHED; a prompt acknowledgement keeps the timeout in its bounds |
| TcpWorld.Placeable | sal-stack-nanostack/Common_Protocols/tcp.c:120-146 | while both streams are shorter than 2^31, every segment ever sent can be told from every other, however late it arrives |
| TcpWorld.AckKnown | sal-stack-nanostack/Common_Protocols/tcp.c:1557-1601 | an acknowledgement that moves the sender covers no more than its author had received |
| TcpWorld.MovesOk | sal-stack-nanostack/Common_Protocols/tcp.c:327-1716 | any event at one side keeps both directions linked |
| TcpWorld.Happen | sal-stack-nanostack/Common_Protocols/tcp.c:327-1716 | for the session objects and streams of any length: every event, and the arrival of any segment the peer ever sent whose numbers are near those expected, is a step of the transition relation and keeps both invariants |
| TcpWorld.ShortIsClear | sal-stack-nanostack/Common_Protocols/tcp.c:120-146 | while both streams are shorter than 2^31, everything may happen |
| TcpWorld.Network.Step | sal-stack-nanostack/Common_Protocols/tcp.c:327-1716 | one event anywhere, for streams of any length, adds one sound state to the run |
| TcpWorld.Network.Wander | sal-stack-nanostack/Common_Protocols/tcp.c:327-1716 | end to end for streams of any length, over every run in which no segment arrives when its numbers have become ambiguous |
| TcpWorld.Network.Drive | sal-stack-nanostack/Common_Protocols/tcp.c:327-1716 | end to end for short streams: any list of writes, reads, closes, ticks and deliveries of any segment in any order and number, however late; each application has read a prefix of what the other wrote, and all of it if it has seen and read to the end |
| TcpWorld.EndToEnd | sal-stack-nanostack/Common_Protocols/tcp.c:327-1716 | the same in every state the two sessions went through: received is a prefix of sent, all of it once the end was seen, and nothing is taken for acknowledged that the other side has not got |
| TcpWorld.WindowNeverRetreats | sal-stack-nanostack/Common_Protocols/tcp.c:704-732 | in every run whose peer stays inside the advertised window the edge never moves left and the window field is exact |
| TcpWorld.FinWhileOutstanding | sal-stack-nanostack/Common_Protocols/tcp.c:1674-1681 | any session with something outstanding in ESTABLISHED, when a FIN arrives that acknowledges none of it, stops its timer, and no user or clock event restarts it; only an arrival can, such as an acknowledgement or a window that closes and opens again |
| TcpWorld.FinStopsTimer | sal-stack-nanostack/Common_Protocols/tcp.c:1674-1681 | a connection that has sent one byte, whose timer the peer's FIN stops |
| CatNumbers.ParseInt | application/cat.c:1062-1105 | a value exactly for an optional sign and digits up to a comma or the end, and then their value |
| CatNumbers.ParseUint | application/cat.c:1107-1134 | a value exactly for digits up to a comma or the end, modulo 2^64 |
| CatNumbers.ParseHex | application/cat.c:1136-1174 | a value exactly for 0x and digits up to a comma or the end, modulo 2^64 |
| CatBuffers.ParseHexBuf | application/cat.c:1176-1219 | bytes exactly for an even, nonzero number of digits that fit; they overwrite the front of the variable |
| CatBuffers.ParseString | application/cat.c:1221-1301 | the unescaped content exactly for a closed literal that fits with its terminator |
| CatVariables.DecValue | application/cat.c:1501-1531 | decimal digits give back their number |
| CatVariables.HexValueBack | application/cat.c:1533-1567 | fixed-width hexadecimal digits give back their number |
| CatVariables.OctetsBack | application/cat.c:1569-1592 | a printed buffer gives back its bytes |
| CatVariables.ScanBack | application/cat.c:1594-1639 | an escaped string gives back its characters, quotes, backslashes and newlines included |
| CatVariables.RangeIs | application/cat.c:1062-1412 | a value fits a variable of 1, 2 or 4 bytes exactly if the C integer type of that size and sign holds it |
| CatVariables.ParseVar | application/cat.c:1363-1412 | one argument, with the range check of its type and size; for a read-only variable the text is checked, the value is not, and nothing changes |
| CatVariables.ParseWriteArgs | application/cat.c:1363-1449 | the whole list: too many arguments, too few where all are needed, and bad ones fail |
| CatRoundTrip.FormatString | application/cat.c:1594-1639 | prints the escaped string exactly if it fits with its terminator |
| CatRoundTrip.FormatHexBuf | application/cat.c:1569-1592 | prints all bytes exactly if they fit |
| CatRoundTrip.FormatVar | application/cat.c:1451-1639 | prints a variable, or nothing but blanks for a write-only one, exactly if it fits |
| CatRoundTrip.FormatReadArgs | application/cat.c:1744-1830 | prints the comma-separated list exactly if it fits behind what is already there |
| CatRoundTrip.VarBack | application/cat.c:1062-1361 | printed contents of any type, followed by a comma or the end, are read back into any contents of that type |
| CatRoundTrip.ArgBack | application/cat.c:1176-1412 | the same for a variable with its access |
| CatRoundTrip.ListBack | application/cat.c:1363-1449 | reading the printed list accepts all of it and restores every variable as far as its access allows |
| CatRoundTrip.RoundTrip | application/cat.c:1363-1853 | the same for the printing and reading loops themselves: read-write variables are restored, read-only ones untouched, write-only ones blanked |
| CatRoundTrip.ReadBack | application/cat.c:1485-1640 | the variables of a command are printed and the text is read back into them: each keeps its value if and only if it is not write-only or is blank already |
| CatLine.ReadLine | application/cat.c:1876-1920 | the argument line ends at the first newline and is everything before it but carriage returns; otherwise it is a question, too long, or unfinished, each exactly when |
| CatLine.PrintedPlain | application/cat.c:1451-1639 | nothing printed for a variable contains a newline or starts like a question; without carriage returns it is what would be printed for the variable without them |
| CatLine.BlankPrinted | application/cat.c:1485-1640 | a write-only variable is printed as 0, as zeros in its full width, or as an empty string |
| CatLine.SendBack | application/cat.c:1363-1920 | the whole way: the variables of a command are printed, the text is sent as an argument line with anything behind it, and read back; all of it is accepted, and each variable keeps its value if and only if it is not write-only, or is blank already, and is not a read-write string with a carriage return |
| CatLine.ReturnIsLost | application/cat.c:1594-1917 | a string of two letters with a carriage return between them, which comes back without it |
| CatMatch.FieldSet | application/cat.c:792-805 | a packed two-bit entry reads back as written |
| CatMatch.FieldKept | application/cat.c:792-805 | writing one packed entry leaves the other three of its byte |
| CatMatch.PrefixMore | application/cat.c:807-827 | one more character only ever narrows a match |
| CatMatch.Matcher.Prepare | application/cat.c:520-531 | every enabled command matches the empty name partially |
| CatMatch.Matcher.SetState | application/cat.c:792-805 | one entry of the table changes, no other |
| CatMatch.Matcher.UpdateOne | application/cat.c:807-827 | an entry follows the comparison of its name with what has been typed |
| CatMatch.Matcher.Type | application/cat.c:807-843 | after each character the whole table says what comparing every name would say, disabled commands never matching; an implicit write is reported exactly when such a command matches in full |
| CatMatch.Matcher.Search | application/cat.c:931-961 | the first exact match; without one the only partial match; otherwise nothing, with the code's own choice between not found and error |
| CatMatch.ChosenByName | application/cat.c:931-961 | what the search makes of the table is the choice by names: the first enabled command with this name, else the only one whose name begins with it, else none |
| CatMatch.Matcher.Resolve | application/cat.c:409-961 | from the characters read, in either case, to the command chosen, in terms of names alone; reading stops at the first character that completes the name of a command with an implicit write, and only there |
| CatOutput.OneStretch | application/cat.c:2459-2519 | each response is one contiguous stretch of the output |
| CatOutput.Engine.Wait | application/cat.c:2443-2457 | a machine starts writing exactly when the other is not writing |
| CatOutput.Engine.EndOfPart | application/cat.c:2459-2481 | newline, body, newline, in that order; a response ends only when all of it is out |
| CatOutput.Engine.WriteChar | application/cat.c:2483-2488 | the next character of the response is appended to the output |
| CatOutput.Engine.PendingBound | application/cat.c:2443-2519 | a response takes at most as many calls as it and one before it have characters, and 16 more |
| CatOutput.Engine.Service | application/cat.c:2650-2674 | one call, the unsolicited machine first: a machine that waits while the other is not writing starts to write, and with a terminal that accepts characters each response comes closer to its end |
| CatOutput.Engine.Run | application/cat.c:2521-2674 | in every run the machines never write at once, and the output is a sequence of complete responses of which only the last may be unfinished; for each machine these are exactly the responses its handlers left, in order, apart from one it holds while it waits; whatever was left before is completely written after enough calls in which the terminal accepts a character |
| LowpanFragmenter.DecodeUndoesEncode | sal-stack-nanostack/6LoWPAN/adaptation_interface.c:729-748 | size, tag, offset and payload come back from a frame |
| LowpanFragmenter.Entry.Init | sal-stack-nanostack/6LoWPAN/adaptation_interface.c:656-724 | fails exactly if the datagram or its headers are too large; the first fragment is as long as it can be and the offset is its end in the uncompressed datagram |
| LowpanFragmenter.Entry.Write | sal-stack-nanostack/6LoWPAN/adaptation_interface.c:729-748 | the frame is the wire form of the current fragment |
| LowpanFragmenter.Entry.Ready | sal-stack-nanostack/6LoWPAN/adaptation_interface.c:1470-1514 | the data and the offset move past the fragment that was sent, and sizes alone say whether it was the last |
| LowpanFragmenter.Entry.SendNext | sal-stack-nanostack/6LoWPAN/adaptation_interface.c:729-1514 | a later fragment lies where its 8-bit offset says and fits its frame |
| LowpanFragmenter.TilesAll | sal-stack-nanostack/6LoWPAN/adaptation_interface.c:1470-1514 | fragments that tile a stretch of the datagram are that stretch, put together |
| LowpanFragmenter.SendDatagram | sal-stack-nanostack/6LoWPAN/adaptation_interface.c:656-1514 | over the whole loop: payloads join up to the compressed data, later fragments tile the uncompressed datagram from the end of the first, every frame fits, and the loop ends |
| LowpanFragmenter.Entry.SendAll | sal-stack-nanostack/6LoWPAN/adaptation_interface.c:729-1514 | the same from the first fragment on, whenever a later fragment can carry 8 bytes or the rest fits one |
| LowpanFragmenter.Entry.Stuck | sal-stack-nanostack/6LoWPAN/adaptation_interface.c:1506-1511 | otherwise a confirmed fragment changes nothing and the loop never ends |
| LowpanQueue.BucketsDecide | sal-stack-nanostack/6LoWPAN/adaptation_interface.c:252-294 | order by priority and order within each priority determine the queue |
| LowpanQueue.Queue.Write | sal-stack-nanostack/6LoWPAN/adaptation_interface.c:252-272 | sorted by priority, behind everything of its own priority, counter kept; its stamp is later than every other |
| LowpanQueue.Queue.WriteToFront | sal-stack-nanostack/6LoWPAN/adaptation_interface.c:274-294 | sorted by priority, ahead of everything of its own priority, counter kept; its stamp is earlier than every other |
| LowpanQueue.PurgeConserves | sal-stack-nanostack/6LoWPAN/adaptation_interface.c:1253-1264 | what is kept and what is purged is what there was |
| LowpanAdaptation.Adaptation.Read | sal-stack-nanostack/6LoWPAN/adaptation_interface.c:296-319 | the first packet that may go, if none before it has to wait; otherwise none |
| LowpanAdaptation.Adaptation.AllowedMeans | sal-stack-nanostack/6LoWPAN/adaptation_interface.c:1172-1204 | a packet may go exactly if nothing is in fragments and, for a broadcast, no broadcast is under way; for a unicast, there is a place among the active ones and, without the TI MAC, nothing under way for its destination and no higher priority state it does not belong to |
| LowpanAdaptation.Adaptation.EnableHighPriority | sal-stack-nanostack/6LoWPAN/adaptation_interface.c:1242-1271 | whatever subset the MAC lets be purged goes ahead of all queued packets of its priority in its old order; no packet is lost or repeated |
| LowpanAdaptation.Adaptation.ExitHighPriority | sal-stack-nanostack/6LoWPAN/adaptation_interface.c:1206-1240 | left exactly after 50 ticks and when no request on its way and no queue head has that priority |
| LowpanAdaptation.Pigeonhole | sal-stack-nanostack/6LoWPAN/adaptation_interface.c:382-396 | fewer values than handles leave a handle free |
| LowpanAdaptation.Adaptation.UniqueHandle | sal-stack-nanostack/6LoWPAN/adaptation_interface.c:382-396 | the search ends when fewer than 256 requests are live, with a handle none of them has |
| LowpanAdaptation.DistinctFinds | sal-stack-nanostack/6LoWPAN/adaptation_interface.c:1545-1566 | a handle belongs to at most one live request |
| LowpanAdaptation.Adaptation.Start | sal-stack-nanostack/6LoWPAN/adaptation_interface.c:1375-1403 | the request joins its list under a handle of its own |
| LowpanAdaptation.Adaptation.Admit | sal-stack-nanostack/6LoWPAN/adaptation_interface.c:1357-1403 | to the MAC exactly if allowed, refused exactly for a normal packet under congestion, queued in order otherwise; no direct request starts while fragments are on their way |
| LowpanAdaptation.Adaptation.Tx | sal-stack-nanostack/6LoWPAN/adaptation_interface.c:1312-1460 | a send adds its packet, or refuses it, and loses no other; a packet that may go is started at once |
| LowpanAdaptation.Adaptation.SendQueued | sal-stack-nanostack/6LoWPAN/adaptation_interface.c:1646-1651 | the loop that empties the queue ends; the first packet it takes is the first that may go, each one is started, none is refused or queued again, and none that may go is left; while fragments are on their way it takes none |
| LowpanAdaptation.Adaptation.Settle | sal-stack-nanostack/6LoWPAN/adaptation_interface.c:1534-1640 | a confirm lets exactly the one request with its handle go on to its next fragment, try again, or finish; the fragmenter is free again exactly when a direct request in fragments finishes |
| LowpanAdaptation.Adaptation.TxConfirm | sal-stack-nanostack/6LoWPAN/adaptation_interface.c:1534-1655 | the whole confirm: a direct request with fragments left goes on and nothing else starts; a retry finishes nothing; after the confirm of a direct request, whatever its outcome, nothing is left queued that may go; the high-priority state is left as soon as it can be and not before; every packet is accounted for |
| LowpanAdaptation.Adaptation.Step | sal-stack-nanostack/6LoWPAN/adaptation_interface.c:1242-1655 | every event, sends and confirms to timers: the packets let in and finished balance those queued and live; a confirm of a direct request, and a timer that ends the high-priority state, leave nothing queued that may go |
| LowpanAdaptation.Adaptation.Run | sal-stack-nanostack/6LoWPAN/adaptation_interface.c:252-1655 | in every run: the queue stays sorted with each priority in order of arrival, both counters are the list lengths, live handles are pairwise distinct, without the TI MAC no two active requests have the same destination, the fragmenter is in use exactly while one direct request is in fragments, and every packet let in is queued, live or finished, once |
| RaQueue.ScheduleSorted | sal-stack-nanostack/Common_Protocols/icmpv6_radv.c:107-122 | relative ticks can only mean sorted absolute deadlines |
| RaQueue.ScheduleInsert | sal-stack-nanostack/Common_Protocols/icmpv6_radv.c:110-122 | inserting with relative ticks is inserting by deadline, behind equal deadlines |
| RaQueue.ScheduleRemove | sal-stack-nanostack/Common_Protocols/icmpv6_radv.c:124-133 | removing an entry changes no other deadline |
| RaQueue.ExpireSplit | sal-stack-nanostack/Common_Protocols/icmpv6_radv.c:344-356 | consuming t ticks fires exactly what is due within t and lowers every other deadline by t |
| RaQueue.Queue.Enqueue | sal-stack-nanostack/Common_Protocols/icmpv6_radv.c:110-122 | the denoted schedule gains the one entry |
| RaQueue.Queue.Unqueue | sal-stack-nanostack/Common_Protocols/icmpv6_radv.c:124-133 | the denoted schedule loses the one entry |
| RaQueue.Queue.Lookup | sal-stack-nanostack/Common_Protocols/icmpv6_radv.c:136-150 | the first entry for the key and its absolute deadline |
| RaQueue.Queue.Expire | sal-stack-nanostack/Common_Protocols/icmpv6_radv.c:344-356 | the entries due leave in order of deadline; the others come closer by t |
| RaScheduler.HoldIsEnough | sal-stack-nanostack/Common_Protocols/icmpv6_radv.c:184-191 | the rate limit is what is missing to the minimum delay, exactly so while the counter has not wrapped since; computed modulo its width, it never comes out too short |
| RaScheduler.FarOff | sal-stack-nanostack/Common_Protocols/icmpv6_radv.c:168-183 | a periodic advertisement due no sooner than the longest delay is always replaced |
| RaScheduler.RequeuedExactly | sal-stack-nanostack/Common_Protocols/icmpv6_radv.c:299-304 | from the last transmission on, a restarted entry loses the minimum delay exactly when its 16-bit ticks wrap within 65536 ticks of that transmission |
| RaScheduler.Scheduler.TriggerFromRs | sal-stack-nanostack/Common_Protocols/icmpv6_radv.c:153-200 | an answer takes the place of what was queued for its key if and only if that answers no other solicitation and is due later than the delay drawn; it is due exactly that delay after the rate limit, or at once for one host; otherwise what is queued stays; the rest of the schedule is the same |
| RaScheduler.Scheduler.Restart | sal-stack-nanostack/Common_Protocols/icmpv6_radv.c:253-305 | exactly one multicast entry is queued, with the ticks and the rate limit added in 16 bits, and still answers a solicitation exactly if it did; nothing else moves; the spacing of its key is lost exactly when the restart wraps |
| RaScheduler.Scheduler.Requeue | sal-stack-nanostack/Common_Protocols/icmpv6_radv.c:299-304 | every requeued entry, wrapped or not: its place in the schedule, and whether its key keeps the minimum delay |
| RaScheduler.Scheduler.Stop | sal-stack-nanostack/Common_Protocols/icmpv6_radv.c:308-321 | exactly the entries of that interface and border router leave the schedule |
| RaScheduler.Scheduler.Fire | sal-stack-nanostack/Common_Protocols/icmpv6_radv.c:358-384 | sent exactly if the interface advertises; multicasts are scheduled again within the configured interval, or, exactly while initial ones are left, no later than the initial interval, and the count of those goes down |
| RaScheduler.Scheduler.Tick | sal-stack-nanostack/Common_Protocols/icmpv6_radv.c:338-391 | sends exactly what is due, in order; the rest comes closer, and exactly the sent multicasts are queued again behind it, each at an allowed interval |
| RaScheduler.Scheduler.Step | sal-stack-nanostack/Common_Protocols/icmpv6_radv.c:153-391 | any event: the spacing of a key is given up exactly by a restart of it that wraps, and by nothing else |
| RaScheduler.Scheduler.Run | sal-stack-nanostack/Common_Protocols/icmpv6_radv.c:153-391 | over every run of solicitations, restarts, stops, ticks and switches: multicasts for one interface and border router are never closer than the minimum delay and at most one is queued, unless a restart of that very key has wrapped, which takes an interface without initial advertisements |
| RaScheduler.RestartBreaksSpacing | sal-stack-nanostack/Common_Protocols/icmpv6_radv.c:253-391 | a scheduler started up, restarted twice after its first transmission, that sends again after 29 ticks where 30 are the minimum |
| Addresses.XorAgrees | sal-stack-nanostack/Core/ns_address_internal.c:438-443 | leading zeros of an exclusive or count the leading bits that agree |
| Addresses.ScopeIs | sal-stack-nanostack/Core/ns_address_internal.c:181-212 | scope by prefixes: bits 12 to 15 of a multicast address; fe80::/10, ::1, mapped 169.254/16 and 127/8 link-local; fec0::/10 site-local; all others global |
| Addresses.CommonPrefixLen | sal-stack-nanostack/Core/ns_address_internal.c:427-447 | the length of the longest common prefix of bits, up to the source prefix length |
| Addresses.CommonIs | sal-stack-nanostack/Core/ns_address_internal.c:427-447 | that length is the only one up to which all bits agree and at which they stop |
| PolicyTable.InsertedSorted | sal-stack-nanostack/Core/ns_address_internal.c:341-358 | every insertion keeps the table sorted by length |
| PolicyTable.FindIsLongest | sal-stack-nanostack/Core/ns_address_internal.c:414-424 | the first match in the table is a longest one |
| PolicyTable.FindInserted | sal-stack-nanostack/Core/ns_address_internal.c:329-424 | adding an entry changes the match exactly of the addresses it matches at least as long |
| PolicyTable.Table.AddEntry | sal-stack-nanostack/Core/ns_address_internal.c:329-360 | inserted in front of everything not longer; refused exactly if the first entry of its length has the same prefix; prefixes stay distinct exactly if it is refused or none of those behind that entry has it either |
| PolicyTable.Table.DeleteEntry | sal-stack-nanostack/Core/ns_address_internal.c:362-373 | removes an entry with that prefix exactly if there is one |
| PolicyTable.Table.GetPolicy | sal-stack-nanostack/Core/ns_address_internal.c:414-424 | finds the first match |
| PolicyTable.AddedDistinct | sal-stack-nanostack/Core/ns_address_internal.c:341-358 | an addition that the code does not refuse keeps prefixes distinct exactly when the new one is not behind the one entry it is compared with |
| PolicyTable.DuplicateSlipsIn | sal-stack-nanostack/Core/ns_address_internal.c:341-358 | three additions after which the table holds a prefix twice |
| SourceSelect.PrefersNew | sal-stack-nanostack/Core/ns_address_internal.c:630-708 | the pairwise rules replace the candidate exactly when the new one is strictly greater in the lexicographic order |
| SourceSelect.RulesAreRanks | sal-stack-nanostack/Core/ns_address_internal.c:630-708 | the pairwise rules of RFC 6724, each as worded there, are one lexicographic order, hence transitive |
| SourceSelect.Select | sal-stack-nanostack/Core/ns_address_internal.c:589-712 | the single pass returns the first of the best under that order, or an own address seen after the first candidate |
| SourceSelect.SelectedIsBest | sal-stack-nanostack/Core/ns_address_internal.c:589-712 | for a destination that is not an own address, the rules prefer no usable candidate to the choice, and the choice to every earlier one |
| SourceSelect.OwnAddress | sal-stack-nanostack/Core/ns_address_internal.c:618-628 | an own destination is chosen exactly when it also stands behind the first candidate or nothing outranks it |
| SourceSelect.OwnAddressCanLose | sal-stack-nanostack/Core/ns_address_internal.c:618-628 | a deprecated own destination that comes first is not chosen, another address is |

## Left out

- Reassembly.Collect: headers in front of a fragment header come in units of 8 bytes, as the walk over them gives them.
- Fragmentation: lookup of the record by address and identification, eviction of the oldest record, the reassembly timer and ICMP errors; allocation is taken to succeed.
- Sockbuf: counters are not limited to 32 bits, because the bytes counted are in memory.
- Sockbuf.SockBuf.Check: the correction of counters found wrong is not modelled, because it is shown that they never are.
- TcpArrival.Up: what a listening socket does with a SYN handed on from TIME-WAIT is not modelled; nor are opening a connection, abort and everything before ESTABLISHED.
- TcpSession.Build: ports, checksum and metadata are not modelled, and an acknowledgement buffer is taken to be allocated; without one the code would count data as not received that it has already queued.
- CatNumbers.ParseInt: signed 64-bit overflow on very long digit strings is undefined in C and not modelled; values are unbounded.
- CatVariables.ParseVar: handlers called for each variable are left out.
- CatVariables.ParseWriteArgs: write handlers that refuse a value are left out, and a list that fails says nothing about the variables written before it did.
- CatRoundTrip.FormatVar: read handlers called before printing are left out.
- CatRoundTrip.FormatReadArgs: read handlers that refuse are left out.
- CatMatch: groups of commands are flattened, a command counting as disabled if its group is.
- CatOutput.Engine.Run: handlers of unsolicited responses do not return HOLD, which would take the command machine out of its writing state; handlers that write to the terminal directly are left out.
- CatOutput.Engine.DoWork: what handlers and parsers do between responses is an arbitrary choice.
- AT help text, the ring buffer of unsolicited commands and the mutex callbacks.
- LowpanFragmenter.Entry.Init: the scan of compressed headers is an input whose uncompressed size is a multiple of 8; when it recognises no header and finds 0 bytes, frames with room for exactly 4 bytes are not modelled beyond the first fragment; mesh and broadcast headers are already separated.
- LowpanAdaptation.Adaptation.Tx: fragmentation set-up succeeds, since a packet comes with the sizes it is fragmented by, and indirect packets have room; caching of indirect packets and making room for them are not modelled, except that indirect requests may be discarded.
- LowpanAdaptation.Adaptation.TxConfirm: whether an expired indirect packet is tried again is an input, and cached indirect packets are not triggered; the fragmenter flag under purge by address and the pending bit of first fragments are left out.
- LowpanAdaptation.Adaptation.Run: runs end when more than 244 indirect requests are live, where handles could run out.
- TcpWorld.Network.Drive: each stream is shorter than 2^31 bytes, so that no late segment can be taken for a new one; Network.Wander has no such limit.
- TcpWorld.Network.Wander: a segment is not delivered once its sequence or acknowledgement number has become ambiguous, as the maximum segment lifetime ensures; the events are chosen by Network.Choose, of which only the contract is used.
- TcpArrival.MeasuredCalm: a round trip measured at more than 4095 ticks of 150 ms may overflow the 16-bit estimate, and nothing is said of the timeout then.
- RaScheduler.Scheduler.Run: intervals are configured so that the longest plus the rate limit fits 16 bits; beyond that a restart could wrap with initial advertisements too. Border routers do not come and go, since their timing information lives elsewhere; contents of advertisements are not modelled.
- Addresses.Scope: the Thread-specific realm-local rule is not modelled.
- SourceSelect: addr_select_with_prefix, and the default policy table itself.
- Drivers, mesh bring-up, over-the-air update, hashing and checksums, routing, neighbour caches, DHCPv6, MLD and UDP: input and output plumbing, foreign calls or logic in tables that are not part of this model.
