# libnice in Dafny

A model of four parts of libnice and proofs about them.

**The pseudo-TCP socket** (`pseudotcp.c`) is the main part: a reliable byte
stream over datagrams. `PseudoTcp.dfy` models the socket as a class whose fields are
the groups of the private structure, with the 32-bit sequence numbers, the two
ring buffers (`Fifo.dfy`) and the three queues of the code. Ghost fields hold
what these stand for: unbounded stream positions, the send half (`Segments.dfy`,
`Sending.dfy`, `SendLoop.dfy`), the receive half (`Reassembly.dfy`), and two logs:
`sent`, the bytes `Send` has accepted, which no other method changes, and `got`,
the bytes `Recv` has returned. `Valid` says how one represents the other, and
every method keeps it. `Connection.dfy` and `Acking.dfy` say how the fields depend
on each other; `Steps.dfy` says what one call looks like from outside.
`Channel.dfy` puts two ends and a network together: packets may be lost, repeated
and reordered, and the stream theorem holds in every state of every run.
`FlowControl.dfy` does the same for flow control, and `Exchange.dfy` ties the steps
to calls on two socket objects. `States.dfy`, `Options.dfy`, `Wire.dfy` and
`Seq32.dfy` hold the state machine, the connect message, the header and 32-bit
arithmetic.

**Check lists** (`conncheck.c`, `candidate.c`): priorities and their order under a
change of role, the size limit, nomination and READY (`Candidates.dfy`,
`CheckList.dfy`), and the pacing timer with a rank that makes it stop
(`CheckTimer.dfy`).

**Foundations** (`discovery.c`): an equivalence of live candidates kept over any
history, and the search for a free remote name (`Foundations.dfy`).

**SDP** (`agent.c`): candidate lines and streams there and back (`Sdp.dfy`,
`Text.dfy`).

## Conventions

- Positions are unbounded integers, and the code's numbers are their residues. A
  segment is given with the position its number stands for; the model asks that
  it lies within 2^31 of the receiver's position, and acknowledgements within
  2^31 of the sender's. While bytes are listed out of order, fewer than 2^29
  control positions (connect messages, FINs) are consumed past them.
- A connect message that makes a receiver give up its window scale, or an end that
  drops data take data again, is heard while nothing is listed; in the first case
  the ring then holds less than the default size.
- The clock, the network's answer to a packet, and the message and timer of a
  connectivity check are arbitrary in every call. Callbacks do not call back into
  the socket.
- Buffers: the send buffer has 7 to 64 MiB bytes (the connect message must fit,
  and the code asserts the upper bound), the receive buffer less than 2^30. The
  MTU lies within 296..65535. Fewer than 2^28 FINs are sent in LAST-ACK.
- `aborted` is the result of a call in which the program stops at an assertion or
  divides by zero; the contract says when that can happen.
- `strained` records that the congestion window has wrapped around 2^32 or that a
  resize lowered the slow start threshold during recovery; only until then does
  the window hold a segment.

## Findings

- A connect message that is news must come before any data. Control bytes take
  positions but no ring space, so data listed before them is delivered wrongly
  (`Reassembly.DataBeforeConnect`); with both ends connecting at once, reordering
  produces this. The listed bytes stay in place exactly if nothing is listed or
  each repeats the one as many places before it (`Reassembly.ControlBytesInPlace`);
  the stream theorem asks of deliveries that nothing is listed then
  (`Channel.ConnectsInTime`).
- "The advertised right edge never moves left" holds of the receiver's own edge,
  and of the announced one without window scaling only: the header rounds the
  window down to a unit of the scale. It does not fall exactly if the bytes taken
  in, modulo that unit, are no more than what rounding had dropped
  (`FlowControl.AnnouncedEdgeMoves`); `FlowControl.AnnouncedEdgeFalls` is an input
  on which it falls.
- A FIN flush ignores the peer's window, and the receiver checks bytes against
  free space only: its window wraps around 2^32 exactly when more arrives in order
  than it had announced (`FlowControl.WindowCountsDown`), which a flush brings
  about when more is queued than the window
  (`FlowControl.FlushOverrunsWindow`, `FlowControl.FlushOverruns`).
- The assertion that a segment to be retransmitted is not acknowledged fails when
  a FIN repeated in LAST-ACK is acknowledged during recovery
  (`Acking.RepeatedFinFailsAssertion`). `Process` aborts exactly if `Acking.Stops`:
  the segment is acceptable, its number lies in flight and its timestamp is not
  from the future, and either recovery is on, the number covers the FIN, lies
  before `recover` and leaves a FIN sent fewer than 30 times at the head of the
  queue, or recovery is not on and the congestion window has wrapped to zero.
- `recv` returns 0 as soon as any FIN has been heard, in order or not
  (`Exchange.FinEndsReading`), and never a byte again
  (`Connection.NothingReadAfterFin`): what is unread in the ring or still missing is
  lost to the application. `Exchange.FinCanLoseData` is an input for each. With reads
  not shut down, everything has been read at a 0 exactly if the ring is empty and no
  byte of the stream is missing (`Exchange.ZeroMeansEnd`).
- A read that reopens a closed window is to be acknowledged at once, and is not in
  two cases (`Connection.AckLostWhen`). Nothing is offered to the network exactly if
  something is in flight, Nagle's algorithm is on, and there are bytes to offer but
  less than a segment (`Connection.HeldBack`); and if there are bytes to offer, the
  packet that carries them may be refused. `Connection.AckCanBeLost` is a socket to
  which both can happen. Of two acknowledgements put off with nothing to send the
  second goes out (`Connection.SecondGoesOut`), unless the clock showed 0 when the
  first was put off: the code takes that time for no acknowledgement waiting. In the
  same way a retransmission timer started when the clock shows 0 counts as not running.
- The smoothed round-trip time can move away from the measurement once seven times
  the estimate exceeds 32 bits, and only then (`Acking.MeasuredIsBetween`).
- A listener's FIN-ACK setting is overruled by the connecting side
  (`Options.HandshakeAgreesOnFinAck`), and the window scales can disagree
  (`Options.HandshakeScales`).
- A change of role keeps the check list fully ordered exactly if no two pairs have
  the same priorities the other way round (`CheckList.RoleSwitchDisorders`,
  `CheckList.RoleSwitchCanDisorder`); the order up to the last bit always stays.
- The timer of a controlled agent that hears nothing never stops exactly if from the
  start a stream has a valid pair that is not nominated and fewer nominated pairs
  than components (`CheckTimer.ConnCheckAgent.RunTimer`); `CheckTimer.IdleForEver` is
  such an agent.
- A base address written to SDP carries the wrong port (`Sdp.BaseSurvives`), and a
  TCP candidate line without `tcptype` is accepted exactly if its other fields
  describe a candidate, and then read as simultaneous open (`Sdp.MissingTcpType`,
  `Sdp.TcpTypeLost`).

## Model

| member | source | states |
|---|---|---|
| `Channel.StreamSafety` | jni/libnice/agent/pseudotcp.c:1144-1227 | in every state of every sequence of calls and deliveries from two new sockets, over a network that drops, duplicates and reorders, the bytes recv has returned at one end are a prefix of the bytes send has accepted at the other |
| `Channel.FinIsComplete` | jni/libnice/agent/pseudotcp.c:1872-1876 | once the peer's FIN has been accepted, what was read plus what the ring holds is everything the peer's send has accepted, and the peer's stream is sealed |
| `Channel.AllRead` | jni/libnice/agent/pseudotcp.c:1144-1197 | of two linked ends, everything send has accepted at one has been read at the other exactly if the ring is empty and no byte of the stream is missing, or nothing was ever accepted |
| `Channel.StepKeepsLinked` | jni/libnice/agent/pseudotcp.c:1519-1945 | every step of the pair, a call at one end or the delivery of any packet ever sent, keeps both directions linked: packets cut from the stream, receiver on the stream, no acknowledgement of what is not there |
| `Channel.ActsKeepsLinked` | jni/libnice/agent/pseudotcp.c:1144-1320 | any call of the application or the clock keeps both directions linked |
| `Channel.HearsKeepsLinked` | jni/libnice/agent/pseudotcp.c:1519-1945 | the delivery of any packet the peer ever sent keeps both directions linked, in the handshake, before and after FIN, with and without FIN-ACK |
| `Channel.FollowsReceived` | jni/libnice/agent/pseudotcp.c:1822-1930 | a packet cut from the stream, of whatever kind and however late, leaves the receiver on the stream and never moves it back |
| `Channel.DeliverableIsAcceptable` | jni/libnice/agent/pseudotcp.c:1519-1945 | between two linked ends, a packet within 2^31 of the positions, with a connect message in time, meets everything `Process` asks of a segment |
| `Exchange.Deliver` | jni/libnice/agent/pseudotcp.c:1519-1945 | a packet delivered to a real socket makes the pair of sockets take one step of the channel and keeps it linked, unless the program stops, which it does exactly if `Stops`; neither log changes |
| `Exchange.Perform` | jni/libnice/agent/pseudotcp.c:895-1320 | any call on one of two real sockets (connect, send, recv, shutdown, close, clock, next clock, MTU) is one step of the channel and keeps both directions linked; send logs the bytes it accepted, recv those it returned, and no other call logs anything |
| `Exchange.NewPair` | jni/libnice/agent/pseudotcp.c:784-838 | two new sockets are the start of a run and linked in both directions |
| `Exchange.ReadIsPrefixOfSent` | jni/libnice/agent/pseudotcp.c:1144-1227 | of two linked sockets, all bytes that recv has returned at one are a prefix of those send has accepted at the other |
| `Exchange.ZeroMeansEnd` | jni/libnice/agent/pseudotcp.c:1151-1156 | when recv has returned 0 at a socket with reads not shut down, it has read all that the peer accepted exactly if its ring is empty and nothing of the peer's stream is missing |
| `Exchange.FinEndsReading` | jni/libnice/agent/pseudotcp.c:1734-1740 | any FIN that an established socket accepts, in order or not, makes recv return 0, whatever was unread or missing before |
| `Exchange.FinCanLoseData` | jni/libnice/agent/pseudotcp.c:1151-1156 | two linked pairs and a FIN that can be delivered, one byte unread in the ring of one receiver and still missing at the other, whose read bytes are not what was sent |
| `FlowControl.FlowSafety` | jni/libnice/agent/pseudotcp.c:2057-2077 | in every state of every run from two new sockets, handshake included, before the sender's FIN, with window scaling supported by the sender if the receiver needs it and no connect message cut into pieces: nothing is sent past the largest edge a header of the receiver has announced, or past the connect message; the receiver's own edge never moves left, the announced one by less than a unit of the scale; the receive window never exceeds the free space, so it never wraps |
| `FlowControl.RunAgrees` | jni/libnice/agent/pseudotcp.c:2259-2326 | in every state of such a run the receiver still has its first window scale, and the sender scales the windows it hears by that or not at all |
| `FlowControl.StepFlows` | jni/libnice/agent/pseudotcp.c:1624-1680 | each step keeps whatever was sent within what the receiver's headers have announced, and every announcement left of the receiver's own edge |
| `FlowControl.ReceiveKeepsWindow` | jni/libnice/agent/pseudotcp.c:1890-1909 | bytes within the window leave the receiver's own right edge in place and are counted down exactly |
| `FlowControl.WindowCountsDown` | jni/libnice/agent/pseudotcp.c:1895-1909 | the unchecked subtraction is right exactly if the segment brings no bytes in order, or those that fit the free space end within the window; otherwise the window wraps around 2^32 |
| `FlowControl.FlushOverrunsWindow` | jni/libnice/agent/pseudotcp.c:2089-2119 | a FIN flush whose packets all arrive in order at a receiver with room takes the window right exactly if everything queued lay within it, and wraps it around 2^32 otherwise |
| `FlowControl.FlushOverruns` | jni/libnice/agent/pseudotcp.c:2089-2119 | such a flush: a sender with two bytes queued, a window of one, and the receiver left with a window of 2^32 - 1 |
| `FlowControl.AnnouncedEdgeMoves` | jni/libnice/agent/pseudotcp.c:1395 | the announced right edge does not fall exactly if the bytes taken in, modulo a unit of the scale, are no more than what rounding had dropped, and never falls by a whole unit |
| `FlowControl.AnnouncedEdgeFalls` | jni/libnice/agent/pseudotcp.c:1395 | it does fall: a ring of 65536 bytes, a scale of 1, all of it announced, one byte in order |
| `FlowControl.AnnouncedEdgeIsNear` | jni/libnice/agent/pseudotcp.c:1395 | the announced edge is the receiver's own less the window modulo a unit of the scale, so it lies less than a unit to its left |
| `FlowControl.FieldIsExact` | jni/libnice/agent/pseudotcp.c:1395 | the 16-bit window field equals the window shifted by the scale, nothing cut off, and loses less than one unit of the scale |
| `Reassembly.ReceiveKeepsStream` | jni/libnice/agent/pseudotcp.c:1843-1930 | any segment of the stream, old, new, overlapping or repeated, keeps read bytes plus ring contents equal to the stream up to the next position wanted, every listed byte at its own offset and the list sorted |
| `Reassembly.AnyArrivalOrder` | jni/libnice/agent/pseudotcp.c:1843-1930 | the same for any sequence of segments in any order, with the right end of the ring fixed |
| `Reassembly.ArrivedMeansDelivered` | jni/libnice/agent/pseudotcp.c:1899-1913 | once every byte up to a position has arrived, in any order and however cut, all of them have been delivered |
| `Reassembly.ReachIsMaximal` | jni/libnice/agent/pseudotcp.c:1899-1913 | consulting the list releases all it can: the new position is covered by no entry, and what remains is a suffix of the list lying beyond it |
| `Reassembly.StoreOk` | jni/libnice/agent/pseudotcp.c:1886-1898 | whatever the segment, its bytes and all that the list releases fit the ring, so the assertions about ring space cannot fail |
| `Reassembly.StoreSafe` | jni/libnice/agent/pseudotcp.c:1886-1898 | the same when FINs or control bytes, which take no ring space, were consumed in front of listed bytes |
| `Reassembly.TakeFrontKeepsStream` | jni/libnice/agent/pseudotcp.c:1170-1172 | reading hands over the front of the ring and keeps every listed byte in its place in the stream |
| `Reassembly.ControlBytesInPlace` | jni/libnice/agent/pseudotcp.c:1866-1885 | consuming control bytes keeps every listed byte in its place in the stream exactly if nothing is listed or every listed cell repeats the one as many places before it |
| `Reassembly.DataBeforeConnect` | jni/libnice/agent/pseudotcp.c:1878-1881 | data listed before the connect message is consumed ends up at the wrong ring offset: a concrete stream whose bytes come out wrong |
| `Fifo.PseudoTcpFifo.SetCapacity` | jni/libnice/agent/pseudotcp.c:294-313 | a capacity change keeps the valid bytes in order at every wrap position, fails exactly if they do not fit, and does nothing at all when asked for exactly their number |
| `Fifo.PseudoTcpFifo.ReadOffset` | jni/libnice/agent/pseudotcp.c:339-355 | a read that may wrap returns the slice of valid bytes at the offset, nothing past the end |
| `Fifo.PseudoTcpFifo.WriteOffset` | jni/libnice/agent/pseudotcp.c:358-375 | a write past the valid bytes that may wrap overwrites exactly the cells at its offset, cut to the free space, and makes nothing valid |
| `Fifo.PseudoTcpFifo.Read` | jni/libnice/agent/pseudotcp.c:378-388 | a read returns and removes the front of the valid bytes |
| `Fifo.PseudoTcpFifo.Write` | jni/libnice/agent/pseudotcp.c:391-399 | a write appends what fits to the valid bytes |
| `Fifo.PseudoTcpFifo.ConsumeReadData` | jni/libnice/agent/pseudotcp.c:316-322 | dropping bytes rotates the ring and keeps every other cell |
| `Fifo.PseudoTcpFifo.ConsumeWriteBuffer` | jni/libnice/agent/pseudotcp.c:325-330 | bytes written at an offset become valid where they are |
| `Fifo.WrittenCells` | jni/libnice/agent/pseudotcp.c:358-375 | the two copies of a wrapping write are one overwrite in logical order, for every read position |
| `Fifo.MovedCells` | jni/libnice/agent/pseudotcp.c:300-306 | the two copies of a capacity change put the valid bytes first |
| `Seq32.LargerIsGreater` | jni/libnice/agent/pseudotcp.c:517-519 | the strict comparison of residues orders positions less than 2^31 apart |
| `Seq32.LargerOrEqualIsAtLeast` | jni/libnice/agent/pseudotcp.c:518-520 | the reflexive comparison covers one position less |
| `Seq32.LargerWithoutOrEqual` | jni/libnice/agent/pseudotcp.c:517-518 | the strict comparison does not imply the reflexive one: they disagree exactly at distance 2^31 - 1 |
| `Seq32.AcceptedAckIsInFlight` | jni/libnice/agent/pseudotcp.c:1593-1595 | the test for a valuable acknowledgement accepts exactly the numbers in flight, whatever 32-bit value arrives |
| `Seq32.TimeDiffIsSignedDifference` | jni/libnice/agent/pseudotcp.c:238-256 | the four-way case split is the signed wrap-around difference |
| `Seq32.TimeDiffOrdersInstants` | jni/libnice/agent/pseudotcp.c:238-256 | every timer test of the form used orders instants less than 2^31 ms apart |
| `Segments.SplitKeeps` | jni/libnice/agent/pseudotcp.c:2000-2015 | cutting a segment keeps the partition and moves no byte |
| `Segments.DropAckedLaid` | jni/libnice/agent/pseudotcp.c:1642-1660 | acknowledging bytes leaves a partition of exactly the rest |
| `Segments.AppendedLaid` | jni/libnice/agent/pseudotcp.c:1347-1362 | queueing extends the partition at its end, whether the bytes join the last segment or form one |
| `Sending.SegmentIsWellCut` | jni/libnice/agent/pseudotcp.c:1958-1968 | every packet built from a queued segment, first transmission or repetition, carries the stream's bytes at its sequence number |
| `Sending.EnqueueKeeps` | jni/libnice/agent/pseudotcp.c:1334-1366 | queueing data, the connect message, a FIN or an RST keeps the sender's invariant |
| `Sending.TransmittedKeeps` | jni/libnice/agent/pseudotcp.c:2000-2026 | transmitting a segment, cut if need be, keeps the invariant and never moves `snd_nxt` back |
| `Sending.AcknowledgedKeeps` | jni/libnice/agent/pseudotcp.c:1624-1660 | an acknowledgement of transmitted positions, the FIN included, keeps the invariant and leaves what was never sent alone |
| `Acking.FreeSegments` | jni/libnice/agent/pseudotcp.c:1642-1660 | the release loop leaves exactly the queue without the acknowledged bytes |
| `Acking.AckTaken` | jni/libnice/agent/pseudotcp.c:1624-1640 | an acknowledgement covers the FIN exactly when it is everything queued and one more; no byte is consumed for the FIN, and a running timer still has a transmitted segment |
| `Acking.RepeatedFinFailsAssertion` | jni/libnice/agent/pseudotcp.c:1964 | the assertion on retransmission can fail: FIN repeated in LAST-ACK, recovery entered with both copies in flight, then the FIN acknowledged; `Stops` holds of that input at any time |
| `Acking.NextStateAccounts` | jni/libnice/agent/pseudotcp.c:1726-1791 | the transitions on FIN and on its acknowledgement keep account of both FINs and are all allowed |
| `Acking.HandshakeEnds` | jni/libnice/agent/pseudotcp.c:1715-1722 | no accepted segment but a connect message leaves a socket in SYN-RECEIVED, and a connect message heard in SYN-SENT makes a synchronised one |
| `Acking.OpenedGrows` | jni/libnice/agent/pseudotcp.c:1696-1704 | outside recovery the window grows by a segment below the threshold, and above it by a segment per window, at least a byte and at most a segment; the square of the segment size fits 32 bits |
| `Acking.SlowStart` | jni/libnice/agent/pseudotcp.c:1699-1700 | below the threshold the acknowledgements of one window double it |
| `Acking.MeasuredIsBetween` | jni/libnice/agent/pseudotcp.c:1600-1613 | the smoothed round-trip time moves towards every measurement and not past it exactly if seven times the estimate fits 32 bits |
| `Acking.MeasuredAre` | jni/libnice/agent/pseudotcp.c:1600-1615 | the first measurement sets mean and deviation, each further one moves them by an eighth and a quarter, rounded down, and the timeout is the mean and four deviations within its limits |
| `Acking.Measured` | jni/libnice/agent/pseudotcp.c:1600-1615 | the retransmission timeout after any measurement lies in 250..60000 |
| `Acking.RecoveryIsOver` | jni/libnice/agent/pseudotcp.c:1662-1666 | the test for the end of fast recovery is right, and a segment is in flight when it is not over |
| `States.HistoryIsBounded` | jni/libnice/agent/pseudotcp.c:2429-2475 | in every history of allowed forward changes CLOSED is final and entered only from LISTEN, SYN-SENT, TIME-WAIT or LAST-ACK, no state comes twice and there are at most seven changes |
| `States.FinIsFinal` | jni/libnice/agent/pseudotcp.c:1151-1156 | in every history of allowed forward changes, a state that has received a FIN is followed by such states only |
| `Connection.NothingReadAfterFin` | jni/libnice/agent/pseudotcp.c:1151-1168 | in a state that follows one that has received a FIN, however far, recv reads no byte, with any options |
| `Options.ParseOptions` | jni/libnice/agent/pseudotcp.c:2259-2326 | the option loop stays within bounds and ends on every byte string, computing the recursive reading of the list |
| `Options.HearOptions` | jni/libnice/agent/pseudotcp.c:2259-2326 | what a connect message makes of an end: scale, fallback and FIN-ACK |
| `Options.ConnectRoundTrip` | jni/libnice/agent/pseudotcp.c:851-875 | parsing the message of `queue_connect_message` yields exactly what was put in |
| `Options.MessageLayout` | jni/libnice/agent/pseudotcp.c:851-875 | the bytes of the connect message for each choice of options |
| `Options.HandshakeAgreesOnFinAck` | jni/libnice/agent/pseudotcp.c:1563-1583 | after connect-to-listener both ends agree on FIN-ACK, and it is the connecting side's setting, even against a listener that has it off |
| `Options.HandshakeScales` | jni/libnice/agent/pseudotcp.c:2304-2326 | the scales agree exactly if the supports for scaling match or there is nothing to scale |
| `Options.HearingAgain` | jni/libnice/agent/pseudotcp.c:2259-2326 | a repeated connect message changes nothing |
| `Wire.DecodeEncode` | jni/libnice/agent/pseudotcp.c:1376-1465 | every segment that fits a packet survives the header of 24 bytes |
| `Wire.HeaderLayout` | jni/libnice/agent/pseudotcp.c:1389-1399 | which header field stands at which byte, in network order, and the bit of each flag |
| `PseudoTcp.PseudoTcpSocket.constructor` | jni/libnice/agent/pseudotcp.c:784-838 | a new socket is valid and has done nothing |
| `PseudoTcp.PseudoTcpSocket.QueuesPartitionBuffer` | jni/libnice/agent/pseudotcp.c:1334-1366 | in every valid socket before FIN or RST: the queue partitions the send buffer from `snd_una`, the second queue is exactly the segments never transmitted, `snd_nxt - snd_una` is the length of the others |
| `PseudoTcp.PseudoTcpSocket.RunningTimerHasSegment` | jni/libnice/agent/pseudotcp.c:953-967 | in every valid socket a running retransmission timer has a transmitted first segment, so the dereferences of the head are defined and 956 is not reached |
| `PseudoTcp.PseudoTcpSocket.ArithmeticBounds` | jni/libnice/agent/pseudotcp.c:972-980 | in every valid socket: the retransmission timeout lies in 250..60000 ms, mss in 180..65419 so its square fits 32 bits, and the congestion window holds a segment until it wraps |
| `PseudoTcp.PseudoTcpSocket.StatesGoForward` | jni/libnice/agent/pseudotcp.c:2429-2475 | in every valid socket: each change of state so far was an allowed transition, none left CLOSED, CLOSED was entered only from LISTEN, SYN-SENT, TIME-WAIT or LAST-ACK, and there were at most seven |
| `PseudoTcp.PseudoTcpSocket.Packet` | jni/libnice/agent/pseudotcp.c:1376-1432 | builds the segment from ring, numbers and window; a refused packet without payload counts as sent |
| `PseudoTcp.PseudoTcpSocket.ReduceMss` | jni/libnice/agent/pseudotcp.c:1980-1997 | the search in the MTU table ends inside it, with a strictly smaller size or failure |
| `PseudoTcp.PseudoTcpSocket.Offer` | jni/libnice/agent/pseudotcp.c:1947-1998 | offers a segment to the network, shrinking it while too large; ends, and what is taken is the front of the segment |
| `PseudoTcp.PseudoTcpSocket.Transmit` | jni/libnice/agent/pseudotcp.c:1947-2033 | sends a segment or its front and enters it in both queues, the numbers and the timer, which starts if it is not running; fails only if the segment was sent too often or the network refuses it; aborts exactly on an acknowledged segment |
| `PseudoTcp.PseudoTcpSocket.AttemptSend` | jni/libnice/agent/pseudotcp.c:2035-2140 | the send loop ends; new bytes go out in stream order within the peer's window and the congestion window with limited transmit, whatever the network refuses; it stops only when nothing more may be sent, Nagle's algorithm holds the rest back or a packet was refused, and a flush only when everything is out or a packet was refused; bytes that go out start the retransmission timer if it is not running; without bytes to offer an acknowledgement asked for at once, or later for the second time, goes out in a packet of its own, and one asked for later for the first time is put off |
| `Connection.OfferableIsMost` | jni/libnice/agent/pseudotcp.c:2057-2082 | what the send loop offers is the greatest amount that is buffered, at most a segment, and within both windows, and nothing exactly under the small-window rule, unless there is nothing to send |
| `Connection.PauseShrinks` | jni/libnice/agent/pseudotcp.c:2042-2044 | the congestion window is one segment when the loop starts exactly if more than the retransmission timeout has passed since bytes were last sent, and nothing else changes |
| `PseudoTcp.PseudoTcpSocket.Available` | jni/libnice/agent/pseudotcp.c:2057-2082 | what may be sent now is `Offerable`, lies within both windows, and there is an unsent segment for it |
| `PseudoTcp.PseudoTcpSocket.Queue` | jni/libnice/agent/pseudotcp.c:1334-1366 | appends what fits to buffer and queue |
| `PseudoTcp.PseudoTcpSocket.Flush` | jni/libnice/agent/pseudotcp.c:877-892 | a queued FIN or RST sends all that waits; if the network takes every packet, all bytes are out in order and the mark is last |
| `PseudoTcp.PseudoTcpSocket.AcceptSegment` | jni/libnice/agent/pseudotcp.c:1822-1930 | the receive half of `process` does exactly what the specification of reassembly says, also with bytes listed out of order when a FIN or control bytes are consumed; a FIN alone moves the next position by one if it is in order and by nothing otherwise, although two places count it; asks for an acknowledgement at once exactly for a segment out of order, when more becomes valid than the segment brought, or without a delay, for one later exactly for other bytes in order, and for none otherwise |
| `PseudoTcp.PseudoTcpSocket.StoreInOrder` | jni/libnice/agent/pseudotcp.c:1890-1913 | bytes in order and every listed piece they reach become valid |
| `PseudoTcp.PseudoTcpSocket.StoreOutOfOrder` | jni/libnice/agent/pseudotcp.c:1914-1928 | bytes out of order enter the ring at their offset and the list in its order |
| `PseudoTcp.PseudoTcpSocket.Trim` | jni/libnice/agent/pseudotcp.c:1843-1863 | a segment is cut to what is new and fits |
| `PseudoTcp.PseudoTcpSocket.TakeAck` | jni/libnice/agent/pseudotcp.c:1624-1660 | takes over acknowledgement and window; finds the FIN acknowledged exactly when the number is everything queued plus one, without consuming a byte for it |
| `PseudoTcp.PseudoTcpSocket.GrowWindow` | jni/libnice/agent/pseudotcp.c:1662-1704 | NewReno exit to the threshold or one segment more than is in flight; a partial acknowledgement sends the first segment again and deflates the window by what was acknowledged, less a segment; slow start and congestion avoidance otherwise; fails only if the first segment cannot go out again, and aborts exactly on an acknowledged first segment in recovery, or an empty window outside it |
| `Acking.DeflatedKeepsSegment` | jni/libnice/agent/pseudotcp.c:1675 | a partial acknowledgement takes off the window what was acknowledged, adds a segment, and leaves at least a segment |
| `PseudoTcp.PseudoTcpSocket.TakeDuplicate` | jni/libnice/agent/pseudotcp.c:1679-1711 | a duplicate takes over the window; one with payload counts for nothing; the third in a row sends the first segment again, sets the threshold to half of what is in flight and the window to three segments more, and marks where recovery ends; each later one adds a segment; without such a resend the network is left alone, and it fails only if the first segment cannot go out again |
| `PseudoTcp.PseudoTcpSocket.HandleAck` | jni/libnice/agent/pseudotcp.c:1593-1713 | valuable, duplicate or neither, decided by position; acknowledgement, window, timer, measurement, recovery and congestion window as each of these asks; the FIN found acknowledged exactly if it is covered; rejected exactly if valuable with a timestamp from the future; broken off only if the first segment must go out again and was sent 15 times, 30 unless established, or is refused; aborts exactly if `Fatal` |
| `PseudoTcp.PseudoTcpSocket.AdvanceState` | jni/libnice/agent/pseudotcp.c:1715-1791 | the state after a segment is the one the transitions give, and the invariant ties FIN, queue and timer to it |
| `PseudoTcp.PseudoTcpSocket.HandleConnect` | jni/libnice/agent/pseudotcp.c:1563-1583 | a connect message: options as parsed, buffer fallback, reply from LISTEN, ESTABLISHED from SYN-SENT |
| `PseudoTcp.PseudoTcpSocket.Process` | jni/libnice/agent/pseudotcp.c:1519-1945 | any segment keeps the socket valid, a FIN or control bytes consumed in front of listed bytes included; an accepted one has exactly the specified effect on receive half, acknowledgement, timers, windows and state, and is answered: at once if it was not in order, came with a FIN or released listed bytes, otherwise with its bytes acknowledged by the next packet or at the second such segment, unless Nagle's algorithm holds that back or the network refuses it; a segment is not accepted exactly for a foreign conversation, a closed socket, data after the own FIN, a reset, an unknown control message, a valuable acknowledgement with a timestamp from the future, data with a FIN, or because the first segment must go out again and cannot, which alone of the last three closes and is told by an RST; aborts exactly if `Stops`, only after the window was strained or on a FIN repeated in LAST-ACK |
| `PseudoTcp.PseudoTcpSocket.Closedown` | jni/libnice/agent/pseudotcp.c:2145-2185 | reaches CLOSED from any state through allowed changes; a local reason is told by an RST that flushes the queue and reaches the network unless it refuses a packet before |
| `PseudoTcp.PseudoTcpSocket.SetState` | jni/libnice/agent/pseudotcp.c:2429-2475 | only allowed forward changes, recorded |
| `PseudoTcp.PseudoTcpSocket.AdjustMtu` | jni/libnice/agent/pseudotcp.c:2187-2206 | the first table entry not above the advised MTU, and minimums for threshold and window |
| `PseudoTcp.PseudoTcpSocket.NotifyMtu` | jni/libnice/agent/pseudotcp.c:913-921 | an MTU within 296..65535 takes effect at once when established |
| `PseudoTcp.PseudoTcpSocket.ResizeReceiveBuffer` | jni/libnice/agent/pseudotcp.c:2338-2371 | the buffer is the size asked for, rounded down to the smallest scale that makes the window fit 16 bits; what it held survives; the assertion that it fits fails exactly if more is held |
| `Connection.ChooseScale` | jni/libnice/agent/pseudotcp.c:2349-2357 | the smallest shift that fits 16 bits, and the size rounded down to it |
| `PseudoTcp.PseudoTcpSocket.SetReceiveBuffer` | jni/libnice/agent/pseudotcp.c:733-736 | the rcv-buf property gives a listening socket a ring of the size asked for, rounded down to its leading 16 bits, and keeps what it held; it aborts exactly if that does not fit |
| `PseudoTcp.PseudoTcpSocket.SetSendBuffer` | jni/libnice/agent/pseudotcp.c:2328-2335 | the snd-buf property gives the buffer the size asked for |
| `PseudoTcp.PseudoTcpSocket.Connect` | jni/libnice/agent/pseudotcp.c:895-911 | from LISTEN only, otherwise EINVAL: SYN-SENT and the connect message as the whole stream, which goes out at once if the congestion window takes it or is refused |
| `PseudoTcp.PseudoTcpSocket.Send` | jni/libnice/agent/pseudotcp.c:1199-1227 | accepts what fits the buffer behind the stream when established and logs exactly that, otherwise accepts nothing and names the right error; waits for room exactly if not everything was accepted; then the send loop runs on what was queued and stops only when nothing more may go or a packet was refused |
| `PseudoTcp.PseudoTcpSocket.Recv` | jni/libnice/agent/pseudotcp.c:1144-1197 | returns the front of the ring, 0 exactly if a FIN has been heard, reading was shut down or there is no room, -1 otherwise with the right error, waiting for data if there was none; the window stays, or reopens to all free space exactly when the code's unsigned comparison says so; a packet goes out only if the window was closed and reopens, and then as for `Reopen` |
| `PseudoTcp.PseudoTcpSocket.Reopen` | jni/libnice/agent/pseudotcp.c:1180-1194 | after a read the window is announced anew exactly under the code's unsigned comparison; if it was closed, the send loop runs with an acknowledgement asked for at once, which goes out as `Connection.AckLostWhen` says; if it was not closed nothing is sent |
| `Connection.ReopensWhen` | jni/libnice/agent/pseudotcp.c:1180-1184 | a closed window reopens when the ring is empty, every window when a segment or half the ring has become free, and otherwise none that lies within the free space |
| `Connection.ReadsWhile` | jni/libnice/agent/pseudotcp.c:1151-1168 | with FIN-ACK on and reads not shut down, reading goes on exactly while no FIN has been heard, FIN-WAIT-1 and FIN-WAIT-2 included; without FIN-ACK exactly while established |
| `Connection.AckLostWhen` | jni/libnice/agent/pseudotcp.c:2087-2125 | an acknowledgement that is due, whether asked for at once or for the second time, leaves the network untouched exactly if it is held back, and is lost otherwise only with bytes in a packet that was refused |
| `Connection.SecondGoesOut` | jni/libnice/agent/pseudotcp.c:2097-2101 | of two acknowledgements asked for later with nothing to send, one has gone out after the second, unless the clock showed 0 at the first |
| `Connection.AckCanBeLost` | jni/libnice/agent/pseudotcp.c:2100-2107 | a consistent socket whose window has just reopened, with one byte in flight and one queued: Nagle's algorithm holds the acknowledgement back, and without it the packet may be refused |
| `PseudoTcp.PseudoTcpSocket.SendFin` | jni/libnice/agent/pseudotcp.c:1292-1309 | FIN behind everything queued, then the state that says so; with successful writes all bytes are out in order and the FIN last |
| `PseudoTcp.PseudoTcpSocket.ShutDown` | jni/libnice/agent/pseudotcp.c:1247-1320 | with FIN-ACK on, a FIN flush from SYN-RECEIVED, ESTABLISHED and CLOSE-WAIT into a state that has sent a FIN and has received one exactly if it had before; an RST flush instead exactly if established with bytes unread; CLOSED from LISTEN and SYN-SENT; nothing in a state that had sent its FIN; shutting down reading leaves state and network alone; without FIN-ACK only the mode is noted |
| `PseudoTcp.PseudoTcpSocket.Close` | jni/libnice/agent/pseudotcp.c:1229-1244 | force closes at once, with an RST that flushes the queue where there is FIN-ACK; otherwise both directions are shut down as for `ShutDown`: with FIN-ACK on the state has sent a FIN afterwards, or is CLOSED, whatever it was before |
| `PseudoTcp.PseudoTcpSocket.NotifyClock` | jni/libnice/agent/pseudotcp.c:923-1005 | keeps the socket valid; every timer is due exactly if its time has passed between two instants less than 2^30 ms apart; if the retransmission timer is due the first segment goes out again, with a window of one segment and half the flight as threshold, and behind it a probe exactly if that is still due with the grown timeout; else if a probe is due it goes out one position back; else a waiting acknowledgement goes out; nothing more is sent; the connection is given up, which an RST tells, only if the first segment cannot go out again or, then always, instead of a probe after 15 s of silence; TIME-WAIT ends; in LAST-ACK the FIN is repeated first, and a running retransmission timer is then due exactly if it was before |
| `PseudoTcp.PseudoTcpSocket.DueMeans` | jni/libnice/agent/pseudotcp.c:953-1003 | the comparisons of the code decide about retransmission, probe, acknowledgement and silence as the instants do that the 32-bit numbers stand for |
| `Connection.RunsOut` | jni/libnice/agent/pseudotcp.c:953-954 | a timer noted at one instant has run out at another exactly if its delay has passed between them, whatever wraps |
| `PseudoTcp.PseudoTcpSocket.Timeout` | jni/libnice/agent/pseudotcp.c:953-981 | retransmits the head, one-segment window, half the flight as threshold, doubled timeout within its limit; fails only if the head was sent too often or the network refuses it |
| `Connection.BackoffIsExponential` | jni/libnice/agent/pseudotcp.c:978-980 | after any number of timeouts in a row the timeout is the first one doubled as many times, up to a second while connecting and a minute afterwards |
| `PseudoTcp.PseudoTcpSocket.GetNextClock` | jni/libnice/agent/pseudotcp.c:1066-1141 | the time returned is exactly the earliest of the time asked for, the default and the running timers; shutdown without FIN-ACK completes here |
| `PseudoTcp.PseudoTcpSocket.DrainedMeans` | jni/libnice/agent/pseudotcp.c:1073-1098 | a shutdown without FIN-ACK is complete at once if forced, and otherwise unless the socket is established and has bytes not acknowledged or an acknowledgement to send |
| `Candidates.IcePriorityOrders` | jni/libnice/agent/candidate.c:124-137 | candidate priorities lie in 1..2^31 - 1 and order by type preference first and component last |
| `Candidates.TypesOrder` | jni/libnice/agent/candidate.c:220-254 | host before peer reflexive before server reflexive before relayed for the same transport, and the preferred kind of transport first for the same type |
| `Candidates.PairPriorityOrders` | jni/libnice/agent/candidate.c:290-300 | with priorities below 2^31 the pair priority is the lexicographic order on minimum, maximum and whose is larger |
| `Candidates.PairPriorityWraps` | jni/libnice/agent/candidate.c:290-300 | at 2^31 it is not: twice the maximum is computed in 32 bits |
| `Candidates.RoleSwapIsSmall` | jni/libnice/agent/agent.c:2153-2160 | exchanging roles changes the priority by at most one, in the last bit, and not at all exactly when both are equal |
| `CheckList.BothEndsAgree` | jni/libnice/agent/agent.c:2153-2160 | both agents give a pair the same priority, with the last bit set exactly if the controlling one's candidate has the greater of the two |
| `CheckList.InsertKeepsOrder` | jni/libnice/agent/conncheck.c:978-985 | inserting by full priority keeps a list ordered up to the last bit |
| `CheckList.Recalculate` | jni/libnice/agent/conncheck.c:2228-2239 | every pair gets the priority of its role, in place |
| `CheckList.RoleSwitchKeepsOrder` | jni/libnice/agent/conncheck.c:2228-2258 | a change of role keeps the list ordered up to the last bit without sorting |
| `CheckList.RoleSwitchDisorders` | jni/libnice/agent/conncheck.c:2228-2258 | the full order survives exactly if no two pairs of the list have the same priorities the other way round |
| `CheckList.RoleSwitchCanDisorder` | jni/libnice/agent/conncheck.c:2228-2258 | a list of two pairs, fully ordered before the change of role and not after it |
| `CheckList.LimitSize` | jni/libnice/agent/conncheck.c:1176-1200 | pairs after the allowed number still on the list are cancelled |
| `CheckList.LimitKeepsBest` | jni/libnice/agent/conncheck.c:1176-1200 | as many pairs stay as are allowed and there are, and no cancelled one is better than one that stays, on a list fully ordered; up to the last bit on one ordered up to the last bit |
| `CheckList.PrunePending` | jni/libnice/agent/conncheck.c:1951-2006 | waiting and frozen pairs of the component are cancelled, running ones only below the best nomination; zero is returned exactly if none runs on |
| `CheckList.UpdateReady` | jni/libnice/agent/conncheck.c:1302-1333 | exactly what a look at a component does: without a nominated valid pair nothing; with one its waiting and frozen pairs are cancelled, running checks exactly if a nominated valid pair is strictly better, and READY is signalled exactly if no check of it goes on |
| `CheckList.ReadyIsDone` | jni/libnice/agent/conncheck.c:1302-1333 | a component that is READY has a nominated valid pair and nothing unfinished, and nominated pairs stay as they are |
| `CheckList.ConnCheckList.AddPair` | jni/libnice/agent/conncheck.c:1365-1405 | a new pair keeps order, prices and limit |
| `CheckList.ConnCheckList.SwitchRole` | jni/libnice/agent/conncheck.c:2246-2258 | a role conflict keeps order, prices and limit |
| `CheckList.ConnCheckList.Conclude` | jni/libnice/agent/conncheck.c:1302-1333 | a nomination keeps order, prices and limit, and has exactly the effect of `UpdateReady` |
| `CheckTimer.FindNextWaiting` | jni/libnice/agent/conncheck.c:87-102 | the first waiting pair is the best one on a fully ordered list, and the best up to the last bit on one ordered so |
| `CheckTimer.Refresh` | jni/libnice/stun/usages/timer.c:140-154 | the timer's three answers, and that the latest moment of failure never changes |
| `CheckTimer.TickPair` | jni/libnice/agent/conncheck.c:281-328 | a tick makes a running check fail or brings its end strictly closer |
| `CheckTimer.TickChecks` | jni/libnice/agent/conncheck.c:272-352 | the counts that decide about the timer are those of the list |
| `CheckTimer.TickStream` | jni/libnice/agent/conncheck.c:272-397 | the timer goes on exactly if a check runs or a valid pair awaits nomination; a controlling agent then moves on |
| `CheckTimer.ConnCheckAgent.UnfreezeNext` | jni/libnice/agent/conncheck.c:135-173 | the frozen pair of highest priority in the first stream that has one: no earlier stream has a frozen pair of non-zero priority |
| `CheckTimer.ConnCheckAgent.Tick` | jni/libnice/agent/conncheck.c:408-468 | if a pair waits, the first waiting pair of the first stream that has one is started; otherwise the best frozen pair of the first stream that has one is made to wait; running checks are retransmitted, fail or stay as their timer says, a controlling agent runs the first valid pair of each component again as nominated, and all other pairs stay; every tick that keeps the timer lowers the rank, except a controlled agent's over lists with nothing to do; when the timer stops nothing is left to do and no valid pair awaits nomination |
| `CheckTimer.FirstIsBest` | jni/libnice/agent/conncheck.c:417-431 | the pair that a tick starts is, on a fully ordered list, one of the highest priority among the waiting pairs of its stream |
| `CheckTimer.NominateFirst` | jni/libnice/agent/conncheck.c:372-382 | the first valid pair of a component, and no other, runs again as the nominated one |
| `CheckTimer.ConnCheckAgent.RunTimer` | jni/libnice/agent/conncheck.c:408-468 | the timer of an agent that hears nothing stops after finitely many ticks, or ticks for ever over lists with nothing to do: exactly if the agent is controlled and, before the first tick, a stream has a valid pair that is not nominated and fewer nominated pairs than components |
| `CheckTimer.IdleForEver` | jni/libnice/agent/conncheck.c:358-363 | a controlled agent with one component, whose one check has succeeded and is not nominated, ticks for ever |
| `CheckTimer.StreamsFall` | jni/libnice/agent/conncheck.c:272-397 | the rank on states and remaining time, re-initiated valid pairs included, falls strictly while a check runs |
| `Foundations.HighestRemoteFoundation` | jni/libnice/agent/discovery.c:330-356 | the search ends within one step more than there are candidates, at the least free number |
| `Foundations.NamesFit` | jni/libnice/agent/discovery.c:330-356 | pigeonhole: a list cannot hold more names than entries |
| `Foundations.GroupIs` | jni/libnice/agent/discovery.c:381-424 | two candidates belong to one group exactly if they agree on type, transport, stream, base IP and, if relayed, server |
| `Foundations.Discovery.AssignFoundation` | jni/libnice/agent/discovery.c:381-424 | the foundation given is shared by exactly the live candidates of the same group |
| `Foundations.Discovery.AddLocalCandidate` | jni/libnice/agent/discovery.c:308-328 | over any history two live candidates share a foundation exactly if they agree on type, transport, stream, base IP and, if relayed, server; no component holds two equal on base, address and transport |
| `Foundations.Discovery.RemoveStream` | jni/libnice/agent/discovery.c:381-424 | removing a stream keeps the classes; numbers are not used again |
| `Sdp.CandidateRoundTrip` | jni/libnice/agent/agent.c:5507-5530 | parsing a generated candidate line recovers foundation, component, transport, priority, address, port and type |
| `Sdp.BaseSurvives` | jni/libnice/agent/agent.c:5518-5524 | the base address survives exactly if absent, or written with a port that happens to be the candidate's own |
| `Sdp.ReadTokens` | jni/libnice/agent/agent.c:5776-5813 | the token loop computes the recursive reading of the fields, attributes in pairs |
| `Sdp.FieldsRead` | jni/libnice/agent/agent.c:5776-5813 | of a line with whole pairs six fields are read by their place, and of every attribute the last |
| `Sdp.MissingTcpType` | jni/libnice/agent/agent.c:5841-5850 | a candidate line whose transport is TCP in any spelling and that has no tcptype attribute is accepted exactly if it has whole pairs of attributes, a known type, a readable address and, unless without a port, a readable base address; it is then taken for simultaneous open |
| `Sdp.TcpTypeLost` | jni/libnice/agent/agent.c:5841-5850 | every TCP candidate, active and passive ones too, arrives as simultaneous open, all else recovered, when the tcptype fields are cut off its line |
| `Sdp.GenerateStream` | jni/libnice/agent/agent.c:5533-5588 | the text is the lines of the stream in order, each ended |
| `Sdp.ParseStream` | jni/libnice/agent/agent.c:5706-5742 | the line loop computes the recursive reading; a malformed candidate drops them all |
| `Sdp.StreamRoundTrip` | jni/libnice/agent/agent.c:5574-5586 | parsing a generated stream recovers user fragment, password and the candidates in reverse order |
| `Sdp.NonIceIsForeign` | jni/libnice/agent/agent.c:5563-5571 | the non-ICE lines are not mistaken for ICE attributes |
| `Text.ReadSigned` | jni/libnice/agent/agent.c:5511-5515 | a 32-bit number printed as signed and read as unsigned is unchanged |

## Left out

- GObject properties other than buffer sizes, signals, main loops, locks, memory release and debug output.
- JNI glue, GStreamer elements, socket implementations and the examples.
- STUN and TURN messages: a connectivity check either has a message with some timer or has none.
- Inbound connectivity checks and responses, triggered checks and role-conflict resolution: the timer is modelled for an agent that hears nothing.
- Failed-component signals when the timer stops: they change no pair.
- `priv_assign_remote_foundation`: only its search is modelled.
- Google, MSN and OC2007 compatibility modes.
- Address text conversion: an arbitrary pair of functions that undo each other and use no blanks.
- Multi-buffer messages and queued TCP packets of the agent.
- The two clocks of the check timer (wall clock and monotonic clock) are one clock.
- A window scale of 32 or more from the peer, which is undefined behaviour in C, shifts as mathematics does.
- Delayed segments further than 2^31 from the current position, which 32-bit numbers cannot tell apart.
- Numbers of foundations beyond 2^32 are not wrapped.
- FlowControl.FlowSafety: ends when the sender queues a FIN or RST, because the flush ignores the window, and asks that no connect message is cut into pieces, which a peer's window below its length can bring about after the network has refused it whole.
- PseudoTcp.PseudoTcpSocket.NotifyClock: in LAST-ACK it is left open whether a probe or an acknowledgement is still due after the repeated FIN.
- PseudoTcp.PseudoTcpSocket.SetReceiveBuffer: not for a socket with bytes listed out of order, which the code drops, nor for a size that rounds to exactly the bytes held, for which the ring keeps its size while the code notes another.
