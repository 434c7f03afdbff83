# KCP in Dafny

A model of the KCP reliable-transport protocol (`code/kcp/ikcp.cc`, `code/kcp/ikcp.h`) and of the Internet
checksum beside it (`code/kcp/kcp_socket.cc`), with proofs of what the protocol promises.

Verify everything with `dafny verify dfyconfig.toml --resource-limit 2000000 --verification-time-limit 0`.

## Layout

| file | content |
|---|---|
| `Words.dfy`, `Seqs.dfy` | 32-bit wrapping arithmetic and comparison; facts about sequences |
| `Fragments.dfy`, `Wire.dfy` | cutting and joining messages; frames, headers, datagrams |
| `Sender.dfy`, `Transmission.dfy`, `Receiver.dfy` | the two halves of a control block as values |
| `Estimator.dfy`, `Congestion.dfy`, `Schedule.dfy` | round-trip estimate, congestion window, flush timer |
| `Control.dfy` | a whole control block as a value, each public operation as a function |
| `Flushing.dfy`, `Inputs.dfy` | what a flush and an input do, in terms of the fields of the block and the frames |
| `Kcp.dfy` | the control block as a class with mutable fields and loops, proved to compute those functions |
| `Link.dfy`, `Network.dfy`, `Delivery.dfy`, `Connection.dfy` | two endpoints over a network that loses, repeats and reorders |
| `Progress.dfy`, `Recovery.dfy`, `Exchange.dfy` | what always can happen next: no stall, recovery from loss, a window that opens again, one message from end to end |
| `Echo.dfy` | acknowledgements return the time of their segment, so that the estimator is given round trips |
| `Completion.dfy` | from every reachable state everything accepted can still be delivered |
| `Runs.dfy`, `Accounting.dfy` | runs of one endpoint under arbitrary input |
| `Overflow.dfy` | runs in which the congestion window overflows |
| `Ring.dfy` | the intrusive circular list on the heap |
| `Checksum.dfy` | the Internet checksum |

Datagrams are byte sequences. A two-endpoint run is any interleaving of sends, reads, flushes, updates, option
changes, and deliveries of any datagram that the other end has ever emitted, in any order and any number of times,
as long as it is young, with one limit for each kind of frame. A datagram with data is young while at most 2^32 - 2^17
segments have been numbered in its direction since it was emitted. For the `una` of its frames the datagram is young
while that edge is at most 2^31 - 2^17 behind what its receiver has numbered; at emission it is at most two windows
behind, so this is so while at most 2^31 - 2^18 segments have been numbered in the other direction since then.
Runs have any length. Sequence numbers wrap, and the model follows them by unbounded indices into the log of all
segments. Every operation of the class is equal to a function in `Control.dfy`, so the theorems about runs hold of
the class.

Assumptions on the configuration: allocation succeeds, the output callback is set, buffers are not null. The
two-endpoint theorems start from ends that were created and configured before traffic, with one conversation number
and a receive window of at most 65535, because the wire field has 16 bits. The bounds on the congestion window hold for
`mss` up to 2^16, which is exactly the range in which they hold over all runs (`Overflow.SegmentSizeExact`), and there
exactly while the byte counts that fast retransmissions set fit 32 bits (`Runs.BalancedOverRuns`); they do when
`(32767 + resend) * mss` is below 2^32 for every fast-resend threshold in use (`Runs.ThresholdsTame`).

Where code and its comments differ the code is followed. These observations came out of the proofs, each with its
exact condition:

- An age limit is needed. Take the age of a frame modulo 2^32. An old data frame is mistaken for a new one if and only
  if that is 0 or more than 2^32 less the window (`Receivers.OldNumberTaken`); an old cumulative acknowledgement drops
  data that has not arrived if and only if it is more than 2^31 (`Senders.OldUnaDrops`).
- The round-trip estimate rounds down. A constant round trip brings it to that value, without variance, if and only if
  no sample has been taken or the smoothed value stands nowhere below it (`Estimator.SettlesExactly`); from below it
  stops up to 7 milliseconds short with a variance of up to 7 (`Estimator.ConstantRests`), as after one sample of 93
  and then 100 for ever (`Estimator.ConstantFromBelow`).
- Above segments of 2^16 bytes the byte count of the congestion window overflows: for every such size there is a run
  of small sends, flushes and acknowledgements after which the window is out of balance or has collapsed
  (`Overflow.OverflowReached`). A fast retransmission overflows it alone if and only if the product that it sets does
  not fit (`Congestion.AdjustExact`).
- A flush can follow another in less than an interval: this is so if and only if the first of them was late, by less
  than an interval (`Schedule.NextFlushGap`). Over any `m + 1` flushes the rate is still bounded: they span more than
  `m - 1` intervals (`Schedule.FlushSpacing`).
- The retransmission timeout of a segment has no upper bound. In normal mode, with an estimate that is no longer than
  the first timeout, a segment is due again at once after `n` timeouts in a row if and only if the first timeout times
  2^n is past half of the clock range (`Transmission.DueAfterTimeouts`); from 60 seconds this is first so after 16 of
  them (`Transmission.SixteenTimeouts`). In the no-delay mode that the client sets each timeout adds a half, rounded
  down, and it is first so after 26 (`Transmission.DueAfterNoDelay`, `Transmission.TwentySixTimeouts`).
- The client stores the IPv4 checksum without conversion to network order, which is right if and only if the sum of
  the header is a multiple of 257 (`Checksums.HostOrderVerifies`); the first header of a client on
  the loopback address is one for which it is wrong (`Checksums.ClientHeaderFails`).
- A new MTU or receive window keeps the block consistent if and only if what it holds fits (`Control.SetMtuOk`,
  `Control.WndSizeOk`).

## Model

| member | source | states |
|---|---|---|
| Connection.OrderedDelivery | code/kcp/ikcp.cc:358-1148 | In every run of any length, across any number of sequence wraps, of sends, reads, flushes, updates, option changes and deliveries of any young emitted datagram (lost, repeated, reordered at will), the messages read at one end are a prefix, in order and exactly once, of the messages accepted at the other end outside stream mode; in either mode the bytes are a prefix |
| Connection.AcknowledgedImpliesHeld | code/kcp/ikcp.cc:578-614 | In every reachable state each acknowledged number, pending or on the network, stands for a segment below `rcv_nxt` or in `rcv_buf`, the only one near enough to have that number, each `una` on the network is an edge that the receiver has reached, and every segment that has left `snd_buf` is held or delivered |
| Progress.NeverStalls | code/kcp/ikcp.cc:836-854 | In every reachable state with something outstanding and room in the peer's queue there are a datagram already on the network and one of the peer's next flush whose delivery strictly advances `snd_una` |
| Progress.RunOnNetwork | code/kcp/ikcp.cc:1093-1112 | In every reachable state every outstanding segment has been emitted in some datagram since it was numbered |
| Completion.EverythingArrives | code/kcp/ikcp.cc:358-1180 | From every reachable state, whatever the network has lost, some continuation without new sends ends with both users having read exactly what the other end has accepted: message by message, in stream mode byte by byte |
| Completion.Drains | code/kcp/ikcp.cc:358-1180 | One direction: reads, recoveries, flushes and probes strictly lessen what is unacknowledged, unnumbered and unread until everything accepted has been read |
| Completion.StepNearer | code/kcp/ikcp.cc:358-1180 | In every reachable state in which something is unread, a few possible events move `snd_una`, the numbering or the reading strictly on |
| Completion.QuietRun | code/kcp/ikcp.cc:358-1180 | Over any run without sends both ends accept nothing, keep the number of their fragments, and move no edge back |
| Completion.ClosedStep | code/kcp/ikcp.cc:980-1024 | A window that the peer has closed always can open again: some flushes and a probe number a waiting fragment once the peer has room |
| Completion.RestReadable | code/kcp/ikcp.cc:441-463 | When everything is numbered and acknowledged, what the receiver has not yet given to the user begins with a complete message |
| Recovery.Recovers | code/kcp/ikcp.cc:1060-1118 | From every reachable state with something outstanding and room at the peer, both clocks started, some update starts four possible events (that update, the delivery of one of its datagrams, a flush of the peer, the delivery of one of its datagrams) after which `snd_una` stands strictly further on |
| Recovery.RecoversWhenDue | code/kcp/ikcp.cc:1060-1118 | The same for any given flush or update for which the oldest segment is due |
| Recovery.WindowReopens | code/kcp/ikcp.cc:980-1024 | From every reachable state in which the peer has announced no room, nothing is outstanding and something waits, while the peer has room: a flush with a due probe starts five possible events (the probe, its delivery, the peer's flush with the answer, its delivery, the next flush) after which a waiting fragment has been numbered |
| Recovery.ClosedAsks | code/kcp/ikcp.cc:980-1010 | Behind a closed window with nothing outstanding, a flush at the time of the probe sends a window probe and no data, and leaves a window of at least one |
| Recovery.AnswerTellsRoom | code/kcp/ikcp.cc:1014-1022 | An asked end with room sends an answer, and every frame of that flush announces the room |
| Exchange.OneMessageArrives | code/kcp/ikcp.cc:358-1180 | The theorems about runs are not empty: for every message of one fragment, five events between two created ends form a legal run after which what was read equals what was accepted |
| Connection.NoStall | code/kcp/ikcp.cc:567-598 | One round: any emitted datagram with the oldest outstanding segment, at most the age limit old, a flush of the receiver, and one datagram of that flush strictly advance `snd_una` |
| Connection.UnaNotAhead | code/kcp/ikcp.cc:727-739 | While the receive queue has room, the index of the sender's `snd_una` is at most that of the receiver's `rcv_nxt`: the drain in both places is maximal |
| Connection.PushIsAcked | code/kcp/ikcp.cc:836-838 | Every PUSH frame below the end of the window leaves an entry in the acknowledgement list, duplicate or not |
| Connection.FlushSendsAck | code/kcp/ikcp.cc:965-976 | Every pending acknowledgement is in some datagram of the next flush, with its number and the time of its segment |
| Connection.AckAdvances | code/kcp/ikcp.cc:801-806 | A datagram with an ACK of the oldest outstanding number advances `snd_una` within what is outstanding, whatever else it holds |
| Progress.FullQueueAlwaysReadable | code/kcp/ikcp.cc:441-463 | In every reachable state a full receive queue has a complete message at its front, and reading it succeeds |
| Connection.RunInv | code/kcp/ikcp.cc:756-1148 | The two-endpoint invariant (sender log, receiver log, accounted segments, true acknowledgements, order of bytes and messages) holds in every reachable state, however long the run |
| Network.LinkedSender | code/kcp/ikcp.cc:797-806 | Any operation of the sending end keeps the invariant of its direction |
| Network.LinkedReceiver | code/kcp/ikcp.cc:831-856 | Any operation of the receiving end keeps the invariant of the other direction |
| Network.ReceiverStep | code/kcp/ikcp.cc:358-435 | No operation loses received data, and the position in the log moves on by exactly the frames handed to the user |
| Network.LinkedSpread | code/kcp/ikcp.cc:1026-1052 | The log is never more than two windows ahead of what the receiver last told, and the receiver's edge lies between them |
| Delivery.ReadsNextMessage | code/kcp/ikcp.cc:383-409 | On fragments of the log a successful read takes exactly the next whole message |
| Delivery.ReceiverMessages | code/kcp/ikcp.cc:383-411 | Message order is kept by every operation of the receiving end |
| Delivery.SenderBytes | code/kcp/ikcp.cc:478-543 | Log and queue together always hold exactly the accepted bytes |
| Connection.OpenIsFresh | code/kcp/ikcp.cc:234-295 | A created block with any stream mode, `fastlimit`, `dead_link`, MTU and windows accepted before traffic is a fresh end in that mode, so the two-endpoint theorems apply to it |
| Connection.DoInv | code/kcp/ikcp.cc:358-1180 | Every single event of either end keeps the two-endpoint invariant |
| Connection.TakeFramesAcked | code/kcp/ikcp.cc:797-806 | After the frames of a datagram every number that one of them acknowledged has left the buffer, and `snd_una` has not moved back |
| Link.TakeUnaLink | code/kcp/ikcp.cc:600-614 | A true cumulative acknowledgement less than 2^31 numbers old removes only segments that the receiver holds |
| Link.TakeAckLink | code/kcp/ikcp.cc:578-598 | A true selective acknowledgement less than 2^32 numbers old removes only a segment that the receiver holds |
| Link.ParseDataLink | code/kcp/ikcp.cc:690-750 | A true frame in the window is held afterwards, nothing is lost, and the queue still is the next stretch of the log |
| Link.TakePushLink | code/kcp/ikcp.cc:836-854 | A true frame within the age limit for data keeps the receiver's view of the log; if below the end of the window and younger than half of the ring it is acknowledged, and then held |
| Link.IndexBelow | code/kcp/ikcp.cc:836-838 | The two wrapped window tests on a number are the tests on its index, for every index that is not half of the ring away |
| Link.OldIsIgnored | code/kcp/ikcp.cc:836-838 | A number that is more than half of the ring behind the end of the window, up to the whole ring, passes neither window test |
| Link.Spread | code/kcp/ikcp.cc:1030-1030 | From accounting alone: the sender is at most two windows ahead of a receiver that it knows of |
| Link.AfterReadLink | code/kcp/ikcp.cc:383-425 | A read moves the position in the log on by what it took and loses nothing |
| Link.AdmitLink | code/kcp/ikcp.cc:1030-1052 | Numbering extends the log by exactly the fragments taken from the queue, and every number stays accounted for |
| Link.SendAllLink | code/kcp/ikcp.cc:1058-1118 | Every emitted data frame carries the fragment of the log under its index, which is at most a window behind |
| Delivery.DeliveredMessages | code/kcp/ikcp.cc:383-411 | What a read delivers is the next accepted message |
| Delivery.SenderMessages | code/kcp/ikcp.cc:509-543 | Log and queue together are always the fragments of the accepted messages, in order |
| Delivery.ReceiverBytes | code/kcp/ikcp.cc:383-411 | Byte order is kept by every operation of the receiving end |
| Receivers.NextIsQueued | code/kcp/ikcp.cc:702-739 | With room in the queue the frame with number `rcv_nxt` goes straight to its end |
| Receivers.OldNumberTaken | code/kcp/ikcp.cc:696-739 | An old frame of any age whose number is not buffered leaves the data alone if and only if its age modulo 2^32 is at least 1 and at most 2^32 less the window; any other one is taken for new data |
| Receivers.WindowByAge | code/kcp/ikcp.cc:696-700 | The window test is right on the number of every frame that is not old, and on that of an old one, of any age, if and only if the age modulo 2^32 is at least 1 and at most 2^32 less the window |
| Senders.OldUnaDrops | code/kcp/ikcp.cc:600-614 | A cumulative acknowledgement that is already past, of any age, drops nothing if and only if its age modulo 2^32 is at most 2^31 |
| Runs.AfterOk | code/kcp/ikcp.cc:756-909 | From any valid block, any run with arbitrary input bytes stays in the invariant of both halves, across sequence wrap |
| Runs.EdgesOverRuns | code/kcp/ikcp.cc:567-614 | `snd_una`, `snd_nxt` and `rcv_nxt` are at all times the low 32 bits of unbounded indices that never move back (at most 65535 per operation), with `snd_una` at most `snd_nxt` and at most 65535 numbers outstanding |
| Control.InputOk | code/kcp/ikcp.cc:756-909 | Arbitrary input bytes keep the sender and receiver invariants |
| Control.FlushOk | code/kcp/ikcp.cc:940-1148 | A flush keeps the invariants; the 16-bit peer window bounds what it numbers |
| Senders.TakeUnaOrdered | code/kcp/ikcp.cc:600-614 | After any cumulative acknowledgement `snd_buf` is strictly increasing in `[snd_una, snd_nxt)`, `snd_una` is its head or `snd_nxt`, and has not moved back |
| Senders.TakeUnaExact | code/kcp/ikcp.cc:600-614 | For `una` inside the window the early exit loses nothing: exactly the numbers below it are dropped, also across the wrap |
| Senders.TakeAckOrdered | code/kcp/ikcp.cc:578-598 | After any selective acknowledgement the sender invariant holds and `snd_una` has not moved back |
| Senders.TakeAckExact | code/kcp/ikcp.cc:578-598 | A selective acknowledgement removes exactly the segment with that number, if it is there |
| Senders.RestIsAfter | code/kcp/ikcp.cc:594-596 | In the ordered buffer, once the scan meets a later number all the rest are later, which justifies the early exit |
| Receivers.InsertExact | code/kcp/ikcp.cc:702-720 | The search from the tail inserts an in-window number at its sorted place exactly when it is absent |
| Receivers.DrainMaximal | code/kcp/ikcp.cc:727-739 | The move loop takes a run of consecutive numbers from the front, keeps order, and stops only when the buffer is empty, its head is not `rcv_nxt`, or the queue is full |
| Receivers.InWindowExact | code/kcp/ikcp.cc:696-700 | The two signed comparisons accept exactly `[rcv_nxt, rcv_nxt+rcv_wnd)` |
| Receivers.TakePushWindowed | code/kcp/ikcp.cc:836-854 | A PUSH frame with any number keeps the receiver invariant: buffer strictly increasing in the window, queue the consecutive numbers below `rcv_nxt` |
| Receivers.WindowBounds | code/kcp/ikcp.cc:690-739 | Pigeonhole: both receive lists hold at most `rcv_wnd` frames |
| Receivers.UnusedRoom | code/kcp/ikcp.cc:928-934 | Under the invariant the announced window is the free room of the queue, fits the 16-bit field, and is 0 exactly for a full queue |
| Receivers.AfterReadWindowed | code/kcp/ikcp.cc:413-425 | A read or peek keeps the receiver invariant |
| Receivers.FullQueueReadable | code/kcp/ikcp.cc:441-463 | A full queue whose front fragment number a sender can have produced is readable |
| Words.TimeDiffInWindow | code/kcp/ikcp.cc:136-139 | Inside any window below half the ring, wrapped or not, the signed difference is the difference of distances |
| Words.TimeDiffExact | code/kcp/ikcp.cc:136-139 | The signed 32-bit difference of two unbounded counts is right if and only if they are less than half the ring apart |
| Words.IndexOfNumber | code/kcp/ikcp.cc:136-139 | A number read from an edge stands for the right index if and only if that index is less than half the ring away |
| Words.AscendingLength | code/kcp/ikcp.cc:690-739 | A strictly increasing list of numbers is no longer than its window |
| Runs.StepForward | code/kcp/ikcp.cc:567-614 | No operation moves an edge of either window back |
| Runs.InputForward | code/kcp/ikcp.cc:756-909 | The same for one input of arbitrary bytes |
| Control.StepOk | code/kcp/ikcp.cc:358-1278 | Every operation of a run keeps the invariant of both halves |
| Control.TakeFrameOk | code/kcp/ikcp.cc:797-875 | So does every single frame of a datagram |
| Control.CreateOk | code/kcp/ikcp.cc:234-295 | A created block satisfies it, and has the initial values of the header file |
| Control.SendOk | code/kcp/ikcp.cc:469-544 | A send keeps every queued fragment within `mss` and below 127 in number |
| Control.RecvOk | code/kcp/ikcp.cc:358-435 | A read or peek keeps the invariant |
| Control.RecvTells | code/kcp/ikcp.cc:427-432 | A read asks for the peer to be told exactly when it succeeds on a full queue and leaves room in it, and otherwise changes only what has been received |
| Control.UpdateOk | code/kcp/ikcp.cc:1156-1180 | An update keeps it |
| Control.NoDelayOk | code/kcp/ikcp.cc:1255-1278 | The option call keeps it for every argument |
| Control.NoDelaySets | code/kcp/ikcp.cc:1255-1278 | Each argument that is not negative sets exactly its own setting, the interval clamped, and every other setting stays |
| Control.NoDelayLastWins | code/kcp/ikcp.cc:1255-1278 | Two option calls are one: for each argument the later call decides unless it is negative |
| Senders.ParseFastackOrdered | code/kcp/ikcp.cc:616-638 | Counting passed-over segments keeps the order |
| Control.FlushRoundTrip | code/kcp/ikcp.cc:940-1124 | Every datagram of a flush is non-empty, at most `mtu` bytes and parses without error; together they parse to exactly the frames of the flush in order with every field, which `Flushing.FlushOrder` and `Flushing.FlushDecides` name by the fields of the block |
| Control.FlushAnnounces | code/kcp/ikcp.cc:956-963 | Every frame of a flush is of this conversation and carries the receiver's edge and the free room of its queue, and data frames carry the time |
| Control.FlushFillsWindow | code/kcp/ikcp.cc:1026-1052 | A flush numbers up to the smallest of the send window, the peer's window and the congestion window and no further; if something still waits, one of them holds it back |
| Flushing.FlushDecides | code/kcp/ikcp.cc:1060-1118 | The retransmission decision: an outstanding segment is in a data frame of the flush if and only if it was never sent, or the clock has reached its `resendts`, or its `fastack` has reached the configured threshold while `xmit` is within the limit; the frame is that of the segment with the time, the free room and the edge of the block |
| Flushing.FlushOutcome | code/kcp/ikcp.cc:1062-1097 | What each outstanding segment is after a flush: unchanged if not sent; after a timeout with the longer `rto` of the mode (doubled at least, half as long again, or half of the estimate longer) and `resendts` that far ahead; after a fast retransmission with the same `rto` and a `fastack` of 0; after a first transmission with the estimate as `rto`, and an eighth more of wait in normal mode; `xmit` one higher |
| Flushing.FlushNumbers | code/kcp/ikcp.cc:1030-1069 | Each fragment that the least of the three windows has room for gets the next number and is sent at once, with its data, the time, the room and the edge, a timeout equal to the estimate and one transmission counted |
| Flushing.FlushOrder | code/kcp/ikcp.cc:965-1024 | The order of a flush: every pending acknowledgement with its own number and the time of its segment, then the question and the answer about windows with the pair of the last acknowledgement, then only data |
| Flushing.FlushAcknowledges | code/kcp/ikcp.cc:965-976 | On the wire: what the datagrams of a flush parse to begins with the pending acknowledgements, each with its number and the time of its segment |
| Flushing.FlushWindowLaw | code/kcp/ikcp.cc:1126-1147 | The congestion window after a flush: one segment and a threshold of half the fillable window after any timeout; half of what is in flight plus the threshold of duplicates after fast retransmissions alone; otherwise unchanged, but at least one segment |
| Flushing.FlushProbing | code/kcp/ikcp.cc:980-1000 | The probing that a flush leaves: none with an open peer, a first wait of 7 seconds behind a closed one, and a wait half as long again, at most two minutes, each time that it is over |
| Flushing.FlushCounts | code/kcp/ikcp.cc:1071-1073 | The counter of timeouts grows by the number of outstanding segments whose time has come |
| Flushing.FlushDead | code/kcp/ikcp.cc:1114-1116 | The link is given up exactly when some segment is sent for the `dead_link`-th time or later |
| Flushing.FlushKeeps | code/kcp/ikcp.cc:940-1148 | A flush changes no setting, no estimate, no clock and nothing received, and empties the list of acknowledgements |
| Flushing.ReachedExact | code/kcp/ikcp.cc:136-139 | The test for a time that has come, on a wrapping clock, is the order of the moments when they are less than half of the ring apart |
| Inputs.InputSamples | code/kcp/ikcp.cc:801-805 | An input gives the estimator exactly the times since the segments were sent of its acknowledgements that are not from the future, in order |
| Inputs.InputCounts | code/kcp/ikcp.cc:880-882 | Fast acknowledgement: after a well-formed input every segment still outstanding has one more `fastack` exactly when the newest acknowledgement is for an outstanding number behind it and a copy sent no earlier; nothing else of it changes, and a malformed input counts nothing |
| Inputs.NewestIs | code/kcp/ikcp.cc:807-829 | The pair that decides this is that of an acknowledgement which is the first or is later in number and time than one before it, and than which no later one is later in both |
| Inputs.FastFires | code/kcp/ikcp.cc:616-638 | Fast retransmission fires: once as many inputs as the threshold asks for have passed over a segment that has not been sent too often, the next flush sends it again |
| Inputs.InputWindows | code/kcp/ikcp.cc:797-906 | The windows after an input: the peer's is the last one announced, and the congestion window makes one growth step exactly when the datagram is well formed and has moved `snd_una` |
| Inputs.GrowthByFields | code/kcp/ikcp.cc:884-906 | One growth step: none behind a full window, one segment in slow start, and in avoidance `mss*mss/incr + mss/16` bytes and the segments that they fill, limited by the peer |
| Inputs.InputKeeps | code/kcp/ikcp.cc:857-862 | The peer is to be told of the window exactly when it has asked; no input changes settings, clock, probe times or transmission counters; the result is that of the parser |
| Inputs.ShortInput | code/kcp/ikcp.cc:764-766 | Fewer bytes than a header change nothing and give -1 |
| Echo.EchoOverRuns | code/kcp/ikcp.cc:836-838 | In every reachable state, across loss, repetition and retransmission, every acknowledgement, pending or on the network, has the number and the time of one data frame that the other end has emitted |
| Echo.RoundTripMeasured | code/kcp/ikcp.cc:801-976 | In every reachable state: a data frame emitted at time `t`, read by the peer and acknowledged by its flush, leaves a datagram on the network which, read at any time `t'` less than half of the ring later, gives the estimator the sample `t' - t` |
| Echo.FrameNoted | code/kcp/ikcp.cc:836-838 | Exactly a data frame below the end of the window is noted for acknowledgement, once, with its own number and time |
| Wire.DatagramsRoundTrip | code/kcp/ikcp.cc:770-878 | Packing frames into datagrams and parsing all of them gives back the frames in order; each datagram is non-empty and within the MTU |
| Wire.RoundTrip | code/kcp/ikcp.cc:915-926 | Parsing the encoding of any list of frames gives back the list |
| Wire.ParsedIsPrefix | code/kcp/ikcp.cc:770-878 | For arbitrary bytes, what is parsed re-encodes to the bytes read, and on success less than one header is left over |
| Wire.Decode32Encode32 | code/kcp/ikcp.cc:94-121 | The 32-bit decoder inverts the encoder |
| Wire.Encode32Decode32 | code/kcp/ikcp.cc:94-121 | The 32-bit encoder inverts the decoder |
| Wire.Layout | code/kcp/ikcp.cc:915-926 | Where each byte of a frame lies: conversation, command, fragment number, window, time, number, cumulative acknowledgement, length and payload, least significant byte first |
| Wire.Commands | code/kcp/ikcp.cc:29-32 | The four command codes |
| Wire.ParseStops | code/kcp/ikcp.cc:770-795 | What stops the parsing of arbitrary bytes, in the order of the tests: too few bytes for a header, another conversation, a length that is missing or negative, an unknown command |
| Wire.DatagramsGreedy | code/kcp/ikcp.cc:965-1118 | A new datagram is begun only for a frame that the one before has no room for |
| Wire.PackAllConcat | code/kcp/ikcp.cc:965-1118 | Filling the buffer with one list after another is filling it with their concatenation |
| Fragments.SendConserves | code/kcp/ikcp.cc:469-544 | In either mode and for any queue the queued byte stream grows by exactly the first bytes that the result counts, and not at all on refusal; fragments stay within `mss` |
| Fragments.SendMessage | code/kcp/ikcp.cc:509-543 | Outside stream mode an accepted message, the empty one included, becomes one run of fragments numbered down to 0; it is refused if and only if it needs 128 fragments or more |
| Fragments.CountCovers | code/kcp/ikcp.cc:509-518 | The fragment count is the least that holds the bytes, and at least one |
| Fragments.SendFills | code/kcp/ikcp.cc:478-543 | Stream mode keeps all queued fragments but the last full |
| Fragments.SplitFills | code/kcp/ikcp.cc:520-541 | In either mode all fragments of a call but the last are full |
| Fragments.SendStreamCode | code/kcp/ikcp.cc:478-513 | The result in stream mode: everything up to 127 segments beyond the room of the last fragment, else what that room took, else -2 |
| Fragments.MessageEndOfMessage | code/kcp/ikcp.cc:383-409 | Merging stops exactly at the end of the first message |
| Receivers.ReadMatchesPeek | code/kcp/ikcp.cc:358-411 | For every queue content, well formed or not, a read succeeds exactly when the peeked size fits and returns exactly that many bytes |
| Receivers.ReadCases | code/kcp/ikcp.cc:367-411 | The codes of a read in the order of the tests, and the payloads up to the first fragment that announces no other |
| Transmission.AdmitFills | code/kcp/ikcp.cc:1026-1052 | Numbers are assigned consecutively until the window is full or the queue is empty, and the sender invariant is kept |
| Transmission.EmittedFrom | code/kcp/ikcp.cc:1058-1118 | A flush emits a frame if and only if it is that of a segment with one of the three reasons; `Flushing.FlushDecides` says when these hold |
| Transmission.SentKeepsIdentity | code/kcp/ikcp.cc:1093-1097 | Sending changes only the clock, window and acknowledgement fields of a header |
| Transmission.EmittedAscending | code/kcp/ikcp.cc:1058-1118 | What one flush emits has strictly increasing numbers |
| Transmission.BackoffGrows | code/kcp/ikcp.cc:1072-1078 | The timeout of a lost segment strictly grows, at most by the larger of itself and the estimate, and at least doubles in normal mode |
| Transmission.SentIsDue | code/kcp/ikcp.cc:1062-1091 | A segment just sent is due again at the same instant if and only if its timeout is 0 or past half of the clock range |
| Transmission.TimeoutsDouble | code/kcp/ikcp.cc:1066-1079 | In normal mode `n` consecutive timeouts multiply the timeout by 2^n while that fits 32 bits |
| Transmission.DueAfterTimeouts | code/kcp/ikcp.cc:1066-1079 | After `n` timeouts in a row in normal mode, with an estimate that is no longer than the first timeout, a segment is due again at the same instant if and only if its first timeout times 2^n is past half of the clock range |
| Transmission.OnTimeTimesOut | code/kcp/ikcp.cc:1066-1079 | Any number of timeouts in a row can happen, with the clock at each due time |
| Transmission.SixteenTimeouts | code/kcp/ikcp.cc:1066-1079 | From 60 seconds, the largest estimate, the sixteenth timeout is the first after which a segment is due again at once |
| Transmission.TimeoutsGrow | code/kcp/ikcp.cc:1072-1078 | In no-delay mode each of `n` timeouts in a row adds half of the timeout, rounded down, whatever the estimate is |
| Transmission.GrownBounds | code/kcp/ikcp.cc:1072-1078 | After `n` such steps the timeout lies between `(rto - 1) * 1.5^n + 1` and `rto * 1.5^n` |
| Transmission.DueAfterNoDelay | code/kcp/ikcp.cc:1066-1079 | After `n` timeouts in a row in no-delay mode a segment is due again at the same instant if and only if the last step has brought its timeout past half of the clock range |
| Transmission.TwentySixTimeouts | code/kcp/ikcp.cc:1066-1079 | From 60 seconds the twenty-sixth timeout in that mode is the first after which a segment is due again at once |
| Accounting.AccountingOverRuns | code/kcp/ikcp.cc:1058-1112 | Over any run of fewer than 2^32 operations `xmit` is exactly the number of times the segment was emitted, at least once, always with the same fragment number and payload |
| Accounting.FastLimited | code/kcp/ikcp.cc:1082-1091 | With `fastlimit` positive a segment is fast-retransmitted at most `fastlimit` times, over any run of fewer than 2^31 operations |
| Accounting.FlushInOrder | code/kcp/ikcp.cc:1058-1118 | One flush emits each number at most once and in increasing order |
| Accounting.PushesOnWire | code/kcp/ikcp.cc:1093-1124 | The accounted data frames are exactly the PUSH frames that parsing the datagrams of the flush gives |
| Accounting.FlushSegment | code/kcp/ikcp.cc:1026-1118 | One flush either numbers a segment and sends it at once, or counts exactly whether it emitted it, and keeps number, fragment and payload |
| Accounting.OtherSegment | code/kcp/ikcp.cc:756-909 | Between flushes nothing is emitted, numbered or changed in identity |
| Runs.BalancedOverRuns | code/kcp/ikcp.cc:884-906 | Any run of sends, reads, inputs, flushes, updates and option changes from a fresh block with `mss` up to 2^16: after the first flush `cwnd >= 1`, `ssthresh >= 2` and `(cwnd-1)*mss < incr < (cwnd+1)*mss` in every state and no input shrinks `cwnd`, if and only if the byte count of every flush with a fast retransmission and no loss fits 32 bits |
| Overflow.SegmentSizeExact | code/kcp/ikcp.cc:884-906 | For every segment size that an MTU can give, all such runs of all fresh blocks keep these bounds, if and only if the size is at most 2^16 |
| Overflow.OverflowReached | code/kcp/ikcp.cc:884-906 | For every larger size some run from a created block breaks them |
| Overflow.ClimbStep | code/kcp/ikcp.cc:891-906 | Above 2^16 each step that goes well adds at least 2^12 to `incr` and stays below the largest window, so the climb cannot go on for ever |
| Overflow.Round | code/kcp/ikcp.cc:469-909 | One byte sent, flushed and acknowledged makes the window one growth step under the largest window of the peer |
| Runs.ThresholdsTame | code/kcp/ikcp.cc:1082-1091 | Every flush of a run fits when `(32767 + resend) * mss` is below 2^32 for each fast-resend threshold that is set |
| Runs.InputBalances | code/kcp/ikcp.cc:884-906 | One input call of any bytes keeps the balance, for `mss` up to 2^16, and raises `cwnd` by at most 1 in slow start and 2 in avoidance |
| Runs.FlushBalances | code/kcp/ikcp.cc:1126-1147 | A flush establishes the balance if and only if its fast retransmission, if it has one and no loss, sets a byte count that fits |
| Congestion.GrowBalanced | code/kcp/ikcp.cc:884-906 | The window step keeps the balance and never passes the peer's window, for `mss` below 2^16 |
| Congestion.GrowSteady | code/kcp/ikcp.cc:884-906 | The same for `mss` up to 2^16: at 2^16 the byte count stays a multiple of 2^12 and so never wraps |
| Congestion.GrowthExact | code/kcp/ikcp.cc:884-906 | For every segment size an MTU can give, growth keeps the balance of every balanced window, reached or not, and never shrinks it, if and only if the size is below 2^16 |
| Congestion.AvoidBalanced | code/kcp/ikcp.cc:891-899 | Congestion avoidance keeps the balance, by nonlinear bounds on `mss*mss/incr` |
| Congestion.AvoidExact | code/kcp/ikcp.cc:891-899 | No 32-bit operation of the avoidance step overflows for a balanced window below the largest |
| Congestion.AvoidExactWhenSquareFits | code/kcp/ikcp.cc:891-899 | The 32-bit avoidance step is the exact one for all such windows if and only if the square of the segment size fits 32 bits |
| Congestion.AdjustExact | code/kcp/ikcp.cc:1126-1147 | The end of a flush leaves a balanced window, for every segment size, if and only if it has no fast retransmission, or a loss as well, or `(Max(inflight / 2, 2) + resend) * mss` fits 32 bits |
| Estimator.SampleWithin | code/kcp/ikcp.cc:550-565 | For samples in `[lo, hi]` below 2^28 nothing overflows, `rx_srtt` stays in `[lo, hi]`, `rx_rttval` in `[0, hi]`, and both follow the exact recurrence |
| Estimator.SampleExact | code/kcp/ikcp.cc:550-565 | One sample of any length below 2^28, a round trip of 0 included: the first sets the estimate, a later one moves `rx_srtt` by an eighth and not below 1, `rx_rttval` by a quarter, and `rx_rto` is the bounded sum |
| Estimator.SampleTimeout | code/kcp/ikcp.cc:563-564 | The timeout is the exact sum, bounded below and above |
| Estimator.SamplesWithin | code/kcp/ikcp.cc:550-565 | The same over any sequence of samples, with every `rx_rto` between `rx_minrto` and 60000 |
| Estimator.ConstantFalls | code/kcp/ikcp.cc:550-565 | A constant round trip from any running estimate: with each sample `rx_srtt` comes at least one nearer, on the same side, until it stands at its shortfall (0 from above, up to 7 from below); from then on the variance comes at least one nearer to that |
| Estimator.ConstantSettles | code/kcp/ikcp.cc:563-564 | From no estimate and from any that is not below the round trip, the estimate reaches the exact round trip with variance 0 and the timeout for it, and keeps them |
| Estimator.SettlesExactly | code/kcp/ikcp.cc:550-565 | A constant round trip ever brings the estimate there if and only if no sample has been taken or `rx_srtt` is not below the round trip |
| Estimator.ConstantRests | code/kcp/ikcp.cc:550-560 | In every case `rx_srtt` comes to rest exactly `min(7, rtt - rx_srtt)` short, or exactly there, and the variance at most 3 below that shortfall |
| Estimator.ConstantTimeout | code/kcp/ikcp.cc:563-564 | After any number of constant samples `rx_rto` is the bounded exact sum |
| Estimator.ConstantFromBelow | code/kcp/ikcp.cc:550-565 | After one sample of 93 and any number of samples of 100: `rx_srtt` is 93, `rx_rttval` at least 7 and `rx_rto` at least 121 instead of 110 |
| Schedule.FlushRate | code/kcp/ikcp.cc:1156-1180 | Over any run of updates with a non-decreasing clock, flush number k+1 comes at least k intervals after the first update, and then the timer is between now and one interval ahead |
| Schedule.FlushSpacing | code/kcp/ikcp.cc:1156-1180 | Over any run from any timer: when `m` flushes follow a flush, the last of them comes more than `m - 1` intervals after it |
| Schedule.UpdateAdvances | code/kcp/ikcp.cc:1167-1179 | One update: it flushes exactly when its time has come, and the next one is due one interval after that time, or one interval from now if that has passed, late catch-up and reset included |
| Schedule.NextFlushGap | code/kcp/ikcp.cc:1167-1179 | After a flush no update flushes within an interval, if and only if that flush was exactly on time or at least an interval late |
| Schedule.FlushesCanBeClose | code/kcp/ikcp.cc:1173-1177 | The spacing bound cannot be one interval better: a run in which two consecutive flushes are one millisecond apart |
| Schedule.NoFlushBeforeHint | code/kcp/ikcp.cc:1192-1228 | An update at any time before the hinted one never flushes, across clock wrap |
| Schedule.HintBounds | code/kcp/ikcp.cc:1192-1228 | The hint is now if and only if a flush or a retransmission is due; otherwise it is exactly the first of the next flush, every retransmission, and one interval |
| Runs.OnlyUpdateMovesTimer | code/kcp/ikcp.cc:1156-1180 | No other operation touches the flush timer, and only option changes touch the settings |
| Control.ProbingBacksOff | code/kcp/ikcp.cc:980-1000 | Zero-window probing: the wait stays between 7 and 120 seconds and never shrinks while the window is closed, and a probe is only asked for when its time has come |
| Kcps.Kcp.constructor | code/kcp/ikcp.cc:234-295 | A new block is valid and has the initial state |
| Kcps.Kcp.Send | code/kcp/ikcp.cc:469-544 | Refuses a negative length; otherwise result and queue are those of the send function, and only the queue and its counter change |
| Kcps.Kcp.TopUp | code/kcp/ikcp.cc:478-503 | Stream mode replaces the last queued fragment by one extended to at most `mss` bytes |
| Kcps.Kcp.Enqueue | code/kcp/ikcp.cc:520-541 | The cutting loop appends exactly the split of the buffer |
| Kcps.Kcp.Recv | code/kcp/ikcp.cc:358-435 | Result, bytes and state are those of the receive function for every length; a negative one only peeks |
| Kcps.Kcp.Merge | code/kcp/ikcp.cc:383-409 | The merge loop returns the payloads up to the first fragment numbered 0 and unlinks them unless peeking |
| Kcps.Kcp.MoveUp | code/kcp/ikcp.cc:413-425 | The move loop computes the drain, counters included |
| Kcps.Kcp.PeekSize | code/kcp/ikcp.cc:441-463 | The size loop computes the total payload of the front message, or -1 |
| Kcps.Kcp.UpdateAck | code/kcp/ikcp.cc:550-565 | Equals the sample function, proved exact and bounded above |
| Kcps.Kcp.ShrinkBuf | code/kcp/ikcp.cc:567-576 | `snd_una` becomes the head number or `snd_nxt` |
| Kcps.Kcp.ParseAck | code/kcp/ikcp.cc:578-598 | The scan with its early exit removes exactly what removing the number without early exit removes |
| Kcps.Kcp.ParseUna | code/kcp/ikcp.cc:600-614 | The loop drops the prefix before `una` |
| Kcps.Kcp.ParseFastack | code/kcp/ikcp.cc:616-638 | The scan with its early exit counts every earlier segment sent no later than the acknowledged copy; `Inputs.InputCounts` says which these are |
| Kcps.Kcp.AckPush | code/kcp/ikcp.cc:644-678 | The pair is appended to the list, across doubling of the array |
| Kcps.Kcp.FindPlace | code/kcp/ikcp.cc:702-712 | The search from the tail stops at the sorted place and knows whether the number is there |
| Kcps.Kcp.ParseData | code/kcp/ikcp.cc:690-750 | Equals search, insertion and drain, with sorted order and maximality proved above |
| Kcps.Kcp.Handle | code/kcp/ikcp.cc:797-875 | One frame of a datagram has exactly its effect, and the invariant holds again |
| Kcps.Kcp.GrowWindow | code/kcp/ikcp.cc:884-906 | Equals the growth function in wrapping arithmetic, which `Inputs.GrowthByFields` states in fields |
| Kcps.Kcp.Input | code/kcp/ikcp.cc:756-909 | For arbitrary bytes: return code, all effects of the frames before a malformed one, and the conclusion only on success |
| Kcps.Kcp.EncodeSeg | code/kcp/ikcp.cc:915-926 | The header is written at the cursor and nothing before it changes |
| Kcps.Kcp.CopyData | code/kcp/ikcp.cc:1109-1112 | The payload is written behind its header |
| Kcps.Kcp.Emit | code/kcp/ikcp.cc:1099-1112 | A frame joins the buffer, which is first handed on and emptied if it would pass the MTU |
| Kcps.Kcp.Output | code/kcp/ikcp.cc:204-213 | The first bytes of the buffer are handed on; an empty buffer is not |
| Kcps.Kcp.WndUnused | code/kcp/ikcp.cc:928-934 | The free room of the queue, which the header field holds without loss |
| Kcps.Kcp.FlushAcks | code/kcp/ikcp.cc:965-976 | All pending acknowledgements are packed in order, with the fields of `Flushing.FlushOrder` |
| Kcps.Kcp.UpdateProbe | code/kcp/ikcp.cc:980-1000 | Equals the probing function, whose 7 to 120 second backoff is `Flushing.FlushProbing` |
| Kcps.Kcp.FlushProbes | code/kcp/ikcp.cc:1002-1024 | The probe frames repeat the last acknowledgement's number and time, with the fields of `Flushing.FlushOrder` |
| Kcps.Kcp.FillWindow | code/kcp/ikcp.cc:1030-1052 | The loop numbers queued fragments until the window is full |
| Kcps.Kcp.Decide | code/kcp/ikcp.cc:1062-1097 | The branches equal the four reasons for sending and the state each leaves, of which `Flushing.FlushDecides` and `Flushing.FlushOutcome` say in fields what they are |
| Kcps.Kcp.FlushData | code/kcp/ikcp.cc:1058-1118 | The loop sends exactly the segments that are due, in order, and counts timeouts and fast retransmissions; which are due is `Flushing.FlushDecides` |
| Kcps.Kcp.AdjustWindow | code/kcp/ikcp.cc:1126-1147 | Equals the adjustment function, whose reaction to loss is `Flushing.FlushWindowLaw` |
| Kcps.Kcp.Flush | code/kcp/ikcp.cc:940-1148 | State and emitted datagrams are those of the flush function; before the first update nothing happens |
| Kcps.Kcp.AdvanceClock | code/kcp/ikcp.cc:1160-1178 | Equals the tick function, on which the rate and hint laws rest |
| Kcps.Kcp.Update | code/kcp/ikcp.cc:1156-1180 | Sets the clock and flushes exactly when the tick function says so, with its datagrams |
| Kcps.Kcp.Check | code/kcp/ikcp.cc:1192-1228 | The loop over the buffer computes the hint |
| Kcps.Kcp.SetMtu | code/kcp/ikcp.cc:1232-1245 | Refuses less than 50; otherwise sizes and buffer are replaced, the buffer length in 32 bits; the block stays valid exactly when what it holds fits, unless that length wraps |
| Kcps.Kcp.WndSize | code/kcp/ikcp.cc:1281-1292 | The receive window is never set below 128; other arguments than positive ones change nothing; the block stays valid exactly when what has been received fits |
| Kcps.Kcp.Interval | code/kcp/ikcp.cc:1247-1253 | The interval is clamped to 10..5000; this is the option call with that argument alone, so an operation of a run |
| Kcps.Kcp.NoDelay | code/kcp/ikcp.cc:1255-1278 | The settings after the call, of which two lemmas above say what each argument sets and that the last one wins; validity is kept |
| Kcps.Kcp.WaitSnd | code/kcp/ikcp.cc:1294-1297 | Everything queued or unacknowledged |
| Control.SetMtuOk | code/kcp/ikcp.cc:1232-1245 | A new MTU keeps the invariant if and only if every queued and outstanding payload fits it |
| Control.WndSizeOk | code/kcp/ikcp.cc:1281-1292 | New windows keep the invariant if and only if the receive window fits what has been received and lets nothing more move |
| Kcps.Kcp.SendData | code/kcp/ikcp.cc:478-543 | Queue and result equal the send function, whose conservation and refusal laws are proved above |
| Kcps.Kcp.ReadMessage | code/kcp/ikcp.cc:380-434 | Merging, moving up and the reopening notice together |
| Kcps.Kcp.Read | code/kcp/ikcp.cc:367-434 | The error codes in the order of the tests, and the state after a read |
| Kcps.Kcp.TakeEdges | code/kcp/ikcp.cc:797-799 | The peer's window, then the cumulative acknowledgement and the new `snd_una` |
| Kcps.Kcp.TakeAckFrame | code/kcp/ikcp.cc:801-806 | Estimate only for a time that is not in the future; then the selective acknowledgement |
| Kcps.Kcp.TakePushFrame | code/kcp/ikcp.cc:836-854 | The acknowledgement is queued for every number below the window's end, the data only inside the window |
| Kcps.Kcp.Dispatch | code/kcp/ikcp.cc:797-875 | One frame: each field changes by the function of its command and no other |
| Kcps.Kcp.Settle | code/kcp/ikcp.cc:880-906 | Fast acknowledgement with the newest number, and growth only when `snd_una` has moved |
| Kcps.Kcp.Finish | code/kcp/ikcp.cc:880-906 | The same on the whole block, with the invariant kept |
| Kcps.Kcp.Encode8u | code/kcp/ikcp.cc:54-58 | One byte at the cursor; everything before it stays |
| Kcps.Kcp.Encode16u | code/kcp/ikcp.cc:68-78 | Two bytes, low byte first; everything before them stays |
| Kcps.Kcp.Encode32u | code/kcp/ikcp.cc:94-106 | Four bytes, low byte first; everything before them stays |
| Kcps.Kcp.FlushOne | code/kcp/ikcp.cc:1060-1117 | One segment: sent or not, its new state, and the counts of timeouts and dead links |
| Kcps.Kcp.SendControl | code/kcp/ikcp.cc:965-1024 | Acknowledgements, then probes, packed in order; both lists are cleared |
| Kcps.Kcp.SendSegments | code/kcp/ikcp.cc:1026-1124 | The window is filled, everything due is packed in order, and the rest of the buffer handed on |
| Kcps.Kcp.FinishPacked | code/kcp/ikcp.cc:1120-1124 | What remains in the buffer is handed on once |
| Kcps.Kcp.FlushNow | code/kcp/ikcp.cc:953-1147 | The whole flush: output and every field |
| Rings.Walk | code/kcp/ikcp.h:151-183 | `next` and `prev` are inverse at every position, and only the sentinel closes the cycle |
| Checksums.AddWords | code/kcp/kcp_socket.cc:46-49 | The summing loop in 32 bits |
| Rings.Init | code/kcp/ikcp.h:151-152 | The node alone is the empty ring |
| Rings.Add | code/kcp/ikcp.h:165-167 | Inserts behind the sentinel; only the node and its two neighbours change |
| Rings.AddAt | code/kcp/ikcp.h:165-167 | Inserts behind any node of the ring |
| Rings.AddTail | code/kcp/ikcp.h:169-171 | Appends |
| Rings.Del | code/kcp/ikcp.h:175-178 | Removes the first node and clears its links |
| Rings.DelAt | code/kcp/ikcp.h:175-178 | Removes any node |
| Rings.DelInit | code/kcp/ikcp.h:180-181 | Removes any node and makes it an empty ring of its own |
| Rings.IsEmpty | code/kcp/ikcp.h:183 | True if and only if the sequence is empty |
| Rings.Rotate | code/kcp/ikcp.h:151-183 | A ring is a ring around each of its nodes, with the rotated sequence |
| Rings.OneSequence | code/kcp/ikcp.h:151-183 | The sequence that a ring stands for is unique |
| Rings.Forward | code/kcp/ikcp.h:193-196 | Following `next` from the sentinel visits the values in order |
| Rings.Backward | code/kcp/ikcp.cc:702-712 | Following `prev` visits them in reverse |
| Rings.MoveFirst | code/kcp/ikcp.cc:417-419 | The first node of one ring moves to the tail of another; both stay rings |
| Rings.DropBefore | code/kcp/ikcp.cc:600-614 | The `una` scan on pointers is the function on sequences |
| Rings.RemoveNumber | code/kcp/ikcp.cc:578-598 | The scan for an acknowledged number on pointers, with its early exit, is the function on sequences |
| Rings.InsertNumber | code/kcp/ikcp.cc:702-720 | The search from the tail on pointers, and the insertion, is the function on sequences |
| Checksums.Fold | code/kcp/kcp_socket.cc:56-61 | The folding loop ends and returns the complement of the one representative modulo 65535 that is 0 only for 0 |
| Checksums.FoldStep | code/kcp/kcp_socket.cc:56-59 | One fold strictly decreases the sum and keeps its value modulo 65535 |
| Checksums.IpChecksum | code/kcp/kcp_socket.cc:41-62 | The Internet checksum of the header |
| Checksums.TcpChecksum | code/kcp/kcp_socket.cc:65-114 | For every header and payload the complement of the folded total in 32 bits: both addresses, the protocol, the 16-bit length of the segment, the header and the padded payload; where the total fits, the Internet checksum of one concatenation |
| Checksums.PseudoSum | code/kcp/kcp_socket.cc:67-82 | The words of the pseudo-header add up to both addresses, 6, and the length in network order |
| Checksums.PaddedSum | code/kcp/kcp_socket.cc:91-106 | In the sum of a payload bytes at even positions count 256 times and those at odd positions once; padding adds nothing |
| Checksums.CoveredSum | code/kcp/kcp_socket.cc:76-106 | Separate sums of pseudo-header, header and padded payload are the sum of the concatenation; it fits 32 bits for every payload that an IPv4 packet can carry |
| Checksums.SumConcat | code/kcp/kcp_socket.cc:76-106 | Sums of even parts add up |
| Checksums.AcceptsOnlyChecksum | code/kcp/kcp_socket.cc:41-62 | With a zeroed check field, a stored value verifies if and only if it is the checksum, or the other zero of one's complement |
| Checksums.IpHeaderVerifies | code/kcp/kcp_socket.cc:41-62 | Stored in network order, the checksum makes the header sum fold to 0xFFFF |
| Checksums.TcpSegmentVerifies | code/kcp/kcp_socket.cc:65-114 | The same for a TCP segment: with the complement of the folded total in its check field, the total of addresses, protocol, length, header and payload folds to 0xFFFF |
| Checksums.HostOrderVerifies | code/kcp/kcp_client.cc:59 | Stored in little-endian host order, as the client stores it in its IPv4 header, it verifies if and only if the sum of the header is a multiple of 257 |
| Checksums.ClientHeaderVerifies | code/kcp/kcp_client.cc:26-59 | For the header that the client builds, in terms of its length, identification and addresses: it verifies exactly for one remainder modulo 257 |
| Checksums.ClientHeaderFails | code/kcp/kcp_client.cc:163-197 | The first header of a client on the loopback address, that of its empty SYN segment with identification 1232, does not verify |

## Left out

- Allocation failure, allocator hooks, release, logging and the `user` pointer.
- Null data and null receive buffers: the model always copies.
- Big-endian preprocessor variants: the wire is modelled as little-endian bytes.
- C `int` overflow of lengths (`-INT_MIN` in `ikcp_recv`, messages of 2^31 bytes): lengths are bounded by the parameter type.
- `ikcp_getconv`, which reads one header word.
- Switching stream mode during a connection: the mode is a setting of the fresh block.
- Control.StepOk: covers the operations used once traffic has started; `ikcp_setmtu` and `ikcp_wndsize` are not among the operations of a run, and `Control.SetMtuOk` and `Control.WndSizeOk` say when they may be called.
- Connection.OrderedDelivery: assumes the two age limits described above.
- Completion.EverythingArrives: shows that a continuation exists, with suitable deliveries and clock values; liveness under a fairness assumption and a steady clock is not stated.
- Congestion.GrowthExact: is about arbitrary balanced windows; `Overflow.SegmentSizeExact` is about those that runs reach.
- Segments in the class are values in sequences, not heap nodes; `Ring.dfy` proves the pointer operations and scans equal to the sequence functions, but the class does not hold rings. The fields of settings, estimator, window, probe and timer are grouped in records.
- `ts_recent`, `ts_lastack` and `logmask`, which the protocol never reads.
- Accounting.AccountingOverRuns: counts exactly for fewer than 2^32 operations, the range of the 32-bit `xmit`.
- Accounting.FastLimited: assumes fewer than 2^31 operations, because `xmit` is compared as a signed number.
- Checksums.IpChecksum: the branch for an odd length is dead, because the length is a multiple of 4.
- Sockets, threads, select and epoll loops, the empty rewrite in `code/kcp.cc`, the encoders in `code/model.cc`, and the test drivers.
