# Layered broadcast stack, modelled in Dafny

This project models the core of a Java layered broadcast stack. Each process runs the same four layers:

- a **perfect-link layer**: one link per process, itself included, with retransmission until acknowledged;
- **uniform reliable broadcast (URB)**: flooding relay plus majority acknowledgment counting;
- **FIFO broadcast**: per-sender watermarks over the URB-delivered messages;
- **localized causal broadcast (LCB)**: vector-clock gated delivery and a window-bounded broadcast loop.

All layers exchange one `Message` value with a fixed-layout big-endian wire encoding.

In the model, sockets, threads and timers are gone. Each receipt of a datagram, and each tick of a periodic poller, is one pure step function over an immutable state record:

| Dafny module (file) | models |
|---|---|
| `JavaInts` (`java_ints.dfy`) | Java `byte` and `int` as subset types of `int`; `(byte)` casts, 32-bit wrap-around and `++`; the unsigned reading of octets |
| `Outcomes` (`outcomes.dfy`) | `Result` and `Option`; the exceptions the source can raise become `Err` values |
| `Decimal` (`decimal.dfy`) | Java's decimal rendering of an `int` in string concatenation, and its parser |
| `Messages` (`message.dfy`) | `Message`: identity and hash, field rewrites, `getMessageInfo`, `toLogString`, `serializeMessage` and `deserializeMessage` |
| `PerfectLinks` (`perfect_link.dfy`) | `PerfectLink`: the pending (unacknowledged) and delivered sets, `sendDataMessage`, `deliverMessage`, and the ACK that `sendAckMessage` builds |
| `LinkHosts` (`link_host.dfy`) | `LinkHost`: the ack-count table, the DATA and ACK branches of the reception loop, `broadcastRelayMessage`, and the link lookups by id and by port |
| `UrbHosts` (`urb_host.dfy`) | `UrbHost`: the majority threshold, the URB delivery tick, `sendMessage` and `doSelfUrbAck` |
| `FifoHosts` (`fifo_host.dfy`) | `FifoHost`: the watermark setup and the FIFO delivery tick |
| `LcbHosts` (`lcb_host.dfy`) | `LcbHost`: `compareVectorClocks`, the LCB delivery tick, and `beginBroadcasting` as a guarded step |

Modelling choices:

- **Maps keyed by `Message`.** Every Java map keyed by `Message` becomes a Dafny map keyed by the clock-blind identity `MsgKey`. That identity is `(value, type, original sender, source sender)`. A Java `put` on a key already present keeps the first key object, so the model never replaces a stored key.
- **Ack counts.** The ack-count table counts under the *normalised* key, i.e. the source sender cleared to `NO_SOURCE = 0`.
- **Process ids.** Ids are `1..N` with `N <= 127`, because ids travel as signed bytes. Every process has a link to itself (`Main.java:122-124`).
- **Iteration order.** A `HashMap` with small `Integer` keys is iterated in ascending id order. The LCB tick's iteration over the URB-delivered messages is an explicit parameter.
- **Wire bytes and integer widths.** Wire octets are integers in `0..255`. Java `byte` and `int` widths, casts and wrap-around are spelled out wherever the source performs them.

Where the design text and the code disagree, the model follows the code:

- **Relay rule.** The code skips only the link to the relaying process itself (the relay copy's source sender). It does not skip the link back to the original sender.
- **Sequence-number decoding.** The decoder keeps only the low 24 bits of the sequence number (`Message.java:173-178`). The round trip is exact only below `2^24`.
- **Self-acknowledgment key.** The code stores the self-acknowledgment under the un-normalised message (Findings, row 2).
- **Stale-entry cleanup.** The cleanup of ack entries for already-delivered messages never runs (Findings, row 1).

## Model

All source paths are under `template_java/src/main/java/cs451/`.

| member | source | states |
|---|---|---|
| JavaInts.ToInt8 | template_java/src/main/java/cs451/implementation/Message.java:229-231 | `(byte) x` agrees with `x` modulo 256 and is `x` itself for ids in byte range |
| JavaInts.Inc32 | template_java/src/main/java/cs451/implementation/LcbHost.java:75 | `x++` on an `int` adds one below `Integer.MAX_VALUE` and wraps to `Integer.MIN_VALUE` there |
| JavaInts.Int8RoundTrip | template_java/src/main/java/cs451/implementation/Message.java:87-89 | a byte field written as an octet and read back as a `byte` is unchanged |
| Decimal.IntToStringRoundTrip | template_java/src/main/java/cs451/implementation/Message.java:293-295 | every `int` rendered by string concatenation is a well-formed numeral that parses back to the same value |
| Messages.HashRespectsEquals | template_java/src/main/java/cs451/implementation/Message.java:265-279 | equal messages have equal `hashCode`, and two equal messages differ at most in their clocks |
| Messages.EqualityIgnoresClock | template_java/src/main/java/cs451/implementation/Message.java:265-274 | replacing the clock leaves a message equal to the original, as an object too |
| Messages.ChangeSource | template_java/src/main/java/cs451/implementation/Message.java:229-231 | only the source sender changes, and it becomes `id` for every process id in byte range; the result equals the original exactly when the source sender was already `(byte) id` |
| Messages.NormaliseForgetsRelay | template_java/src/main/java/cs451/implementation/LinkHost.java:85-94 | copies relayed by different processes have the same ack-count key, and normalising twice is normalising once |
| Messages.ChangeToData | template_java/src/main/java/cs451/implementation/Message.java:233-236 | an ACK becomes DATA, any other type is left alone, and no other field changes |
| Messages.ChangeToDataUndoesAck | template_java/src/main/java/cs451/implementation/Message.java:233-236 | flipping a DATA message to ACK and back gives the DATA message, and the flip is idempotent |
| Messages.InfoIgnoresRelay | template_java/src/main/java/cs451/implementation/Message.java:248-251 | `getMessageInfo` is unchanged by relaying, by normalising and by the ACK-to-DATA flip |
| Messages.LogStringNamesInfo | template_java/src/main/java/cs451/implementation/Message.java:293-295 | the delivery line `d <orig> <value>` parses back to exactly `getMessageInfo()` |
| Messages.LogStringInjective | template_java/src/main/java/cs451/implementation/Message.java:293-295 | two messages have the same delivery line if and only if they have the same `getMessageInfo()` |
| Messages.Encode | template_java/src/main/java/cs451/implementation/Message.java:76-95 | the datagram is `4 * |clock| + 7` octets long, the value `getMessageSize(|clock|)` gives |
| Messages.EncodeLayout | template_java/src/main/java/cs451/implementation/Message.java:79-93 | clock word `i` lies big-endian at octets `4i..4i+3`, then come the type, the original sender, the source sender and the value big-endian |
| Messages.SeqFieldAsWritten | template_java/src/main/java/cs451/implementation/Message.java:173-178 | because of operator precedence, the decoded value is the low three octets read unsigned, and the top octet is lost |
| Messages.Decode | template_java/src/main/java/cs451/implementation/Message.java:154-180 | fails exactly when the buffer is shorter than `4N + 7`, where the source would index past its end (the reception loop always passes a full buffer, see `LinkHosts.ReceiveBuffer`); otherwise reads `N` clock words, the three byte fields, and a value in `0 .. 2^24 - 1` |
| Messages.ClockWordRoundTrip | template_java/src/main/java/cs451/implementation/Message.java:157-165 | every clock word, negative ones included, is decoded exactly as it was encoded |
| Messages.SeqFieldRoundTrip | template_java/src/main/java/cs451/implementation/Message.java:173-178 | the decoded value of an encoded message is its unsigned 32-bit pattern modulo `2^24` |
| Messages.DecodeEncode | template_java/src/main/java/cs451/implementation/Message.java:154-180 | decoding an encoded message gives the message back, except that the value is reduced modulo `2^24` |
| Messages.RoundTripExactIff | template_java/src/main/java/cs451/implementation/Message.java:173-178 | decoding an encoded message gives it back exactly if and only if `0 <= value < 2^24` |
| Messages.EncodeDecode | template_java/src/main/java/cs451/implementation/Message.java:154-180 | re-encoding a decoded datagram gives back its first `4N + 7` octets, except that the top octet of the value is zero |
| PerfectLinks.Insert | template_java/src/main/java/cs451/implementation/PerfectLink.java:93 | a `put` adds the identity, keeps every stored entry including one with the same identity, and keeps every entry under its own identity |
| PerfectLinks.NewLink | template_java/src/main/java/cs451/implementation/PerfectLink.java:32-38 | a new link has nothing pending and nothing delivered |
| PerfectLinks.SendData | template_java/src/main/java/cs451/implementation/PerfectLink.java:72-95 | the message's identity becomes pending; a message already pending under that identity is kept; nothing else changes |
| PerfectLinks.SendDataIdempotent | template_java/src/main/java/cs451/implementation/PerfectLink.java:74-95 | sending an equal message again, whatever its clock, is a no-op |
| PerfectLinks.PendingKeepsFirstClock | template_java/src/main/java/cs451/implementation/PerfectLink.java:74-93 | a later send with the same identity and another clock does not replace the pending entry's clock |
| PerfectLinks.Deliver | template_java/src/main/java/cs451/implementation/PerfectLink.java:134-138 | the message's identity is added to the delivered set, and nothing is removed from it |
| PerfectLinks.AckFor | template_java/src/main/java/cs451/implementation/PerfectLink.java:107-113 | the ACK has type ACK, the given value, original sender and clock, and the link's destination as source sender |
| PerfectLinks.AckFlipsToAcknowledgedData | template_java/src/main/java/cs451/implementation/PerfectLink.java:111-113 | the ACK for a DATA message from `s`, sent on the link to `s`, flips back to exactly that message |
| PerfectLinks.AckIsNotData | template_java/src/main/java/cs451/implementation/PerfectLink.java:111-113 | without the flip, an ACK never equals the DATA message it acknowledges |
| LinkHosts.PutCount | template_java/src/main/java/cs451/implementation/LinkHost.java:94 | `urbAckCount.put` sets one count, keeps the first key object stored, and leaves every other entry alone |
| LinkHosts.BumpAck | template_java/src/main/java/cs451/implementation/LinkHost.java:85-94 | the count of the normalised key rises by exactly one; no other entry changes |
| LinkHosts.BumpAckSharesEntry | template_java/src/main/java/cs451/implementation/LinkHost.java:85-94 | copies of one broadcast relayed by two processes raise one shared count by two |
| LinkHosts.LinkFromId | template_java/src/main/java/cs451/implementation/LinkHost.java:183-185 | a link exists exactly for ids `1..N`, and it is the link to that id |
| LinkHosts.PortScan | template_java/src/main/java/cs451/implementation/LinkHost.java:192-201 | the scan returns the first id in ascending order whose link listens on the port, or none when no link does |
| LinkHosts.LinkFromPort | template_java/src/main/java/cs451/implementation/LinkHost.java:192-201 | the lookup finds the lowest-id link on the port, and fails if and only if no link listens on it |
| LinkHosts.Relay | template_java/src/main/java/cs451/implementation/LinkHost.java:131-169 | the copy is the incoming message stamped with this process as source sender. Every eligible link to another process gets it pending, keeping its earlier pending entries and its delivered set. No ineligible link changes. The self link never sends; it keeps its pending set and everything it delivered, and if eligible it delivers the copy. No link's port changes. The normalised count rises by one exactly when the self link delivers the copy for the first time, and no other count changes |
| LinkHosts.RelayIdempotent | template_java/src/main/java/cs451/implementation/LinkHost.java:142-166 | relaying the same message twice is relaying it once |
| LinkHosts.Accept | template_java/src/main/java/cs451/implementation/LinkHost.java:82-95 | the first receipt keeps the link host well formed, with the same links |
| LinkHosts.AcceptCountsOnce | template_java/src/main/java/cs451/implementation/LinkHost.java:81-95 | the first receipt adds the message to its sender's link alone and raises its normalised count by exactly one |
| LinkHosts.OnData | template_java/src/main/java/cs451/implementation/LinkHost.java:79-99 | the DATA branch fails exactly when no link exists for the source sender (the source's `NullPointerException`) |
| LinkHosts.OnDataAlwaysAcks | template_java/src/main/java/cs451/implementation/LinkHost.java:98 | new or duplicate, a DATA message is acknowledged to its immediate sender with an ACK that flips back to it |
| LinkHosts.OnDataDuplicateChangesNothing | template_java/src/main/java/cs451/implementation/LinkHost.java:82-83 | a duplicate changes no delivered set, pending set or count |
| LinkHosts.OnDataNewCounts | template_java/src/main/java/cs451/implementation/LinkHost.java:82-96 | a new message is delivered on its sender's link; its count rises by one, plus one when the self-relay delivers it for the first time |
| LinkHosts.OnDataIdempotent | template_java/src/main/java/cs451/implementation/LinkHost.java:81-98 | receiving the same DATA message twice leaves the state of receiving it once |
| LinkHosts.OnAck | template_java/src/main/java/cs451/implementation/LinkHost.java:100-117 | the ACK branch fails exactly when no link listens on the port (the source's `NoSuchElementException`); it never touches the ack counts |
| LinkHosts.OnAckRetiresOne | template_java/src/main/java/cs451/implementation/LinkHost.java:103-116 | an ACK removes exactly the flipped identity from the matched link's pending set, and nothing else changes |
| LinkHosts.AckCancelsSend | template_java/src/main/java/cs451/implementation/LinkHost.java:103-116 | sending a DATA message on a link, then receiving its ACK from that link's port, restores the link host |
| LinkHosts.ReceiveBuffer | template_java/src/main/java/cs451/implementation/LinkHost.java:69-73 | the decoder sees exactly `getMessageSize(N)` octets: the datagram's own octets first, then zeros from the fresh receive array; octets past the end are cut off |
| LinkHosts.Receive | template_java/src/main/java/cs451/implementation/LinkHost.java:69-118 | decoding the receive buffer never fails. A reception fails exactly when a DATA message names no link or an ACK arrives from an unknown port. A datagram of any other type is ignored. A success keeps the link host well formed and sends at most one acknowledgment |
| LinkHosts.ReceiveEncoded | template_java/src/main/java/cs451/implementation/LinkHost.java:69-118 | receiving the encoding of a message with `N` clock words and a value below `2^24` takes exactly the DATA branch or the ACK branch on that message, with the same outcome and acknowledgment, and ignores any other type |
| UrbHosts.Threshold | template_java/src/main/java/cs451/implementation/UrbHost.java:134 | `N / 2 + 1` is the least count that is more than half of `N` |
| UrbHosts.QuorumsIntersect | template_java/src/main/java/cs451/implementation/UrbHost.java:134 | any two sets of processes that reach the threshold share a process |
| UrbHosts.Sweep | template_java/src/main/java/cs451/implementation/UrbHost.java:137-150 | a sweep keeps the host valid, leaves the links alone, and keeps every delivered message under its stored key |
| UrbHosts.ContainsAsWrittenNeverHolds | template_java/src/main/java/cs451/implementation/UrbHost.java:138 | `contains` is `containsValue`, and a message is never equal to the stored `Boolean.TRUE` |
| UrbHosts.PollAsWritten | template_java/src/main/java/cs451/implementation/UrbHost.java:137-150 | as written, an ack entry stays if and only if its count is below the threshold, whether or not it is already delivered |
| UrbHosts.Poll | template_java/src/main/java/cs451/implementation/UrbHost.java:137-150 | a message is delivered after the tick if and only if it was before or its count reached the threshold; an entry stays if and only if it is undelivered and below the threshold, unchanged |
| UrbHosts.PollAsWrittenDeliversTheSame | template_java/src/main/java/cs451/implementation/UrbHost.java:137-150 | the as-written and corrected ticks deliver exactly the same messages |
| UrbHosts.PollAsWrittenKeepsStaleEntry | template_java/src/main/java/cs451/implementation/UrbHost.java:138-142 | as written, an entry for a delivered message below the threshold is never dropped; the corrected tick drops it |
| UrbHosts.PollMonotone | template_java/src/main/java/cs451/implementation/UrbHost.java:146 | a URB-delivered message stays delivered under the same stored key |
| UrbHosts.PollIdempotent | template_java/src/main/java/cs451/implementation/UrbHost.java:137-150 | a second tick with no new acknowledgments changes nothing |
| UrbHosts.SelfAckAsWritten | template_java/src/main/java/cs451/implementation/UrbHost.java:113-120 | as written, the normalised count plus one is stored under the message itself, and the self link delivers the message |
| UrbHosts.SelfAck | template_java/src/main/java/cs451/implementation/UrbHost.java:113-120 | the corrected self-acknowledgment raises the normalised count by one, changes no other entry, and delivers the message on the self link only |
| UrbHosts.SelfVoteLostAsWritten | template_java/src/main/java/cs451/implementation/UrbHost.java:115-117 | after a relayed copy from one other process, the shared entry holds one vote as written and two when corrected; the threshold for `N = 3` is two |
| UrbHosts.SendMessage | template_java/src/main/java/cs451/implementation/UrbHost.java:100-121 | as written: the message goes pending on every link except the self link, and the self link delivers it. The own vote, the normalised count plus one, is stored under the message itself. No other entry changes, so for a broadcast (source sender never `NO_SOURCE`) the normalised count does not rise |
| UrbHosts.SendMessageCorrected | template_java/src/main/java/cs451/implementation/UrbHost.java:100-121 | with the corrected self-acknowledgment, the same links change, and the normalised count rises by exactly one with no other entry changing |
| UrbHosts.SendMessageVoteMisplaced | template_java/src/main/java/cs451/implementation/UrbHost.java:115-117 | for a broadcast, both sends leave the links the same, and as written the shared normalised entry holds one vote fewer than with the correction |
| UrbHosts.SendMessagePendingIdempotent | template_java/src/main/java/cs451/implementation/UrbHost.java:100-110 | sending the same message again makes nothing new pending |
| UrbHosts.SelfVoteCountedOnce | template_java/src/main/java/cs451/implementation/LinkHost.java:145-165 | once this process has sent its own message, a copy relayed back by any process is not counted again on the self link |
| FifoHosts.Setup | template_java/src/main/java/cs451/implementation/FifoHost.java:43-49 | there is a watermark of 0 for every link's destination and for this process, and for no other id |
| FifoHosts.Advance | template_java/src/main/java/cs451/implementation/FifoHost.java:66-79 | the watermark never moves down; every sequence number it passes is present; the next one is absent |
| FifoHosts.AdvanceUnique | template_java/src/main/java/cs451/implementation/FifoHost.java:66-79 | the stopping point is the only watermark with a gap-free run below it and a gap right after it |
| FifoHosts.GapBlocks | template_java/src/main/java/cs451/implementation/FifoHost.java:75-78 | a missing sequence number blocks every higher one from that sender |
| FifoHosts.AdvanceIdempotent | template_java/src/main/java/cs451/implementation/FifoHost.java:66-79 | advancing from where the loop stopped does not move the watermark |
| FifoHosts.AdvanceMonotone | template_java/src/main/java/cs451/implementation/FifoHost.java:64-79 | more URB deliveries never lower the watermark a tick reaches |
| FifoHosts.PollWith | template_java/src/main/java/cs451/implementation/FifoHost.java:62-80 | the tick advances every watermark independently and only appends to the log; with nothing URB-delivered no watermark moves |
| FifoHosts.LinesEntries | template_java/src/main/java/cs451/implementation/FifoHost.java:66-73 | every logged pair is present and lies above its sender's old watermark and at most at its new one |
| FifoHosts.LinesConsecutive | template_java/src/main/java/cs451/implementation/FifoHost.java:66-73 | within one sender, logged sequence numbers are consecutive and increasing |
| FifoHosts.LinesCover | template_java/src/main/java/cs451/implementation/FifoHost.java:66-73 | every sequence number a watermark passes is logged |
| FifoHosts.PollIdempotent | template_java/src/main/java/cs451/implementation/FifoHost.java:64-79 | a second tick over unchanged URB deliveries logs nothing and moves no watermark |
| FifoHosts.PollMonotone | template_java/src/main/java/cs451/implementation/FifoHost.java:66-79 | watermarks never decrease |
| FifoHosts.LookupAsWritten | template_java/src/main/java/cs451/implementation/FifoHost.java:67-68 | the as-written `containsKey(new Pair(s, q))` on a map keyed by messages finds nothing |
| FifoHosts.PollAsWritten | template_java/src/main/java/cs451/implementation/FifoHost.java:62-80 | the as-written tick keeps the watermark keys and only appends to the log |
| FifoHosts.PollAsWrittenNeverDelivers | template_java/src/main/java/cs451/implementation/FifoHost.java:67-68 | as written, no watermark moves and nothing is logged, whatever the URB layer has delivered |
| FifoHosts.Poll | template_java/src/main/java/cs451/implementation/FifoHost.java:62-80 | with the intended lookup, each watermark advances over the URB-delivered `(sender, seq)` pairs |
| FifoHosts.PollDeliversUrbDelivered | template_java/src/main/java/cs451/implementation/FifoHost.java:64-79 | every logged pair is URB-delivered and lies between the old and new watermark; lines are consecutive per sender; every passed number is logged |
| LcbHosts.Setup | template_java/src/main/java/cs451/implementation/LcbHost.java:35-52 | both clocks start as `N` zeros, nothing is delivered or logged, and both counters start at 0 |
| LcbHosts.Ready | template_java/src/main/java/cs451/implementation/LcbHost.java:176-184 | the test is true if and only if every component of the message clock is at most the receive clock's; it throws exactly when the message clock is longer and no earlier component decided |
| LcbHosts.CompareVectorClocks | template_java/src/main/java/cs451/implementation/LcbHost.java:176-184 | the loop computes the component-wise dominance test, with the same index error |
| LcbHosts.DeliverOne | template_java/src/main/java/cs451/implementation/LcbHost.java:69-84 | a message is newly delivered if and only if its identity is new and its clock is dominated; at most that identity is added; the tick aborts exactly on the two index errors |
| LcbHosts.DeliverOneEffects | template_java/src/main/java/cs451/implementation/LcbHost.java:69-83 | a ready delivery logs one `d` line and ticks `recv[orig-1]` alone. It ticks `send[orig-1]` if and only if `orig` is a dependency, and `lastDelivered` if and only if `orig` is this process |
| LcbHosts.DeliverOneSkips | template_java/src/main/java/cs451/implementation/LcbHost.java:69 | a message already delivered, or not yet ready, changes nothing |
| LcbHosts.OwnDeliveryCountsForWindow | template_java/src/main/java/cs451/Main.java:109 | with the dependencies excluding this process, an own delivery ticks `lastDelivered` and leaves the send clock alone |
| LcbHosts.Poll | template_java/src/main/java/cs451/implementation/LcbHost.java:65-112 | the tick only adds to the delivered set, and every pair it adds names a message it visited |
| LcbHosts.PollDeliversOnlyUrbDelivered | template_java/src/main/java/cs451/implementation/LcbHost.java:68-70 | every pair a tick over the URB-delivered messages adds is URB-delivered |
| LcbHosts.DeliverOneKeepsLog | template_java/src/main/java/cs451/implementation/LcbHost.java:69-73 | one message keeps the `d` lines equal to the delivered pairs, each once, and only appends to the log |
| LcbHosts.PollDeliversAtMostOnce | template_java/src/main/java/cs451/implementation/LcbHost.java:68-73 | each `(orig, seq)` gets at most one `d` line however many copies the URB layer holds, and the log only grows |
| LcbHosts.PollClockMonotone | template_java/src/main/java/cs451/implementation/LcbHost.java:75 | with headroom below `Integer.MAX_VALUE`, each receive-clock component rises by between 0 and the number of messages visited |
| LcbHosts.PollRaisesLastDelivered | template_java/src/main/java/cs451/implementation/LcbHost.java:81-83 | with headroom, the own-delivery counter rises by between 0 and the number of messages visited |
| LcbHosts.PollKeepsCounters | template_java/src/main/java/cs451/implementation/LcbHost.java:65-108 | a delivery tick never changes `lastSentId` |
| LcbHosts.InitSend | template_java/src/main/java/cs451/implementation/LcbHost.java:137 | the burst size is at most the total and at most 100, and equals one of them |
| LcbHosts.Stamp | template_java/src/main/java/cs451/implementation/LcbHost.java:139-142 | broadcast `i` is a DATA message from this process, carrying the send clock |
| LcbHosts.BroadcastStep | template_java/src/main/java/cs451/implementation/LcbHost.java:135-173 | one iteration keeps the state valid and the total fixed |
| LcbHosts.BroadcastStepSends | template_java/src/main/java/cs451/implementation/LcbHost.java:138-170 | a send carries the next sequence number and the send clock before this process's own tick; it logs `b i`; a step without a send moves neither counter nor log |
| LcbHosts.RunSendsInOrder | template_java/src/main/java/cs451/implementation/LcbHost.java:136-172 | over any number of iterations, the messages sent carry consecutive sequence numbers from where the loop started, one per counter advance |
| LcbHosts.RunStaysWithinTotal | template_java/src/main/java/cs451/implementation/LcbHost.java:137-152 | no message the loop sends is numbered above `messagesToSendNum`, and a counter starting at most one past it stays there; with `i` starting at 1, the broadcasts of any run are therefore a prefix of `1 .. total`, in order |
| LcbHosts.BurstAdvances | template_java/src/main/java/cs451/implementation/LcbHost.java:136-149 | while `i <= min(total, WINDOW_SIZE)` every iteration of the first loop sends: `n` of them advance `i` by `n`, send `n` messages and stay in the first loop |
| LcbHosts.BurstSendsAll | template_java/src/main/java/cs451/implementation/LcbHost.java:136-149 | the first loop is complete: from `i = 1` its `min(total, WINDOW_SIZE)` iterations broadcast exactly `1, 2, …` up to that bound, in order, and leave `i` one past it (none when `total` is negative) |
| LcbHosts.StartWindow | template_java/src/main/java/cs451/implementation/LcbHost.java:136-151 | the window bound holds before the loop starts |
| LcbHosts.BroadcastStepKeepsWindow | template_java/src/main/java/cs451/implementation/LcbHost.java:151-170 | each iteration keeps `lastSent - lastDelivered <= 100` in the windowed loop, `lastSent` equal to `i - 1` there, and `i` at most `messagesToSendNum + 1` |
| LcbHosts.DeliveriesKeepWindow | template_java/src/main/java/cs451/implementation/LcbHost.java:152-156 | a rise of `lastDelivered` by the delivery thread keeps the window bound |
| LcbHosts.PollKeepsWindow | template_java/src/main/java/cs451/implementation/LcbHost.java:81-83 | a delivery tick keeps the window bound, given headroom below `Integer.MAX_VALUE` |
| LcbHosts.BroadcastThrough | template_java/src/main/java/cs451/implementation/LcbHost.java:139-149 | the loop's own state advances exactly as in `BroadcastStep`. A message it sends is handed to `sendMessage` as written: pending on every other link and delivered on the self link. The own vote goes under the message itself and the normalised count is unchanged. Without a send, the URB state is unchanged |
| LcbHosts.BroadcastThroughCorrected | template_java/src/main/java/cs451/implementation/LcbHost.java:139-149 | over the corrected `sendMessage`, the same iteration counts the broadcast once on the normalised entry the relays raise |

## Left out

- Sockets, `DatagramPacket`, executors, timers, the 150 ms periods and `ScheduledFuture.cancel` are I/O and scheduling. Retransmission is the pending set; a send is an appended packet or a returned message.
- Thread interleaving between the reception, poll and broadcast threads is not modelled. Each receipt and each tick is one atomic step, and `lastDeliveredId` is read as an input that only grows (`LcbHosts.DeliveriesKeepWindow`).
- Liveness is out of scope: eventual delivery, uniform agreement, and the busy-wait in `beginBroadcasting` ending all need a network and fairness model.
- Log-buffer trimming, flushing and `Host.log` are output formatting. The logs are sequences of structured lines.
- `FifoHosts.PollWith` logs `(sender, seq)` pairs rather than text, because `Pair.toLogString` is not part of this model (`Pair.java` is not part of this model).
- `Host.java`, `Main.java` (apart from links including self and dependencies excluding self), `BroadcastFormatter.java` and `Triple.java` are setup, I/O or unused.
- The commented-out code of `UrbHost.java` (lines 39-96: `logBroadcast`, the `int` overload of `doSelfUrbAck`, `beginBroadcasting`) is inactive and is not modelled.
- The copy constructor (`Message.java:55-64`) is the identity on immutable values, so the model has no copy. The only copy in use is followed by `changeSourceSender`, which is `Messages.ChangeSource`.
- `Messages.Decode` does not model the Java `assert` at `Message.java:155`, because JVM assertions are off by default. A longer datagram is read from the front.
- The commented-out clock-less codec (`Message.java:110-123` and `130-147`) and the four-argument constructor it used are inactive and are not modelled.
- `LinkHosts.OnData`, `LinkHosts.OnAck`: the source's uncaught `NullPointerException` and `NoSuchElementException` end the reception thread. The model returns an `Err` and leaves what follows to the caller.
- `LinkHosts.BumpAck` counts with unbounded naturals. Java's `Integer` counter would need `2^31` acknowledgments of one message to wrap.
- `FifoHosts.Advance` uses unbounded integers. Java's `lastSequenceNumber + 1` would wrap at `Integer.MAX_VALUE`.
- `FifoHosts.PollWith` models the loop over `lastDeliveredMessageId` as independent per-sender advances in ascending id order. The loop only writes the entry of the sender it is visiting, so the order does not change the result.
- `LcbHosts.Poll` takes the iteration order of `urbDeliveredMessages.keySet()` as a parameter, because `ConcurrentHashMap` order is unspecified. Messages URB-delivered during the tick are not seen.
- `LcbHosts.BroadcastStep` models the loop counter `i` as unbounded. With `messagesToSendNum == Integer.MAX_VALUE`, Java's `i++` would wrap after the last message and the loop would not stop.
- `LcbHosts.PollClockMonotone`, `LcbHosts.PollRaisesLastDelivered`, `LcbHosts.PollKeepsWindow`: these hold only with headroom below `Integer.MAX_VALUE`, because the source's counters wrap there (`Inc32`).

## Findings

| source | as written | input that shows it | evidently intended | confidence | as-written member | corrected member |
|---|---|---|---|---|---|---|
| template_java/src/main/java/cs451/implementation/UrbHost.java:138 | `urbDeliveredMessages.contains(key)` is `ConcurrentHashMap.contains`, i.e. `containsValue`, and the values are all `Boolean.TRUE` | a message already URB-delivered whose late relayed copy re-creates an ack entry with count 1 below the threshold: the entry is never dropped | `containsKey(key)`: drop ack entries of delivered messages | high; not executed | UrbHosts.PollAsWritten, UrbHosts.PollAsWrittenKeepsStaleEntry | UrbHosts.Poll |
| template_java/src/main/java/cs451/implementation/UrbHost.java:117 | the self-acknowledgment is stored under the message itself (source sender = this process), not under the normalised key it reads | `N = 3`, process 1 broadcasts `m`; process 3 relays it to process 2 and then crashes before relaying to process 1; process 2, now holding process 3's copy, relays to process 1: as written, process 1's normalised entry holds one vote (its own sits on a separate entry), below the threshold of 2, so `m` is never URB-delivered there; corrected, the entry holds two and `m` is delivered | `put(keyMessage, …)`: the own vote counts on the shared entry | high; not executed | UrbHosts.SelfAckAsWritten, UrbHosts.SendMessage, UrbHosts.SelfVoteLostAsWritten, UrbHosts.SendMessageVoteMisplaced | UrbHosts.SelfAck, UrbHosts.SendMessageCorrected, LcbHosts.BroadcastThroughCorrected |
| template_java/src/main/java/cs451/implementation/FifoHost.java:68 | `urbDeliveredMessages.containsKey(new Pair<>(s, q))` queries a map whose keys are `Message`s | any tick with at least one URB-delivered message, e.g. `(1, 1)`: no watermark moves and nothing is FIFO-delivered | look up by `getMessageInfo()` of the URB-delivered messages | high, assuming `Pair.equals` tests the class as `Triple.equals` does; not executed | FifoHosts.PollAsWritten, FifoHosts.PollAsWrittenNeverDelivers | FifoHosts.Poll |
