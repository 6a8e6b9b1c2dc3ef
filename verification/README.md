# Electricity metering network: verified model

A Dafny 4.11 model of a network that carries electricity meter readings from meter
nodes over ESP-NOW to a substation, from there over LoRa to a gateway, and on to a
broker, and of the three meter protocols the nodes read their meters with. Run
`dafny verify dfyconfig.toml` in this directory to verify everything.

## What is modelled

**The store-and-forward pipeline.** `Wire` holds the packet formats. `BufferSpec`
describes the substation's reading buffer as eight slots with a FIFO each, relates it to
a map from UID to bounded FIFO, and `ReadingBuffers.ReadingBuffer` is the buffer itself:
rings in an array, updated in place, with a peek that a push can cancel. `BufferRuns`
follows it over whole runs. `LoRaSpec` is the stepped retry machine of the LoRa link and
`LoRaLinks.LoRaLink` the object that runs it; `LoRaRuns` tells a whole send without its
phases. `StationSpec` is the substation (joins,
duplicate check, buffering, relaying, beacons) as a state machine; `StationRuns` and
`Repeats` follow its runs, `RelayRuns` what a relay's ACK removes, `StationTiming` and
`RelayTiming` its beacons and relays as the 32 bit millisecond clock wraps;
`Substations.Substation` is the firmware's object. `NodeSpec` and
`SubstationLinks.SubstationLink` are a node's blocking `join()` and `send()`, where the
radio may lose, delay or repeat anything. `EspNow` is the receive queue between them, and
`Handshakes` lets the two machines talk: what one sends, as bytes, is what the other acts on.
`GatewaySpec` and `Gateways.GatewayNode` are the gateway's two tasks over their shared
queue, under every interleaving. `SeqCounters` is the persistent sequence counter.
`Pipeline` puts nodes, substations and gateway together as one system whose links lose,
delay and repeat frames but never forge them, whose nodes and substations reboot at any
time, and proves what holds in every reachable state. `Provenance` adds whose ids a reading
carries on its way. `Deliveries` follows readings from
the counter in a node's storage, through boots and resends, the radio and the receive
queue, to the buffer of a substation that relays meanwhile. `Duplicates` follows them over
LoRa to the broker and counts how often each one gets there.

**The meter protocols.** `Registers` and `Crc` are the HDLC frame check (RFC 1662,
appendix C.2) and the Modbus CRC (MODBUS over Serial Line V1.02, section 6.2.2), from
bit steps up to error detection at any length; `Division` and `CrcDivision` say what both are
of a message, the remainder of its long division by the generator polynomial. `HdlcLayout` and `Hdlc` are frames
(IEC 62056-46, sections 6.4.1 and 6.4.2), `FrameHunt` finds them in a noisy stream,
`Ber` and `Aare` walk an association response (ITU-T X.690, section 8.1.3), `DlmsData`
decodes numbers and scalers, `DlmsSession` and `DlmsWire` describe a session by frames
and by bytes, `DlmsLaws` spells both out, and `Dlms.DlmsCosemReader` runs one against
whatever answers on its bus.
`DlmsMeters` is a meter with link, association, counters and registers that move on with
every read, and `DlmsPolls` lets the reader poll it. `ModbusFrames` and
`Modbus.ModbusRtuReader` are the Modbus reader. `IecText`, `ObisBlocks` and `IecReplies`
are the text side of IEC 62056-21 mode C (sections 6.3 and 6.4.3), `IecLaws` says what those
texts look like and which of them are refused,
`IrMeters.FakeIrMeter` the simulated meter, and `Iec62056` the optical head, the reader
on it, and the two talking to each other.

Objects of the firmware are classes with its fields; each method is proved against a
function of the old state, and the theorems are about those functions. Bytes are
8 bit vectors, checksums 16 bit vectors, and the 32 bit clock and sequence numbers wrap
explicitly. `Slices`, `Folds` and `Guard` hold what the proofs share.

## What the proofs found

- The duplicate check compares only with the last number acknowledged for a MAC, and forgets
  it when the MAC joins under another UID. From a state that remembers no number for a MAC,
  each of its numbers is buffered at most once if and only if none it is acknowledged for
  comes back with anything else in between, another number or a change of UID
  (`AtMostOnceIff`). Both ways of failing have an input (`OvertakenResendIsBufferedTwice`,
  `RejoinedResendIsBufferedTwice`). A node with one UID, its counter and its blocking
  `send()` see to it that neither happens (`BufferedOnce`), if its storage keeps count.
- A number is never handed out twice if and only if none is taken after storage that lost
  the last write has been read again (`NeverRepeatsIff`). `seqNext()` does not look whether
  the write succeeded; one lost write before a power cut is enough (`LostWriteRepeats`), and
  the substation then acknowledges the new reading and drops it (`ReusedNumberIsDropped`).
- The gateway keeps no such memory. A reading sent and acknowledged once is published once
  more for each of its ACKs that did not end the send, so twice or more if and only if an
  ACK was lost or came too late (`PublishedTwiceIff`); one lost ACK does it
  (`LostAckAcceptsTwice`).
- The bound on the length of a LoRa send holds if and only if no pause between two polls
  can carry the 32 bit clock past the longest wait and round again
  (`EndsWithinBoundIff`).
- The ACK of a relayed reading removes it if and only if no push overwrote it meanwhile, that
  is, unless its UID was sent another reading with 288 of them waiting; otherwise it removes
  nothing (`AckRemovesIff`).
- The check byte of an optical data block covers what follows its STX, and any one garbled
  character there, check byte included, is refused (`GarbledIsRefused`). The STX itself is not
  covered: garbled, it leaves a block that counts as unframed and is taken unchecked
  (`GarbledStxIsTaken`).
- The relay's back-off test agrees with real time if and only if its deadline is still
  ahead, or is past and its age, less whole turns of the 32 bit clock, is under 2^31 ms
  (`RelayGateMatchesRealTimeIff`). Only a failed relay moves the deadline
  (`DeadlineStays`), so a substation none of whose relays failed since boot starts one
  exactly in the lower half of its clock's range (`StartsFromBootIff`), and none at all
  while the clock shows 2^31 ms or more (`StallsFromBoot`; `OneReadingStalls` is the run).
- The beacon test is right for all runs with passes at most a given time apart if and only
  if that time is at most 2^31 ms (`TestIsRightIff`); counted from boot, where the first
  beacon is due at once, if and only if it is at most 2^31 - 1 ms (`RightFromBootIff`).
- `Payload` is 35 bytes; docs/PROTOCOLS.md says otherwise and the code is followed.
- A LoRa send makes max(1, maxRetries) attempts, since the limit is looked at after an
  attempt (`SendRun`).

## Model

| member | source | states |
|---|---|---|
| Wire.PayloadRoundTrip | lib/interfaces/shared/shared_payload.h:39-48 | a packed Payload decodes to exactly what was encoded |
| Wire.PayloadBytesRoundTrip | lib/interfaces/shared/shared_payload.h:39-48 | any 35 bytes are the encoding of the Payload they decode to, so an unknown node type survives the trip |
| Wire.AckRoundTrip | lib/interfaces/shared/shared_payload.h:58-61 | an AckPayload decodes to exactly the UID and sequence number encoded |
| Wire.LinkFrameParseExact | lib/interfaces/shared/shared_payload.h:97-132 | linkFrameParse() accepts exactly the byte strings linkFrameMake() builds, and returns the frame built |
| Wire.ClassifyInvertsEncode | src/nodes/substation.cpp:213-225 | told apart by size and magic, the three frame kinds are never confused |
| Wire.LeAt | lib/interfaces/shared/shared_payload.h:32-48 | byte i of a multi-byte field counts its 256^i: least significant byte first |
| Wire.PayloadLayout | lib/interfaces/shared/shared_payload.h:39-48 | the 35 bytes of a Payload: UID at 0, number at 16, import at 20, export at 24, voltage at 28, community at 32, unit at 33, node type at 34 |
| Wire.AckLayout | lib/interfaces/shared/shared_payload.h:58-61 | the 20 bytes of an ACK: UID at 0, number at 16 |
| Wire.LinkLayout | lib/interfaces/shared/shared_payload.h:71-87 | the 23 bytes of a LinkFrame: 4B 5A, then 1, 2 or 3 for beacon, Join and JoinAck, the epoch at 3, the UID at 7 |
| BufferSpec.PushRefinesMap | lib/buffering/reading_buffer/reading_buffer.cpp:47-98 | a push refuses exactly when its UID holds nothing and eight others do; otherwise it appends to that UID's FIFO, dropping only its oldest when full, and touches no other |
| BufferSpec.PeekRefinesMap | lib/buffering/reading_buffer/reading_buffer.cpp:100-122 | a peek finds a reading exactly when any is held, shows the head of one FIFO, changes no FIFO, and is what a following pop would remove |
| BufferSpec.PopRefinesMap | lib/buffering/reading_buffer/reading_buffer.cpp:124-138 | a pop removes the head of one FIFO and frees the slot with its last reading; without a live peek it changes nothing |
| BufferSpec.CountConserved | lib/buffering/reading_buffer/reading_buffer.cpp:140-146 | the count moves by exactly what a push stores, an overwrite drops and a pop removes |
| BufferSpec.PushCancelsIff | lib/buffering/reading_buffer/reading_buffer.cpp:82-88 | a push cancels a pending pop exactly when it overwrites the reading shown, one of its own UID with 288 queued; any other push leaves it pending |
| BufferRuns.RunConserves | lib/buffering/reading_buffer/reading_buffer.cpp:67-138 | over any run each UID's queue is a suffix of everything accepted for it, and what precedes it is exactly what was overwritten or popped, in order |
| BufferRuns.PushedIsHeldOrGone | lib/buffering/reading_buffer/reading_buffer.cpp:67-138 | no pushed reading vanishes: it is queued, or logged as overwritten or popped |
| BufferRuns.GoneWasPushed | lib/buffering/reading_buffer/reading_buffer.cpp:67-138 | nothing leaves that was not pushed |
| BufferRuns.NoStarvation | lib/buffering/reading_buffer/reading_buffer.cpp:100-138 | while a slot holds readings, at most seven removing pops serve other slots first, with any pushes and peeks in between |
| BufferRuns.ShowsLastIds | lib/buffering/reading_buffer/reading_buffer.cpp:76-117 | over any run of pushes, peeks and pops from empty, the Payload a peek shows carries the community, unit and node type of the last accepted push for its UID |
| ReadingBuffers.ReadingBuffer.FindOrClaimSlot | lib/buffering/reading_buffer/reading_buffer.cpp:47-63 | finds the UID's slot, else clears and claims the first free one, else reports none; other slots stay as they are |
| ReadingBuffers.ReadingBuffer.Push | lib/buffering/reading_buffer/reading_buffer.cpp:67-98 | the ring arrays change as the bounded FIFO specification says, cancelling a peek whose reading is overwritten |
| ReadingBuffers.ReadingBuffer.Peek | lib/buffering/reading_buffer/reading_buffer.cpp:100-122 | copies out the oldest reading of the next occupied slot in turn, leaving the caller's value alone when there is none |
| ReadingBuffers.ReadingBuffer.Pop | lib/buffering/reading_buffer/reading_buffer.cpp:124-138 | removes the peeked slot's head and moves the turn on, or does nothing after a cancelled peek |
| ReadingBuffers.ReadingBuffer.Count | lib/buffering/reading_buffer/reading_buffer.cpp:140-146 | the total over all rings |
| ReadingBuffers.ReadingBuffer.Clear | lib/buffering/reading_buffer/reading_buffer.cpp:148-152 | back to the empty buffer |
| Clock.BeforeAgrees | src/nodes/substation.cpp:287-290 | the signed 32 bit comparison agrees with real time if and only if the deadline is ahead, or is past by less than 2^31 ms not counting whole turns of the clock |
| Clock.SinceIff | lib/links/lora_link/lora_link.cpp:92-101 | the unsigned difference of two clock values is the one distance below 2^32 that leads from one to the other |
| Clock.BeforeIff | src/nodes/substation.cpp:287-290 | the signed one is negative exactly when the second clock value is 1 to 2^31 ms ahead of the first |
| LoRaSpec.SendRun | lib/links/lora_link/lora_link.cpp:39-112 | a send transmits at most max(1, maxRetries) times, fails only after exactly that many, is acknowledged only by its own UID and sequence number, reports at most one end, and never goes idle without having reported it |
| LoRaSpec.IdleHasReported | lib/links/lora_link/lora_link.cpp:55-112 | a run that leaves the link idle holds exactly one report, acknowledged or failed |
| LoRaSpec.SendReportsOnce | lib/links/lora_link/lora_link.cpp:55-112 | a send polled at the given pace for max(1, maxRetries) x (ackTimeoutMs + 502) polls holds exactly one report |
| LoRaSpec.RunEnds | lib/links/lora_link/lora_link.cpp:55-112 | a send polled at the given pace is idle again within its budget, across clock wraps |
| LoRaSpec.EndsWithinBoundIff | lib/links/lora_link/lora_link.cpp:92-101 | every send ends within max(1, maxRetries) x (ackTimeoutMs + 502) polls if and only if the longest pause plus the longest wait is at most 2^32 ms |
| LoRaSpec.OutlastsAnyBound | lib/links/lora_link/lora_link.cpp:92-101 | beyond that pause there is a send that outlasts any number of polls |
| LoRaRuns.SendTakesCourse | lib/links/lora_link/lora_link.cpp:55-112 | for any polls whatever: which of them transmit and what each reports, told by when the radio sends, when the own ACK is heard, when the ACK timeout and then 500 ms are over, and how many attempts are used |
| LoRaRuns.SendsAreApart | lib/links/lora_link/lora_link.cpp:92-109 | each transmission of a send but the first starts at least 500 ms, and the ACK timeout too if the radio had sent, behind the one before; a failure is as far behind the last |
| LoRaRuns.HearsIff | lib/links/lora_link/lora_link.cpp:76-90 | a waiting poll hears an ACK exactly from a packet of twenty bytes that are that ACK's |
| LoRaLinks.LoRaLink.ReadFrame | lib/links/lora_link/lora_link.cpp:23-32 | reads exactly the wanted bytes of the current packet, or fails on a short one |
| LoRaLinks.LoRaLink.BeginSend | lib/links/lora_link/lora_link.cpp:39-53 | starts a send exactly when the size is right and none is in flight |
| LoRaLinks.LoRaLink.PollSend | lib/links/lora_link/lora_link.cpp:55-112 | one step of the retry machine; puts the pending payload on the air only in the transmit phase |
| LoRaLinks.LoRaLink.SendPacket | lib/links/lora_link/lora_link.cpp:114-127 | terminates, succeeds exactly when an ACK of this payload was heard, and transmits no more often than allowed |
| LoRaLinks.LoRaLink.ReceivePacket | lib/links/lora_link/lora_link.cpp:129-177 | takes a whole payload and sends its ACK, or takes nothing and sends nothing; -2 only for a small buffer |
| StationSpec.NextValid | src/nodes/substation.cpp:123-298 | every step keeps the table's MACs distinct and at most eight, the buffer well formed, and a pending pop sound |
| StationRuns.AckedPopsInFlight | src/nodes/substation.cpp:269-276 | an acknowledged relay heard the ACK of the reading in flight, and its pop removes that reading or nothing |
| StationRuns.RelayRunIsSound | src/nodes/substation.cpp:266-298 | over any run with pushes between peek and pop, each queue is a suffix of what was buffered, and whatever left was overwritten or had its own UID and sequence number acknowledged |
| RelayRuns.ShownStaysIff | src/nodes/substation.cpp:266-298 | while a send is under way, whatever arrives, the pop of its reading stays pending exactly as long as no reading of its UID is buffered with 288 waiting |
| RelayRuns.AckRemovesIff | src/nodes/substation.cpp:266-298 | from the pass that starts a relay to the one that hears its ACK, with anything arriving in between: the ACK removes the relayed reading, the head of its FIFO, if and only if it was not overwritten, and else nothing |
| RelayRuns.DeliveriesDrain | src/nodes/substation.cpp:266-298 | with the deadline past, a radio that sends and every ACK heard, three passes for each reading empty the buffer, whatever it holds |
| Provenance.RelaysLastIds | src/nodes/substation.cpp:294-297 | over any run from boot, the Payload a relay puts on LoRa carries the ids of the last reading buffered for its UID |
| StationRuns.AtMostOnce | src/nodes/substation.cpp:239-253 | frames handled in sending order, each MAC under one UID, are never buffered twice in one boot, however often nodes resend and rejoin |
| Repeats.PushesAreDedup | src/nodes/substation.cpp:155-253 | over any run, what is buffered of a MAC is exactly what it is acknowledged for, less each number that repeats the last one remembered; a Join under another UID forgets that one |
| Repeats.AtMostOnceIff | src/nodes/substation.cpp:155-253 | from any state that remembers no number of a MAC, whatever everyone sends, its numbers are buffered at most once each if and only if none it is acknowledged for comes back with another number or a change of its UID in between |
| Repeats.AtMostOnceFromBootIff | src/nodes/substation.cpp:155-253 | the same over whole runs from boot, with nothing assumed |
| Repeats.JoinedAtMostOnceIff | src/nodes/substation.cpp:155-253 | for a joined MAC, while the buffer refuses nothing, the condition is on the frames it sends alone |
| Repeats.OneUidAtMostOnceIff | src/nodes/substation.cpp:239-253 | with one UID for each MAC that is: no number it sends comes back after a different one |
| Repeats.OvertakenResendIsBufferedTwice | src/nodes/substation.cpp:239-253 | a resend overtaken by another reading is buffered a second time |
| Repeats.RejoinedResendIsBufferedTwice | src/nodes/substation.cpp:161-175 | so is a resend after its MAC has joined under another UID, with no other reading in between |
| Repeats.ReusedNumberIsDropped | src/nodes/substation.cpp:239-253 | a new reading under the number last acknowledged for its MAC is acknowledged and dropped |
| StationRuns.JoinedHaveRoom | src/nodes/substation.cpp:228-249 | a joined node's own reading is always accepted by the buffer, by counting UIDs |
| StationRuns.NeverRefused | src/nodes/substation.cpp:155-253 | over any run from boot in which each MAC uses one UID, no reading of a joined node is refused |
| StationTiming.BeaconTestSurvivesWrap | src/nodes/substation.cpp:133-142 | the wrapped beacon test sends exactly the beacons an unbounded clock would, across any number of wraps |
| StationTiming.TestIsRightIff | src/nodes/substation.cpp:133-142 | for all runs with passes at most a gap apart it does so, if and only if the gap is at most 2^31 ms |
| StationTiming.RightFromBootIff | src/nodes/substation.cpp:133-142 | for all runs from boot, if and only if the gap is at most 2^31 - 1 ms |
| StationTiming.BeaconTiming | src/nodes/substation.cpp:133-142 | from boot, with passes at most 2^31 - 1 ms apart, beacons are at least 1000 ms apart and every pass at or after the deadline sends one |
| StationTiming.BeaconMissedBeyondHalfTurn | src/nodes/substation.cpp:133-142 | with passes 2^31 + 1 ms apart a due beacon can be missed |
| RelayTiming.DeadlineStays | src/nodes/substation.cpp:266-298 | over any run without a failed relay, successes included, the back-off deadline stays as it was |
| RelayTiming.FailureSetsDeadline | src/nodes/substation.cpp:278-281 | a failed relay keeps the buffer, leaves the link idle and sets the deadline 30 s on |
| RelayTiming.FailureHoldsOff | src/nodes/substation.cpp:278-292 | after a failed relay no relay is under way at any point of any run whose passes fall within the next 30 s, whatever arrives |
| RelayTiming.StartsSinceFailureIff | src/nodes/substation.cpp:278-298 | after a failed relay and any run without another failure, a pass with the link idle and a reading waiting starts a relay if and only if the 30 s are over and their end, less whole turns of the clock, is under 2^31 ms ago |
| RelayTiming.StartsFromBootIff | src/nodes/substation.cpp:287-298 | from boot, after any run without a failed relay, such a pass starts a relay if and only if the clock shows less than 2^31 ms |
| RelayTiming.EarlyNeverRelays | src/nodes/substation.cpp:287-292 | from an idle link, while every pass finds the deadline looking ahead, no relay is under way at any point of the run |
| RelayTiming.StallsFromBoot | src/nodes/substation.cpp:287-292 | so a substation that never failed relays nothing while its clock shows 2^31 ms or more, over any run of arrivals and passes |
| RelayTiming.OneReadingStalls | src/nodes/substation.cpp:287-298 | one Join and one reading after boot, every pass with the clock at 2^31 ms or more changes nothing, and every pass below starts the relay |
| RelayTiming.RelayGateMatchesRealTimeIff | src/nodes/substation.cpp:287-297 | an idle substation with readings starts a relay exactly when the deadline has passed, if and only if the deadline is ahead, or past by less than 2^31 ms not counting whole turns of the clock |
| Substations.Substation.FindJoinedNode | src/nodes/substation.cpp:123-130 | the node's place in the table, or -1 |
| Substations.Substation.BeaconIfDue | src/nodes/substation.cpp:133-142 | broadcasts a beacon with this boot's epoch exactly when due, and sets the next deadline |
| Substations.Substation.UpdateTable | src/nodes/substation.cpp:161-175 | adds or refreshes the node, forgetting its last number only for a new UID; refuses a ninth MAC |
| Substations.Substation.HandleJoin | src/nodes/substation.cpp:155-188 | answers a Join of this epoch with a JoinAck echoing its UID, and any other with silence |
| Substations.Substation.SendDeliveryAck | src/nodes/substation.cpp:198-203 | acknowledges the payload's own UID and sequence number |
| Substations.Substation.TakeReading | src/nodes/substation.cpp:227-254 | drops strangers, re-acknowledges a repeat, buffers and acknowledges the rest, and stays silent when the buffer refuses |
| Substations.Substation.HandleIncoming | src/nodes/substation.cpp:209-255 | handles everything queued, oldest first, with exactly the specified answers |
| Substations.Substation.RelayStep | src/nodes/substation.cpp:266-298 | the specified relay step of buffer, link and deadline together, and the reading in flight goes on the air exactly in the transmit phase |
| EspNow.DeliversInOrder | lib/links/esp_now_uplink/esp_now_uplink.cpp:40-60 | the queue loses frames but never reorders, repeats or invents them |
| EspNow.KeepsNewest | lib/links/esp_now_uplink/esp_now_uplink.cpp:53-59 | a slow reader finds the newest four |
| EspNow.EspNowUplink.OnReceived | lib/links/esp_now_uplink/esp_now_uplink.cpp:40-60 | queues the frame, cut to the packet limit, dropping the oldest when full |
| EspNow.EspNowUplink.ReceivePacket | lib/links/esp_now_uplink/esp_now_uplink.cpp:159-179 | takes the oldest frame; one too long for the caller is dropped with -2 |
| NodeSpec.AtRest | lib/links/substation_link/substation_link.cpp:68-173 | between calls a node's peers are exactly its substation when joined and none otherwise, and after a failure it is not joined |
| NodeSpec.SendIsBounded | lib/links/substation_link/substation_link.cpp:151-173 | one send() transmits its reading at most twice, with at most three Joins for each try |
| NodeSpec.ResendNeedsRejoin | lib/links/substation_link/substation_link.cpp:151-173 | a reading that was not acknowledged or could not be sent is sent again only after a JoinAck was heard in between |
| NodeSpec.AsksThrice | lib/links/substation_link/substation_link.cpp:86-101 | a node stops asking a substation after three Joins, sent or not, and not before |
| NodeSpec.TriesTwice | lib/links/substation_link/substation_link.cpp:151-173 | a send() that ends with its reading unanswered or unsendable has tried it twice |
| SubstationLinks.SubstationLink.WaitForBeacon | lib/links/substation_link/substation_link.cpp:27-43 | returns the sender and epoch of the beacon just read, or read none |
| SubstationLinks.SubstationLink.WaitForJoinAck | lib/links/substation_link/substation_link.cpp:45-66 | ends early exactly on a JoinAck of that substation, epoch and UID |
| SubstationLinks.SubstationLink.WaitForDeliveryAck | lib/links/substation_link/substation_link.cpp:104-125 | ends early exactly on the joined substation's ACK of this reading |
| SubstationLinks.SubstationLink.DrainReceived | lib/links/substation_link/substation_link.cpp:127-144 | empties the receive queue, whatever arrives meanwhile, and forgets the substation exactly when a frame read is its own beacon with another epoch |
| SubstationLinks.SubstationLink.Join | lib/links/substation_link/substation_link.cpp:68-102 | succeeds exactly when joined, sends nothing if joined before, leaves the right peer set |
| SubstationLinks.SubstationLink.Send | lib/links/substation_link/substation_link.cpp:151-173 | success means the substation's ACK of this very reading was the last frame read; failure means not joined; every execution is a run of the node machine |
| Handshakes.BeaconIsHeard | src/nodes/substation.cpp:133-142 | the substation's beacon, as bytes, makes a node that looks for one ask for that epoch |
| Handshakes.JoinIsAnsweredIff | src/nodes/substation.cpp:155-188 | the Join a node sends is answered with a frame that leaves the node joined to that MAC and epoch, if and only if the epoch is the substation's, addPeer() succeeds and the MAC is in the table or there is room; on the first and last it is in the table under its UID |
| Handshakes.ReadingTaken | src/nodes/substation.cpp:227-254 | a reading is acknowledged exactly if its MAC is joined and it repeats the last number or there is room; and then buffered, and its number remembered, exactly if it is no repeat |
| Handshakes.ReadingIsAnsweredIff | src/nodes/substation.cpp:227-254 | the reading a joined node sends is answered with the ACK that ends its send(), if and only if it is buffered or repeats the last number |
| Handshakes.OthersAreIgnored | src/nodes/substation.cpp:209-225 | a frame that is neither a Join nor 35 bytes long changes nothing and is not answered |
| Handshakes.DeliveryRuns | lib/links/substation_link/substation_link.cpp:151-173 | a send() that hears a beacon, a JoinAck and an ACK is a run of the node from boot; it sends one Join and the reading, and ends joined and done |
| Handshakes.DeliveryIsAnswered | src/nodes/substation.cpp:209-255 | a freshly booted substation answers those two frames with the JoinAck and the ACK that run hears, and then holds exactly that reading |
| GatewaySpec.NextKeepsInv | src/nodes/gateway.cpp:97-190 | each step of either task keeps the gateway's invariant |
| GatewaySpec.AllInterleavings | src/nodes/gateway.cpp:97-190 | so does every interleaving |
| GatewaySpec.FromBoot | src/nodes/gateway.cpp:97-190 | the zero-wait enqueue never fails, every accepted reading is held, queued or removed in order, and with MQTT publish order is queue order |
| GatewaySpec.PeekStaysFront | src/nodes/gateway.cpp:164-189 | arrivals between peek and receive leave the peeked item at the front |
| GatewaySpec.PublishesIff | src/nodes/gateway.cpp:164-189 | one pass of the publish loop publishes the front of the queue, and nothing else, exactly if MQTT is on, it was peeked, and a connected client takes it; a failed publish keeps the queue; the front leaves exactly once it is published, or at once without MQTT |
| GatewaySpec.Drains | src/nodes/gateway.cpp:164-189 | without arrivals and with a client that takes everything, three passes for each queued reading empty the queue, published and removed growing by exactly the old queue, in order |
| GatewaySpec.DrainsUnpublished | src/nodes/gateway.cpp:174-177 | without MQTT the queue empties too, and nothing is published |
| GatewaySpec.ReceivesIff | src/nodes/gateway.cpp:97-113 | the receive task listens exactly while fewer than 32 readings wait, and queues exactly what it received |
| Duplicates.PublishedCount | src/nodes/gateway.cpp:97-190 | over any run of a substation's sends and both gateway tasks, a reading is accepted exactly as often as ACKs for it ended a send, were missed, or are under way; and published that often once nothing is under way |
| Duplicates.TakenAreAcknowledged | lib/links/lora_link/lora_link.cpp:79-90 | the ACKs that ended a send are exactly the sends reported acknowledged |
| Duplicates.PublishedTwiceIff | src/nodes/gateway.cpp:97-113 | a reading whose only acknowledged send is over is published once more for each ACK missed, so more than once if and only if one was |
| Duplicates.LostAckAcceptsTwice | lib/links/lora_link/lora_link.cpp:92-112 | given two attempts, losing the first ACK alone gets one reading of one acknowledged send accepted twice |
| Gateways.GatewayNode.RxTaskStep | src/nodes/gateway.cpp:97-113 | the receive task up to its next queue operation |
| Gateways.GatewayNode.LoopStep | src/nodes/gateway.cpp:152-190 | the publish loop up to its next queue operation or publish |
| Gateways.GatewayNode.Interleave | src/nodes/gateway.cpp:97-190 | the two on one shared queue object, under any schedule |
| Pipeline.NextKeepsInv | src/nodes/substation.cpp:209-298 | every step of the whole system keeps its invariant |
| Pipeline.Conservation | lib/links/substation_link/substation_link.cpp:151-173 | in every reachable state each reading whose send() succeeded is in its substation's buffer, was overwritten there, is held by the gateway, queued there, or consumed, unless that substation has rebooted |
| Pipeline.JoinAgreement | lib/links/substation_link/substation_link.cpp:68-102 | a node that believes it is joined is in that substation's table, unless the substation has rebooted |
| Pipeline.RemovedReachedGateway | src/nodes/substation.cpp:273-276 | a reading popped at a substation had been accepted, whole, by the gateway |
| Provenance.NextKeepsInv | src/nodes/substation.cpp:209-298 | every step of the whole system keeps it true that the ids in each substation's slots, and those of every Payload on LoRa, were sent in a Payload of that UID |
| Provenance.AcceptedIsAsSent | src/nodes/gateway.cpp:97-113 | in every reachable state a reading the gateway accepted or published is one that a node took, under ids that were sent with that UID |
| Deliveries.StartsAreNumbers | src/nodes/ir_node.cpp:116-121 | over any life of a node, boots, power cuts, failures to open its storage and lost writes included, its sends carry exactly the numbers its stored counter hands out |
| Deliveries.SentInOrder | lib/buffering/seq_counter/seq_counter.cpp:23-38 | so its readings leave it in the order of their numbers, resends and reboots included, unless storage that lost the last write is read again |
| Deliveries.BufferedOnce | src/nodes/substation.cpp:209-298 | for any lives of any nodes whose storage keeps count, whatever the radio loses or repeats before the node's next frame and the receive queue drops, however addPeer() fails, and with any relays and beacons between two frames, no reading is buffered twice in one substation boot and none is refused |
| SeqCounters.NeverRepeatsIff | lib/buffering/seq_counter/seq_counter.cpp:23-38 | across power cycles, failed begins and failed writes, no number is handed out twice if and only if none is taken after storage that lost the last write was read again; until 2^32 are used up |
| SeqCounters.NeverRepeats | lib/buffering/seq_counter/seq_counter.cpp:23-38 | and then the numbers rise strictly |
| SeqCounters.LostWriteRepeats | lib/buffering/seq_counter/seq_counter.cpp:34-38 | one lost write before a power cut, and the number is handed out again |
| SeqCounters.SeqCounter.SeqCounterBegin | lib/buffering/seq_counter/seq_counter.cpp:23-32 | resumes from storage, or reports that it cannot |
| SeqCounters.SeqCounter.SeqNext | lib/buffering/seq_counter/seq_counter.cpp:34-38 | the next number, put to storage before it is returned, whether storage takes it or not |
| Crc.HdlcFcs | lib/protocols/dlms_cosem/hdlc.cpp:6-15 | the FCS; sent behind its data it leaves the receiver's register at 0xF0B8 |
| Crc.ComputeModbusCrc | lib/protocols/modbus_rtu/modbus_rtu.cpp:97-107 | the CRC; sent behind its data it leaves the receiver's register at 0 |
| Crc.FcsResidue | lib/protocols/dlms_cosem/hdlc.cpp:145-148 | check bytes match if and only if the register over data and check bytes ends at 0xF0B8 |
| Crc.ModbusCrcResidue | lib/protocols/modbus_rtu/modbus_rtu.cpp:162-166 | check bytes match if and only if the register over data and check bytes ends at 0 |
| Crc.FcsDetectsWindow | lib/protocols/dlms_cosem/hdlc.cpp:6-15 | two byte strings of any one length that pass cannot differ only inside two adjacent bytes, check bytes included |
| Crc.CrcDetectsWindow | lib/protocols/modbus_rtu/modbus_rtu.cpp:97-107 | the same for Modbus |
| CrcDivision.CrcOkIff | lib/protocols/modbus_rtu/modbus_rtu.cpp:97-107 | bytes pass the Modbus check if and only if their bits, the first sixteen inverted, are a multiple of x^16 + x^15 + x^2 + 1 by long division |
| CrcDivision.FcsOkIff | lib/protocols/dlms_cosem/hdlc.cpp:6-15 | and the HDLC check if and only if on division by x^16 + x^12 + x^5 + 1 they leave sixteen ones |
| CrcDivision.ModbusRemainder | lib/protocols/modbus_rtu/modbus_rtu.cpp:97-107 | the CRC register is the remainder of that division, added to whatever sixteen bits follow the data |
| CrcDivision.HdlcRemainder | lib/protocols/dlms_cosem/hdlc.cpp:6-15 | so is the HDLC register, before its complement |
| CrcDivision.KnownChecks | lib/protocols/modbus_rtu/modbus_rtu.cpp:97-107 | the empty message has CRC 0xFFFF and FCS 0x0000, and the request 01 03 00 00 00 02 has CRC 0x0BC4 |
| HdlcLayout.FrameInjective | lib/protocols/dlms_cosem/hdlc.cpp:44-76 | no two frames have the same bytes, whatever the check |
| HdlcLayout.AddressPrefixFree | lib/protocols/dlms_cosem/hdlc.cpp:91-108 | no valid address begins another, so addresses can be read off a frame |
| Hdlc.HdlcAddress | lib/protocols/dlms_cosem/hdlc.cpp:17-42 | accepts exactly what fits, and the bytes stand for the addresses put in |
| Hdlc.AddressPartsInjective | lib/protocols/dlms_cosem/hdlc.cpp:17-42 | addresses of one size are told apart by what they stand for |
| DlmsLaws.AddressSpelled | lib/protocols/dlms_cosem/hdlc.cpp:17-42 | seven bits to a byte, high ones first, logical device before physical, only the last byte odd |
| Hdlc.BuildFrame | lib/protocols/dlms_cosem/hdlc.cpp:44-76 | fails only on an over-long info field, otherwise writes exactly the frame |
| DlmsLaws.FrameSpelled | lib/protocols/dlms_cosem/hdlc.cpp:44-76 | a frame byte by byte: 7E, A0 and the count of bytes between the flags, destination, source, control, a check over the header if there is info, the info, a check over everything, 7E |
| Hdlc.ParseAddress | lib/protocols/dlms_cosem/hdlc.cpp:91-108 | succeeds exactly when a 1, 2 or 4 byte address starts here and ends in time |
| Hdlc.ParseFrame | lib/protocols/dlms_cosem/hdlc.cpp:112-150 | accepts exactly the byte strings that are frames and returns the frame each one is |
| Hdlc.BuildThenParse | lib/protocols/dlms_cosem/hdlc.cpp:44-150 | parsing a built frame gives back every part |
| Hdlc.ParseThenBuild | lib/protocols/dlms_cosem/hdlc.cpp:44-150 | rebuilding an accepted frame with up to 128 bytes of info reproduces it exactly |
| Hdlc.CorruptionRejected | lib/protocols/dlms_cosem/hdlc.cpp:112-150 | corrupting an accepted frame inside any two adjacent bytes makes it no frame at all |
| FrameHunt.ReadFrame | lib/protocols/dlms_cosem/dlms_cosem.cpp:169-211 | the byte-by-byte machine finds exactly what the window hunt finds, never writes past its buffer, and takes no byte behind the frame |
| FrameHunt.FoundIsPiece | lib/protocols/dlms_cosem/dlms_cosem.cpp:195-207 | what is found is a contiguous piece whose length field gives its size, of 9 to 147 bytes |
| FrameHunt.NoiseThenFrame | lib/protocols/dlms_cosem/dlms_cosem.cpp:180-194 | noise with no flag directly before a type A byte is skipped whole, and the frame behind it found intact |
| FrameHunt.AllFramesFound | lib/protocols/dlms_cosem/dlms_cosem.cpp:169-211 | so are any number of frames in a row, each behind such noise |
| FrameHunt.EncodedIsFramed | lib/protocols/dlms_cosem/hdlc.cpp:112-122 | every frame of at most 147 bytes is one the hunt finds |
| Ber.FieldsIff | lib/protocols/dlms_cosem/dlms_cosem.cpp:39-53 | bytes split into fields if and only if they are those fields written one after another, each length in short form or in long form with one byte |
| Ber.ReadBerLength | lib/protocols/dlms_cosem/dlms_cosem.cpp:39-53 | reads a length that ends in time, in either form |
| DlmsLaws.FieldBytes | lib/protocols/dlms_cosem/dlms_cosem.cpp:39-53 | a field is its tag, its length in one byte below 0x80 or behind 0x81, and its value |
| Aare.CheckAare | lib/protocols/dlms_cosem/dlms_cosem.cpp:331-382 | accepts exactly when the body splits fully into fields, the last well shaped A2 has result 0 and the last well shaped BE starts an InitiateResponse |
| Aare.WrittenAareOpens | lib/protocols/dlms_cosem/dlms_cosem.cpp:331-382 | a response written from fields is accepted if and only if its fields say so, whatever trails it |
| DlmsLaws.VerdictIff | lib/protocols/dlms_cosem/dlms_cosem.cpp:352-381 | whatever else it holds, a response with one A2 and one BE field opens the association if and only if the A2 is 02 01 00 and the octet string in the BE starts with 08 |
| DlmsLaws.BothAreNeeded | lib/protocols/dlms_cosem/dlms_cosem.cpp:372-379 | without an A2 field, or without a BE field, none does |
| DlmsData.DecodesIff | lib/protocols/dlms_cosem/dlms_cosem.cpp:421-479 | Data decodes to a number if and only if it begins with that number's encoding: two's complement by width, big endian |
| DlmsData.DecodesOneByte | lib/protocols/dlms_cosem/dlms_cosem.cpp:421-479 | 0F and 11 are one byte, the first in two's complement |
| DlmsData.DecodesTwoBytes | lib/protocols/dlms_cosem/dlms_cosem.cpp:421-479 | 10 and 12 are two bytes, high one first, the first in two's complement |
| DlmsData.DecodesFourBytes | lib/protocols/dlms_cosem/dlms_cosem.cpp:421-479 | 06 and 17 are four bytes, high one first, the second a float32 word |
| DlmsData.DecodesDoubleLong | lib/protocols/dlms_cosem/dlms_cosem.cpp:421-479 | 05 is four bytes in two's complement |
| DlmsData.DecodesEightBytes | lib/protocols/dlms_cosem/dlms_cosem.cpp:421-479 | 15 is eight bytes |
| DlmsData.DecodesNothingElse | lib/protocols/dlms_cosem/dlms_cosem.cpp:427-451 | no other tag is a number, nor is any of these with fewer bytes |
| DlmsData.DecodeNumber | lib/protocols/dlms_cosem/dlms_cosem.cpp:421-479 | the loop and casts compute that decoding |
| DlmsData.DecodeScalerUnit | lib/protocols/dlms_cosem/dlms_cosem.cpp:481-492 | accepts exactly a scaler_unit of the expected unit |
| DlmsLaws.ScalerIff | lib/protocols/dlms_cosem/dlms_cosem.cpp:481-492 | a scaler is read exactly from 02 02 0F, its byte, 16 and the unit asked for, the byte in two's complement |
| DlmsData.ApplyScaler | lib/protocols/dlms_cosem/dlms_cosem.cpp:103-109 | the value times ten to the scaler |
| DlmsData.ScaledInverse | lib/protocols/dlms_cosem/dlms_cosem.cpp:103-109 | a scaler is undone by its negative |
| DlmsData.ScaledStep | lib/protocols/dlms_cosem/dlms_cosem.cpp:103-109 | one more in the scaler is one more factor of ten, across zero |
| DlmsData.ParseGetResponse | lib/protocols/dlms_cosem/dlms_cosem.cpp:395-419 | finds Data exactly behind the one header a single, successful response has |
| DlmsSession.InSequenceIff | lib/protocols/dlms_cosem/dlms_cosem.cpp:299-312 | the bit checks accept exactly one control byte: the final I-frame numbered V(R) acknowledging the frame just sent |
| DlmsSession.PeersStayInStep | lib/protocols/dlms_cosem/dlms_cosem.cpp:281-324 | against a peer numbering modulo 8, any number of exchanges stays in step and takes every answer |
| DlmsSession.CountersStayEqual | lib/protocols/dlms_cosem/dlms_cosem.cpp:319-323 | for arbitrary replies V(S) stays equal to V(R) |
| DlmsSession.OneDisc | lib/protocols/dlms_cosem/dlms_cosem.cpp:537-553 | a connected session starts with its only SNRM, numbers its I-frames from 0, and ends with its only DISC |
| DlmsLaws.ControlIs | lib/protocols/dlms_cosem/dlms_cosem.cpp:289 | the control byte is 32 N(R) + 16 + 2 N(S), and numbers count modulo 8 |
| DlmsLaws.AarqFields | lib/protocols/dlms_cosem/dlms_cosem.cpp:19-26 | the AARQ is an application context name and an InitiateRequest, nested fields of the right lengths |
| DlmsLaws.SessionSpelled | lib/protocols/dlms_cosem/dlms_cosem.cpp:384-393 | the five frames of a register read: control 93; 10 with the AARQ; 32 with GET C0 01 C1 00 03, the OBIS code, 03 00; 54 with the same for 02; 53; each APDU behind E6 E6 00 |
| DlmsLaws.ReadIff | lib/protocols/dlms_cosem/dlms_cosem.cpp:516-535 | a read yields a value exactly if the replies are a UA (73), then control 30 with an AARE that opens, 52 with C4 01 C1 00 and the scaler_unit in the unit asked for, 74 with C4 01 C1 00 and a number, each behind E6 E7 00; and the value is that number times ten to that scaler |
| DlmsWire.ReplyReceived | lib/protocols/dlms_cosem/dlms_cosem.cpp:227-241 | a meter's frame is received through any quiet noise before it |
| DlmsWire.RequestUnique | lib/protocols/dlms_cosem/dlms_cosem.cpp:213-225 | different requests are different bytes on the bus, so numbering and DISC can be told from them |
| Dlms.DlmsCosemReader.Init | lib/protocols/dlms_cosem/dlms_cosem.cpp:127-140 | succeeds exactly when both addresses fit, and stores them encoded |
| Dlms.DlmsCosemReader.SendFrame | lib/protocols/dlms_cosem/dlms_cosem.cpp:213-225 | puts exactly one frame from client to server on the bus |
| Dlms.DlmsCosemReader.Receive | lib/protocols/dlms_cosem/dlms_cosem.cpp:227-241 | the first frame hunted down, if it is valid and runs from server to client |
| Dlms.DlmsCosemReader.Connect | lib/protocols/dlms_cosem/dlms_cosem.cpp:243-263 | up exactly on UA, and only then are the counters reset |
| Dlms.DlmsCosemReader.Disconnect | lib/protocols/dlms_cosem/dlms_cosem.cpp:265-279 | one DISC, answered by UA or DM |
| Dlms.DlmsCosemReader.Exchange | lib/protocols/dlms_cosem/dlms_cosem.cpp:281-324 | sends one numbered I-frame, takes exactly the answer in sequence, and moves its counters only then |
| Dlms.DlmsCosemReader.Associate | lib/protocols/dlms_cosem/dlms_cosem.cpp:494-503 | open exactly when the answer to the AARQ opens the association |
| Dlms.DlmsCosemReader.GetAttribute | lib/protocols/dlms_cosem/dlms_cosem.cpp:505-514 | the Data of the answer in sequence to this GET |
| Dlms.DlmsCosemReader.ReadAssociated | lib/protocols/dlms_cosem/dlms_cosem.cpp:516-535 | AARQ, then scaler_unit, then value, numbered 0, 1, 2, stopping at the first failure |
| Dlms.DlmsCosemReader.ReadRegister | lib/protocols/dlms_cosem/dlms_cosem.cpp:537-544 | whatever answers on the bus: exactly those frames on it, the register's value exactly when every step succeeds, the caller's value otherwise untouched |
| Dlms.DlmsCosemReader.Probe | lib/protocols/dlms_cosem/dlms_cosem.cpp:546-553 | a session that only associates, closed whenever it connected |
| Dlms.DlmsCosemReader.GetEnergy | lib/protocols/dlms_cosem/dlms_cosem.cpp:142-158 | the register in Wh, a thousandth of it returned |
| Dlms.DlmsCosemReader.GetVoltage | lib/protocols/dlms_cosem/dlms_cosem.cpp:160-167 | the voltage register as it is |
| DlmsMeters.ReadsTheRegister | DlmsSim/dlms_meter.py:21-23 | a meter in any state, asked by the frames of a register read, yields its next value times ten to its scaler, exactly if it opens the association, has the register in that unit and the value is a number; and exactly if its value was asked for is the register one value further |
| DlmsMeters.GoodRegister | lib/protocols/dlms_cosem/dlms_cosem.cpp:516-535 | a register holding a number, encoded as any type the meter has, is read as that number times ten to its scaler if asked for in its unit |
| DlmsPolls.RunOnWire | lib/protocols/dlms_cosem/dlms_cosem.cpp:213-225 | the reader's frames as bytes on the bus take the meter through the same states as the frames themselves |
| DlmsPolls.MeterIsHeard | lib/protocols/dlms_cosem/dlms_cosem.cpp:227-241 | every reply the meter sends is heard, through any quiet noise before it and any bytes behind it |
| DlmsPolls.QuietBusIsLinked | lib/protocols/dlms_cosem/dlms_cosem.cpp:227-241 | every meter has such a bus |
| DlmsPolls.Poll | src/nodes/rs485_node.cpp:118-137 | any sequence of get_import(), get_export(), get_voltage() and probe() against the meter: each returns what the meter alone decides, and each read the register's value of that moment, session after session |
| ModbusFrames.ResponseIff | lib/protocols/modbus_rtu/modbus_rtu.cpp:173-201 | a burst is the response of a raw value if and only if it passes the length, slave, function, count and CRC checks and holds that value |
| ModbusFrames.RawIff | lib/protocols/modbus_rtu/modbus_rtu.cpp:173-201 | a value is read from exactly its own response, and never under a function code that marks an exception |
| ModbusFrames.AnswerBytes | lib/protocols/modbus_rtu/modbus_rtu.cpp:173-201 | slave, function, 04, four bytes with the high one first and the CRC are read as that 32 bit number; under an exception's function code as none |
| ModbusFrames.CorruptionRejected | lib/protocols/modbus_rtu/modbus_rtu.cpp:162-166 | no corruption of an admitted frame inside two adjacent bytes is admitted |
| Modbus.ModbusRtuReader.BuildRequest | lib/protocols/modbus_rtu/modbus_rtu.cpp:110-120 | a request for two registers whose CRC checks and from which the address reads back |
| Modbus.ModbusRtuReader.Collect | lib/protocols/modbus_rtu/modbus_rtu.cpp:129-144 | keeps what fits and counts everything |
| Modbus.ModbusRtuReader.ReadFrame | lib/protocols/modbus_rtu/modbus_rtu.cpp:123-170 | lets through exactly bursts of 4 bytes to the limit, from this slave, with a good CRC |
| Modbus.ModbusRtuReader.ReadResponse | lib/protocols/modbus_rtu/modbus_rtu.cpp:173-201 | the raw value of a response, and of nothing else |
| Modbus.ModbusRtuReader.ReadRegister | lib/protocols/modbus_rtu/modbus_rtu.cpp:64-95 | one request, and the value of its response in the configured format; otherwise the caller's value stays |
| Modbus.ModbusRtuReader.MeterAnswerIsRead | lib/protocols/modbus_rtu/modbus_rtu.cpp:64-95 | a meter's answer comes out as its value, and a corruption of it inside two adjacent bytes as none |
| Modbus.ModbusRtuReader.Probe | lib/protocols/modbus_rtu/modbus_rtu.cpp:204-240 | present exactly when the query is echoed or refused |
| Modbus.ModbusRtuReader.ProbeFrames | lib/protocols/modbus_rtu/modbus_rtu.cpp:208-217 | the query is the slave, 08 00 00 A5 5A and a CRC, a refusal the slave, 88, a code and a CRC |
| IecText.MilliRoundTrip | IrSim/ir_meter.py:64-69 | every counter printed with three decimals is read back exactly |
| IecText.MilliAsReal | IrSim/ir_meter.py:64-69 | the decimal read back is a thousandth of the counter as a real number |
| IecText.BccDetectsOne | IrSim/ir_meter.py:30-35 | texts of one length differing in one byte have different check bytes |
| IecLaws.BccJoin | IrSim/ir_meter.py:30-35 | the check byte of a text is the exclusive or of its parts' check bytes, and of one character its own byte |
| IecLaws.MilliShape | IrSim/ir_meter.py:64-69 | a counter below a million kWh is printed in ten characters with three decimals |
| IecLaws.LastDigit | IrSim/ir_meter.py:64-69 | printed digits end on the last decimal digit, behind those of a tenth of the number |
| ObisBlocks.BodyReadsBack | lib/protocols/iec62056_21/iec62056_21.cpp:194-215 | both counters are found under their own codes in a meter's block, whatever precedes it without a colon or a zero |
| IecLaws.ValueEnds | lib/protocols/iec62056_21/iec62056_21.cpp:206-214 | a printed value is read back when an asterisk or a closing bracket follows it, and refused when anything else does that is no part of a number |
| IecReplies.HearsUnframed | lib/protocols/iec62056_21/iec62056_21.cpp:227-243 | an unframed block behind harmless text yields the meter's counters |
| IecReplies.HearsClosed | lib/protocols/iec62056_21/iec62056_21.cpp:74-98 | a framed block with its check byte does too |
| IecLaws.HearsSpelled | lib/protocols/iec62056_21/iec62056_21.cpp:217-249 | the block as it is in the air, 1-0:1.8.0 and 1-0:2.8.0 spelled out, yields its two counters; between STX and ETX exactly if the check byte is the exclusive or of what follows the STX |
| IecLaws.GarbledIsRefused | lib/protocols/iec62056_21/iec62056_21.cpp:74-98 | a framed block in which any one character behind the STX was garbled, wherever that makes it end, is refused |
| IecLaws.GarbledStxIsTaken | lib/protocols/iec62056_21/iec62056_21.cpp:74-76 | one whose STX was garbled is taken as unframed, whatever its check byte |
| IecReplies.HearsIdentification | lib/protocols/iec62056_21/iec62056_21.cpp:142-147 | the identification is read with or without an echo of the request before it |
| IecLaws.JudgedLine | lib/protocols/iec62056_21/iec62056_21.cpp:142-147 | one echo of the request is skipped and no other line |
| IecLaws.VerdictIff | lib/protocols/iec62056_21/iec62056_21.cpp:148-166 | -1 exactly for silence, -2 for what is not a slash, three characters, one more and two or more, -3 for a digit outside 0 to 6, 0 otherwise; the digit is the fifth character |
| IecLaws.RateIff | lib/protocols/iec62056_21/iec62056_21.cpp:100-111 | 0 is 300 baud, each digit up to 6 doubles it, and nothing else is a rate |
| IrMeters.FakeIrMeter.ComputeBcc | IrSim/ir_meter.py:30-35 | exclusive or of all bytes |
| IrMeters.FakeIrMeter.DataBlock | IrSim/ir_meter.py:59-74 | counts both counters up, then reports them, framed or not |
| IrMeters.FakeIrMeter.Handle | IrSim/ir_meter.py:76-100 | a request restarts the session; an awaited ACK for mode 0 and a known rate gets the next block at that rate; everything else is ignored |
| Iec62056.Iec6205621Reader.ReadUntil | lib/protocols/iec62056_21/iec62056_21.cpp:47-60 | everything up to the first terminator, or all there is in time |
| Iec62056.Iec6205621Reader.ReadBytes | lib/protocols/iec62056_21/iec62056_21.cpp:62-72 | the next bytes, as many as wanted or as there are |
| Iec62056.Iec6205621Reader.CheckFrame | lib/protocols/iec62056_21/iec62056_21.cpp:74-98 | lets through exactly unframed blocks and those closed by ETX and the right check byte |
| Iec62056.Iec6205621Reader.RequestIdentification | lib/protocols/iec62056_21/iec62056_21.cpp:113-167 | for arbitrary replies: one request at 300 baud, and the verdict of the first line heard; a linked meter always identifies itself |
| Iec62056.Iec6205621Reader.Handshake | lib/protocols/iec62056_21/iec62056_21.cpp:169-192 | request and at most one ACK, both at 300 baud, and only then the offered rate |
| Iec62056.Iec6205621Reader.ReadData | lib/protocols/iec62056_21/iec62056_21.cpp:227-243 | for arbitrary text: the counters of the block heard, exactly when it is checked and complete |
| Iec62056.Iec6205621Reader.GetImport | lib/protocols/iec62056_21/iec62056_21.cpp:217-249 | every byte leaves at 300 baud whatever comes back; a failure leaves the caller's value and is remembered as such; a linked meter's current counters are returned and remembered |
| Iec62056.Iec6205621Reader.GetExport | lib/protocols/iec62056_21/iec62056_21.cpp:251-257 | after any calls whatever, the export counter of the last get_import(), exactly when there was one and it succeeded; otherwise the caller's value stays |
| Iec62056.Iec6205621Reader.Probe | lib/protocols/iec62056_21/iec62056_21.cpp:264-283 | one request and no ACK; always succeeds on a linked meter |
| Iec62056.Serve | src/nodes/ir_node.cpp:97-112 | any sequence of probes and reads against the simulated meter, framed or not, with or without echo, succeeds each time and returns the counters of that moment, all at 300 baud |

## Left out

- WiFi, ESP-NOW driver calls and semaphores, LoRa SPI, MQTT, TLS, HTTP and JSON: foreign
  libraries; what remains of them is a queue, a lossy channel or an arbitrary result.
- Hardware: pin probes, UART start and loopback, transceiver direction, radio start.
- NVS loaders, serial commands, boot menus and logging, apart from the stored counter.
- `MeterGate`, node poll loops, `CamHttpReader`, `uidToHex`, timestamps: small state.
- ReadingBuffers.ReadingBuffer.Push: each slot is a value (its ring a sequence) inside
  the array of slots, so rings never alias.
- SubstationLinks.SubstationLink.Send: waits end after an arbitrary number of polls instead
  of by the clock, which allows more runs.
- LoRaSpec.EndsWithinBoundIff: the bound needs a limit on the pause between two polls.
- StationRuns.AtMostOnce: needs frames handled in sending order and one UID for each MAC;
  exactly when buffering is at most once is what `Repeats` says.
- Deliveries.BufferedOnce: a frame is repeated only before the next one of its node is
  heard, and storage is not read again after a lost write; beyond that it can fail, as the
  lemmas of `Repeats` and `SeqCounters.LostWriteRepeats` show.
- NodeSpec.AtRest: removePeer() always succeeds; the code does not look at its result.
- SubstationLinks.SubstationLink.Join: the same.
- Duplicates.PublishedTwiceIff: one substation and one gateway; an ACK heard by a second
  substation relaying the same UID is not followed.
- Pipeline.JoinAgreement: each boot of a substation picks an epoch it has not used before;
  the code draws it at random.
- Pipeline.Conservation: takes fresh epochs too, and storage that loses no number. The
  system's messages are those of the state machines; that
  the objects' bytes decode to them is shown by `Wire` and the objects' own contracts. A
  gateway reboot, which loses its queue, is not a step.
- FrameHunt.ReadFrame: sees the bytes that arrive before the timeout, not their times.
- Hdlc.ParseAddress: what a failed parse leaves in the output buffers is not stated.
- Dlms.DlmsCosemReader.GetEnergy: values are exact reals; float and double rounding is
  not modelled, and a float32 word means what a given function says.
- Modbus.ModbusRtuReader.ReadFrame: starts from a collected burst; T3.5 timing and the
  silence before a request are not modelled.
- IecText.MilliRoundTrip: strtof() is decimal and exact; its hexadecimal, infinite and
  not-a-number forms and its rounding are not modelled.
- IrMeters.FakeIrMeter.DataBlock: counters are exact thousandths, not Python floats.
- Iec62056.Iec6205621Reader.ReadUntil: waits are windows of arbitrary arrivals on an
  unbounded clock; the 2 s idle of a probe is one such window.
- The diagnostic code of a rejected association and data access results: only logged.
- DlmsSim and ModbusSim wrap libraries: `DlmsMeters` is a meter that answers as the first is
  asked to, not a model of its library. The board meter firmware is a second copy.
