# Verification of the embedded-controller services

Dafny models of the parts of this repository where state, arithmetic or interleaving make it hard to see
that the code is right, with proofs of what they are for.

- **MCTP** (`BufferEncoding`, `TransportHeader`, `Chunking`, `Fragmentation`, `Reassembly`, `MessageIdentity`,
  `MctpRoundTrip`, `MctpMessageRuns`, `FrameCheck`, `SerialFraming`, `MctpOverSerial`): a sender that cuts a message
  into packets under a budget of wire bytes, with or without byte stuffing; a receiver that assembles them; the
  serial framing in between. Packet fields are those of section 8.1 of DSP0236, the stuffing is that of section 4.2 of RFC 1662
  and section 6.4 of DSP0253.
- **Wake timers** (`WakeTimer`, `WakeTimerRuns`, `WakeTimerWakes`, `WakeTimerPair`): a timer, its latest-value-wins
  signal and its runner task as one transition system, then the AC and the DC timer together. ACPI 6.4, section 9.18.
- **Deferred calls** (`DeferredChannel`): two overwriting slots, a lock and request IDs, with callers that may
  be cancelled at any await.
- **Firmware update** (`CfuBuffer`, `CfuRecovery`, `CfuAnswers`, `SliceJoin`): the block buffer, the time-out and
  recovery machine with what it writes and answers, and the mapping of slices in groups of four.
- **HID over I2C** (`HidCommand`, `HidTarget`, `HidHost`, `HidLayout`): the command encoder and two independently
  written readers. Section 7.1.1 of the HID over I2C specification.
- **Algorithms** (`GhostKeys`, `IntrusiveList`): ghost detection on bit-packed columns, and the intrusive list.

Code that changes state in place is a class or a method on arrays, proved against a function on values; the
theorems about runs are about those functions. An await is the boundary of an atomic step, and a run is a
sequence of steps in any order; a step that cannot happen in a state changes nothing. Outcomes that the code
does not decide (device results, clock readings, what arrives when) are parameters. Automatic
induction is switched off: every induction is a recursive call. `dafny verify dfyconfig.toml` checks the
project.

## What the proofs found

Where the code and what its documentation or tests promise part, the model follows the code, and the exact
condition under which the promise holds is proved.

- The receiver never advances its stored sequence number, although the sender advances it for every packet
  and DSP0236 has it do so: messages of three packets and more are not delivered, and some are delivered with
  packets missing (`RoundTripAsWritten`, `ThirdPacketRefused`, `LongMessageMayBeTruncated`). The results for
  longer messages are about the variant `StoresReceived`, in which an accepted packet's number is stored; there
  the sender's 8-bit packet counter sets the limit, 256 packets (`DeliveredWhole`). A long message whose last
  packet is refused leaves the receiver waiting, and the next message is lost as well (`NextGetsThrough`).
- `frame_complete` takes a byte count of 0x7E for the end flag, since the count is not stuffed
  (`FrameCompleteFindsEnd`).
- The serial parser lets check bytes through that are bare flags (`AcceptedIsFrame`, `BareCheckByteExists`); it
  takes a caller that does not cut with `frame_complete` to meet them (`CutPacketIsFrame`).
- The UART service takes a single frame for a whole message, drops what follows it and has a receiver made for it
  alone, so it gets one-packet messages only (`ReaderDelivers`).
- A stale wait can wake the host before a policy delay is over (`StaleWaitCutsPolicyDelay`, and exactly when,
  `DelayWaitedExactly`).
- With two handlers on a deferred channel, a cancelled caller's late response can overwrite a live one's
  (`TwoHandlersLoseARequest`, and exactly when, `LostExactly`).
- A pending reply of a buffered component can be overtaken and then reach the host out of order
  (`PendingReplyIsOvertaken`, and exactly when, `SortedIffNoneStale` and `StaleIffOvertaken`).
- A queued block that cannot be sent when its turn comes is lost (`UnsentBufferedIsLost`).
- The HID device skips a byte of report data that the encoder does not write when report IDs are explicit
  (`ExplicitIdsRefuseReports`); payloads over 65533 bytes are cut (`DeviceRecoversCommand`); the host service
  looks for the values of set-idle and set-protocol in the command word (`HostRecoversCommand`).

## Model

| member | source | states |
|---|---|---|
| `BufferEncoding.WireSizeIsWireLength` | mctp-rs/src/buffer_encoding.rs:57-61 | For both encodings the declared wire size of any bytes is the length of what writing them produces. |
| `BufferEncoding.WireSizeAdditive` | mctp-rs/src/serialize.rs:61-67 | Wire size is additive over concatenation, which the chunking loop takes for granted. |
| `BufferEncoding.WireSizeBounds` | mctp-rs/src/buffer_encoding.rs:57-61 | A byte costs one or two wire bytes: no encoding shrinks and none more than doubles. |
| `BufferEncoding.DecodeInvertsEncode` | mctp-rs/src/buffer_encoding.rs:45-62 | Reading as many bytes as were written gives the same bytes back, uses exactly the wire bytes written, and looks at nothing behind them. |
| `BufferEncoding.EncodeInvertsDecode` | mctp-rs/src/medium/serial.rs:59-73 | The other direction: bytes that decode re-encode to the same wire exactly when the wire held no bare 0x7E, which the decoder lets through. |
| `BufferEncoding.StuffedHasNoFlag` | mctp-rs/src/medium/serial.rs:30-57 | Stuffed bytes never contain the flag 0x7E. |
| `BufferEncoding.StuffingInNumbers` | mctp-rs/src/medium/serial.rs:30-73 | What stuffing writes for each byte, in numbers, and exactly which wires cannot be read and why. |
| `BufferEncoding.DecodePrefix` | mctp-rs/src/buffer_encoding.rs:119-123 | Reading goes strictly left to right: what a shorter read gives is a prefix of what a longer one gives. |
| `BufferEncoding.WriteByte` | mctp-rs/src/medium/serial.rs:30-57 | Writes the one or two wire bytes of a byte into a slice exactly when they fit; otherwise the buffer is unchanged. |
| `BufferEncoding.EncodingEncoder.Write` | mctp-rs/src/buffer_encoding.rs:148-155 | Appends the encoding of the byte, or fails with cursor and buffer untouched, exactly when there is too little room. |
| `BufferEncoding.EncodingEncoder.WriteAll` | mctp-rs/src/buffer_encoding.rs:157-165 | Succeeds exactly when the wire size of the bytes fits; the cursor moves by that size. On failure exactly the bytes before the first that does not fit are written. |
| `BufferEncoding.EncodingDecoder.Read` | mctp-rs/src/buffer_encoding.rs:115-123 | Returns the next decoded byte and moves the cursor over its wire bytes; a failed read moves nothing. |
| `TransportHeader.HeaderRoundTrip` | mctp-rs/src/mctp_transport_header.rs:6-19 | Header to bytes and back is the identity exactly when both endpoint IDs are canonical, that is, have no other bit pattern. |
| `TransportHeader.ParsedHeaderReencodes` | mctp-rs/src/mctp_transport_header.rs:6-19 | Four bytes that parse are the bytes of the header they parse to, and that header is canonical. |
| `TransportHeader.EndpointRoundTrip` | mctp-rs/src/endpoint_id.rs:22-41 | An endpoint ID survives its bits exactly when it is canonical: 0, 0xFF or 0x08 to 0xFE. |
| `TransportHeader.HeaderCost` | mctp-rs/src/serialize.rs:92-119 | With the tag owner bit clear the flags byte is never stuffed, so the wire cost of a header depends on its endpoint IDs only. |
| `TransportHeader.HeaderInNumbers` | mctp-rs/src/mctp_transport_header.rs:6-19 | Where each field of the header stands in its four bytes, in numbers. |
| `TransportHeader.HeaderUnreadable` | mctp-rs/src/endpoint_id.rs:22-41 | A header cannot be read exactly if one of its endpoint IDs is a reserved one, 1 to 7. |
| `Chunking.GreedyIsUnique` | mctp-rs/src/serialize.rs:61-78 | Only one prefix length fits the budget with no room for one byte more. |
| `Chunking.ChunksFlatten` | mctp-rs/src/serialize.rs:61-90 | Cutting greedily loses and reorders nothing. |
| `Chunking.ChunkAt` | mctp-rs/src/serialize.rs:61-90 | Every greedy chunk is non-empty and fits, and none had room for the first byte of the next. |
| `Chunking.SuffixNeedsNoMore` | mctp-rs/src/serialize.rs:61-90 | A suffix of a message never needs more chunks than the message. |
| `Chunking.GreedyUsesFewest` | mctp-rs/src/serialize.rs:61-90 | The greedy cut is optimal under stuffing too: no cut into chunks that fit has fewer. |
| `Chunking.PassthroughChunkCount` | mctp-rs/src/serialize.rs:61-90 | Without stuffing the number of chunks is the message size over the budget, rounded up. |
| `Fragmentation.MediumBudgets` | mctp-rs/src/medium/smbus_espi.rs:66-108 | The wire bytes a packet may take on either medium, as a function of the buffer. |
| `Fragmentation.HeaderWireIsFixed` | mctp-rs/src/serialize.rs:92-119 | Setting end-of-message or advancing the sequence number never changes what the header costs, so measuring it before chunking is safe. |
| `Fragmentation.SendAllSucceeds` | mctp-rs/src/serialize.rs:24-138 | Sending succeeds exactly when a packet has room for the header and the costliest byte of the message; the packets are then the greedy chunks under the headers of `FragmentHeaderAt`. |
| `Fragmentation.FragmentsCarryTheMessage` | mctp-rs/src/serialize.rs:24-138 | The packet bodies concatenate to the message, and no other cut within the same wire budget uses fewer packets. |
| `Fragmentation.FragmentHeaderAt` | mctp-rs/src/serialize.rs:36-50 | Sequence numbers rise by one modulo four, end-of-message is on the last packet only, start-of-message where the 8-bit packet number is zero; endpoints are swapped and the tag kept. |
| `Fragmentation.FragmentFits` | mctp-rs/src/serialize.rs:53-87 | Every packet fits the wire budget, carries at least one message byte, and only the last may have room left for the next byte. |
| `Fragmentation.StartMarksFirstOnly` | mctp-rs/src/serialize.rs:38-38 | Start-of-message is on the first packet only, for up to 256 packets; the 257th carries it again. |
| `Fragmentation.PassthroughPacketCount` | mctp-rs/src/serialize.rs:53-87 | Under passthrough the packet count is the message size over the payload room, rounded up. |
| `Fragmentation.SmbusPacketCount` | mctp-rs/src/medium/smbus_espi.rs:106-108 | On SMBus, with room for full packets, 28 message bytes a packet. |
| `Fragmentation.NextFits` | mctp-rs/src/serialize.rs:53-87 | Whatever packet one call makes fits the wire budget, whether or not the run it belongs to succeeds. |
| `Fragmentation.NextFails` | mctp-rs/src/serialize.rs:33-119 | Which error one call gives and exactly when; every error but that of the medium uses up a sequence number, and none uses up anything else. |
| `Fragmentation.SerializePacketState.Next` | mctp-rs/src/serialize.rs:24-138 | One call of `next` on its buffer: `None` at the end, the stuffed region of the next packet in its place, or the error, with the new sender state in every case and nothing in front of the region touched. |
| `Fragmentation.SerializePacketState.ChoosePacket` | mctp-rs/src/serialize.rs:33-119 | The chunk, header and new state chosen; the error after setting end-of-message cannot happen; a failure drops no message byte. |
| `Fragmentation.SerializePacketState.ChunkSize` | mctp-rs/src/serialize.rs:68-78 | The byte-by-byte loop finds the longest prefix that fits and adds up its exact wire size. |
| `Fragmentation.SerializePacketState.WritePacket` | mctp-rs/src/serialize.rs:121-128 | Header and body go through the encoder without ever running out of room. |
| `Reassembly.AcceptedAppends` | mctp-rs/src/mctp_packet_context.rs:95-147 | An accepted packet appends exactly its payload; a message is delivered, made of everything assembled, exactly on end-of-message. |
| `Reassembly.RefusedKeepsAssembly` | mctp-rs/src/mctp_packet_context.rs:46-145 | A refused packet leaves the state and the assembled bytes as they were, even if decoding failed mid-body; the one exception is an empty message, refused after the return to idle. |
| `Reassembly.AssembledIsCollected` | mctp-rs/src/mctp_packet_context.rs:46-145 | Over any sequence of packets, good or bad, the assembled prefix is the concatenation of the payloads accepted since the start-of-message packet. |
| `Reassembly.DeliveredIsCollected` | mctp-rs/src/mctp_packet_context.rs:127-141 | A delivered message is the concatenation of the payloads accepted since its start, whatever came before. |
| `Reassembly.RefusedIsInvisible` | mctp-rs/src/mctp_packet_context.rs:46-145 | Leaving a refused packet out of a run changes no later outcome, although it may have left stray bytes behind the prefix. |
| `MessageIdentity.AcceptedContinues` | mctp-rs/src/mctp_packet_context.rs:60-92 | A packet taken in the middle of a message is not a first one and has the tag, tag owner and source of the message and the next sequence number. |
| `MessageIdentity.AcceptedExactly` | mctp-rs/src/mctp_packet_context.rs:46-145 | A packet is taken exactly if its header is readable and belongs to what is being assembled, its size covers the header and fits the buffer, its bytes decode, and it does not end an empty message. |
| `MessageIdentity.RefusedFor` | mctp-rs/src/mctp_packet_context.rs:50-92 | The reason for refusing each packet that does not belong: start, tag, tag owner, source and sequence number, in this order. |
| `MessageIdentity.RefusedUnread` | mctp-rs/src/deserialize.rs:20-43 | The reason for refusing each packet without a readable header. |
| `MessageIdentity.RefusedForSize` | mctp-rs/src/mctp_packet_context.rs:95-124 | The reason for refusing each packet that belongs, for its size or its body. |
| `MessageIdentity.AcceptedRemembers` | mctp-rs/src/mctp_packet_context.rs:82-147 | What the receiver remembers of a message after a packet that does not end it. |
| `MessageIdentity.MembersAreOneMessage` | mctp-rs/src/mctp_packet_context.rs:46-147 | In every reachable state the packets taken so far are of one message: only the first is a start, all have one tag, tag owner and source, the sequence numbers follow the one that is remembered, and what is assembled is their payloads. |
| `MessageIdentity.DeliveredIsOneMessage` | mctp-rs/src/mctp_packet_context.rs:46-147 | Over any run of packets, a delivered message is made of the payloads of packets of one message, from the one marked as the start to the one marked as the end; packets of another message are never spliced in. |
| `MessageIdentity.DeliveredFields` | mctp-rs/src/mctp_packet_context.rs:127-141 | A delivered message has the addresses, tag and sequence number of its last packet, and integrity bit, type and body make up the bytes assembled. |
| `Reassembly.MctpPacketContext.DeserializePacket` | mctp-rs/src/mctp_packet_context.rs:42-148 | The method on its buffer does what `Receive` says: outcome, state and every byte of the assembly buffer. |
| `Reassembly.MctpPacketContext.ReadTransportHeader` | mctp-rs/src/deserialize.rs:20-43 | Reads four decoded bytes through the cursor and parses them, or returns the mapped error. |
| `Reassembly.MctpPacketContext.ReadBody` | mctp-rs/src/mctp_packet_context.rs:116-124 | Decodes the payload byte by byte into the buffer; on failure the bytes decoded before it are in place. |
| `Reassembly.MctpPacketContext.SerializePacket` | mctp-rs/src/mctp_packet_context.rs:150-180 | Refused while a message is being assembled; otherwise the message is at the front of the buffer and the sender works behind it. |
| `MctpRoundTrip.DeliveredWhole` | mctp-rs/src/mctp_packet_context.rs:42-148 | For the receiver as written and for the variant: a message is delivered whole exactly up to 2 and up to 256 packets; the last packet of a longer one is refused, or a strictly shorter message is delivered as if complete. |
| `MctpRoundTrip.RoundTripAsWritten` | mctp-rs/src/mctp_packet_context.rs:42-148 | The receiver as written delivers a message of any conforming sender exactly if it took one or two packets. |
| `MctpRoundTrip.ThirdPacketRefused` | mctp-rs/src/mctp_packet_context.rs:82-92 | The third packet of every longer message is refused with the receiver unchanged, because the stored sequence number is never advanced. |
| `MctpRoundTrip.LongMessageMayBeTruncated` | mctp-rs/src/mctp_packet_context.rs:82-92 | For longer messages the last packet is refused, unless the packet count is 2 modulo 4: then a strictly shorter message is delivered as if complete. |
| `MctpRoundTrip.OutcomeInRun` | mctp-rs/src/mctp_packet_context.rs:42-148 | What the receiver returns for each packet of a message of any length, as written and in the variant that stores the received sequence number. |
| `MctpRoundTrip.RoundTripStoringSequence` | mctp-rs/src/mctp_packet_context.rs:42-148 | In the variant that stores the received number, every message of up to 256 packets is delivered byte for byte by its last packet and by no other. |
| `MctpRoundTrip.WrappedCounterRefused` | mctp-rs/src/serialize.rs:132-135 | Beyond 256 packets, in the variant, the first four of each 256 are refused and all others taken; the message is never delivered whole, but a shorter one may be. |
| `MctpMessageRuns.GetsThroughExactly` | mctp-rs/src/mctp_packet_context.rs:42-148 | Whatever state the receiver is in, a message gets through exactly if the receiver is idle and the message takes no more packets than can be taken whole. |
| `MctpMessageRuns.BusyRefusesStart` | mctp-rs/src/mctp_packet_context.rs:60-63 | A receiver in the middle of a message refuses the first packet of any other and stays as it is. |
| `MctpMessageRuns.IdleAfterMessage` | mctp-rs/src/mctp_packet_context.rs:127-145 | An idle receiver is idle again after a message exactly if it takes the last packet. |
| `MctpMessageRuns.NextGetsThrough` | mctp-rs/src/mctp_packet_context.rs:42-148 | After any number of messages ended so, and one more, the next gets through exactly if the last packet of that one was taken too and the next is short enough. |
| `MctpMessageRuns.EndsTakenAsWritten` | mctp-rs/src/mctp_packet_context.rs:82-92 | As written, a message shuts out the next exactly if it took more than two packets and not 2 modulo 4. |
| `MctpRoundTrip.DeliveredTypeAndBody` | mctp-rs/src/deserialize.rs:45-69 | Message type and body come out as they went in exactly for types below 0x80. |
| `MctpRoundTrip.ReplyGoesBack` | mctp-rs/src/serialize.rs:39-50 | Every packet of a reply goes to the source of the message answered, from its destination, with its tag and the following sequence numbers. |
| `SerialFraming.FrameRoundTrip` | mctp-rs/src/medium/serial.rs:139-295 | Any body the byte count admits comes back out of its frame with its decoded length and its stuffed bytes, for any checksum. |
| `SerialFraming.Redecode` | mctp-rs/src/medium/serial.rs:239-259 | Reading the stuffed region back gives the body that was written, or the error exactly if it exceeds 251 bytes; reading cannot fail. |
| `SerialFraming.FinishFrame` | mctp-rs/src/medium/serial.rs:236-294 | In place, around the region the writer left: head, stuffed check bytes and end flag make the frame of the body, the rest of the buffer is untouched, and writing them cannot fail. |
| `SerialFraming.NextFrame` | mctp-rs/src/serialize.rs:24-138 | The sender on the serial medium, framing included: each packet stands in the buffer as the frame of its bytes, which fit the byte count. |
| `SerialFraming.AcceptedIsFrame` | mctp-rs/src/medium/serial.rs:139-215 | An accepted packet is, byte for byte, the frame of the body it carries exactly when there is no bare flag between head and end, that is, no check byte was sent as one. |
| `SerialFraming.BareCheckByteAccepted` | mctp-rs/src/medium/serial.rs:183-192 | For every body whose checksum has a flag in it and no escape, the packet with unstuffed check bytes is accepted and is not its frame. |
| `SerialFraming.BareCheckByteExists` | mctp-rs/src/medium/serial.rs:98-102 | With the checksum the medium uses there is such a body, the byte 0x3C. |
| `FrameCheck.CheckValue` | mctp-rs/src/medium/serial.rs:98-102 | The checksum as defined here has the published check value of CRC-16/X-25. |
| `FrameCheck.DamageDetected` | mctp-rs/src/medium/serial.rs:200-211 | Any change of one byte, or of two neighbouring ones, changes the checksum, wherever it is. |
| `SerialFraming.DamagedBodyRefused` | mctp-rs/src/medium/serial.rs:139-211 | A packet whose body was changed in one byte or in two neighbouring ones is refused for its checksum. |
| `SerialFraming.HeadRefused` | mctp-rs/src/medium/serial.rs:144-156 | Exactly which packets are refused for their length, revision and byte count; a leading flag is skipped when the end is looked for. |
| `SerialFraming.BodyRefused` | mctp-rs/src/medium/serial.rs:158-178 | Exactly which bodies cannot be read and why: a bare flag before anything else, the wire ending, a bad escape. |
| `SerialFraming.TrailerErrors` | mctp-rs/src/medium/serial.rs:179-211 | Exactly which trailers are refused and why: check bytes, end flag, what follows it, checksum. |
| `SerialFraming.CutPacketIsFrame` | mctp-rs/src/medium/serial.rs:297-317 | What is cut off with `frame_complete` and accepted is always exactly the frame of its body. |
| `SerialFraming.FrameCompleteFindsEnd` | mctp-rs/src/medium/serial.rs:297-317 | The end of a frame is found whatever follows it, exactly when the body is not 0x7E bytes long; then the byte count is taken for the end. |
| `SerialFraming.FrameIncomplete` | mctp-rs/src/medium/serial.rs:297-317 | While a frame is still arriving the answer is "not yet", with the same single exception. |
| `SerialFraming.EndFoundInTime` | mctp-rs/src/medium/serial.rs:297-317 | Of any line that begins with a frame, however much of it is there, the end is found as soon as it has come and not before. |
| `MctpOverSerial.LineRoundTrip` | mctp-rs/src/medium/serial.rs:139-317 | Framed packets on one line are cut apart and parsed into the frames that were sent exactly when none has 0x7E bytes. |
| `MctpOverSerial.MessageOverSerial` | mctp-rs/src/medium/serial.rs:129-317 | Sender, framing, cutting, parsing and receiver, storing the sequence number, deliver the message end to end. |
| `MctpOverSerial.WaitForPacket` | uart-service/src/lib.rs:108-132 | The reading loop of the UART service on its 256-byte buffer, for any sizes of the reads. |
| `MctpOverSerial.ReaderCutsFrame` | uart-service/src/lib.rs:108-132 | However the line is broken up into reads, the first frame is cut off, unless it has 0x7E bytes or does not fit the buffer. |
| `MctpOverSerial.ReaderGivesUp` | uart-service/src/lib.rs:108-132 | A line on which no frame ends is given up when it closes, or when 256 bytes are there. |
| `MctpOverSerial.ReaderDelivers` | uart-service/src/lib.rs:108-145 | The UART service gets the message of a sender exactly if it took one packet, whose frame fits its buffer and does not have 0x7E bytes. |
| `WakeTimer.ExpiryWordRoundTrip` | time-alarm-service/src/timer.rs:61-78 | The persisted word gives an expiry time back exactly when it is before the last 32-bit second. |
| `WakeTimer.Timer.Start` | time-alarm-service/src/timer.rs:117-137 | Restores policy, expiry and activity from storage, stopping at the first step that fails. |
| `WakeTimer.Timer.SetTimerWakePolicy` | time-alarm-service/src/timer.rs:158-174 | Stores the policy and, during a policy delay, restarts the delay and signals it; a clock failure then changes nothing. |
| `WakeTimer.Timer.SetExpirationTime` | time-alarm-service/src/timer.rs:176-203 | Programs or clears the timer: new state, storage, status and pending signal. |
| `WakeTimer.Timer.SetActive` | time-alarm-service/src/timer.rs:210-275 | Power-source change: suspends or resumes a policy delay with the seconds already spent. |
| `WakeTimer.Timer.ProcessExpiredTimer` | time-alarm-service/src/timer.rs:310-382 | What happens at the end of a wait in each of the five wake states, with and without a working clock. |
| `WakeTimerRuns.NoLostWakeUp` | time-alarm-service/src/timer.rs:158-388 | In every reachable state of timer, signal and runner, an armed or policy-delayed timer has a deadline pending or running; a policy delay implies active, a wait for the power source inactive. |
| `WakeTimerRuns.ExpiryWhileInactiveStartsAtZero` | time-alarm-service/src/timer.rs:363-376 | So the branch for an inactive timer in a policy delay is never taken: waiting for the power source always starts with zero seconds used. |
| `WakeTimerRuns.AtMostOneWakePerProgramming` | time-alarm-service/src/timer.rs:176-382 | Over any run, wakes are at most as many as programmings, plus one if the timer was alive to begin with. |
| `WakeTimerRuns.ExpiryIsLastProgrammed` | time-alarm-service/src/timer.rs:176-203 | The stored expiry is the time programmed last and not since cleared or used up. |
| `WakeTimerRuns.WakesAreDue` | time-alarm-service/src/timer.rs:310-382 | A wake on a working clock comes while the timer is active and not before the programmed time, and leaves it clear, unprogrammed and with policy NEVER. |
| `WakeTimerRuns.PolicyDelayAccounting` | time-alarm-service/src/timer.rs:210-275 | Across any power-source changes the stored seconds equal the time the timer was active since it expired or since a policy written during the delay. |
| `WakeTimerRuns.ActivationSignalsRemainder` | time-alarm-service/src/timer.rs:221-233 | Each return of the power source signals the policy minus exactly that time. |
| `WakeTimerRuns.DelayWaitedExactly` | time-alarm-service/src/timer.rs:277-382 | In any state a run reaches with a policy delay running, the next wake comes only after the whole delay exactly if the wait the runner is in, and the expiry time, outlast what is left of it. |
| `WakeTimerRuns.PolicyDelayIsWaited` | time-alarm-service/src/timer.rs:277-382 | In particular if the runner had already heard of the delay when its wait ended. |
| `WakeTimerRuns.StaleWaitCutsPolicyDelay` | time-alarm-service/src/timer.rs:277-382 | A run in which the wait does not outlast the delay, and the host is woken with none of 100 seconds waited. |
| `WakeTimerRuns.ArmedDeadlineIsExact` | time-alarm-service/src/timer.rs:176-203 | On one clock the deadline in effect for an armed timer is exactly the time left when it was worked out, so the wait ends at the expiry time, late only by what the runner took to hear of it. |
| `WakeTimerRuns.TimerValueRoundTrip` | time-alarm-service/src/lib.rs:215-252 | Reading a programmed timer later gives the seconds left, at every later time exactly when the expiry fits the persisted word. |
| `WakeTimerWakes.WakesExactly` | time-alarm-service/src/timer.rs:310-382 | In any state, the host is woken exactly at the end of a wait that finds an expiry time stored and past, or the clock failing, with the timer active. On the wrong power source the timer is then orphaned exactly if its policy is NEVER, and waits for the power source otherwise, marked as expired. |
| `WakeTimerWakes.EarlyEndWaitsOn` | time-alarm-service/src/timer.rs:333-342 | The end of a wait before the expiry time asks for exactly the time left. |
| `WakeTimerWakes.WaitEndsOnTime` | time-alarm-service/src/timer.rs:277-382 | Over any run on one clock: a wait that the runner took up for the deadline in effect ends when the timer is due, so an armed or policy-delayed timer wakes the host at that end exactly if it is active. |
| `WakeTimerWakes.ActiveTimerWakes` | time-alarm-service/src/timer.rs:277-382 | From every state a run on one clock reaches with an active timer waiting: once the runner has heard of the deadline, the end of its wait wakes the host, whenever it comes. |
| `WakeTimerWakes.FailedActivationWakes` | time-alarm-service/src/timer.rs:235-245 | In any run, if the clock fails when the power source comes back, the runner is told to wait for nothing, and the end of that wait wakes the host. |
| `WakeTimerWakes.FailedDeactivationWakes` | time-alarm-service/src/timer.rs:259-268 | In any run, if the clock fails when the power source goes, the policy delay counts as over when it comes back. |
| `WakeTimerWakes.SettingsAreKept` | time-alarm-service/src/timer.rs:139-388 | Over any run: the policy is the one written last, or NEVER after a wake; activity is the power source told last; the status is what has happened since its last reset; a cleared timer is not waited for. |
| `WakeTimerWakes.FailuresChangeLittle` | time-alarm-service/src/timer.rs:158-203 | Exactly when writing a policy and programming a time fail, and that they change nothing then, but for the status in the second case. |
| `WakeTimerPair.PairRefinesSingle` | time-alarm-service/src/lib.rs:254-288 | Each of the two timers of the service goes through a run of a single timer, so all results about runs hold of both. |
| `WakeTimerPair.OneTimerActive` | time-alarm-service/src/lib.rs:254-266 | Exactly one of the AC and DC timers is active at any time. |
| `WakeTimerPair.ActiveIsLastSource` | time-alarm-service/src/lib.rs:254-266 | The active timer is that of the power source told last, AC at first. |
| `WakeTimerPair.PairConsistent` | time-alarm-service/src/lib.rs:254-288 | Neither timer of the service ever loses a wake-up. |
| `WakeTimerPair.WakeSilencesOther` | time-alarm-service/src/lib.rs:271-279 | A wake of one timer sets the other's policy to NEVER and changes nothing else of it; the failure that the code warns about cannot happen, even with a failing clock. |
| `WakeTimerPair.PairWakesBounded` | time-alarm-service/src/lib.rs:268-288 | Each timer wakes the host at most once per programming by the host, whatever happens to the other. |
| `WakeTimerPair.Service.PowerSourceUpdate` | time-alarm-service/src/lib.rs:254-266 | The timer of the other power source goes inactive, then the new one active. |
| `WakeTimerPair.Service.TimerWaitOver` | time-alarm-service/src/lib.rs:268-279 | The end of a timer's wait, and the policy of the other timer if it woke the host. |
| `WakeTimerPair.Service.SetTimerValue` | time-alarm-service/src/lib.rs:215-234 | Programs the timer the given seconds ahead, clears it for the disabled value, changes nothing if the clock fails first. |
| `WakeTimerPair.Service.GetTimerValue` | time-alarm-service/src/lib.rs:237-252 | A timer programmed some seconds ahead reads as the seconds still left, at any later time; disabled exactly if no expiry is stored, a clock failure only where one is. |
| `DeferredChannel.ExecuteReturnsOwnResponse` | embedded-service/src/ipc/deferred.rs:41-101 | A call returns only what a handler answered to its own command, under any interleaving of callers, cancellations and any number of handlers; no answer goes to two callers. |
| `DeferredChannel.SlotsHoldLatest` | embedded-service/src/ipc/deferred.rs:41-101 | Over any run, each of the two slots holds what was last put into it and not taken since; cancelled calls and dropped requests leave both as they are. |
| `DeferredChannel.ForeignResponsesBounded` | embedded-service/src/ipc/deferred.rs:52-62 | A call discards at most one foreign response more than there are handlers: two with one handler. |
| `DeferredChannel.DiscardedAreForeign` | embedded-service/src/ipc/deferred.rs:52-62 | What a call has discarded is exactly the number of its polls that found another request's response. |
| `DeferredChannel.PollEmptiesSlot` | embedded-service/src/ipc/deferred.rs:52-62 | In any run, a poll that finds a response empties the slot; it ends the call, frees the lock and returns that response exactly if the response is the call's own. |
| `DeferredChannel.LiveRequestNeverLost` | embedded-service/src/ipc/deferred.rs:48-101 | With one handler that answers all it receives, the live request is always in exactly one of command slot, handler and response slot. |
| `DeferredChannel.ExecuteMakesProgress` | embedded-service/src/ipc/deferred.rs:48-101 | Under the same condition some step towards the return of the call is always possible, none sets it back, and at most six are needed. |
| `DeferredChannel.LostExactly` | embedded-service/src/ipc/deferred.rs:48-101 | A live call is lost exactly if, since it was issued, another response was put over its own or the handler holding it dropped it. |
| `DeferredChannel.LostByStep` | embedded-service/src/ipc/deferred.rs:48-101 | One step loses a live request exactly in these two ways. |
| `DeferredChannel.OneHandlerLosesNothing` | embedded-service/src/ipc/deferred.rs:68-101 | With one handler that answers all it receives no step is of that kind. |
| `DeferredChannel.TwoHandlersLoseARequest` | embedded-service/src/ipc/deferred.rs:48-101 | A run of two handlers that loses the live call. |
| `DeferredChannel.LostForever` | embedded-service/src/ipc/deferred.rs:48-101 | No step but its own cancellation ever ends such a call. |
| `DeferredChannel.Channel.BeginExecute` | embedded-service/src/ipc/deferred.rs:48-51 | Takes the lock and the next ID and overwrites the command slot. |
| `DeferredChannel.Channel.PollResponse` | embedded-service/src/ipc/deferred.rs:52-62 | Takes whatever response is there; only its own ends the call and frees the lock. |
| `DeferredChannel.Channel.Receive` | embedded-service/src/ipc/deferred.rs:68-75 | Takes the command out of its slot. |
| `DeferredChannel.Channel.Respond` | embedded-service/src/ipc/deferred.rs:99-101 | Overwrites the response slot. |
| `DeferredChannel.Channel.CancelExecute` | embedded-service/src/ipc/deferred.rs:48-49 | Dropping the call releases the lock and leaves both slots as they are. |
| `CfuBuffer.BlocksConserved` | cfu-service/src/buffer.rs:145-306 | Over any run of content traffic the blocks sent followed by the blocks queued are the blocks accepted, in order, and one block is in flight exactly when the component is marked busy, otherwise none. |
| `CfuBuffer.HostBeforeQueueBreaksOrder` | cfu-service/src/buffer.rs:244-274 | This rests on polling the queue before the host: taking a host block first for an idle component keeps the order only if the queue is empty or all alike. |
| `CfuBuffer.RepliesReportedOnce` | cfu-service/src/buffer.rs:145-306 | Each block is answered once, under its own sequence number, and each reply of the component is passed on at most once. |
| `CfuBuffer.AnswerComesFrom` | cfu-service/src/buffer.rs:177-229 | Which reply answers a block: one in time, else the pending one unless the block drops it. Of a content response the host hears its status under the number of the block, of anything else all; with no reply, success. |
| `CfuBuffer.AnswersConveyReplies` | cfu-service/src/buffer.rs:145-306 | Over any run, every answer is the status of one of the component's replies, or success, and the replies so used are those reported, each once. |
| `CfuBuffer.FailuresAreRejected` | cfu-service/src/buffer.rs:158-229 | A block that cannot be sent, or whose reply fails, is rejected under its own number, with exactly this state afterwards; a late reply that fails counts as a rejection with number zero. |
| `CfuBuffer.UnsentBufferedIsLost` | cfu-service/src/buffer.rs:281-298 | A queued block that is taken up and cannot be sent has left the queue and is lost, with a rejection under its own number. |
| `CfuBuffer.PendingReplyIsOvertaken` | cfu-service/src/buffer.rs:186-218 | A run in which two replies reach the host in the wrong order. |
| `CfuBuffer.SortedIffNoneStale` | cfu-service/src/buffer.rs:186-218 | The host hears the replies in the order in which the component gave them exactly if no block is ever answered with a pending reply older than one already heard. |
| `CfuBuffer.StaleIffOvertaken` | cfu-service/src/buffer.rs:186-218 | The pending reply is older than one already heard exactly if a reply that came in time has overtaken it and it has been pending since. |
| `CfuBuffer.TurnSorts` | cfu-service/src/buffer.rs:186-218 | One turn keeps the order exactly if it does not answer a block with such a reply. |
| `CfuBuffer.OvertakenButDropped` | cfu-service/src/buffer.rs:151-154 | An overtaken reply that a new update drops: the order is not broken. |
| `CfuBuffer.RepliesAccountedFor` | cfu-service/src/buffer.rs:145-306 | Every reply of the component is passed on, thrown away by a new update or by the next reply, or still pending. |
| `CfuBuffer.Buffer.ProcessGiveContent` | cfu-service/src/buffer.rs:145-230 | The response and the new state for a block, in every combination of busy, sent, timed out and pending. |
| `CfuBuffer.Buffer.WaitForEvent` | cfu-service/src/buffer.rs:244-274 | The biased choice of the next event. |
| `CfuBuffer.Buffer.ProcessBuffered` | cfu-service/src/buffer.rs:281-298 | Sends a queued block without waiting for its reply. |
| `CfuBuffer.Buffer.ProcessReply` | cfu-service/src/buffer.rs:299-304 | Keeps a late reply for the next block. |
| `CfuRecovery.SoundThroughout` | cfu-service/src/basic/event_receiver.rs:44-89 | Whatever arrives, the tick count stays below the time-out and the deadline is the largest instant exactly while idle. |
| `CfuRecovery.InProgressUntilTimeout` | cfu-service/src/basic/event_receiver.rs:55-77 | An update neither ended nor started again counts exactly the ticks and stays in progress, without an abort, as long as they fall short of the time-out. |
| `CfuRecovery.RecoveryOnTheLastTick` | cfu-service/src/basic/event_receiver.rs:64-74 | The very tick that reaches the time-out enters recovery and aborts. |
| `CfuRecovery.NeutralRequestKeeps` | cfu-service/src/basic/mod.rs:260-301 | A request leaves an update under way as it is exactly if it is neutral, or begins it again at the same moment; it is neutral exactly if the device is neither to start nor to finalize nor to abort. |
| `CfuRecovery.TimeoutIsNotEarly` | cfu-service/src/basic/event_receiver.rs:55-77 | The time-out comes no sooner than one updater interval and the remaining receiver intervals after the start. |
| `CfuRecovery.RecoveryOnlyAborts` | cfu-service/src/basic/mod.rs:243-265 | During recovery the device sees aborts only, one a tick, and recovery goes on while they fail. |
| `CfuRecovery.RecoveryEndsOnAbort` | cfu-service/src/basic/mod.rs:243-257 | The first abort that succeeds, and nothing else, ends recovery, back to idle. |
| `CfuRecovery.StateFollowsDevice` | cfu-service/src/basic/mod.rs:148-257 | Over any run the update state is what the log of device calls and their results says by an independent reading: no start, end or failure is missed and nothing else changes it. |
| `CfuRecovery.CallsOfTurn` | cfu-service/src/basic/mod.rs:110-241 | The calls of one turn: at most three, a failed one is the last, a start comes first, a finalize only right after a write. |
| `CfuRecovery.RequestsAreNeverBusy` | cfu-service/src/basic/mod.rs:260-265 | The updater answers busy exactly in recovery; with receiver and updater in turns no request ever gets that answer. |
| `CfuAnswers.ContentWritten` | cfu-service/src/basic/mod.rs:165-241 | What a block makes the device do: exactly when it is written, at the address and with the bytes it says, and when the device is told to start and to finalize; each at most once. |
| `CfuAnswers.ContentAnswered` | cfu-service/src/basic/mod.rs:165-241 | A block is answered with success exactly if calls were made and all succeeded, "not prepared" exactly if nothing was written, "not written" exactly if the write or the finalize failed; always under its own number. |
| `CfuAnswers.OtherAnswered` | cfu-service/src/basic/mod.rs:110-163 | Calls and answers of all other requests: the device's version or all ones, the verdict on an offer for this component with a known version, rejection of every other offer. |
| `CfuAnswers.TickAnswered` | cfu-service/src/basic/event_receiver.rs:55-89 | Exactly which ticks make the device abort, and that a failed abort is tried again one interval later. |
| `CfuAnswers.DeadlineOfRequest` | cfu-service/src/basic/state.rs:31-49 | The deadline that any request leaves. |
| `CfuAnswers.WritesAreBlocks` | cfu-service/src/basic/mod.rs:199-217 | Over any run the device is told to write exactly the blocks given, each to its own address with its own bytes, in order, and nothing else. |
| `CfuAnswers.ConfirmedIsLasting` | cfu-service/src/basic/mod.rs:165-241 | Over any run, the blocks that the host has been told were a success are exactly the successful writes in the device's log, in order, but for those right before a finalize that failed. |
| `CfuRecovery.EventReceiver.Next` | cfu-service/src/basic/event_receiver.rs:44-89 | The loop of `wait_next` on any arrivals: event, arrivals used and new shared state; the 32-bit tick count cannot overflow. |
| `CfuRecovery.Updater.ProcessEvent` | cfu-service/src/basic/mod.rs:96-108 | State, device calls in order and output for each event. |
| `CfuRecovery.Updater.ProcessCfuCommand` | cfu-service/src/basic/mod.rs:260-301 | State, device calls in order and response for each command. |
| `CfuRecovery.Updater.ProcessGiveContent` | cfu-service/src/basic/mod.rs:165-241 | State, device calls in order and response for a block, in each combination of flags and device failures. |
| `CfuRecovery.SharedState.EnterRecovery` | cfu-service/src/basic/state.rs:44-49 | Enters recovery; only an absent deadline is set, to now. |
| `HidCommand.WordFields` | embedded-service/src/hid/command.rs:19-220 | Opcode, report type and short report ID of a command word do not disturb one another. |
| `HidCommand.LaidFits` | embedded-service/src/hid/command.rs:473-577 | A command is written exactly when all its bytes fit, and then those bytes stand at the front with the rest of the buffer untouched. |
| `HidCommand.EncodeIntoSlice` | embedded-service/src/hid/command.rs:473-577 | Length or size error, and every byte of the buffer afterwards; a piece that does not fit is not begun and the pieces before it stay. |
| `HidCommand.EncodeCommon` | embedded-service/src/hid/command.rs:359-398 | Command word with the short report ID, or 0xF and the ID in a byte of its own. |
| `HidCommand.EncodeData` | embedded-service/src/hid/command.rs:456-469 | Length and payload; the length is cut to sixteen bits. |
| `HidTarget.HeaderReadsBack` | hidi2c-target-service/src/service.rs:549-576 | Report type, report ID and the bytes that follow are recovered across the 0xF boundary. |
| `HidTarget.DeviceReadsEncoder` | hidi2c-target-service/src/service.rs:381-673 | The device's reader on the encoder's bytes, for every command: the action or the error. |
| `HidTarget.DeviceRecoversCommand` | hidi2c-target-service/src/service.rs:578-673 | A device does what the command says exactly for reset, set-power, get of an input or feature report, and, without report IDs only, set of an output or feature report of at most 65533 bytes. |
| `HidTarget.ExplicitIdsRefuseReports` | hidi2c-target-service/src/service.rs:650-657 | What a device with report IDs makes of each report: of invalid size up to 65533 bytes, beyond that cut at both ends. |
| `HidTarget.SetReportLength` | embedded-service/src/hid/command.rs:503-517 | A set-report takes eight bytes besides its payload, nine with an extended ID. |
| `HidHost.WordReadsBack` | hid-service/src/i2c/host.rs:137-170 | The host service's reader recovers opcode, report type and report ID from the command word. |
| `HidHost.HostRecoversCommand` | embedded-service/src/hid/command.rs:297-353 | Which commands survive the host service's reader, as an if and only if: set-protocol and vendor never do, set-idle for one frequency an ID. |
| `HidLayout.WordInNumbers` | embedded-service/src/hid/command.rs:19-220 | The command word of each command in numbers: operation, report type, report ID or power state, and the ID byte. |
| `HidLayout.ValueStandsAtEnd` | embedded-service/src/hid/command.rs:435-452 | The value of a set-idle or set-protocol stands at the end of its bytes after the data register and the length 4; a protocol reads back, and a frequency exactly if it is not a period of zero. |
| `HidLayout.FieldsOfAnyWord` | embedded-service/src/hid/command.rs:32-190 | In any word, a field that can be read is the one written that way, and exactly these can be read. |
| `HidLayout.DeviceActsOnEncoded` | hidi2c-target-service/src/service.rs:381-673 | Bytes from anyone: whatever command the device carries out, the bytes begin with that command as the encoder writes it, exactly unless they say an ID below 15 in its own byte or something beside a reset. |
| `HidLayout.OtherwiseHandedOn` | hidi2c-target-service/src/service.rs:381-673 | With report IDs a report is taken from one byte further on; a write to one of the registers 1 to 4, and no other, is handed on as it is. |
| `HidLayout.HeaderRefused` | hidi2c-target-service/src/service.rs:549-576 | Exactly which report headers the device refuses and why: type, length, data register. |
| `HidLayout.AccessRefused` | hidi2c-target-service/src/service.rs:381-400 | Which writes the device refuses before it looks at a header: too short, an unknown register, an unknown operation or power state. |
| `HidLayout.CommandRefused` | embedded-service/src/hid/command.rs:297-353 | Exactly which commands cannot be made from their parts, and why. |
| `HidLayout.HostReturnsWhatIsThere` | hid-service/src/i2c/host.rs:137-238 | Bytes from anyone: a command that the host service's reader returns has the operation, type and value that the word says; a set-protocol is never returned. |
| `HidLayout.HostReadsRegisterAndData` | hid-service/src/i2c/host.rs:147-223 | And its ID, its data register and its payload are where the reader looks for them, with a length within the buffer. |
| `GhostKeys.HasGhost` | keyboard-service/src/gpio_kb.rs:183-229 | True exactly when two columns and two rows have all four crossings pressed, for up to 128 rows. |
| `GhostKeys.PackColumns` | keyboard-service/src/gpio_kb.rs:188-198 | Every column packed into a word of 128 bits without loss, and every key counted. |
| `GhostKeys.SharedRows` | keyboard-service/src/gpio_kb.rs:220-226 | Two columns share two rows exactly when the conjunction of their words has two bits set. |
| `GhostKeys.FewKeysNoRectangle` | keyboard-service/src/gpio_kb.rs:200-203 | The early exit is safe. |
| `GhostKeys.PackedFits` | keyboard-service/src/gpio_kb.rs:188-198 | A packed column of at most 128 rows is below two to the 128. |
| `IntrusiveList.List.Push` | embedded-service/src/intrusive_list.rs:115-133 | Refused without any effect for a node that is in a list; otherwise the node is the new head. |
| `IntrusiveList.List.PushFront` | embedded-service/src/intrusive_list.rs:103-112 | Links the node in front of the old head. |
| `IntrusiveList.List.Iterate` | embedded-service/src/intrusive_list.rs:136-170 | Iteration ends and yields exactly the pushed nodes, newest first. |
| `IntrusiveList.List.IterateOnly` | embedded-service/src/intrusive_list.rs:136-196 | The filtered iteration yields those of one type, in the same order. |
| `IntrusiveList.LinkedIsAcyclic` | embedded-service/src/intrusive_list.rs:157-169 | A chain of links that ends visits no node twice. |
| `IntrusiveList.PushAll` | embedded-service/src/intrusive_list.rs:103-133 | Any sequence of pushes to any lists keeps them apart and well linked, and gives the contents and refusals of the same pushes on plain sequences. |
| `IntrusiveList.AllPushedOnceOnly` | embedded-service/src/intrusive_list.rs:115-133 | Over any pushes nothing comes to be listed twice, in one list or in two. |
| `IntrusiveList.ListsInReverse` | embedded-service/src/intrusive_list.rs:103-170 | A list holds exactly the objects whose first push of all was to it, newest first. |
| `IntrusiveList.PushThenIterate` | embedded-service/src/intrusive_list.rs:94-170 | From new lists and new nodes: after any pushes, iterating over a list yields exactly the nodes first pushed to it, newest first. |
| `SliceJoin.MapSliceJoin` | cfu-service/src/splitter.rs:220-276 | True exactly when the function succeeds on every zipped item; the output is mapped up to there, or up to the complete groups of four before the failing group, and untouched elsewhere; the unreachable arm is never taken. |
| `SliceJoin.FirstFailure` | cfu-service/src/splitter.rs:215-219 | The place of the first failing item, or the end. |
| `SliceJoin.WholeGroupsWritten` | cfu-service/src/splitter.rs:220-276 | A failure costs the items before it in its own group of four, and no others. |

## Left out

- MCTP: SMBus framing and its check byte, and the bodies of control and PCI messages; a message is its bytes, type
  byte first.
- Reassembly.MctpPacketContext.SerializePacket: takes the message as bytes, so a serializer that fails for a reason other
  than size is not modelled; an assembly buffer of length zero, on which the source panics, refuses the message.
- The parsing half of the serial medium works on values here, and the checksum field of a received frame is not
  kept.
- Fragmentation.SerializePacketState.Next: gives the stuffed region of the packet; the serial medium's framing around
  it is `SerialFraming.NextFrame`, that of SMBus is not modelled.
- MctpRoundTrip.RoundTripStoringSequence: is about the variant that stores the received sequence number, which the code
  does not do; for the code as it is see `MctpRoundTrip.RoundTripAsWritten`.
- MctpRoundTrip.WrappedCounterRefused: is about that variant too, and about a packet counter that wraps.
- MctpOverSerial.LineRoundTrip: the loop that goes on cutting frames off the line is the model's own; the reader that
  the repository has takes one frame, see `MctpOverSerial.ReaderDelivers`.
- MctpOverSerial.MessageOverSerial: uses that loop and the variant of the receiver.
- Fragmentation.StartMarksFirstOnly: the 8-bit packet counter wraps here; a build with overflow checks panics at
  the 256th packet instead.
- WakeTimer.Timer.SetActive: the 32-bit sum of elapsed seconds wraps here; a build with overflow checks panics.
- WakeTimerRuns.PolicyDelayAccounting: assumes a clock that works, does not go back and stays below the last
  32-bit second, which setting the real time can break.
- The tasks of the two timers step one at a time; the code from the end of a wait to the change of
  the other timer's policy has no await in it and is one step.
- Time and alarm service: time zones, time stamps and the ACPI capabilities.
- The wrap of the request IDs of a deferred channel, after 2^64 calls (2^32 on 32-bit targets).
- In the block buffer: offers, version queries and aborts while blocks are outstanding, which share the response channel;
  a full queue, on which the host would wait; components that are not registered.
- CfuBuffer.AnswersConveyReplies: runs of the block buffer are with a component that takes what it is sent and whose replies
  arrive; what a failure does is stated of one step, in `CfuBuffer.FailuresAreRejected` and `CfuBuffer.UnsentBufferedIsLost`.
- In time-out and recovery: response contents other than status and sequence number, and what happens at the end of the
  clock's range.
- HidCommand.EncodeIntoSlice: a report buffer that is borrowed elsewhere, which the source refuses.
- In the HID device: the contents of descriptor, input and output register accesses, replies to the host, and the size of
  the device's own input buffer.
- GhostKeys.HasGhost: a `u128` is a natural number here, with the proof that it stays below two to the 128; more than
  128 rows overflow in the source.
- In the intrusive list: the critical section around a push, and objects whose `get_node` does not give their own node.
- SliceJoin.MapSliceJoin: the function is pure, so the order and overlap of the joined futures are not modelled.
- Liveness that depends on host, component or clock making progress.
- Hardware and bus access, the executor, logging, thermal, battery, type-C, power-policy and debug services, and the
  field-by-field relay serializers, which would add easy members only.
