# RemotePlay: a verified model of the streaming core

RemotePlay lets a host stream a game to up to four players. This project models the parts of it where state,
ordering and arithmetic meet, and proves what they keep on every run:

- **Media path** (`Bytes`, `UdpHeader`, `Fragments`, `SequenceTracker`, `Reassembler`, `FaithfulReassembly`,
  `JitterBuffer`, `MediaTransport`, `MediaSafety`, `MediaDelivery`). A frame is cut into datagrams, the network drops,
  repeats and reorders them, the receiver tracks loss, rebuilds frames and releases them in order. The main results are
  `MediaSafety.EndToEnd` (only sent frames come out, unchanged, in non-decreasing order),
  `FaithfulReassembly.CompletesOnLastFragment` (a frame whose fragments all arrive does come out, on the last one),
  `MediaDelivery.InTimeFramesAreDelivered` (and, in time and without overflow, is delivered) and
  `Reassembly.InFlightBoundAndBalance`.
- **Session** (`SessionCodes`, `HostSession`, `HostSafety`, `HostObject`, `HostSnapshot`, `ClientSession`, `Handshake`,
  `HandshakeProgress`, `HandshakeInterleaved`, `HostApproval`, `HostReplies`, `HostCoordinator`). Host and clients are
  state machines joined by queues of frames. The main results are `Handshake.HandshakeIsSound` (the repository's client
  as every peer) and `HandshakeInterleaved.HandshakeCompletesInterleaved`; `HostSafety.HostRuns`, `Lifecycle`,
  `HostApproval.MovesUpExactly`, `HostReplies.SaysExactly` and `RecordsExactly` for any peers;
  `HostSnapshot.SnapshotExactly`, and `HostCoordination.SlotsStayDistinct`.
- **Control channel** (`ControlCodec`, `TcpFraming`, `TcpConnection`, `ControlChannel`). The codec of all sixteen
  messages, the framing, the write pump, and `ControlChannel.ChannelIsQueue`, which puts them together and justifies
  the message queues used in the session model.
- **Secure channel** (`KeySizes`, `Hkdf`, `SecureChannel`). The 64-slot replay window decides as the full set of
  accepted counters would, both ends derive matching keys from one code, and no nonce is used twice before
  the counter has gone round.
- **Bitrate controller** (`AdaptiveBitrate`) and **input injection** (`InputPermissions`, `InputInjector`).

Each component has a value type with functions for its operations, on which the properties are proved over all runs,
and, where the program changes an object in place, a class with the program's own fields and loops whose methods are
proved equal to those functions and to keep the proved invariants. `dafny verify dfyconfig.toml` covers the whole
project.

## How the model reads the program

- Sequence numbers, counters and timestamps are unbounded naturals (64 bits never wrap in the model). The 16-bit
  fragment count, the 16-bit picture size, the 8-bit HKDF counter and the 32-bit round-trip arithmetic are modelled with
  their truncation.
- Clocks, the network, the operating system's input queue, HMAC, ECDH and AES-GCM are parameters: arbitrary times,
  arbitrary schedules, an arbitrary digest function, a given shared secret, and a given result of decryption.
- `double` samples of the bitrate controller are reals; its two products are arbitrary integer functions, so the
  results hold for every rounding.
- Per-type receive state of `UdpTransport` (tracker, reassembler, jitter buffer) is grouped in one object per type.
- The sixteen `writeMsg`/`readMsg` pairs are one table of fields per message type, written and read field by field.

## Where code, comments and expectations part

- The datagram header is 31 bytes (networking/UdpProtocol.h:39 says 30).
- `track` returns 1 for the next sequence in order as well as for a duplicate; its comment promises 0
  (networking/UdpProtocol.h:81-83). `ReturnValueMeans` states what is returned, `NextInOrderAnswersOne` is an instance.
- A sequence exactly 64 behind the newest shares its slot and passes the late check, so a later repeat of the newest is
  not recognised. `RepeatCountedExactly` gives the exact condition, `SharedSlotHidesRepeat` an instance.
- `fragmentCountFor` cuts the count to 16 bits: above 65535 * 1100 bytes the fragments no longer carry the frame.
  `FragmentsCarryFrame` is the exact condition, `OversizeFrameIsCutShort` an instance.
- `decodeMessage` is documented to reject trailing bytes (networking/Protocol.h:195-196); string and list messages do not.
  `TrailingBytesDecide` says for which types it does, `ByeIgnoresTail` is an instance.
- A fragment larger than what is left of its buffer decodes and is copied past the end (networking/UdpProtocol.cpp:134);
  no sender makes one. `LeavesBufferExactly` and `UnsafeExactly` give the exact condition, `OversizeFragmentDecodes` an
  instance. Beyond such a copy nothing is claimed.
- A new, authentic counter 0 is refused once anything was accepted, because 0 also marks an empty slot. No sender uses
  it. `PlainRuleExactly` says when the plain rule decides, `NewZeroIsRefused` is an instance.
- `seal` means never to use a counter twice (security/SecureChannel.cpp:92), but after 2^64 draws it refuses once and goes
  on at 1: `NoncesRepeatExactly`.
- The client's keys are salted with the session code as it was typed, the host's with the code as it was generated
  (app/ClientCoordinator.cpp:58 and 228, app/HostCoordinator.cpp:72 and 215). The check at the hello is blind to case and
  separators, the salt is not: `SaltsMatchExactly`, `TypedInLowerCase`.
- The user's approval is meant to stand between the hello and the connection. The host does not ask for it when codecs
  arrive (host/HostSession.cpp:354-389): the repository's client sends them only after approval (`HandshakeIsSound`), but
  for any peer the conditions are the ones in `MovesUpExactly`, and `ConnectedWithoutApproval` is an instance. What holds
  for any peer is `CodeVerifiedForAnyPeer`.
- Revoking the mouse alone does not release held buttons: `ButtonsReleasedExactly`, with `MouseRevokedStillHeld` as an
  instance.
- Both coordinators send an empty hello under the key-ready type (app/HostCoordinator.cpp:221-224,
  app/ClientCoordinator.cpp:233-236): a client cannot read it and ends the session, and the host drops the client for it
  (`KeyReadyExactly`, `DefaultBodyEndsSession`, `DefaultBodyDropsClient`).
- The client's watchdog compares with the clock's zero until the connection is up, so a connection attempt that outlasts
  the first heartbeat is given up whenever the clock reads more than twelve seconds (`EarlyHeartbeatExactly`).
- With the default tuning the cooldown of the bitrate controller never holds a change back on its own: the streaks that
  a change resets take longer (`Reachable`, kept by `NextReachable`; `CooldownIsIdle`).
- `setClientInput` does not rebuild the snapshot, so its input column can be out of date. `StepStaysExact` and
  `SnapshotExactly` say exactly when it is, `DisabledStillShown` is an instance; the other columns always agree.

## Model

| member | source | states |
|---|---|---|
| UdpHeaders.DecodeOfEncode | networking/UdpProtocol.cpp:20-54 | decoding inverts encoding on exactly the headers a receiver accepts, and rejects every other header |
| UdpHeaders.EncodeOfDecode | networking/UdpProtocol.cpp:33-54 | whatever decodes is in range, acceptable, and encodes back to the same 31 bytes |
| UdpHeaders.FieldOffsets | networking/UdpProtocol.cpp:20-31 | each field lies at its offset in the 31 bytes, little-endian |
| UdpHeaders.AcceptedExactly | networking/UdpProtocol.cpp:33-54 | a datagram is read if and only if its bytes say magic 0x5252, version 1, a type up to 8, a size that fits, and a possible fragment of at most 1024 |
| UdpHeaders.WriteUdpHeader | networking/UdpProtocol.cpp:20-31 | the in-place writer produces the encoding and leaves the rest of the buffer alone |
| Fragments.CountIsNeededExactly | networking/UdpProtocol.cpp:56-60 | the fragment count is the needed one if and only if the frame is at most 65535 * 1100 bytes |
| Fragments.FragmentsCarryFrame | networking/UdpTransport.cpp:307-328 | the payloads joined in order are the frame if and only if its size is within that limit |
| Fragments.OversizeFrameIsCutShort | networking/UdpTransport.cpp:300-310 | a concrete frame beyond the limit that is sent as one datagram with its first five bytes |
| Fragments.HeaderOfFragment | networking/UdpTransport.cpp:307-324 | the header in front of each fragment: count, size, flags 2 for a keyframe and 1 for a fragment of several |
| Fragments.DatagramDecodes | networking/UdpTransport.cpp:312-327 | each datagram reads back as its fragment's header and payload, or is rejected when the frame has more than 1024 fragments |
| Fragments.MakeDatagrams | networking/UdpTransport.cpp:297-329 | the fragmenting loop yields the datagrams of the frame in order |
| SequenceTracking.SequenceTracker.Track | networking/UdpProtocol.cpp:64-92 | the object with its 64-slot array moves as the model does and returns the same value |
| SequenceTracking.LossAccounting | networking/UdpProtocol.cpp:64-92 | after any arrivals, received + lost = (highest - first + 1) + duplicates + late |
| SequenceTracking.ReturnValueMeans | networking/UdpProtocol.cpp:64-92 | a value above 1 is one more than the loss just counted; -1 exactly when more than 64 behind; 1 for a duplicate or the next in order |
| SequenceTracking.NextInOrderAnswersOne | networking/UdpProtocol.cpp:74-87 | after 4, both 5 and a second 4 are answered with 1 |
| SequenceTracking.DuplicatesAreRepeats | networking/UdpProtocol.cpp:84-87 | the duplicate counter grows only for a sequence that arrived before |
| SequenceTracking.RepeatCountedExactly | networking/UdpProtocol.cpp:82-91 | a repeat less than 64 behind is counted if and only if it was not displaced by an arrival exactly 64 behind the newest |
| SequenceTracking.EveryRepeatCounted | networking/UdpProtocol.cpp:82-91 | if no arrival is ever exactly 64 behind, the repeats less than 64 behind are exactly the ones counted |
| SequenceTracking.SharedSlotHidesRepeat | networking/UdpProtocol.cpp:83-90 | arrivals 64, 0, 64: the second 64 is not counted as a duplicate |
| Reassembly.FragmentReassembler.Feed | networking/UdpProtocol.cpp:98-158 | the object's feed, with eviction, copy and completion, is the model's for every decoded datagram whose copy, if any, stays inside its buffer |
| Reassembly.FragmentReassembler.Gc | networking/UdpProtocol.cpp:160-172 | popping the front while it is too old removes exactly the buffers more than 64 behind, and counts them |
| Reassembly.StepKeepsBand | networking/UdpTransport.cpp:248-268 | feed followed by gc keeps buffered sequences within 64 of the newest started, so eviction is never reached |
| Reassembly.FedBalance | networking/UdpProtocol.cpp:98-158 | one feed, evicting or not, keeps begun = completed + dropped + in flight |
| Reassembly.CompletedCountsFrames | networking/UdpProtocol.cpp:98-157 | a frame is counted as completed if and only if it is handed out, and is then no longer in flight |
| Reassembly.NotCopiedChangesNothing | networking/UdpProtocol.cpp:126-131 | a repeated fragment or one with another count changes nothing but the newest sequence |
| Reassembly.InFlightBoundAndBalance | networking/UdpProtocol.cpp:111-172 | on every run of decoded datagrams in which no copy leaves its buffer at most 65 buffers are in flight and every begun frame is accounted for |
| Reassembly.LeavesBufferExactly | networking/UdpProtocol.cpp:129-134 | a decoded fragment is copied past its buffer if and only if it is new and larger than (fragmentCount - fragmentIndex) * 1100 |
| Reassembly.FittingStaysInside | networking/UdpProtocol.cpp:98-158 | datagrams within that size never make a copy leave its buffer, whatever came before |
| FaithfulReassembly.StepIsFaithful | networking/UdpProtocol.cpp:98-158 | a genuine fragment leaves every buffer part of a sent frame, and a completed frame equals the sent one |
| FaithfulReassembly.CompletesOnLastFragment | networking/UdpProtocol.cpp:98-158 | in any order, with repeats and other frames between, a frame within reach comes out exactly on its last missing fragment, as sent |
| JitterBuffering.JitterBuffer.Push | networking/UdpProtocol.cpp:180-195 | overflow loop, append and swaps equal insertion behind the last entry that is not larger |
| JitterBuffering.JitterBuffer.Pop | networking/UdpProtocol.cpp:197-215 | the release loop equals the recursive definition |
| JitterBuffering.PoppedDrains | networking/UdpProtocol.cpp:197-215 | after a poll at most eight frames stay and the head has waited less than the target |
| JitterBuffering.PoppedExactly | networking/UdpProtocol.cpp:197-215 | a poll releases exactly the longest run of entries from the head that waited, overflow the watermark or follow a gap, and keeps the rest |
| JitterBuffering.JitterRuns | networking/UdpProtocol.cpp:180-215 | on every run the queue is ordered, at most 16 long and not behind what was delivered; deliveries never decrease; pushed frames are exactly queued, delivered, late or overflowed |
| JitterBuffering.PushDropsExactly | networking/UdpProtocol.cpp:180-195 | on every run a pushed frame is dropped as late if and only if a delivered frame has its or a later sequence; otherwise it is queued, and the first in the queue goes for it if and only if sixteen wait |
| JitterBuffering.InsertedAt | networking/UdpProtocol.cpp:189-194 | a frame is placed behind all that are not larger and before all that are |
| JitterBuffering.OnTime | networking/UdpProtocol.cpp:181-184 | a frame pushed once without being overtaken is not late every time |
| MediaTransport.MediaLane.Receive | networking/UdpTransport.cpp:248-294 | track, feed, collect and push of one media datagram |
| MediaTransport.UnsafeExactly | networking/UdpTransport.cpp:134-168 | an incoming datagram is unsafe if and only if it is admitted, is a new media fragment and is larger than the room behind its offset |
| MediaTransport.AdmittedExactly | networking/UdpTransport.cpp:134-168 | a datagram passes if and only if it decodes, is of the session or any is taken, and is not marked encrypted |
| MediaTransport.SmallDecodes | networking/UdpTransport.cpp:331-347 | a small datagram reads back as one fragment with the first 1100 bytes |
| MediaTransport.OversizeFragmentDecodes | networking/UdpProtocol.cpp:33-54 | a concrete video datagram, fragment 1 of 2 with 1101 bytes, that decodes and is unsafe |
| MediaTransport.UdpTransport.SendFrame | networking/UdpTransport.cpp:297-329 | every fragment is posted under one fresh sequence number of its type; nothing happens while stopped or without socket or peer |
| MediaTransport.UdpTransport.SendSmall | networking/UdpTransport.cpp:331-347 | one datagram with at most 1100 bytes is posted, or nothing while stopped or without socket or peer |
| MediaTransport.UdpTransport.HandleDatagram | networking/UdpTransport.cpp:134-168 | checks in front of the media path, peer learning and dispatch by type |
| MediaTransport.UdpTransport.PollVideo | networking/UdpTransport.cpp:423-426 | polling releases what the jitter buffer gives up and touches nothing else |
| MediaSafety.ArriveKeepsInv | networking/UdpTransport.cpp:234-295 | any datagram ever posted, arriving at any time, keeps the end-to-end invariant and stays inside its buffer |
| MediaSafety.EndToEnd | networking/UdpTransport.cpp:242-329 | on every run each delivered frame was sent, as frame number `sequence` of its type, with these bytes, timestamp, session and keyframe bit, and delivered sequences never decrease |
| MediaDelivery.RunMirrored | networking/UdpTransport.cpp:242-329 | on every run the stream is what loss tracking and reassembly make of the arrived fragments and the jitter buffer of what they complete, none left out |
| MediaDelivery.CompleteFramesAreDelivered | networking/UdpTransport.cpp:242-329 | on every run a frame of at most 1024 fragments that fully arrives within reach is, after a poll at which everything queued has waited, delivered or counted as late or overflowed |
| MediaDelivery.InTimeFramesAreDelivered | networking/UdpTransport.cpp:242-329 | on every run a frame whose last missing fragment arrived within reach and before a delivered frame had overtaken it is delivered by a poll at which everything queued has waited, unless the jitter buffer overflowed |
| SecureChannels.RefusedExactly | security/SecureChannel.cpp:116-127 | the array check refuses exactly what the rule over the accepted set refuses |
| SecureChannels.ReplayWindowRefinesSet | security/SecureChannel.cpp:104-156 | after any run a datagram opens if and only if it authenticates, its counter is new, less than 64 behind, and not a zero after anything was accepted; a refused one changes nothing |
| SecureChannels.PlainRuleExactly | security/SecureChannel.cpp:116-127 | new and less than 64 behind alone decides if and only if the counter is not zero, is the first, or is refused by that rule too |
| SecureChannels.NewZeroIsRefused | security/SecureChannel.cpp:116-127 | after counter 5 an authentic counter 0 is refused although new and 5 behind |
| SecureChannels.SecureChannel.Open | security/SecureChannel.cpp:104-156 | the object's open is the model's; a refusal counts as a replay if and only if the window refused the counter, and as a failed authentication otherwise |
| SecureChannels.SecureChannel.Finish | security/SecureChannel.cpp:25-76 | the keys by role, a cleared window and counter 1, or an inactive channel on malformed input |
| SecureChannels.LexTotalAntisymmetric | security/SecureChannel.cpp:43-46 | the byte order is total and antisymmetric |
| SecureChannels.KeysAgree | security/SecureChannel.cpp:40-63 | given one session code at both ends, for every pair of salts the host's send key is the client's receive key and the other way round, with equal nonce salts |
| SecureChannels.KeysAreWholeOutput | security/SecureChannel.cpp:49-63 | the host's send key, receive key and nonce salt, and the client's the other way round, are the whole 68 derived bytes under code and sorted salts, cut at 32 and 64 |
| SecureChannels.LexDecidedByFirstDifference | security/SecureChannel.cpp:43-47 | the first differing byte decides the order of the salts |
| SecureChannels.SaltsMatchExactly | security/SecureChannel.cpp:40-47 | for every pair of salts the two ends salt their keys alike if and only if they put in the same code byte for byte |
| SecureChannels.TypedInLowerCase | app/ClientCoordinator.cpp:58 | every complete code is accepted in lower case, and the two ends then salt their keys alike if and only if it has no capital letters |
| SecureChannels.SecureChannel.Seal | security/SecureChannel.cpp:78-101 | the counter is drawn and goes round at 2^64, zero is refused, the cipher gets counter and payload under the nonce of salt and counter |
| SecureChannels.SealsCountUp | security/SecureChannel.cpp:78-92 | over any run of seals the counters used are 1, 2, 3, ... and after 2^64 - 1 from 1 again |
| SecureChannels.NoncesRepeatExactly | security/SecureChannel.cpp:78-92 | over any run two nonces are equal if and only if they are a multiple of 2^64 - 1 seals apart |
| SecureChannels.DirectionsShareNonceExactly | security/SecureChannel.cpp:49-92 | a key and nonce of one direction is used in the other if and only if the first two 32 bytes of the derived output are equal and the seals are whole rounds apart |
| Hkdf.HkdfSha256 | security/Crypto.cpp:93-119 | the loop with its 8-bit counter returns the output of sections 2.2 and 2.3 of RFC 5869, or nothing for a length out of range |
| Hkdf.OkmIsPrefix | security/Crypto.cpp:105-118 | that output is the first L bytes of T(1), T(2), ... however many blocks are written out |
| Hkdf.FirstBlocks | security/Crypto.cpp:93-119 | up to 64 bytes are cut from HMAC(prk, info, 1) and HMAC(prk, that, info, 2) with prk = HMAC(salt, secret) |
| AdaptiveBitrates.AdaptiveBitrate.Update | adapt/AdaptiveBitrate.cpp:32-71 | the object's update is the model's and keeps the reachable states |
| AdaptiveBitrates.AdaptiveBitrate.SetManual | adapt/AdaptiveBitrate.cpp:73-77 | a manual rate is clamped, streaks are reset and a cooldown starts |
| AdaptiveBitrates.NextReachable | adapt/AdaptiveBitrate.cpp:32-77 | the rate stays within its bounds and no streak completes during a cooldown |
| AdaptiveBitrates.CooldownIsIdle | adapt/AdaptiveBitrate.cpp:32-71 | in every reachable state an update gives the same target and rate with the cooldown set to zero |
| AdaptiveBitrates.ThresholdsExactly | adapt/AdaptiveBitrate.cpp:14-30 | each measure alone makes a perfect sample bad, or no longer good, from exactly its threshold on |
| AdaptiveBitrates.MeasuresDecide | adapt/AdaptiveBitrate.cpp:14-30 | a sample is bad if and only if one of its measures is, and good if and only if all are |
| AdaptiveBitrates.ManualExactly | adapt/AdaptiveBitrate.cpp:73-77 | a manual rate in range is taken, any other gives the nearer bound; streaks begin anew under a cooldown of two |
| AdaptiveBitrates.ReportedExactly | adapt/AdaptiveBitrate.cpp:32-71 | a target is reported if and only if the rate changed, and starts a cooldown of two |
| AdaptiveBitrates.StepSizeExactly | adapt/AdaptiveBitrate.cpp:39-63 | a change goes by the fraction, at least 250, and no further than the bound |
| AdaptiveBitrates.ChangesNeedStreaks | adapt/AdaptiveBitrate.cpp:32-71 | a decrease needs three bad samples with no change among the first two, an increase ten healthy ones, and no step is larger than its fraction or 250 |
| AdaptiveBitrates.BadConverges | adapt/AdaptiveBitrate.cpp:35-49 | from any reachable state 3 * ceil((current - min) / 250) bad samples reach the minimum and more keep it there |
| AdaptiveBitrates.HealthyConverges | adapt/AdaptiveBitrate.cpp:51-65 | likewise 10 * ceil((max - current) / 250) healthy samples and the maximum |
| ControlCodec.DecodeInvertsEncode | networking/Protocol.cpp:97-394 | for all sixteen types decoding gives the message back with capped strings and lists if and only if key and salt have 64 and 16 bytes |
| ControlCodec.WireBytes | networking/Protocol.cpp:78-170 | every message is its fields in order, each in the width the program writes |
| ControlCodec.TypeNumbers | networking/Protocol.h:32-51 | the type number of each message |
| ControlCodec.CappedIsIdentityExactly | networking/Packet.cpp:75-79 | nothing is cut if and only if strings have at most 1024 bytes and lists at most 32 codecs |
| ControlCodec.TruncatedNeverDecodes | networking/Protocol.cpp:174-272 | no strict prefix of an encoding decodes |
| ControlCodec.TrailingBytesDecide | networking/Protocol.cpp:174-272 | an encoding with bytes behind it is rejected for the types that check for the end and is read as the message without them for all others |
| ControlCodec.ByeIgnoresTail | networking/Protocol.cpp:282-394 | a farewell with one byte behind it decodes as that farewell |
| ControlCodec.LongTextIsRead | networking/Packet.cpp:139-148 | a received text is not cut |
| ControlCodec.NonzeroIsTrue | networking/Packet.cpp:128 | any byte but zero reads as true |
| ControlCodec.EncodeMessage | networking/Protocol.cpp:97-170 | writing field by field yields the encoding |
| ControlCodec.DecodeMessage | networking/Protocol.cpp:282-394 | reading field by field with a latched failure is the decoder |
| ControlCodec.ByteWriter.Text | networking/Packet.cpp:75-79 | length prefix and at most 1024 bytes are appended |
| ControlCodec.ByteWriter.VideoCodecList | networking/Protocol.cpp:78-83 | count and at most 32 codecs are appended |
| ControlCodec.ByteReader.Integer | networking/Packet.cpp:86-124 | the next little-endian integer, or a latched failure |
| ControlCodec.ByteReader.Text | networking/Packet.cpp:139-148 | the next string, or a latched failure |
| ControlCodec.ByteReader.VideoCodecList | networking/Protocol.cpp:85-93 | the next codec list, or a latched failure |
| ControlCodec.NegotiateCodec | networking/Protocol.cpp:396-405 | the search loop is the negotiation function |
| ControlCodec.NegotiatedIsFirstCommon | networking/Protocol.cpp:396-405 | the result is the first host preference the client lists, and none only without a common codec |
| TcpFraming.ParseOfMake | networking/Packet.cpp:28-57 | a frame's header parses back if and only if the payload is at most 64 KiB |
| TcpFraming.ReadsBack | networking/TcpTransport.cpp:93-132 | from any part of the stream the read loop has handed out exactly the complete messages, waits on exactly the bytes behind them and sees no violation |
| TcpFraming.BegunCompletes | networking/TcpTransport.cpp:93-132 | the complete frames and the awaited bytes are the part that arrived, and the awaited bytes are a strict prefix of the next frame |
| TcpFraming.BadHeaderFails | networking/TcpTransport.cpp:93-110 | ten bytes that are no header, behind whole frames, end the connection after those frames were handed out |
| TcpFraming.HeaderBytes | networking/Packet.cpp:28-38 | one frame header written out byte by byte |
| TcpConnections.WritePump | networking/TcpTransport.cpp:55-162 | bytes written are a prefix of the posted frames; one close callback at most; closing without error or request only after everything posted was written |
| TcpConnections.TakesSendsUntilClosed | networking/TcpTransport.cpp:55-80 | on every run exactly the messages sent before the connection closed were taken, in order |
| TcpConnections.ClosesExactly | networking/TcpTransport.cpp:134-162 | an open connection is closed by exactly a request, a failed read or write, or the write that leaves nothing after a send-and-close; the close handler runs then |
| TcpConnections.WritesWhileBehind | networking/TcpTransport.cpp:134-151 | an open connection is writing if and only if a sent message is not yet written, and writes the first such |
| TcpConnections.PeerReadsSends | networking/TcpTransport.cpp:93-162 | the peer holds the first few of the messages sent, and all of them once nothing is left to write |
| TcpConnections.PeerReadsPosted | networking/TcpTransport.cpp:93-162 | whatever part of the wire has arrived, the peer holds a prefix of the posted messages |
| TcpConnections.TcpConnection.Send | networking/TcpTransport.cpp:55-80 | send and send-and-close post one frame, start the pump and keep the write-pump invariant |
| TcpConnections.TcpConnection.OnWritten | networking/TcpTransport.cpp:139-151 | a completed write pops its frame, then closes or pumps on, and keeps the write-pump invariant |
| TcpConnections.TcpConnection.Shutdown | networking/TcpTransport.cpp:154-162 | closing clears the outbox and calls back once |
| TcpConnections.TcpConnection.OnWriteFailed | networking/TcpTransport.cpp:139-144 | a failed write closes the connection as an error |
| ControlChannel.FitsFrame | networking/Protocol.cpp:97-170 | every control message fits a frame |
| ControlChannel.ChannelIsQueue | networking/TcpTransport.cpp:55-162 | on every run of a connection the peer decodes the first few of the messages sent, in order, capped, and nothing else; all of them once an open connection has written everything |
| SessionCodes.VerifiedExactly | security/SessionCodes.cpp:51-88 | a code is accepted if and only if it is complete and has the same symbols, whatever its case and separators |
| SessionCodes.PlainCodesExactly | security/SessionCodes.cpp:51-88 | codes written symbol by symbol verify if and only if they are the same eight symbols |
| SessionCodes.SeparatorsIgnored | security/SessionCodes.cpp:51-70 | a dash or a space anywhere makes no difference |
| SessionCodes.CaseIgnored | security/SessionCodes.cpp:51-70 | the case of a letter makes no difference |
| SessionCodes.OtherSymbolsRefused | security/SessionCodes.cpp:51-70 | a code with any other symbol never verifies |
| SessionCodes.AlphabetExactly | security/SessionCodes.cpp:13-14 | the thirty-two symbols |
| SessionCodes.LoweredVerifies | security/SessionCodes.cpp:51-88 | every complete code is recognised in lower case |
| HostObject.HostSession.HandleNewConnection | host/HostSession.cpp:243-265 | a fresh id, a pending record and a rebuilt snapshot |
| HostObject.HostSession.HandleFrame | host/HostSession.cpp:267-321 | unknown, malformed and decoded frames |
| HostObject.HostSession.HandleClientHello | host/HostSession.cpp:323-352 | capacity check, code check, promotion |
| HostObject.HostSession.HandleClientCapabilities | host/HostSession.cpp:354-389 | negotiation result and move to connected, or rejection |
| HostObject.HostSession.ApproveClient | host/HostSession.cpp:134-173 | approval and capabilities are sent, or the client is dropped |
| HostObject.HostSession.KickClient | host/HostSession.cpp:175-188 | the record stays, disconnected |
| HostObject.HostSession.SetClientInput | host/HostSession.cpp:190-206 | permissions change and are pushed, the snapshot is not rebuilt |
| HostObject.HostSession.HandleClientClosed | host/HostSession.cpp:416-449 | the record goes and the row is announced |
| HostObject.HostSession.DropClient | host/HostSession.cpp:513-531 | announced as disconnected, then erased |
| HostObject.HostSession.RebuildSnapshot | host/HostSession.cpp:498-511 | one row per client by ascending id |
| HostObject.HostSession.Housekeep | host/HostSession.cpp:533-574 | pings and the drop of timed-out clients |
| HostSafety.HostRuns | host/HostSession.cpp:243-531 | on every run with any peers at most maxClients are authenticating or connected, the snapshot agrees with the table in id, name, state, round-trip time and address, and the announcements say who is connected |
| HostSafety.Lifecycle | host/HostSession.cpp:134-531 | over any stretch of a run states only move forward, ids are not reused and no announcement is taken back |
| HostSafety.HousekeepingDropsExactly | host/HostSession.cpp:533-574 | the timer removes exactly the clients silent for longer than their state allows |
| HostReplies.SaysExactly | host/HostSession.cpp:134-574 | in every step every client hears exactly what its state and the guards say: replies, negotiation, permissions, pings, and a rejection with its reason |
| HostReplies.LosesPlaceExactly | host/HostSession.cpp:513-531 | a client that loses its place hears exactly one reject or close, last; one that keeps it hears none, and a kicked one the kick |
| HostReplies.RecordsExactly | host/HostSession.cpp:134-574 | every field of a record after a step, and the record of a new connection |
| HostReplies.DeparturesAnnounced | host/HostSession.cpp:416-449 | closed and kicked clients are announced as disconnected |
| HostReplies.ArrivalsAnnounced | host/HostSession.cpp:480-496 | a client that becomes connected is announced so |
| HostSnapshot.StepStaysExact | host/HostSession.cpp:190-206 | a step leaves a snapshot that shows everything so if and only if it is not a setClientInput that turns the input column of a client over |
| HostSnapshot.SnapshotExactly | host/HostSession.cpp:498-511 | on every run the snapshot shows the whole table if and only if each client's input column is what it was at the last rebuild |
| HostSnapshot.RowsExactly | host/HostSession.cpp:498-511 | the snapshot has exactly one row for each client, with its name, state, round-trip time, input and address |
| HostSnapshot.RowsAscend | host/HostSession.cpp:498-511 | the rows stand in ascending order of ids |
| HostSnapshot.DisabledStillShown | host/HostSession.cpp:190-206 | one connection whose input is disabled: its row still says enabled |
| ClientSessions.ClientSession.HandleConnected | client/ClientSession.cpp:185-212 | hello is sent and the client waits |
| ClientSessions.ClientSession.HandleFrame | client/ClientSession.cpp:214-369 | the client's reaction to every message |
| ClientSessions.ClientSession.StartHeartbeat | client/ClientSession.cpp:371-397 | watchdog, and a ping once connected |
| ClientSessions.ClientSession.Stop | client/ClientSession.cpp:415-445 | a bye if there is a connection, then disconnected |
| ClientSessions.StepKeeps | client/ClientSession.cpp:185-465 | every step keeps connection, running flag and state consistent and moves the state forward; a client that is gone says nothing |
| ClientSessions.FrameExactly | client/ClientSession.cpp:214-369 | what a connected client says to each frame, which frames end it, and what it records |
| ClientSessions.HeartbeatExactly | client/ClientSession.cpp:371-397 | after twelve seconds of silence a heartbeat ends the session; before that it is a ping, once connected |
| ClientSessions.EndsExactly | client/ClientSession.cpp:185-212 | hello on a new connection, farewell on a stop, and the end on a lost connection |
| ClientSessions.ClientLifecycle | client/ClientSession.cpp:185-465 | over any stretch of a run the state only moves forward and never leaves disconnected |
| ClientSessions.UnconnectedIsStarted | client/ClientSession.cpp:185-212 | on every run a running client without a connection is as it was started |
| ClientSessions.EarlyHeartbeatExactly | client/ClientSession.cpp:371-381 | on every run a heartbeat before the connection is up ends the client if and only if the clock reads more than twelve seconds |
| Handshake.HandshakeIsSound | host/HostSession.cpp:323-389 | with the repository's client as peer, on every run, malformed and unknown application frames included, a record is connected only after its code verified and the user accepted; a client is connected only if the host moved it there with the same codec, the first host preference it listed |
| HostApproval.MovesUpExactly | host/HostSession.cpp:323-389 | for any peer a step makes a record authenticating if and only if it is a hello with room and a verifying code, and connected if and only if it is codecs with one in common on an authenticating record; approval is in neither |
| HostApproval.CodeVerifiedForAnyPeer | host/HostSession.cpp:323-352 | on every run with any peers who is authenticating or connected has said hello with a verifying code |
| HostApproval.ConnectedWithoutApproval | host/HostSession.cpp:354-389 | a concrete run in which a peer sends its codecs after its hello and is connected with no approval |
| Handshake.ApprovalKeeps | host/HostSession.cpp:134-173 | accepting is what puts capabilities on the way to the client |
| Handshake.ClientReceiveKeeps | client/ClientSession.cpp:285-328 | the client sends its codecs only in answer to capabilities and is connected only by an accepted result |
| Handshake.CapabilitiesKeep | host/HostSession.cpp:354-389 | the move to connected and the announced codec go together |
| Handshake.BadFrameIsQuiet | host/HostSession.cpp:267-285 | a frame that is no message takes its client off the table and does nothing for anyone |
| Handshake.KeyReadyExactly | networking/Protocol.cpp:272 | a key-ready message is read if and only if it carries nothing |
| Handshake.DefaultBodyEndsSession | app/HostCoordinator.cpp:221-224 | the frame the coordinator sends as key-ready ends the session of the client that reads it |
| Handshake.DefaultBodyDropsClient | app/ClientCoordinator.cpp:233-236 | the frame the client coordinator sends as key-ready makes the host drop the client for a protocol error |
| HandshakeProgress.HandshakeCompletes | networking/Protocol.h:5-17 | from any state with room the message exchange connects both sides with the agreed codec |
| HandshakeInterleaved.AsideKeepsStage | host/HostSession.cpp:243-580 | steps of other connections, application messages once connected, heartbeats and housekeeping within the timeouts leave the stage of a handshake as it is |
| HandshakeInterleaved.HandshakeCompletesInterleaved | networking/Protocol.h:5-17 | on every schedule that makes the steps of the exchange in order, with any such steps between them, both sides end connected with the agreed codec |
| HostCoordination.HostCoordinator.AssignPlayerIndex | app/HostCoordinator.cpp:251-258 | the first slot not in use, or 3 |
| HostCoordination.HostCoordinator.OnClientUpdated | app/HostCoordinator.cpp:172-181 | begin on connected unless in flight, tear down on disconnected |
| HostCoordination.RoomWhenAnnounced | app/HostCoordinator.cpp:260-287 | when a client without a stream is announced as connected, fewer than four are live |
| HostCoordination.SlotsStayDistinct | app/HostCoordinator.cpp:251-287 | with at most four clients all live streams have distinct indices in 0..3 and a free slot exists whenever one is begun |
| HostCoordination.StreamsAreLive | app/HostCoordinator.cpp:172-181 | on every run of announcements handled with cryptography at hand exactly the clients announced as connected have streams |
| HostCoordination.AnnouncedExactly | app/HostCoordinator.cpp:172-181 | an announcement begins or ends the stream of its client only |
| HostCoordination.FirstFreeIsLowest | app/HostCoordinator.cpp:251-258 | the slot is the lowest that is free, and in use only if all four are |
| InputInjection.NoStuckKeys | input/InputInjector.cpp:83-213 | on every run whatever is held is flagged by a player on record, keys only with keyboard permission, and nothing is held when no player is left |
| InputInjection.NothingHeldAfterAllLeft | input/InputInjector.cpp:188-213 | on every run in which every player disconnects after the last thing it did nothing is held |
| InputInjection.PermissionDecides | input/InputInjector.cpp:112-157 | a key event reaches the system exactly when the player's permission allows it at that moment |
| InputInjection.EventDecidedExactly | input/InputInjector.cpp:112-186 | an event reaches the system if and only if the permission for its kind is set and its code exists; it is counted as injected or rejected |
| InputInjection.ButtonFlagFollows | input/InputInjector.cpp:145-186 | a button event changes exactly that button's flag, with permission |
| InputInjection.ReportDecidedExactly | input/InputInjector.cpp:112-134 | a controller report goes to the driver exactly with permission and a known layout; other payloads are rejected |
| InputInjection.DisconnectedKeeps | input/InputInjector.cpp:206-213 | a leaving player's keys are released and the player is off the list |
| InputInjection.ButtonsReleasedExactly | input/InputInjector.cpp:92-110 | a change of permissions leaves none of a player's buttons flagged, and none held by the system, if and only if the keyboard is revoked or there was none; other buttons stay |
| InputInjection.MouseRevokedStillHeld | input/InputInjector.cpp:92-110 | a pressed button is still held after the mouse alone is revoked |
| InputInjection.InputInjector.ReleaseAllKeys | input/InputInjector.cpp:188-204 | both loops release exactly what the record flags |
| InputInjection.InputInjector.SetPermissions | input/InputInjector.cpp:92-110 | permissions are set and a lost keyboard releases everything |
| InputInjection.InputInjector.ApplyInput | input/InputInjector.cpp:112-143 | unpacking, live permission check, injection or rejection |
| InputInjection.InputInjector.ApplyEvent | input/InputInjector.cpp:145-186 | the flag follows the event, out-of-range codes are rejected |
| InputInjection.InputInjector.ClientDisconnected | input/InputInjector.cpp:206-213 | release, then removal of the record |

## Left out

- `open` as the inverse of `seal`: the cipher is a parameter, and the counter, the window and the keys are modelled.
- Concurrent calls of `open`: the transport calls it from one thread.
- Source locking, relay fallback, ping and pong of the UDP transport: they decide where datagrams go, not what they carry.
- The input reassembler, keyframe requests and the control callback of the UDP transport: single datagrams without further state.
- `reset` of tracker, reassembler and jitter buffer: a run is one stream without resets.
- What happens after a fragment was copied outside its buffer, or after a full table made `feed` evict the buffer it is about to fill: both are undefined in the program. The contracts of `feed` and of everything above it ask for exactly their absence (`Stays`, `RoomFor`); feed followed by gc never gets to the second.
- HostSafety.HostRuns: leaves the input column of the snapshot to HostSnapshot.SnapshotExactly.
- SequenceTracking.LossAccounting: stated without 64-bit wrap of sequence numbers.
- The gap wait of the jitter buffer is modelled as written, in nanoseconds against half the millisecond target; nothing is claimed about its duration.
- Texts of reject, negotiation and bye messages are empty in the model; log lines, callbacks of the user interface and the stop of a session are not part of it.
- A second `start` of the same client session: each client starts once.
- Failing calls of the operating system's input function: injected events are taken to arrive.
- Virtual gamepads (their answer is a parameter), rumble, capture, audio, video codecs and the signaling server.
- Per-message `writeMsg` and `readMsg` overloads: one field table stands for the sixteen pairs.
