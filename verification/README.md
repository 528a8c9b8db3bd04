# AnalogConnect: a verified model

This project models the parts of AnalogConnect whose correctness is a matter of whole
runs, and proves it. The daemon (Rust) receives iPhone notifications over Apple's
Notification Center Service, correlates them with Bluetooth MAP messages, bridges call
audio and serves a phone client; the client (Java) plays and captures that audio over a
WebSocket. Four areas are covered:

- **Notification ingest.** `AncsTransport` is the byte-level consumer: one outstanding
  request, a bounded queue, a replay window, reassembly of fragments. `AncsSupervisor` is
  the connection lifecycle around it. `AncsFates` says what becomes of
  every announced notification. `AncsGroups` is the bounded two-sided correlator, `AncsAnswers`
  what it answers, and `AncsEvidence` how it fails closed when evidence competes and where not.
- **Call audio.** `AudioCodec` and `AudioBatch` define the packet and batch formats once and
  measure both implementations against it. `AudioCapture` goes from PCM bytes to downlink
  messages; `RustJitter` and `JavaJitter` are the two jitter buffers; `Concealment` is the
  sample arithmetic; `CallAudioPump` is playout with trimming, concealment and pacing, with
  the receive thread's inserts falling between any two calls into the buffer, and
  `CallAudioHeard` is what that makes heard.
- **Sessions and admission.** `MediaAuth` (grants and leases under every interleaving),
  `MessageRegistry` (duplicate suppression), `MutationLimiting` (the rate limiter),
  `Aliasing`, `PageCursor`, `RowOrder` and `Paging` (opaque identifiers and pagination).
- **WebSocket framing.** `WebSocketWire`, against a reader written from sections 5.2 and 5.3
  of RFC 6455.

`Common`, `Hex` and `JitterLog` hold what several modules share.

Code that changes fields is a class whose methods are proved equal to a function on a value;
theorems about runs are about that function, over every sequence of events. `dafny verify
dfyconfig.toml` checks everything.

Where the code and its documentation disagree, the code is followed:

- docs/control-plane-security.md:109 says that an existing lease observes expiry. In the code
  a lease is inactive only after revocation (`MediaAuth.LeaseEndsOnlyByRevocation`).
- The comment at crates/analogconnectd/src/messages.rs:308 says that accepted identifiers
  survive for the daemon's lifetime. They survive for `capacity` further acceptances
  (`MessageRegistry.RememberedExactly`).

Some properties one might expect hold only under a condition, which is stated exactly or shown
to be needed:

- A buffered match is reported exactly unless it was made by an update in place
  (`AncsEvidence.FailClosed`, `AncsEvidence.SilentMatch`).
- An arrival is compared with the other side only, so a pair can be resolved while other
  buffered evidence competes for it (`AncsEvidence.ThirdMessageTakes`,
  `AncsEvidence.SecondNotificationTakes`); exactly then an earlier ambiguity named it
  (`AncsEvidence.MessageResolutionContested`, `AncsEvidence.NotificationResolutionContested`).
- A handle can be resolved twice if its message is presented again at the wrong time: when it
  is resolved already, or when it is paired while its first copy waits. The exact condition is
  `AncsGroups.LedgerExactly`, the two ways are `AncsGroups.RepeatedHandleResolvesTwice` and
  `AncsGroups.WaitingCopyResolvesTwice`.
- Pagination is complete up to 1,000,001 conversations and 65,536 messages and not beyond
  (`Paging.CompleteExactly`).
- A downlink message that straddles a queue drop is rejected whole by the handset
  (`AudioCapture.DownlinkToHandset`).
- The rate limiter's bound needs no order of instants, only that none lies before the start of
  the window it meets, give or take one instant (`MutationLimiting.ToleranceExactly`). The code
  reads the clock before it takes the lock, so it does not itself ensure that
  (`MutationLimiting.LateIsUnbounded`).

## Model

| member | source | states |
|---|---|---|
| `AncsTransport.FragmentationIndependence` | crates/analogconnectd/src/ancs_transport.rs:108-186 | However a response of at most 4096 bytes is cut into fragments, empty ones included: nothing is produced before the last byte, exactly the values sent (and the next queued request) are produced with it, and the final state is that of one whole fragment |
| `AncsTransport.ParseAcceptsExactlyEncodings` | crates/analogconnectd/src/ancs_transport.rs:166-186 | The parser yields values and a length if and only if the bytes begin with the encoding of exactly those values; the UID bytes are free |
| `AncsTransport.ParseFailsOnProperPrefix` | crates/analogconnectd/src/ancs_transport.rs:166-186 | No proper prefix of an encoded response parses |
| `AncsTransport.ParseAttributesLoop` | crates/analogconnectd/src/ancs_transport.rs:166-186 | The loop over an offset computes the recursive field-by-field reading |
| `AncsTransport.ReplaySuppression` | crates/analogconnectd/src/ancs_transport.rs:75-151 | A UID that completed once is requested again only after at least 64 pairwise distinct other UIDs have completed, in every run |
| `AncsTransport.RunConsistent` | crates/analogconnectd/src/ancs_transport.rs:83-151 | In every reachable state pending, queued and completed UIDs are pairwise distinct, the bounds 32, 64 and 4096 hold, and an idle consumer has an empty queue and response |
| `AncsTransport.StepConsistent` | crates/analogconnectd/src/ancs_transport.rs:83-151 | Every single notification or fragment, well-formed or not, keeps that invariant |
| `AncsTransport.WindowIsLogTail` | crates/analogconnectd/src/ancs_transport.rs:126-129 | The replay window is exactly the last 64 completions of the run |
| `AncsTransport.CompletionsDistinctInWindow` | crates/analogconnectd/src/ancs_transport.rs:91-129 | Any 65 consecutive completions are of 65 different notifications |
| `AncsTransport.BoundedDrain` | crates/analogconnectd/src/ancs_transport.rs:108-151 | Without new notifications, (queued + 1) * 4097 nonempty fragments of any content leave nothing pending, queued or buffered |
| `AncsTransport.DrainBoundIsTight` | crates/analogconnectd/src/ancs_transport.rs:108-151 | The bound is exact: one-byte junk keeps the consumer busy for every fragment but the last |
| `AncsTransport.RequestAsksForParsedAttributes` | crates/analogconnectd/src/ancs_transport.rs:153-164 | Read as the notification provider reads it, a request asks for exactly the attributes the parser expects, in that order, and never for the message body |
| `AncsFates.RequestBytes` | crates/analogconnectd/src/ancs_transport.rs:153-164 | The sixteen bytes of a request, one by one |
| `AncsFates.FieldLayout` | crates/analogconnectd/src/ancs_transport.rs:173-183 | The length of a field is its second and third byte, the low one first |
| `AncsFates.MessagesAppText` | crates/analogconnectd/src/ancs_transport.rs:3-3 | The application identifier is com.apple.MobileSMS |
| `AncsFates.AnnouncedWhenIdle` | crates/analogconnectd/src/ancs_transport.rs:85-101 | An idle consumer makes an announced, unremembered UID pending at once and writes exactly its request |
| `AncsFates.AnnouncedWhenBusy` | crates/analogconnectd/src/ancs_transport.rs:102-105 | A busy one puts it at the end of the queue, and drops it only when 32 are queued |
| `AncsFates.AnnouncedAgain` | crates/analogconnectd/src/ancs_transport.rs:91-96 | A UID that is completed, pending or queued changes nothing |
| `AncsFates.WithdrawnLeavesQueue` | crates/analogconnectd/src/ancs_transport.rs:87-90 | A withdrawn UID leaves the queue, every other keeps its place, and nothing else changes |
| `AncsFates.OtherBytes` | crates/analogconnectd/src/ancs_transport.rs:22-31 | Any other bytes are ignored |
| `AncsFates.UnaskedData` | crates/analogconnectd/src/ancs_transport.rs:112-117 | Data nobody asked for changes nothing |
| `AncsFates.OverflowAbandons` | crates/analogconnectd/src/ancs_transport.rs:112-117 | More than 4096 bytes abandon the pending UID, neither reported nor remembered, and the oldest queued one is asked for |
| `AncsFates.IncompleteIsKept` | crates/analogconnectd/src/ancs_transport.rs:118-121 | Up to 4096 bytes that are no response yet are kept and nothing is said |
| `AncsFates.ResponseCompletes` | crates/analogconnectd/src/ancs_transport.rs:122-137 | A response completes the pending UID, reports it if it is from Messages, and the oldest queued one is asked for |
| `AncsFates.EveryAnnouncementMeetsItsFate` | crates/analogconnectd/src/ancs_transport.rs:83-151 | No notification is lost: in every run each announced UID is, by the end, pending, queued, known among the last 64, turned away by a full queue, or completed, withdrawn or abandoned by a later event |
| `AncsTransport.ParseSourceEvent` | crates/analogconnectd/src/ancs_transport.rs:20-37 | Accepted exactly for eight bytes with event 0, 1 or 2; the UID is the last four bytes |
| `AncsTransport.AncsProtocolConsumer.NotificationSource` | crates/analogconnectd/src/ancs_transport.rs:85-106 | The fields updated in place follow the state machine, with the same request |
| `AncsTransport.AncsProtocolConsumer.DataSource` | crates/analogconnectd/src/ancs_transport.rs:108-138 | The fields updated in place follow the state machine, with the same metadata and request |
| `AncsSupervisor.LiveIsSessionRun` | crates/analogconnectd/src/ancs_transport.rs:228-294 | In every lifecycle the protocol state is the run of the current connection's events alone, so every theorem about runs holds per connection; the failure count is the true number of failures since readiness, capped at six |
| `AncsSupervisor.RetryDelay` | crates/analogconnectd/src/ancs_transport.rs:279-294 | Failures in a row retry after 2, 4, 8, 16, 32 and then always 64 seconds |
| `AncsSupervisor.ReadyExactly` | crates/analogconnectd/src/ancs_transport.rs:228-257 | The supervisor is ready if and only if the last lifecycle event other than bearer traffic completed the subscriptions |
| `AncsSupervisor.ForwardsExactlyWhenReady` | crates/analogconnectd/src/ancs_transport.rs:259-276 | Bearer traffic yields what the run of this session yields exactly while ready, and otherwise nothing |
| `AncsSupervisor.HandshakeReachesReady` | crates/analogconnectd/src/ancs_transport.rs:234-250 | From any state connecting and the two subscriptions ask for each other in turn and end ready with a fresh protocol |
| `AncsSupervisor.AncsSupervisor.OnNotificationSource` | crates/analogconnectd/src/ancs_transport.rs:259-265 | Passes bytes to the consumer only while ready |
| `AncsSupervisor.AncsSupervisor.OnDataSource` | crates/analogconnectd/src/ancs_transport.rs:267-276 | Passes fragments to the consumer only while ready |
| `AncsEvidence.FailClosed` | crates/analogconnectd/src/ancs_groups.rs:101-193 | In every run, if a buffered notification matches a waiting message, the observation that brought its current content was reported as ambiguous with that message's handle if and only if it was not an update in place |
| `AncsEvidence.FailClosedWithoutUpdates` | crates/analogconnectd/src/ancs_groups.rs:101-193 | If no UID is observed twice, every buffered match was reported as ambiguous when the notification arrived |
| `AncsEvidence.UpdateInPlaceIsSilent` | crates/analogconnectd/src/ancs_groups.rs:109-116 | In every state, an update in place returns nothing and leaves the notification and every waiting message buffered |
| `AncsEvidence.SilentMatch` | crates/analogconnectd/src/ancs_groups.rs:101-180 | A run in which an update makes a buffered pair match and no result says so |
| `AncsEvidence.ContestExactly` | crates/analogconnectd/src/ancs_groups.rs:101-193 | In every run whose handles each stand for one message, a buffered notification not updated in place is matched by a waiting message if and only if the result of its arrival named a handle that still waits |
| `AncsEvidence.MessageResolutionContested` | crates/analogconnectd/src/ancs_groups.rs:143-180 | When no handle and no UID comes twice, a notification resolved by an arriving message was also matched by another waiting message if and only if its arrival had been reported with a handle that still waits |
| `AncsEvidence.NotificationResolutionContested` | crates/analogconnectd/src/ancs_groups.rs:101-141 | Likewise a message resolved by an arriving notification was also matched by another buffered notification if and only if that one's arrival had been reported with its handle |
| `AncsEvidence.CompetitorsWereReported` | crates/analogconnectd/src/ancs_groups.rs:101-193 | In every run, each competitor of a resolved pair, on either side, was reported as ambiguous with its rival if and only if it was not updated in place |
| `AncsEvidence.ThirdMessageTakes` | crates/analogconnectd/src/ancs_groups.rs:143-180 | A contested resolution occurs: of three messages that match one notification the third takes it while the two reported as ambiguous go on waiting |
| `AncsEvidence.SecondNotificationTakes` | crates/analogconnectd/src/ancs_groups.rs:101-141 | A contested resolution occurs on the other side: a notification takes a message that an earlier buffered one still matches |
| `AncsGroups.StepKeepsLedger` | crates/analogconnectd/src/ancs_groups.rs:101-180 | While resolved handles are distinct and none of them waits, a step keeps that so if and only if it does not present a message whose handle is resolved and that would wait or be paired again, or pair a message whose first copy waits |
| `AncsGroups.LedgerExactly` | crates/analogconnectd/src/ancs_groups.rs:101-180 | That ledger is in order throughout a run if and only if no step of the run is such a repetition |
| `AncsGroups.HandlesResolvedOnce` | crates/analogconnectd/src/ancs_groups.rs:101-180 | In a run without such a repetition no handle is resolved twice and none waits once resolved; presenting a waiting message again is otherwise allowed |
| `AncsGroups.HandlesOnceNeverRepeats` | crates/analogconnectd/src/ancs_groups.rs:101-180 | A run that presents each handle at most once contains no such repetition |
| `AncsGroups.RepeatedHandleResolvesTwice` | crates/analogconnectd/src/ancs_groups.rs:143-180 | One way to be resolved twice: presented again after its resolution |
| `AncsGroups.WaitingCopyResolvesTwice` | crates/analogconnectd/src/ancs_groups.rs:154-179 | The other way: paired on a second presentation while the first copy goes on waiting, never presented after a resolution |
| `AncsGroups.ResolvedUidsDistinct` | crates/analogconnectd/src/ancs_groups.rs:106-127 | A resolved UID differs from each of the 64 resolved before it |
| `AncsGroups.CompletedIsTail` | crates/analogconnectd/src/ancs_groups.rs:195-200 | The completed window is exactly the last 64 resolved UIDs of the run |
| `AncsGroups.ResolvedPairsMatch` | crates/analogconnectd/src/ancs_groups.rs:101-221 | Every resolved result of a run records a presented notification and a presented message that agree in time and label, the later of which matched nothing else on the other side: handle and sender of the message; UID, time, subtitle and the group of the normalized subtitle of the notification; a direct candidate exactly when that is empty |
| `AncsGroups.SameGroupExactly` | crates/analogconnectd/src/ancs_groups.rs:20-32 | Two recorded groups have the same identifier exactly when the digests of their normalized subtitles agree |
| `AncsGroups.RunConsistent` | crates/analogconnectd/src/ancs_groups.rs:101-200 | In every reachable state buffered UIDs are distinct and disjoint from completed ones, buffered handles are distinct, and the bounds 32, 32 and 64 hold |
| `AncsGroups.NotificationWasPresented` | crates/analogconnectd/src/ancs_groups.rs:101-141 | Only a presented notification is ever buffered, unaltered |
| `AncsGroups.MessageWasPresented` | crates/analogconnectd/src/ancs_groups.rs:143-180 | Only a presented message is ever buffered, unaltered |
| `AncsGroups.MessageHitComplete` | crates/analogconnectd/src/ancs_groups.rs:117-123 | Every matching message is among the candidates and its handle among theirs; a single candidate is that message |
| `AncsGroups.NotificationHitComplete` | crates/analogconnectd/src/ancs_groups.rs:147-153 | Every matching notification is among the candidates; a single candidate is that notification |
| `AncsGroups.AncsMapCorrelator.ObserveAncs` | crates/analogconnectd/src/ancs_groups.rs:101-141 | The three queues updated in place follow the state machine, with the same result |
| `AncsGroups.AncsMapCorrelator.CorrelateMap` | crates/analogconnectd/src/ancs_groups.rs:143-180 | The three queues updated in place follow the state machine, with the same result |
| `AncsAnswers.MatchesExactly` | crates/analogconnectd/src/ancs_groups.rs:182-193 | Matching is agreement within the time limit and between the normalized title and the normalized display name, or sender if there is none |
| `AncsAnswers.UnmatchedMessage` | crates/analogconnectd/src/ancs_groups.rs:147-173 | A message with which no buffered notification agrees is pending and waits, unless its handle waits already; 32 wait at most |
| `AncsAnswers.MatchedMessage` | crates/analogconnectd/src/ancs_groups.rs:175-179 | A message with which exactly one agrees is recorded with it; the notification leaves the buffer and its UID is completed |
| `AncsAnswers.AmbiguousMessage` | crates/analogconnectd/src/ancs_groups.rs:154-173 | A message with which several agree is ambiguous under its own handle and time, and nothing changes |
| `AncsAnswers.CompletedNotification` | crates/analogconnectd/src/ancs_groups.rs:106-108 | A completed UID changes nothing and says nothing |
| `AncsAnswers.UpdatedNotification` | crates/analogconnectd/src/ancs_groups.rs:109-116 | A buffered UID is replaced in its place and nothing is said |
| `AncsAnswers.UnmatchedNotification` | crates/analogconnectd/src/ancs_groups.rs:117-140 | A new notification with which no waiting message agrees is buffered and nothing is said; 32 are buffered at most |
| `AncsAnswers.MatchedNotification` | crates/analogconnectd/src/ancs_groups.rs:124-128 | A new notification with which exactly one agrees is recorded with it; the message no longer waits and the UID is completed |
| `AncsAnswers.AmbiguousNotification` | crates/analogconnectd/src/ancs_groups.rs:129-140 | A new notification with which several agree is buffered and reported as ambiguous with the handles of exactly those, in the order in which they wait |
| `Hex.DecodeEncode` | crates/analogconnectd/src/media_auth.rs:282-307 | Decoding inverts encoding for every byte string |
| `Hex.EncodeDecode` | crates/analogconnectd/src/media_auth.rs:282-316 | Encoding what a valid text denotes gives that text in lower case, so case alone distinguishes texts of the same bytes |
| `Hex.EncodeLoop` | crates/analogconnectd/src/media_auth.rs:282-290 | The pushing loop computes the encoding |
| `Hex.DecodeLoop` | crates/analogconnectd/src/media_auth.rs:292-307 | The buffer-filling loop returns the bytes, or zeros and invalid |
| `MediaAuth.MutualExclusion` | crates/analogconnectd/src/media_auth.rs:88-264 | In every interleaving of issue, revoke, lease drop and the separate steps of claim, at most one live lease is active, and a grant's claimed flag is set exactly when one lease on it is live |
| `MediaAuth.StepKeepsInv` | crates/analogconnectd/src/media_auth.rs:84-264 | Every atomic step keeps the invariant: flags agree with leases, and only the current grant or the one being replaced under the lock is unrevoked |
| `MediaAuth.RunKeepsInv` | crates/analogconnectd/src/media_auth.rs:167-264 | Every state reached by any sequence of steps satisfies that invariant |
| `MediaAuth.LeaseEndsOnlyByRevocation` | crates/analogconnectd/src/media_auth.rs:102-171 | An active lease stops being active if and only if it is dropped or a step under the lock revokes its grant; expiry plays no part |
| `MediaAuth.RevokedStaysRevoked` | crates/analogconnectd/src/media_auth.rs:84-86 | Revocation is permanent |
| `MediaAuth.IssueOutcome` | crates/analogconnectd/src/media_auth.rs:201-221 | After issue the new grant is current and every earlier grant is revoked |
| `MediaAuth.ClaimOutcome` | crates/analogconnectd/src/media_auth.rs:223-247 | An undisturbed claim gets an active lease exactly when both texts denote the grant's bytes, it has not expired or been revoked, and nobody holds it |
| `MediaAuth.EnrollmentIsAccepted` | crates/analogconnectd/src/media_auth.rs:44-100 | The hexadecimal enrollment is accepted by the registry that issued it exactly until it expires |
| `MediaAuth.LateExchangeIsInactive` | crates/analogconnectd/src/media_auth.rs:88-100 | A claim authorized before and exchanged after a revocation gets a lease that is not active |
| `MediaAuth.RevokeOutcome` | crates/analogconnectd/src/media_auth.rs:249-264 | Revoking by a text that denotes the current identifier leaves no current session, revokes the grant, and no lease is active; by any other text nothing changes |
| `MediaAuth.RevokedIsUnclaimable` | crates/analogconnectd/src/media_auth.rs:223-264 | After that no claim with any texts gets an active lease |
| `MediaAuth.RevokedForGood` | crates/analogconnectd/src/media_auth.rs:249-264 | In every interleaving, once a step took the session away and a later one stored its revocation, no lease on that grant is ever active again |
| `MediaAuth.ReconnectAfterDrop` | crates/analogconnectd/src/media_auth.rs:154-171 | A dropped lease is gone, and the same texts claim the session again exactly while it is valid |
| `AudioCodec.DecodeWireExact` | crates/analogconnect-core/src/audio.rs:115-168 | A byte string is accepted as a packet if and only if it is the encoding of that valid packet |
| `AudioCodec.DecodeWireInverts` | crates/analogconnect-core/src/audio.rs:115-168 | Decoding inverts encoding on valid packets |
| `AudioCodec.DecodeWireSound` | crates/analogconnect-core/src/audio.rs:137-168 | Whatever is accepted is valid and encodes back to the same bytes |
| `AudioCodec.NewFrame` | crates/analogconnect-core/src/audio.rs:36-51 | A frame exists exactly when its samples fit its format |
| `AudioCodec.RustEncode` | crates/analogconnect-core/src/audio.rs:115-135 | Produces the wire bytes for the two HFP formats and sequences up to the signed maximum, and the right error otherwise |
| `AudioCodec.RustDecodeExact` | crates/analogconnect-core/src/audio.rs:137-168 | Accepts exactly what the wire format accepts, as that packet |
| `AudioCodec.RustRoundTrip` | crates/analogconnect-core/src/audio.rs:115-168 | Every encodable packet is read back unchanged |
| `AudioCodec.PacketLayout` | crates/analogconnect-core/src/audio.rs:86-135 | The bytes of a packet, place by place: letters, version, format, zeros, sequence and capture time high byte first, samples low byte first |
| `AudioCodec.FormatNumbers` | crates/analogconnect-core/src/audio.rs:122-126 | Format 1 is 60 samples at 8 kHz and format 2 is 120 at 16 kHz, both mono; sequence, time and samples are the frame's |
| `AudioCodec.RustDecodeErrors` | crates/analogconnect-core/src/audio.rs:137-168 | Each error exactly for its cause, the first that applies in the order header, format, payload length, sequence |
| `Common.SamplePlaces` | crates/analogconnect-core/src/audio.rs:131-164 | The low byte of a sample comes first and the top bit of the high one is the sign |
| `Common.BigEndianPlaces` | crates/analogconnect-core/src/audio.rs:129-160 | Of a sequence or time the first byte counts most |
| `AudioCodec.JavaEncode` | android/src/com/analogconnect/client/AudioPacketCodec.java:15-37 | Produces the wire bytes of a valid packet and refuses every other |
| `AudioCodec.JavaDecode` | android/src/com/analogconnect/client/AudioPacketCodec.java:39-71 | Accepts exactly what the wire format accepts, with the same fields |
| `AudioBatch.DecodersAgree` | crates/analogconnectd/src/lib.rs:1091-1130 | On every byte string the Rust and the Java batch decoders both reject, or both accept with the same formats, sequences and samples |
| `AudioBatch.ValidBatchExactly` | crates/analogconnectd/src/lib.rs:1098-1125 | A batch is one to four valid packets of one format, each numbered one after the other |
| `AudioBatch.RustDecodeBatch` | crates/analogconnectd/src/lib.rs:1091-1130 | Accepts exactly the encodings of one to four consecutive packets of one format and returns those frames |
| `AudioBatch.JavaDecodeBatch` | android/src/com/analogconnect/client/AudioPacketCodec.java:87-115 | Accepts exactly the same encodings although continuity is checked at the end |
| `AudioBatch.ValidateBatch` | android/src/com/analogconnect/client/AudioPacketCodec.java:117-130 | Accepts exactly one to four frames of one known format with consecutive long sequences |
| `AudioBatch.JavaContiguous` | android/src/com/analogconnect/client/AudioPacketCodec.java:117-130 | Wrap-around of long addition cannot hide a gap, because sequences on the wire are not negative |
| `AudioBatch.JavaEncodeBatch` | android/src/com/analogconnect/client/AudioPacketCodec.java:73-85 | Exactly the valid batches are encoded, as the concatenation of their packets |
| `AudioBatch.EncodeBatchInjective` | android/src/com/analogconnect/client/AudioPacketCodec.java:73-115 | Batches are determined by their bytes |
| `AudioBatch.Peel` | android/src/com/analogconnect/client/AudioPacketCodec.java:87-107 | The packet code is prefix-free: packets read from the front of a batch are its first packets |
| `RustJitter.Conservation` | crates/analogconnectd/src/audio.rs:126-172 | Over every run, received equals emitted plus duplicate, late, overflow and depth; each counter is the true count saturated; the capacity is never exceeded |
| `RustJitter.PlayoutOrder` | crates/analogconnectd/src/audio.rs:126-172 | Over every run, emitted sequences strictly increase, no held frame is behind the position, and the position is the first emitted sequence plus emitted plus missing |
| `RustJitter.HoldsSmallest` | crates/analogconnectd/src/audio.rs:126-150 | Until playout begins the buffer holds exactly the capacity-many smallest distinct sequences that ever arrived |
| `RustJitter.EmittedFrameArrived` | crates/analogconnectd/src/audio.rs:154-172 | Every frame handed out is a frame that arrived, under its own sequence |
| `RustJitter.StartsExactlyAtTarget` | crates/analogconnectd/src/audio.rs:126-172 | In every run playout has begun if and only if some tick found the target depth reached |
| `RustJitter.FirstTickEmitsLeast` | crates/analogconnectd/src/audio.rs:154-172 | Before that a tick yields and changes nothing; the first that finds the depth reached yields the least sequence held |
| `RustJitter.PlayingTick` | crates/analogconnectd/src/audio.rs:154-172 | While playing a tick yields what is held at the position, if anything, and moves the position on by one |
| `RustJitter.InsertKeepsNearest` | crates/analogconnectd/src/audio.rs:126-150 | A late or duplicate frame changes nothing; otherwise exactly the nearest capacity-many of the frames held and the new one are held, each as it arrived |
| `RustJitter.InsertCounts` | crates/analogconnectd/src/audio.rs:126-150 | Which counters an insertion raises: late, duplicate or overflow, each exactly for its cause |
| `RustJitter.TickCounts` | crates/analogconnectd/src/audio.rs:162-171 | Which counter a tick raises: emitted or missing |
| `RustJitter.RunHolds` | crates/analogconnectd/src/audio.rs:126-172 | The full invariant of counts, order and position in every run |
| `RustJitter.StepHolds` | crates/analogconnectd/src/audio.rs:126-172 | Each insertion and each tick keeps that invariant |
| `RustJitter.JitterBuffer.InsertFrame` | crates/analogconnectd/src/audio.rs:126-150 | The map, position and counters updated in place follow the state machine |
| `RustJitter.JitterBuffer.TickFrame` | crates/analogconnectd/src/audio.rs:154-172 | The map, position and counters updated in place follow the state machine, with the same frame |
| `JavaJitter.RunHolds` | android/src/com/analogconnect/client/AudioJitterBuffer.java:27-83 | Over every run: counters count the log, received equals emitted plus duplicate, late, overflow and depth, the capacity holds, emitted sequences strictly increase, no held packet is behind the position |
| `JavaJitter.GapPolicy` | android/src/com/analogconnect/client/AudioJitterBuffer.java:57-83 | Playing, nonempty, without arrivals: exactly first key minus next ticks yield nothing, and the one after emits the first packet |
| `JavaJitter.EmitsAfterDropOldest` | android/src/com/analogconnect/client/AudioJitterBuffer.java:38-51 | After an overflow that drops the oldest packet the very next tick emits the first one held |
| `JavaJitter.EmittedPacketArrived` | android/src/com/analogconnect/client/AudioJitterBuffer.java:57-83 | Every packet handed out is a packet that arrived, under its own sequence |
| `JavaJitter.StartsExactlyAtTarget` | android/src/com/analogconnect/client/AudioJitterBuffer.java:27-83 | In every run playout has begun if and only if some tick found the target depth reached |
| `JavaJitter.FirstTickEmitsLeast` | android/src/com/analogconnect/client/AudioJitterBuffer.java:57-83 | Before that a tick yields and changes nothing; the first that finds the depth reached yields the least sequence held |
| `JavaJitter.PlayingTick` | android/src/com/analogconnect/client/AudioJitterBuffer.java:57-83 | While playing a tick yields what is held at the position, if anything, and moves the position on by one, but an empty buffer keeps it |
| `JavaJitter.InsertHoldsNewest` | android/src/com/analogconnect/client/AudioJitterBuffer.java:27-54 | A late or duplicate packet changes nothing; any other is held; a full buffer gives up exactly one for it, the furthest if the new one is nearer and otherwise the oldest |
| `JavaJitter.InsertCounts` | android/src/com/analogconnect/client/AudioJitterBuffer.java:27-54 | Which counters an insertion raises: late, duplicate or overflow, each exactly for its cause |
| `JavaJitter.TickCounts` | android/src/com/analogconnect/client/AudioJitterBuffer.java:68-82 | Which counter a tick raises: emitted or missing |
| `JavaJitter.AudioJitterBuffer.InsertPacket` | android/src/com/analogconnect/client/AudioJitterBuffer.java:27-54 | The map, position and counters updated in place follow the state machine |
| `JavaJitter.AudioJitterBuffer.TickPacket` | android/src/com/analogconnect/client/AudioJitterBuffer.java:57-83 | The map, position and counters updated in place follow the state machine, with the same packet |
| `Concealment.RampIsExactAndMonotone` | android/src/com/analogconnect/client/CallAudioPump.java:226-239 | For all 16-bit inputs concealed samples move monotonically from the last sample heard, end exactly at the end sample, and no short cast loses value |
| `Concealment.RampInterpolates` | android/src/com/analogconnect/client/CallAudioPump.java:232-235 | Each concealed sample is the point of the straight line between the two ends, rounded toward the start |
| `Concealment.BlendRejoins` | android/src/com/analogconnect/client/CallAudioPump.java:212-224 | For all 16-bit inputs recovery samples lie between the last sample and the original, the frame has rejoined the original at the end of the transition, and no short cast loses value |
| `Concealment.BlendWeighs` | android/src/com/analogconnect/client/CallAudioPump.java:216-221 | Each recovery sample is the weighted mean of the last sample and the original, rounded toward zero |
| `Concealment.FillRamp` | android/src/com/analogconnect/client/CallAudioPump.java:231-235 | The array loop computes the ramp |
| `Concealment.FillBlend` | android/src/com/analogconnect/client/CallAudioPump.java:213-221 | The array loop on a clone computes the blend |
| `CallAudioPump.PlayoutAccounting` | android/src/com/analogconnect/client/CallAudioPump.java:171-210 | Over every run, inserts interleaved anywhere: jitter emissions equal real frames written plus trimmed ones, trimmed is at most (real + 31) / 32, real frames are written in increasing sequence, and the concealment counter is exact |
| `CallAudioPump.OneFramePerInterval` | android/src/com/analogconnect/client/CallAudioPump.java:171-210 | In every run an interval writes a frame exactly when playout has begun by its tick, and once begun every later interval writes exactly one |
| `CallAudioPump.PacingBounded` | android/src/com/analogconnect/client/CallAudioPump.java:192-208 | Pacing is a multiple of 15000 ns within -300000 and 150000 in every run |
| `CallAudioHeard.EveryWrittenFrame` | android/src/com/analogconnect/client/CallAudioPump.java:171-239 | Over every run of well-formed arrivals, inserts falling anywhere: a concealed frame is the straight line from the sample heard last to the first sample of the packet at the position, or silence; a real one is the packet played, after a concealed frame or a trim blended from the sample heard last over its first 12 or 24 samples, and otherwise unaltered |
| `CallAudioHeard.RunRemembers` | android/src/com/analogconnect/client/CallAudioPump.java:185-209 | In every run the pump remembers exactly the sample heard last, whether the last frame was concealed, and whether any was written |
| `CallAudioHeard.PlayedHasArrived` | android/src/com/analogconnect/client/CallAudioPump.java:171-188 | What an interval plays is a packet that has arrived |
| `CallAudioHeard.StartsExactlyAtFour` | android/src/com/analogconnect/client/CallAudioPump.java:16-38 | In every run playout has begun if and only if some interval found four packets |
| `CallAudioHeard.FirstFrame` | android/src/com/analogconnect/client/CallAudioPump.java:171-188 | Until then intervals write nothing; the first that finds four packets writes a real frame, which unless trimmed is the packet with the least sequence, unaltered |
| `CallAudioHeard.TrimsExactly` | android/src/com/analogconnect/client/CallAudioPump.java:172-184 | An interval plays what its tick emits, or what a second tick emits exactly when more than 12 packets are held and the last trim was 32 real frames ago |
| `CallAudioHeard.SinceTrimIsCounted` | android/src/com/analogconnect/client/CallAudioPump.java:48-181 | The counter is the number of real frames since the last trim, as if 32 had been written before the first |
| `CallAudioHeard.PacingDirection` | android/src/com/analogconnect/client/CallAudioPump.java:192-208 | A real frame with more than five packets left speeds playout up to the limit, with four or five takes back a slow pace, with fewer than three a fast one, with three changes nothing; a concealed frame slows it down to the limit |
| `CallAudioHeard.RoomFor64` | android/src/com/analogconnect/client/CallAudioPump.java:16-38 | The buffer has room for 64 packets and gives one up for a new one only at that |
| `CallAudioPump.ChooseKeeps` | android/src/com/analogconnect/client/CallAudioPump.java:171-184 | The calls into the buffer extend the played sequences in order, skip one emission exactly when trimming, and trim only 32 frames after the last trim |
| `CallAudioPump.RenderKeeps` | android/src/com/analogconnect/client/CallAudioPump.java:185-209 | Exactly what was chosen is written, and the counters move accordingly |
| `CallAudioPump.PlayoutKeeps` | android/src/com/analogconnect/client/CallAudioPump.java:171-210 | One interval keeps the books balanced, whatever arrives in between |
| `CallAudioPump.CallAudioPump.ReceiveOnce` | android/src/com/analogconnect/client/CallAudioPump.java:158-169 | All packets of a valid batch of the session's format are inserted; for every other byte string none is |
| `CallAudioPump.CallAudioPump.Playout` | android/src/com/analogconnect/client/CallAudioPump.java:171-210 | One interval as the object performs it follows the state machine |
| `CallAudioPump.CaptureBatch` | android/src/com/analogconnect/client/CallAudioPump.java:141-156 | A message is sent exactly for four full frames of the session's format numbered as asked, and it is their batch |
| `CallAudioPump.UplinkToDaemon` | crates/analogconnectd/src/lib.rs:1091-1130 | Every message the handset sends is accepted by the daemon's decoder, with the microphone's frames |
| `AudioCapture.DownlinkToHandset` | crates/analogconnectd/src/lib.rs:1132-1153 | From queue to handset, whatever is captured meanwhile: a message goes out exactly when a frame was there, and the Java decoder accepts it, with exactly the frames taken, if and only if the queue dropped nothing between the first and last pop |
| `AudioCapture.MessageAcceptedIffNoDrop` | crates/analogconnectd/src/lib.rs:1132-1153 | The packets taken form a valid batch if nothing was dropped between the pops; otherwise their bytes are no batch at all |
| `AudioCapture.TakeNumbered` | crates/analogconnectd/src/lib.rs:1138-1145 | The k-th frame taken is the k-th after the queue's first plus what was dropped meanwhile |
| `AudioCapture.TakesUntilEmpty` | crates/analogconnectd/src/lib.rs:1138-1145 | Fewer than four frames are taken only if the queue ran empty |
| `AudioCapture.TakesOldest` | crates/analogconnectd/src/lib.rs:1138-1145 | With nothing captured meanwhile a message takes the oldest frames in order |
| `AudioCapture.TakeDownlinkBatch` | crates/analogconnectd/src/lib.rs:1132-1153 | The pops and their packets, concatenated; a frame that cannot be encoded ends the call |
| `AudioCapture.QueueHoldsSuffix` | crates/analogconnectd/src/audio.rs:912-947 | In every run the queue holds exactly the frames pushed last, in order, and enqueued equals dequeued plus dropped plus depth |
| `AudioCapture.QueueSteps` | crates/analogconnectd/src/audio.rs:912-947 | In every run a push drops a frame only when the queue is full, and then the oldest; a pop takes the oldest |
| `AudioCapture.HfpFormats` | crates/analogconnectd/src/audio.rs:777-786 | The formats that can be read and written |
| `AudioCapture.BoundedAudioQueue.PushFrame` | crates/analogconnectd/src/audio.rs:912-928 | Appends, dropping the oldest when full; the saturating counters stay the true counts saturated |
| `AudioCapture.BoundedAudioQueue.PopFrame` | crates/analogconnectd/src/audio.rs:930-947 | Takes the oldest; the saturating counters stay the true counts saturated |
| `AudioCapture.PcmFrameReader.ReadNumbered` | crates/analogconnectd/src/audio.rs:715-740 | Under any schedule of short reads the frames are the stream's consecutive chunks, numbered from zero |
| `AudioCapture.WriteFrame` | crates/analogconnectd/src/audio.rs:759-770 | The frame's samples as bytes, or a format mismatch |
| `AudioCapture.WrittenIsRead` | crates/analogconnectd/src/audio.rs:715-770 | Chunk i of what was written holds the samples of frame i |
| `AudioCapture.CaptureIntoBridge` | crates/analogconnectd/src/audio.rs:635-649 | The queue always holds the frames numbered just before the reader's next one |
| `WebSocketWire.RfcReadsClientFrame` | android/src/com/analogconnect/client/WebSocketWire.java:85-106 | A decoder written from sections 5.2 and 5.3 of RFC 6455 with its own unmasking bit by bit, recovers opcode and payload from every written frame, for every legal payload and mask, and consumes exactly that frame |
| `WebSocketWire.WriteClientFrame` | android/src/com/analogconnect/client/WebSocketWire.java:85-106 | Exactly the legal frames are written, masked in place by the loop |
| `WebSocketWire.MaskedTwice` | android/src/com/analogconnect/client/WebSocketWire.java:100-103 | Masking is its own inverse |
| `WebSocketWire.XorIsBitwise` | android/src/com/analogconnect/client/WebSocketWire.java:100-103 | Each bit of a masked byte is set exactly when the bits of payload and mask differ |
| `WebSocketWire.XorFlips` | android/src/com/analogconnect/client/WebSocketWire.java:100-103 | The bytewise operation flips exactly the bits set in the mask |
| `WebSocketWire.LegalExactly` | android/src/com/analogconnect/client/WebSocketWire.java:132-140 | Which frames may be sent and are accepted: opcodes 2, 8, 9 and 10, at most 1056 bytes, control frames at most 125, a close frame not exactly one |
| `WebSocketWire.AcceptsExactlyEncodings` | android/src/com/analogconnect/client/WebSocketWire.java:108-140 | A frame is accepted if and only if the bytes begin with its unmasked, minimal-length encoding and it is legal |
| `WebSocketWire.AcceptedFramesAreRfcFrames` | android/src/com/analogconnect/client/WebSocketWire.java:108-130 | What is accepted, the decoder written from the standard reads the same way |
| `WebSocketWire.ProperPrefixIsEndOfStream` | android/src/com/analogconnect/client/WebSocketWire.java:108-130 | A frame cut short reads as the end of the stream, never as another frame |
| `WebSocketWire.EndOfStreamIsIncomplete` | android/src/com/analogconnect/client/WebSocketWire.java:108-130 | What reads as the end of the stream the standard's reading finds incomplete too |
| `WebSocketWire.InvalidIsFinal` | android/src/com/analogconnect/client/WebSocketWire.java:108-140 | What is refused is refused whatever follows |
| `WebSocketWire.FirstUnique` | android/src/com/analogconnect/client/WebSocketWire.java:108-130 | At most one frame begins at a given place |
| `WebSocketWire.SplitIsUnique` | android/src/com/analogconnect/client/WebSocketWire.java:108-130 | Equal byte streams are the same frames |
| `WebSocketWire.ReadBack` | android/src/com/analogconnect/client/WebSocketWire.java:108-130 | Any concatenation of legal frames is read back as exactly those frames under any schedule of short reads, leaving what follows |
| `WebSocketWire.ReadServerFrame` | android/src/com/analogconnect/client/WebSocketWire.java:108-130 | Reading byte by byte does what the bytes say and consumes exactly the accepted frame |
| `WebSocketWire.ReadExact` | android/src/com/analogconnect/client/WebSocketWire.java:180-193 | Exactly the next bytes if there are enough, the end of the stream if and only if there are not |
| `MessageRegistry.AtMostOnce` | crates/analogconnectd/src/messages.rs:316-352 | Over any trace, two New answers for one identifier are separated by its failure, or by its acceptance followed by at least capacity different acceptances |
| `MessageRegistry.RememberedExactly` | crates/analogconnectd/src/messages.rs:337-347 | After an acceptance the identifier is a duplicate until exactly capacity different operations have been accepted, and then new again |
| `MessageRegistry.InFlightExactly` | crates/analogconnectd/src/messages.rs:327-351 | Over any trace an operation is in flight, and answered so, if and only if it was started and neither accepted nor failed since |
| `MessageRegistry.AcceptedExactly` | crates/analogconnectd/src/messages.rs:327-347 | Over any trace an operation is answered as accepted if and only if it is among the last capacity acceptances that were not repetitions |
| `MessageRegistry.FailedCanRestart` | crates/analogconnectd/src/messages.rs:327-351 | A failed operation can be started again unless it is remembered as accepted |
| `MessageRegistry.OperationIdExactly` | crates/analogconnectd/src/messages.rs:285-292 | An identifier is 32 hexadecimal digits of either case |
| `MessageRegistry.RunConsistent` | crates/analogconnectd/src/messages.rs:316-352 | Over any trace the accepted set is the elements of the order, without repetition, at most capacity many, disjoint from in flight |
| `MessageRegistry.AcceptShape` | crates/analogconnectd/src/messages.rs:337-347 | An acceptance goes to the end of the order and the oldest leaves exactly when that is one too many |
| `MessageRegistry.SameOperation` | crates/analogconnectd/src/messages.rs:285-292 | Two accepted texts are the same identifier exactly when they denote the same sixteen bytes |
| `MessageRegistry.MessageOperationRegistry.BeginOperation` | crates/analogconnectd/src/messages.rs:327-335 | The sets updated in place follow the state machine, with the same answer |
| `MessageRegistry.MessageOperationRegistry.AcceptOperation` | crates/analogconnectd/src/messages.rs:337-347 | The eviction loop follows the state machine |
| `MutationLimiting.SlidingWindowBound` | crates/analogconnectd/src/auth.rs:110-124 | In whatever order instants are presented, as long as none lies more than one instant before the start of the window it meets, any half-open interval as long as the window holds at most twice the maximum of accepted mutations |
| `MutationLimiting.SlidingWindowBoundInOrder` | crates/analogconnectd/src/auth.rs:110-124 | In particular under a nondecreasing clock |
| `MutationLimiting.InOrderIsPunctual` | crates/analogconnectd/src/auth.rs:110-118 | Under a nondecreasing clock no request lies before the window it meets |
| `MutationLimiting.ToleranceExactly` | crates/analogconnectd/src/auth.rs:110-124 | For every window but that of a single instant, the bound holds for all requests at most so late if and only if that is at most one instant, or the maximum is at most one, or the window is empty |
| `MutationLimiting.BoundIsReached` | crates/analogconnectd/src/auth.rs:110-124 | The bound is exact: two bursts of punctual requests reach it for every maximum and every window of two instants or more |
| `MutationLimiting.RefusalIsEarned` | crates/analogconnectd/src/auth.rs:115-121 | Under a nondecreasing clock a refused request had maximum accepted ones in the window-long interval that ends with it |
| `MutationLimiting.LateIsUnbounded` | crates/analogconnectd/src/auth.rs:106-124 | With no limit on lateness any number of requests can be accepted at one instant |
| `MutationLimiting.MutationLimiter.AllowAt` | crates/analogconnectd/src/auth.rs:110-124 | The fields updated in place follow the state machine, and the counter never reaches saturation |
| `Aliasing.IdentifiersAreFaithful` | crates/analogconnectd/src/conversations.rs:278-327 | Two answers anywhere in a run are the same identifier if and only if they are for the same conversation |
| `Aliasing.IssuedForGood` | crates/analogconnectd/src/conversations.rs:278-327 | An identifier, once answered, leads to its conversation for the rest of the run |
| `Aliasing.RunInverse` | crates/analogconnectd/src/conversations.rs:278-322 | In every run the two maps are inverses of each other |
| `Aliasing.StepKeeps` | crates/analogconnectd/src/conversations.rs:278-322 | One request keeps the maps inverse, keeps every binding, and binds its answer to its key |
| `Aliasing.NoFreshIdExactly` | crates/analogconnectd/src/conversations.rs:306-321 | No identifier is found exactly when every draw before the first failure, or every draw, is in use |
| `Aliasing.StableIsTheKey` | crates/analogconnectd/src/conversations.rs:279-296 | A stable identifier is the key itself, unless that names another conversation |
| `Aliasing.OpaqueIsDrawn` | crates/analogconnectd/src/conversations.rs:298-321 | An opaque identifier is the text of the first draw not in use |
| `Aliasing.KnownKeepsIdentifier` | crates/analogconnectd/src/conversations.rs:283-305 | A conversation that has an identifier keeps it |
| `Aliasing.ConversationAliases.ExposeStableId` | crates/analogconnectd/src/conversations.rs:279-296 | The maps updated in place follow the state machine |
| `Aliasing.ConversationAliases.IdFor` | crates/analogconnectd/src/conversations.rs:298-321 | The drawing loop follows the state machine |
| `PageCursor.ParseEncode` | crates/analogconnectd/src/conversations.rs:333-356 | A cursor handed out is read back as the same offset |
| `PageCursor.ParseAcceptsExactlyEncodings` | crates/analogconnectd/src/conversations.rs:333-356 | The accepted texts are exactly the encodings of the offsets up to 1,000,000, in either case of letters |
| `PageCursor.CursorLength` | crates/analogconnectd/src/conversations.rs:333-356 | A cursor has sixteen digits, zero-padded, and no shorter or longer text is accepted |
| `PageCursor.HexPlaces` | crates/analogconnectd/src/conversations.rs:342-356 | The first digit counts most |
| `RowOrder.SortByMeaning` | crates/analogconnectd/src/conversations.rs:237-242 | The sort loses and repeats nothing and orders the rows |
| `RowOrder.SortByIsStable` | crates/analogconnectd/src/conversations.rs:237-242 | Rows that tie keep their stored order |
| `RowOrder.TextLeMeaning` | crates/analogconnectd/src/conversations.rs:241-241 | Keys compare as a beginning of each other or by their first difference |
| `Paging.ConversationRowsMeaning` | crates/analogconnectd/src/conversations.rs:231-244 | The listing holds every stored conversation as often as stored, most recent first, then by key |
| `Paging.MessageRowsMeaning` | crates/analogconnectd/src/conversations.rs:246-269 | The listing holds exactly the stored messages of the conversation, most recent first, then by descending identifier |
| `Paging.InMemoryConversationRepository.MessagesFor` | crates/analogconnectd/src/conversations.rs:246-269 | The requested window of that listing |
| `Paging.ConversationPage` | crates/analogconnectd/src/lib.rs:641-723 | The page that slicing the sorted listing gives, with identifiers that lead back to their conversations; an error exactly for an invalid cursor or limit or a row that gets no identifier; identifiers issued before stay |
| `Paging.ShowMeaning` | crates/analogconnectd/src/lib.rs:675-717 | Every identifier on a page leads back to its row's conversation, identifiers issued before stay, and a complete page shows all its rows in order |
| `Paging.ShownIdentifiers` | crates/analogconnectd/src/lib.rs:689-697 | Each row is shown under the identifier its conversation has; else an ANCS group under its key and any other row under a draw that names nothing yet |
| `Paging.MessagePage` | crates/analogconnectd/src/lib.rs:745-782 | Each error exactly for its cause and in the order of the checks; otherwise the page of the conversation the identifier was issued for |
| `Paging.LookaheadIsSlicing` | crates/analogconnectd/src/lib.rs:753-778 | Fetching one row more than asked gives the same page as slicing the whole listing |
| `Paging.PageLimitExactly` | crates/analogconnectd/src/lib.rs:785-791 | A page has the size asked for, from 1 to 100, and 50 if none is asked; anything else is refused |
| `Paging.RefusedExactly` | crates/analogconnectd/src/lib.rs:641-791 | A page is refused exactly for a text that is no cursor, a size out of range, or a message offset beyond 65,535, and always as unprocessable |
| `Paging.TextReadsOffsets` | crates/analogconnectd/src/lib.rs:641-791 | Whatever a client asks for, valid or not, following cursor texts gives what following offsets would |
| `Paging.PagesAreComplete` | crates/analogconnectd/src/lib.rs:641-791 | Following cursors with any limits gives the rows in order, each once: all of them once enough were asked for, before that exactly as many as asked, with a cursor for the next |
| `Paging.CompleteExactly` | crates/analogconnectd/src/lib.rs:641-791 | Every schedule of limits reads the whole listing if and only if it has at most 1,000,001 conversations or 65,536 messages |
| `Paging.OneByOneNeverDone` | crates/analogconnectd/src/lib.rs:718-778 | On a longer listing a client reading one row at a time never finishes: the conversation cursor stops advancing, the message cursor is refused |
| `Paging.CursorRepeats` | crates/analogconnectd/src/conversations.rs:359-361 | On a longer listing the conversation cursor 1,000,000 hands out itself, at every page size that does not reach the end |
| `Paging.ConversationsReadOnce` | crates/analogconnectd/src/lib.rs:641-723 | A client reads every stored conversation exactly as often as it is stored, in order |
| `Paging.MessagesReadOnce` | crates/analogconnectd/src/lib.rs:733-783 | A client reads every stored message of one conversation exactly as often as it is stored, in order, and no other |

Constructors, accessors and the pieces that larger methods are made of carry contracts as
well; the table lists the members that state a property.

## Left out

- BlueZ, child processes, sockets, TLS, the binaries and Android activities and services: platform calls without logic of their own.
- Unicode normalization, case folding, SHA-256 and lossy UTF-8 decoding: library functions, kept as uninterpreted parameters.
- `apply_correlation` and the SQLite stores: their behaviour is in code outside the repository.
- HTTP handlers, JSON, headers and bearer-token checks, contact-name lookup and the title, kind and reply fields of a conversation item: plumbing around the paging functions.
- The state tables of calls and physical keys: finite tables.
- The WebSocket handshake: depends on SHA-1 and Base64.
- `notification_action_request`: a fixed six-byte array.
- `captureOnce`, thread start and stop, and the deadline arithmetic of the playout thread: `captureBatch` is the path in use, and time is not modelled there.
- `playback_from_bridge` and the uplink queue's consumer: easy members beside the downlink.
- Poisoned locks: every locking call may additionally fail with a fixed error that changes nothing.
- Latency counters and the wall clock: time is an argument where it decides something.
- MediaAuth: modelled as atomic steps on values instead of classes, because its claims are about interleavings; the lifetime check of one second to five minutes, the random source and constant-time comparison are not part of it, and memory ordering is taken as sequentially consistent.
- JavaJitter.RunHolds: the six long counters are unbounded here; the source's would wrap after 2^63 frames.
- CallAudioPump.PlayoutAccounting: `trimmedFrames` and `concealedFrames` are unbounded too, while the wrap-around of the int counter between trims is modelled.
- CallAudioHeard.EveryWrittenFrame: assumes arrivals of full frames, which is what `receiveOnce` lets through; an empty sample array, which Java would reject with an exception, is read as silence.
- AudioBatch.JavaDecodeBatch: null arrays and null frames are not values here, and the messages of exceptions are not distinguished.
- WebSocketWire.WriteClientFrame: a null payload is not a value here, and the bytes written before an I/O failure of the output are not modelled.
- RowOrder.SortByMeaning: the library sort is modelled on values by its result, not its algorithm or its update in place.
- Aliasing.ConversationAliases.IdFor: the random source is a sequence of four possible answers.
- MutationLimiting.SlidingWindowBound: instants are unbounded integers.
- MutationLimiting.ToleranceExactly: leaves out the window of a single nanosecond, for which only the first direction (`SlidingWindowBound`) is stated.
- Offsets and lengths that would overflow a 64-bit `usize` are not modelled: no reachable value comes near it.
