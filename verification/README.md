# HYF gateway: Nostr, RNode and bridge model

This project models the parts of the HYF gateway that move messages between radio, relay and
chat networks, and proves what they promise.

- **Nostr text.** `Utf8`, `Json`, `JsonParser`, `JsonWriter`, `Messages` and their neighbours model the
  NIP-01 messages: the bounded writer, the recursive-descent parser over a cursor, and (`CanonicalSinks`) the canonical text
  whose digest is the event id. The parser is proved to be the inverse of the printer on every message; `JsonSpelling` and
  `MessageMeaning` say of every text whether it is accepted, and as what.
- **Bounded relay.** `Stored`, `RelayTables` and `RelayDriver` are the fixed tables of the in-memory relay,
  updated in place; `Relay` is the same relay on values, `RelayRuns` what holds over any
  run of it, and `RelayEffects` what each operation does in terms of events, tags and limits.
- **KISS and the serial link.** `Kiss`, `KissSync`, `RNode`, `SerialLink` and `SerialDriver` are the framing,
  the radio's flow control and the link over a fake serial port; `LinkRuns` and `LinkDelivery` follow every
  frame through runs with arbitrary arrivals, polls, sends and faults, and `RNodeMeaning` says what each
  frame from the radio stands for.
- **Bridges.** `BridgeCodec`, `BitchatCodec`, `BitchatBridge`, `NostrBridge` and `BridgeEventText` are the wire forms and the
  conversions between them, laid out byte by byte in `BitchatWire` and `BridgeWire` and tag by tag in `EventMeaning`; `Dedupe`, `Policy`, `Orchestrator` and `OrchestratorDriver` decide what is
  emitted, and show that commands pointing into shared buffers end up with the right bytes.
- **Gateway.** `GatewayPoll` polls the relay and sends link bytes as signed events.

Code that updates objects is a class whose methods are equated with functions on values; the properties
are lemmas about those functions. `Base`, `NostrTypes` and `BridgeTypes` hold shared records. `usize` is
64 bits wide. SHA-256, Schnorr signing and verification, envelope decoding and validation, and the LXMF
encoder are functions the model takes as given; where it matters, a lemma requires that what a secret
signs verifies under its key.

Where the code departs from NIP-01 the model follows the code: other control characters are escaped as
`\u00xx` (`crates/hyf_link_nostr/src/canonical.rs:129`), and a REQ without filters can be written but not
read (`crates/hyf_link_nostr/src/messages.rs:166`). A `Ready` command frame parses as ready whatever its
flag says (`crates/hyf_link_rnode/src/command.rs:197`).

## Model

| member | source | states |
|---|---|---|
| Utf8.DecodeEncode | crates/hyf_link_nostr/src/messages.rs:627-659 | Decoding the UTF-8 form of any text gives the text (section 3 of RFC 3629) |
| Utf8.EncodeDecode | crates/hyf_link_nostr/src/messages.rs:627-659 | Accepted byte strings are exactly the encodings: what decodes re-encodes to the same bytes |
| JsonRoundTrip.ParsePrint | crates/hyf_link_nostr/src/messages.rs:595-616 | Parsing the printed form of any value, of any depth, text and numbers, gives that value |
| JsonRoundTrip.PrintInjective | crates/hyf_link_nostr/src/messages.rs:332-571 | Different values never print alike |
| JsonSpelling.ParseIff | crates/hyf_link_nostr/src/messages.rs:595-780 | The parser accepts exactly the spellings of values: white space between tokens, every escape in either case, leading zeros; and reads each as the value it spells |
| JsonSpelling.UnicodeEscapeIff | crates/hyf_link_nostr/src/messages.rs:680-689 | Exactly the four-digit spellings of scalar values are read, in either case; a surrogate or a bad digit is not |
| JsonSpelling.PrintedChar | crates/hyf_link_nostr/src/canonical.rs:118-149 | Which spelling is printed: two letters where there is one, lower-case numbers for other control characters, else the character itself; and it is a spelling |
| JsonRoundTrip.ValueClean | crates/hyf_link_nostr/src/messages.rs:604-659 | After every value read from text what is left is text: the position is on a character boundary, and no step reports malformed UTF-8 |
| JsonRoundTrip.ParseNeverUtf8Error | crates/hyf_link_nostr/src/messages.rs:627-659 | On text, whatever it is, the parser never reports a UTF-8 error |
| JsonParser.ParseText | crates/hyf_link_nostr/src/messages.rs:595-602 | The cursor parser terminates on every input, agrees with the recursive descent on values, and succeeds only with nothing left unread |
| JsonParser.Cursor.Value | crates/hyf_link_nostr/src/messages.rs:604-616 | One value read from the cursor leaves exactly the bytes the recursive descent leaves |
| JsonParser.Cursor.String | crates/hyf_link_nostr/src/messages.rs:627-659 | The string loop consumes what the recursive reading consumes and yields its text or its error |
| JsonParser.Cursor.EscapeSequence | crates/hyf_link_nostr/src/messages.rs:661-678 | One escape, including the unicode form, read as specified |
| JsonParser.Cursor.UnicodeEscape | crates/hyf_link_nostr/src/messages.rs:680-689 | Four hexadecimal digits to a scalar; surrogates are malformed |
| JsonParser.Cursor.Elements | crates/hyf_link_nostr/src/messages.rs:691-706 | The array loop reads the items the recursive grammar reads |
| JsonParser.Cursor.Fields | crates/hyf_link_nostr/src/messages.rs:708-728 | The object loop reads the members the recursive grammar reads |
| JsonParser.Cursor.Num | crates/hyf_link_nostr/src/messages.rs:730-740 | The longest run of digits, as a 64-bit number or malformed |
| JsonWriter.Writer.WriteBytes | crates/hyf_link_nostr/src/messages.rs:346-363 | An append happens whole or fails with the size that did not fit |
| JsonWriter.Writer.WriteJsonString | crates/hyf_link_nostr/src/messages.rs:377-396 | The escaped text between quotes, or no room |
| JsonWriter.Writer.WriteControlEscape | crates/hyf_link_nostr/src/messages.rs:398-408 | Control characters without a short form become six-byte escapes |
| JsonWriter.Writer.WriteU64 | crates/hyf_link_nostr/src/messages.rs:410-423 | The backwards digit loop writes the decimal form of every 64-bit number within twenty bytes |
| JsonPieces.WriteTags | crates/hyf_link_nostr/src/messages.rs:464-480 | The nested tag arrays, or no room for all of them |
| MessageWriter.WriteEvent | crates/hyf_link_nostr/src/messages.rs:425-462 | The event object of NIP-01 with its seven members in order |
| MessageWriter.WriteFilter | crates/hyf_link_nostr/src/messages.rs:482-565 | Only the filter fields that say something, comma separated |
| MessageWriter.WriteClientMessage | crates/hyf_link_nostr/src/messages.rs:108-147 | The buffer and the returned text hold the printed message; it fits exactly when its length does; checks come first |
| MessageWriter.WriteRelayMessage | crates/hyf_link_nostr/src/messages.rs:198-260 | The same for relay messages |
| MessageWriter.DecodeClientMessage | crates/hyf_link_nostr/src/messages.rs:149-196 | The decoder over the cursor parser computes the client message its value denotes |
| MessageWriter.DecodeRelayMessage | crates/hyf_link_nostr/src/messages.rs:262-330 | The decoder over the cursor parser computes the relay message its value denotes |
| MessageRoundTrip.TagsReadBack | crates/hyf_link_nostr/src/messages.rs:808-828 | Tags survive writing and reading, whatever their values |
| MessageRoundTrip.EventReadsBack | crates/hyf_link_nostr/src/messages.rs:776-794 | Events survive writing and reading, field by field |
| MessageRoundTrip.FilterReadsBack | crates/hyf_link_nostr/src/messages.rs:796-806 | Filters survive, absent fields included |
| MessageRoundTrip.ClientRoundTripIff | crates/hyf_link_nostr/src/messages.rs:108-196 | A client message comes back from its text exactly when it passes its checks and, for a REQ, has a filter; a REQ without filters is writable but malformed to read |
| MessageRoundTrip.RelayRoundTripIff | crates/hyf_link_nostr/src/messages.rs:198-330 | A relay message comes back from its text exactly when it passes its checks |
| MessageRoundTrip.WrittenClientDecodes | crates/hyf_link_nostr/src/messages.rs:108-196 | Whatever a successful write produced decodes to the message, unless it is a REQ without filters |
| MessageRoundTrip.WrittenRelayDecodes | crates/hyf_link_nostr/src/messages.rs:198-330 | Whatever a successful write produced decodes to the message |
| MessageRoundTrip.DecodedClientRewrites | crates/hyf_link_nostr/src/messages.rs:149-196 | Every accepted client text denotes a message whose own text decodes to the same message |
| MessageRoundTrip.DecodedRelayRewrites | crates/hyf_link_nostr/src/messages.rs:262-330 | Every accepted relay text denotes a message whose own text decodes to the same message |
| MessageMeaning.EventIff | crates/hyf_link_nostr/src/messages.rs:775-796 | A tree is read as an event exactly when its first members of each name say so, whatever else it holds and in any order |
| MessageMeaning.FilterIff | crates/hyf_link_nostr/src/messages.rs:798-808 | A tree is read as a filter exactly when each list and number it gives is the one given, and the others are left out |
| MessageMeaning.DecodeClientIff | crates/hyf_link_nostr/src/messages.rs:149-196 | A text decodes to a client message exactly when it spells a tree that says the message |
| MessageMeaning.DecodeRelayIff | crates/hyf_link_nostr/src/messages.rs:262-330 | A text decodes to a relay message exactly when it spells a tree that says the message |
| Hex.DecodeFixedIff | crates/hyf_link_nostr/src/hex.rs:53-65 | A fixed-length key has exactly one accepted spelling |
| Hex.LowerHexErrors | crates/hyf_link_nostr/src/hex.rs:30-85 | Why text is refused: an odd length, no room, or its first bad digit by place and byte, upper-case ones by name |
| Hex.EncodeLowerHexTo | crates/hyf_link_nostr/src/hex.rs:7-28 | Hexadecimal text of the bytes, or the size needed; the rest of the buffer is untouched |
| Hex.DecodeLowerHexTo | crates/hyf_link_nostr/src/hex.rs:30-51 | The decoded bytes, or the first offending digit, odd length or short buffer |
| Canonical.ReadCanonicalText | crates/hyf_link_nostr/src/canonical.rs:22-43 | The message parser is a left inverse of canonical serialization |
| CanonicalSinks.CanonicalLayout | crates/hyf_link_nostr/src/canonical.rs:22-43 | The hashed text is the key, time, kind, tags and content in this order after a leading 0, with the punctuation written out |
| Canonical.CanonicalInjective | crates/hyf_link_nostr/src/canonical.rs:22-43 | Two events with one canonical text agree in key, time, kind, tags and content |
| Canonical.SharedIdIsCollision | crates/hyf_link_nostr/src/canonical.rs:7-11 | Different events share an id only through a collision of the digest |
| CanonicalSinks.Sink.Write | crates/hyf_link_nostr/src/canonical.rs:63-108 | A hasher takes in every byte; a buffer takes in a piece exactly when it fits and otherwise keeps what it has |
| CanonicalSinks.Sink.WriteJsonString | crates/hyf_link_nostr/src/canonical.rs:118-149 | Either sink takes in the quoted string as the JSON writer would print it |
| CanonicalSinks.Sink.WriteTags | crates/hyf_link_nostr/src/canonical.rs:151-170 | Either sink takes in the tag array with its commas and brackets |
| CanonicalSinks.Sink.WriteU64 | crates/hyf_link_nostr/src/canonical.rs:172-186 | Filling a scratch buffer from its far end yields the decimal digits of any 64-bit number |
| CanonicalSinks.Sink.WriteCanonicalTo | crates/hyf_link_nostr/src/canonical.rs:22-43 | Both sinks take in the same canonical text; only the buffer can refuse, exactly when it is too short |
| CanonicalSinks.WriteCanonicalEvent | crates/hyf_link_nostr/src/canonical.rs:13-20 | The buffer holds exactly the canonical text, always valid UTF-8, exactly when it fits |
| CanonicalSinks.ComputeEventId | crates/hyf_link_nostr/src/canonical.rs:7-11 | The id is the digest of exactly the text a buffer would receive |
| Kiss.EncodedLen | crates/hyf_link_kiss/src/encode.rs:56-69 | The length of the encoding, or overflow of the machine word |
| Kiss.MaxLenIsTight | crates/hyf_link_kiss/src/encode.rs:7-12 | The worst-case length bounds every frame, a payload of delimiters reaches it, and it overflows only when that frame does |
| Kiss.FrameLayout | crates/hyf_link_kiss/src/encode.rs:18-54 | The bytes of a frame: delimiters, the command as it is, and the payload with delimiters and escapes in two bytes |
| Kiss.EncodeCommandFrame | crates/hyf_link_kiss/src/encode.rs:18-54 | The encoding at the front of the buffer, the rest untouched, or the error and nothing written |
| Kiss.KissDecoder.PushByte | crates/hyf_link_kiss/src/decode.rs:83-118 | One byte on the buffered decoder is one step of the value-level decoder |
| Kiss.KissDecoder.PushDecodedByte | crates/hyf_link_kiss/src/decode.rs:120-133 | A decoded byte is stored, or the decoder resets with the size that was too large |
| Kiss.KissDecoder.FinishFrame | crates/hyf_link_kiss/src/decode.rs:135-151 | A delimiter closes a non-empty frame: command first, payload after |
| Kiss.KissDecoder.PushBytes | crates/hyf_link_kiss/src/decode.rs:67-75 | A chunk gives its frames in order up to the first error, which drops the rest of the chunk |
| KissSync.SelfSynchronising | crates/hyf_link_kiss/src/decode.rs:83-151 | From any state the encodings of a list of frames give at most one leftover frame and then exactly that list |
| KissSync.FramesSurviveNoise | crates/hyf_link_kiss/src/decode.rs:83-151 | The same after any noise, decoder errors included |
| KissSync.RoundTripIff | crates/hyf_link_kiss/src/encode.rs:18-54 | A frame arrives alone and unchanged exactly when its command byte is neither special byte and it fits the decoder |
| KissSync.ChunkIsStream | crates/hyf_link_kiss/src/decode.rs:67-75 | A chunk is the byte stream up to its first error: exactly the frames, the error and the state of the bytes before it, the rest of the chunk dropped |
| KissSync.StepErrors | crates/hyf_link_kiss/src/decode.rs:83-151 | Exactly when each of the two errors is raised, and that the decoder is outside a frame afterwards |
| KissSync.ChunkingIrrelevant | crates/hyf_link_kiss/src/decode.rs:67-75 | Without errors, how bytes are chunked makes no difference |
| KissSync.ChunkedFramesDecode | crates/hyf_link_kiss/src/decode.rs:67-151 | Frames cut into chunks anywhere decode to those frames |
| KissSync.EncodeKissReference | tools/rns_oracle/rns_oracle.py:945-955 | The reference encoder writes what the bounded encoder writes |
| KissSync.DecodeKissReference | tools/rns_oracle/rns_oracle.py:958-993 | The reference decoder loop computes the reference decoding |
| KissSync.OracleAgrees | tools/rns_oracle/rns_oracle.py:958-993 | The reference accepts exactly the inputs on which a large enough decoder raises no error, ends between frames and emits something, and then both give the same frames |
| RNodeCommands.EncodeCommand | crates/hyf_link_rnode/src/command.rs:124-171 | The frame of a valid command and nothing past it, or the range it violates and nothing written |
| RNodeCommands.EncodableIff | crates/hyf_link_rnode/src/command.rs:124-151 | A setting is sent exactly within the range the radio supports |
| RNodeCommands.FixedFrames | crates/hyf_link_rnode/src/command.rs:152-168 | The frames of the commands that carry no number |
| RNodeCommands.CommandArrives | crates/hyf_link_rnode/src/command.rs:124-195 | Every command that encodes is recovered by any decoder of five bytes and parses to the setting it carries |
| RNodeMeaning.ParseIff | crates/hyf_link_rnode/src/command.rs:173-313 | Byte by byte which frame stands for which event, that the parser finds exactly it, and that only a wrong length is refused |
| RNodeMeaning.LicensedByFrames | crates/hyf_link_rnode/src/state.rs:30-52 | Readiness and its withdrawal told by frames: command 0x0F with at most one byte, command 0x90 with one |
| RNode.RNodeState.MarkTxStarted | crates/hyf_link_rnode/src/state.rs:35-39 | Sending uses up readiness under flow control |
| RNode.RNodeState.ApplyEvent | crates/hyf_link_rnode/src/state.rs:41-53 | Ready grants, a hardware error revokes and is remembered, nothing else matters |
| RNode.FlowControlIff | crates/hyf_link_rnode/src/state.rs:31-53 | Under flow control a run is possible exactly when every send follows a Ready that no send used up and no error withdrew |
| RNode.SendsBounded | crates/hyf_link_rnode/src/state.rs:31-53 | Sends never outnumber Ready events |
| SerialDriver.FakeSerial.PushReadBytes | crates/hyf_link_rnode_serial/src/io.rs:56-73 | Bytes arrive at the end of the unread ones, or not at all |
| SerialDriver.FakeSerial.Read | crates/hyf_link_rnode_serial/src/io.rs:99-121 | As many bytes as fit leave from the front; an injected fault is reported once |
| SerialDriver.FakeSerial.WriteAllBytes | crates/hyf_link_rnode_serial/src/io.rs:123-143 | A write is appended whole or refused |
| SerialDriver.FakeSerial.WriteKissFrame | crates/hyf_link_rnode_serial/src/link.rs:595-609 | A frame goes out in separate writes until one fails |
| SerialDriver.OpenLink | crates/hyf_link_rnode_serial/src/link.rs:106-130 | A new, empty link exactly for a positive size limit that its decoder can hold; otherwise the error that names what is wrong |
| SerialDriver.RNodeSerialLink.constructor | crates/hyf_link_rnode_serial/src/link.rs:123-130 | A checked configuration gives an empty link with a fresh decoder and radio state |
| SerialDriver.RNodeSerialLink.SendGatewayBytes | crates/hyf_link_rnode_serial/src/link.rs:148-167 | Envelope check, size check and flow control, then the frame; readiness is used up only by success |
| SerialDriver.RNodeSerialLink.ReadUntilPendingAt | crates/hyf_link_rnode_serial/src/link.rs:278-302 | Reading byte by byte until a frame completes, an error or the end |
| SerialDriver.RNodeSerialLink.DrainPendingData | crates/hyf_link_rnode_serial/src/link.rs:347-375 | Kept when the buffer is short, dropped when no envelope, otherwise copied to the front of the buffer |
| SerialDriver.RNodeSerialLink.DrainPendingCommand | crates/hyf_link_rnode_serial/src/link.rs:441-456 | Applied and removed, or left in place when it does not parse |
| SerialDriver.RNodeSerialLink.PollGatewayFrameAt | crates/hyf_link_rnode_serial/src/link.rs:180-233 | The polling loop leaves the state, result and frames taken that the step function gives, and copies what it returns |
| SerialDriver.RNodeSerialLink.PollEventAt | crates/hyf_link_rnode_serial/src/link.rs:169-178 | One frame or one command event per poll |
| LinkRuns.ReadConserves | crates/hyf_link_rnode_serial/src/link.rs:278-302 | Reading moves at most one frame into the slot, which was empty: nothing is overwritten or lost |
| LinkRuns.PollConserves | crates/hyf_link_rnode_serial/src/link.rs:216-233 | Frames ahead of a poll are the frames it takes followed by the frames ahead of the next |
| LinkRuns.PollMeans | crates/hyf_link_rnode_serial/src/link.rs:216-233 | What each result says about the frames taken, the slot and the unread bytes |
| LinkRuns.ShortBufferLosesNothing | crates/hyf_link_rnode_serial/src/link.rs:357-362 | After a short-buffer error the same frame comes out of the next poll with room |
| LinkRuns.MalformedCommandSticks | crates/hyf_link_rnode_serial/src/link.rs:441-456 | A command that does not parse stays pending and every later poll fails alike |
| LinkDelivery.RunAccounts | crates/hyf_link_rnode_serial/src/link.rs:148-456 | Over any run of arrivals, polls, sends and faults: what was ahead and what arrived is what left, in order, then what is still ahead |
| LinkDelivery.NothingLost | crates/hyf_link_rnode_serial/src/link.rs:216-456 | On a new link the frames decoded from all bytes are those taken, then the pending one, then those unread |
| LinkDelivery.ReturnedExactly | crates/hyf_link_rnode_serial/src/link.rs:216-233 | Pollers get exactly the envelopes among the frames taken |
| LinkDelivery.EverySendIsLicensed | crates/hyf_link_rnode_serial/src/link.rs:148-167 | In any run before each successful send a Ready frame was taken, and since then nothing was sent and no hardware error frame was taken |
| LinkDelivery.MarksAreComplete | crates/hyf_link_rnode_serial/src/link.rs:148-233 | The sends and frames of a run, in order, are all of its successful sends and all the frames it took |
| LinkDelivery.NewLinkMeans | crates/hyf_link_rnode_serial/src/link.rs:106-130 | Which configurations make a link, with which error otherwise, and that it starts empty and ready only without flow control |
| LinkDelivery.SendMeans | crates/hyf_link_rnode_serial/src/link.rs:148-167 | Exactly when a send succeeds, the error otherwise, and all that it changes |
| LinkDelivery.PiecesAreEncoding | crates/hyf_link_rnode_serial/src/link.rs:595-609 | The separate writes of a frame amount to its encoding |
| LinkDelivery.SendsWriteFrames | crates/hyf_link_rnode_serial/src/link.rs:148-167 | Without cut writes the line carries exactly the encodings of the payloads sent |
| LinkDelivery.EndToEnd | crates/hyf_link_rnode_serial/src/link.rs:106-233 | What one new link sends another hands to its poller unchanged, in order and completely; the constructor check is all the room needed |
| LinkDelivery.PollDelivers | crates/hyf_link_rnode_serial/src/link.rs:180-233 | With room and no fault each poll hands over the next envelope, and nothing once there is none |
| LinkDelivery.PollingDelivers | crates/hyf_link_rnode_serial/src/link.rs:180-233 | Polling on hands over every envelope ahead, in order, and then nothing more |
| LinkDelivery.PollEventMeans | crates/hyf_link_rnode_serial/src/link.rs:169-178 | An event poll returns the one frame it took, as it is or as the event it stands for, or keeps what it cannot return |
| LinkDelivery.PollTime | crates/hyf_link_rnode_serial/src/link.rs:180-303 | Every frame handed over carries the time it was completed at, of this poll or of the earlier one that left it pending |
| LinkDelivery.SentFramesSurvive | crates/hyf_link_rnode_serial/src/link.rs:595-609 | Even when writes are cut short, all successfully sent frames arrive whole and in order |
| Stored.StoreTagLoop | crates/hyf_link_nostr/src/stored.rs:83-104 | A tag within four values of 128 bytes is stored value by value, or the first limit it breaks is reported |
| Stored.StoreTagsLoop | crates/hyf_link_nostr/src/stored.rs:149-164 | Up to eight tags are stored in order |
| Stored.StoreEvent | crates/hyf_link_nostr/src/stored_event.rs:28-38 | Content first, then tags, within their limits |
| Stored.StoredRoundTrip | crates/hyf_link_nostr/src/stored_event.rs:28-117 | Storing succeeds exactly within the limits, and the stored event reads back as the event |
| Stored.ScanPTags | crates/hyf_link_nostr/src/stored_event.rs:56-75 | The scan fills the caller's array with the keys of the "p" tags, as many as fit |
| Stored.ScanFindsAllRecipients | crates/hyf_link_nostr/src/fake_relay.rs:708-723 | With room for every tag the scan loses no recipient |
| Signing.EnvelopeRoundTrip | crates/hyf_link_nostr/src/hyf.rs:32-80 | An envelope goes into an event and comes out unchanged; a short buffer is reported with the size needed |
| EventMeaning.VerifyIff | crates/hyf_link_nostr/src/signing.rs:15-56 | An event verifies exactly when its id is the digest of its canonical text and the signature holds on it, and which error it is otherwise |
| EventMeaning.EnvelopeIff | crates/hyf_link_nostr/src/hyf.rs:61-80 | Exactly which events decode as envelopes, into which buffers, and as which bytes |
| EventMeaning.ProfileIff | crates/hyf_link_nostr/src/fake_relay.rs:652-678 | What the relay lets in: envelopes it can decode, or genuine events of the asked kind |
| EventMeaning.EnvelopeShape | crates/hyf_link_nostr/src/hyf.rs:32-59 | The event an envelope is sent in, field by field and tag by tag, and that only size, key or signature can fail |
| Relay.BeforeIsOrder | crates/hyf_link_nostr/src/fake_relay.rs:725-729 | Newest first then smallest id is a strict total order on different ids |
| Relay.AscendingMeans | crates/hyf_link_nostr/src/fake_relay.rs:725-729 | That order is later times first, and on equal times the numerically smaller id first |
| Relay.RankedIsTheSelection | crates/hyf_link_nostr/src/fake_relay.rs:619-649 | The replay ranking holds exactly the matching events, once each, with times falling and ids rising within a time |
| Relay.EnqueueAllFills | crates/hyf_link_nostr/src/fake_relay.rs:466-479 | A list of outputs is queued whole, or its leading part fills the queue and one overflow is counted |
| Relay.SubscribeReplays | crates/hyf_link_nostr/src/fake_relay.rs:593-617 | Success appends the first k matching events, newest time first and smallest id within a time, and one end mark; failure leaves the part that fitted and the subscription |
| RelayEffects.SubscribeSucceedsIff | crates/hyf_link_nostr/src/fake_relay.rs:262-304 | A subscription succeeds exactly with a good id, a place for it and room for its whole replay |
| RelayEffects.ReplayCountMeans | crates/hyf_link_nostr/src/fake_relay.rs:697-706 | Everything that matches is due, or no more than the limits add up to in one machine word |
| RelayEffects.MatchesMeans | crates/hyf_link_nostr/src/filter.rs:76-106 | An event matches when one filter lets it through: kinds, authors, p tags naming a key, and both ends of the time span |
| RelayEffects.PublishAnswers | crates/hyf_link_nostr/src/fake_relay.rs:334-380 | The one answer a publish queues: accepted exactly when the event is valid and stored afterwards, with the status of its case; and why none was queued otherwise |
| RelayEffects.EnqueueMeans | crates/hyf_link_nostr/src/fake_relay.rs:382-457 | An output goes in exactly when its texts are within the limits and there is room; a full queue is counted |
| RelayEffects.RejectArms | crates/hyf_link_nostr/src/fake_relay.rs:306-309 | A rejection within the limits is what the next valid new event is answered with |
| RelayEffects.ConsumeTakes | crates/hyf_link_nostr/src/fake_relay.rs:541-561 | Consuming takes the oldest output and nothing else |
| RelayEffects.CloseForgets | crates/hyf_link_nostr/src/fake_relay.rs:311-324 | After a close the id is unknown and every other subscription is as it was |
| RelayTables.StatusReadsBack | crates/hyf_link_nostr/src/fake_relay.rs:120-136 | Status text within its limit reads back |
| RelayTables.RecordEnqueued | crates/hyf_link_nostr/src/fake_relay.rs:466-479 | Queueing a record keeps the tables coherent and appends its meaning |
| RelayTables.OwnedEnqueued | crates/hyf_link_nostr/src/fake_relay.rs:438-457 | An owned event takes a free slot along with its record |
| RelayTables.EventStored | crates/hyf_link_nostr/src/fake_relay.rs:581-591 | A new event changes no queued record's meaning |
| RelayTables.HeadConsumed | crates/hyf_link_nostr/src/fake_relay.rs:541-561 | Consuming frees exactly the head's slot and shifts the rest |
| RelayTables.NoSlotMeansFullQueue | crates/hyf_link_nostr/src/fake_relay.rs:444-449 | Pigeonhole: the slot search fails only when the output queue is full |
| RelayTables.SubWritten | crates/hyf_link_nostr/src/fake_relay.rs:262-295 | Writing a subscription slot updates the table of subscriptions by id |
| RelayTables.SubRemoved | crates/hyf_link_nostr/src/fake_relay.rs:311-324 | Clearing a slot removes that subscription only |
| RelayDriver.FakeNostrRelay.constructor | crates/hyf_link_nostr/src/fake_relay.rs:226-240 | A new relay is coherent and empty |
| RelayDriver.FakeNostrRelay.Metrics | crates/hyf_link_nostr/src/fake_relay.rs:254-256 | The metrics equal the real counts |
| RelayDriver.FakeNostrRelay.PushRecord | crates/hyf_link_nostr/src/fake_relay.rs:466-479 | First free place or one overflow |
| RelayDriver.FakeNostrRelay.EnqueueEventOutput | crates/hyf_link_nostr/src/fake_relay.rs:438-457 | An owned event is queued like any other output, the two searches together failing exactly on a full queue |
| RelayDriver.FakeNostrRelay.EnqueueNotice | crates/hyf_link_nostr/src/fake_relay.rs:382-386 | Checked, then queued |
| RelayDriver.FakeNostrRelay.InjectClosed | crates/hyf_link_nostr/src/fake_relay.rs:388-398 | Checked, then queued |
| RelayDriver.FakeNostrRelay.InjectEose | crates/hyf_link_nostr/src/fake_relay.rs:400-405 | Checked, then queued |
| RelayDriver.FakeNostrRelay.InjectAuthChallenge | crates/hyf_link_nostr/src/fake_relay.rs:407-411 | Checked, then queued |
| RelayDriver.FakeNostrRelay.EnqueueAny | crates/hyf_link_nostr/src/fake_relay.rs:413-436 | Every output is checked and queued according to its kind |
| RelayDriver.FakeNostrRelay.NextOutput | crates/hyf_link_nostr/src/fake_relay.rs:490-500 | The head as its reader sees it; looking it up never fails |
| RelayDriver.FakeNostrRelay.NextControlOutput | crates/hyf_link_nostr/src/fake_relay.rs:502-539 | The head when it is no event; never an error |
| RelayDriver.FakeNostrRelay.ConsumeOutput | crates/hyf_link_nostr/src/fake_relay.rs:541-561 | The oldest output leaves; nothing else changes |
| RelayDriver.FakeNostrRelay.RejectNextPublish | crates/hyf_link_nostr/src/fake_relay.rs:306-309 | The status is kept for the next publish, if it can be stored |
| RelayDriver.FakeNostrRelay.ContainsEvent | crates/hyf_link_nostr/src/fake_relay.rs:574-579 | Whether an id is stored |
| RelayDriver.FakeNostrRelay.StoreEventRecord | crates/hyf_link_nostr/src/fake_relay.rs:581-591 | Stored at the end, or a storage limit, or a full store |
| RelayDriver.FakeNostrRelay.PublishWithProfile | crates/hyf_link_nostr/src/fake_relay.rs:334-380 | Invalid, duplicate, rejected or stored, in that order, with the answer queued; nothing is taken back when the queue is full |
| RelayDriver.FakeNostrRelay.RememberSubscription | crates/hyf_link_nostr/src/fake_relay.rs:262-295 | An id replaces its own filters, takes a free slot, or finds none |
| RelayDriver.FakeNostrRelay.CloseSubscription | crates/hyf_link_nostr/src/fake_relay.rs:311-324 | Removed if present; says which |
| RelayDriver.FakeNostrRelay.Subscribe | crates/hyf_link_nostr/src/fake_relay.rs:297-304 | Remembered, then replayed |
| RelayDriver.FakeNostrRelay.ReplayLimitOf | crates/hyf_link_nostr/src/fake_relay.rs:697-706 | The saturating sum of limits, or none |
| RelayDriver.FakeNostrRelay.EventMatches | crates/hyf_link_nostr/src/fake_relay.rs:708-723 | A stored event matches as the event it came from does |
| RelayDriver.FakeNostrRelay.NextReplayEvent | crates/hyf_link_nostr/src/fake_relay.rs:619-649 | The best event not yet emitted, or none left |
| RelayDriver.FakeNostrRelay.BestIsNextRanked | crates/hyf_link_nostr/src/fake_relay.rs:593-649 | Picking the best of the rest follows the ranking |
| RelayDriver.FakeNostrRelay.ReplaySubscription | crates/hyf_link_nostr/src/fake_relay.rs:593-617 | The selection loop queues the leading part of the ranking and the end mark |
| RelayRuns.StepKeepsSound | crates/hyf_link_nostr/src/fake_relay.rs:262-561 | Every operation, failing or not, keeps the bounds and the uniqueness of ids |
| RelayRuns.StepExtends | crates/hyf_link_nostr/src/fake_relay.rs:262-561 | Events keep their places, outputs keep their order, overflows count exactly the refusals |
| RelayRuns.RunKeeps | crates/hyf_link_nostr/src/fake_relay.rs:262-561 | Over any run: events only grow, outputs come out first in first out, refusals are all counted |
| RelayRuns.PublishStoresIff | crates/hyf_link_nostr/src/fake_relay.rs:334-380 | Exactly when a publish stores its event |
| RelayRuns.StoredEventsAreVetted | crates/hyf_link_nostr/src/fake_relay.rs:334-380 | Every stored event passed a profile check |
| RelayRuns.RetryIsDuplicate | crates/hyf_link_nostr/src/fake_relay.rs:350-358 | A stored event is answered as a duplicate |
| RelayRuns.RetryAfterFullQueue | crates/hyf_link_nostr/src/fake_relay.rs:372-379 | A publish that stored but found the queue full is a duplicate on retry, however much later, and stored once |
| RelayRuns.RunKeepsChecked | crates/hyf_link_nostr/src/fake_relay.rs:120-135 | Whatever is queued passed its text checks |
| BridgeCodec.BridgeWireBijection | crates/hyf_bridge_core/src/codec.rs:23-126 | The decoder accepts exactly the encodings of valid messages and reads them back |
| BridgeWire.DecodeIff | crates/hyf_bridge_core/src/codec.rs:23-126 | The accepted bytes, position by position, with every tag, width and id length written out |
| BridgeCodec.LengthIsExact | crates/hyf_bridge_core/src/codec.rs:79-90 | The computed length is the length written, at most 1119, and no length is truncated by its cast |
| BridgeCodec.NeverTooLarge | crates/hyf_bridge_core/src/codec.rs:79-90 | The size limit can never be what makes encoding fail |
| BridgeCursors.ReadCursor.Slice | crates/hyf_bridge_core/src/codec.rs:245-262 | The next bytes, or how many the input would need |
| BridgeCursors.DecodeBridgeMessage | crates/hyf_bridge_core/src/codec.rs:23-77 | The decoding procedure computes the decoding |
| BridgeCursors.WriteCursor.Write | crates/hyf_bridge_core/src/codec.rs:298-302 | The unchecked write stays inside the buffer wherever it is called |
| BridgeCursors.EncodeBridgeMessage | crates/hyf_bridge_core/src/codec.rs:92-126 | The encoding at the front of the buffer, the rest untouched, or an error and nothing written |
| BitchatCodec.FlagsBijection | crates/hyf_bitchat_core/src/flags.rs:53-74 | Flag sets and accepted flag bytes correspond one to one |
| BitchatCodec.LengthIsExact | crates/hyf_bitchat_core/src/codec.rs:83-114 | The computed length is the length written, at most 1761; the packet limit is never what fails |
| BitchatCodec.EncodedDecodes | crates/hyf_bitchat_core/src/codec.rs:8-154 | A packet that encodes decodes to itself with canonical flags |
| BitchatCodec.DecodedRewrites | crates/hyf_bitchat_core/src/codec.rs:8-154 | An accepted uncompressed version 2 packet re-encodes to the identical bytes |
| BitchatCodec.BitchatWireBijection | crates/hyf_bitchat_core/src/codec.rs:8-212 | On canonical plain packets decoding and encoding are inverse |
| BitchatWire.DecodeIff | crates/hyf_bitchat_core/src/codec.rs:8-83 | The accepted packets of both versions, plain and compressed, position by position; each has one spelling |
| BitchatWire.HeaderErrors | crates/hyf_bitchat_core/src/codec.rs:8-60 | What is refused before anything after the header is looked at, and why |
| BitchatWire.EncodeErrors | crates/hyf_bitchat_core/src/codec.rs:83-114 | Exactly when a packet cannot be encoded, and why |
| BitchatCursors.DecodeBitchatPacket | crates/hyf_bitchat_core/src/codec.rs:8-81 | The decoding procedure computes the decoding of both versions |
| BitchatCursors.EncodeCursor.Write | crates/hyf_bitchat_core/src/codec.rs:346-362 | A checked write, or the size it would need |
| BitchatCursors.EncodeBitchatPacketV2 | crates/hyf_bitchat_core/src/codec.rs:116-154 | Once the computed length fits, no write fails and the cursor ends exactly there |
| BitchatBridge.WriteEgress | crates/hyf_bridge_bitchat/src/convert.rs:91-111 | The packet bytes, or the error and nothing written |
| BitchatBridge.EgressIff | crates/hyf_bridge_bitchat/src/convert.rs:91-163 | A message can leave exactly when it is valid, dated, non-empty text; the runtime buffer always suffices |
| BitchatBridge.EgressThenIngress | crates/hyf_bridge_bitchat/src/convert.rs:67-111 | Out and back in keeps text, time and room; the author becomes the sending peer |
| BitchatBridge.IngressThenEgress | crates/hyf_bridge_bitchat/src/convert.rs:67-144 | An accepted packet is the encoding of its message |
| BridgeWire.IngressIff | crates/hyf_bridge_bitchat/src/convert.rs:67-144 | What enters is exactly the public text packets with a non-empty text and a time |
| BridgeWire.EgressMeans | crates/hyf_bridge_bitchat/src/convert.rs:91-111 | What leaves is the public text packet with the caller's sender and hop budget |
| NostrBridge.ToEventShape | crates/hyf_bridge_nostr/src/event.rs:87-118 | Kind, tags and content of the event, and that only key derivation or signing can fail |
| NostrBridge.BridgeEventRoundTrip | crates/hyf_bridge_nostr/src/event.rs:87-169 | Into an event and back gives the same bytes exactly when a Nostr author signs as itself |
| NostrBridge.AcceptedEventMeans | crates/hyf_bridge_nostr/src/event.rs:135-202 | An accepted event verifies, carries a canonical message and names its room |
| EventMeaning.BridgeIff | crates/hyf_bridge_nostr/src/event.rs:135-202 | Exactly which events are read as bridge messages, and as which |
| EventMeaning.BridgeShape | crates/hyf_bridge_nostr/src/event.rs:87-118 | The event a bridge message leaves in, field by field and tag by tag |
| NostrBridge.EventTextFits | crates/hyf_bridge_nostr/src/event.rs:204-246 | The event text always fits 6144 bytes |
| BridgeEventText.EventWriter.Write | crates/hyf_bridge_nostr/src/event.rs:270-288 | A piece is appended exactly when it fits; otherwise the size needed and nothing written |
| BridgeEventText.EventWriter.WriteJsonString | crates/hyf_bridge_nostr/src/event.rs:290-309 | The quoted, escaped text, or no room |
| BridgeEventText.EventWriter.WriteControlEscape | crates/hyf_bridge_nostr/src/event.rs:311-317 | The escape in three writes is the same six bytes |
| BridgeEventText.EventWriter.WriteU64 | crates/hyf_bridge_nostr/src/event.rs:319-332 | The loop that always runs once writes the decimal digits of any 64-bit number |
| BridgeEventText.EventWriter.WriteTags | crates/hyf_bridge_nostr/src/event.rs:334-350 | Nested arrays with their commas and brackets, or no room for them |
| BridgeEventText.EventWriter.WriteNostrEventJson | crates/hyf_bridge_nostr/src/event.rs:204-246 | The bridge writer, piece by piece, writes the very text the message writer is proved to write, and is refused room in the same cases |
| BridgeEventText.WriteEventJson | crates/hyf_bridge_nostr/src/event.rs:120-133 | The text of the signed event, for which there is always room; only the message, the key or the signature can fail |
| NostrBridge.EventTextReadsBack | crates/hyf_bridge_nostr/src/event.rs:204-246 | The text parses back to the event |
| Dedupe.BridgeDedupeSet.Contains | crates/hyf_bridge_runtime/src/dedupe.rs:33-35 | Membership in the window of accepted keys |
| Dedupe.BridgeDedupeSet.Insert | crates/hyf_bridge_runtime/src/dedupe.rs:37-51 | The ring drops its oldest key for a new one; a ring without slots refuses |
| Dedupe.OncePerWindow | crates/hyf_bridge_runtime/src/dedupe.rs:33-51 | The window is always the last N accepted keys, and equal acceptances are more than N apart |
| Dedupe.SpacedMeans | crates/hyf_bridge_runtime/src/dedupe.rs:33-51 | Between two acceptances of a key lie N other keys, all different |
| Policy.SelectedEgressCount | crates/hyf_bridge_runtime/src/policy.rs:26-36 | The number of protocols selected |
| Policy.SelectEgress | crates/hyf_bridge_runtime/src/policy.rs:38-61 | The selected protocols and nothing past them, or the room needed and nothing written |
| Policy.SelectionMeans | crates/hyf_bridge_runtime/src/policy.rs:26-65 | Selection is duplicate-free and holds exactly the configured protocols other than the origin, and the origin if echo is allowed |
| Policy.SelectionKeepsOrder | crates/hyf_bridge_runtime/src/policy.rs:38-61 | Selection keeps the order of first configuration |
| Orchestrator.EmitMeans | crates/hyf_bridge_runtime/src/orchestrator.rs:270-364 | Errors change nothing; success is one drop for a known key, else the envelope around the raw message and each selected protocol's own encoding, in order |
| Orchestrator.EmitSucceedsIff | crates/hyf_bridge_runtime/src/orchestrator.rs:270-364 | Exactly when a call succeeds, for known and for new messages |
| Orchestrator.EgressMeans | crates/hyf_bridge_runtime/src/orchestrator.rs:300-345 | What each protocol puts out, which error otherwise, and exactly when it has no profile |
| Orchestrator.IngressMeans | crates/hyf_bridge_runtime/src/orchestrator.rs:186-268 | Messages from BitChat and Nostr are emitted with that protocol as origin; what is refused changes nothing |
| Orchestrator.KeyTells | crates/hyf_bridge_runtime/src/orchestrator.rs:270-300 | Messages are told apart by room and id and nothing else |
| Orchestrator.NoEchoNoRepeat | crates/hyf_bridge_runtime/src/orchestrator.rs:294-301 | No output returns to its origin unless echo is allowed, and none is sent twice |
| Orchestrator.NostrOutputReadsBack | crates/hyf_bridge_runtime/src/orchestrator.rs:327-338 | The Nostr output parses and decodes to the raw message |
| Orchestrator.BitchatOutputReadsBack | crates/hyf_bridge_runtime/src/orchestrator.rs:305-315 | The BitChat output decodes to the message, from the bridge's peer |
| Orchestrator.OncePerWindow | crates/hyf_bridge_runtime/src/orchestrator.rs:270-364 | Over any run of deliveries an envelope is emitted again only after N others |
| OrchestratorDriver.BridgeOrchestrator.PlanOne | crates/hyf_bridge_runtime/src/orchestrator.rs:304-340 | One protocol's encoding in that protocol's buffer |
| OrchestratorDriver.BridgeOrchestrator.PlanAll | crates/hyf_bridge_runtime/src/orchestrator.rs:300-341 | Because no protocol is selected twice, earlier plans keep their bytes |
| OrchestratorDriver.BridgeOrchestrator.Commit | crates/hyf_bridge_runtime/src/orchestrator.rs:343-363 | One command per plan, each resolving through its buffer to its action |
| OrchestratorDriver.BridgeOrchestrator.EmitBridgeMessage | crates/hyf_bridge_runtime/src/orchestrator.rs:270-364 | The commands, read through the shared buffers at the end, are the specified actions; on failure ring and commands are as before |
| OrchestratorDriver.BridgeOrchestrator.IngestBitchat | crates/hyf_bridge_runtime/src/orchestrator.rs:186-212 | A packet, converted, encoded and emitted |
| OrchestratorDriver.BridgeOrchestrator.IngestNostr | crates/hyf_bridge_runtime/src/orchestrator.rs:242-268 | An event, verified, decoded and emitted |
| GatewayPoll.TooSmallIff | crates/hyf_gateway/src/nostr.rs:305-324 | A short buffer is reported exactly for a valid envelope event whose content needs more |
| GatewayPoll.PollProgress | crates/hyf_gateway/src/nostr.rs:200-255 | A poll finds nothing, or takes exactly the oldest output, or reports a short buffer and leaves the relay alone |
| GatewayPoll.PollingDrains | crates/hyf_gateway/src/nostr.rs:200-255 | With a 2048-byte buffer polling drains the relay in queue order |
| EventMeaning.SeenIff | crates/hyf_gateway/src/nostr.rs:305-324 | What a poll makes of a queued event: exactly the bytes of the envelope it is, at its own time in milliseconds |
| GatewayPoll.SendMeans | crates/hyf_gateway/src/nostr.rs:373-419 | Every outcome of a send, and which of them leave the relay alone |
| GatewayPoll.SentIsStored | crates/hyf_gateway/src/nostr.rs:373-419 | A successful send has its event stored |
| GatewayPoll.SentBytesArrive | crates/hyf_gateway/src/nostr.rs:305-419 | The event of a send, polled, hands over exactly the bytes sent, at the second they were sent in |
| GatewayPoll.SentIsPolled | crates/hyf_gateway/src/nostr.rs:200-419 | A new envelope sent, subscribed to within the replay, and polled with a full-sized buffer: some poll yields exactly its bytes at the time of sending |
| GatewayPoll.NostrGatewayExecutor.PollRelayOutput | crates/hyf_gateway/src/nostr.rs:200-302 | The executor's poll on the relay object, with the frame in the caller's buffer |
| GatewayPoll.NostrGatewayExecutor.SendLinkBytes | crates/hyf_gateway/src/nostr.rs:373-419 | The executor's send on the relay object |

## Left out

- CanonicalSinks.ComputeEventId: the digest is a given function of all bytes taken in, not an incremental hash state.
- Kiss.KissDecoder.PushBytes: collects frames instead of calling a callback, whose own errors are not modelled; the link's callback cannot fail because its slot holds as many bytes as the decoder.
- SerialDriver.RNodeSerialLink.PollGatewayFrameAt: HyfEnvelope mode only; a returned frame's link identifier is not modelled.
- SerialDriver.RNodeSerialLink.SendGatewayBytes: HyfEnvelope mode only.
- LinkDelivery.ReturnedExactly: for runs that poll through the gateway poll only; the event poll hands frames over without the envelope check, and RunAccounts covers it.
- Stored.StoreEvent: stored text is a byte sequence within its limit, not a zero-padded buffer with a length.
- RelayDriver.FakeNostrRelay.PublishWithProfile: the caller's decode buffer is represented by its length; what a failed check leaves in it is not modelled.
- OrchestratorDriver.BridgeOrchestrator.EmitBridgeMessage: the origin's endpoint hash is not modelled, since no routing decision reads it.
- Orchestrator.EmitMeans: LXMF output is whatever the given encoder returns, if it fits its buffer; LXMF ingress is not modelled.
- Checked length arithmetic that no slice can reach on a 64-bit machine, in the writers and cursors.
- Raw RNS mode of the serial link, its wrapping parameters and the provider driver: they rest on decoders that are not part of this model.
- Routing, storage and the core loop of the gateway; real serial ports and websocket transports.
- Redacted debug output, configuration records, relay status parsing, HIL manifests and control JSON.
- Secret key erasure, random numbers and clocks; times are parameters.
