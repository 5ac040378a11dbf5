# Hush, modelled and verified in Dafny

Hush is an API protocol: TLV payloads inside length-prefixed, optionally encrypted frames, a
request/response exchange over one TCP connection, sliding-window rate limits, an event hub and
session-bound media tokens. This project models those parts and proves what a user of each relies on.

| area | files | main results |
|---|---|---|
| TLV codec | `Bytes`, `Varint`, `Values`, `Decoder`, `RoundTrip`, `Canonical`, `Codec`, `OrderedMap`, `Stream`, `WireFormat` | exact round trip, canonicalisation, exactly which bytes each layer accepts and what they mean, exact set of streams `DecodeAll` accepts, agreement of the entry points, ordered map refinement |
| Framing | `Framing`, `Messages`, `Receipt` | framed message streams come back exactly, exactly which inputs are read as messages and which are refused, exact sizes, independence of chunking |
| TCP exchange | `TcpProtocol` | pairing of calls and answers in every interleaving, contents of the answer |
| Rate limits | `Limiter`, `LimiterChain` | refinement of the naive rule over the full history, window bound, bounds for stacked limiters under overlap |
| Event hub | `Hub` | table invariant, whom a publish reaches, delivery and numbering, publish order, lifetime of a registration |
| Tokens | `Tokens` | refinement of a rule over the history, exact contents of both stores, lifetimes, sweeps change nothing |

How the model is built. A codec function, a limiter step or a store operation is a Dafny function;
the repository's loops and objects are methods and classes proved equal to those functions, and the
theorems are about the functions. What happens between goroutines is a state machine whose steps
are the atomic sections of the source; theorems quantify over every sequence of enabled steps.
Strings are byte sequences, floats IEEE 754 bit patterns, timestamps int64 milliseconds, clock
readings are arguments, and never go back among those taken under one lock. The AEAD cipher is a pair of functions with two laws:
opening undoes sealing under the same key, and sealing adds 28 bytes.

Where the code and its own comments differ, the model follows the code:

* `DecodeBytes` adds the payload's start and length in uint64. When the sum wraps, the slice
  expression panics instead of an error being returned. `PanicsExactly` says exactly when.
* `Map.Clone` is called a deep copy; it copies the entry list, and nested maps keep their storage.
* `MaxTokenTTL` is documented to stand for the default when zero; `Validate` compares with it as it is.
* A hub subscription does not last as long as its own stream: see `RegistrationLifetime` for when it
  ends, and `ReplacedSubscription` for a three-step example.

## Model

| member | source | states |
|---|---|---|
| Bytes.BigEndianRoundTrip | tlv/types.go:251-289 | a fixed-width integer written big-endian reads back as itself |
| Bytes.BigEndianSurjective | tlv/decode.go:107-154 | every byte string of a width is the big-endian form of the number it reads as |
| Bytes.BigEndianDigit | tlv/types.go:251-289 | the byte k places from the end has weight 256^k |
| Varint.EncodeDigit | tlv/types.go:327-331 | digit k of a written length has weight 128^k, and exactly the last byte has no continuation flag |
| Varint.ParseEncoded | tlv/types.go:327-331 | the length reader inverts the writer, whatever follows, for exactly the uint64 numbers, in at most ten bytes |
| Varint.EncodedShortest | tlv/decode.go:80-83 | no accepted form of a length is shorter than the written one, and only the written one has its length |
| Varint.LengthMonotone | tlv/types.go:327-331 | a larger number never has a shorter form |
| Varint.ParsedIsUint64 | tlv/decode.go:80-83 | the reader yields uint64 numbers only |
| Varint.ParsesExactly | tlv/decode.go:80-83 | the accepted forms of a number, shortest or not: at most ten bytes, the top bit set on all but the last, a tenth byte of at most 1, the number the sum of the base-128 digits |
| Varint.TruncatedExactly | tlv/decode.go:80-83 | more bytes are asked for exactly when there are at most ten, all with the top bit set |
| Varint.PutUvarint | tlv/types.go:327-331 | the loop of shifts, masks and ors writes the base-128 digits of the number and touches at most ten bytes |
| Varint.Uvarint | tlv/decode.go:80-83 | the loop of shifts, masks and ors over a buffer returns the base-128 value and size, or reports too few bytes or an overflow |
| Values.WireForm | tlv/types.go:13-29 | the bytes of every fixed-width, empty or short value: numeric type code, length, two's complement and IEEE digits |
| Values.NodesBound | tlv/types.go:243-334 | every node of a value, map keys counted, costs at least two bytes of encoding |
| Decoder.DecodeField | tlv/decode.go:195-218 | a nested value takes between two bytes and the whole buffer, which makes the mutual recursion and its loops end |
| RoundTrip.DecodeEncoded | tlv/decode.go:91-193 | at every depth, decoding a value's own payload gives the value exactly when depth and descendant sizes allow, and an error otherwise |
| RoundTrip.ExactRoundTrip | tlv/decode.go:74-89 | decoding an encoding followed by anything gives the value if and only if its weighted depth is at most 64 and no proper descendant exceeds 524288 payload bytes; otherwise an error |
| RoundTrip.EncodingIsPrefixFree | tlv/types.go:322-334 | two values whose encodings begin one byte string are the same value and leave the same rest, foreign type codes, duplicate keys and values beyond the decoder's limits included |
| Canonical.DecodedValue | tlv/decode.go:91-193 | whatever decodes is encodable, distinct-keyed, within the limits left at its depth and re-encodes in no longer a payload |
| Canonical.Canonicalisation | tlv/decode.go:74-218 | every accepted byte string re-encodes in at most the bytes consumed and decodes to the same value again |
| Canonical.DecodedTreeSize | tlv/decode.go:91-218 | a decoded tree, keys counted, has at most half as many nodes as the input has bytes |
| Canonical.PanicsExactly | tlv/decode.go:84-88 | DecodeBytes panics if and only if payload start plus length reaches 2^64 |
| Canonical.PanicExample | tlv/decode.go:84-88 | one input on which the sum wraps |
| WireFormat.BooleanExactly | tlv/decode.go:142-146 | a boolean is true exactly when its first byte is not 0, and an empty payload is an error |
| WireFormat.FixedExactly | tlv/decode.go:102-154 | a fixed-width value is an error when its payload is shorter than its width, and otherwise the value of its type whose own payload is the first bytes, whatever follows |
| WireFormat.OtherScalarsExactly | tlv/decode.go:95-191 | strings and bytes are their payload, null ignores it, and every other code is refused |
| WireFormat.FieldExactly | tlv/decode.go:197-218 | a nested value is read exactly from a type code, any form of a length of at most 524288 and a payload that decodes one level down |
| WireFormat.ArrayExactly | tlv/decode.go:155-166 | a payload is an array of vs if and only if it is nested values of vs end to end |
| WireFormat.MapExactly | tlv/decode.go:167-189 | a payload is a map if and only if it is string keys and values end to end, two levels down, and then the last write to each key in order of first occurrence |
| WireFormat.RootExactly | tlv/decode.go:74-89 | a byte slice decodes exactly when it begins with a type code, any form of a length and that many bytes of payload, uncapped |
| WireFormat.PanicForms | tlv/decode.go:84-88 | the inputs that panic, in terms of their bytes |
| WireFormat.MapRootExactly | tlv/decode.go:221-231 | DecodeMap gives the entries of a map, an error of its own on any other value, and the decoder's outcome otherwise |
| OrderedMap.WritesRefineMap | tlv/types.go:163-181 | after any Set calls keys are distinct, Get agrees with the mathematical map (last write wins) and order is first insertion |
| OrderedMap.DecodedMapMeaning | tlv/decode.go:167-189 | a decoded map is the mathematical map of its wire entries, in order of first occurrence |
| OrderedMap.OrderedMap.Set | tlv/types.go:163-172 | overwrites in place or appends, and keeps keys distinct |
| OrderedMap.OrderedMap.Get | tlv/types.go:174-181 | returns the value of the key's entry, if there is one |
| OrderedMap.OrderedMap.Clone | tlv/types.go:227-233 | an equal entry list in storage of its own |
| OrderedMap.OrderedMap.GetMap | tlv/types.go:207-216 | the entries of the map under the key in storage of its own, or nothing for another type or an absent key |
| OrderedMap.CloneIsolation | tlv/types.go:226-233 | a write to a clone and a write to the original each change only their own entries |
| Codec.MarshalValue | tlv/types.go:322-334 | the encoder's output, or an error exactly when a foreign type code is inside |
| Codec.MarshalPayload | tlv/types.go:243-319 | the payload built by appending element by element or key by value |
| Codec.ReadValue | tlv/decode.go:91-193 | the decoder with its loops and its in-place map gives the decoded value or the same error |
| Codec.ReadField | tlv/decode.go:197-218 | one nested value with its size, or the same error |
| Stream.Reader.ReadFull | tlv/decode.go:38-43 | the next n bytes however they are chunked, telling a clean end from a cut |
| Stream.ReadUvarint | tlv/decode.go:30-36 | the length read byte by byte, and io.EOF only when no byte was left |
| Stream.DecodeReader | tlv/decode.go:23-46 | one value and the exact bytes left, or which of the two kinds of error |
| Stream.DecodeAll | tlv/decode.go:49-63 | all values up to the first error, which must wrap io.EOF |
| Stream.DecodeAllExactly | tlv/decode.go:23-63 | DecodeAll succeeds with vs if and only if the input is accepted forms of vs, roots within the cap, and one of three residues |
| Stream.DecodeAllInverts | tlv/decode.go:49-63 | DecodeAll inverts concatenated encodings of values in the limits |
| Stream.EntryPointsAgree | tlv/decode.go:17-46 | with a root length invalid or within the cap, Decode and DecodeBytes agree; with a larger one Decode fails |
| Framing.FrameRoundTrip | frame/frame.go:46-86 | a frame that fits reads back with its number and data, and nothing after it is touched |
| Framing.ParsedFrameBytes | frame/frame.go:46-71 | every frame accepted is byte for byte what the writer puts out for it |
| Framing.Write | frame/frame.go:74-86 | writes the frame if number and data fit in 1 MiB, and otherwise nothing |
| Framing.Read | frame/frame.go:46-71 | reads exactly one frame from a reader, whatever its chunks |
| Receipt.FrameLayout | frame/frame.go:74-86 | the bytes of a frame: length of number and data, sequence number, both most significant byte first, data |
| Receipt.FrameExactly | frame/frame.go:46-71 | a frame is read exactly when the input begins with the bytes of one of at most 1 MiB |
| Receipt.WireExactly | session/crypto.go:43-65 | without a key a plaintext goes out as it is, with one it goes out sealed under that key and nonce, and with a key AES does not accept it does not go out |
| Receipt.RequestReadExactly | frame/request.go:57-98 | a request is read if and only if the input begins with a frame whose data is the plaintext, or opens to it under the session key, of two bytes of opcode and a payload |
| Receipt.ResponseReadExactly | frame/response.go:93-132 | the same for a response, with one status byte and the frame's number |
| Receipt.UnopenedRefused | session/crypto.go:67-90 | a frame that nothing opens, and only such a frame, is refused with a decryption error |
| Receipt.CleartextRefused | session/crypto.go:68-77 | on a keyed session data shorter than 28 bytes and keys of other lengths are refused, whatever the cipher |
| Receipt.ShortRefused | frame/request.go:70-72 | no frame, and no room for opcode or status, are refused with errors of their own |
| Messages.ProtectRoundTrip | session/crypto.go:43-90 | a protected plaintext opens to itself and is 28 bytes longer when encrypted |
| Messages.PayloadRoundTrip | frame/request.go:76-82 | a payload comes back exactly when within the decoder's limits, nil and empty map kept apart |
| Messages.WireSize | frame/frame.go:97-103 | an encrypted write fits if and only if its plaintext is at most MaxSafePayload bytes, and takes exactly 36 more bytes on the wire |
| Messages.RequestCrashesExactly | frame/request.go:57-98 | reading a request panics if and only if its frame opens and its payload's start and length reach 2^64 |
| Messages.ResponseCrashesExactly | frame/response.go:93-132 | the same for a response |
| Messages.RequestRoundTrip | frame/request.go:46-98 | one request comes back with its sequence number if and only if its payload is within the limits |
| Messages.ResponseRoundTrip | frame/response.go:82-132 | the same for a response, whose Seq field becomes the frame's number |
| Messages.RequestStream | frame/request.go:46-98 | a list of requests on one stream is read back in order if and only if every payload is within the limits |
| Messages.ResponseStream | frame/response.go:82-132 | the same for responses |
| Messages.WriteRequest | frame/request.go:46-53 | puts the request's frame on the wire, or nothing |
| Messages.ReadRequest | frame/request.go:57-98 | the request at the front of the input, depending on its bytes and not on its chunks |
| Messages.WriteResponse | frame/response.go:82-89 | puts the response's frame on the wire, or nothing |
| Messages.ReadResponse | frame/response.go:93-132 | the response at the front of the input, depending on its bytes and not on its chunks |
| TcpProtocol.RunKeepsInv | client/client.go:231-272 | every sequence of steps of callers and server keeps it true that only the mutex holder is on the wire, that its request or answer is in one place, and that recorded answers and returned replies match |
| TcpProtocol.Pairing | client/client.go:255-271 | in every interleaving a call that returns a response got the server's answer to its own request under its own number, given once, or is the single call that got the session-expired frame |
| TcpProtocol.AnswerContents | server/server.go:338-390 | the answer field by field: the status and payload the handler gave, 7 and its error text if it failed, 4 and the opcode if none was registered when the request was taken, always under the request's number |
| TcpProtocol.EndedExactly | server/server.go:313-392 | the loop closes the connection exactly when the session expires; ending for a cancelled context, an undecodable request or an unwritable response leaves it open |
| TcpProtocol.OrderExactly | client/client.go:248 | sequence numbers count the calls that took one, from 1 on |
| TcpProtocol.ConnectedExactly | client/client.go:259-268 | the client keeps its connection until a write or a read fails |
| TcpProtocol.NoCallAfterFailure | client/client.go:231-244 | after that no call that had not yet seen an open connection gets to the wire |
| TcpProtocol.OneUnanswered | server/server.go:313-392 | while the server's loop lives, at most one request is unanswered |
| TcpProtocol.HangsExactly | server/server.go:313-392 | a waiting call waits for ever, keeping the mutex, if and only if the loop has ended without closing the connection and no reply is left to read |
| TcpProtocol.WaiterIsServed | server/server.go:329-392 | a waiting call can read, or the server can step, and a request in a handler is the waiting call's |
| TcpProtocol.SequenceReuse | client/client.go:248 | two calls share a sequence number only a multiple of 2^32 calls apart |
| Limiter.DecisionIsNaive | server/ratelimit.go:37-67 | the pruned table decides as counting the full history does |
| Limiter.Refinement | server/ratelimit.go:37-126 | over every run, admissions and answers for a key are the naive rule's on the times of its own calls |
| Limiter.SweepsAndOtherKeysDoNotMatter | server/ratelimit.go:106-126 | runs that differ in sweeps and other keys answer a key alike |
| Limiter.WindowBound | server/ratelimit.go:41-66 | for every instant a, at most limit calls of a key are admitted in (a, a + window] |
| Limiter.ListBound | server/ratelimit.go:46-66 | the list kept for a key is sorted and has at most max(limit, 0) entries |
| Limiter.LimitIsReached | server/ratelimit.go:59-66 | the bound is reached: of the calls of a key at one instant exactly as many as the limit are admitted |
| Limiter.ListExactly | server/ratelimit.go:37-126 | the list kept for a key is exactly its admitted times in the window when the key was last called or swept |
| Limiter.KeysExactly | server/ratelimit.go:106-126 | a call files its key and a sweep keeps exactly the keys with an admitted call in the window |
| Limiter.SlidingWindowLimiter.Allow | server/ratelimit.go:37-67 | one call of the object: its answer and its new table |
| Limiter.SlidingWindowLimiter.Collect | server/ratelimit.go:106-126 | one sweep of the object: pruned lists, emptied keys gone |
| LimiterChain.ChargedExactly | server/middleware.go:163-175 | however requests overlap, a limiter's admissions over any time span are the passes of its positions in the chain |
| LimiterChain.RequestsExactly | server/middleware.go:166-173 | a request is checked once for every pass and at most once more, by the limiter that refused it, after which it goes no further |
| LimiterChain.HandlerWindowBound | server/middleware.go:163-175 | calls of a key that reach the handler respect the window bound of the limiter at every position at once |
| LimiterChain.DefaultBounds | server/ratelimit.go:144-161 | at most 30 calls in any second and 620 in any minute under the default settings |
| LimiterChain.CheckAll | server/middleware.go:163-175 | the handler may run if and only if all admit in turn, and a limiter is asked exactly when all before it admitted, one that stands twice in the list included |
| Hub.TableInvariant | server/stream.go:80-152 | registered subscribers are open and under their own names, nothing is closed twice, Topics lists the topics with a positive count |
| Hub.StreamInvariant | server/stream.go:184-204 | message frames are numbered 1, 2, 3, ... mod 2^32 and carry a FIFO prefix of the accepted events; the next event may be in the loop's hand and at most 64 more are buffered |
| Hub.SnapshotExactly | server/stream.go:110-123 | a publish carries its topic, payload and time and reaches exactly the subscribers of its topic who were registered when it began |
| Hub.RegisteredExactly | server/stream.go:80-106 | who is registered under a name: the last to subscribe under it, if nobody unsubscribed since |
| Hub.SubscriberExactly | server/stream.go:80-91 | a subscription makes a subscriber with its topic and ID, later than the publishes begun before it |
| Hub.ClosedExactly | server/stream.go:94-106 | a subscriber is closed exactly when its name was unsubscribed while it was registered |
| Hub.DeliveryInvariant | server/stream.go:110-133 | a publish offers its event once to each subscriber of its snapshot, who accepts or drops it |
| Hub.DropsExactlyWhenFull | server/stream.go:126-132 | an offered event is dropped if and only if accepted minus received by the loop is 64 |
| Hub.SerialOrder | server/stream.go:110-133 | without overlap, accepted events are in publish order, to the subscriber's topic, after it subscribed |
| Hub.RegistrationLifetime | server/stream.go:80-106 | a registration lasts if and only if nobody subscribes or unsubscribes under its topic and ID |
| Hub.ReplacedSubscription | server/stream.go:172-174 | a second subscription under an ID is closed by the first stream's deferred Unsubscribe, and the first stays open, unregistered |
| Hub.EventHub.Subscribe | server/stream.go:80-91 | files a new open subscriber under topic and ID |
| Hub.EventHub.Unsubscribe | server/stream.go:94-106 | closes whoever is filed under the name, drops the name and an empty topic |
| Hub.EventHub.Publish | server/stream.go:110-133 | offers the event once to each subscriber of the topic |
| Hub.EventHub.Topics | server/stream.go:136-145 | the topics with subscribers |
| Hub.EventHub.SubscriberCount | server/stream.go:148-152 | the number of subscribers of a topic, positive exactly for listed topics |
| Tokens.Refinement | media/media.go:92-150 | over every run each Validate answers as the history does: last issue, no revocation, no refusal since, age, session |
| Tokens.SessionsExactly | session/session.go:88-119 | a session is in the store exactly when it was stored and neither its connection's end nor a sweep past its lifetime has come since |
| Tokens.TokensExactly | media/media.go:44-150 | a token is in the store exactly when it was issued and no later issue of its ID, revocation, refusal or sweep past its lifetime has come since, and only its creation time has changed |
| Tokens.ValidatesExactly | media/media.go:92-117 | a Validate succeeds exactly on such a token, within the maximum lifetime, with no session check set or its session stored and not ended |
| Tokens.SweepsDoNotMatter | media/media.go:141-150 | inserting or removing token sweeps changes no Validate answer |
| Tokens.ValidatedInTime | media/media.go:101-116 | no Validate succeeds after IssuedAt + MaxTokenTTL of the last issue, however often it was extended |
| Tokens.RefusedUntilReissued | media/media.go:92-117 | a refused ID stays refused until it is issued again |
| Tokens.NoTokenOutlivesItsSession | server/server.go:304-305 | with the session check, no token validates once its session has left the store |
| Tokens.SessionStore.Collect | session/session.go:111-119 | a sweep keeps exactly the sessions within their lifetime |
| Tokens.TokenStore.Validate | media/media.go:92-117 | the object's answer and its new tokens |
| Tokens.TokenStore.RevokeBySession | media/media.go:130-139 | removes exactly the session's tokens |
| Tokens.TokenStore.Collect | media/media.go:142-150 | removes exactly the expired tokens |

## Left out

- QUIC, TLS, dialling, listening and accept loops, contexts and goroutine spawning: library plumbing.
- AES-GCM, X25519, HKDF and the handshake: only the two laws of the cipher are used; `LawfulCipherExists` shows they can be met.
- Error texts; which error is reported where the table names none; for stream decoding the kind of an error beyond whether it wraps io.EOF.
- Logging, recovery, context and API-key middleware, `RateLimitByAPIKey` and its siblings, media URLs: no hard property.
- Storage shared between a nested map, a value holding it and a map taken from it, and the caller's alias of an issued token: values are immutable here, so isolation is stated for a map's own entries.
- The difference between a nil and an empty slice inside a value; times finer than a millisecond or outside int64 milliseconds.
- TLV accessors on a value of another type, which panic.
- TcpProtocol: the client and server are steps of a state machine rather than methods, because their order is what is proved. Wires carry whole frames, which `Messages` justifies. A write cut off in the middle, streaming handlers, handlers that panic, `Close` during a run, the closing of an unreferenced connection by the garbage collector and the idle timeout are not modelled.
- TcpProtocol.OneUnanswered: covers the time the server's loop lives; after it has ended, callers that captured the connection earlier may still write.
- Hub.EventHub.Publish: one publish with nothing interleaved; interleavings are the state machine's.
- The subscribe handler's acknowledgement frame, its missing-topic error, and whether a frame reaches the client: writes are best effort.
- Tokens: session IDs are unbounded, so their reuse after 2^64 connections is outside the model; `LastUsed` and idleness are not modelled.
- Integer overflow in limiter settings and durations.
