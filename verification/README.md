# kwin-api-server: verified model

A Dafny 4.11 model of the parts of kwin-api-server where bytes, messages and
window claims are moved around, with proofs of what its documentation promises.
Check it with `dafny verify dfyconfig.toml`.

## What is modelled

* **Framing** (`Framing.dfy`): the 4-byte length header and `Split`, the one
  reference reading of a byte stream. It is shown to be exact, unique and
  indifferent to how the stream is cut into pieces.
* **The transport engine of the daemon**: the splice queue with its in-flight
  tail (`RxBuffer.dfy`), the transmit ring (`TxBuffer.dfy`), the resumable frame
  decoder (`Client.dfy`), deferred poll replies (`Poll.dfy`) and one connection
  with its callbacks, backpressure and armed events (`Session.dfy`). They are
  classes over arrays that update in place, as in the source. The kernel
  (`Socket.dfy`) may answer any call with any share of the bytes, "would block",
  "interrupted" (finitely often) or a hard error.
* **The client registry**: accepted connections and the bounded control queue
  (`Server.dfy`), and the script's copy, read out of the reply texts (`Clients.dfy`).
* **The JSON the daemon splices without parsing** (`Json.dfy`), against sections
  2, 5 and 7 of RFC 8259.
* **The window-claim protocol of the KWin script**: tokens, bindings, deadlines
  and notifications (`Claims.dfy`) and the property listeners (`Watches.dfy`).
* **The native-messaging host** (`NativeHost.dfy`), an independent implementation
  of the framing, and round trips between the three.
* **Staging** (`Staging.dfy`): D-Bus name validation and placeholder substitution.

How to read the results: each class has a `Valid` (for a session also `Idle`)
that its constructor establishes and every operation keeps, so it holds in every
reachable state, for every order of callbacks and every answer of the kernel;
`Session.Serve` and `Claims.Live` run arbitrary schedules to say so once more;
`Claims.Claim` says that from every such state a claim succeeds.
Where several operations have the same effect, a two-state predicate names it:
`Answered` and `Met` for a caption that carries a token, `AllDropped` for a client
that goes away, `Treated` for a poll request. What the environment may refuse -
reads, sends, timers, the setup of a session - is counted or recorded by ghost
fields, and an operation may only fail where they say so.
Ghost fields record what went in and out; the lemmas named below say what
`Valid` means for them.

Where code and documentation differ, the code is modelled:

* PROTOCOL.md section 2.3 says a single message can never exceed the read
  buffer. With a configured capacity below 1,000,002 bytes (`Session.SafeCapacity`)
  it can, and the session is then suspended for good. By
  `Session.ClientSession.HandleIo` the readable event after a batch suspends the
  session again, with nothing left to poll, if and only if the pending frame's
  length + 2 exceeds the capacity; by `Session.OverlongFrameBlocks` no run ever
  reads a byte behind such a header; by `Session.Serve` no callback ends the
  suspension; and `Session.SmallestBufferWedges` runs into it with the smallest
  buffer, 64 bytes, and a frame of 63.
* PROTOCOL.md section 3.2 says a poll reply is always valid JSON with the
  payloads as elements. Payloads are not checked: `JsonText.ElementsOfArray`
  says exactly which queues come back as they were, `JsonText.JsonPayloadsComeBack`
  that JSON payloads do, `JsonText.OpaquePayloadCanSplit` shows one that does not.
* The same section says error texts are escaped by the JSON rules, control
  characters included. Only three of them are; `JsonText.LiteralRoundTrip` is exact.
* Frames of length 0 are discarded and counted like oversized ones, which
  PROTOCOL.md does not mention.
* RPC.md section 2.5 describes an `ambiguous` withdrawal of a token that is still
  pending. There is none: by `Claims.TokenRegistry.Match` a pending token is
  validated by its first match.

## Model

| member | source | states |
|---|---|---|
| Framing.SplitIsExact | native/kwin-api-host.py:48-63 | the frames found in a stream, written out again, and the remainder are the stream; the remainder holds no whole frame |
| Framing.HeaderIsLittleEndian | daemon/src/proto/tx_buffer.cpp:51-62 | the four header bytes, weighed by their place, are the payload length |
| Framing.SplitIsUnique | native/kwin-api-host.py:48-63 | there is no other way to read a stream as whole frames and a remainder without one |
| Framing.SplitInPieces | daemon/src/proto/client.cpp:60-70 | reading a stream in two pieces gives the same frames as reading it whole |
| Framing.DecodeInPieces | daemon/src/proto/client.cpp:60-70 | kept messages, discard count and remainder do not depend on where the stream was cut |
| Framing.DecodeWire | daemon/src/proto/client.cpp:71-171 | whole frames decode to their payloads of 1 to 1,000,000 bytes in order; all others are only counted |
| RxQueue.SpliceToArray | daemon/src/proto/rx_buffer.cpp:65-78 | overwriting the last separator turns the splice into the array of exactly the queued payloads, verbatim |
| RxQueue.RxBuffer.Append | daemon/src/proto/rx_buffer.cpp:39-47 | a payload is queued last if it fits with its separator, else nothing changes |
| RxQueue.RxBuffer.MessageComplete | daemon/src/proto/rx_buffer.cpp:57-63 | the in-flight bytes become the last queued message |
| RxQueue.RxBuffer.Poll | daemon/src/proto/rx_buffer.cpp:65-78 | returns the queue as one array text and leaves in-flight bytes alone |
| RxQueue.RxBuffer.Drain | daemon/src/proto/rx_buffer.cpp:80-92 | the queued messages are handed over, the in-flight bytes survive the move to the front |
| TxQueue.TxBuffer.WriteRing | daemon/src/proto/tx_buffer.cpp:40-49 | the bytes are appended to the queue in ring order, across the wrap |
| TxQueue.TxBuffer.Push | daemon/src/proto/tx_buffer.cpp:51-62 | queues header and payload, or refuses for the stated reason and changes nothing; sent, then queued, is the wire of the accepted messages |
| TxQueue.TxBuffer.SendOnce | daemon/src/proto/tx_buffer.cpp:66-75 | what the kernel takes is exactly the front of the queue |
| TxQueue.TxBuffer.Flush | daemon/src/proto/tx_buffer.cpp:64-91 | over any partial, interrupted or failed sends no byte is lost, doubled or reordered; stops only when empty, blocked or broken; an empty ring is rewound |
| FrameClient.WholeFrame | daemon/src/proto/client.cpp:142-146 | header and full payload decode to that message, or to one discard |
| FrameClient.Client.ReadRetrying | daemon/src/proto/client.cpp:91-93 | an interrupted read is repeated; a count of 0 means end of stream because never 0 bytes are asked for |
| FrameClient.Client.Decide | daemon/src/proto/client.cpp:104-125 | empty, oversized, fitting and non-fitting frames each take their branch and keep the books |
| FrameClient.Client.StepHeader | daemon/src/proto/client.cpp:84-126 | header bytes may come in any pieces; a resumed decision consumes nothing |
| FrameClient.Client.StepPayload | daemon/src/proto/client.cpp:128-148 | payload bytes go straight into the queue's tail and complete a message at the announced length |
| FrameClient.Client.StepDiscard | daemon/src/proto/client.cpp:150-168 | an oversized payload is consumed to its end, stored nowhere and counted once |
| FrameClient.Client.Read | daemon/src/proto/client.cpp:71-171 | one read step: keeps the agreement with the reference decode, says truthfully why it stopped, and every progress leaves less to do |
| FrameClient.DecoderAgrees | daemon/src/proto/client.cpp:71-171 | drained, then queued, messages are the reference decode of the bytes consumed; a pause has consumed exactly the 4 bytes of a legal header |
| FrameClient.RoomIsReserved | daemon/src/proto/client.cpp:128-148 | the rest of a payload and its separator always have room in the buffer; outside a payload nothing is in flight |
| FrameClient.Client.Push | daemon/src/proto/client.cpp:46-51 | queues, or refuses with the reason and changes nothing |
| FrameClient.Client.Flush | daemon/src/proto/client.cpp:53-58 | sends a prefix of what is queued |
| DBusPoll.Bus.Return | daemon/src/dbus_util.cpp:49-56 | a request gets at most one reply, and it spells out its batch |
| DBusPoll.PollWaiter.Arm | daemon/src/poll_waiter.cpp:12-35 | holds the request with its timer running; fails exactly for a timeout that is not positive, a poll already held, or an event loop that had no timer |
| DBusPoll.PollWaiter.Reply | daemon/src/poll_waiter.cpp:37-56 | answers the held request once and stops the timer |
| DBusPoll.PollObject.DrainQueue | daemon/src/dbus_util.cpp:40-46 | hands over all queued messages as one array, keeping in-flight bytes |
| DBusPoll.PollObject.MaybeReplyPendingPoll | daemon/src/dbus_util.cpp:61-72 | a held poll is answered with the whole batch exactly if there are messages |
| DBusPoll.PollObject.HandlePollRequest | daemon/src/dbus_util.cpp:74-105 | out of range and already pending are errors, each with its text; queued messages are the reply; timeout 0 without messages is the empty array; anything else is held, unless the event loop refused a timer, which is an error too |
| DBusPoll.PollObject.OnTimeout | daemon/src/poll_waiter.cpp:75-79 | the held request is answered with the empty array |
| DBusPoll.EachRequestOnce | daemon/src/dbus_util.cpp:61-105 | every request but the held one has exactly one reply; timer runs iff a poll is held; batches replied, then the queue, are all messages in order; arrays and errors differ in the first byte |
| Session.ClientSession.DrainSocket | daemon/src/client_session.cpp:85-100 | the read loop terminates, and stops only when blocked, suspended, at end of stream or broken |
| Session.ClientSession.OnRxDrained | daemon/src/client_session.cpp:59-65 | a drain lifts the suspension on both sides and re-arms reading |
| Session.ClientSession.OnRxMessages | daemon/src/client_dbus_object.cpp:46-51 | a held poll is answered with the whole queue exactly if there are messages, and nobody else gets a reply; reading resumes if that made room |
| Session.ClientSession.HandleIo | daemon/src/client_session.cpp:77-132 | after every socket event reading is armed iff not suspended and writing iff bytes are queued; a readable session is read until it would block, is suspended or has just delivered a batch, a writable one written until it would block or is empty; no reply is sent but to a held poll, with messages; closes only for end of stream, failure or hang-up; behind a batch, a readable event wedges the session iff the pending length + 2 exceeds the capacity |
| Session.ClientSession.HandlePoll | daemon/src/client_dbus_object.cpp:58-61 | treats the request by exactly these rules; on a suspended session with messages that means a batch and reading again; the pending frame then fits iff the buffer could hold it at all - so with 1,000,002 bytes or more every poll of a suspended session, its timeout in range, gets a batch, re-arms reading and makes room |
| Session.ClientSession.HandleTimeout | daemon/src/poll_waiter.cpp:75-79 | the held request, and no other, gets the empty array |
| Session.ClientSession.HandlePush | daemon/src/client_dbus_object.cpp:68-87 | the empty reply exactly if the message was queued, which arms writing; otherwise the text for the reason |
| Session.Serve | daemon/src/main.cpp:266 | over any schedule of callbacks: batches replied, then the queue, are the decode of the bytes consumed; bytes sent, then queued, are the wire of the accepted messages; no byte appears or vanishes; a wedged session reads nothing more |
| Session.SuspendedMeansPollable | daemon/src/client_session.cpp:94-97 | a suspended session has a message to poll and no poll held, unless its frame is longer than the buffer |
| Session.EmptyBufferTakes | daemon/src/proto/client.cpp:116-125 | against an empty queue a frame is taken iff its length + 2 is at most the capacity |
| Session.ReadBehindFits | daemon/src/proto/client.cpp:104-148 | a byte behind the header of a legal frame has been read only if length + 2 is at most the capacity, wherever in the stream the frame stands |
| Session.OverlongFrameBlocks | daemon/src/proto/client.cpp:116-125 | in no state is anything behind the header of an overlong frame read; once it is in, the session is suspended or decides again at the next event, and a first frame has wedged it |
| Session.SmallestBufferWedges | daemon/src/proto/client.cpp:116-125 | a new session with 64 bytes of buffer that meets a frame of 63 is wedged by one readable event, unless the socket fails or would block |
| Session.SafeCapacity | daemon/src/config.cpp:22-27 | every legal frame fits an emptied buffer iff the capacity is at least 1,000,002 |
| JsonText.JsonString | daemon/src/dbus_util.cpp:9-35 | writes the quoted and escaped text |
| JsonText.LiteralRoundTrip | daemon/src/dbus_util.cpp:9-35 | the literal reads back as the text iff the text has no control character but line feed, return and tab; otherwise it is no JSON string |
| JsonText.ElementsOfArray | daemon/src/proto/rx_buffer.cpp:65-78 | cutting a poll reply at its top-level commas gives the queued payloads iff no payload has one and all but the last end at the top |
| JsonText.ValueEnclosed | doc/PROTOCOL.md:168-172 | a JSON text, however nested, keeps its commas inside strings or brackets and closes both |
| JsonText.JsonPayloadsComeBack | doc/PROTOCOL.md:168-172 | JSON payloads are exactly the elements of the reply |
| JsonText.ReplyIsJson | doc/PROTOCOL.md:154-172 | with JSON payloads the reply is itself a JSON text, the array of them |
| JsonText.OpaquePayloadCanSplit | doc/PROTOCOL.md:154-172 | a payload that is no JSON text can come back as two |
| JsonText.TwoMembersRead | daemon/src/server.cpp:23-25 | an object of two members is read back by their names |
| ScriptClients.ControlBatchComesBack | daemon/src/server.cpp:23-25 | a batch of control messages is parsed back into those messages, and the script reads from each the event that was written |
| ScriptClients.TextsDistinguish | daemon/src/server.cpp:23-25 | different events have different messages |
| ScriptClients.MessageRead | kwinscript/src/clients.ts:136-146 | the script reads the two fields by name: `client_connected` and `client_disconnected` with a decimal id are those events, and any other name is ignored |
| Registry.Server.EnqueueControl | daemon/src/daemon_dbus_object.cpp:42-53 | queued iff there is room; a held poll is answered with it at once, and nothing else is sent |
| Registry.Server.QueueControl | daemon/src/server.cpp:153-157 | the event is recorded; its message is queued iff it fits, and it does while fewer than 2,259 are queued |
| Registry.Server.AcceptClients | daemon/src/server.cpp:108-141 | takes connections until there are none: the first get consecutive new ids in the order they came, and every one whose session could be set up is registered with its socket and announced once, in order, without a drop while there is room; the rest find the server full and are closed; existing sessions stay; terminates |
| Registry.Server.OnClientDisconnected | daemon/src/server.cpp:143-151 | announces and removes exactly that session, its message queued iff it fits; or does nothing for an unknown id |
| ScriptClients.Script.OnReply | kwinscript/src/clients.ts:127-146 | every message of an array reply is read and applied in order; an error text changes nothing |
| ScriptClients.RegistriesAgree | kwinscript/src/clients.ts:116-150 | if nothing was dropped, a script that has read the texts of all poll replies, and then reads what is still queued, knows exactly the daemon's sessions |
| Registry.EventsKeepTheirOrder | daemon/src/daemon_dbus_object.cpp:42-49 | even with drops, delivered and queued events are an ordered part of those that happened; ids only rise; sessions never exceed the limit |
| Registry.BoundIsExact | daemon/src/daemon_dbus_object.cpp:27-28 | with the longest messages the 2,260th is the first that does not fit |
| WatchTables.WatchTable.SetWatch | kwinscript/src/windows.ts:260-297 | the property is watched iff asked for, once; other properties and tokens are untouched |
| WatchTables.WatchTable.DropClientWatches | kwinscript/src/windows.ts:306-322 | exactly the listeners of those tokens are disconnected and forgotten |
| Claims.TokenRegistry.Invalidate | kwinscript/src/tokens.ts:162-178 | removes token, binding and listeners, and tells the owner last |
| Claims.TokenRegistry.Validate | kwinscript/src/tokens.ts:143-159 | binds the window; the token that held it is withdrawn, and its owner told, before the new owner is |
| Claims.TokenRegistry.Match | kwinscript/src/tokens.ts:123-139 | first match validates, a second window withdraws, the same window changes nothing; the match is on record |
| Claims.TokenRegistry.CheckCaption | kwinscript/src/tokens.ts:112-140 | a token in time that the caption carries has met the window: bound, withdrawn as ambiguous or left alone, with exact indexes, listeners and notices; otherwise nothing changes; the record of windows met grows by this one only |
| Claims.TokenRegistry.OnTokenDeadline | kwinscript/src/tokens.ts:181-188 | a pending token times out with its listeners, an active one stays |
| Claims.TokenRegistry.OnWindowAdded | kwinscript/src/tokens.ts:190-195 | the first caption has exactly the effect of a caption change |
| Claims.TokenRegistry.OnCaptionChanged | kwinscript/src/tokens.ts:190-195 | the new caption is recorded and checked, with exactly that effect on tokens, listeners and notices |
| Claims.TokenRegistry.OnWindowRemoved | kwinscript/src/tokens.ts:197-202 | the bound token, and nothing else, goes with its window; its owner, if still there, gets exactly one notice |
| Claims.TokenRegistry.GenerateToken | kwinscript/src/tokens.ts:94-105 | an unused token among the draws |
| Claims.TokenRegistry.TokenRequest | kwinscript/src/tokens.ts:269-290 | a new pending token with its deadline running, or an error for a timeout out of range |
| Claims.TokenRegistry.DropClientTokens | kwinscript/src/tokens.ts:205-224 | exactly that client's tokens, bindings, timers and listeners go, silently; every other client's entries are unchanged |
| Claims.TokenRegistry.OnClientDisconnected | kwinscript/src/clients.ts:97-110 | the same, and the client is told nothing any more |
| Claims.TokenRegistry.ResolveTokenWindow | kwinscript/src/tokens.ts:235-256 | a window for the owner of an active token, and the right error otherwise |
| Claims.TokenRegistry.Watch | kwinscript/src/windows.ts:369-388 | refused as a whole, or: a property the request does not name keeps its listener or goes on without one, a named one is watched iff its last request enables it, every listener is for the token's window and owner; the reply says what is watched afterwards; other tokens are untouched |
| Claims.LastRequestWins | kwinscript/src/windows.ts:383-386 | the last request for a property decides |
| Claims.OneTokenPerWindow | kwinscript/src/tokens.ts:143-152 | no two tokens refer to one window |
| Claims.PrefixLookupIsScan | kwinscript/src/tokens.ts:112-121 | the single prefix lookup finds the same, unique token as a scan of all tokens |
| Claims.ListenersReachTheOwner | kwinscript/src/windows.ts:260-281 | a connected listener belongs to an active token, its owner and its bound, live window; there is one per token and property |
| Claims.TraceOfToken | kwinscript/src/tokens.ts:162-188 | all that was sent about a token while its owner listened, against the windows it met in time: nothing and none; validated and only its window; one timeout and none; or validated and withdrawn, as ambiguous iff it met a second window |
| Claims.Claim | kwinscript/src/tokens.ts:112-159 | from any state, a token requested by a listening client and put at the front of a live window's title in time claims that window: its owner is told exactly once, it resolves to the window, and only the token that held the window is gone |
| Claims.Live | kwinscript/src/tokens.ts:258-298 | over any run of window events, deadlines, requests, watches and disconnects the registry stays in order, nothing said is taken back, and every token has one of those traces for the windows it met |
| NativeHost.ExtractIsExact | native/kwin-api-host.py:53-63 | payload and rest are the buffer; an oversized header is met as soon as it is complete |
| NativeHost.ExtractUndoesPack | native/kwin-api-host.py:48-63 | extracting undoes packing, whatever follows |
| NativeHost.CutIsUnique | native/kwin-api-host.py:109-142 | what is forwarded is a function of the bytes received, not of their chunks |
| NativeHost.Direction.Feed | native/kwin-api-host.py:115-125 | forwarded, then kept, bytes are the bytes received; forwarding ends on a frame border, at the first oversized header or when no whole frame is left |
| NativeHost.Bridge.OnChunk | native/kwin-api-host.py:107-142 | one chunk touches one direction; exit code 0 at end of stream, 1 at an oversized header, and the bridge goes on otherwise |
| NativeHost.CutOfWire | daemon/src/proto/tx_buffer.cpp:51-62 | a prefix of well-sized frames is cut into the first of them, and never looks oversized |
| NativeHost.PushedMessagesComeOut | daemon/src/proto/tx_buffer.cpp:51-91 | the host extracts the first of the pushed messages, all of them once flushed, empty ones included |
| NativeHost.ForwardedMessagesDecode | daemon/src/proto/client.cpp:104-147 | the decoder gives the forwarded messages without the empty ones |
| NativeHost.FlushedIsWire | daemon/src/proto/tx_buffer.cpp:64-91 | an emptied transmit queue has sent exactly the frames of its messages |
| NativeHost.PushedMessagesArrive | daemon/src/proto/client.cpp:104-147 | a decoder fed any part of that wire has the first of the same messages, without the empty ones, and all of them at its end |
| Staging.ScanMeansGrammar | daemon/src/config.cpp:91-110 | the scan accepts exactly the dotted names |
| Staging.IsValidDBusName | daemon/src/config.cpp:81-111 | true exactly for 2 or more dotted elements, 255 characters at most |
| Staging.Find | daemon/src/file_util.cpp:24-24 | the first occurrence at or behind the position, if any |
| Staging.ReplaceAll | daemon/src/file_util.cpp:14-35 | the leftmost, non-overlapping occurrences are replaced and nothing else |
| Staging.ReplacedIsUnique | daemon/src/file_util.cpp:14-35 | there is only one such output for a text, a needle and a replacement |
| Staging.PlaceholderIsGone | daemon/src/file_util.cpp:76-77 | for a valid service name no placeholder is left, not even across the borders of a replacement |
| Staging.FreeIsKept | daemon/src/file_util.cpp:76-77 | a text without the needle is not changed |
| Staging.StageKwinscript | daemon/src/file_util.cpp:54-90 | the staged text has no placeholder, and staging it again changes nothing |
| Staging.UndottedNameCanLeak | daemon/src/config.cpp:85-89 | with a name without '.', a placeholder can close up from both sides |

## Left out

- Real sockets, epoll, sd-event, sd-bus, signals and timers: their answers are nondeterministic; interruptions are assumed finite, D-Bus replies reliable and in order.
- Byte order: the header is laid out as on a little-endian host; both peers are on one host, so only the round trip matters.
- 64-bit wrap-around of `discarded_frames_`, `next_id_` and buffer sizes: counters are unbounded (`Registry.Server.QueueControl` states its bound for ids below 2^64).
- Session.ClientSession.HandleIo: messages still queued when a connection closes are lost with the session; the balance holds up to the close.
- DBusPoll.PollObject.HandlePollRequest: the drained-hook runs after the reply is handed to the bus instead of just before; neither touches what the other reads. A request whose argument cannot be read is not modelled.
- DBusPoll.PollWaiter.Arm: null arguments and the unread `event_` field are not modelled; the time of the deadline is not.
- NativeHost.Direction.Feed: the two identical loops of `bridge` are one method; broken pipes and `--check` are not modelled.
- Registry.Server.AcceptClients: a session is its id and socket here; `ClientSession` is modelled on its own in `Session.dfy`. `start` and `stop` are not modelled.
- ScriptClients.Script.OnReply: the poll loops' retries and delays, and ids above 2^53 in JavaScript numbers, are not modelled.
- ScriptClients.MessageRead: blanks between the parts of an object, escapes in its names and numbers that are not decimal digits, none of which the daemon writes, are not read.
- Claims.TokenRegistry.GenerateToken: random draws are a parameter, of the right length and over any alphabet; sampling is assumed to find an unused token.
- Claims.TokenRegistry.OnClientDisconnected: that client ids are not reused is a precondition; the daemon's side of it is `Registry.EventsKeepTheirOrder`. Workspace listeners are not modelled.
- Claims.TokenRegistry.CheckCaption: captions are sequences of characters, not UTF-16 units; caption signals come only from live windows, and a window's key is its identity.
- WatchTables.WatchTable.DropClientWatches: a disconnect that throws because the window is destroyed is treated like one that worked, since such a window emits no signal.
- windows.update, windows.query, workspace methods, log, configuration parsing, KWin loading and the superseded line protocol: easy members only.
- The json-rpc-2.0 and zod libraries: dispatch and schema checks are not visible here.
- NUL bytes inside payloads, which the C-string replies of sd-bus cut off.
