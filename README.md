# Event API connection core, in Dafny

This project models the connection core of the event API server.

- **Subscription suffix.** The push-only (event-stream) route accepts a path suffix `@TYPE<COND>,TYPE2<COND2>,…`. It becomes an ordered list of subscribe requests, each an event type and a condition map. The requests are issued left to right until the first one the handler refuses.
- **Duplex connection.** The WebSocket connection holds a close flag, a heartbeat counter, a fixed heartbeat interval, a subscription limit and a session. It hands frames to the socket: Hello, Heartbeat, Ack, Error, EndOfStream, and the protocol close frame.
- **Connect handler.** It chooses the transport from the `Upgrade` and `Connection` headers, applies the V1/V3 feature gates and answers errors with a status. Its connection tracker counts live connections and asks them to close with the restart code on shutdown.
- **Pub/sub registry.** It maps each channel to its listeners. Publishing fans a payload out to the channel's listeners. A cancelled listener is removed, and a channel goes away with its last listener.

Modules, one per file:

| file | module | models |
|---|---|---|
| `common.dfy` | `Common` | `Option`, and Go's `byte`/`uint32`/`int32` widths |
| `text.dfy` | `Text` | `strings.Split`, with `strings.Join` as its inverse |
| `hex.dfy` | `Hex` | `hex.EncodeToString`, with a decoder |
| `query_escape.dfy` | `QueryEscape` | `url.QueryUnescape`, with `url.QueryEscape` |
| `suffix_match.dfy` | `SuffixMatch` | the item pattern `(?P<EVT>^\w+\.[a-zA-Z0-9*]+)(\<(?P<CND>.+)\>)?` as a hand-written matcher |
| `v3.dfy` | `V3` | condition maps, item parsing, and the subscribe loop of the push-only route |
| `websocket.dfy` | `WebSocket` | the duplex connection: pure state transitions and a class proved against them |
| `connect.dfy` | `Connect` | transport choice, feature gates and error replies |
| `tracker.dfy` | `Tracker` | the active-connection counter and the shutdown watcher, as a class driven by events |
| `pubsub.dfy` | `PubSub` | the channel → listeners registry, as a class |

Modelling conventions:

- **Characters.** On the suffix path each `char` stands for one byte of the Go string. All delimiters (`@ , ; = < > . %  +`) are ASCII.
- **Pattern matching.** The pattern follows RE2's leftmost-first preferences:
  - `\w` is ASCII `[A-Za-z0-9_]`;
  - both character runs are greedy;
  - the optional `<…>` group closes at the last `>` before the first newline.
- **Subscribe answers.** The handler's subscribe call is an `Acceptance` oracle. It receives the requests already issued and the new one, and answers "no error and `ok`".
- **Socket.** A write error is an input flag. `sent` logs every frame handed to the socket, including a write the socket then reports as failed.
- **Session and close codes.** The session bytes are an input. Close codes and opcodes are records of a value and the name their `String()` returns.

## Model

| member | source | states |
|---|---|---|
| Text.Split | internal/app/v3/v3.go:61 | `strings.Split` always yields at least one piece, no piece holds the separator, and joining the pieces gives back the text |
| Text.SplitJoin | internal/app/v3/v3.go:61 | splitting undoes joining separator-free pieces, so items written with `,` come back one by one |
| Text.SplitCount | internal/app/v3/v3.go:76-77 | the number of `=`-parts is one more than the number of `=` in the piece |
| Hex.Encode | internal/app/connection/websocket/websocket.go:77-79 | hex encoding is twice as long as the bytes and uses only `0-9a-f` |
| Hex.EncodeByte | internal/app/connection/websocket/websocket.go:78 | one byte becomes two lower-case digits: the high nibble, then the low nibble |
| Hex.DecodeEncode | internal/app/connection/websocket/websocket.go:77-79 | decoding the session identifier gives back the session bytes |
| Hex.EncodeInjective | internal/app/connection/websocket/websocket.go:77-79 | different session bytes give different session identifiers |
| QueryEscape.Unescape | internal/app/v3/v3.go:56 | `url.QueryUnescape` never lengthens the text |
| QueryEscape.UnescapeFails | internal/app/v3/v3.go:56 | unescaping fails exactly when some `%` is not followed by two hexadecimal digits (Go's `i+2 >= len(s)` and `ishex` test) |
| QueryEscape.UnescapeOrEmpty | internal/app/v3/v3.go:56 | the handler drops the unescape error, so an error gives `""` and a success gives the unescaped text |
| QueryEscape.UnescapeEscape | internal/app/v3/v3.go:56 | unescaping undoes `url.QueryEscape`, so any byte string can be carried in the suffix |
| QueryEscape.UnescapePlain | internal/app/v3/v3.go:56 | text without `%` or `+` unescapes to itself |
| SuffixMatch.Run | internal/app/v3/v3.go:30 | a greedy run: every character in it is in the class, and the next one is not (or the text ends) |
| SuffixMatch.NewlineFrom | internal/app/v3/v3.go:30 | `.` cannot cross a newline: the first newline at or after a position, or the end |
| SuffixMatch.LastClose | internal/app/v3/v3.go:30 | greedy `.+\>`: the last `>` in range, and none after it; or no `>` in range at all |
| SuffixMatch.MatchEvent | internal/app/v3/v3.go:30 | the `EVT` group is a prefix of the item, is in `\w+\.[a-zA-Z0-9*]+`, and is the longest prefix in that language |
| SuffixMatch.MatchNone | internal/app/v3/v3.go:30 | when the pattern does not match, no prefix of the item is in the `EVT` language |
| SuffixMatch.MatchCondition | internal/app/v3/v3.go:30 | a non-empty `CND` is the text between the `<` right after the event type and the last reachable `>`; an empty `CND` means no `>` could close the group |
| SuffixMatch.EventHasOneDot | internal/app/v3/v3.go:30 | the matched event type holds exactly one `.` |
| SuffixMatch.ExampleGroup | internal/app/v3/v3.go:30 | `chat.*<room=1;x=2>` has event `chat.*` and condition `room=1;x=2` |
| V3.Pair | internal/app/v3/v3.go:76-81 | a condition piece is a key/value pair exactly when it splits on `=` into two parts |
| V3.PairDropped | internal/app/v3/v3.go:76-79 | a piece is dropped exactly when it does not contain exactly one `=` |
| V3.PairOfJoin | internal/app/v3/v3.go:76-81 | `key=value` with no further `=` is read as that key and value |
| V3.ConditionsHasKey | internal/app/v3/v3.go:72-82 | a key is in the condition map exactly when some piece is a well-formed pair with that key |
| V3.ConditionsLastWins | internal/app/v3/v3.go:75-81 | a key's value comes from the last well-formed piece with that key: a later duplicate overwrites |
| V3.AbsentConditionIsEmpty | internal/app/v3/v3.go:70-73 | an absent condition group gives an empty map |
| V3.BuildConditions | internal/app/v3/v3.go:72-82 | the inner loop fills the map piece by piece, giving the condition map of the `;`-pieces |
| V3.CollectAppend | internal/app/v3/v3.go:63 | items are handled left to right: the requests of consecutive item lists are consecutive |
| V3.SkipMalformed | internal/app/v3/v3.go:64-67 | a non-matching item is skipped, and the items around it keep their requests, in order |
| V3.ParseItemEvent | internal/app/v3/v3.go:64-69 | an issued event type is a prefix of its item, in the `EVT` language, the longest such prefix, and has one dot |
| V3.ParseItemSkips | internal/app/v3/v3.go:64-67 | an item is skipped exactly when no prefix of it is in the `EVT` language |
| V3.ExampleTrailingText | internal/app/v3/v3.go:30 | `a.b.c` subscribes to `a.b` with an empty condition map |
| V3.ExampleCondition | internal/app/v3/v3.go:69-82 | `chat.*<room=1;x=2>` subscribes to `chat.*` with `room → 1` and `x → 2` |
| V3.ConditionsOfTwo | internal/app/v3/v3.go:72-82 | two well-formed `;`-separated pairs give a map with both, the second written last |
| V3.ExampleSkipped | internal/app/v3/v3.go:64-67 | `.b`, `a.` and `a-b.c` are skipped |
| V3.Plan | internal/app/v3/v3.go:47-61 | no request when the connection was already cancelled, when there is no suffix, when unescaping fails, or when the text does not start with `@` |
| V3.PlanOfItems | internal/app/v3/v3.go:56-63 | a suffix written as `@` and comma-free items yields exactly those items' requests, in item order |
| V3.IssuedStopsAtFirstRefusal | internal/app/v3/v3.go:84-89 | the issued requests are a prefix of the plan; all but the last were accepted; when the plan is cut short, the last one was refused |
| V3.IssuedAfterAccepted | internal/app/v3/v3.go:63-89 | requests already accepted are followed by the issuing of the rest |
| V3.RefusalEnds | internal/app/v3/v3.go:84-89 | a refusal of item `i`'s request ends the issued list there: no later item is subscribed |
| V3.AllIssued | internal/app/v3/v3.go:63-90 | when every request is accepted, all of them are issued |
| V3.IssueItems | internal/app/v3/v3.go:63-90 | the item loop (skip, build the map, subscribe, stop at a refusal) issues exactly the plan's requests up to the first refusal |
| V3.SubscribeFromSuffix | internal/app/v3/v3.go:46-92 | the initial-subscription task issues exactly the requests of the suffix, up to and including the first refused one |
| WebSocket.Initial | internal/app/connection/websocket/websocket.go:40-43 | a fresh connection: an interval of 0 becomes 45000, otherwise it is kept; the counter is 0; nothing is sent; open and not cancelled |
| WebSocket.AfterWrite | internal/app/connection/websocket/websocket.go:141-154 | a write changes nothing once closed; otherwise it appends exactly the given message |
| WebSocket.ErrorOf | internal/app/connection/websocket/websocket.go:178-186 | an Error payload carries the text; a nil field map becomes an empty map |
| WebSocket.RunMonotone | internal/app/connection/websocket/websocket.go:81-154 | no operation reopens or uncancels a connection, changes its session, interval or limit, or takes back a sent frame |
| WebSocket.ClosedSendsNothing | internal/app/connection/websocket/websocket.go:110-112 | once closed, no sequence of operations sends anything, and the connection stays closed |
| WebSocket.CloseSequence | internal/app/connection/websocket/websocket.go:109-139 | closing an open connection sends EndOfStream with the code and its name, then one close frame with the same code; it cancels and marks closed and leaves the counter alone |
| WebSocket.CloseIdempotent | internal/app/connection/websocket/websocket.go:109-144 | after a close, later operations (a second close included) send nothing more: exactly one EndOfStream and one close frame |
| WebSocket.HeartbeatsNumbered | internal/app/connection/websocket/websocket.go:91-98 | `k` heartbeats on an open connection send counts `from+1 … from+k`, in order, and leave the counter at `from+k` |
| WebSocket.HeartbeatCount | internal/app/connection/websocket/websocket.go:81-139 | only heartbeats move the counter: after any run it has grown by the number of heartbeats in it; greetings, acks, errors, writes and closes leave it alone |
| WebSocket.HeartbeatCarriesItsNumber | internal/app/connection/websocket/websocket.go:91-98 | after any operations on a still-open connection, the next heartbeat sends the starting count plus its own position among the heartbeats |
| WebSocket.KthHeartbeat | internal/app/connection/websocket/websocket.go:91-98 | from a fresh connection, the k-th heartbeat of any run sends count k while the connection is open, whatever other operations are interleaved |
| WebSocket.GreetFresh | internal/app/connection/websocket/websocket.go:81-89 | a fresh connection's Hello carries the hex session id (which decodes back to the session bytes), the interval and the limit |
| WebSocket.WebSocket.constructor | internal/app/connection/websocket/websocket.go:51-66 | the fields start as the initial state |
| WebSocket.WebSocket.SessionID | internal/app/connection/websocket/websocket.go:77-79 | the session identifier is twice as long as the session bytes, uses `0-9a-f` and decodes back to them |
| WebSocket.WebSocket.Write | internal/app/connection/websocket/websocket.go:141-154 | nil and nothing sent once closed; otherwise the message is sent and the socket's error is returned |
| WebSocket.WebSocket.Greet | internal/app/connection/websocket/websocket.go:81-89 | sends a Hello with the interval, the session identifier and the limit |
| WebSocket.WebSocket.SendHeartbeat | internal/app/connection/websocket/websocket.go:91-98 | increments the counter (modulo 2^64) before writing, and sends the new count |
| WebSocket.WebSocket.SendAck | internal/app/connection/websocket/websocket.go:100-107 | sends an Ack echoing the command's name and the data |
| WebSocket.WebSocket.SendError | internal/app/connection/websocket/websocket.go:177-191 | sends an Error with the text and the fields (empty when nil); returns nothing |
| WebSocket.WebSocket.Close | internal/app/connection/websocket/websocket.go:109-139 | nothing when already closed; otherwise EndOfStream, then the close frame, then cancelled and closed, whatever the writes return |
| WebSocket.NewWebSocket | internal/app/connection/websocket/websocket.go:39-71 | no connection when the session cannot be generated; otherwise a fresh connection in the initial state |
| Connect.ToLower | internal/app/connect.go:34 | lower-casing keeps the length and maps each character on its own |
| Connect.LowerEquals | internal/app/connect.go:34 | lower-casing and comparing with lower-case ASCII text is a letter-by-letter comparison in either case |
| Connect.WantsWebSocketIff | internal/app/connect.go:34 | the duplex path is taken exactly when `Upgrade` is `websocket` or `Connection` is `upgrade`, in any letter case |
| Connect.UpgradeHeaderExample | internal/app/connect.go:34 | `Upgrade: WebSocket` takes the duplex path |
| Connect.ConnectionHeaderExample | internal/app/connect.go:34 | `Connection: Upgrade` takes the duplex path |
| Connect.ConnectionListExample | internal/app/connect.go:34 | `Connection: keep-alive, Upgrade` takes the event-stream path: the comparison is exact |
| Connect.HandleV3 | internal/app/connect.go:21-59 | with V3 off: status 503, no body, no connection; otherwise a connection made uses the transport the headers choose |
| Connect.HandleV3Connects | internal/app/connect.go:21-71 | a connection is made and handed to tracking exactly when V3 is on and nothing failed on the chosen path |
| Connect.ConstructionFailure | internal/app/connect.go:36-56 | a construction failure makes the handler set status 400 with the error text as the body, on either transport |
| Connect.HandleV1 | internal/app/connect.go:77-94 | with V1 off: status 503 and no connection |
| Connect.SameTransportRule | internal/app/connect.go:34 | the v1 route chooses the transport by the same rule as V3 |
| Tracker.LiveIds | internal/app/connect.go:102-132 | the connections that are counted: ready and not yet closed |
| Tracker.LiveAdd | internal/app/connect.go:102-107 | a connection becoming ready adds exactly one to the live set |
| Tracker.LiveRemove | internal/app/connect.go:129-132 | a live connection closing removes exactly one from the live set |
| Tracker.Server.constructor | internal/app/connect.go:97-141 | the counter starts at 0 with nothing tracked |
| Tracker.Server.Track | internal/app/connect.go:98-102 | a nil connection is ignored; any other one waits for readiness; the counter does not move |
| Tracker.Server.Ready | internal/app/connect.go:102-127 | readiness raises the counter by exactly one and starts the watcher; after shutdown the watcher asks for a close with the restart code and grace 0 |
| Tracker.Server.Shutdown | internal/app/connect.go:120-123 | every waiting watcher asks its connection to close with the restart code and grace 0, and no other connection is asked; the counter does not move |
| Tracker.Server.ContextDone | internal/app/connect.go:124-125 | when the context finishes first, the watcher exits without asking for a close |
| Tracker.Server.Closed | internal/app/connect.go:129-132 | a close lowers the counter by exactly one and ends tracking |
| Tracker.TrackedLifetime | internal/app/connect.go:97-141 | one tracked connection: the counter is 1 while it is live and back to 0 after it closes; a shutdown in between closes exactly it with the restart code |
| PubSub.Subscribed | src/redis/redis_test.go:29 | subscribing adds the listener to its channel, changes no other channel, and creates no empty entry |
| PubSub.Unsubscribed | src/redis/redis_test.go:32-38 | cleanup removes the listener from its channel, deletes the channel once it is empty, and changes no other channel |
| PubSub.UnsubscribeUndoes | src/redis/redis_test.go:29-38 | cleanup undoes a subscription by a listener that was not registered there |
| PubSub.LastListenerLeavesNoKey | src/redis/redis_test.go:36-38 | when the last listener of the only channel leaves, the registry is empty |
| PubSub.Delivered | src/redis/redis_test.go:30-31 | every listener of the channel gets the payload appended, unchanged; no one else's inbox changes |
| PubSub.Registry.Subscribe | src/redis/redis_test.go:29 | registers the listener, keeping no empty entries |
| PubSub.Registry.Publish | src/redis/redis_test.go:30-31 | returns the bus's error; on success every listener of the channel is handed the payload |
| PubSub.Registry.Cancel | src/redis/redis_test.go:32-37 | cancellation runs the cleanup, keeping no empty entries |
| PubSub.PublishSubscribeRound | src/redis/redis_test.go:19-40 | `pog` published on `events:xd`, when the bus accepts the publish, reaches its one listener unchanged; after cancellation the channel has 0 listeners and the registry 0 channels |
| PubSub.ReferenceCounting | src/redis/redis_test.go:32-38 | of three listeners, two leave and the entry keeps one; when the last leaves, the entry goes |

## Left out

- Concurrency is not modelled: the write mutex, the registry mutex, goroutines and blocking channel receives. Operations run one at a time. Close is therefore idempotent only in sequential use.
- The wait in `Close` (a `select` on the context, the close channel and `time.After`) is not modelled. It is a no-op that cannot change the outcome.
- JSON encoding, `ToRaw`, and the websocket library's `WriteControl`, `FormatCloseMessage` and socket close are not modelled. Frames are abstract values.
- `GenerateSessionID` is random and not part of this model. The session bytes are an input to `NewWebSocket`, and `None` stands for its error.
- The events package (close-code and opcode names, payload structs) is not part of this model. Codes are records of a value and the name `String()` returns. The restart code is the tracker's constructor argument.
- `Handler.Subscribe` is not part of this model. Its `(err, ok)` answer is the `Acceptance` oracle.
- `EventMap`, `Cache`, `EventDigest`, the event-stream connection and the `Read` loops are not part of this model.
- The v1 handlers `ChannelEmotesWS`/`ChannelEmotesSSE` are not part of this model. Only v1's gate and transport choice are modelled.
- Metrics, logging, timing observations and router registration are not modelled.
- The Redis bus is not modelled. Publishing is local fan-out to the registered listeners, and the bus's error is an input flag.
- `Actor` always returns nil, and `SetWriter` on a duplex connection is a fatal log. Neither is modelled.
- The `ready` and `close` signals are never fired in the code shown. The tracker takes readiness and close as events, and nothing is claimed about them being signalled exactly once.
- The tracker calls `SendClose(CloseCodeRestart, 0)`, while the duplex connection's method is named `Close`. `v3.WebSocket` calls `NewWebSocket` with two arguments, but it is declared with three. Each file is modelled as written: the tracker records the close call it makes.
- When construction fails after the upgrade, the `connected` channel is never written, so that goroutine waits forever. The model records only that no connection is tracked.
- Tracker.Server: the counter is an unbounded integer. The `int32` wrap-around of `atomic.AddInt32` is not modelled, because it needs more than 2^31 live connections.
- Tracker.Server.Ready: when shutdown has fired and the context is also done, Go's `select` picks either case at random. The model always takes the shutdown case.
- Connect.LowerRune: `strings.ToLower` is modelled only as far as a comparison with lower-case ASCII text can observe. That is ASCII capitals, U+212A and U+0130. Other runes are kept as they are.
- Connect.ConstructionFailure: on the duplex path the 400 is set inside the upgrade callback, after the upgrader has taken over the connection. The model records the status the handler sets, not what the client receives, which depends on the upgrader.
- PubSub.PublishSubscribeRound: the nil error of the publish is the bus's answer, an input here (the round passes "accepted"); that the bus accepts is not proved.
- WebSocket.WebSocket.Write: a write the socket reports as failed still appears in `sent`. `sent` logs what was handed to the socket, not what arrived.
- QueryEscape.Unescape: it works on bytes. Multi-byte characters of a Go string are not distinguished from the bytes that encode them.
