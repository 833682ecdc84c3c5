# Vapor relay server, modelled in Dafny

Vapor is a room-based chat relay. Its server (`backend/index.js`) keeps one
registry, `allSockets`, a JavaScript `Map` from a WebSocket to the
`{room, username}` it joined with. Three handlers act on that registry, one per
connection event:

- `message` with type `join` stores (or overwrites) the socket's entry;
- `message` with type `chat` looks the sender up, builds one `newMessage`
  envelope and sends it to every registry entry, in the map's insertion
  order, whose room equals the sender's and whose socket is OPEN (the sender
  included);
- `close` deletes the socket's entry if it has one; `error` only logs.

Node runs each handler to completion, so each event is one atomic step.

The project has three modules:

- `Registry` (`registry.dfy`): the insertion-ordered `Map` as an association
  list with distinct keys (`Get`, `Set`, `Delete`, `Keys`) and what
  `Map.get`, `Map.set` and `Map.delete` promise.
- `Relay` (`relay.dfy`): inbound and outbound envelopes, and the broadcast
  specification `Fanout` / `ChatOutbox`. It also holds the class `Server`,
  whose field `allSockets` the handler methods `Join`, `Chat`, `OnMessage`,
  `Close`, `Error` and `Handle` update in place. `Chat` walks the registry
  in a loop, as the source's `for … of allSockets.entries()` does. It is
  proved to return exactly `ChatOutbox` of the registry.
- `Trace` (`trace.dfy`): runs of several events in a row, and properties
  that span events. One is that a socket that has closed hears nothing more.
  Another covers the two-member and peer-left scenarios.

A connection is an opaque identity `Socket(id)`. Its `readyState` at the
moment of a chat is an input: a function `Socket -> ReadyState`. The
envelope id (`nanoid()`) and timestamp (`new Date().toISOString()`) are
inputs too.

## Model

| member | source | states |
|---|---|---|
| Registry.Get | backend/index.js:28-32 | definition of `Map.get`; its own contract: a found info is stored beside the socket, and "not found" means no entry has that socket; see GetNoneIff, GetIn |
| Registry.Set | backend/index.js:19-22 | definition of `Map.set`; its own contract: the new pair is present and the registry grows by one exactly when the socket had no entry; see SetGet, SetKeys, SetInPlace, SetNoDupKeys |
| Registry.Delete | backend/index.js:58 | definition of `Map.delete`; its own contract: no pair is invented and the registry shrinks by one exactly when the socket had an entry; see DeleteAbsent, DeleteGet, DeleteInPlace, DeleteIdempotent |
| Registry.GetNoneIff | backend/index.js:28-29 | `get` finds no entry exactly when the socket is not a key of the registry |
| Registry.GetIn | backend/index.js:28-32 | with distinct keys, `get(s)` returns `info` exactly when the pair `(s, info)` is in the registry |
| Registry.SetGet | backend/index.js:19-22 | after `set(s, info)`, `s` maps to `info`, overwriting any earlier entry, and every other socket maps to what it did before |
| Registry.SetKeys | backend/index.js:19-22 | `set` keeps the key order: a present key keeps its position, an absent one is appended |
| Registry.SetInPlace | backend/index.js:19-22 | `set` on a present key replaces exactly that one entry at its index; on an absent key it appends `(s, info)` |
| Registry.SetNoDupKeys | backend/index.js:19-22 | `set` keeps every socket at most once in the registry |
| Registry.DeleteAbsent | backend/index.js:55-61 | `delete` of a socket with no entry leaves the registry identical |
| Registry.DeleteGetOther | backend/index.js:58 | `delete(s)` leaves every other socket's entry as it was |
| Registry.DeleteGet | backend/index.js:58 | with distinct keys, after `delete(s)` the socket has no entry and all others are unchanged |
| Registry.DeleteInPlace | backend/index.js:58 | `delete` of a present key removes exactly that one entry and keeps the rest in order |
| Registry.DeleteNoDupKeys | backend/index.js:58 | `delete` keeps every socket at most once in the registry |
| Registry.DeleteIdempotent | backend/index.js:54-62 | deleting the same socket twice is the same as deleting it once |
| Relay.Fanout | backend/index.js:46-50 | definition of the broadcast loop; its own contract: at most one send per registry entry, and only to OPEN sockets; see FanoutMember, FanoutEnvelope, FanoutDistinct |
| Relay.ChatOutbox | backend/index.js:27-51 | definition of what one chat sends; its own contract: at most one send per registry entry, and only to OPEN sockets; see ChatOutboxSpec |
| Relay.Step | backend/index.js:12-66 | definition of one event's effect; its own contract: a chat leaves the registry as it was, every other event sends nothing, and the registry grows by at most one entry; see StepKeepsNoDupKeys, Server.Handle |
| Relay.FanoutAppend | backend/index.js:46-50 | the broadcast over a registry split in two is the broadcast over the first part followed by the second (the loop's step) |
| Relay.FanoutEnvelope | backend/index.js:35-48 | every send of one broadcast carries the same envelope |
| Relay.FanoutMember | backend/index.js:45-50 | a socket receives a broadcast to `room` iff it has an entry in `room` and is OPEN, and what it receives is the broadcast envelope |
| Relay.FanoutRecipientsJoined | backend/index.js:46-47 | every recipient of a broadcast is a key of the registry |
| Relay.FanoutDistinct | backend/index.js:46-50 | with distinct keys, no socket is sent the same broadcast twice |
| Relay.RejoinSameRoomKeepsFanout | backend/index.js:19-47 | a re-join into the same room, under any name, leaves every broadcast, recipients and their order, unchanged |
| Relay.RejoinOtherRoomsUnaffected | backend/index.js:19-47 | a re-join leaves broadcasts to every room other than the old and the new one unchanged |
| Relay.ChatOutboxSpec | backend/index.js:27-51 | a chat from a socket without an entry sends nothing; otherwise it sends `newMessage{id, text, sender = recorded username, timestamp}` to exactly the OPEN sockets in the sender's room, sender included, each once |
| Relay.StepKeepsNoDupKeys | backend/index.js:12-66 | every event keeps the registry a map (distinct keys) |
| Relay.Server.constructor | backend/index.js:7 | the server starts with an empty registry |
| Relay.Server.Join | backend/index.js:16-24 | `join` upserts `{room: roomId, username: name}` in place; every other socket's entry and the key order are unchanged, a new socket goes last |
| Relay.Server.Chat | backend/index.js:27-51 | the loop over the registry returns exactly `ChatOutbox`: nothing for an unknown sender, else one identical envelope per OPEN entry of the sender's room, no duplicates; the registry is not modified |
| Relay.Server.OnMessage | backend/index.js:12-52 | `join` updates the registry and sends nothing; `chat` sends `ChatOutbox` and leaves the registry as it was; any other type changes nothing and sends nothing |
| Relay.Server.Close | backend/index.js:54-62 | `close` removes the socket's entry, leaves all others unchanged, and is a no-op for a socket without an entry |
| Relay.Server.Error | backend/index.js:64-66 | `error` leaves the registry unchanged |
| Relay.Server.Handle | backend/index.js:9-67 | dispatching an event to its handler yields exactly `Step` of the old registry |
| Trace.Run | backend/index.js:9-67 | definition of a sequence of handler runs, one event at a time; its own contract: the registry grows by at most one entry per event; see RunKeepsNoDupKeys, AbsentStaysSilent |
| Trace.RunKeepsNoDupKeys | backend/index.js:9-67 | any run of events keeps the registry a map |
| Trace.StepAbsentStaysSilent | backend/index.js:12-66 | one event other than its own join leaves a socket without an entry still without one, and sends it nothing |
| Trace.AbsentStaysSilent | backend/index.js:12-66 | a socket without an entry (never joined, or closed) receives nothing and stays absent for as long as it sends no join |
| Trace.ClosedStaysSilent | backend/index.js:54-62 | after a socket's `close` it is absent from the registry and receives no broadcast from later events that include no join from it |
| Trace.LateTeardownHarmless | backend/index.js:54-66 | a second `close`, or an `error` after `close`, changes neither the registry nor the sends |
| Trace.ScenarioSameRoom | backend/index.js:16-50 | Alice and Bob in "abc123", Carol in "xyz": Alice's "hello" goes to Alice then Bob with sender "Alice"; Bob's "hi Alice" then goes to Alice then Bob with sender "Bob"; Carol receives neither |
| Trace.ScenarioPeerLeft | backend/index.js:16-58 | Bob and Alice in "r1", Alice closes: Bob's chat is echoed to Bob alone |

## Left out

- WebSocket transport (`WebSocketServer` on port 8080, the `connection` event, `socket.send`): network I/O. A connection is an opaque `Socket(id)`, its `readyState` is an input, and a send is a `(Socket, Envelope)` pair in the returned outbox. Send failures are not modelled: a `send` on an OPEN socket is taken to be delivered.
- `JSON.parse` and `JSON.stringify`: an inbound message is the parsed `Inbound` (`Join`, `Chat` or `Other`). Malformed JSON, a missing `payload`, or missing `roomId`/`name`/`message` fields make the source throw or store `undefined`; they have no model. A JSON `null` message throws when its `type` is read. `Inbound`'s fields are strings: a number or object as `roomId`, `name` or `message` would reach the strict `===` room comparison and compare by type or by reference, and has no model. The client only ever sends strings.
- `nanoid()` and `new Date().toISOString()`: nondeterministic foreign calls, taken as the parameters `id` and `timestamp`. Nothing is claimed about the id's uniqueness or the timestamp's ordering.
- Console logging in every handler, and the startup message.
- Concurrency: Node runs each handler to completion, so each event is one atomic step (`Step`, `Handle`).
- The React client (`src/`): UI rendering, routing, local storage and input trimming.
- Accepting a connection does not register it: a socket first appears in the registry on its first `join` (backend/index.js:19), and the model has no separate "register unjoined" operation.
- A transport error does not clean up by itself: the `error` handler only logs (backend/index.js:64-66). In the model `Error` leaves the registry unchanged and only a `close` event removes an entry.
