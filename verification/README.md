# Chat room relay: a Dafny model

A small real-time chat room. A Socket.IO server keeps two things in memory:
- a registry of joined users, a JavaScript `Map` from socket id to `{ id, username }`;
- the message history, an array trimmed to its newest 100 entries.

The server reacts to three socket events. `join` registers the sender and sends it the history, then tells everyone. `message` is dropped unless the sender has joined; otherwise it is stored and broadcast. `disconnect` removes a joined sender and tells everyone. Two browser pages, app/page.tsx and app/chat-room.tsx, keep the messages and users they are sent, and they guard what they emit with trimming and connection checks.

The project models both sides as pure functions over immutable state:

| file | module | what it holds |
|---|---|---|
| chat_types.dfy | `ChatTypes` | users, messages and the five server-to-client events |
| js_string.dfy | `JsString` | `String.prototype.trim` over the ECMAScript white-space and line-terminator characters |
| registry.dfy | `Registry` | the `Map` as an insertion-ordered list with distinct ids: `get`, `set` (overwrites in place), `delete` (closes the gap) |
| history.dfy | `History` | the retention rule: `slice(-100)` after each push, or no trimming at all |
| server.dfy | `Server` | the three handlers, the dispatching `Step`, and `Run` over any sequence of arrivals |
| deployments.dfy | `Deployments` | the six server programs and the retention each one uses |
| client.dfy | `Client` | the pages' socket-event reducer, `joinChat`, `sendMessage`, `handleKeyPress`, and runs of page inputs |
| session.dfy | `Session` | what the server does with what a page emits, plus a four-step walk-through of a room |

Node runs each handler to completion before it takes the next event, so a handler is one atomic step. The step maps a state to a new state plus the list of events emitted. `socket.emit` becomes a `Unicast` to the sender and `io.emit` becomes a `Broadcast`.

The six server programs share the same three handlers:

| program | join | message | disconnect | retention |
|---|---|---|---|---|
| scripts/render-server.js | 67-87 | 90-114 | 117-130 | newest 100 |
| scripts/socket-server.js | 33-53 | 56-80 | 83-96 | newest 100 |
| app/api/socket/route.ts | 30-50 | 53-77 | 80-93 | newest 100 |
| scripts/production-server.js | 43-50 | 52-65 | 67-76 | newest 100 |
| app/api/socket/io.ts | 25-37 | 39-57 | 59-68 | newest 100 |
| app/api/socketio/route.ts | 25-31 | 33-46 | 48-54 | none |

The servers are permissive, and the model keeps them so:
- **Usernames.** No server validates the username. Only the pages trim it and refuse a blank one.
- **Second join.** A second `join` from the same socket is not rejected. It overwrites the entry where it stands and `userJoined` is broadcast again (`Session.RejoinOverwrites`).
- **Shared names.** Nothing makes usernames unique (`Session.SharedNamesAllowed`).
- **History cap.** app/api/socketio/route.ts never trims, so its history grows without bound (`Deployments.UncappedHistory`).
- **The `users` event.** app/page.tsx listens for it, but no server emits it.

Two details of the pages' closures matter:
- **Captured name.** The socket handlers read `username` from the render that registered them. app/chat-room.tsx registers them once, at mount, when the name field is still empty. So every `userJoined` for a real name adds a "joined the chat" notice, including the page's own (`Client.MountCaptureNeverSuppresses`). app/page.tsx registers them whenever `connectToServer` runs: at mount, and from the "Retry Connection" button (app/page.tsx:255-273). That button is only rendered while the page has not joined (app/page.tsx:203). So a re-capture happens only before joining, and it captures whatever is in the name field at that moment. The captured name is therefore a parameter of `Client.Receive`.
- **Automatic reconnection.** The Socket.IO client reconnects on its own (app/page.tsx:63-65). This does not re-run `connectToServer`, and app/page.tsx keeps `hasJoined` set. The server sees the reconnected socket under a new `socket.id` that has never sent `join`. It silently drops that socket's messages, because an unregistered sender is ignored.

## Model

| member | source | states |
|---|---|---|
| JsString.Trim | app/page.tsx:156-158 | `username.trim()` leaves a string with no white space at either end, and it is empty exactly when the input is all white space |
| JsString.TrimRemovesOnlyWhitespace | app/page.tsx:156-158 | the trimmed string is a contiguous piece of the input, and only white space lies on either side of it |
| JsString.TrimOfTrimmed | app/page.tsx:167 | a property of `String.prototype.trim` as called in `newMessage.trim()`: trimming a string with no white space at either end gives back the same string |
| JsString.TrimIdempotent | app/chat-room.tsx:124 | a property of `String.prototype.trim` as called in `username.trim()`: trimming twice is the same as trimming once |
| Registry.Get | scripts/render-server.js:91 | `users.get(id)` finds an entry exactly when one is stored under `id`; in a registry with distinct ids it is the entry at whatever position holds `id` |
| Registry.Set | scripts/render-server.js:75 | `users.set`: keys stay distinct and the key now finds the new record, while every other key finds what it found before; a present key's entry is replaced where it stands and every other position is unchanged, and an absent key is appended at the end |
| Registry.Delete | scripts/render-server.js:120 | `users.delete` never lengthens the registry |
| Registry.DeleteMembers | scripts/render-server.js:118-120 | after `delete(id)` the key is absent, exactly the entries with other ids remain, and keys stay distinct |
| Registry.DeleteLookups | scripts/socket-server.js:86 | after `delete(id)` every other key finds what it found before |
| Registry.DeleteClosesGap | scripts/production-server.js:70 | deleting a present key removes exactly its one entry; the entries before and after keep their order, so the size drops by one |
| Registry.DeleteAbsent | app/api/socket/io.ts:60-62 | deleting a key that is not present leaves the registry as it was |
| History.Retain | scripts/render-server.js:102-107 | push then `slice(-100)` keeps the longest suffix that fits the cap, in arrival order; its length is the old length or the cap, whichever is smaller. Without a cap everything is kept |
| History.RetainAppend | scripts/socket-server.js:68-73 | trimming after every push gives the same history as trimming once after all the pushes |
| Server.OnJoin | scripts/render-server.js:67-87 | `join` stores `{ id: socket.id, username }` with the name unchanged and leaves the history alone. A new socket is appended at the end of the registry, and a repeat join replaces its entry in place, leaving every other position as it was. The joiner gets the history first; then a `userJoined` broadcast carries the stored user and a snapshot that includes them. No chat message is broadcast |
| Server.OnMessage | scripts/render-server.js:90-114 | a `message` from an unregistered socket changes nothing and emits nothing. Otherwise it broadcasts one message carrying the registered name, the text verbatim and the socket id. The history becomes the retained old history followed by that same message, and the registry is unchanged |
| Server.AcceptedMessageIsNewest | scripts/production-server.js:52-65 | an accepted message is the newest history entry, and the history is the newest part of old history plus it. Its length grows by one until the cap, and grows by one for ever without a cap |
| Server.OnDisconnect | scripts/render-server.js:117-130 | `disconnect` of an unregistered socket changes nothing and emits nothing. Otherwise it removes exactly that socket's entry, closing the gap, and keeps the history. It then broadcasts `userLeft` with the leaver and the remaining users, which exclude the leaver |
| Server.Step | app/api/socket/route.ts:30-93 | every handler keeps the registry's keys distinct and the history within its cap |
| Server.StepHistory | app/api/socket/route.ts:65-70 | After any one event, the history equals the cap applied to the old history followed by the chat messages that event broadcast. |
| Server.Run | app/api/socket/io.ts:22-69 | over any sequence of events the registry's keys stay distinct and the history stays within its cap |
| Server.RunSnoc | app/api/socket/io.ts:22-69 | one more event after a run is one more handler step from where the run ended |
| Server.RunHistory | scripts/socket-server.js:56-80 | over any run, the history is the retained old history followed by every message broadcast during the run, in order |
| Server.HistoryIsNewestBroadcasts | scripts/render-server.js:102-110 | from a fresh server, the history is the newest messages ever broadcast, oldest first, and never longer than the cap; without a cap it is all of them |
| Server.JoinerReceivesNewestHistory | scripts/socket-server.js:41-50 | a joiner is sent exactly the newest broadcast messages so far. Then `userJoined` goes to everyone, with a snapshot that includes the joiner |
| Deployments.RetentionOf | app/api/socketio/route.ts:43 | only app/api/socketio/route.ts keeps every message; every other server program keeps the newest 100. Its partner lemmas are `Deployments.CappedHistory` and `Deployments.UncappedHistory` |
| Deployments.CappedHistory | scripts/production-server.js:62-63 | in the five trimming servers the history holds `min(100, n)` messages, where `n` is the number broadcast so far, and they are the newest of them |
| Deployments.UncappedHistory | app/api/socketio/route.ts:43 | app/api/socketio/route.ts evicts nothing: its history is every message ever broadcast, in order |
| Deployments.UncappedGrowsByOne | app/api/socketio/route.ts:33-46 | there, each accepted message lengthens the history by exactly one and keeps the earlier entries as they were |
| Client.Receive | app/page.tsx:99-140 | `messageHistory` replaces the list. `message` appends one entry and keeps the rest. `userJoined` replaces the users and adds a System notice only when the name differs from the captured one. `userLeft` replaces the users and always adds one notice. `users` replaces the users on app/page.tsx and is ignored on app/chat-room.tsx. The join flag, the fields and the connection are never touched |
| Client.JoinChat | app/page.tsx:155-162 | `join` is emitted exactly when the trimmed name is non-empty and the socket exists and is connected. It carries the trimmed name and sets the join flag; otherwise nothing changes |
| Client.SendMessage | app/page.tsx:164-171 | `message` is emitted exactly when the trimmed draft is non-empty, the page has joined and the socket exists and is connected. It carries the trimmed text and clears the draft; otherwise nothing changes |
| Client.KeyPress | app/page.tsx:173-181 | Enter sends once joined and joins before that; any other key does nothing |
| Client.Apply | app/page.tsx:68-92 | one page input: socket events and typing never emit, and only key presses and the two buttons can. A socket event touches only the message and user lists. Typing in a field (app/page.tsx:219, app/page.tsx:398) changes only that field, and a connect, disconnect, connect-error or reconnect handler changes only `isConnected`. Its partner lemma is `Client.ApplyStep` |
| Client.Drive | app/page.tsx:155-181 | a run of page inputs emits at most one event per input. Its partner lemmas are `Client.DriveProtocol`, `Client.DriveJoined` and `Client.DriveProper` |
| Client.ApplyStep | app/chat-room.tsx:122-146 | for any single input, the join flag is never cleared and is set only together with an emitted join. An unjoined page emits nothing but joins, and every emitted string is non-empty and trimmed |
| Client.DriveProtocol | app/page.tsx:155-171 | over any inputs from an unjoined page, the page ends up joined exactly when it emitted a join, and every emitted message is preceded by a join |
| Client.DriveJoined | app/chat-room.tsx:122-128 | a joined page stays joined whatever happens |
| Client.DriveProper | app/chat-room.tsx:122-136 | whatever the inputs, every string a page emits is non-empty and has no white space at either end |
| Client.HistoryThenMessages | app/chat-room.tsx:72-78 | a page that receives the history and then only `message` events shows the history followed by those messages, in order |
| Client.ReceiveAllAppends | app/chat-room.tsx:72-74 | a run of `message` events appends exactly those messages and leaves the users alone |
| Client.MountCaptureNeverSuppresses | app/chat-room.tsx:80-92 | with the empty name captured at mount, every `userJoined` for a non-empty name adds a "joined the chat" notice |
| Session.PageJoinRegistersTrimmedName | scripts/render-server.js:70-75 | a name emitted by a page is registered as sent, so it is never blank or padded, even though the server does not check |
| Session.WalkAliceJoins | scripts/render-server.js:75-84 | alice joins an empty room: she gets the empty history, and everyone learns she is the only user |
| Session.WalkAliceSaysHi | scripts/render-server.js:93-110 | alice's "hi" is stored and broadcast under her registered name and socket id |
| Session.WalkBobJoins | scripts/socket-server.js:41-50 | bob joins after that: he gets alice's message as history, and the snapshot lists alice then bob |
| Session.WalkAliceLeaves | scripts/socket-server.js:84-92 | alice disconnects: the `userLeft` broadcast names her and lists only bob, and the history is kept |
| Session.RejoinOverwrites | app/api/socket/route.ts:33-47 | a second `join` from the same socket overwrites the entry, leaves one entry with the new name, and is broadcast again |
| Session.SharedNamesAllowed | app/api/socket/io.ts:25-36 | two sockets can register the same name |

## Left out

- HTTP and process plumbing is not modelled, because it is I/O and process lifecycle. This covers the Express and HTTP setup, CORS and port settings, `listen`, signal handlers, the heartbeat interval and the health endpoints.
- Socket.IO delivery is not modelled: an emit is an entry in the step's output list. The lazy creation of `io` inside the Next.js routes is framework glue.
- Concurrency is not modelled, because each handler runs to completion before the next event is taken.
- Message ids, notice ids and timestamps are inputs of the model. Their generation from `Date.now()`, `Math.random()` and `new Date()` is not modelled, and ids are not unique in the source, so no uniqueness is proved. The pages' `new Date(message.timestamp)` is the identity on the model's instants.
- Console logging is not modelled.
- Scrolling, focus and `formatTime` are not modelled, because they only change what is displayed, not the page state.
- Client.Apply: accepts every input on either screen, so the model allows more input sequences than the pages do. Each page shows the name field and Join button only while `!hasJoined`, and the message field and Send button only after joining (app/page.tsx:203, app/chat-room.tsx:155). The model ignores this split. It also ignores the `disabled` attributes (app/page.tsx:225, app/page.tsx:400, app/page.tsx:403) and the `maxLength={20}` cap on the name field (app/page.tsx:221). Every proved property holds over this larger set of inputs, and so also over the inputs the pages allow.
- Socket creation is not modelled. This covers `connectToServer` (app/page.tsx:48-143) and `initializeSocket` (app/chat-room.tsx:47-113). No input sets `hasSocket`: a run starts from whatever state it is given, usually one where the socket already exists.
- Connection status beyond `isConnected` is not modelled: `isConnecting`, `connectionError` and the reconnection options. The `connect`, `disconnect`, `connect_error` and `reconnect` handlers only flip `isConnected`, which is the `Connection` input.
- Closing the old socket when the page reconnects is not modelled.
- Untyped payloads are not modelled. The server handlers accept any payload: a missing, numeric or object `username` or `text` would be stored and broadcast as it is. The model's `Join` and `Send` carry strings only.
- JavaScript strings are sequences of UTF-16 code units, and the model's strings are sequences of Unicode scalar values, so lone surrogates cannot be represented. On well-formed strings, `trim` and `!==` behave the same in both.
- app/chat-demo.tsx is not part of this model: it is a timer-driven random simulation.
- app/debug-connection.tsx is not part of this model: it runs network diagnostics.
- scripts/install-deps.js is not part of this model: it runs shell commands.
- History.Retain: caps other than a positive one are not modelled. JavaScript's `slice(-0)` would keep everything, and the servers only use 100.
- Registry.Delete: its own contract states only the length bound. What remains after a delete is stated by Registry.DeleteMembers, Registry.DeleteLookups and Registry.DeleteClosesGap.
