# Chat relay: room registry and per-connection protocol

This project models the core of a WebSocket chat relay written for Node.js (`server.js`).
Clients create short-lived rooms identified by a code, join them by code, and exchange
messages that the server fans out to the room's members.

The model covers three pieces of state:

- the process-wide `rooms` map, from room code to the set of connections in that room;
- the two variables each connection's handlers close over, `currentRoom` and `username`;
- the frames the handlers send.

It covers the three operations that act on that state:

- the `message` handler, which dispatches on the frame's `type` to `create-room`, `join-room`
  or `message`, and turns every thrown error into an `error` frame;
- the `close` handler;
- `broadcastToRoom`.

Node runs each handler to completion on one thread, so each handler is one atomic step.

The model has four modules:

- `Frames` (frames.dfy) holds the wire vocabulary. Inbound frames are records whose fields
  are optional strings, as JSON.parse leaves them. Outbound frames are a datatype. The file
  also defines JavaScript truthiness of a field (absent, null and `""` are falsy) and
  `toUpperCase` on room codes, restricted to ASCII.
- `RoomRegistry` (registry.dfy) holds the registry. A JavaScript `Set` keeps insertion order
  and `forEach` visits members in that order, so a room's members are a sequence without
  duplicates. `Add` and `Remove` model `Set.add` and `Set.delete`. `Fanout` and `Broadcast`
  specify `broadcastToRoom`.
- `Protocol` (protocol.dfy) gives the two handlers as pure functions, `HandleMessage` and
  `HandleClose`. Each returns the new registry, the new session and the frames sent, in
  order. The lemmas there state what each handler promises. A trace-level model (`World`,
  `Step`, `Run`) interleaves any number of connections.
- `Server` (server.dfy) holds the imperative form. Class `Relay` owns the `rooms` map, and
  class `Connection` owns one connection's `currentRoom` and `username`. Their methods update
  these fields in place, and each is proved equal to the corresponding `Protocol` function.
  `Relay.BroadcastToRoom` is the `forEach` loop, proved against `Fanout`.

Several inputs are parameters, because the code gets them from I/O or foreign calls:

- the room code that `generateRoomCode` would return (`newCode`);
- the timestamp that `new Date().toISOString()` would return;
- the set of connections whose `readyState` is `OPEN`;
- the result of `JSON.parse`.

Connections are natural numbers. They stand in for the WebSocket objects the code compares
by identity.

Three behaviours of the code look unintended. The model follows the code as written, and
a lemma states each one:

- A chat message is broadcast with no excluded connection, so the sender gets its own
  message back (`MessageEchoesToSender`).
- `create-room` stores the new room without checking whether the code is taken, so it
  replaces an existing room's members (`CreateRoomOverwritesExistingRoom`).
- `create-room` and `join-room` never take the connection out of the room it was in
  before. The connection stays a member there, and its close handler only leaves the latest
  room (`JoinRoomKeepsEarlierMembership`).

The truthiness checks are modelled exactly. One consequence: if the generated code were the
empty string, the creator could neither send messages nor be removed from the room when it
closes.

## Model

| member | source | states |
|---|---|---|
| `Frames.Upper` | server.js:85 | Upper-casing keeps the length of the code |
| `Frames.UpperAt` | server.js:85 | Each character of the upper-cased code is the original character upper-cased (ASCII letters only) |
| `Frames.UpperHasNoLowercase` | server.js:34 | An upper-cased code contains no lower-case ASCII letter |
| `Frames.UpperIdempotent` | server.js:34 | Upper-casing a code the generator already upper-cased changes nothing |
| `Frames.CaseInsensitiveCodes` | server.js:85 | Two codes name the same room exactly when they differ only in ASCII letter case (both directions) |
| `RoomRegistry.Add` | server.js:91 | Adding a connection to a room gives the old members plus it. The room is unchanged if it was already a member, and otherwise the connection is appended at the end. A room stays duplicate-free |
| `RoomRegistry.Remove` | server.js:127 | Deleting a connection from a room leaves exactly the other members, with no duplicates introduced. The room is unchanged if it was not a member |
| `RoomRegistry.RemoveKeepsMemberOrder` | server.js:127 | Deleting a connection keeps the remaining members in their insertion order: any two of them occur in that order in the room before |
| `RoomRegistry.FanoutKeepsMemberOrder` | server.js:40-44 | The forEach sends in insertion order: of any two sends, the earlier one goes to the member that occurs earlier in the room |
| `RoomRegistry.Fanout` | server.js:40-44 | The forEach sends only the given frame, and only to members that are not excluded and are open. Every such member is reached, and each is reached once when the room has no duplicates |
| `RoomRegistry.BroadcastReachesExactly` | server.js:37-46 | A broadcast reaches a connection if and only if the room exists, the connection is a member, it is not the excluded one, and it is open. All sends carry the same frame and go to distinct connections. An absent room reaches nobody |
| `RoomRegistry.MemberSetSize` | server.js:30 | A duplicate-free room has as many members as entries |
| `RoomRegistry.ReceiverSetSnoc` | server.js:40-44 | A member appended to a room is added to the receivers exactly when it is not excluded and is open |
| `RoomRegistry.FanoutSize` | server.js:40-44 | A broadcast makes exactly as many sends as there are receiving connections |
| `RoomRegistry.FanoutExcludingSender` | server.js:37-46 | In a room of N members with the sender excluded, N - 1 - d members are sent the frame, where d is the number of other members whose transport is not open |
| `Protocol.UntypedOrUnknownFrameRejected` | server.js:64-118 | A frame with no type, an empty type, or an unrecognised type gets exactly one error frame, whose message text is "Invalid message format" or "Unknown message type" respectively. The registry and the session are unchanged |
| `Protocol.MalformedFrameRejected` | server.js:60-118 | Data that JSON.parse rejects, or whose `type` cannot be read, gets exactly one error frame to the sender whose message text is the exception's own message. The registry and the session are unchanged |
| `Protocol.ErrorReplyLeavesStateUnchanged` | server.js:114-118 | For any frame, if an error frame is sent then it is the only frame sent, it goes to the sender, and the registry and the session are unchanged |
| `Protocol.NoErrorWhenAccepted` | server.js:59-121 | Every outcome of the message handler is either the catch block's rejection (one error frame to the sender, with no change to the registry or the session) or a set of sends that contains no error frame |
| `Protocol.CreateRoomEffect` | server.js:69-79 | `create-room` without a username is rejected with "Username required" and no change. With one, the code maps to a room whose only member is the sender, replacing any existing entry. Other rooms are untouched, the session takes that room and name, and the sender gets `room-created` with the code |
| `Protocol.CreateRoomOverwritesExistingRoom` | server.js:73 | Creating a room under a code already in use drops that room's other members |
| `Protocol.JoinRoomRejected` | server.js:82-88 | `join-room` with no username, no code, or a code whose upper-case form names no room is rejected with "Username and room code required" or "Invalid room code" respectively. The registry and the session are unchanged |
| `Protocol.JoinRoomEffect` | server.js:85-92 | A successful `join-room` leaves the room's members as before plus the sender, and the room is unchanged if the sender was already a member. It adds or removes no room, changes no other room, sets the session to the upper-cased code and the new name, and first replies `room-joined` |
| `Protocol.JoinRoomNotifiesOthers` | server.js:93-96 | After `room-joined`, `user-joined` with the new name goes to exactly the open members other than the sender, once each |
| `Protocol.JoinRoomKeepsEarlierMembership` | server.js:89-91 | Joining a room does not remove the connection from a room it was already in, and the session no longer records that room |
| `Protocol.MessageEffect` | server.js:99-108 | `message` without a text or without a current room is rejected with "Invalid message" and no change. Otherwise the registry and the session are unchanged, and the chat frame (text, the session's name, timestamp) goes to exactly the open members of the current room, once each, with no exclusion |
| `Protocol.MessageEchoesToSender` | server.js:103-108 | The sender of an accepted message receives it back when it is an open member of its room |
| `Protocol.ChatNamesSender` | server.js:106 | In a session that satisfies the session invariant, every chat frame sent carries a non-empty sender name |
| `Protocol.CloseEffect` | server.js:124-137 | Close, when the current room exists, removes the connection from that room. The room is deleted if and only if the connection was its only member. Otherwise `user-left` with the name goes to exactly the remaining open members, once each. With no current room, or with the room gone, nothing changes and nothing is sent. No other room changes |
| `Protocol.CloseTwiceSameRegistry` | server.js:124-137 | Running the close handler a second time leaves the registry as the first run left it |
| `Protocol.LastLeaverMakesRoomUnjoinable` | server.js:128-129 | Once the sole member of a room has closed, joining with that code in any case is rejected with "Invalid room code" |
| `Protocol.CreatedRoomJoinableInAnyCase` | server.js:69-97 | A room created under a generated code can be joined at once by another connection typing the code in any letter case. Both are then members, creator first, and the joiner is told `room-joined` |
| `Protocol.AliceCreatesBobJoins` | server.js:69-97 | Example: alice creates X7K2QA and is told the code. bob joins with "x7k2qa", is told he joined, and alice is told bob arrived |
| `Protocol.AliceChatsThenBothLeave` | server.js:99-137 | Example: alice's "hi" reaches both members, alice included. bob's close tells alice he left. alice's close removes the room |
| `Protocol.HandleMessageKeepsInvariants` | server.js:59-121 | The message handler keeps every room non-empty and duplicate-free, and keeps a session in a room named |
| `Protocol.HandleCloseKeepsRoomsValid` | server.js:124-137 | The close handler keeps every room non-empty and duplicate-free: a room that empties is deleted |
| `Protocol.ServerStartsValid` | server.js:30 | The empty registry with no sessions satisfies the invariants |
| `Protocol.RunKeepsWorldValid` | server.js:49-137 | Starting from a valid state, any interleaving of frames and closes over any connections leaves no empty or duplicated room and no unnamed session in a room |
| `Server.Relay.constructor` | server.js:30 | The registry starts empty and valid |
| `Server.Relay.BroadcastToRoom` | server.js:37-46 | The forEach loop returns exactly the sends `Broadcast` specifies (see `BroadcastReachesExactly`). It changes nothing |
| `Server.Connection.constructor` | server.js:49-52 | A new connection has no current room and no name |
| `Server.Connection.OnMessage` | server.js:59-121 | The in-place handler leaves `rooms`, `currentRoom`, `username` and the sends exactly as `HandleMessage` specifies, and preserves the registry and session invariants |
| `Server.Connection.OnClose` | server.js:124-137 | The in-place close handler leaves `rooms` and the sends exactly as `HandleClose` specifies, and preserves the registry invariant |
| `Server.Connection.OnError` | server.js:140-143 | The error handler has the effect of the close handler |

## Left out

- The Express application, helmet, the rate limiter, the static and catch-all routes, the HTTP error middleware, `server.listen` and the SIGTERM/SIGINT handlers (server.js:11-26, 162-195). These are HTTP and process plumbing over libraries that are not part of this model.
- The server-close cleanup (server.js:156-160). It closes every client, and each close runs the close handler, which `Disconnect` events in `Run` already cover.
- `generateRoomCode` (server.js:33-35) is built on floating-point `Math.random()` and base-36 formatting, and can yield codes shorter than six characters. Its result is the `newCode` parameter.
- `JSON.parse`, `JSON.stringify`, `uuidv4`, `new Date().toISOString()` and `console.error` are foreign calls. Frames are already parsed or not yet serialised, and the timestamp is an opaque string. An exception from parsing, or from reading `type` on a null result, is `Malformed` and carries the exception's message.
- Fields of non-string type (a numeric `username`, say) are not modelled. Every field is an optional string.
- `Frames.Upper`: only ASCII letters are upper-cased. Full Unicode case mapping, including mappings that change the length, is not modelled.
- The heartbeat interval and the pong handler (server.js:55-56, 147-153) are driven by a timer and the transport. As written, the interval reads `ws.isAlive` while the pong handler only sets a closure-local `isAlive`, so the first tick terminates every client. Termination then runs the close handler, which is modelled.
- Replies sent directly to the sender (`room-created`, `room-joined`, `error`) are modelled as always sent. `ws.send` on a closing socket and send failures are not modelled.
- `Server.Connection.OnError`: the `error` handler's `ws.close()` is modelled as running the close handler at once. The asynchronous closing handshake in between is not modelled.
- Connection identity is a number supplied by the caller. That each live connection has a distinct number is assumed, not modelled.
