# Room registry and message dispatcher of a real-time chat server

This Dafny project models the in-memory core of a room-based chat server
(kuslhhh/real-time-chat, TypeScript). It covers two parts:

- **`UserManager`** (`backend/src/UserManager.ts`) is the room registry. It maps each room
  id to an ordered list of `{name, id, ws}` member records and can add a
  member, remove every record with an id, look up the first record with an id,
  and broadcast one serialised message to the other open members of a room.
- **`messageHandler`** (`backend/src/index.ts`) is the dispatcher. It routes `JoinRoom`,
  `SendMessage` and `UpvoteMessage` to the registry and the chat store. On
  success it broadcasts an `AddChat` or `UpdateChat` message.

Modules, one per concern:

| file | module | contents |
|---|---|---|
| `wrappers.dfy` | `Wrappers` | `Option`, for the source's `T \| null` |
| `connection.dfy` | `Connection` | `Socket`, a class whose `readyState` is read live at broadcast time; `Delivery`, one `send` call |
| `messages.dfy` | `Messages` | the incoming and outgoing message types |
| `registry.dfy` | `Registry` | `User`, `Room`; the class `UserManager`; pure functions over the rooms map (`WithUserAdded`, `WithUserRemoved`, `FindUser`, `Recipients`) that specify its methods; the lemmas |
| `store.dfy` | `Store` | the chat store, reduced to the contract the dispatcher relies on |
| `server.dfy` | `Server` | `MessageHandler`, the lemmas about JoinRoom, and two end-to-end scenarios |

How the model represents things the source leaves implicit:

- The registry is a class with a field `rooms: map<string, Room>`. Each method
  reassigns that field, and its `ensures` equates the new map with a pure
  function of the old one. The lemmas are stated over those functions.
- `Broadcast` has no `modifies` clause, so it cannot change the registry. It
  returns the `send` calls it made, as (socket, frame) pairs in order.
- `JSON.stringify` is the parameter `stringify: Outgoing -> string`.
  `Broadcast` applies it once, and every delivery carries that one result.
- The chat store implementation is not part of this model. `Store.ChatStore`
  logs every call made to it. It answers each call with
  `answer(history, call)`, a function of the calls made so far and the
  current call, so any deterministic store fits this shape. The dispatcher's
  contract depends only on the shape of a reply: a chat with an `id` and an
  `upvotes` list, or null.
- The registry and the store are passed to `MessageHandler` as parameters. The
  source keeps them in module-level variables instead.

**The join arguments are swapped.** `index.ts:49` calls
`addUser(payload.name, payload.roomId, payload.userId, ws)`. The signature at
`UserManager.ts:21` is `addUser(name, userId, roomId, ws)`. The model makes the
call exactly as written:

- `MessageHandler`'s contract says the record registered on join has id
  `roomId` and is stored under the room key `userId`.
- `Server.LookupAfterJoinRoom` proves that a later `getUser(roomId, userId)`
  finds the sender only if `roomId == userId`, or if a matching record was
  already there.
- `Server.JoinThenSendIsDropped` plays out the usual session: two users join
  room "R1", then one of them sends "hi". The handler finds no sender, never
  calls the store and broadcasts nothing.
- `Server.SendAndUpvoteReachOthers` registers the same two users through
  `addUser`'s own parameter order instead. There, the message reaches only the
  other member, and the upvote that follows reaches only the author.

Where the written design and the code differ, the model follows the code:

- The design says a JoinRoom registers the supplied ids. The code swaps them, as
  described above.
- The design says a user id appears at most once per room. `addUser` never
  checks, so repeated joins add duplicate records.
- The design says `addChat` always succeeds. The handler still handles a null
  chat, and so does the model.
- The design counts upvotes as a set of voter ids. The handler reads
  `chat.upvotes.length`, so the model's `Chat` carries a list of upvotes.
- The design says a closed connection leads to a `leave`. The code's close
  handler only logs, so nothing in the model calls `RemoveUser`.

## Model

| member | source | states |
|---|---|---|
| `Registry.UserManager.constructor` | backend/src/UserManager.ts:17-19 | the registry starts with no rooms |
| `Registry.UserManager.AddUser` | backend/src/UserManager.ts:21-26 | the new rooms map is `WithUserAdded` of the old one |
| `Registry.WithUserAdded` | backend/src/UserManager.ts:21-26 | an absent room is created; exactly one record `{name, id: userId, ws}` is appended at the end of that room's list; the key set gains only `roomId`; every other room is unchanged |
| `Registry.AddUserDoesNotDeduplicate` | backend/src/UserManager.ts:25 | each add makes the room's list one longer and adds one record with `userId`, whatever records were already there |
| `Registry.AddUserTwiceKeepsBoth` | backend/src/UserManager.ts:21-26 | adding the same id twice leaves two more records with that id |
| `Registry.UserManager.RemoveUser` | backend/src/UserManager.ts:28-32 | the new rooms map is `WithUserRemoved` of the old one |
| `Registry.WithUserRemoved` | backend/src/UserManager.ts:28-32 | an unknown room: the map is unchanged and no room is created; otherwise only that room changes, to its list without `userId`; the key set never changes |
| `Registry.Without` | backend/src/UserManager.ts:31 | the filter keeps exactly the records whose id differs from `userId` and never grows the list |
| `Registry.WithoutConcat` | backend/src/UserManager.ts:31 | filtering a concatenation concatenates the filtered parts, so the surviving records keep their relative order |
| `Registry.WithoutAbsent` | backend/src/UserManager.ts:31 | a list with no record carrying the id is returned unchanged |
| `Registry.WithoutIdempotent` | backend/src/UserManager.ts:31 | filtering twice gives the same list as filtering once |
| `Registry.WithoutCount` | backend/src/UserManager.ts:31 | no record with the id survives; the list shrinks by exactly the number of records carrying it |
| `Registry.RemoveUserIdempotent` | backend/src/UserManager.ts:28-32 | a second removeUser with the same arguments changes nothing |
| `Registry.UserManager.GetUser` | backend/src/UserManager.ts:34-38 | returns `FindUser` of the current rooms |
| `Registry.IndexOfId` | backend/src/UserManager.ts:37 | the search stops at the first record with the id, or past the end when there is none |
| `Registry.FindUser` | backend/src/UserManager.ts:34-38 | null exactly when the room is absent or holds no record with `userId`; otherwise the first record in list order with that id |
| `Registry.FindAfterAdd` | backend/src/UserManager.ts:21-38 | after `addUser(n, u, r, ws)`, `getUser(r, u)` is non-null with id `u`: it is the earlier record if `u` was already in `r`, and the new record otherwise |
| `Registry.FindAfterAddElsewhere` | backend/src/UserManager.ts:21-38 | an add to another room leaves every lookup in this room unchanged |
| `Registry.FindAfterRemove` | backend/src/UserManager.ts:28-38 | after `removeUser(r, u)`, `getUser(r, u)` is null |
| `Registry.Recipients` | backend/src/UserManager.ts:48-49 | the recipients are exactly the members whose id is not the sender's and whose socket is open |
| `Registry.RecipientsConcat` | backend/src/UserManager.ts:48-52 | members are selected one at a time in list order, so recipients keep the room's order |
| `Registry.UserManager.Broadcast` | backend/src/UserManager.ts:40-53 | an absent room gets no send; otherwise one send per recipient, in list order, each carrying the single `stringify(message)`; the registry is not modified |
| `Registry.DeliverSendsToExactlyEligible` | backend/src/UserManager.ts:47-52 | every send carries the same frame; a member gets a send if and only if the member is not the sender and its socket is open |
| `Store.ChatStore.constructor` | backend/src/index.ts:15 | a new store has answered no calls |
| `Store.ChatStore.AddChat` | backend/src/index.ts:60-61 | logs the call with its arguments and returns the store's reply, a chat or null |
| `Store.ChatStore.Upvote` | backend/src/index.ts:85-86 | logs the call with its arguments and returns the store's reply, a chat with its upvotes or null |
| `Server.MessageHandler` | backend/src/index.ts:46-99 | JoinRoom calls addUser with (name, roomId, userId), so the record with id `roomId` is appended under key `userId`; it makes no store call and no broadcast. For SendMessage and UpvoteMessage: if `getUser(roomId, userId)` is null, nothing changes and nothing is broadcast; otherwise exactly one store call is made; a null chat means no broadcast; otherwise one broadcast goes to `roomId`, excluding `userId`. For SendMessage that broadcast is `AddChat{chatId: chat.id, roomId, message, name: user.name, upvotes: 0}`; for UpvoteMessage it is `UpdateChat{chatId: payload.chatId, roomId, upvotes: chat.upvotes.length}`. Only JoinRoom changes the registry; an unsupported tag changes nothing; there is at most one broadcast per message |
| `Server.LookupAfterJoinRoom` | backend/src/index.ts:49-54 | after a JoinRoom as written, `getUser(roomId, userId)` is non-null if and only if `roomId == userId` or a matching record was already there |
| `Server.LookupAfterFirstJoinRoom` | backend/src/index.ts:47-58 | on an empty registry, a JoinRoom followed by a lookup of the same user and room succeeds if and only if the two ids are equal |
| `Server.JoinThenSendIsDropped` | backend/src/index.ts:46-75 | two JoinRoom messages for room "R1" and then a SendMessage to "R1" produce no store call and no broadcast |
| `Server.SendAndUpvoteReachOthers` | backend/src/index.ts:52-98 | with both users registered under "R1", the sender's chat reaches only the other member as `AddChat` with 0 upvotes; the upvote then reaches only the author as `UpdateChat` with 1 upvote |

## Left out

- The HTTP server, its 404 responder and `listen` on port 8081 (`index.ts:17-25`) are I/O.
- The `WebSocketServer` wiring (`index.ts:27-44`) is transport code. This covers
  the connection, message and close events and the `try/catch` around
  `JSON.parse`. A parsed envelope with an unknown type tag is modelled as
  `Unsupported`, which the handler ignores.
- Payload fields missing from a parsed envelope are not modelled. `JSON.parse` is
  cast without validation, so the source would pass `undefined` along. In the
  model, every payload field is a string.
- The format `JSON.stringify` produces is not modelled. Serialisation is the abstract
  parameter `stringify`.
- The effect of `ws.send` on the network is not modelled. Only the
  (socket, frame) pair of each send is recorded.
- Changes to a socket's `readyState` are made by the transport. No operation
  in the model makes them, so a model socket keeps the state it was constructed with.
- `console.log` and `console.error` output, including the "Room not found" and
  "User not found in db" messages, are omitted.
- The `InMemoryStore` implementation and the `./messages/*` modules (tag
  strings, payload interfaces) are not part of this model. Only the store
  contract the dispatcher relies on is modelled.
- Concurrency is not modelled. Node's event loop runs one handler at a time.
- `room.users` is reassigned on a `Room` object that the map shares. The model
  writes a new `Room` value into the map instead. Nothing else holds a reference
  to a room, so the two agree.
- `upvotes.length` is a JavaScript number. The model uses `nat`.
