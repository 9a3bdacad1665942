# Room roster of the chat-app backend, in Dafny

The chat server keeps a single in-memory object, `usersInRooms`, that maps
each room name to the array of `{ id, name }` records of the connections in
that room. Three Socket.IO handlers use it:

- `joinRoom` creates the room's array when the lookup is falsy, pushes the
  joining connection and broadcasts the room's array.
- `chatMessage` relays a `newMessage` record to whatever room the client
  names and never reads the registry.
- `disconnect` walks the rooms with `for...in`, splices out the first entry
  for the socket id in the first room that has one, broadcasts that room's
  array and `break`s.

The project has five modules:

- `PropertyKeys` (`property_keys.dfy`): what a plain JavaScript object does
  with the strings used as its keys.
  - The twelve names every `{}` inherits from Object.prototype, which look
    up truthy without being arrays.
  - The order in which `for...in` visits own keys, following section
    10.1.11.1 of ECMA-262: array indices (section 6.1.7) first, in ascending
    numeric order, then every other key in creation order.
- `Roster` (`roster.dfy`): one room's array, with `findIndex`, `splice(i, 1)`
  and a count of the entries per socket id.
- `Presence` (`presence.dfy`): the registry as a value, a map from room name
  to roster plus the key creation order. It holds the `joinRoom` and
  `disconnect` handlers as functions and the lemmas about them.
- `Traces` (`traces.dfy`): sequences of events run one handler at a time, as
  the event loop runs them. It also holds concrete scenarios, written step by
  step: a first join, two joins into one room, a join into a second room, a
  leave, a stale entry left in a second room, and a room named like an array
  index.
- `Server` (`server.dfy`): class `RoomRegistry`, holding `usersInRooms` as
  mutable fields.
  - `Join` updates the fields in place.
  - `Disconnect` runs the `for...in` loop with its early exit
    (`RemoveFromFirstRoom`).
  - Each method is proved to produce exactly the registry and broadcast of
    the value-level handler, so the `Presence` and `Traces` lemmas hold of
    the object.
  - The object's invariant also says that no own key has the name of an
    Object.prototype property. So `Join` and `Dispatch` state outright that
    a join throws exactly when the room name is inherited.

A broadcast (`io.to(room).emit(...)`) is a returned value. It carries the
room and either the roster or the message record.

What the code does, stated as facts about it:

- The comments on the disconnect handler say it finds "which room the user
  was in" and "assume user is only in one room" (server.js:83, 91). Nothing
  enforces that. A join never removes the connection from a room it joined
  before, so a connection can be listed in two rooms
  (`Traces.JoinSecondRoom`). A disconnect then removes it from the first
  listing room only and leaves a stale entry in the other
  (`Traces.StaleEntryInSecondRoom`).
- A join appends unconditionally, even when the same socket id is already
  listed in the room (`Presence.JoinDoesNotDeduplicate`;
  `Traces.JoinSameRoom` with `b == a`).
- A disconnect removes only the first entry for the socket id, so a
  connection that joined the same room twice is still listed afterwards
  (`Traces.LeaveOnlyRoom` with `b == a`).
- A room named `constructor`, `toString`, `__proto__` or any other
  Object.prototype property makes `usersInRooms[roomName].push` throw a
  TypeError, whatever events came before
  (`Traces.InheritedRoomNameAlwaysThrows`).
- Rooms are visited in `for...in` order, not creation order. A room named
  like an array index (`"42"`) is visited before rooms created earlier
  (`Traces.ArrayIndexRoomVisitedFirst`).

## Model

| member | source | states |
|---|---|---|
| PropertyKeys.IsInherited | server.js:61 | the twelve names of Object.prototype properties; for such a name with no own key, `usersInRooms[roomName]` is truthy and not an array (a definition, used by `Presence.Join`'s contract) |
| PropertyKeys.InsertIndex | server.js:84 | inserting an array index into an ascending list of array indices gives an ascending list holding exactly one more copy of that key |
| PropertyKeys.SortIndices | server.js:84 | the array-index keys are put in ascending numeric order and none is lost or added (same multiset) |
| PropertyKeys.ForInOrder | server.js:84 | `for...in` visits every own key exactly once (its key list is a permutation of the creation order) |
| PropertyKeys.ForInOrderIndicesFirst | server.js:84 | no array index is visited after a key that is not one, and array indices are visited in ascending numeric order |
| PropertyKeys.ForInOrderKeepsNamedOrder | server.js:84 | keys that are not array indices are visited in creation order |
| PropertyKeys.ForInOrderOfNames | server.js:84 | when no key is an array index, the visit order is exactly the creation order |
| PropertyKeys.ForInOrderOfOne | server.js:84 | an object with one own key visits just that key |
| PropertyKeys.ForInOrderOfIndexThenName | server.js:84 | a key named like an array index is visited before a named key created before it |
| Roster.FindIndex | server.js:85 | `findIndex` gives -1 exactly when no entry has the id; otherwise the position of an entry with the id, with no earlier such entry |
| Roster.Splice | server.js:88 | `splice(i, 1)` shortens the list by one, keeps the entries before `i` and shifts the entries after `i` down by one |
| Roster.OccurrencesCountContains | server.js:85 | a list has a positive count of entries for an id exactly when `findIndex` can find one |
| Roster.OccurrencesPush | server.js:64 | `push` adds one entry for the pushed id and none for any other id |
| Roster.OccurrencesSplice | server.js:88 | `splice(i, 1)` removes one entry of the id at `i` and none of any other id |
| Roster.RemoveFirst | server.js:85-88 | the entry removed is the first one with the id; the others keep their relative order; exactly one entry for the id goes and none for any other id |
| Presence.RosterOf | server.js:61-64 | the room's own array, or the empty array a join assigns to a room never joined (a definition, used by `Presence.Join`'s contract) |
| Presence.Join | server.js:55-68 | throws exactly when the room is not an own key and its name is inherited from Object.prototype; otherwise the room's list becomes its old list (empty for a new room) followed by `{ id, name }`, other rooms are unchanged, a new room is appended to the creation order, and the broadcast is the room's new list |
| Presence.JoinPreservesValid | server.js:61-64 | a join keeps every own key created once and the creation order equal to the own keys |
| Presence.JoinDoesNotDeduplicate | server.js:64 | a join adds one more entry for the id even when it is already listed, and no room loses entries for the id |
| Presence.ForInVisitsOnlyRooms | server.js:84 | every key the loop visits is an own key of the registry |
| Presence.ForInVisitsEveryRoom | server.js:84 | every own key of the registry is visited by the loop |
| Presence.SpliceOut | server.js:88-90 | `splice(userIndex, 1)` on one room's array followed by the broadcast of that array (a definition; its effect is stated by `Presence.DisconnectRemovesFirstEntry`) |
| Presence.DisconnectFrom | server.js:84-92 | the `for...in` loop from its `k`-th key: keeps the creation order and every own key, and changes nothing when it broadcasts nothing; the rest of its behaviour is stated by `Presence.DisconnectFromShape` |
| Presence.DisconnectFromShape | server.js:84-93 | the loop from any position keeps the set of rooms and the creation order; it changes nothing and broadcasts nothing exactly when no room from there lists the id; otherwise it splices the first entry for the id out of a room that lists it and broadcasts that room's update |
| Presence.Disconnect | server.js:81-94 | the handler keeps the registry valid, keeps every room (even one left empty) and the creation order, changes nothing when it broadcasts nothing, and otherwise broadcasts a roster update for a room that listed the id |
| Presence.DisconnectKeepsShadowFree | server.js:84-92 | a disconnect creates no key, so no own key named like an Object.prototype property appears |
| Presence.DisconnectFromStopsAt | server.js:84-92 | the loop stops at the first position whose room lists the id and splices out the entry `findIndex` reports there |
| Presence.DisconnectAt | server.js:84-92 | when the `p`-th visited room is the first listing the id, the handler splices that room's first entry for the id and broadcasts its new list |
| Presence.DisconnectBroadcastsIffListed | server.js:84-93 | the handler broadcasts exactly when some room lists the socket id |
| Presence.DisconnectFromPicksFirst | server.js:84-91 | the room the loop broadcasts from a given position is the first from there that lists the id |
| Presence.DisconnectPicksFirstRoom | server.js:84-91 | the room broadcast is the first room in `for...in` order whose list holds the id; every room visited before it does not list the id |
| Presence.DisconnectRemovesFirstEntry | server.js:85-90 | in the room picked, the list loses exactly the first entry for the id (one shorter, the count of that id drops by one, other ids unchanged); the room stays; every other room is unchanged even if it lists the id; the broadcast carries the new list |
| Traces.Handle | server.js:55-94 | a handler that completes leaves a valid registry |
| Traces.Run | server.js:51-95 | handling events in order keeps the registry valid |
| Traces.ChatNeverChangesRegistry | server.js:71-78 | removing every chat event from a run leaves the same final registry, the same throw and the same roster broadcasts in the same order |
| Traces.DisconnectFromFirstVisited | server.js:84-91 | when the id heads the list of the first room visited, that entry goes and nothing else changes |
| Traces.JoinIntoEmpty | server.js:61-67 | the first join creates the room with the joiner as its only entry and broadcasts `[{ id, name }]` |
| Traces.JoinSameRoom | server.js:64-67 | a second join into a room goes after the first entry, even for the same connection and name |
| Traces.JoinSecondRoom | server.js:61-67 | a connection joining a second room stays listed in the first |
| Traces.LeaveOnlyRoom | server.js:84-90 | when the head of a two-entry list disconnects, the second entry moves up and is broadcast |
| Traces.StaleEntryInSecondRoom | server.js:84-91 | a connection listed in two named rooms is removed only from the one created first; the first room stays as an empty list |
| Traces.ArrayIndexRoomVisitedFirst | server.js:84-91 | a room named like an array index is visited, and left, before a room created earlier under another name |
| Traces.RunKeepsShadowFree | server.js:61-64 | no run makes `usersInRooms` own a key named like an Object.prototype property |
| Traces.InheritedRoomNameThrows | server.js:61-64 | joining a room named like an Object.prototype property throws, records nothing, emits nothing and ends the run |
| Traces.InheritedRoomNameAlwaysThrows | server.js:61-64 | after any run from the empty registry, a join under an inherited name throws |
| Server.RoomRegistry.constructor | server.js:48 | `usersInRooms` starts empty, with the object's invariant |
| Server.RoomRegistry.Join | server.js:55-68 | the in-place update keeps the registry valid; it throws exactly when the value-level join throws, which is exactly when the room name is inherited, and then changes nothing; otherwise the new fields and the broadcast are those of the value-level join |
| Server.RoomRegistry.ChatMessage | server.js:71-78 | builds the `newMessage` record from the client's room, message and user and the given timestamp, and changes nothing |
| Server.RoomRegistry.Disconnect | server.js:81-94 | the handler keeps the object's invariant and leaves the fields and broadcast of the value-level handler |
| Server.RoomRegistry.RemoveFromFirstRoom | server.js:84-92 | the `for...in` loop with `findIndex`, `splice` and `break` leaves exactly the fields and broadcast of the value-level handler |
| Server.RoomRegistry.Dispatch | server.js:55-94 | delivering one event to its handler keeps the object's invariant and agrees with one step of `Traces.Handle`; it throws exactly for a join under an inherited room name |

## Left out

- Socket.IO transport is not modelled: `socket.join` (server.js:57), actual delivery by `io.to(...).emit` (server.js:67, 73, 90) and connection setup. A broadcast is the returned room and payload.
- `new Date()` (server.js:76) reads the clock, so the timestamp is a parameter of `ChatMessage`.
- The `console.log` calls (server.js:52, 58, 82) are output only.
- The Express app, CORS, `dotenv`, the database connection `connectDB()` and `server.listen` (server.js:1-39, 103-107) are set-up outside the roster. `models/User.js`, `config/db.js` and `routes/userRoutes.js` are not part of this model.
- Malformed payloads are not modelled: a missing `data` or `user` (server.js:56, 58, 64, 72), or room names that are not strings. Every event carries its fields.
- The `user` object relayed by `chatMessage` is modelled by its `name` only.
- Handlers run one at a time, as on the event loop. Each is one atomic step.
- `Traces.Run` ends the run at the first handler that throws. What Node.js does after an exception escapes a listener is not modelled.
- The scenarios with several events are stated one handler step at a time, from the registry the previous step leaves, not as one call of `Traces.Run`.
- Strings are sequences of characters. UTF-16 code units are not distinguished from characters.
