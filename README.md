# Chess backend: room registry and turn clock

This project models the two in-memory services of a two-player chess server.

- **`RoomService`** is the room registry and matchmaking. It is a JavaScript `Map` from room id to room, where a room is an id plus its players in seat order. Its operations are:
  - create a one-player room;
  - upsert a room;
  - join a room by id, which can fail in three ways: the room does not exist, is empty, or is full;
  - join a random room, which can fail with "no room available";
  - drop a player from a room;
  - delete a room;
  - the queries that list and search the registry.
- **`TimerService`** is the turn clock. For each room it keeps a clock per player, holding the start time, the last-move time, the turn duration in milliseconds and the side (`'w'`/`'b'`). Its operations are:
  - start both clocks of a room;
  - report both players' remaining whole seconds;
  - reset one player's last-move time when the turn changes;
  - return the table;
  - clear a room.

Layout:

- `game.dfy` (module `Game`) holds the `Player` and `Room` records and `Option` for JavaScript's `undefined`.
- `ordered_map.dfy` (module `JsMap`) holds `OMap`, a JavaScript `Map` keyed by strings. It is a map plus the order in which keys were first inserted:
  - `set` of an existing key keeps its position;
  - `delete` removes the key from the order.

  Iteration order matters here: both `joinRandomRoom` and `getRoomByPlayerId` answer depending on it.
- `room_service.dfy` (module `Rooms`) holds the registry.
  - The read-only queries are functions of the registry value.
  - Each state-changing operation is a method of the class `RoomService`. Its `ensures` gives the new registry as a function of the old one (`JoinOutcome`, `AfterJoin`, `AfterJoinRandom`, `AfterRemovePlayer`, `OMap.Set`, `OMap.Delete`).
  - Each method also states that it preserves two predicates:
    - `AtMostTwo`: no stored room holds more than two players;
    - `Keyed`: every room carries the id it is stored under.
  - `SetRoom` preserves them only when the room it is given keeps them, because the source does not check.
  - Rejections are the datatype `JoinError`. `Message` gives the exact text the source sends to the callback.
- `timer_service.dfy` (module `Timers`) holds the clocks.
  - `GetTimeRemaining` is a pure function of the table and the time `now`.
  - `StartTimers`, `SwitchTurn` and `ClearTimers` are methods of the class `TimerService`, specified by the functions `Started` and `Switched` and by map removal.

The clock is the integer parameter `now` (milliseconds). Each operation reads the time once. The random room id comes from the caller as `freshId`, which must not already be in the registry. The joining player is a `Player` parameter, and the answer the source hands to its callback is the returned `JoinResult`.

Where a reader might expect otherwise, the model follows the code:

- The turn duration is stored per player clock. There is no room-level duration, and no operation sets one.
- `joinRandomRoom` joins the **last** one-player room in insertion order, because its scan overwrites its pick at every match. It joins that room through the room's own `roomId` field, not through the key it is stored under. Under `Keyed` the two are the same (`JoinRandomJoinsLast`).
- `switchTurn` on a room that has clocks but none for the given player is not a silent no-op. The code reads a field of `undefined` and throws. The model makes the player's clock a precondition of `SwitchTurn` and `Switched`.
- A room holds no creation time, and there is no call that returns one room's timers.

## Model

| member | source | states |
|---|---|---|
| `JsMap.Empty` | src/service/room-service.ts:7-9 | the new registry is valid, has no keys, and every lookup misses |
| `JsMap.OMap.Get` | src/service/room-service.ts:25-27 | `getRoom` finds a room exactly when the id is a key, and then returns the stored room |
| `JsMap.OMap.Set` | src/service/room-service.ts:30 | upsert: afterwards the key maps to the new value and every other key is unchanged; an existing key keeps its position and a new key goes last |
| `JsMap.OMap.Delete` | src/service/room-service.ts:121 | afterwards the key is absent, every other key is unchanged, and the remaining keys keep their order |
| `JsMap.OMap.Values` | src/service/room-service.ts:124-126 | `getRooms` lists one room per key, in insertion order |
| `JsMap.RemoveKey` | src/service/room-service.ts:121 | the key order `delete` leaves: exactly the other keys survive, and never more keys than before |
| `JsMap.RemoveKeyAppend` | src/service/room-service.ts:121 | removing a key distributes over concatenation, so the surviving keys keep their relative order |
| `JsMap.DeleteIdempotent` | src/service/room-service.ts:120-122 | deleting a room twice leaves the same registry as deleting it once |
| `JsMap.SetExistingKeepsOrder` | src/service/room-service.ts:29-31 | re-setting an existing id keeps the iteration order and every other room's position |
| `Rooms.HasPlayer` | src/service/room-service.ts:130 | a room holds a player with the id exactly when filtering that id out would change its players |
| `Rooms.Message` | src/service/room-service.ts:42-101 | each rejection sends a non-empty message; the four texts are the literals "room does not exist!", "room is empty", "room is full" and "No room available to join" |
| `Rooms.MessagesDistinct` | src/service/room-service.ts:42-101 | different rejections send different messages |
| `Rooms.OpenRooms` | src/service/room-service.ts:115-117 | the filter keeps exactly the rooms with fewer than two players |
| `Rooms.GetAvailableRooms` | src/service/room-service.ts:114-118 | every listed room has fewer than two players and is stored; every stored room with fewer than two players is listed |
| `Rooms.LastSingle` | src/service/room-service.ts:89-93 | the scan finds nothing exactly when no room has one player; otherwise it picks a one-player room with no one-player room after it |
| `Rooms.FirstWithPlayer` | src/service/room-service.ts:129-131 | `find` returns nothing exactly when no room holds the player; otherwise it returns the first room that does |
| `Rooms.GetRoomByPlayerId` | src/service/room-service.ts:128-132 | no result exactly when no stored room holds the player; otherwise the first room in insertion order that holds the player |
| `Rooms.WithoutPlayer` | src/service/room-service.ts:110 | keeps exactly the players whose id differs from the given one |
| `Rooms.JoinOutcome` | src/service/room-service.ts:42-79 | each rejection holds exactly in its case: "room does not exist!" when the id is absent, "room is empty" at 0 players, "room is full" at 2 or more; success exactly at 1 player, with the same room id and the players extended by the joiner, so the room has 2 players and the occupant stays first |
| `Rooms.AfterJoin` | src/service/room-service.ts:76 | a rejected join leaves the registry unchanged; a successful join stores the updated room under the joined id, touches no other id and keeps the key order |
| `Rooms.RandomTarget` | src/service/room-service.ts:86-95 | there is no target exactly when no stored room has exactly one player, even if empty rooms exist; a target has one player |
| `Rooms.JoinRandomOutcome` | src/service/room-service.ts:86-104 | "No room available to join" exactly when no stored room has exactly one player |
| `Rooms.AfterJoinRandom` | src/service/room-service.ts:103-104 | a rejected random join leaves the registry unchanged |
| `Rooms.AfterRemovePlayer` | src/service/room-service.ts:107-112 | an absent room means no change; otherwise only that room changes, losing exactly the players with that id, and the key order is kept |
| `Rooms.RoomService.constructor` | src/service/room-service.ts:6-9 | the registry starts empty |
| `Rooms.RoomService.CreateRoom` | src/service/room-service.ts:11-23 | returns the fresh id, stores a room with that id and exactly the creator under it, appends the id to the order, leaves every other room unchanged, and preserves `AtMostTwo` and `Keyed` |
| `Rooms.RoomService.SetRoom` | src/service/room-service.ts:29-31 | afterwards the id maps to exactly the given room and no other id changes; the invariants survive only for a room that keeps them |
| `Rooms.RoomService.JoinRoom` | src/service/room-service.ts:33-80 | returns `JoinOutcome` and leaves `AfterJoin`, so rejections change nothing; preserves `AtMostTwo` and `Keyed` |
| `Rooms.RoomService.JoinRandomRoom` | src/service/room-service.ts:82-105 | the scan loop keeps the last one-player room seen; returns `JoinRandomOutcome` and leaves `AfterJoinRandom`; preserves `AtMostTwo` and `Keyed` |
| `Rooms.RoomService.RemovePlayerFromRoom` | src/service/room-service.ts:107-112 | leaves `AfterRemovePlayer`, a no-op for an absent room; preserves `AtMostTwo` and `Keyed` |
| `Rooms.RoomService.RemoveRoom` | src/service/room-service.ts:120-122 | afterwards `getRoom` finds nothing under the id, other rooms are unchanged, and the invariants are preserved |
| `Rooms.LastSingleOfOpen` | src/service/room-service.ts:86-93 | scanning only the available rooms picks the same room as scanning all rooms |
| `Rooms.JoinRandomJoinsLast` | src/service/room-service.ts:86-104 | when one-player rooms exist in a keyed registry, the random join picks the last one in insertion order, succeeds, and matches `joinRoom` on that id in both outcome and new registry |
| `Rooms.OpenRoomsAppend` | src/service/room-service.ts:114-118 | the availability filter distributes over concatenation, so available rooms are listed in insertion order |
| `Rooms.WithoutPlayerAppend` | src/service/room-service.ts:110 | the filter distributes over concatenation, so the remaining players keep their order |
| `Rooms.WithoutAbsentPlayer` | src/service/room-service.ts:110 | removing an id that no player has leaves the player list unchanged |
| `Rooms.CreateThenJoin` | src/service/room-service.ts:64-79 | joining a just-created room succeeds with players creator then joiner |
| `Rooms.JoinTwiceIsFull` | src/service/room-service.ts:50-54 | after a successful join, a second join of the same room is refused as full |
| `Timers.MillisLeft` | src/service/timer-service.ts:62-71 | the player to move has the duration less the time since their last move; the other player has the full duration |
| `Timers.WholeSeconds` | src/service/timer-service.ts:75-80 | the result is never negative; it is 0 exactly below one second, and otherwise the floor of the milliseconds divided by 1000 |
| `Timers.GetTimeRemaining` | src/service/timer-service.ts:49-81 | both values are at least 0; the answer is (0, 0) when the room or either player has no clock; otherwise each player's whole seconds left |
| `Timers.Started` | src/service/timer-service.ts:19-47 | an empty room id changes nothing; otherwise the room holds clocks for exactly the two ids, with start = last move = now, the given duration and each player's own side (a repeated id keeps the second player's values); other rooms are unchanged |
| `Timers.Switched` | src/service/timer-service.ts:82-88 | a room without clocks is unchanged; otherwise only that player's last-move time becomes now, and all other fields, players and rooms are unchanged |
| `Timers.TimerService.constructor` | src/service/timer-service.ts:15-17 | the table starts empty |
| `Timers.TimerService.StartTimers` | src/service/timer-service.ts:19-47 | the table afterwards is `Started` of the old table |
| `Timers.TimerService.SwitchTurn` | src/service/timer-service.ts:82-88 | requires the player's clock when the room has clocks; the table afterwards is `Switched` of the old table |
| `Timers.TimerService.GetAllTimers` | src/service/timer-service.ts:89-91 | returns the whole table and changes nothing |
| `Timers.TimerService.ClearTimers` | src/service/timer-service.ts:93-95 | removes only that room's clocks; an absent room means no change |
| `Timers.WholeSecondsMonotonic` | src/service/timer-service.ts:75-80 | fewer milliseconds never give more seconds |
| `Timers.SecondsNeverIncrease` | src/service/timer-service.ts:62-80 | as `now` grows, a player's seconds left never increase |
| `Timers.WaitingPlayerFrozen` | src/service/timer-service.ts:66-80 | the player not to move gets max(0, floor(duration/1000)) whatever the time |
| `Timers.MoverAtLastMove` | src/service/timer-service.ts:62-65 | at the instant of the last move, the player to move also gets the whole duration |
| `Timers.DefaultDurationSeconds` | src/index.ts:74-81 | the server's 30000 ms duration is 30 seconds |
| `Timers.StartThenQuery` | src/service/timer-service.ts:31-46 | right after starting two distinct players, both get the whole duration, which is (30, 30) for 30000 ms |
| `Timers.StartThenFiveSeconds` | src/service/timer-service.ts:62-80 | 5000 ms after a 30000 ms start, the player to move has 25 seconds and the other player has 30 |
| `Timers.SwitchThenQuery` | src/service/timer-service.ts:86-87 | right after `switchTurn`, that player gets the whole duration again when it is their turn |
| `Timers.ClearThenQuery` | src/service/timer-service.ts:93-95 | after clearing, the query gives (0, 0); clearing twice is clearing once |

## Left out

- Transport glue in `src/index.ts` is not part of this model: socket events, broadcasting, `fetchSockets`/`leave`, the disconnect sweep and the close handler. These handlers only call the operations above. The close handler never calls `clearTimers`, and the model adds no such behaviour.
- `uuidV4()` is a foreign call. The model replaces it with the caller-supplied `freshId`, which must not already be a key.
- `Date.now()` is a clock. The model replaces it with the parameter `now`. The four reads in `startTimers` and the two reads in `getTimeRemaining` become one value.
- The socket and callback arguments of `joinRoom` and `joinRandomRoom` are left out.
  - The source builds the joiner from `socket.data`, without `imageUrl`. The model takes a `Player`.
  - The source passes its answer to `cb`. The model returns it as a `JoinResult`.
  - `async`/`await` has no interleaving inside these methods, so they are modelled sequentially.
- Concurrency is left out: two processes racing on the read-then-set in `joinRoom` cannot occur in the single-threaded code shown.
- Aliasing is left out.
  - `removePlayerFromRoom` assigns `room.players` on the stored object. `switchTurn` assigns `lastMoveTime` on the stored clock. `getAllTimers` hands out the live table. Arrays returned by `getRooms` share room objects with the registry.
  - The model replaces the stored value instead, so a snapshot taken earlier does not observe later changes.
- JavaScript numbers are floating point. The model takes times and durations as integer milliseconds. `Math.floor(x / 1000)` becomes integer division by 1000, which floors for a positive divisor. `Math.max` becomes a comparison.
- The timer table is a plain object (`{}`). A key that names an inherited property such as `constructor` would appear present there. The model treats the table as an ordinary map.
- The dead code is left out: the unused local `room` in `createRoom` and the empty-shell initialisation in `startTimers`. The next statement overwrites that shell.
- `Move` and `Timer` in `src/interfaces/game.ts` are not used by these services and are not modelled.
