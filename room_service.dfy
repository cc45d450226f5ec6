/**
 * The room registry and matchmaking (`RoomService`): a JavaScript `Map` from
 * room id to room, with create, upsert, join-by-id, join-random, leave and
 * close operations, and the list and find queries over it.
 *
 * The read-only queries are functions of the registry value; the operations
 * that change the map are methods of the class `RoomService`, each specified
 * by what the registry is afterwards.
 */
module Rooms {
  import opened Game
  import opened JsMap

  /** `room.players.some(player => player.id === playerId)`: the room holds the player exactly when removing that id would change its players. */
  predicate HasPlayer(room: Room, playerId: string)
    ensures HasPlayer(room, playerId) <==> WithoutPlayer(room.players, playerId) != room.players
  {
    if forall i :: 0 <= i < |room.players| ==> room.players[i].id != playerId then
      WithoutAbsentPlayer(room.players, playerId);
      false
    else
      true
  }

  /** The rejections a join can answer with, one per message of the source. */
  datatype JoinError = RoomDoesNotExist | RoomIsEmpty | RoomIsFull | NoRoomAvailable

  /** The `message` field of the error object handed to the callback. */
  function Message(e: JoinError): (m: string)
    ensures m != ""
  {
    match e
    case RoomDoesNotExist => "room does not exist!"
    case RoomIsEmpty => "room is empty"
    case RoomIsFull => "room is full"
    case NoRoomAvailable => "No room available to join"
  }

  /** What a join reports back: the updated room, or a rejection. */
  datatype JoinResult = Joined(room: Room) | Rejected(error: JoinError)

  /** The registry: room id to room, in insertion order. */
  type Registry = OMap<Room>

  /** No stored room holds more than two players. */
  ghost predicate AtMostTwo(rooms: Registry)
  {
    forall k :: k in rooms.entries ==> |rooms.entries[k].players| <= 2
  }

  /** Every stored room carries the id it is stored under. */
  ghost predicate Keyed(rooms: Registry)
  {
    forall k :: k in rooms.entries ==> rooms.entries[k].roomId == k
  }

  // ---------------------------------------------------------------------
  // Queries

  /** `rooms.filter(room => room.players.length < 2)`, keeping the order. */
  function OpenRooms(rs: seq<Room>): (r: seq<Room>)
    ensures forall x :: x in r <==> x in rs && |x.players| < 2
    ensures |r| <= |rs|
  {
    if rs == [] then []
    else
      var last := rs[|rs| - 1];
      if |last.players| < 2 then OpenRooms(rs[..|rs| - 1]) + [last]
      else OpenRooms(rs[..|rs| - 1])
  }

  /** `getAvailableRooms`: the stored rooms with a free seat, in insertion order. */
  function GetAvailableRooms(rooms: Registry): (r: seq<Room>)
    requires rooms.Valid()
    ensures forall x :: x in r ==> |x.players| < 2
    ensures forall i :: 0 <= i < |rooms.keys| && |rooms.entries[rooms.keys[i]].players| < 2 ==>
              rooms.entries[rooms.keys[i]] in r
    ensures forall x :: x in r ==> exists i :: 0 <= i < |rooms.keys| && rooms.entries[rooms.keys[i]] == x
  {
    var vs := rooms.Values();
    assert forall x :: x in vs ==> exists i :: 0 <= i < |rooms.keys| && rooms.entries[rooms.keys[i]] == x by {
      forall x | x in vs ensures exists i :: 0 <= i < |rooms.keys| && rooms.entries[rooms.keys[i]] == x {
        var i :| 0 <= i < |vs| && vs[i] == x;
      }
    }
    OpenRooms(vs)
  }

  /** `rs[i]` has exactly one player and no room after it has. */
  predicate IsLastSingle(rs: seq<Room>, i: int)
  {
    0 <= i < |rs| && |rs[i].players| == 1 && forall j :: i < j < |rs| ==> |rs[j].players| != 1
  }

  /**
   * The room the `forEach` of `joinRandomRoom` ends up holding: it overwrites
   * its pick at every room with exactly one player, so the pick is the LAST such room.
   */
  function LastSingle(rs: seq<Room>): (r: Option<Room>)
    ensures r.None? <==> forall i :: 0 <= i < |rs| ==> |rs[i].players| != 1
    ensures r.Some? ==> exists i :: IsLastSingle(rs, i) && rs[i] == r.value
  {
    if rs == [] then None
    else if |rs[|rs| - 1].players| == 1 then
      assert IsLastSingle(rs, |rs| - 1);
      Some(rs[|rs| - 1])
    else
      var init := rs[..|rs| - 1];
      var r := LastSingle(init);
      assert forall j :: 0 <= j < |rs| - 1 ==> init[j] == rs[j];
      if r.Some? then
        var i :| IsLastSingle(init, i) && init[i] == r.value;
        assert IsLastSingle(rs, i);
        r
      else
        r
  }

  /** `Array.prototype.find` over rooms: the first room holding the player. */
  function FirstWithPlayer(rs: seq<Room>, playerId: string): (r: Option<Room>)
    ensures r.None? <==> forall i :: 0 <= i < |rs| ==> !HasPlayer(rs[i], playerId)
    ensures r.Some? ==> exists i :: 0 <= i < |rs| && rs[i] == r.value && HasPlayer(rs[i], playerId) &&
                           forall j :: 0 <= j < i ==> !HasPlayer(rs[j], playerId)
  {
    if rs == [] then None
    else if HasPlayer(rs[0], playerId) then Some(rs[0])
    else
      var r := FirstWithPlayer(rs[1..], playerId);
      assert forall j :: 1 <= j < |rs| ==> rs[1..][j - 1] == rs[j];
      r
  }

  /** `getRoomByPlayerId`: the first room, in insertion order, that holds the player. */
  function GetRoomByPlayerId(rooms: Registry, playerId: string): (r: Option<Room>)
    requires rooms.Valid()
    ensures r.None? <==> forall k :: k in rooms.entries ==> !HasPlayer(rooms.entries[k], playerId)
    ensures r.Some? ==> exists i :: 0 <= i < |rooms.keys| && r.value == rooms.entries[rooms.keys[i]] &&
                           HasPlayer(r.value, playerId) &&
                           forall j :: 0 <= j < i ==> !HasPlayer(rooms.entries[rooms.keys[j]], playerId)
  {
    var vs := rooms.Values();
    var r := FirstWithPlayer(vs, playerId);
    if r.None? then
      assert forall k :: k in rooms.entries ==> !HasPlayer(rooms.entries[k], playerId) by {
        forall k | k in rooms.entries ensures !HasPlayer(rooms.entries[k], playerId) {
          var i :| 0 <= i < |rooms.keys| && rooms.keys[i] == k;
          assert vs[i] == rooms.entries[k];
        }
      }
      r
    else
      var i :| 0 <= i < |vs| && vs[i] == r.value && HasPlayer(vs[i], playerId) &&
               forall j :: 0 <= j < i ==> !HasPlayer(vs[j], playerId);
      assert rooms.keys[i] in rooms.entries;
      r
  }

  /** `players.filter(player => player.id !== playerId)` */
  function WithoutPlayer(ps: seq<Player>, playerId: string): (r: seq<Player>)
    ensures forall p :: p in r <==> p in ps && p.id != playerId
    ensures |r| <= |ps|
  {
    if ps == [] then []
    else if ps[0].id == playerId then WithoutPlayer(ps[1..], playerId)
    else [ps[0]] + WithoutPlayer(ps[1..], playerId)
  }

  // ---------------------------------------------------------------------
  // Decisions of the joins, and the registry they leave behind

  /**
   * The outcome of `joinRoom(roomId)` for `joiner`: the three rejections are
   * tried in the source's order, and a join succeeds exactly on a room with
   * one player, appending the joiner behind the occupant.
   */
  function JoinOutcome(rooms: Registry, roomId: string, joiner: Player): (r: JoinResult)
    ensures r == Rejected(RoomDoesNotExist) <==> roomId !in rooms.entries
    ensures r == Rejected(RoomIsEmpty) <==> roomId in rooms.entries && |rooms.entries[roomId].players| == 0
    ensures r == Rejected(RoomIsFull) <==> roomId in rooms.entries && |rooms.entries[roomId].players| >= 2
    ensures r.Joined? <==> roomId in rooms.entries && |rooms.entries[roomId].players| == 1
    ensures r.Joined? ==>
              r.room.roomId == rooms.entries[roomId].roomId &&
              r.room.players == rooms.entries[roomId].players + [joiner] &&
              |r.room.players| == 2 && r.room.players[0] == rooms.entries[roomId].players[0]
  {
    match rooms.Get(roomId)
    case None => Rejected(RoomDoesNotExist)
    case Some(room) =>
      if |room.players| <= 0 then Rejected(RoomIsEmpty)
      else if |room.players| >= 2 then Rejected(RoomIsFull)
      else Joined(room.(players := room.players + [joiner]))
  }

  /** The registry after a join under `roomId` that answered `outcome`. */
  function AfterJoin(rooms: Registry, roomId: string, outcome: JoinResult): (r: Registry)
    requires rooms.Valid()
    ensures r.Valid()
    ensures outcome.Rejected? ==> r == rooms
    ensures outcome.Rejected? || roomId in rooms.entries ==> r.keys == rooms.keys
    ensures outcome.Joined? ==> r.Get(roomId) == Some(outcome.room)
    ensures forall k :: k != roomId ==> r.Get(k) == rooms.Get(k)
  {
    if outcome.Joined? then rooms.Set(roomId, outcome.room) else rooms
  }

  /** The room `joinRandomRoom` delegates to, if any. */
  function RandomTarget(rooms: Registry): (r: Option<Room>)
    requires rooms.Valid()
    ensures r.None? <==> forall k :: k in rooms.entries ==> |rooms.entries[k].players| != 1
    ensures r.Some? ==> |r.value.players| == 1
  {
    var target := LastSingle(GetAvailableRooms(rooms));
    LastSingleOfOpen(rooms.Values());
    assert forall k :: k in rooms.entries ==> exists i :: 0 <= i < |rooms.keys| && rooms.keys[i] == k by {
      forall k | k in rooms.entries ensures exists i :: 0 <= i < |rooms.keys| && rooms.keys[i] == k {
        var i :| 0 <= i < |rooms.keys| && rooms.keys[i] == k;
      }
    }
    target
  }

  /** The outcome of `joinRandomRoom` for `joiner`. */
  function JoinRandomOutcome(rooms: Registry, joiner: Player): (r: JoinResult)
    requires rooms.Valid()
    ensures r == Rejected(NoRoomAvailable) <==> forall k :: k in rooms.entries ==> |rooms.entries[k].players| != 1
  {
    match RandomTarget(rooms)
    case None => Rejected(NoRoomAvailable)
    case Some(target) => JoinOutcome(rooms, target.roomId, joiner)
  }

  /** The registry after `joinRandomRoom` for `joiner`. */
  function AfterJoinRandom(rooms: Registry, joiner: Player): (r: Registry)
    requires rooms.Valid()
    ensures r.Valid()
    ensures JoinRandomOutcome(rooms, joiner).Rejected? ==> r == rooms
  {
    match RandomTarget(rooms)
    case None => rooms
    case Some(target) => AfterJoin(rooms, target.roomId, JoinOutcome(rooms, target.roomId, joiner))
  }

  /** The registry after `removePlayerFromRoom(roomId, playerId)`. */
  function AfterRemovePlayer(rooms: Registry, roomId: string, playerId: string): (r: Registry)
    requires rooms.Valid()
    ensures r.Valid() && r.keys == rooms.keys
    ensures roomId !in rooms.entries ==> r == rooms
    ensures roomId in rooms.entries ==>
              r.Get(roomId) == Some(rooms.entries[roomId].(players := WithoutPlayer(rooms.entries[roomId].players, playerId)))
    ensures forall k :: k != roomId ==> r.Get(k) == rooms.Get(k)
  {
    match rooms.Get(roomId)
    case None => rooms
    case Some(room) => rooms.Set(roomId, room.(players := WithoutPlayer(room.players, playerId)))
  }

  // ---------------------------------------------------------------------
  // The service object

  class RoomService {
    var rooms: Registry

    ghost predicate Valid()
      reads this
    {
      rooms.Valid()
    }

    constructor ()
      ensures Valid() && rooms == Empty()
    {
      rooms := Empty();
    }

    /** `createRoom`: stores a one-player room under the fresh id `freshId` (the source draws it from `uuidV4()`). */
    method CreateRoom(player: Player, freshId: string) returns (roomId: string)
      requires Valid() && freshId !in rooms.entries
      modifies this
      ensures Valid() && roomId == freshId
      ensures rooms.Get(roomId) == Some(Room(roomId, [player]))
      ensures forall k :: k != roomId ==> rooms.Get(k) == old(rooms).Get(k)
      ensures rooms.keys == old(rooms).keys + [roomId]
      ensures AtMostTwo(old(rooms)) ==> AtMostTwo(rooms)
      ensures Keyed(old(rooms)) ==> Keyed(rooms)
    {
      roomId := freshId;
      rooms := rooms.Set(roomId, Room(roomId, [player]));
    }

    /** `setRoom`: upsert; the room may break the invariants, so they survive only for a room that keeps them. */
    method SetRoom(roomId: string, room: Room)
      requires Valid()
      modifies this
      ensures Valid() && rooms == old(rooms).Set(roomId, room)
      ensures rooms.Get(roomId) == Some(room)
      ensures forall k :: k != roomId ==> rooms.Get(k) == old(rooms).Get(k)
      ensures AtMostTwo(old(rooms)) && |room.players| <= 2 ==> AtMostTwo(rooms)
      ensures Keyed(old(rooms)) && room.roomId == roomId ==> Keyed(rooms)
    {
      rooms := rooms.Set(roomId, room);
    }

    /** `joinRoom`, with the joining player passed in and the callback's argument returned. */
    method JoinRoom(roomId: string, joiner: Player) returns (result: JoinResult)
      requires Valid()
      modifies this
      ensures Valid()
      ensures result == JoinOutcome(old(rooms), roomId, joiner)
      ensures rooms == AfterJoin(old(rooms), roomId, result)
      ensures AtMostTwo(old(rooms)) ==> AtMostTwo(rooms)
      ensures Keyed(old(rooms)) ==> Keyed(rooms)
    {
      var found := rooms.Get(roomId);
      if found.None? {
        return Rejected(RoomDoesNotExist);
      } else if |found.value.players| <= 0 {
        return Rejected(RoomIsEmpty);
      } else if |found.value.players| >= 2 {
        return Rejected(RoomIsFull);
      }
      var roomUpdate := found.value.(players := found.value.players + [joiner]);
      SetRoom(roomId, roomUpdate);
      result := Joined(roomUpdate);
    }

    /** `joinRandomRoom`: scans the available rooms, keeping the last one-player room, and joins it by its `roomId`. */
    method JoinRandomRoom(joiner: Player) returns (result: JoinResult)
      requires Valid()
      modifies this
      ensures Valid()
      ensures result == JoinRandomOutcome(old(rooms), joiner)
      ensures rooms == AfterJoinRandom(old(rooms), joiner)
      ensures AtMostTwo(old(rooms)) ==> AtMostTwo(rooms)
      ensures Keyed(old(rooms)) ==> Keyed(rooms)
    {
      var available := GetAvailableRooms(rooms);
      var roomToJoin: Option<Room> := None;
      var i := 0;
      while i < |available|
        invariant 0 <= i <= |available|
        invariant roomToJoin == LastSingle(available[..i])
      {
        assert available[..i + 1][..i] == available[..i];
        if |available[i].players| == 1 {
          roomToJoin := Some(available[i]);
        }
        i := i + 1;
      }
      assert available[..i] == available;
      if roomToJoin.None? {
        return Rejected(NoRoomAvailable);
      }
      result := JoinRoom(roomToJoin.value.roomId, joiner);
    }

    /** `removePlayerFromRoom`: drops every player with that id from that room; no-op for an absent room. */
    method RemovePlayerFromRoom(roomId: string, playerId: string)
      requires Valid()
      modifies this
      ensures Valid()
      ensures rooms == AfterRemovePlayer(old(rooms), roomId, playerId)
      ensures AtMostTwo(old(rooms)) ==> AtMostTwo(rooms)
      ensures Keyed(old(rooms)) ==> Keyed(rooms)
    {
      var found := rooms.Get(roomId);
      if found.Some? {
        rooms := rooms.Set(roomId, found.value.(players := WithoutPlayer(found.value.players, playerId)));
      }
    }

    /** `removeRoom`: deletes the entry; removing an absent room is not an error. */
    method RemoveRoom(roomId: string)
      requires Valid()
      modifies this
      ensures Valid() && rooms == old(rooms).Delete(roomId)
      ensures rooms.Get(roomId) == None
      ensures forall k :: k != roomId ==> rooms.Get(k) == old(rooms).Get(k)
      ensures AtMostTwo(old(rooms)) ==> AtMostTwo(rooms)
      ensures Keyed(old(rooms)) ==> Keyed(rooms)
    {
      rooms := rooms.Delete(roomId);
    }
  }

  // ---------------------------------------------------------------------
  // Properties

  /** Filtering out the full rooms first does not change which one-player room is last. */
  lemma {:induction false} LastSingleOfOpen(rs: seq<Room>)
    ensures LastSingle(OpenRooms(rs)) == LastSingle(rs)
  {
    if rs != [] {
      var init := rs[..|rs| - 1];
      LastSingleOfOpen(init);
      var last := rs[|rs| - 1];
      if |last.players| < 2 {
        var o := OpenRooms(init) + [last];
        assert o[..|o| - 1] == OpenRooms(init);
      }
    }
  }

  /**
   * With a one-player room in the registry, `joinRandomRoom` joins the last one
   * in insertion order, with the same outcome and the same new registry as
   * `joinRoom` on its key (every room carrying its own key as `roomId`).
   */
  lemma JoinRandomJoinsLast(rooms: Registry, joiner: Player, i: int)
    requires rooms.Valid() && Keyed(rooms)
    requires IsLastSingle(rooms.Values(), i)
    ensures RandomTarget(rooms) == Some(rooms.entries[rooms.keys[i]])
    ensures JoinRandomOutcome(rooms, joiner) == JoinOutcome(rooms, rooms.keys[i], joiner)
    ensures JoinRandomOutcome(rooms, joiner).Joined?
    ensures JoinRandomOutcome(rooms, joiner).room.players == rooms.entries[rooms.keys[i]].players + [joiner]
    ensures AfterJoinRandom(rooms, joiner) == AfterJoin(rooms, rooms.keys[i], JoinOutcome(rooms, rooms.keys[i], joiner))
  {
    var vs := rooms.Values();
    LastSingleOfOpen(vs);
    var r := LastSingle(vs);
    var i' :| IsLastSingle(vs, i') && vs[i'] == r.value;
    assert i' == i;
  }

  /** Filtering the rooms distributes over concatenation, so the available rooms keep insertion order. */
  lemma {:induction false} OpenRoomsAppend(a: seq<Room>, b: seq<Room>)
    ensures OpenRooms(a + b) == OpenRooms(a) + OpenRooms(b)
    decreases |b|
  {
    if b == [] {
      assert a + b == a;
    } else {
      var init := b[..|b| - 1];
      assert (a + b)[..|a + b| - 1] == a + init;
      assert (a + b)[|a + b| - 1] == b[|b| - 1];
      OpenRoomsAppend(a, init);
    }
  }

  /** The filter distributes over concatenation, so it keeps the remaining players in order. */
  lemma {:induction false} WithoutPlayerAppend(a: seq<Player>, b: seq<Player>, playerId: string)
    ensures WithoutPlayer(a + b, playerId) == WithoutPlayer(a, playerId) + WithoutPlayer(b, playerId)
  {
    if a == [] {
      assert a + b == b;
    } else {
      assert (a + b)[0] == a[0] && (a + b)[1..] == a[1..] + b;
      WithoutPlayerAppend(a[1..], b, playerId);
    }
  }

  /** Removing a player who is not in the room keeps every player, in order. */
  lemma {:induction false} WithoutAbsentPlayer(ps: seq<Player>, playerId: string)
    requires forall i :: 0 <= i < |ps| ==> ps[i].id != playerId
    ensures WithoutPlayer(ps, playerId) == ps
  {
    if ps != [] {
      WithoutAbsentPlayer(ps[1..], playerId);
      assert [ps[0]] + ps[1..] == ps;
    }
  }

  /** Creating a room and then joining it by its id seats the creator first and the joiner second. */
  lemma CreateThenJoin(rooms: Registry, freshId: string, creator: Player, joiner: Player)
    requires rooms.Valid() && freshId !in rooms.entries
    ensures JoinOutcome(rooms.Set(freshId, Room(freshId, [creator])), freshId, joiner)
              == Joined(Room(freshId, [creator, joiner]))
  {
  }

  /** After a successful join, a second join of the same room is refused as full. */
  lemma JoinTwiceIsFull(rooms: Registry, roomId: string, first: Player, second: Player)
    requires rooms.Valid()
    requires JoinOutcome(rooms, roomId, first).Joined?
    ensures JoinOutcome(AfterJoin(rooms, roomId, JoinOutcome(rooms, roomId, first)), roomId, second) == Rejected(RoomIsFull)
  {
  }

  /** The four rejections reach the callback with four different messages. */
  lemma MessagesDistinct(e1: JoinError, e2: JoinError)
    requires e1 != e2
    ensures Message(e1) != Message(e2)
  {
  }
}
