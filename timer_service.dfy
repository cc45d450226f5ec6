/**
 * The turn clock (`TimerService`): for each room, a timer per player that
 * records when the player's clock started, when they last moved, how many
 * milliseconds a turn may last, and which side ('w' or 'b') they play.
 *
 * The current time `Date.now()` is the parameter `now` (integer
 * milliseconds); every operation reads it once.
 */
module Timers {

  /** The side a player plays: 'w' or 'b'. */
  datatype Orientation = White | Black

  /** One player's clock; all times and the duration are in milliseconds. */
  datatype PlayerTimer = PlayerTimer(startTime: int, lastMoveTime: int, duration: int, orientation: Orientation)

  /** The clocks of one room, keyed by player id. */
  datatype RoomTimers = RoomTimers(players: map<string, PlayerTimer>)

  /** All clocks, keyed by room id. */
  type TimerTable = map<string, RoomTimers>

  const MillisPerSecond: int := 1000

  /** The duration the game server passes to `startTimers`: thirty seconds. */
  const DefaultDuration: int := 30000

  // ---------------------------------------------------------------------
  // Queries

  /**
   * Milliseconds left for a player: the mover's duration minus the time since
   * their last move; a player who is not to move keeps the whole duration.
   */
  function MillisLeft(t: PlayerTimer, turn: Orientation, now: int): (ms: int)
    ensures turn != t.orientation ==> ms == t.duration
    ensures turn == t.orientation ==> ms + (now - t.lastMoveTime) == t.duration
  {
    if turn == t.orientation then t.duration - (now - t.lastMoveTime) else t.duration
  }

  /** `Math.max(0, Math.floor(ms / 1000))`: whole seconds, floored, never negative. */
  function WholeSeconds(ms: int): (s: int)
    ensures s >= 0
    ensures s == 0 <==> ms < MillisPerSecond
    ensures s > 0 ==> s * MillisPerSecond <= ms < (s + 1) * MillisPerSecond
  {
    var secs := ms / MillisPerSecond;
    if secs < 0 then 0 else secs
  }

  /** `getTimeRemaining`: both players' seconds left, or (0, 0) when a clock is missing. */
  function GetTimeRemaining(timers: TimerTable, roomId: string, p1Id: string, p2Id: string,
                            turn: Orientation, now: int): (r: (int, int))
    ensures r.0 >= 0 && r.1 >= 0
    ensures roomId !in timers || p1Id !in timers[roomId].players || p2Id !in timers[roomId].players ==>
              r == (0, 0)
    ensures roomId in timers && p1Id in timers[roomId].players && p2Id in timers[roomId].players ==>
              r.0 == WholeSeconds(MillisLeft(timers[roomId].players[p1Id], turn, now)) &&
              r.1 == WholeSeconds(MillisLeft(timers[roomId].players[p2Id], turn, now))
  {
    if roomId !in timers || p1Id !in timers[roomId].players || p2Id !in timers[roomId].players then
      (0, 0)
    else
      var players := timers[roomId].players;
      (WholeSeconds(MillisLeft(players[p1Id], turn, now)),
       WholeSeconds(MillisLeft(players[p2Id], turn, now)))
  }

  // ---------------------------------------------------------------------
  // The tables the updates leave behind

  /**
   * The table after `startTimers`: an empty room id changes nothing; otherwise
   * the room's clocks are replaced by fresh ones for the two players, the
   * second player's entry winning when both ids are the same.
   */
  function Started(timers: TimerTable, roomId: string, p1Id: string, p2Id: string, duration: int,
                   p1Orientation: Orientation, p2Orientation: Orientation, now: int): (r: TimerTable)
    ensures roomId == "" ==> r == timers
    ensures roomId != "" ==> roomId in r && r[roomId].players.Keys == {p1Id, p2Id}
    ensures roomId != "" ==> r[roomId].players[p2Id] == PlayerTimer(now, now, duration, p2Orientation)
    ensures roomId != "" && p1Id != p2Id ==>
              |r[roomId].players| == 2 && r[roomId].players[p1Id] == PlayerTimer(now, now, duration, p1Orientation)
    ensures forall k :: k != roomId ==> (k in r <==> k in timers) && (k in r ==> r[k] == timers[k])
  {
    if roomId == "" then timers
    else
      timers[roomId := RoomTimers(map[p1Id := PlayerTimer(now, now, duration, p1Orientation),
                                      p2Id := PlayerTimer(now, now, duration, p2Orientation)])]
  }

  /**
   * The table after `switchTurn`: a room without clocks is left alone; otherwise
   * only the player's last-move time becomes `now`.
   */
  function Switched(timers: TimerTable, roomId: string, playerId: string, now: int): (r: TimerTable)
    requires roomId in timers ==> playerId in timers[roomId].players
    ensures roomId !in timers ==> r == timers
    ensures r.Keys == timers.Keys
    ensures forall k :: k in timers && k != roomId ==> r[k] == timers[k]
    ensures roomId in timers ==>
              r[roomId].players.Keys == timers[roomId].players.Keys &&
              r[roomId].players[playerId] == timers[roomId].players[playerId].(lastMoveTime := now) &&
              forall q :: q in timers[roomId].players && q != playerId ==>
                r[roomId].players[q] == timers[roomId].players[q]
  {
    if roomId !in timers then timers
    else
      var players := timers[roomId].players;
      timers[roomId := RoomTimers(players[playerId := players[playerId].(lastMoveTime := now)])]
  }

  // ---------------------------------------------------------------------
  // The service object

  class TimerService {
    var roomTimers: TimerTable

    constructor ()
      ensures roomTimers == map[]
    {
      roomTimers := map[];
    }

    /** `startTimers`, at time `now`. */
    method StartTimers(roomId: string, p1Id: string, p2Id: string, duration: int,
                       p1Orientation: Orientation, p2Orientation: Orientation, now: int)
      modifies this
      ensures roomTimers == Started(old(roomTimers), roomId, p1Id, p2Id, duration, p1Orientation, p2Orientation, now)
    {
      if roomId == "" {
        return;
      }
      roomTimers := roomTimers[roomId := RoomTimers(map[p1Id := PlayerTimer(now, now, duration, p1Orientation),
                                                        p2Id := PlayerTimer(now, now, duration, p2Orientation)])];
    }

    /**
     * `switchTurn`, at time `now`. The source dereferences the player's clock
     * without a check, so a room with clocks must hold one for the player.
     */
    method SwitchTurn(roomId: string, playerId: string, now: int)
      requires roomId in roomTimers ==> playerId in roomTimers[roomId].players
      modifies this
      ensures roomTimers == Switched(old(roomTimers), roomId, playerId, now)
    {
      if roomId !in roomTimers {
        return;
      }
      var timers := roomTimers[roomId];
      var playerTimer := timers.players[playerId];
      roomTimers := roomTimers[roomId := RoomTimers(timers.players[playerId := playerTimer.(lastMoveTime := now)])];
    }

    /** `getAllTimers`: the whole table; it changes nothing. */
    method GetAllTimers() returns (all: TimerTable)
      ensures all == roomTimers
    {
      all := roomTimers;
    }

    /** `clearTimers`: forgets the room's clocks; clearing an absent room changes nothing. */
    method ClearTimers(roomId: string)
      modifies this
      ensures roomTimers == old(roomTimers) - {roomId}
      ensures roomId !in roomTimers
      ensures roomId !in old(roomTimers) ==> roomTimers == old(roomTimers)
    {
      roomTimers := roomTimers - {roomId};
    }
  }

  // ---------------------------------------------------------------------
  // Properties

  /** Whole seconds never grow when fewer milliseconds are left. */
  lemma WholeSecondsMonotonic(a: int, b: int)
    requires a <= b
    ensures WholeSeconds(a) <= WholeSeconds(b)
  {
  }

  /** As time passes, a player's seconds left never increase. */
  lemma SecondsNeverIncrease(t: PlayerTimer, turn: Orientation, now1: int, now2: int)
    requires now1 <= now2
    ensures WholeSeconds(MillisLeft(t, turn, now2)) <= WholeSeconds(MillisLeft(t, turn, now1))
  {
  }

  /** A player who is not to move sees their whole duration, whatever the time. */
  lemma WaitingPlayerFrozen(t: PlayerTimer, turn: Orientation, now: int)
    requires turn != t.orientation
    ensures WholeSeconds(MillisLeft(t, turn, now)) == WholeSeconds(t.duration)
    ensures t.duration >= 0 ==> WholeSeconds(MillisLeft(t, turn, now)) == t.duration / MillisPerSecond
  {
  }

  /** At the instant of the last move, the mover also sees the whole duration. */
  lemma MoverAtLastMove(t: PlayerTimer, turn: Orientation)
    ensures WholeSeconds(MillisLeft(t, turn, t.lastMoveTime)) == WholeSeconds(t.duration)
  {
  }

  /** Thirty thousand milliseconds are thirty seconds. */
  lemma DefaultDurationSeconds()
    ensures WholeSeconds(DefaultDuration) == 30
  {
  }

  /**
   * Right after `startTimers` with two distinct players, both see the whole
   * duration: (30, 30) for the default duration, whoever is to move.
   */
  lemma StartThenQuery(timers: TimerTable, roomId: string, p1Id: string, p2Id: string, duration: int,
                       p1Orientation: Orientation, p2Orientation: Orientation, turn: Orientation, now: int)
    requires roomId != "" && p1Id != p2Id
    ensures GetTimeRemaining(Started(timers, roomId, p1Id, p2Id, duration, p1Orientation, p2Orientation, now),
                             roomId, p1Id, p2Id, turn, now)
            == (WholeSeconds(duration), WholeSeconds(duration))
    ensures duration == DefaultDuration ==>
              GetTimeRemaining(Started(timers, roomId, p1Id, p2Id, duration, p1Orientation, p2Orientation, now),
                               roomId, p1Id, p2Id, turn, now) == (30, 30)
  {
  }

  /**
   * Five seconds after starting with the default duration and distinct sides,
   * the player to move sees 25 seconds and the other still sees 30.
   */
  lemma StartThenFiveSeconds(timers: TimerTable, roomId: string, p1Id: string, p2Id: string,
                             p1Orientation: Orientation, p2Orientation: Orientation, now: int)
    requires roomId != "" && p1Id != p2Id && p1Orientation != p2Orientation
    ensures GetTimeRemaining(Started(timers, roomId, p1Id, p2Id, DefaultDuration, p1Orientation, p2Orientation, now),
                             roomId, p1Id, p2Id, p1Orientation, now + 5000) == (25, 30)
  {
  }

  /** Right after `switchTurn` for a player, that player, when to move, sees the whole duration again. */
  lemma SwitchThenQuery(timers: TimerTable, roomId: string, p1Id: string, p2Id: string, now: int)
    requires roomId in timers && p1Id in timers[roomId].players && p2Id in timers[roomId].players
    ensures GetTimeRemaining(Switched(timers, roomId, p1Id, now), roomId, p1Id, p2Id,
                             timers[roomId].players[p1Id].orientation, now).0
            == WholeSeconds(timers[roomId].players[p1Id].duration)
  {
  }

  /** After `clearTimers`, querying the room gives (0, 0); clearing again changes nothing. */
  lemma ClearThenQuery(timers: TimerTable, roomId: string, p1Id: string, p2Id: string, turn: Orientation, now: int)
    ensures GetTimeRemaining(timers - {roomId}, roomId, p1Id, p2Id, turn, now) == (0, 0)
    ensures (timers - {roomId}) - {roomId} == timers - {roomId}
  {
  }
}
