/** The records shared by both services: players, rooms, and an optional value. */
module Game {

  /** A value that may be absent (JavaScript's `undefined`). */
  datatype Option<+T> = None | Some(value: T)

  /** A player as recorded into a room. */
  datatype Player = Player(
    id: string,
    socketId: string,
    username: string,
    rating: int,
    imageUrl: string)

  /** A room: its identifier and its players, in the order they entered. */
  datatype Room = Room(roomId: string, players: seq<Player>)
}
