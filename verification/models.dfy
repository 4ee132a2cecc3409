/** Value types shared by the game session and the board: the interfaces of
    src/models/Player.tsx and the anonymous `{ start, end }` ladder record. */
module Models {

  datatype Option<+T> = None | Some(value: T)

  /** The enum `MoveType`; its only member is rendered as "Ladder". */
  datatype MoveType = LadderJump

  /** One entry of a player's move history. An ordinary dice move carries
      `dice` and no `moveType`; a ladder jump carries `moveType` and no `dice`. */
  datatype Move = Move(dice: Option<int>, from: int, to: int, moveType: Option<MoveType>, moveNumber: int)

  /** A player token. `color` is an opaque display string. */
  datatype Player = Player(
    id: int,
    name: string,
    position: int,
    color: string,
    diceRolls: int,
    movedSteps: int,
    moveHistory: seq<Move>,
    finished: bool)

  /** A link between two board positions; it climbs when `end > start` and
      falls when `end < start`. Either endpoint may be the failure value -1. */
  datatype Ladder = Ladder(start: int, end: int)
}
