/** The records the game server keeps (server/src/game/interfaces/game.interfaces.ts),
    the errors its service throws, and the wrappers used to return them. */
module GameInterfaces {

  datatype Option<+T> = None | Some(value: T)

  /** A thrown `Error` becomes `Err`, carrying which of the service's messages it had. */
  datatype Result<+T> = Ok(value: T) | Err(error: GameError)

  datatype GameState = Lobby | Playing | Ended

  /** The word pool a room draws from. */
  datatype Language = En | Id

  /** One participant of a room; `id` survives reconnects, `socketId` is the current connection. */
  datatype Player = Player(
    id: string,
    socketId: string,
    name: string,
    isCreator: bool,
    score: int,
    isConnected: bool,
    isReady: bool)

  /** One game session. `currentAnswers` maps a player id to the raw text it submitted;
      `lastActivity` is a millisecond timestamp. */
  datatype Room = Room(
    id: string,
    state: GameState,
    language: Language,
    players: seq<Player>,
    spectators: seq<Player>,
    words: seq<string>,
    currentWordIndex: nat,
    currentAnswers: map<string, string>,
    lastActivity: int)

  /** The failures the service raises, one per distinct message. */
  datatype GameError =
    | RoomNotFound
    | RoomFull
    | PlayerNotFoundInAnyRoom
    | KickForbidden
    | PlayerNotFoundInRoom
    | StartForbidden
    | NotEnoughPlayers
    | PlayersNotReady
    | GameNotInProgress
    | PlayerNotFound
  {
    /** The message text the service throws (MIN_PLAYERS is 2, spelled into its message). */
    function Message(): string {
      match this
      case RoomNotFound => "Room not found"
      case RoomFull => "Room is full"
      case PlayerNotFoundInAnyRoom => "Player not found in any room"
      case KickForbidden => "Only creator can kick players"
      case PlayerNotFoundInRoom => "Player not found in room"
      case StartForbidden => "Only creator can start game"
      case NotEnoughPlayers => "Need at least 2 players to start"
      case PlayersNotReady => "Wait for all players to return to lobby"
      case GameNotInProgress => "Game not in progress"
      case PlayerNotFound => "Player not found"
    }
  }

  /** The thrown message identifies the error: no two errors share a message. */
  lemma MessagesIdentifyErrors(a: GameError, b: GameError)
    ensures a.Message() == b.Message() ==> a == b
  {
    assert a.Message() == b.Message() ==> |a.Message()| == |b.Message()|;
  }

  /** What `createRoom`, `joinRoom` and `reconnectPlayer` return: the room and the caller's record. */
  datatype Joined = Joined(room: Room, player: Player)
}
