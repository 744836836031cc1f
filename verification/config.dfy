/** Game settings of the server (server/src/game/config/game.config.ts). */
module GameConfig {
  /** Number of words, and so of rounds, in one game. */
  const WORDS_PER_GAME: nat := 2

  /** Fewest players a game can start with. */
  const MIN_PLAYERS: nat := 2

  /** Most players `joinRoom` admits into a room's player list. */
  const MAX_PLAYERS: nat := 10

  /** A room idle for longer than this many milliseconds is swept away. */
  const ROOM_INACTIVITY_TIMEOUT: nat := 15 * 60 * 1000
}
