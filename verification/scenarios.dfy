/** The sequences the unit tests (server/src/game/game.service.spec.ts,
    server/src/game/game.service.additional.spec.ts) and the socket gateway
    (server/src/game/game.gateway.ts) run, stated on the room-level model. Where a test sets up
    a state by mutating a returned object, the mutation is an explicit record update here. */
module Scenarios {
  import opened GameInterfaces
  import opened Roster
  import opened RoomLogic

  /** Create, a second player joins, the creator starts, and a newcomer arrives during the
      game: the newcomer is the room's one spectator and the player list is unchanged. */
  lemma SpectatorJoinsDuringGame(roomId: string, c: string, p2: string, spec: string,
                                                    pool: seq<string>, now: int)
    requires c != p2 && spec != c && spec != p2
    ensures var r0 := NewRoom(roomId, "Creator", "socket-1", En, c, now).room;
      var r1 := Admit(r0, "Player2", "socket-2", p2).room;
      var s := Start(r1, c, pool);
      && s.Ok?
      && var j := Admit(s.value, "Spectator", "socket-3", spec);
         |j.room.spectators| == 1 && |j.room.players| == 2 && j.player.name == "Spectator"
  {
  }

  /** Two players finish a game, one spectator watched it, both players press ready: the room
      is back in the lobby with three players and no spectator. */
  lemma SpectatorMergedAfterGame(roomId: string, c: string, p2: string, spectator: Player,
                                                    pool: seq<string>, now: int)
    requires c != p2
    ensures var r0 := NewRoom(roomId, "Creator", "socket-1", En, c, now).room;
      var r1 := Admit(r0, "Player2", "socket-2", p2).room;
      var s := Start(r1, c, pool);
      && s.Ok?
      && var ended := s.value.(spectators := s.value.spectators + [spectator], state := Ended);
         var lobby := BackToLobby(MarkReady(MarkReady(ended, c), p2));
         lobby.state == Lobby && |lobby.players| == 3 && lobby.spectators == []
  {
  }

  /** The gateway's `playerReady` handler calls `checkAndSwitchToLobby` right after: in an
      ENDED room the last player to press ready takes everyone back to the lobby, and while
      another player is still not ready the room stays ENDED. */
  lemma LastReadySwitchesToLobby(room: Room, id: string)
    requires room.state == Ended && UniqueIds(room.players) && id in Ids(room.players)
    ensures BackToLobby(MarkReady(room, id)).state == Lobby <==>
      forall i :: 0 <= i < |room.players| && room.players[i].id != id ==> room.players[i].isReady
  {
  }
}
