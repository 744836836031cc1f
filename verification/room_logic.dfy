/** What each operation of the game service (server/src/game/game.service.ts) does to ONE
    room, as a function of the room before it, with the room invariants the operations keep.
    The service class applies these to the room it looked up and stores the result back;
    `updateActivity` is `Touch`, applied by the class where the service calls it. */
module RoomLogic {
  import opened GameInterfaces
  import opened GameConfig
  import opened Roster
  import opened AnswerMatch

  /** `id` is in the room, as a player or as a spectator. */
  predicate IsMember(room: Room, id: string) {
    id in Ids(room.players) || id in Ids(room.spectators)
  }

  /** Some player or spectator currently uses connection `socketId`. */
  predicate HasSocket(room: Room, socketId: string) {
    IndexBySocket(room.players, socketId) >= 0 || IndexBySocket(room.spectators, socketId) >= 0
  }

  /** The ids of every creator record in the room, players and spectators alike. */
  function CreatorIds(room: Room): set<string> {
    CreatorIdsOf(room.players + room.spectators)
  }

  /** The room invariant: ids are unique across players and spectators together, at most one
      player is the creator, and no spectator is. */
  predicate RoomInv(room: Room) {
    && UniqueIds(room.players) && UniqueIds(room.spectators)
    && Ids(room.players) !! Ids(room.spectators)
    && AtMostOneCreator(room.players)
    && NoCreator(room.spectators)
  }

  /** `joinRoom`'s cap on the player list (spectators are not counted). */
  predicate WithinCapacity(room: Room) {
    |room.players| <= MAX_PLAYERS
  }

  /** Under the invariant, no id occurs twice in `players ++ spectators` and the room has at
      most one creator. */
  lemma {:induction false} InvariantMeansOneCreator(room: Room)
    requires RoomInv(room)
    ensures UniqueIds(room.players + room.spectators)
    ensures |CreatorIds(room)| <= 1
    ensures CreatorIds(room) <= Ids(room.players)
  {
    UniqueConcat(room.players, room.spectators);
    var all := room.players + room.spectators;
    var cs := CreatorIds(room);
    forall x | x in cs ensures x in Ids(room.players) {
      var p :| p in all && p.isCreator && p.id == x;
      var i :| 0 <= i < |all| && all[i] == p;
      assert i < |room.players| && room.players[i] == p;
    }
    if cs != {} {
      var x :| x in cs;
      var p :| p in all && p.isCreator && p.id == x;
      var i :| 0 <= i < |all| && all[i] == p;
      forall y | y in cs ensures y == x {
        var q :| q in all && q.isCreator && q.id == y;
        var j :| 0 <= j < |all| && all[j] == q;
        assert i < |room.players| && j < |room.players|;
        assert i == j;
      }
      assert cs == {x};
    }
  }

  /** Two rooms whose player and spectator lists differ only in connection, name, score or
      readiness agree on membership, creators and the invariant. */
  lemma SameRosterKeeps(a: Room, b: Room)
    requires SameIdentities(a.players, b.players) && SameIdentities(a.spectators, b.spectators)
    ensures RoomInv(b) == RoomInv(a) && CreatorIds(b) == CreatorIds(a)
    ensures Ids(b.players) == Ids(a.players) && Ids(b.spectators) == Ids(a.spectators)
  {
  }

  /** `updateActivity`: the room was used at time `now`. */
  function Touch(room: Room, now: int): (r: Room)
    ensures r.lastActivity == now && r.(lastActivity := room.lastActivity) == room
  {
    room.(lastActivity := now)
  }

  /** Inactivity test of the sweep: idle for strictly longer than the timeout. */
  predicate Stale(room: Room, now: int) {
    now - room.lastActivity > ROOM_INACTIVITY_TIMEOUT
  }

  /** A room used at `now` is not stale at `now`, nor at any time within the timeout after it. */
  lemma TouchedRoomIsNotStale(room: Room, now: int, later: int)
    requires now <= later <= now + ROOM_INACTIVITY_TIMEOUT
    ensures !Stale(Touch(room, now), later)
  {
  }

  /** `playerId || uuidv4()`: a supplied id is used unless absent or empty; `freshId` stands for
      the generated one. */
  function ResolveId(playerId: Option<string>, freshId: string): (id: string)
    ensures playerId.Some? && playerId.value != "" ==> id == playerId.value
    ensures playerId.None? || playerId.value == "" ==> id == freshId
    ensures id == "" ==> freshId == ""
  {
    if playerId.Some? && playerId.value != "" then playerId.value else freshId
  }

  // ---- createRoom ----

  /** The room `createRoom` builds: in the lobby, with its creator as the only player. */
  function NewRoom(roomId: string, creatorName: string, socketId: string, language: Language,
                   creatorId: string, now: int): (j: Joined)
    ensures RoomInv(j.room) && WithinCapacity(j.room)
    ensures CreatorIds(j.room) == {creatorId} && Ids(j.room.players) == {creatorId}
    ensures j.room.players == [j.player] && j.room.spectators == []
    ensures j.player.id == creatorId && j.player.isCreator && j.player.isReady && j.player.isConnected
    ensures j.player.score == 0 && j.player.name == creatorName && j.player.socketId == socketId
    ensures j.room.language == language
    ensures j.room.id == roomId && j.room.state == Lobby && j.room.lastActivity == now
    ensures j.room.words == [] && j.room.currentWordIndex == 0 && j.room.currentAnswers == map[]
  {
    var creator := Player(creatorId, socketId, creatorName, true, 0, true, true);
    var room := Room(roomId, Lobby, language, [creator], [], [], 0, map[], now);
    assert room.players + room.spectators == [creator];
    Joined(room, creator)
  }

  // ---- joinRoom ----

  /** `joinRoom` past its room and capacity checks: a known id (player first, then spectator)
      has its record refreshed in place; an unknown one gets a fresh, ready, non-creator record,
      placed among the spectators while a game is being played and among the players otherwise. */
  function Admit(room: Room, name: string, socketId: string, id: string): (j: Joined)
    ensures j.room.(players := room.players, spectators := room.spectators) == room
    ensures j.player.id == id && j.player.socketId == socketId && j.player.name == name
    ensures j.player.isConnected
    ensures IsMember(j.room, id)
    ensures IsMember(room, id) ==>
      && SameIdentities(room.players, j.room.players)
      && SameIdentities(room.spectators, j.room.spectators)
    ensures var i := IndexById(room.players, id);
      i >= 0 ==>
        && j.player == room.players[i].(socketId := socketId, name := name, isConnected := true)
        && j.room.players == room.players[i := j.player] && j.room.spectators == room.spectators
    ensures var i, k := IndexById(room.players, id), IndexById(room.spectators, id);
      i < 0 && k >= 0 ==>
        && j.player == room.spectators[k].(socketId := socketId, name := name, isConnected := true)
        && j.room.spectators == room.spectators[k := j.player] && j.room.players == room.players
    ensures !IsMember(room, id) ==>
      && j.player == Player(id, socketId, name, false, 0, true, true)
      && if room.state == Playing
         then j.room.players == room.players && j.room.spectators == room.spectators + [j.player]
         else j.room.players == room.players + [j.player] && j.room.spectators == room.spectators
  {
    var i := IndexById(room.players, id);
    if i >= 0 then
      var p := room.players[i].(socketId := socketId, name := name, isConnected := true);
      assert room.players[i := p][i] == p;
      Joined(room.(players := room.players[i := p]), p)
    else
      var k := IndexById(room.spectators, id);
      if k >= 0 then
        var p := room.spectators[k].(socketId := socketId, name := name, isConnected := true);
        assert room.spectators[k := p][k] == p;
        Joined(room.(spectators := room.spectators[k := p]), p)
      else
        var p := Player(id, socketId, name, false, 0, true, true);
        assert p.id in Ids([p]);
        if room.state == Playing then Joined(room.(spectators := room.spectators + [p]), p)
        else Joined(room.(players := room.players + [p]), p)
  }

  /** A rejoin leaves every other record as it was: only the caller's own record changes. A
      corollary of `Admit`'s per-branch contract, stated on its own for the invariant proofs. */
  lemma {:induction false} AdmitTouchesOnlyCaller(room: Room, name: string, socketId: string, id: string)
    requires RoomInv(room) && IsMember(room, id)
    ensures var j := Admit(room, name, socketId, id);
      && (forall i :: 0 <= i < |room.players| && room.players[i].id != id ==> j.room.players[i] == room.players[i])
      && (forall i :: 0 <= i < |room.spectators| && room.spectators[i].id != id ==> j.room.spectators[i] == room.spectators[i])
  {
  }

  /** Admitting keeps the invariant, never adds a creator, and admits into the player list only
      below the cap. */
  lemma AdmitKeepsInvariant(room: Room, name: string, socketId: string, id: string)
    requires RoomInv(room)
    ensures var j := Admit(room, name, socketId, id);
      && RoomInv(j.room)
      && CreatorIds(j.room) == CreatorIds(room)
      && (|room.players| < MAX_PLAYERS ==> WithinCapacity(j.room))
  {
  }

  // ---- reconnectPlayer / disconnectPlayer ----

  /** `reconnectPlayer` inside the room found to hold `id`: the first player record with that id,
      or failing that the first spectator record, takes the new connection and is connected. */
  function Reconnect(room: Room, id: string, socketId: string): (j: Joined)
    requires IsMember(room, id)
    ensures j.room.(players := room.players, spectators := room.spectators) == room
    ensures j.player.id == id && j.player.socketId == socketId && j.player.isConnected
    ensures SameIdentities(room.players, j.room.players)
    ensures SameIdentities(room.spectators, j.room.spectators)
    ensures var i := IndexById(room.players, id);
      i >= 0 ==>
        && j.player == room.players[i].(socketId := socketId, isConnected := true)
        && j.room.players == room.players[i := j.player] && j.room.spectators == room.spectators
    ensures var i, k := IndexById(room.players, id), IndexById(room.spectators, id);
      i < 0 ==>
        && k >= 0
        && j.player == room.spectators[k].(socketId := socketId, isConnected := true)
        && j.room.spectators == room.spectators[k := j.player] && j.room.players == room.players
  {
    var i := IndexById(room.players, id);
    if i >= 0 then
      var p := room.players[i].(socketId := socketId, isConnected := true);
      Joined(room.(players := room.players[i := p]), p)
    else
      var k := IndexById(room.spectators, id);
      var p := room.spectators[k].(socketId := socketId, isConnected := true);
      Joined(room.(spectators := room.spectators[k := p]), p)
  }

  /** `disconnectPlayer` inside the room found to hold `socketId`: the first player record on
      that connection, or failing that the first spectator record, is marked disconnected.
      Membership is untouched. */
  function Disconnect(room: Room, socketId: string): (j: Joined)
    requires HasSocket(room, socketId)
    ensures j.room.(players := room.players, spectators := room.spectators) == room
    ensures !j.player.isConnected && j.player.socketId == socketId
    ensures IsMember(room, j.player.id)
    ensures SameIdentities(room.players, j.room.players)
    ensures SameIdentities(room.spectators, j.room.spectators)
    ensures var i := IndexBySocket(room.players, socketId);
      i >= 0 ==>
        && j.player == room.players[i].(isConnected := false)
        && j.room.players == room.players[i := j.player] && j.room.spectators == room.spectators
    ensures var i, k := IndexBySocket(room.players, socketId), IndexBySocket(room.spectators, socketId);
      i < 0 ==>
        && k >= 0
        && j.player == room.spectators[k].(isConnected := false)
        && j.room.spectators == room.spectators[k := j.player] && j.room.players == room.players
  {
    var i := IndexBySocket(room.players, socketId);
    if i >= 0 then
      var p := room.players[i].(isConnected := false);
      assert room.players[i] in room.players;
      Joined(room.(players := room.players[i := p]), p)
    else
      var k := IndexBySocket(room.spectators, socketId);
      var p := room.spectators[k].(isConnected := false);
      assert room.spectators[k] in room.spectators;
      Joined(room.(spectators := room.spectators[k := p]), p)
  }

  /** The socket match ignores the connection flag: disconnecting the same connection again
      finds the same record and reports it again, rather than finding nothing. */
  lemma DisconnectAgainReportsSameRecord(room: Room, socketId: string)
    requires HasSocket(room, socketId)
    ensures HasSocket(Disconnect(room, socketId).room, socketId)
    ensures var j := Disconnect(room, socketId);
      Disconnect(j.room, socketId).player == j.player && Disconnect(j.room, socketId).room == j.room
  {
  }

  /** Reconnecting and disconnecting change no membership, no creator and keep the invariant. */
  lemma {:induction false} ConnectionChangesKeepInvariant(room: Room, id: string, socketId: string)
    ensures IsMember(room, id) ==>
      var r := Reconnect(room, id, socketId).room;
      RoomInv(r) == RoomInv(room) && CreatorIds(r) == CreatorIds(room)
      && forall x :: IsMember(r, x) <==> IsMember(room, x)
    ensures HasSocket(room, socketId) ==>
      var r := Disconnect(room, socketId).room;
      RoomInv(r) == RoomInv(room) && CreatorIds(r) == CreatorIds(room)
      && forall x :: IsMember(r, x) <==> IsMember(room, x)
  {
    if IsMember(room, id) {
      SameRosterKeeps(room, Reconnect(room, id, socketId).room);
    }
    if HasSocket(room, socketId) {
      SameRosterKeeps(room, Disconnect(room, socketId).room);
    }
  }

  // ---- kickPlayer ----

  /** The requester is the first player record with that id and it is the creator. */
  predicate IsCreatorRequest(room: Room, requesterId: string)
    ensures IsCreatorRequest(room, requesterId) ==>
      requesterId in Ids(room.players) && requesterId in CreatorIds(room)
  {
    var i := IndexById(room.players, requesterId);
    i >= 0 && room.players[i].isCreator
  }

  /** `kickPlayer` past its checks: the target id is filtered out of both lists. */
  function Kick(room: Room, targetId: string): (r: Room)
    ensures r.(players := room.players, spectators := room.spectators) == room
    ensures !IsMember(r, targetId)
    ensures forall p :: p in r.players <==> p in room.players && p.id != targetId
    ensures forall p :: p in r.spectators <==> p in room.spectators && p.id != targetId
    ensures forall x :: x != targetId ==> (IsMember(r, x) <==> IsMember(room, x))
    ensures r.players == Without(room.players, targetId) && r.spectators == Without(room.spectators, targetId)
  {
    var r := room.(players := Without(room.players, targetId),
                   spectators := Without(room.spectators, targetId));
    WithoutIds(room.players, targetId);
    WithoutIds(room.spectators, targetId);
    r
  }

  /** Kicking keeps the invariant and the cap, and adds no creator. */
  lemma {:induction false} KickKeepsInvariant(room: Room, targetId: string)
    requires RoomInv(room)
    ensures RoomInv(Kick(room, targetId))
    ensures CreatorIds(Kick(room, targetId)) <= CreatorIds(room)
    ensures WithinCapacity(room) ==> WithinCapacity(Kick(room, targetId))
  {
    var r := Kick(room, targetId);
    WithoutUnique(room.players, targetId);
    WithoutUnique(room.spectators, targetId);
    WithoutIds(room.players, targetId);
    WithoutIds(room.spectators, targetId);
    forall i, j | 0 <= i < j < |r.players| && r.players[i].isCreator ensures !r.players[j].isCreator {
      assert r.players[i] in room.players && r.players[j] in room.players;
      var i' :| 0 <= i' < |room.players| && room.players[i'] == r.players[i];
      var j' :| 0 <= j' < |room.players| && room.players[j'] == r.players[j];
      assert r.players[i].id != r.players[j].id;
    }
    forall i | 0 <= i < |r.spectators| ensures !r.spectators[i].isCreator {
      assert r.spectators[i] in room.spectators;
    }
  }

  /** Nothing stops the creator from kicking itself: the room then has no creator, and no
      requester can ever pass the creator check of `kickPlayer` or `startGame` again. */
  lemma SelfKickOrphansRoom(room: Room, creatorId: string)
    requires RoomInv(room) && IsCreatorRequest(room, creatorId)
    ensures CreatorIds(Kick(room, creatorId)) == {}
    ensures forall x :: !IsCreatorRequest(Kick(room, creatorId), x)
  {
  }

  /** A kicked player's recorded answer stays in `currentAnswers` and so still counts. */
  lemma KickKeepsAnswers(room: Room, targetId: string)
    ensures Kick(room, targetId).currentAnswers == room.currentAnswers
    ensures IsMatch(Kick(room, targetId).currentAnswers) == IsMatch(room.currentAnswers)
  {
  }

  // ---- leaveRoom ----

  /** `leaveRoom` on a room that exists: `Ok(None)` when the leaver is the first player record
      with that id and is the creator (the room is destroyed), `Ok(Some(r))` when one player
      or, failing that, one spectator record was spliced out, `Err` when the id is in neither. */
  function Depart(room: Room, id: string): (d: Result<Option<Room>>)
    ensures d.Err? <==> !IsMember(room, id)
    ensures d.Err? ==> d.error == PlayerNotFoundInRoom
    ensures d == Ok(None) <==> IsCreatorRequest(room, id)
    ensures d.Ok? && d.value.Some? ==>
      var r := d.value.value;
      && r.(players := room.players, spectators := room.spectators) == room
      && |r.players| + |r.spectators| == |room.players| + |room.spectators| - 1
      && (if id in Ids(room.players)
          then r.spectators == room.spectators && |r.players| == |room.players| - 1
          else r.players == room.players && |r.spectators| == |room.spectators| - 1)
    ensures var i, k := IndexById(room.players, id), IndexById(room.spectators, id);
      d.Ok? && d.value.Some? ==>
        if i >= 0 then d.value.value == room.(players := RemoveAt(room.players, i))
        else k >= 0 && d.value.value == room.(spectators := RemoveAt(room.spectators, k))
  {
    var i := IndexById(room.players, id);
    if i >= 0 then
      if room.players[i].isCreator then Ok(None)
      else Ok(Some(room.(players := RemoveAt(room.players, i))))
    else
      var k := IndexById(room.spectators, id);
      if k >= 0 then Ok(Some(room.(spectators := RemoveAt(room.spectators, k))))
      else Err(PlayerNotFoundInRoom)
  }

  /** A non-creator leaving keeps the invariant, adds no creator, and under the invariant the
      leaver is then gone from the room while everyone else stays. */
  lemma {:induction false} DepartKeepsInvariant(room: Room, id: string)
    requires RoomInv(room)
    ensures var d := Depart(room, id);
      d.Ok? && d.value.Some? ==>
        var r := d.value.value;
        && RoomInv(r) && CreatorIds(r) <= CreatorIds(room)
        && !IsMember(r, id)
        && (forall x :: x != id ==> (IsMember(r, x) <==> IsMember(room, x)))
        && (WithinCapacity(room) ==> WithinCapacity(r))
  {
    var d := Depart(room, id);
    if d.Ok? && d.value.Some? {
      var r := d.value.value;
      var i := IndexById(room.players, id);
      if i >= 0 {
        var qs := RemoveAt(room.players, i);
        assert forall q :: q in qs ==> q in room.players;
        forall a, b | 0 <= a < b < |qs| && qs[a].isCreator ensures !qs[b].isCreator {
          assert qs[a] == room.players[if a < i then a else a + 1];
          assert qs[b] == room.players[if b < i then b else b + 1];
        }
        assert CreatorIdsOf(qs + room.spectators) <= CreatorIdsOf(room.players + room.spectators);
      } else {
        var k := IndexById(room.spectators, id);
        var qs := RemoveAt(room.spectators, k);
        assert forall q :: q in qs ==> q in room.spectators;
        forall a | 0 <= a < |qs| ensures !qs[a].isCreator {
          assert qs[a] in room.spectators;
        }
        assert CreatorIdsOf(room.players + qs) <= CreatorIdsOf(room.players + room.spectators);
      }
    }
  }

  // ---- playerReady ----

  /** `playerReady` on a room that exists: the first player record with the id becomes ready;
      a spectator or unknown id changes nothing. */
  function MarkReady(room: Room, id: string): (r: Room)
    ensures r.(players := room.players) == room
    ensures SameIdentities(room.players, r.players)
    ensures id in Ids(room.players) ==>
      var i := IndexById(room.players, id);
      r.players == room.players[i := room.players[i].(isReady := true)]
    ensures id !in Ids(room.players) ==> r == room
    ensures forall i :: 0 <= i < |room.players| && i != IndexById(room.players, id) ==> r.players[i] == room.players[i]
  {
    var i := IndexById(room.players, id);
    if i >= 0 then room.(players := room.players[i := room.players[i].(isReady := true)]) else room
  }

  /** Marking ready twice is marking ready once. */
  lemma MarkReadyIdempotent(room: Room, id: string)
    ensures MarkReady(MarkReady(room, id), id) == MarkReady(room, id)
  {
  }

  // ---- startGame ----

  /** `startGame` on a room that exists, with `shuffledPool` standing for the randomly ordered
      word pool of the room's language. Checks, in order: the requester is the creator, enough
      players, every player ready; the current state is not checked. */
  function Start(room: Room, requesterId: string, shuffledPool: seq<string>): (r: Result<Room>)
    ensures r == Err(StartForbidden) <==> !IsCreatorRequest(room, requesterId)
    ensures r == Err(NotEnoughPlayers) <==>
      IsCreatorRequest(room, requesterId) && |room.players| < MIN_PLAYERS
    ensures r == Err(PlayersNotReady) <==>
      IsCreatorRequest(room, requesterId) && |room.players| >= MIN_PLAYERS && !AllReady(room.players)
    ensures r.Ok? <==>
      IsCreatorRequest(room, requesterId) && |room.players| >= MIN_PLAYERS && AllReady(room.players)
    ensures r.Ok? ==>
      && r.value.state == Playing && r.value.currentWordIndex == 0 && r.value.currentAnswers == map[]
      && |r.value.words| == (if |shuffledPool| < WORDS_PER_GAME then |shuffledPool| else WORDS_PER_GAME)
      && r.value.words == shuffledPool[..|r.value.words|]
      && r.value.players == ResetForGame(room.players)
      && r.value.spectators == room.spectators
      && r.value.(state := room.state, words := room.words, currentWordIndex := room.currentWordIndex,
                  currentAnswers := room.currentAnswers, players := room.players) == room
  {
    if !IsCreatorRequest(room, requesterId) then Err(StartForbidden)
    else if |room.players| < MIN_PLAYERS then Err(NotEnoughPlayers)
    else if !AllReady(room.players) then Err(PlayersNotReady)
    else
      var n := if |shuffledPool| < WORDS_PER_GAME then |shuffledPool| else WORDS_PER_GAME;
      Ok(room.(state := Playing, words := shuffledPool[..n], currentWordIndex := 0,
               currentAnswers := map[], players := ResetForGame(room.players)))
  }

  /** A started game keeps the invariant and the creator, and every player is at score 0 and
      busy. */
  lemma StartKeepsInvariant(room: Room, requesterId: string, shuffledPool: seq<string>)
    requires RoomInv(room)
    ensures var r := Start(room, requesterId, shuffledPool);
      r.Ok? ==>
        && RoomInv(r.value) && CreatorIds(r.value) == CreatorIds(room)
        && (forall i :: 0 <= i < |r.value.players| ==> r.value.players[i].score == 0 && !r.value.players[i].isReady)
        && |r.value.players| >= MIN_PLAYERS
  {
  }

  // ---- submitAnswer ----

  /** `submitAnswer` on a room that exists: refused unless a game is being played and the id is
      a player (spectators are refused); otherwise the raw answer is recorded, replacing any
      earlier one. */
  function Submit(room: Room, id: string, answer: string): (r: Result<Room>)
    ensures r == Err(GameNotInProgress) <==> room.state != Playing
    ensures r == Err(PlayerNotFound) <==> room.state == Playing && id !in Ids(room.players)
    ensures r.Ok? <==> room.state == Playing && id in Ids(room.players)
    ensures r.Ok? ==>
      && r.value.currentAnswers == room.currentAnswers[id := answer]
      && r.value.(currentAnswers := room.currentAnswers) == room
  {
    if room.state != Playing then Err(GameNotInProgress)
    else if IndexById(room.players, id) < 0 then Err(PlayerNotFound)
    else Ok(room.(currentAnswers := room.currentAnswers[id := answer]))
  }

  /** `allAnswered`: every connected player has an entry for this round. */
  predicate AllAnswered(room: Room) {
    AllConnectedAnswered(room.players, room.currentAnswers)
  }

  /** With no connected player the round counts as fully answered; a connected player who has
      not answered holds it open. */
  lemma AllAnsweredCases(room: Room)
    ensures (forall i :: 0 <= i < |room.players| ==> !room.players[i].isConnected) ==> AllAnswered(room)
    ensures (exists i :: 0 <= i < |room.players| && room.players[i].isConnected
                         && room.players[i].id !in room.currentAnswers) ==> !AllAnswered(room)
  {
  }

  /** Submitting keeps the invariant and the roster; answering again overwrites. */
  lemma {:induction false} SubmitFacts(room: Room, id: string, a1: string, a2: string)
    ensures Submit(room, id, a1).Ok? ==>
      && (RoomInv(Submit(room, id, a1).value) <==> RoomInv(room))
      && Submit(Submit(room, id, a1).value, id, a2) == Submit(room, id, a2)
  {
    var r := Submit(room, id, a1);
    if r.Ok? {
      assert r.value.currentAnswers[id := a2] == room.currentAnswers[id := a2];
    }
  }

  // ---- calculateRoundResults ----

  /** What `calculateRoundResults` reports besides the room. `word` is `None` when
      `currentWordIndex` is past the end of `words` (the source reads `undefined` there). */
  datatype RoundResult = RoundResult(room: Room, matched: bool, word: Option<string>)

  /** `calculateRoundResults` on a room that exists. */
  function ScoreRound(room: Room): (r: RoundResult)
    ensures r.matched <==> IsMatch(room.currentAnswers)
    ensures r.word == if room.currentWordIndex < |room.words| then Some(room.words[room.currentWordIndex]) else None
    ensures r.room.(players := room.players) == room
    ensures r.matched ==> r.room.players == Scored(room.players, room.currentAnswers)
    ensures !r.matched ==> r.room == room
  {
    var matched := IsMatch(room.currentAnswers);
    var word := if room.currentWordIndex < |room.words| then Some(room.words[room.currentWordIndex]) else None;
    if matched then RoundResult(room.(players := Scored(room.players, room.currentAnswers)), true, word)
    else RoundResult(room, false, word)
  }

  /** On a match every player with a non-empty answer gains exactly one point and no other
      score moves; without a match no score moves. */
  lemma {:induction false} ScoreRoundScores(room: Room)
    ensures var r := ScoreRound(room);
      && |r.room.players| == |room.players|
      && (forall i :: 0 <= i < |room.players| ==>
            r.room.players[i].score ==
              if r.matched && HasTruthyAnswer(room.currentAnswers, room.players[i].id)
              then room.players[i].score + 1 else room.players[i].score)
  {
  }

  /** Awarding points keeps the invariant and the creator. */
  lemma ScoringKeepsInvariant(room: Room, answers: map<string, string>)
    ensures RoomInv(room.(players := Scored(room.players, answers))) <==> RoomInv(room)
    ensures CreatorIds(room.(players := Scored(room.players, answers))) == CreatorIds(room)
  {
  }

  // ---- nextRound ----

  /** What `nextRound` reports besides the room. */
  datatype Advanced = Advanced(room: Room, gameOver: bool)

  /** `nextRound` on a room that exists (the state is not checked): the index moves on and the
      answers are cleared; once the index reaches the end of `words` the game is over, the room
      is ENDED and every player has to acknowledge again. */
  function Advance(room: Room): (a: Advanced)
    ensures a.room.currentWordIndex == room.currentWordIndex + 1
    ensures a.room.currentAnswers == map[]
    ensures a.gameOver <==> room.currentWordIndex + 1 >= |room.words|
    ensures a.gameOver ==> a.room.state == Ended && a.room.players == WithReadiness(room.players, false)
    ensures !a.gameOver ==> a.room.state == room.state && a.room.players == room.players
    ensures a.room.(currentWordIndex := room.currentWordIndex, currentAnswers := room.currentAnswers,
                    state := room.state, players := room.players) == room
  {
    var r := room.(currentWordIndex := room.currentWordIndex + 1, currentAnswers := map[]);
    if r.currentWordIndex >= |r.words| then
      Advanced(r.(state := Ended, players := WithReadiness(r.players, false)), true)
    else Advanced(r, false)
  }

  /** Advancing keeps the invariant and the creator. */
  lemma AdvanceKeepsInvariant(room: Room)
    ensures RoomInv(Advance(room).room) <==> RoomInv(room)
    ensures CreatorIds(Advance(room).room) == CreatorIds(room)
  {
  }

  /** From the last word, `nextRound` ends the game with nobody ready. */
  lemma LastRoundEndsGame(room: Room)
    requires |room.words| > 0 && room.currentWordIndex == |room.words| - 1
    ensures Advance(room).gameOver && Advance(room).room.state == Ended
    ensures forall i :: 0 <= i < |Advance(room).room.players| ==> !Advance(room).room.players[i].isReady
  {
  }

  // ---- checkAndSwitchToLobby ----

  /** `checkAndSwitchToLobby` on a room that exists: nothing unless the game has ENDED and every
      player is ready; then back to the lobby with words and answers cleared, the spectators
      appended to the players in order, and everyone ready. */
  function BackToLobby(room: Room): (r: Room)
    ensures !(room.state == Ended && AllReady(room.players)) ==> r == room
    ensures room.state == Ended && AllReady(room.players) ==>
      && r.state == Lobby && r.words == [] && r.currentWordIndex == 0 && r.currentAnswers == map[]
      && r.players == WithReadiness(room.players + room.spectators, true)
      && r.spectators == []
      && r.(state := room.state, words := room.words, currentWordIndex := room.currentWordIndex,
            currentAnswers := room.currentAnswers, players := room.players,
            spectators := room.spectators) == room
  {
    if room.state == Ended && AllReady(room.players) then
      room.(state := Lobby, words := [], currentWordIndex := 0, currentAnswers := map[],
            players := WithReadiness(room.players + room.spectators, true), spectators := [])
    else room
  }

  /** The merge keeps every member, makes every spectator a player, keeps the invariant and
      the creator. */
  lemma {:induction false} BackToLobbyKeepsInvariant(room: Room)
    requires RoomInv(room)
    ensures var r := BackToLobby(room);
      && RoomInv(r) && CreatorIds(r) == CreatorIds(room)
      && (forall x :: IsMember(r, x) <==> IsMember(room, x))
      && (room.state == Ended && AllReady(room.players) ==> Ids(r.players) == Ids(room.players) + Ids(room.spectators))
  {
    var r := BackToLobby(room);
    if room.state == Ended && AllReady(room.players) {
      var all := room.players + room.spectators;
      UniqueConcat(room.players, room.spectators);
      assert SameIdentities(all, r.players);
      SameIdentitiesKeep(all, r.players);
      assert Ids(all) == Ids(room.players) + Ids(room.spectators);
      assert r.players + r.spectators == r.players;
      forall i, j | 0 <= i < j < |all| && all[i].isCreator ensures !all[j].isCreator {
        if j >= |room.players| {
          assert all[j] == room.spectators[j - |room.players|];
        } else {
          assert all[i] == room.players[i] && all[j] == room.players[j];
        }
      }
    }
  }

  /** The merge is not bounded by the cap: spectators were never counted when they joined, so a
      room at nine players with two spectators comes back to the lobby with eleven players. */
  lemma MergeCanExceedCapacity(room: Room)
    requires room.state == Ended && AllReady(room.players)
    requires |room.players| == MAX_PLAYERS - 1 && |room.spectators| == 2
    ensures !WithinCapacity(BackToLobby(room))
  {
  }
}
