/** The `GameService` class of server/src/game/game.service.ts: a table of rooms keyed by room
    id, changed in place by each operation. The JavaScript `Map` is a `map` plus the order its
    keys were inserted in, which the scans of `reconnectPlayer`, `disconnectPlayer` and
    `cleanupInactiveRooms` follow. The room id, a generated player id, the shuffled word pool and
    the clock reading are parameters of the operations that draw them. */
module Service {
  import opened GameInterfaces
  import opened GameConfig
  import opened Roster
  import opened RoomLogic
  import AnswerMatch

  /** No key is listed twice. */
  predicate NoDup(keys: seq<string>) {
    forall i, j :: 0 <= i < j < |keys| ==> keys[i] != keys[j]
  }

  /** The table is consistent: `order` lists each stored key once, every room is stored under
      its own id and keeps the room invariant. */
  ghost predicate Registered(rooms: map<string, Room>, order: seq<string>) {
    && NoDup(order)
    && (forall k :: k in rooms <==> k in order)
    && (forall k :: k in rooms ==> rooms[k].id == k && RoomInv(rooms[k]))
  }

  /** Position in `order` of the first room holding `id` as a player or spectator, or -1: the
      room `reconnectPlayer` finds. */
  function RoomWithMember(rooms: map<string, Room>, order: seq<string>, id: string): (k: int)
    ensures -1 <= k < |order|
    ensures k >= 0 ==> order[k] in rooms && IsMember(rooms[order[k]], id)
    ensures forall j :: 0 <= j < |order| && (k < 0 || j < k) ==>
      !(order[j] in rooms && IsMember(rooms[order[j]], id))
  {
    if |order| == 0 then -1
    else if order[0] in rooms && IsMember(rooms[order[0]], id) then 0
    else
      var k := RoomWithMember(rooms, order[1..], id);
      if k < 0 then -1 else k + 1
  }

  /** Position in `order` of the first room where some record uses `socketId`, or -1: the room
      `disconnectPlayer` finds. */
  function RoomWithSocket(rooms: map<string, Room>, order: seq<string>, socketId: string): (k: int)
    ensures -1 <= k < |order|
    ensures k >= 0 ==> order[k] in rooms && HasSocket(rooms[order[k]], socketId)
    ensures forall j :: 0 <= j < |order| && (k < 0 || j < k) ==>
      !(order[j] in rooms && HasSocket(rooms[order[j]], socketId))
  {
    if |order| == 0 then -1
    else if order[0] in rooms && HasSocket(rooms[order[0]], socketId) then 0
    else
      var k := RoomWithSocket(rooms, order[1..], socketId);
      if k < 0 then -1 else k + 1
  }

  /** `order` after `Map.delete(key)`. */
  function Erase(order: seq<string>, key: string): (o: seq<string>)
    ensures forall x :: x in o <==> x in order && x != key
    ensures NoDup(order) ==> NoDup(o)
  {
    if |order| == 0 then []
    else if order[0] == key then Erase(order[1..], key)
    else
      var rest := Erase(order[1..], key);
      var o := [order[0]] + rest;
      assert NoDup(order) ==> NoDup(order[1..]) && order[0] !in order[1..];
      assert forall j :: 0 < j < |o| ==> o[j] == rest[j - 1];
      o
  }

  /** The keys of `keys`, in order, whose rooms are stored and not stale at `now`: what the
      sweep leaves in the table's key order. */
  function LiveKeys(rooms: map<string, Room>, keys: seq<string>, now: int): (o: seq<string>)
    ensures forall x :: x in o <==> x in keys && x in rooms && !Stale(rooms[x], now)
    ensures NoDup(keys) ==> NoDup(o)
  {
    if |keys| == 0 then []
    else
      var last := keys[|keys| - 1];
      var rest := LiveKeys(rooms, keys[..|keys| - 1], now);
      assert forall x :: x in keys <==> x in keys[..|keys| - 1] || x == last;
      if last in rooms && !Stale(rooms[last], now) then rest + [last] else rest
  }

  /** `Erase` keeps the order of the surviving keys: it works key by key, so erasing from a
      concatenation is concatenating the erased parts. */
  lemma {:induction false} EraseKeepsOrder(a: seq<string>, b: seq<string>, key: string)
    ensures Erase(a + b, key) == Erase(a, key) + Erase(b, key)
    decreases |a|
  {
    if a == [] {
      assert a + b == b;
    } else {
      assert (a + b)[0] == a[0];
      assert (a + b)[1..] == a[1..] + b;
      EraseKeepsOrder(a[1..], b, key);
    }
  }

  /** A single key survives exactly when it is not the erased one. */
  lemma EraseOfOne(x: string, key: string)
    ensures Erase([x], key) == if x == key then [] else [x]
  {
    assert [x][1..] == [];
  }

  /** The sweep's key order works key by key as well: the live keys of a concatenation are the
      live keys of each part, in order. */
  lemma {:induction false} LiveKeysKeepOrder(rooms: map<string, Room>, a: seq<string>, b: seq<string>, now: int)
    ensures LiveKeys(rooms, a + b, now) == LiveKeys(rooms, a, now) + LiveKeys(rooms, b, now)
    decreases |b|
  {
    if b == [] {
      assert a + b == a;
    } else {
      var ab := a + b;
      var init := b[..|b| - 1];
      var last := b[|b| - 1];
      assert ab[|ab| - 1] == last;
      assert ab[..|ab| - 1] == a + init;
      LiveKeysKeepOrder(rooms, a, init, now);
      var keep := last in rooms && !Stale(rooms[last], now);
      assert LiveKeys(rooms, ab, now) == LiveKeys(rooms, a + init, now) + (if keep then [last] else []);
      assert LiveKeys(rooms, b, now) == LiveKeys(rooms, init, now) + (if keep then [last] else []);
    }
  }

  /** A single key is kept exactly when its room is stored and not stale. */
  lemma LiveKeysOfOne(rooms: map<string, Room>, x: string, now: int)
    ensures LiveKeys(rooms, [x], now) == if x in rooms && !Stale(rooms[x], now) then [x] else []
  {
    assert [x][..0] == [];
  }

  /** The table after the sweep at `now`: every stale room gone, every other room unchanged. */
  function Sweep(rooms: map<string, Room>, now: int): (r: map<string, Room>)
    ensures forall k :: k in r <==> k in rooms && !Stale(rooms[k], now)
    ensures forall k :: k in r ==> r[k] == rooms[k]
  {
    map k | k in rooms && !Stale(rooms[k], now) :: rooms[k]
  }

  /** One more key of the scan: the live keys of the first `i + 1` keys are those of the first
      `i`, followed by key `i` when its room is stored and not stale. */
  lemma LiveKeysStep(rooms: map<string, Room>, keys: seq<string>, i: nat, now: int)
    requires i < |keys|
    ensures LiveKeys(rooms, keys[..i + 1], now) == LiveKeys(rooms, keys[..i], now)
      + (if keys[i] in rooms && !Stale(rooms[keys[i]], now) then [keys[i]] else [])
  {
    var prefix := keys[..i + 1];
    assert prefix[..|prefix| - 1] == keys[..i];
    assert prefix[|prefix| - 1] == keys[i];
  }

  /** The table part-way through the sweep: the rooms under the keys already visited that were
      stale are gone, every other room is unchanged. */
  function SweepUpTo(rooms: map<string, Room>, visited: seq<string>, now: int): (r: map<string, Room>)
    ensures forall k :: k in r <==> k in rooms && !(k in visited && Stale(rooms[k], now))
    ensures forall k :: k in r ==> r[k] == rooms[k]
  {
    map k | k in rooms && !(k in visited && Stale(rooms[k], now)) :: rooms[k]
  }

  /** Visiting key `i` of a duplicate-free scan: that room is still present and unchanged, and it
      is removed exactly when it is stale. */
  lemma SweepUpToStep(rooms: map<string, Room>, keys: seq<string>, i: nat, now: int)
    requires i < |keys| && NoDup(keys) && keys[i] in rooms
    ensures keys[i] in SweepUpTo(rooms, keys[..i], now)
    ensures SweepUpTo(rooms, keys[..i + 1], now)
      == if Stale(rooms[keys[i]], now) then SweepUpTo(rooms, keys[..i], now) - {keys[i]}
         else SweepUpTo(rooms, keys[..i], now)
  {
    var key := keys[i];
    assert keys[..i + 1] == keys[..i] + [key];
    assert key !in keys[..i] by {
      forall j | 0 <= j < i ensures keys[..i][j] != key {
        assert keys[..i][j] == keys[j];
      }
    }
  }

  /** Once every stored key has been visited, the partial sweep is the sweep. */
  lemma SweepUpToAll(rooms: map<string, Room>, order: seq<string>, now: int)
    requires Registered(rooms, order)
    ensures SweepUpTo(rooms, order, now) == Sweep(rooms, now)
  {
  }

  /** The sweep keeps the table consistent: the surviving keys list exactly the surviving rooms. */
  lemma SweepKeepsRegistered(rooms: map<string, Room>, order: seq<string>, now: int)
    requires Registered(rooms, order)
    ensures Registered(Sweep(rooms, now), LiveKeys(rooms, order, now))
  {
  }

  /** Storing a room that keeps the invariant under its own, already present id keeps the table
      consistent. */
  lemma StoreKeepsRegistered(rooms: map<string, Room>, order: seq<string>, key: string, room: Room)
    requires Registered(rooms, order) && key in rooms
    requires room.id == key && RoomInv(room)
    ensures Registered(rooms[key := room], order)
  {
  }

  /** What `disconnectPlayer` reports. */
  datatype Disconnection = Disconnection(roomId: string, playerId: string)

  /** What `kickPlayer` reports. */
  datatype Kicked = Kicked(room: Room, kickedPlayerId: string)

  /** What `submitAnswer` reports. */
  datatype Submitted = Submitted(room: Room, allAnswered: bool)

  class GameService {
    /** The rooms, by room id. */
    var rooms: map<string, Room>
    /** The keys of `rooms` in insertion order. */
    var order: seq<string>

    ghost predicate Valid()
      reads this
    {
      Registered(rooms, order)
    }

    /** An empty table. The periodic sweep the source schedules here is `CleanupInactiveRooms`,
        called with the time of the tick. */
    constructor ()
      ensures Valid() && rooms == map[] && order == []
    {
      rooms := map[];
      order := [];
    }

    /** `createRoom`: a new lobby room with the caller as its only player and creator, stored
        under `roomId`. `freshId` stands for the generated player id, used when `playerId` is
        absent or empty. An existing room under the same id is replaced and keeps its place. */
    method CreateRoom(creatorName: string, creatorSocketId: string, language: Language,
                      playerId: Option<string>, roomId: string, freshId: string, now: int)
      returns (j: Joined)
      requires Valid()
      modifies this
      ensures Valid()
      ensures j == NewRoom(roomId, creatorName, creatorSocketId, language, ResolveId(playerId, freshId), now)
      ensures rooms == old(rooms)[roomId := j.room]
      ensures order == if roomId in old(rooms) then old(order) else old(order) + [roomId]
    {
      var id := ResolveId(playerId, freshId);
      j := NewRoom(roomId, creatorName, creatorSocketId, language, id, now);
      if roomId !in rooms {
        order := order + [roomId];
      }
      rooms := rooms[roomId := j.room];
    }

    /** `joinRoom`. The activity time is bumped before the capacity check, so a refused join
        still touches the room; the capacity check precedes the rejoin lookup. */
    method JoinRoom(roomId: string, playerName: string, socketId: string, playerId: Option<string>,
                    freshId: string, now: int)
      returns (r: Result<Joined>)
      requires Valid()
      modifies this
      ensures Valid() && order == old(order)
      ensures roomId !in old(rooms) ==> r == Err(RoomNotFound) && rooms == old(rooms)
      ensures roomId in old(rooms) ==>
        var touched := Touch(old(rooms)[roomId], now);
        if |touched.players| >= MAX_PLAYERS
        then r == Err(RoomFull) && rooms == old(rooms)[roomId := touched]
        else
          && r == Ok(Admit(touched, playerName, socketId, ResolveId(playerId, freshId)))
          && rooms == old(rooms)[roomId := r.value.room]
    {
      if roomId !in rooms {
        return Err(RoomNotFound);
      }
      var room := Touch(rooms[roomId], now);
      rooms := rooms[roomId := room];
      if |room.players| >= MAX_PLAYERS {
        return Err(RoomFull);
      }
      var id := ResolveId(playerId, freshId);
      AdmitKeepsInvariant(room, playerName, socketId, id);
      var joined := Admit(room, playerName, socketId, id);
      rooms := rooms[roomId := joined.room];
      r := Ok(joined);
    }

    /** `reconnectPlayer`: the rooms are scanned in insertion order; in the first room that
        holds `playerId` (players before spectators) the record takes the new connection. */
    method ReconnectPlayer(playerId: string, socketId: string, now: int) returns (r: Result<Joined>)
      requires Valid()
      modifies this
      ensures Valid() && order == old(order)
      ensures var k := RoomWithMember(old(rooms), old(order), playerId);
        if k < 0 then r == Err(PlayerNotFoundInAnyRoom) && rooms == old(rooms)
        else
          var j := Reconnect(old(rooms)[old(order)[k]], playerId, socketId);
          && r == Ok(Joined(Touch(j.room, now), j.player))
          && rooms == old(rooms)[old(order)[k] := Touch(j.room, now)]
    {
      var k := FindRoomWithMember(playerId);
      if k < 0 {
        return Err(PlayerNotFoundInAnyRoom);
      }
      var key := order[k];
      var room := rooms[key];
      var j := Reconnect(room, playerId, socketId);
      ConnectionChangesKeepInvariant(room, playerId, socketId);
      var stored := Touch(j.room, now);
      StoreKeepsRegistered(rooms, order, key, stored);
      rooms := rooms[key := stored];
      r := Ok(Joined(stored, j.player));
    }

    /** The scan of `reconnectPlayer`: rooms in insertion order, players before spectators. */
    method FindRoomWithMember(playerId: string) returns (k: int)
      requires Valid()
      ensures k == RoomWithMember(rooms, order, playerId)
    {
      k := 0;
      while k < |order|
        invariant 0 <= k <= |order|
        invariant forall j :: 0 <= j < k ==> !(order[j] in rooms && IsMember(rooms[order[j]], playerId))
      {
        var room := rooms[order[k]];
        var i := FindById(room.players, playerId);
        if i < 0 {
          i := FindById(room.spectators, playerId);
        }
        if i >= 0 {
          return;
        }
        k := k + 1;
      }
      k := -1;
    }

    /** `disconnectPlayer`: the rooms are scanned in insertion order; in the first room where a
        record (players before spectators) uses `socketId`, it is marked disconnected. */
    method DisconnectPlayer(socketId: string, now: int) returns (r: Option<Disconnection>)
      requires Valid()
      modifies this
      ensures Valid() && order == old(order)
      ensures var k := RoomWithSocket(old(rooms), old(order), socketId);
        if k < 0 then r == None && rooms == old(rooms)
        else
          var key := old(order)[k];
          var j := Disconnect(old(rooms)[key], socketId);
          && r == Some(Disconnection(key, j.player.id))
          && rooms == old(rooms)[key := Touch(j.room, now)]
    {
      var k := FindRoomWithSocket(socketId);
      if k < 0 {
        return None;
      }
      var key := order[k];
      var room := rooms[key];
      var j := Disconnect(room, socketId);
      ConnectionChangesKeepInvariant(room, "", socketId);
      var stored := Touch(j.room, now);
      StoreKeepsRegistered(rooms, order, key, stored);
      rooms := rooms[key := stored];
      r := Some(Disconnection(key, j.player.id));
    }

    /** The scan of `disconnectPlayer`: rooms in insertion order, players before spectators. */
    method FindRoomWithSocket(socketId: string) returns (k: int)
      requires Valid()
      ensures k == RoomWithSocket(rooms, order, socketId)
    {
      k := 0;
      while k < |order|
        invariant 0 <= k <= |order|
        invariant forall j :: 0 <= j < k ==> !(order[j] in rooms && HasSocket(rooms[order[j]], socketId))
      {
        var room := rooms[order[k]];
        var i := FindBySocket(room.players, socketId);
        if i < 0 {
          i := FindBySocket(room.spectators, socketId);
        }
        if i >= 0 {
          return;
        }
        k := k + 1;
      }
      k := -1;
    }

    /** `kickPlayer`: only the creator may kick; the target id is filtered out of both lists. */
    method KickPlayer(roomId: string, requesterId: string, targetPlayerId: string, now: int)
      returns (r: Result<Kicked>)
      requires Valid()
      modifies this
      ensures Valid() && order == old(order)
      ensures roomId !in old(rooms) ==> r == Err(RoomNotFound) && rooms == old(rooms)
      ensures roomId in old(rooms) ==>
        if !IsCreatorRequest(old(rooms)[roomId], requesterId)
        then r == Err(KickForbidden) && rooms == old(rooms)
        else
          && r == Ok(Kicked(Touch(Kick(old(rooms)[roomId], targetPlayerId), now), targetPlayerId))
          && rooms == old(rooms)[roomId := r.value.room]
    {
      if roomId !in rooms {
        return Err(RoomNotFound);
      }
      var room := rooms[roomId];
      var i := FindById(room.players, requesterId);
      if i < 0 || !room.players[i].isCreator {
        return Err(KickForbidden);
      }
      var players := FilterOut(room.players, targetPlayerId);
      var spectators := FilterOut(room.spectators, targetPlayerId);
      KickKeepsInvariant(room, targetPlayerId);
      var kicked := Touch(room.(players := players, spectators := spectators), now);
      assert kicked == Touch(Kick(room, targetPlayerId), now);
      rooms := rooms[roomId := kicked];
      r := Ok(Kicked(kicked, targetPlayerId));
    }

    /** `leaveRoom`: the creator leaving deletes the room (`Ok(None)`, reported as destroyed);
        anyone else is spliced out of their list. */
    method LeaveRoom(roomId: string, playerId: string, now: int) returns (r: Result<Option<Room>>)
      requires Valid()
      modifies this
      ensures Valid()
      ensures roomId !in old(rooms) ==> r == Err(RoomNotFound) && rooms == old(rooms) && order == old(order)
      ensures roomId in old(rooms) ==>
        var d := Depart(old(rooms)[roomId], playerId);
        && (d.Err? ==> r == d && rooms == old(rooms) && order == old(order))
        && (d == Ok(None) ==> r == d && rooms == old(rooms) - {roomId} && order == Erase(old(order), roomId))
        && (d.Ok? && d.value.Some? ==>
              && r == Ok(Some(Touch(d.value.value, now)))
              && rooms == old(rooms)[roomId := Touch(d.value.value, now)]
              && order == old(order))
    {
      if roomId !in rooms {
        return Err(RoomNotFound);
      }
      var room := rooms[roomId];
      var d := Depart(room, playerId);
      DepartKeepsInvariant(room, playerId);
      if d.Err? {
        return d;
      }
      if d.value.None? {
        rooms := rooms - {roomId};
        order := Erase(order, roomId);
        return d;
      }
      var left := Touch(d.value.value, now);
      rooms := rooms[roomId := left];
      r := Ok(Some(left));
    }

    /** `playerReady`: the caller's player record becomes ready; the room is touched either way. */
    method PlayerReady(roomId: string, playerId: string, now: int) returns (r: Result<Room>)
      requires Valid()
      modifies this
      ensures Valid() && order == old(order)
      ensures roomId !in old(rooms) ==> r == Err(RoomNotFound) && rooms == old(rooms)
      ensures roomId in old(rooms) ==>
        && r == Ok(Touch(MarkReady(old(rooms)[roomId], playerId), now))
        && rooms == old(rooms)[roomId := r.value]
    {
      if roomId !in rooms {
        return Err(RoomNotFound);
      }
      var room := rooms[roomId];
      var ready := MarkReady(room, playerId);
      SameRosterKeeps(room, ready);
      ready := Touch(ready, now);
      rooms := rooms[roomId := ready];
      r := Ok(ready);
    }

    /** `startGame`: `shuffledPool` is the room language's word pool in the order the random
        sort left it. A refused start changes nothing. */
    method StartGame(roomId: string, requesterId: string, shuffledPool: seq<string>, now: int)
      returns (r: Result<Room>)
      requires Valid()
      modifies this
      ensures Valid() && order == old(order)
      ensures roomId !in old(rooms) ==> r == Err(RoomNotFound) && rooms == old(rooms)
      ensures roomId in old(rooms) ==>
        var s := Start(old(rooms)[roomId], requesterId, shuffledPool);
        if s.Err? then r == s && rooms == old(rooms)
        else r == Ok(Touch(s.value, now)) && rooms == old(rooms)[roomId := r.value]
    {
      if roomId !in rooms {
        return Err(RoomNotFound);
      }
      var room := rooms[roomId];
      var i := FindById(room.players, requesterId);
      if i < 0 || !room.players[i].isCreator {
        return Err(StartForbidden);
      }
      if |room.players| < MIN_PLAYERS {
        return Err(NotEnoughPlayers);
      }
      var ready := EveryReady(room.players);
      if !ready {
        return Err(PlayersNotReady);
      }
      var n := if |shuffledPool| < WORDS_PER_GAME then |shuffledPool| else WORDS_PER_GAME;
      var players := ResetEach(room.players);
      ghost var s := Start(room, requesterId, shuffledPool);
      StartKeepsInvariant(room, requesterId, shuffledPool);
      assert s.Ok?;
      var started := room.(state := Playing, words := shuffledPool[..n], currentWordIndex := 0,
                           currentAnswers := map[], players := players);
      assert started == s.value;
      started := Touch(started, now);
      StoreKeepsRegistered(rooms, order, roomId, started);
      rooms := rooms[roomId := started];
      r := Ok(started);
    }

    /** `submitAnswer`: records the raw answer and reports whether every connected player has
        now answered. */
    method SubmitAnswer(roomId: string, playerId: string, answer: string, now: int)
      returns (r: Result<Submitted>)
      requires Valid()
      modifies this
      ensures Valid() && order == old(order)
      ensures roomId !in old(rooms) ==> r == Err(RoomNotFound) && rooms == old(rooms)
      ensures roomId in old(rooms) ==>
        var s := Submit(old(rooms)[roomId], playerId, answer);
        if s.Err? then r == Err(s.error) && rooms == old(rooms)
        else
          && r == Ok(Submitted(Touch(s.value, now), AllAnswered(s.value)))
          && rooms == old(rooms)[roomId := r.value.room]
    {
      if roomId !in rooms {
        return Err(RoomNotFound);
      }
      var room := rooms[roomId];
      if room.state != Playing {
        return Err(GameNotInProgress);
      }
      var i := FindById(room.players, playerId);
      if i < 0 {
        return Err(PlayerNotFound);
      }
      var answered := Touch(room.(currentAnswers := room.currentAnswers[playerId := answer]), now);
      rooms := rooms[roomId := answered];
      var all := EveryConnectedAnswered(answered.players, answered.currentAnswers);
      r := Ok(Submitted(answered, all));
    }

    /** `calculateRoundResults`: scores the round; the activity time is not bumped. */
    method CalculateRoundResults(roomId: string) returns (r: Result<RoundResult>)
      requires Valid()
      modifies this
      ensures Valid() && order == old(order)
      ensures roomId !in old(rooms) ==> r == Err(RoomNotFound) && rooms == old(rooms)
      ensures roomId in old(rooms) ==>
        r == Ok(ScoreRound(old(rooms)[roomId])) && rooms == old(rooms)[roomId := r.value.room]
    {
      if roomId !in rooms {
        return Err(RoomNotFound);
      }
      var room := rooms[roomId];
      ghost var sr := ScoreRound(room);
      ScoringKeepsInvariant(room, room.currentAnswers);
      var matched := AnswerMatch.IsMatch(room.currentAnswers);
      var word := if room.currentWordIndex < |room.words| then Some(room.words[room.currentWordIndex]) else None;
      if matched {
        var players := AwardEach(room.players, room.currentAnswers);
        room := room.(players := players);
      }
      assert room == sr.room && matched == sr.matched && word == sr.word;
      StoreKeepsRegistered(rooms, order, roomId, room);
      rooms := rooms[roomId := room];
      r := Ok(RoundResult(room, matched, word));
    }

    /** `nextRound`: moves to the next word; past the last one the game ends. */
    method NextRound(roomId: string, now: int) returns (r: Result<Advanced>)
      requires Valid()
      modifies this
      ensures Valid() && order == old(order)
      ensures roomId !in old(rooms) ==> r == Err(RoomNotFound) && rooms == old(rooms)
      ensures roomId in old(rooms) ==>
        var a := Advance(old(rooms)[roomId]);
        && r == Ok(Advanced(Touch(a.room, now), a.gameOver))
        && rooms == old(rooms)[roomId := r.value.room]
    {
      if roomId !in rooms {
        return Err(RoomNotFound);
      }
      var room := rooms[roomId];
      AdvanceKeepsInvariant(room);
      room := Touch(room.(currentWordIndex := room.currentWordIndex + 1, currentAnswers := map[]), now);
      if room.currentWordIndex >= |room.words| {
        var players := SetEachReadiness(room.players, false);
        room := room.(state := Ended, players := players);
        rooms := rooms[roomId := room];
        return Ok(Advanced(room, true));
      }
      rooms := rooms[roomId := room];
      r := Ok(Advanced(room, false));
    }

    /** `checkAndSwitchToLobby`: once the game has ended and every player is ready, the room
        returns to the lobby with the spectators merged in; the activity time is not bumped. */
    method CheckAndSwitchToLobby(roomId: string) returns (r: Result<Room>)
      requires Valid()
      modifies this
      ensures Valid() && order == old(order)
      ensures roomId !in old(rooms) ==> r == Err(RoomNotFound) && rooms == old(rooms)
      ensures roomId in old(rooms) ==>
        r == Ok(BackToLobby(old(rooms)[roomId])) && rooms == old(rooms)[roomId := r.value]
    {
      if roomId !in rooms {
        return Err(RoomNotFound);
      }
      var room := rooms[roomId];
      BackToLobbyKeepsInvariant(room);
      var allReady := EveryReady(room.players);
      if allReady && room.state == Ended {
        var players := SetEachReadiness(room.players + room.spectators, true);
        room := room.(state := Lobby, words := [], currentWordIndex := 0, currentAnswers := map[],
                      players := players, spectators := []);
        rooms := rooms[roomId := room];
      }
      r := Ok(room);
    }

    /** `getRoom`: the stored room, if any. */
    function GetRoom(roomId: string): (r: Option<Room>)
      reads this
      ensures r.None? <==> roomId !in rooms
      ensures r.Some? ==> r.value == rooms[roomId]
    {
      if roomId in rooms then Some(rooms[roomId]) else None
    }

    /** `cleanupInactiveRooms` at time `now`: every room idle for longer than the timeout is
        deleted; the others keep their contents and their order. */
    method CleanupInactiveRooms(now: int)
      requires Valid()
      modifies this
      ensures Valid()
      ensures rooms == Sweep(old(rooms), now)
      ensures order == LiveKeys(old(rooms), old(order), now)
    {
      var keys := order;
      var kept: seq<string> := [];
      var i := 0;
      while i < |keys|
        invariant 0 <= i <= |keys| && keys == old(order)
        invariant kept == LiveKeys(old(rooms), keys[..i], now)
        invariant rooms == SweepUpTo(old(rooms), keys[..i], now)
      {
        var key := keys[i];
        SweepUpToStep(old(rooms), keys, i, now);
        LiveKeysStep(old(rooms), keys, i, now);
        if now - rooms[key].lastActivity > ROOM_INACTIVITY_TIMEOUT {
          rooms := rooms - {key};
        } else {
          kept := kept + [key];
        }
        i := i + 1;
      }
      assert keys[..|keys|] == keys;
      SweepUpToAll(old(rooms), old(order), now);
      SweepKeepsRegistered(old(rooms), old(order), now);
      order := kept;
    }
  }
}
