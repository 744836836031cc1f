# Chemistry game: the room and game state machine

This project models the server-side `GameService` of the chemistry word game. The service keeps
a table of rooms. In each room, players try to type the same answer for a given word. The service
has four groups of operations:

- Membership: create a room, join (or rejoin), reconnect by persistent player id, mark a
  connection as dropped, kick, and leave. When the creator leaves, the room is deleted.
- Game lifecycle: LOBBY → PLAYING → ENDED → LOBBY. This covers start, answer submission, round
  scoring, moving to the next word, and the return to the lobby once every player is ready.
- The match test: answers are trimmed and lower-cased, then checked for unanimity.
- The periodic sweep of inactive rooms.

The project has seven modules, one per file:

| file | module | what it holds |
|---|---|---|
| `config.dfy` | `GameConfig` | The game constants. |
| `interfaces.dfy` | `GameInterfaces` | The `Player` and `Room` records, the game states, the errors the service throws (with their messages), and the `Option` and `Result` wrappers. A thrown error becomes `Err`. |
| `answer_match.dfy` | `AnswerMatch` | The answer normalisation and the match test. |
| `roster.dfy` | `Roster` | Operations on one room's ordered list of player records, as specification functions. Each `find`, `filter`, `every` and `forEach` loop the service runs also appears as a loop method, proved equal to its function. |
| `room_logic.dfy` | `RoomLogic` | What each operation does to one room, as a function of the room before it. Next to each sits the lemma that it preserves the room invariant: ids are unique across players and spectators, at most one creator, and no spectator is a creator. |
| `scenarios.dfy` | `Scenarios` | The operation sequences of the unit tests and the socket gateway, replayed on the room-level model. |
| `service.dfy` | `Service` | The `GameService` class. Its `rooms` map and the map's key insertion order are updated in place by one method per operation. Each method's `ensures` ties the new table to the `RoomLogic` function and keeps `Valid()`. |

Nondeterministic inputs become parameters:

- the room id that `generateRoomId` draws;
- the player id that `uuidv4` generates (`freshId`);
- the word pool as the random sort leaves it (`shuffledPool`);
- the clock reading (`now`).

## Model

| member | source | states |
|---|---|---|
| AnswerMatch.TrimStart | server/src/game/game.service.ts:259 | The result is no longer than the input; every removed leading character is JS whitespace or a line terminator; the result does not start with one. |
| AnswerMatch.TrimStartIsSuffix | server/src/game/game.service.ts:259 | What the leading trim keeps is a suffix of the input. |
| AnswerMatch.TrimEnd | server/src/game/game.service.ts:259 | The result is no longer than the input; every removed trailing character is trimmable; the result does not end with one. |
| AnswerMatch.TrimEndIsPrefix | server/src/game/game.service.ts:259 | What the trailing trim keeps is a prefix of the input. |
| AnswerMatch.Trim | server/src/game/game.service.ts:259 | A trimmed answer neither starts nor ends with a trimmable character. |
| AnswerMatch.TrimIsStretch | server/src/game/game.service.ts:259 | `trim()` keeps one contiguous stretch `s[a..b]` of the answer, and every character outside it is trimmable. Together with `Trim`'s own contract this fixes the result. |
| AnswerMatch.TrimStartDropsPadding | server/src/game/game.service.ts:259 | Leading trimmable characters in front of a string that does not start with one are exactly what the leading trim removes. |
| AnswerMatch.TrimEndDropsPadding | server/src/game/game.service.ts:259 | Trailing trimmable characters behind a string that does not end with one are exactly what the trailing trim removes. |
| AnswerMatch.TrimDropsPadding | server/src/game/game.service.ts:259 | Trimming a trimmed string wrapped in trimmable padding gives back that string. |
| AnswerMatch.ToLower | server/src/game/game.service.ts:259 | Length is kept; no upper-case ASCII letter remains; each upper-case ASCII letter becomes the letter 32 code points above it; every other character is kept. |
| AnswerMatch.NormalizeForm | server/src/game/game.service.ts:259 | The normal form `Normalize` (`trim().toLowerCase()`) is no longer than the answer, has no trimmable character at either end and no upper-case ASCII letter. |
| AnswerMatch.NormalizeTrimmed | server/src/game/game.service.ts:259 | For an answer without padding, the normal form is the lower-cased answer. |
| AnswerMatch.NormalizeIgnoresCaseAndPadding | server/src/game/game.service.ts:258-262 | Two answers that differ only in the case of ASCII letters and in trimmable padding around them have the same normal form. |
| AnswerMatch.CaseAndPaddingVariantsMatch | server/src/game/game.service.ts:258-262 | Hence two players whose answers differ only in ASCII case and padding score the round. |
| AnswerMatch.TrimKeepsTrimmed | server/src/game/game.service.ts:259 | Trimming an already trimmed string changes nothing. |
| AnswerMatch.NormalizeIdempotent | server/src/game/game.service.ts:259 | `trim().toLowerCase()` applied twice equals applied once. |
| AnswerMatch.NormalizedAnswers | server/src/game/game.service.ts:258-259 | One normalised answer for each player who answered, and no others; each entry is the normal form of that player's answer. |
| AnswerMatch.IsMatch | server/src/game/game.service.ts:260-262 | The match test as written (`new Set(normalised).size === 1 && normalised.length > 0`); its contract: a match needs at least one answer. Its meaning is stated by `MatchIsUnanimity`. |
| AnswerMatch.OneValueIsUnanimous | server/src/game/game.service.ts:260-262 | A non-empty map has exactly one distinct value if and only if all its values agree. |
| AnswerMatch.MatchIsUnanimity | server/src/game/game.service.ts:258-262 | A round matches if and only if at least one answer exists and every two answers are equal once normalised. |
| AnswerMatch.NoAnswersNoMatch | server/src/game/game.service.ts:262 | A round with no answers never matches. |
| AnswerMatch.PairValues | server/src/game/game.service.ts:260 | A map with exactly two keys has one distinct value exactly when the two entries agree. |
| AnswerMatch.TwoAnswersMatch | server/src/game/game.service.ts:258-262 | With exactly two answers, the round matches exactly when their normal forms are equal. |
| AnswerMatch.PairMatch | server/src/game/game.service.ts:258-262 | Two players' answers match exactly when their normal forms are equal. |
| AnswerMatch.NormalizeApple | server/src/game/game.service.spec.ts:464 | "Apple" normalises to "apple". |
| AnswerMatch.NormalizeLowerApple | server/src/game/game.service.spec.ts:465 | "apple" normalises to itself. |
| AnswerMatch.NormalizePaddedApple | server/src/game/game.service.ts:259 | " apple " normalises to "apple": surrounding spaces are dropped. |
| AnswerMatch.NormalizeOrange | server/src/game/game.service.spec.ts:486 | "Orange" normalises to "orange". |
| AnswerMatch.CaseInsensitiveMatch | server/src/game/game.service.spec.ts:451-491 | "Apple" matches "apple" and " apple "; "Apple" does not match "Orange". |
| Roster.IndexById | server/src/game/game.service.ts:154 | `findIndex` by id: the first position holding the id, or -1 exactly when the id is absent. |
| Roster.IndexBySocket | server/src/game/game.service.ts:116 | The first position whose record uses the connection, or -1 when none does. |
| Roster.Without | server/src/game/game.service.ts:143-144 | `filter(p => p.id !== id)`: the records kept are exactly those of the input with another id, and the list does not grow. |
| Roster.WithoutKeepsOrder | server/src/game/game.service.ts:143-144 | `filter` works record by record: filtering `a + b` is filtering `a` followed by filtering `b`, so the kept records keep their order. |
| Roster.WithoutSnoc | server/src/game/game.service.ts:143-144 | A record appended at the end is kept, at the end, exactly when it has another id. |
| Roster.WithoutOfOne | server/src/game/game.service.ts:143-144 | A single record is kept exactly when it has another id. |
| Roster.WithoutIds | server/src/game/game.service.ts:143-144 | After the filter, the ids are the old ids minus the target. |
| Roster.WithoutAbsent | server/src/game/game.service.ts:143-144 | Filtering an absent id changes nothing. |
| Roster.WithoutUnique | server/src/game/game.service.ts:143-144 | The filter keeps ids unique and removes exactly one record when the id was present. |
| Roster.RemoveAt | server/src/game/game.service.ts:164 | `splice(i, 1)`: one record fewer, every other record kept in order; with unique ids, only that record's id disappears. |
| Roster.ResetForGame | server/src/game/game.service.ts:228-231 | Every record gets score 0 and becomes not ready; nothing else changes. |
| Roster.WithReadiness | server/src/game/game.service.ts:289 | Every record's readiness is set; nothing else changes. |
| Roster.Scored | server/src/game/game.service.ts:268-272 | Each record with a non-empty answer gains exactly 1; every other record is unchanged. |
| Roster.SameIdentitiesKeep | server/src/game/game.service.ts:65-67 | Changing only connection, name, score or readiness keeps ids, creators, uniqueness and the single-creator rule. |
| Roster.UniqueConcat | server/src/game/game.service.ts:333 | `players ++ spectators` has unique ids if and only if each list does and they share no id. |
| Roster.FindById | server/src/game/game.service.ts:62 | The `find` loop returns the position `IndexById` specifies. |
| Roster.FindBySocket | server/src/game/game.service.ts:116 | The connection `find` loop returns the position `IndexBySocket` specifies. |
| Roster.FilterOut | server/src/game/game.service.ts:143 | The `filter` loop builds exactly `Without`. |
| Roster.EveryReady | server/src/game/game.service.ts:215-216 | The readiness loop answers true if and only if every player is ready. |
| Roster.EveryConnectedAnswered | server/src/game/game.service.ts:248-249 | The loop answers true if and only if every connected player has an answer entry. |
| Roster.ResetEach | server/src/game/game.service.ts:228-231 | The `forEach` reset builds exactly `ResetForGame`. |
| Roster.SetEachReadiness | server/src/game/game.service.ts:336 | The `forEach` readiness loop builds exactly `WithReadiness`. |
| Roster.AwardEach | server/src/game/game.service.ts:268-272 | The `forEach` award loop builds exactly `Scored`. |
| RoomLogic.RoomInv | server/src/game/game.service.ts:55-86 | The room invariant the operations keep (ids unique across players and spectators, at most one creator, no spectator creator); a predicate, so its consequences are stated by `InvariantMeansOneCreator` and the `...KeepsInvariant` lemmas. |
| RoomLogic.InvariantMeansOneCreator | server/src/game/game.service.ts:71-79 | Under the room invariant, ids are unique across `players ++ spectators`, the room has at most one creator, and that creator is a player. |
| RoomLogic.SameRosterKeeps | server/src/game/game.service.ts:96-97 | Rooms whose records differ only in non-identity fields agree on membership, creators and the invariant. |
| RoomLogic.Touch | server/src/game/game.service.ts:356-361 | `updateActivity` sets `lastActivity` and changes nothing else. |
| RoomLogic.Stale | server/src/game/game.service.ts:367 | The sweep's test: idle for strictly longer than the timeout. |
| RoomLogic.TouchedRoomIsNotStale | server/src/game/game.service.ts:356-367 | A room whose activity was bumped at `now` survives every sweep up to `now` plus the timeout. |
| RoomLogic.ResolveId | server/src/game/game.service.ts:19 | `playerId or uuidv4()`: a supplied non-empty id is used; an absent or empty one is replaced by the generated id. |
| RoomLogic.NewRoom | server/src/game/game.service.ts:16-45 | A LOBBY room under the given id and language with exactly `[creator]` as players. The creator carries the given id, name and connection, and is ready, connected, at score 0, and the only creator. Spectators, words and answers are empty; the index is 0. |
| RoomLogic.Admit | server/src/game/game.service.ts:59-88 | A known id refreshes, in place, the first player record with that id, or failing that the first spectator record: that record takes the new socket and name and becomes connected, every other field and every other record are kept, and the caller gets that record. An unknown id gets a ready, non-creator, score-0 record, appended to the spectators while PLAYING and to the players otherwise. |
| RoomLogic.AdmitTouchesOnlyCaller | server/src/game/game.service.ts:61-69 | A rejoin changes no other record. |
| RoomLogic.AdmitKeepsInvariant | server/src/game/game.service.ts:55-86 | Joining keeps the invariant and adds no creator. A join admitted below the cap leaves at most `MAX_PLAYERS` players. |
| RoomLogic.Reconnect | server/src/game/game.service.ts:94-108 | The first player record with the id, else the first spectator record, is replaced in place by itself with the new connection and connected; the caller gets that record. Every other record and all identities are unchanged. |
| RoomLogic.Disconnect | server/src/game/game.service.ts:116-129 | The first player record using the connection, else the first spectator record, is replaced in place by itself marked disconnected, and that record is reported. The other list, membership and identities are unchanged. |
| RoomLogic.DisconnectAgainReportsSameRecord | server/src/game/game.service.ts:116-128 | The socket match ignores the connection flag, so a repeated disconnect reports the same record again. |
| RoomLogic.ConnectionChangesKeepInvariant | server/src/game/game.service.ts:91-132 | Reconnect and disconnect keep the invariant, the creator and the member set. |
| RoomLogic.IsCreatorRequest | server/src/game/game.service.ts:138-141 | The creator check of `kickPlayer` (and of `startGame`, lines 198-201, and of the creator branch of `leaveRoom`): the first player record with the id is the creator. Passing it means the id is a player and a creator. |
| RoomLogic.Kick | server/src/game/game.service.ts:143-144 | The target is in neither list afterwards. Every other record stays exactly as it was, and nothing else in the room changes. Each list becomes `Without(list, target)`, which keeps the remaining records in their order (`Roster.WithoutKeepsOrder`). |
| RoomLogic.KickKeepsInvariant | server/src/game/game.service.ts:143-144 | Kicking keeps the invariant and the cap, and adds no creator. |
| RoomLogic.SelfKickOrphansRoom | server/src/game/game.service.ts:138-144 | A creator who kicks themself leaves a room with no creator, in which no one can pass the creator check again. |
| RoomLogic.KickKeepsAnswers | server/src/game/game.service.ts:143-144 | A kicked player's answer stays recorded, so the match test is unchanged. |
| RoomLogic.Depart | server/src/game/game.service.ts:154-177 | Errors exactly when the id is in neither list. Destroys the room exactly when the leaver is the creator player. Otherwise exactly one record leaves by `splice`: the first player record with the id when there is one, else the first spectator record with it; the other list and the rest of the room are unchanged. |
| RoomLogic.DepartKeepsInvariant | server/src/game/game.service.ts:157-175 | A non-creator leaving keeps the invariant and the cap. The leaver is gone and every other member stays. |
| RoomLogic.MarkReady | server/src/game/game.service.ts:184-187 | The caller's first player record becomes ready, with every other field kept, and no other record changes. A spectator or unknown id leaves the room unchanged. |
| RoomLogic.MarkReadyIdempotent | server/src/game/game.service.ts:184-187 | Marking ready twice equals marking ready once. |
| RoomLogic.Start | server/src/game/game.service.ts:198-231 | Checks run in the source's order: creator, at least `MIN_PLAYERS`, all ready. Each error holds exactly when its condition is the first to fail. On success the room is PLAYING, at index 0, with no answers, and min(WORDS_PER_GAME, length of the pool) words taken from the front of the pool. Every player is reset; spectators are untouched. |
| RoomLogic.StartKeepsInvariant | server/src/game/game.service.ts:220-231 | A started game keeps the invariant and the creator. Every player has score 0 and is not ready, and at least `MIN_PLAYERS` play. |
| RoomLogic.Submit | server/src/game/game.service.ts:240-245 | Refused unless PLAYING, and refused for an id that is not a player. Otherwise exactly that answer is recorded, overwriting any earlier one, and nothing else changes. |
| RoomLogic.AllAnswered | server/src/game/game.service.ts:248-249 | `allAnswered`: every connected player has an entry in the answers; its cases are stated by `AllAnsweredCases` and its loop by `Roster.EveryConnectedAnswered`. |
| RoomLogic.AllAnsweredCases | server/src/game/game.service.ts:248-249 | With no connected player the round counts as answered; an unanswered connected player holds it open. |
| RoomLogic.SubmitFacts | server/src/game/game.service.ts:245 | Submitting keeps the invariant; a second submission replaces the first. |
| RoomLogic.ScoreRound | server/src/game/game.service.ts:258-275 | `match` holds exactly when `IsMatch` does. The word is `words[currentWordIndex]`, or none past the end. Only scores change, and only on a match. |
| RoomLogic.ScoreRoundScores | server/src/game/game.service.ts:265-273 | On a match, each player with a non-empty answer gains exactly 1; otherwise no score moves. |
| RoomLogic.ScoringKeepsInvariant | server/src/game/game.service.ts:268-272 | Awarding points keeps the invariant and the creator. |
| RoomLogic.Advance | server/src/game/game.service.ts:282-293 | The index moves on by one and the answers are cleared. `gameOver` holds exactly when the new index reaches the end of the words; then the room is ENDED and every player is not ready. Otherwise the state and the players are untouched. |
| RoomLogic.AdvanceKeepsInvariant | server/src/game/game.service.ts:282-289 | Advancing keeps the invariant and the creator. |
| RoomLogic.LastRoundEndsGame | server/src/game/game.service.ts:286-290 | From the last word, `nextRound` ends the game with nobody ready. |
| RoomLogic.BackToLobby | server/src/game/game.service.ts:325-337 | Does nothing unless the room is ENDED and every player is ready. Then it goes to LOBBY with words and answers emptied and the index at 0. Players become `players ++ spectators` in order, all ready, and spectators become empty. |
| RoomLogic.BackToLobbyKeepsInvariant | server/src/game/game.service.ts:333-336 | The merge keeps every member, the creator and the invariant. After a merge the player ids are the old player and spectator ids together. |
| RoomLogic.MergeCanExceedCapacity | server/src/game/game.service.ts:333 | Nine players and two spectators come back as eleven players: the cap does not bound the merge. |
| Service.Registered | server/src/game/game.service.ts:9 | The table invariant: each stored key listed once in the insertion order, each room stored under its own id and keeping the room invariant; every method of `GameService` keeps it as `Valid()`. |
| Service.Erase | server/src/game/game.service.ts:160 | `Map.delete`: the key order loses exactly that key and stays duplicate-free. |
| Service.EraseKeepsOrder | server/src/game/game.service.ts:160 | Erasing works key by key: erasing from `a + b` is erasing from `a` followed by erasing from `b`, so the surviving keys keep their order. |
| Service.EraseOfOne | server/src/game/game.service.ts:160 | A single key survives the erase exactly when it is not the erased key. |
| Service.LiveKeys | server/src/game/game.service.ts:366-370 | The keys the sweep keeps are exactly the stored, non-stale ones, without duplicates. |
| Service.LiveKeysKeepOrder | server/src/game/game.service.ts:366-370 | The sweep works key by key: the live keys of `a + b` are those of `a` followed by those of `b`, so the survivors keep their insertion order. |
| Service.LiveKeysOfOne | server/src/game/game.service.ts:367-369 | A single key is kept exactly when its room is stored and not stale. |
| Service.Sweep | server/src/game/game.service.ts:363-372 | After the sweep, exactly the rooms idle for at most the timeout remain, unchanged. |
| Service.RoomWithMember | server/src/game/game.service.ts:93-111 | The first room in insertion order that holds the id as a player or spectator, or -1 when no room does. |
| Service.RoomWithSocket | server/src/game/game.service.ts:115-131 | The first room in insertion order where some record uses the connection, or -1 when none does. |
| Service.SweepKeepsRegistered | server/src/game/game.service.ts:363-372 | After the sweep, the surviving keys list exactly the surviving rooms, once each, so the table stays consistent. |
| Service.StoreKeepsRegistered | server/src/game/game.service.ts:9 | Storing an invariant-respecting room under its own present id keeps the table consistent. |
| Service.GameService.constructor | server/src/game/game.service.ts:9-14 | The service starts with an empty table. |
| Service.GameService.CreateRoom | server/src/game/game.service.ts:16-45 | The new room is stored under its id (a new key is appended to the order) and returned with its creator; the table stays consistent. |
| Service.GameService.JoinRoom | server/src/game/game.service.ts:47-89 | An unknown room yields "Room not found" with no change. A full room yields "Room is full", but the activity bump has already been stored. Otherwise the caller is admitted into the touched room. |
| Service.GameService.ReconnectPlayer | server/src/game/game.service.ts:91-112 | The first room holding the id gets the reconnected record and is touched. With no such room: "Player not found in any room" and no change. |
| Service.GameService.FindRoomWithMember | server/src/game/game.service.ts:93-109 | The room scan loop returns the position `RoomWithMember` specifies. |
| Service.GameService.DisconnectPlayer | server/src/game/game.service.ts:114-132 | The first room using the connection gets the disconnected record and is touched, and its id and the player id are reported. With no such room: none, and no change. |
| Service.GameService.FindRoomWithSocket | server/src/game/game.service.ts:115-130 | The room scan loop returns the position `RoomWithSocket` specifies. |
| Service.GameService.KickPlayer | server/src/game/game.service.ts:134-148 | Unknown room: "Room not found". Non-creator requester: "Only creator can kick players", with no change. Otherwise the kicked, touched room is stored and returned with the target id. |
| Service.GameService.LeaveRoom | server/src/game/game.service.ts:150-178 | A creator leaving deletes the room from the table and the key order. Anyone else leaving has their first record spliced out of its list (through `Depart`) and the room is touched. "Player not found in room" changes nothing. |
| Service.GameService.PlayerReady | server/src/game/game.service.ts:180-192 | The room is stored with the caller's first player record ready (through `MarkReady`) and is touched, even when the caller is not a player. |
| Service.GameService.StartGame | server/src/game/game.service.ts:194-235 | A refused start changes nothing. A successful one stores the started room, touched. |
| Service.GameService.SubmitAnswer | server/src/game/game.service.ts:237-252 | A refusal changes nothing. Otherwise the answer is recorded, the room is touched, and `allAnswered` is reported. |
| Service.GameService.CalculateRoundResults | server/src/game/game.service.ts:254-276 | The scored room is stored without an activity bump, and the match and word are reported. |
| Service.GameService.NextRound | server/src/game/game.service.ts:278-294 | The advanced room is stored touched, and `gameOver` is reported. |
| Service.GameService.CheckAndSwitchToLobby | server/src/game/game.service.ts:301-340 | The room after the lobby check is stored without an activity bump. |
| Service.GameService.GetRoom | server/src/game/game.service.ts:342-344 | The stored room for a known id, none for an unknown one. |
| Service.GameService.CleanupInactiveRooms | server/src/game/game.service.ts:363-372 | The table becomes `Sweep` at `now`, and the key order keeps the survivors in order; the table stays consistent. |
| GameInterfaces.MessagesIdentifyErrors | server/src/game/game.service.ts:50-243 | The messages thrown by the service (`Message`, one per error) are pairwise distinct, so the message identifies the error. |
| Scenarios.SpectatorJoinsDuringGame | server/src/game/game.service.spec.ts:142-155 | Create, join and start, then a newcomer arrives: they become the one spectator and the two players stay. |
| Scenarios.SpectatorMergedAfterGame | server/src/game/game.service.additional.spec.ts:73-104 | Two players finish with one spectator watching. Both press ready, and the room is back in LOBBY with three players and no spectator. |
| Scenarios.LastReadySwitchesToLobby | server/src/game/game.gateway.ts:192-194 | `playerReady` followed by `checkAndSwitchToLobby` in an ENDED room reaches LOBBY if and only if every other player was already ready. |

## Behaviour worth knowing

These facts about the service's code follow from its source and hold in the model:

- `joinRoom` bumps `lastActivity` before its capacity check. A "Room is full" refusal therefore
  still changes the room (`Service.GameService.JoinRoom`).
- `disconnectPlayer` matches a connection id even on a record already marked disconnected. A
  repeated disconnect reports the same player again rather than nothing
  (`RoomLogic.DisconnectAgainReportsSameRecord`).
- On a match, `calculateRoundResults` awards a point only for a non-empty answer, since an empty
  string is falsy. However, `allAnswered` counts any recorded entry, the empty string included.
- The player cap of `joinRoom` does not count spectators. The return to the lobby merges them in
  unchecked, so `players.length <= MAX_PLAYERS` is not an invariant of the room
  (`RoomLogic.MergeCanExceedCapacity`). The model proves only that joins never grow the players
  past the cap.
- Neither `startGame` nor `nextRound` checks the room's state.
- The creator may kick themself. This leaves a room without a creator
  (`RoomLogic.SelfKickOrphansRoom`).

## Left out

- Random room ids (`generateRoomId`, server/src/game/game.service.ts:346-348): the id is a
  parameter. Collisions are not retried; an existing room under the same id is replaced in place.
- `uuidv4` (lines 19 and 59): the generated id is the `freshId` parameter.
- `generateWords` (lines 350-354): the shuffled pool of the room's language is the `shuffledPool`
  parameter. The random-comparator sort also reorders the shared word list in place; that
  mutation is not modelled. The word lists module `constants/words` is not part of this model.
- `Date.now` and the `setInterval` timer (lines 13 and 356-361): time is the `now` parameter.
  `CleanupInactiveRooms` is the body of one timer tick. `CLEANUP_INTERVAL` and the console log
  line are not modelled.
- AnswerMatch.ToLower: lower-cases only the ASCII letters A-Z. JavaScript `toLowerCase` also
  folds every other Unicode letter, so two answers that differ only in non-ASCII case match in
  the source but not here.
- Service.GameService.CreateRoom: the `language` default of `'en'` is not modelled; the caller
  always passes a language.
- Object aliasing: the service returns live references that the gateway and the tests may mutate
  later. The model returns snapshots, and states the tests reach through such mutations as
  explicit record updates (`Scenarios`).
- Scores and indices are unbounded integers. JavaScript numbers lose precision above 2^53, which
  no game reaches.
- `currentAnswers` is a map. JavaScript's plain-object key quirks (for example a player id
  `__proto__`) are not modelled.
- The socket gateway (server/src/game/game.gateway.ts): emits, socket rooms and forced
  disconnects are not modelled. Its creator check before `nextRound` is not modelled either. Only
  its `playerReady` → `checkAndSwitchToLobby` sequence appears, as
  `Scenarios.LastReadySwitchesToLobby`.
- The Redis service, the exception filter, the DTO validators, the bootstrap and health code, and
  the client are not part of this model.
