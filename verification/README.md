# Card-set party game server: a Dafny model

The server runs rooms of a party card game. A host screen opens a room.
Up to six players join it by name from their phones.

- **Cards.** The deck has nine card types with four copies each (36 cards).
  At the start every player is dealt four cards.
- **Gifts.** On each turn, the other players hand the *active player* every
  card of the types it asks for.
- **Sets.** Four cards of one type make a *set*, which leaves the hand and
  counts in the room's public tally.
- **Ending a turn.** The active player draws a penalty card if some player
  who could have given did not. When the turn order wraps around, every
  player draws one card. The game is over once nine sets have been made.

The model covers four things:

- the game rules of `server/src/gameLogic.js`;
- the room manager of `server/src/rooms.js`: rooms, the binding of sockets
  to players, joining by name, resuming with a secret, starting and
  resetting games, removing players, expiry, and the host and player
  snapshots;
- the helpers of `server/src/utils.js`;
- the guards of the game-changing socket handlers of `server/src/index.js`,
  plus `broadcastState`.

Every operation is a pure function from the state before to the state
after. Things the source draws at random are parameters:

- shuffles, as the list of swap positions a Fisher–Yates pass would pick;
- the spinner seed;
- room, player and secret ids;
- the clock (`now`).

Files, one module each:

| file | module | contents |
|---|---|---|
| `basics.dfy` | `Basics` | options, results, sums, and first-index lookup, which stands in for the source's insertion-ordered `Map` |
| `utils.dfy` | `Utils` | `clamp`, the shuffle, and the first output of `mulberry32` in 32-bit arithmetic |
| `hands.dfy` | `Hands` | hands as maps from card type to count; `handTotal`, `addToHand`, `removeAllOfType`, and the arithmetic of taking out sets |
| `room.dfy` | `RoomState` | players, rooms, the turn tracker, the card count `Cards(room)` (hands + deck + four per set) and roster invariants |
| `gamelogic.dfy` | `GameLogic` | deck, dealing, drawing, set checks, turns, the end of a turn, the round draw, gifts, spinner index |
| `names.dfy` | `Names` | name normalisation and the stored (truncated) name |
| `lifecycle.dfy` | `Lifecycle` | seats, late joins, starting, resetting and removing a player, within one room |
| `rooms.dfy` | `Rooms` | the room manager: rooms by id, socket bindings and its validity invariant |
| `snapshots.dfy` | `Snapshots` | the host and player views |
| `handlers.dfy` | `Handlers` | socket-handler guards, the handlers built on them, and `broadcastState` |

The central invariant is card conservation. No operation inside a running
game creates or destroys a card: giving, drawing, checking sets, ending a
turn, late joining and removing a player all keep `Cards(room)` unchanged,
and a started game holds exactly 36 cards.

## Model

| member | source | states |
|---|---|---|
| Utils.Clamp | server/src/utils.js:3 | the result lies in [a, b] whenever a <= b, equals v inside the range, a below it and b above it; when a > b the result is a, whatever v is |
| Utils.Shuffle | server/src/utils.js:5-11 | the Fisher–Yates pass returns a permutation of its input: same length and same multiset of elements |
| Utils.Mulberry32First | server/src/utils.js:20-28 | the first output of the generator, computed with 32-bit wrap-around, is below 2^32 |
| Utils.Mulberry32SeedZero | server/src/utils.js:20-28 | for seed 0 the first output is 1144304738, the generator's known first value |
| Hands.HandTotal | server/src/utils.js:13-17 | the total bounds every per-type count and is zero exactly when the hand holds no card |
| Hands.HandTotalIsSumOfValues | server/src/utils.js:13-17 | the total equals the sum of the hand's stored counts, as the loop over `values()` adds them |
| Hands.HandTotalSplit | server/src/utils.js:13-17 | a hand whose counts are the per-type sums of two hands has the sum of their totals |
| Hands.HandTotalChange | server/src/utils.js:13-17 | changing one type's count changes the total by exactly the difference |
| Hands.AddToHand | server/src/gameLogic.js:21-24 | the type's count grows by n, every other count is unchanged and the total grows by n |
| Hands.RemoveAllOfType | server/src/gameLogic.js:26-30 | reports the type's former count, leaves none of that type and every other type untouched; the entry is deleted only when cards were there |
| Hands.AfterSets | server/src/gameLogic.js:94-101 | each count becomes its remainder modulo 4, so no type is left with four or more |
| Hands.AfterSetsTotal | server/src/gameLogic.js:94-102 | the cards left plus four per set taken equal the cards before |
| Hands.AfterSetsIdempotent | server/src/gameLogic.js:94-101 | after the sets are taken none remains, so a second pass changes nothing |
| Hands.SetsInZero | server/src/gameLogic.js:94-96 | a hand yields no set exactly when every type has fewer than four cards, and then it is left as it is |
| Hands.AddSetsByType | server/src/gameLogic.js:103-106 | the per-type tally of sets grows by each type's count divided by four |
| Hands.AddSetsByTypeTotal | server/src/gameLogic.js:103-106 | the tally grows in total by the number of sets the hand yields |
| Hands.HandCards | server/src/rooms.js:342-344 | the cards pushed back to the deck for a hand: one per card, each type as often as the hand holds it |
| RoomState.TotalSets | server/src/gameLogic.js:113-117 | the room's set total is at least every player's recorded sets, and zero exactly when every recorded count is zero |
| Names.NormalizeName | server/src/rooms.js:159 | the key has no white space at either end, no upper-case ASCII letter and is no longer than the name |
| Names.NormalizeIdempotent | server/src/rooms.js:159 | normalising a normalised name changes nothing |
| Names.NormalizeCaseInsensitive | server/src/rooms.js:159 | names equal up to ASCII case normalise alike |
| Names.NormalizeIgnoresPadding | server/src/rooms.js:159 | white space added around a name does not change its key |
| Names.StoredName | server/src/rooms.js:181 | the stored name is 1 to 30 characters: the first 30 of a non-empty name, "Player" for an empty one |
| GameLogic.BuildDeck | server/src/gameLogic.js:3-8 | 36 cards in type order, each of the nine types exactly four times |
| GameLogic.DrawOne | server/src/gameLogic.js:32-37 | a card is drawn exactly when the deck is not empty; the deck loses its last card and nothing else but the players changes |
| GameLogic.DrawOneCard | server/src/gameLogic.js:32-37 | the drawn card is the deck's last; the drawer holds one more of that type, and every other type and every other player is unchanged |
| GameLogic.DrawOneTotals | server/src/gameLogic.js:32-37 | only the drawer's hand grows, by one when the deck was not empty, and the room's cards are conserved |
| GameLogic.Deal | server/src/gameLogic.js:10-19 | the deck shrinks by k per player in the order, or to empty; the cards left are a sub-multiset of the deck; the roster is unchanged |
| GameLogic.DealTotals | server/src/gameLogic.js:10-19 | with enough cards, each player in the order gains exactly k cards, others none, and the room's cards are conserved |
| GameLogic.DealCards | server/src/gameLogic.js:10-19 | dealing, even from a short deck, conserves the room's cards |
| GameLogic.CheckSets | server/src/gameLogic.js:89-111 | an unknown player changes nothing; only hands, public sets and the clock may change, and the roster stays |
| GameLogic.CheckSetsPlayer | server/src/gameLogic.js:89-111 | the player keeps each count modulo 4; its own tally and the public tally grow by the sets taken; all other players and entries are kept; the room changes exactly when a set was found |
| GameLogic.CheckSetsCards | server/src/gameLogic.js:89-111 | taking out sets conserves the room's cards (four per set move from the hand to the tally) |
| GameLogic.CheckSetsTally | server/src/gameLogic.js:113-117 | the room's set total grows by the number of sets the player's hand yields |
| GameLogic.CheckSetsByType | server/src/gameLogic.js:103-106 | the public per-type tally grows by each type's count divided by four |
| GameLogic.CheckSetsIdempotent | server/src/gameLogic.js:89-111 | checking the same player again, at any later time, changes nothing |
| GameLogic.CheckSetsNoFullType | server/src/gameLogic.js:89-111 | afterwards the player holds no type four times, and nobody who held none now does |
| GameLogic.CheckSetsAll | server/src/gameLogic.js:148 | after checking every player of a list, none of them holds a type four times |
| GameLogic.CheckSetsAllCards | server/src/gameLogic.js:148 | checking a whole list conserves the room's cards |
| GameLogic.StartTurnTracker | server/src/gameLogic.js:39-47 | nobody has given yet; with unique ids, the eligible givers are exactly the players other than the active one who hold a card |
| GameLogic.AdvanceTurn | server/src/gameLogic.js:119-123 | the index moves to the next position of the order, wrapping to 0 after the last; the active player is the one there; a fresh tracker starts; nothing else changes |
| GameLogic.RoundRecipients | server/src/gameLogic.js:157-169 | with enough cards everybody in the order draws; otherwise as many distinct players as there are cards, each from the order |
| GameLogic.RoundDraw | server/src/gameLogic.js:157-169 | the deck loses one card per player in the order, or all of them when it is short |
| GameLogic.RoundDrawTotals | server/src/gameLogic.js:157-169 | each player gains at most one card per occurrence in the order, exactly that many with a full deck, and the room's cards are conserved |
| GameLogic.PenaltyDraw | server/src/gameLogic.js:127-134 | the active player draws one card exactly when some eligible player did not give and the deck is not empty |
| GameLogic.PenaltyDrawTotals | server/src/gameLogic.js:127-134 | only the active player's hand grows, by one exactly in that case, and the room's cards are conserved |
| GameLogic.WinCheck | server/src/gameLogic.js:151-154 | the game is finished exactly when nine or more sets have been made |
| GameLogic.EndTurn | server/src/gameLogic.js:125-155 | the turn passes to the next position of the order and its player becomes active; the roster is kept |
| GameLogic.EndTurnStages | server/src/gameLogic.js:125-155 | ending a turn is the penalty and set check, then the advance, then the round draw with set checks when the index wrapped to 0, then the win check |
| GameLogic.EndTurnDeck | server/src/gameLogic.js:139-149 | the deck loses the penalty card and, when the index wrapped to 0, one card per player; afterwards nobody in the order holds a type four times |
| GameLogic.EndTurnTracker | server/src/gameLogic.js:119-123 | the next turn starts with a fresh tracker at the given time; the order, template and ids are unchanged |
| GameLogic.EndTurnPhase | server/src/gameLogic.js:151-154 | the game finishes exactly when the room's set total has reached nine |
| GameLogic.EndTurnCards | server/src/gameLogic.js:125-155 | ending a turn conserves the room's cards |
| GameLogic.Transfer | server/src/gameLogic.js:73-80 | every card of the type moves from the sender to the active player and is reported; the total of all hands is unchanged |
| GameLogic.TransferHands | server/src/gameLogic.js:73-80 | the sender is left with none of the type, the active player gains exactly that many, and every other player is unchanged |
| GameLogic.MoveAllSender | server/src/gameLogic.js:73-80 | after all types are moved the sender holds none of the requested types; the report per type is the sender's former count |
| GameLogic.MoveAllActive | server/src/gameLogic.js:73-80 | the active player gains, per requested type, the sender's former count; every third player is unchanged |
| GameLogic.MoveAllTotals | server/src/gameLogic.js:71-80 | the reported total is what the sender lost and the active player gained; it is zero exactly when the sender held none of the requested types |
| GameLogic.MarkGave | server/src/gameLogic.js:81 | the sender is recorded as having given exactly when some card moved, and only when a tracker exists |
| GameLogic.GiveToActiveWithMoved | server/src/gameLogic.js:66-87 | a missing sender or active player changes nothing and reports nothing; otherwise only hands, sets, the tracker's givers and the clock change |
| GameLogic.GiveMoved | server/src/gameLogic.js:66-87 | the sender holds none of the requested types afterwards; the report per type is what it held; some card moved exactly when it held some requested type |
| GameLogic.GiveActive | server/src/gameLogic.js:76-84 | the active player receives the requested types and then keeps each count modulo 4 |
| GameLogic.GiveCards | server/src/gameLogic.js:66-87 | a gift conserves the room's cards |
| GameLogic.SpinnerPickIndex | server/src/gameLogic.js:176-179 | the picked index lies inside a non-empty list of players |
| Lifecycle.NextSeat | server/src/rooms.js:197-203 | the new seat is above every seat in use and one more than the highest (1 when none is used) |
| Lifecycle.AddEligible | server/src/rooms.js:221-223 | the late joiner becomes an eligible giver exactly when it owes, and the tracker is otherwise unchanged |
| Lifecycle.AppendLateJoin | server/src/rooms.js:205-225 | the joiner is appended to both orders; a known joiner is dealt min(4, deck) cards from the end of the deck; an unknown one changes only the orders |
| Lifecycle.LateJoinNewcomer | server/src/rooms.js:211-219 | the joiner's hand plus four per set it made grows by exactly the cards dealt |
| Lifecycle.LateJoinOthers | server/src/rooms.js:205-225 | every other player's hand is unchanged |
| Lifecycle.LateJoinTracker | server/src/rooms.js:220-223 | nobody else's eligibility changes; the joiner is eligible exactly when it is not active and holds a card after its set check |
| Lifecycle.LateJoinCards | server/src/rooms.js:205-225 | a late join conserves the room's cards |
| Lifecycle.StartRoom | server/src/rooms.js:272-308 | the game is running; the order is a permutation of the players; the turn index points at the active player; players keep ids and connections; 36 minus the dealt cards stay in the deck; nobody holds a type four times |
| Lifecycle.StartCards | server/src/rooms.js:286-294 | a started game holds exactly the 36 cards of a fresh deck |
| Lifecycle.StartSeats | server/src/rooms.js:280-284 | every player is seated at its 1-based position in the turn order |
| Lifecycle.StartSeatsDistinct | server/src/rooms.js:280-284 | two players with different ids get different seats |
| Lifecycle.StartEligible | server/src/gameLogic.js:39-47 | at the start, with at most nine players, every player except the active one is an eligible giver |
| Lifecycle.PickedHands | server/src/rooms.js:293-294 | after the deal, with at most nine players, each player holds exactly four cards |
| Lifecycle.ResetRoom | server/src/rooms.js:311-331 | back in the lobby with the same players, no cards, seats, order or tracker; a non-empty template id replaces the room's |
| Lifecycle.ResetIdempotent | server/src/rooms.js:311-331 | resetting again without a template only moves the clock |
| Lifecycle.ResetCards | server/src/rooms.js:320-328 | a reset room holds no card |
| Lifecycle.Without | server/src/rooms.js:353-354 | the id is gone from the list and every other id occurs as often as before |
| Lifecycle.PickActive | server/src/rooms.js:355-357 | the new active player is the one at the turn index modulo the shorter order; none when the order is empty or that entry is an empty id |
| Lifecycle.RemoveFromRoomAsWritten | server/src/rooms.js:333-360 | an unknown player changes nothing; otherwise one player fewer, its cards back in the deck, the id out of both orders, the turn index unchanged; a removed active player is replaced by the id at the old turn index of the shorter order (none if that order is empty), any other active player stays |
| Lifecycle.RemoveFromRoom | server/src/rooms.js:333-360 | the removal as written, except for the corrected turn index |
| Lifecycle.RemoveCards | server/src/rooms.js:341-349 | the deck gains exactly the removed player's cards, type by type, so the room's cards are conserved |
| Lifecycle.RemoveOthersKept | server/src/rooms.js:351 | the player is gone and every other player is kept unchanged |
| Lifecycle.RemoveFromRoomKeepsTurn | server/src/rooms.js:352-357 | with the corrected index, the turn index still points at the active player after a removal |
| Lifecycle.RemoveFromRoomAsWrittenRepeatsTurn | server/src/rooms.js:352-357 | as written, removing an earlier player leaves the index on the next player, so the next turn goes back to the active one |
| Rooms.SetRoom | server/src/rooms.js:47 | the room under the id is replaced or added and no other room or socket entry changes |
| Rooms.NewRoom | server/src/rooms.js:26-50 | a fresh room is in the lobby with no players, order or host and holds no card |
| Rooms.CreateRoom | server/src/rooms.js:26-50 | the new room is stored under its id and every other room and socket is kept |
| Rooms.CreateRoomValid | server/src/rooms.js:26-50 | a room created under an unused id keeps the manager valid |
| Rooms.FindPlayerByName | server/src/rooms.js:161-167 | the first player whose normalised name equals the given one's; none exactly when no name matches |
| Rooms.FindCaseInsensitive | server/src/rooms.js:159-167 | the lookup ignores ASCII case |
| Rooms.FindIgnoresPadding | server/src/rooms.js:159-167 | the lookup ignores white space around the name |
| Rooms.Join | server/src/rooms.js:169-195 | `room_not_found` and `room_full` exactly as in the source; a matching name reclaims that player and changes nothing; otherwise the newcomer is admitted and no other room or socket changes |
| Rooms.JoinNewPlayer | server/src/rooms.js:177-192 | a newcomer is appended with the stored name, fresh id and secret and no connection; in a running game its seat is above every other |
| Rooms.JoinValid | server/src/rooms.js:169-195 | joining under an unused id keeps the manager valid and the room's cards |
| Rooms.Admit | server/src/rooms.js:177-194 | the roster is the old one with the new player, offline and under the stored name, appended; only hands and set counts may differ, as a late join deals them; in a running game the id joins the order, otherwise nothing is dealt; the phase and id are kept and the clock set |
| Rooms.AdmitCards | server/src/rooms.js:188-192 | admitting a newcomer conserves the room's cards |
| Rooms.AddPlayerAsWritten | server/src/rooms.js:169-195 | reclaims exactly when the name as given matches a player |
| Rooms.LongNameNotReclaimed | server/src/rooms.js:174-181 | as written, a player who joined under a 31-letter name does not get its place back; a second player with the same stored name is created |
| Rooms.AddPlayer | server/src/rooms.js:169-195 | corrected lookup: reclaims exactly when the name as it would be stored matches a player |
| Rooms.LongNameReclaimed | server/src/rooms.js:174-181 | with the corrected lookup the long name finds the first player |
| Rooms.RejoinReclaims | server/src/rooms.js:169-195 | with the corrected lookup, joining again under the same name always reclaims the player created the first time |
| Rooms.BindPlayerSocket | server/src/rooms.js:237-245 | the player is connected through the socket and the socket maps to it; only its former different socket's entry is dropped; only the player's socket changes: its hand, sets, seat and place, every other player, every other room field and every other room are kept; an unknown room or player changes nothing |
| Rooms.BindValid | server/src/rooms.js:237-245 | binding keeps the manager valid |
| Rooms.ResumePlayer | server/src/rooms.js:227-235 | `room_not_found`, or `bad_secret` exactly when the player is unknown or the secret differs; otherwise the player is bound to the socket and the clock set, and nothing else changes: the player keeps its hand, sets and seat, the other players, the other room fields and the other rooms are kept; of the socket entries only the player's former different socket is dropped, and every other entry is kept |
| Rooms.ResumeValid | server/src/rooms.js:227-235 | resuming keeps the manager valid |
| Rooms.DisconnectSocket | server/src/rooms.js:247-261 | the socket's entry is gone, no room is dropped and no room keeps the socket as its host |
| Rooms.DisconnectKeepsGame | server/src/rooms.js:247-261 | only connections and the clock change, and a connection changes only from this socket to none |
| Rooms.DisconnectGoesOffline | server/src/rooms.js:248-253 | the player the socket was bound to is offline afterwards |
| Rooms.DisconnectValid | server/src/rooms.js:247-261 | disconnecting keeps the manager valid |
| Rooms.StartGame | server/src/rooms.js:263-309 | `room_not_found`, `bad_phase`, `need_2_players` in that order, with nothing changed; `template_not_found` exactly when the template is missing, with the template id already recorded; success otherwise |
| Rooms.StartGameStarts | server/src/rooms.js:263-309 | a started game runs under the template with every player in the order once, the turn on the active player, 36 cards and no type held four times |
| Rooms.StartGameValid | server/src/rooms.js:263-309 | starting, or failing to, keeps the manager valid |
| Rooms.NewGame | server/src/rooms.js:311-331 | `room_not_found` exactly for an unknown room; otherwise the room is back in the lobby with the same players and no cards, and nothing else changes |
| Rooms.NewGameValid | server/src/rooms.js:311-331 | resetting keeps the manager valid |
| Rooms.RemovePlayer | server/src/rooms.js:333-360 | `room_not_found` exactly for an unknown room; an unknown player changes nothing; otherwise only that room and the removed player's socket entry change, and the room's turn index stays as it was |
| Rooms.RemovePlayerCorrected | server/src/rooms.js:352-357 | the same outcome as `removePlayer` except for the room's turn index, which keeps naming the active player when it did before |
| Rooms.RemovePlayerValid | server/src/rooms.js:333-360 | removal keeps the manager valid and conserves the room's cards |
| Rooms.RemoveKeepsBindings | server/src/rooms.js:333-360 | every socket entry left after a removal still names a player connected through it |
| Rooms.AnyOnline | server/src/rooms.js:364 | true exactly when some player is connected |
| Rooms.HasConnections | server/src/rooms.js:362-366 | true exactly when the host or some player holds a socket id; socket ids are never empty, so this is the source's truthiness test |
| Rooms.Expired | server/src/rooms.js:371-373 | true exactly when the room has been idle for more than 240 minutes and neither the host nor any player holds a socket id |
| Rooms.Cleanup | server/src/rooms.js:368-379 | a room is kept, unchanged, exactly when it has been active within the time to live or someone is connected (holds a socket id, which is never empty) |
| Rooms.CleanupValid | server/src/rooms.js:368-379 | a room a socket is bound to is never dropped, so cleanup keeps the manager valid |
| Rooms.CleanupKeepsConnected | server/src/rooms.js:362-379 | a connected room (the host or a player holds a socket id, which is never empty) is never dropped; an unconnected one is dropped exactly when idle for longer than 240 minutes |
| Snapshots.ShownSeat | server/src/rooms.js:387 | a seat is shown exactly when there is one and it is not 0 |
| Snapshots.SnapshotForHost | server/src/rooms.js:382-407 | one row per player in the players' order, with its hand and whether it is connected (holds a socket id, which is never empty, so `!!p.socketId`); the deck size and public sets |
| Snapshots.SnapshotForPlayer | server/src/rooms.js:409-437 | one row per player and the viewer's own id |
| Snapshots.PlayerViewIsHostView | server/src/rooms.js:382-437 | a player's view is the host's with the hands dropped, and the viewer's hand is the one the host sees in its row |
| Snapshots.HostViewAccounts | server/src/rooms.js:382-407 | the shown hand sizes, the deck size and four cards per public set add up to the room's cards |
| Snapshots.PlayerViewHidesOthers | server/src/rooms.js:409-437 | rooms that differ only in the other players' hands, with equal hand sizes, give the same player view |
| Snapshots.HostViewShowsHands | server/src/rooms.js:382-407 | two rooms with different hands at a position give different host views |
| Handlers.Lookup | server/src/rooms.js:147 | a room exactly when one is stored under the id, and that room |
| Handlers.Dedup | server/src/index.js:292 | the list without repetitions, holding exactly the values of the input |
| Handlers.DedupDistinct | server/src/index.js:292 | a list without repetitions is kept as it is |
| Handlers.TypeIds | server/src/index.js:292 | the requested card types: distinct, and exactly the values 0 to 8 in the list; none when no list is sent |
| Handlers.GiveGuard | server/src/index.js:283-293 | `room_not_found` exactly for an unknown room; otherwise it goes on exactly for an authentic non-active player of a running game who asked for a card type, and is silent otherwise |
| Handlers.OnGiveToActive | server/src/index.js:280-298 | a stopped request changes nothing; otherwise only this room changes |
| Handlers.GiveOnlyFromAuthentic | server/src/index.js:280-298 | a request from anyone but an authentic non-active player of a running game changes nothing; a gift conserves the room's cards and players |
| Handlers.GiveEmptiesTypes | server/src/index.js:292-295 | the sender is left with none of the requested types |
| Handlers.EndTurnGuard | server/src/index.js:303-310 | `room_not_found` exactly for an unknown room; it goes on exactly for the authentic active player of a running game |
| Handlers.OnEndTurn | server/src/index.js:300-319 | a stopped request changes nothing; `game_finished` is sent exactly when the turn ended and the game is finished |
| Handlers.EndTurnOnlyByActive | server/src/index.js:300-319 | only the authentic active player changes the room; the turn passes to the next position and the cards are conserved |
| Handlers.GameStartGuard | server/src/index.js:264-267 | `room_not_found`, then `not_host`; it goes on exactly for the host |
| Handlers.OnGameStart | server/src/index.js:264-278 | past the guard the outcome is `startGame`'s, and the reply is silent exactly when the game started |
| Handlers.HostGuard | server/src/index.js:321-333 | silent; it goes on exactly for the host of an existing room |
| Handlers.OnHostRemovePlayer | server/src/index.js:321-328 | only the host changes anything; the player is gone afterwards, the turn index stays as it was and the clock set |
| Handlers.OnGameNew | server/src/index.js:330-337 | only the host changes anything; the room is back in the lobby with its template and no cards |
| Handlers.OnlyHostCommands | server/src/index.js:264-337 | a socket that is not the host's cannot start, reset or remove anything |
| Handlers.PlayerMessages | server/src/index.js:343-346 | at most one message per player, each to a player socket |
| Handlers.BroadcastState | server/src/index.js:339-347 | the host's view goes first, to the host when connected (holds a socket id, which is never empty); no other message goes to the host |
| Handlers.EveryOnlinePlayerServed | server/src/index.js:343-346 | every connected player (one holding a socket id, which is never empty) receives its own view on its own socket |
| Handlers.OnlyOwnViews | server/src/index.js:343-346 | every player message goes to a connected player's socket with that player's own view |
| Handlers.OneMessageEach | server/src/index.js:343-346 | exactly one message per connected player (one holding a socket id, which is never empty) |

## Left out

- Persistence of rooms to disk, the debounced save, loading at start-up and the log file: file I/O with no effect on the rules.
- Socket ids are never empty, because Socket.IO issues them; `SocketId` excludes the empty string. So the source's truthiness tests on `socketId` and `host.socketId` coincide with the model's `Some?`.
- Socket.IO itself: the model does not include joining socket rooms, `game_started`, `joined`/`claimed` replies, or forcing the old socket of a rebound player to disconnect. Emitting is modelled only as `BroadcastState`'s list of messages.
- Templates: `loadTemplate` is a file lookup. The model receives whether the template exists as a boolean.
- `Math.random` and `nanoid`: shuffles become given swap lists, and the spinner seed and fresh ids become parameters. Nothing is modelled about their distribution.
- `Date.now`: the clock is a parameter `now`.
- The `ROOM_TTL_MINUTES` environment override: the time to live is its default, 240 minutes.
- `setHost` and the `host_join`, `player_join`, `resume`, `player_claim` and `disconnect` handlers: thin wrappers around `addPlayer`, `resumePlayer`, `bindPlayerSocket` and `disconnectSocket`, which are modelled.
- `giveToActive`: an unused, older copy of `giveToActiveWithMoved` that never marks the sender as having given.
- `makeSpinner`'s duration and the spinner payload: only the seed matters for the rules.
- The final state of `shuffleInPlace`'s generator: the shuffle is modelled by its result, not by calls to `rng()`.
- Names: `toLowerCase` is modelled for ASCII A–Z only, and `slice(0, 30)` counts characters rather than UTF-16 code units.
- The `Number(...)` coercion of the `types` payload: only lists of integers are modelled, and values outside 0–8 are dropped as the filter drops them.
- Utils.Clamp: integers only. The source's `clamp` works on JavaScript numbers, so fractions, infinities and `NaN` (which `Math.max` and `Math.min` propagate) are not modelled; no server code calls it.
- Lifecycle.RemoveFromRoomAsWritten and Lifecycle.RemoveFromRoom: a removed hand goes back to the deck in type order, not in the `Map`'s insertion order, and is then shuffled by the given swaps. The deck's contents are the same; their order before the shuffle differs.
- GameLogic.EndTurn: requires `CanEndTurn` (a non-empty order in which every player exists and whose active player is in the room). Without it the source computes `x % 0` or reads a missing player, which the model does not follow.
- Lifecycle.StartSeatsDistinct: states distinct seats only for two players with different ids. Player ids come from a `Map` and are unique in the source.
- Lifecycle.StartEligible and Lifecycle.PickedHands: assume at most nine players, so that four cards each fit in the 36-card deck. The room never holds more than six.
- GameLogic.SpinnerPickIndex: states only the range of the index, not which player a given seed picks beyond `Utils.Mulberry32SeedZero`'s value.

## Findings

| source | as written | input that shows it | evidently intended | confidence | as-written member | corrected member |
|---|---|---|---|---|---|---|
| server/src/rooms.js:352-357 | `removePlayer` filters the removed id out of the order but leaves `turnIndex` as it was | players a, b, c in that order, b active at index 1; the host removes a; the index still reads 1, which is now c, while b stays active, so the next `advanceTurn` gives b a second turn and c is skipped | the index follows the active player: it drops by one when an earlier player leaves, and wraps around the shorter order when the active player leaves | not executed | Lifecycle.RemoveFromRoomAsWrittenRepeatsTurn | Lifecycle.RemoveFromRoomKeepsTurn |
| server/src/rooms.js:174-181 | `addPlayer` looks up the existing player under the name as given, but stores only its first 30 characters | a player joins as 31 letters "a", then joins again under the same name; the lookup compares 31 letters with the stored 30 and creates a second player with the same name | a player who joins again under the same name reclaims its place, whatever the name's length | not executed | Rooms.LongNameNotReclaimed | Rooms.LongNameReclaimed |
