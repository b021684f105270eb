/**
 The guards of the socket event handlers of server/src/index.js that
 change a game (`game_start`, `give_to_active`, `end_turn`,
 `host_remove_player`, `game_new`), the handlers built from them, and
 `broadcastState`'s choice of who is sent which view. Sockets are given by
 their ids; emitting is modelled as the list of messages sent.
 */
module Handlers {
  import opened Basics
  import opened Utils
  import opened Hands
  import opened RoomState
  import opened GameLogic
  import opened Lifecycle
  import opened Rooms
  import opened Snapshots

  /** What a handler answers the requesting socket: nothing, an
      `error_msg`, or (after `end_turn`) `game_finished` to the room. */
  datatype Reply = Silent | ErrorMsg(error: string) | GameFinished

  /** A guard's verdict: stop with a reply, or go on. */
  datatype Verdict = Stop(reply: Reply) | Go

  /** The sender is a player of the room, knows its secret and speaks
      through the socket it is connected with. */
  predicate Authentic(room: Room, pid: PlayerId, secret: string, socket: SocketId)
  {
    match IndexOf(room.players, pid)
    case Some(i) => room.players[i].secret == secret && room.players[i].socketId == Some(socket)
    case None => false
  }

  /** The socket is the room's host. */
  predicate IsHost(room: Room, socket: SocketId)
  {
    room.host == Some(socket)
  }

  /** The room under `roomId`, if any (`rooms.get`). */
  function Lookup(m: Manager, roomId: RoomId): (r: Option<Room>)
    ensures r.Some? <==> roomId in m.rooms
    ensures r.Some? ==> r.value == m.rooms[roomId]
  {
    if roomId in m.rooms then Some(m.rooms[roomId]) else None
  }

  // ---------------------------------------------------------------------
  // give_to_active
  // ---------------------------------------------------------------------

  /** `[...new Set(xs)]`: the values of `xs` in the order of their first
      occurrence. */
  function Dedup(xs: seq<int>): (r: seq<int>)
    ensures Distinct(r)
    ensures forall x :: x in r <==> x in xs
    ensures |r| <= |xs|
    decreases |xs|
  {
    if |xs| == 0 then []
    else
      var d := Dedup(xs[..|xs| - 1]);
      var x := xs[|xs| - 1];
      assert xs == xs[..|xs| - 1] + [x];
      if x in d then d else d + [x]
  }

  /* Values that already occur once each are kept as they are. */
  lemma {:induction false} DedupDistinct(xs: seq<int>)
    requires Distinct(xs)
    ensures Dedup(xs) == xs
    decreases |xs|
  {
    if |xs| > 0 {
      var init := xs[..|xs| - 1];
      assert Distinct(init);
      DedupDistinct(init);
      assert xs[|xs| - 1] !in init;
      assert xs == init + [xs[|xs| - 1]];
    }
  }

  /** The card types kept from the values given. */
  function KeepTypes(xs: seq<int>): (r: seq<CardType>)
    ensures forall t: CardType :: t in r <==> t in xs
    ensures forall i :: 0 <= i < |r| ==> r[i] in xs
  {
    if |xs| == 0 then []
    else if 0 <= xs[0] < TypeCount then [xs[0] as CardType] + KeepTypes(xs[1..])
    else KeepTypes(xs[1..])
  }

  /* Keeping the card types of a list without repetitions leaves one
     without repetitions. */
  lemma {:induction false} KeepTypesDistinct(xs: seq<int>)
    requires Distinct(xs)
    ensures Distinct(KeepTypes(xs))
    decreases |xs|
  {
    if |xs| > 0 {
      DistinctTail(xs);
      KeepTypesDistinct(xs[1..]);
    }
  }

  /** The requested types: the distinct values of `types` that are card
      types, or none when `types` is not a list. */
  function TypeIds(types: Option<seq<int>>): (r: seq<CardType>)
    ensures Distinct(r)
    ensures forall t: CardType :: t in r <==> types.Some? && t in types.value
  {
    match types
    case None => []
    case Some(xs) =>
      KeepTypesDistinct(Dedup(xs));
      KeepTypes(Dedup(xs))
  }

  /** The guard of `give_to_active`: the room must exist (else
      `room_not_found`); silently ignored unless the game runs, the sender
      is authentic and not the active player, and at least one card type
      was asked for. */
  function GiveGuard(room: Option<Room>, pid: PlayerId, secret: string, socket: SocketId, types: Option<seq<int>>): (r: Verdict)
    ensures room.None? <==> r == Stop(ErrorMsg("room_not_found"))
    ensures r.Stop? ==> r.reply == Silent || r.reply == ErrorMsg("room_not_found")
    ensures r.Go? <==>
      && room.Some? && room.value.phase == Active
      && Authentic(room.value, pid, secret, socket)
      && room.value.activePlayerId != Some(pid)
      && exists t: CardType :: types.Some? && t in types.value
  {
    if room.None? then Stop(ErrorMsg("room_not_found"))
    else if room.value.phase != Active then Stop(Silent)
    else if !Authentic(room.value, pid, secret, socket) then Stop(Silent)
    else if room.value.activePlayerId == Some(pid) then Stop(Silent)
    else if |TypeIds(types)| == 0 then Stop(Silent)
    else
      assert TypeIds(types)[0] in TypeIds(types);
      Go
  }

  /** What a handler leaves and answers. */
  datatype Handled = Handled(manager: Manager, reply: Reply)

  /** `give_to_active`: past the guard, the sender hands every card of the
      requested types to the active player and the room's clock is set. */
  function OnGiveToActive(m: Manager, roomId: RoomId, pid: PlayerId, secret: string, socket: SocketId,
                          types: Option<seq<int>>, now: int): (r: Handled)
    ensures GiveGuard(Lookup(m, roomId), pid, secret, socket, types).Stop? ==>
      r == Handled(m, GiveGuard(Lookup(m, roomId), pid, secret, socket, types).reply)
    ensures r.manager.sockets == m.sockets
    ensures forall k :: k in r.manager.rooms <==> k in m.rooms
    ensures forall k :: k in m.rooms && k != roomId ==> r.manager.rooms[k] == m.rooms[k]
  {
    match GiveGuard(Lookup(m, roomId), pid, secret, socket, types)
    case Stop(reply) => Handled(m, reply)
    case Go =>
      var g := GiveToActiveWithMoved(m.rooms[roomId], pid, TypeIds(types), now);
      Handled(SetRoom(m, roomId, Touch(g.room, now)), Silent)
  }

  /* A gift that passes the guard keeps the room's cards and players and
     empties the sender of exactly the requested types; a gift from anybody
     but an authentic non-active player of a running game changes nothing. */
  lemma GiveOnlyFromAuthentic(m: Manager, roomId: RoomId, pid: PlayerId, secret: string, socket: SocketId,
                              types: Option<seq<int>>, now: int)
    ensures var r := OnGiveToActive(m, roomId, pid, secret, socket, types, now);
      && ((|| roomId !in m.rooms || m.rooms[roomId].phase != Active
           || !Authentic(m.rooms[roomId], pid, secret, socket) || m.rooms[roomId].activePlayerId == Some(pid))
          ==> r.manager == m)
      && (roomId in m.rooms ==>
        && Cards(r.manager.rooms[roomId]) == Cards(m.rooms[roomId])
        && SameRoster(m.rooms[roomId].players, r.manager.rooms[roomId].players))
  {
    if roomId in m.rooms {
      GiveCards(m.rooms[roomId], pid, TypeIds(types), now);
    }
  }

  /* Past the guard, the sender holds no card of a requested type. */
  lemma GiveEmptiesTypes(m: Manager, roomId: RoomId, pid: PlayerId, secret: string, socket: SocketId,
                         types: Option<seq<int>>, now: int)
    requires GiveGuard(Lookup(m, roomId), pid, secret, socket, types).Go?
    requires ActiveInRoom(m.rooms[roomId])
    ensures var room' := OnGiveToActive(m, roomId, pid, secret, socket, types, now).manager.rooms[roomId];
      var s := IndexOf(m.rooms[roomId].players, pid).value;
      forall u: CardType :: types.Some? && u in types.value ==> Count(room'.players[s].hand, u) == 0
  {
    var room := m.rooms[roomId];
    GiveMoved(room, pid, TypeIds(types), now);
  }

  // ---------------------------------------------------------------------
  // end_turn
  // ---------------------------------------------------------------------

  /** The guard of `end_turn`: the room must exist (else
      `room_not_found`); silently ignored unless the game runs and the
      sender is the authentic active player. */
  function EndTurnGuard(room: Option<Room>, pid: PlayerId, secret: string, socket: SocketId): (r: Verdict)
    ensures room.None? <==> r == Stop(ErrorMsg("room_not_found"))
    ensures r.Stop? ==> r.reply == Silent || r.reply == ErrorMsg("room_not_found")
    ensures r.Go? <==>
      room.Some? && room.value.phase == Active && room.value.activePlayerId == Some(pid) &&
      Authentic(room.value, pid, secret, socket)
  {
    if room.None? then Stop(ErrorMsg("room_not_found"))
    else if room.value.phase != Active then Stop(Silent)
    else if room.value.activePlayerId != Some(pid) then Stop(Silent)
    else if !Authentic(room.value, pid, secret, socket) then Stop(Silent)
    else Go
  }

  /** `end_turn`: past the guard the turn ends (with the given random
      draws) and the room's clock is set; `game_finished` is sent when the
      game is over. */
  function OnEndTurn(m: Manager, roomId: RoomId, pid: PlayerId, secret: string, socket: SocketId,
                     swaps: seq<nat>, now: int): (r: Handled)
    requires EndTurnGuard(Lookup(m, roomId), pid, secret, socket).Go? ==> CanEndTurn(m.rooms[roomId], swaps)
    ensures EndTurnGuard(Lookup(m, roomId), pid, secret, socket).Stop? ==>
      r == Handled(m, EndTurnGuard(Lookup(m, roomId), pid, secret, socket).reply)
    ensures r.manager.sockets == m.sockets
    ensures forall k :: k in r.manager.rooms <==> k in m.rooms
    ensures r.reply == GameFinished <==>
      EndTurnGuard(Lookup(m, roomId), pid, secret, socket).Go? && r.manager.rooms[roomId].phase == Finished
    ensures forall k :: k in m.rooms && k != roomId ==> r.manager.rooms[k] == m.rooms[k]
  {
    match EndTurnGuard(Lookup(m, roomId), pid, secret, socket)
    case Stop(reply) => Handled(m, reply)
    case Go =>
      var room' := Touch(EndTurn(m.rooms[roomId], swaps, now), now);
      Handled(SetRoom(m, roomId, room'), if room'.phase == Finished then GameFinished else Silent)
  }

  /* Only the active player can end the turn, and the turn passes to the
     next position of the turn order; every card is kept. */
  lemma EndTurnOnlyByActive(m: Manager, roomId: RoomId, pid: PlayerId, secret: string, socket: SocketId,
                            swaps: seq<nat>, now: int)
    requires EndTurnGuard(Lookup(m, roomId), pid, secret, socket).Go? ==> CanEndTurn(m.rooms[roomId], swaps)
    ensures var r := OnEndTurn(m, roomId, pid, secret, socket, swaps, now);
      && (r.manager != m ==>
        roomId in m.rooms && m.rooms[roomId].activePlayerId == Some(pid) && Authentic(m.rooms[roomId], pid, secret, socket))
      && (EndTurnGuard(Lookup(m, roomId), pid, secret, socket).Go? ==>
        var room := m.rooms[roomId];
        var room' := r.manager.rooms[roomId];
        && room'.turnIndex == NextPosition(room.turnIndex, |room.order|)
        && room'.activePlayerId == Some(room.order[room'.turnIndex])
        && Cards(room') == Cards(room))
  {
    if EndTurnGuard(Lookup(m, roomId), pid, secret, socket).Go? {
      EndTurnCards(m.rooms[roomId], swaps, now);
    }
  }

  // ---------------------------------------------------------------------
  // Host commands
  // ---------------------------------------------------------------------

  /** The guard of `game_start`: `room_not_found`, then `not_host`. */
  function GameStartGuard(room: Option<Room>, socket: SocketId): (r: Verdict)
    ensures room.None? <==> r == Stop(ErrorMsg("room_not_found"))
    ensures room.Some? && !IsHost(room.value, socket) <==> r == Stop(ErrorMsg("not_host"))
    ensures r.Go? <==> room.Some? && IsHost(room.value, socket)
  {
    if room.None? then Stop(ErrorMsg("room_not_found"))
    else if !IsHost(room.value, socket) then Stop(ErrorMsg("not_host"))
    else Go
  }

  /** The message `startGame` throws for each of its errors. */
  function ErrorText(e: RoomError): string
  {
    match e
    case RoomNotFound => "room_not_found"
    case RoomFull => "room_full"
    case BadSecret => "bad_secret"
    case BadPhase => "bad_phase"
    case NeedTwoPlayers => "need_2_players"
    case TemplateNotFound => "template_not_found"
  }

  /** `game_start`: past the guard the game starts, or `startGame`'s error
      is sent back (a missing template still leaves its id recorded). */
  function OnGameStart(m: Manager, roomId: RoomId, socket: SocketId, templateId: Option<string>, templateExists: bool,
                       orderSwaps: seq<nat>, dealSwaps: seq<nat>, seed: nat, now: int): (r: Handled)
    requires roomId in m.rooms ==> SwapsFit(|m.rooms[roomId].players|, orderSwaps)
    requires SwapsFit(Copies * TypeCount, dealSwaps)
    ensures GameStartGuard(Lookup(m, roomId), socket).Stop? ==>
      r == Handled(m, GameStartGuard(Lookup(m, roomId), socket).reply)
    ensures GameStartGuard(Lookup(m, roomId), socket).Go? ==>
      var a := StartGame(m, roomId, templateId, templateExists, orderSwaps, dealSwaps, seed, now);
      r.manager == a.manager && (r.reply == Silent <==> a.error.None?)
  {
    match GameStartGuard(Lookup(m, roomId), socket)
    case Stop(reply) => Handled(m, reply)
    case Go =>
      var a := StartGame(m, roomId, templateId, templateExists, orderSwaps, dealSwaps, seed, now);
      Handled(a.manager, match a.error case Some(e) => ErrorMsg(ErrorText(e)) case None => Silent)
  }

  /** The guard shared by `host_remove_player` and `game_new`: silently
      ignored unless the room exists and the socket is its host. */
  function HostGuard(room: Option<Room>, socket: SocketId): (r: Verdict)
    ensures r.Stop? ==> r.reply == Silent
    ensures r.Go? <==> room.Some? && IsHost(room.value, socket)
  {
    if room.None? || !IsHost(room.value, socket) then Stop(Silent) else Go
  }

  /** `host_remove_player`: past the guard the player leaves (an unknown
      player changes nothing but the clock), the turn index stays where it
      was, and the room's clock is set. */
  function OnHostRemovePlayer(m: Manager, roomId: RoomId, socket: SocketId, pid: PlayerId, swaps: seq<nat>, now: int): (r: Handled)
    requires roomId in m.rooms ==> SwapsFit(|m.rooms[roomId].deck| + PlayerTotal(m.rooms[roomId].players, pid), swaps)
    ensures r.reply == Silent
    ensures HostGuard(Lookup(m, roomId), socket).Stop? ==> r.manager == m
    ensures HostGuard(Lookup(m, roomId), socket).Go? ==>
      && roomId in r.manager.rooms
      && (UniqueIds(m.rooms[roomId].players) ==> !HasPlayer(r.manager.rooms[roomId].players, pid))
      && r.manager.rooms[roomId].turnIndex == m.rooms[roomId].turnIndex
      && r.manager.rooms[roomId].lastActivityAt == now
  {
    match HostGuard(Lookup(m, roomId), socket)
    case Stop(_) => Handled(m, Silent)
    case Go =>
      var removed := RemovePlayer(m, roomId, pid, swaps, now).value;
      assert UniqueIds(m.rooms[roomId].players) ==> !HasPlayer(removed.rooms[roomId].players, pid) by {
        if UniqueIds(m.rooms[roomId].players) {
          RemoveOthersKept(m.rooms[roomId], pid, swaps, now, pid);
        }
      }
      Handled(SetRoom(removed, roomId, Touch(removed.rooms[roomId], now)), Silent)
  }

  /** `game_new`: past the guard the room goes back to the lobby, keeping
      its template, and its clock is set. */
  function OnGameNew(m: Manager, roomId: RoomId, socket: SocketId, now: int): (r: Handled)
    ensures r.reply == Silent
    ensures HostGuard(Lookup(m, roomId), socket).Stop? ==> r.manager == m
    ensures HostGuard(Lookup(m, roomId), socket).Go? ==>
      && roomId in r.manager.rooms
      && r.manager.rooms[roomId].phase == Lobby
      && r.manager.rooms[roomId].templateId == m.rooms[roomId].templateId
      && Cards(r.manager.rooms[roomId]) == 0
  {
    match HostGuard(Lookup(m, roomId), socket)
    case Stop(_) => Handled(m, Silent)
    case Go =>
      var reset := NewGame(m, roomId, None, now).value;
      Handled(SetRoom(reset, roomId, Touch(reset.rooms[roomId], now)), Silent)
  }

  /* A socket that is not the host's cannot start, reset or remove
     anything: the manager is unchanged. */
  lemma OnlyHostCommands(m: Manager, roomId: RoomId, socket: SocketId, pid: PlayerId, swaps: seq<nat>, now: int,
                         templateId: Option<string>, templateExists: bool, orderSwaps: seq<nat>, dealSwaps: seq<nat>, seed: nat)
    requires roomId in m.rooms ==> !IsHost(m.rooms[roomId], socket)
    requires roomId in m.rooms ==> SwapsFit(|m.rooms[roomId].deck| + PlayerTotal(m.rooms[roomId].players, pid), swaps)
    requires roomId in m.rooms ==> SwapsFit(|m.rooms[roomId].players|, orderSwaps)
    requires SwapsFit(Copies * TypeCount, dealSwaps)
    ensures OnHostRemovePlayer(m, roomId, socket, pid, swaps, now).manager == m
    ensures OnGameNew(m, roomId, socket, now).manager == m
    ensures OnGameStart(m, roomId, socket, templateId, templateExists, orderSwaps, dealSwaps, seed, now).manager == m
  {
  }

  // ---------------------------------------------------------------------
  // broadcastState
  // ---------------------------------------------------------------------

  /** A `room_state` message: to the host with its view, or to a player's
      socket with that player's view. */
  datatype Message = ToHost(socket: SocketId, hostView: HostView) | ToPlayer(to: SocketId, playerView: PlayerView)

  /** The player messages for the players of `ps`, in their order: one per
      connected player, with that player's own view of `room`. */
  function PlayerMessages(room: Room, ps: seq<Player>): (r: seq<Message>)
    ensures |r| <= |ps|
    ensures forall k :: 0 <= k < |r| ==> r[k].ToPlayer?
  {
    if |ps| == 0 then []
    else
      var rest := PlayerMessages(room, ps[1..]);
      match ps[0].socketId
      case Some(s) => [ToPlayer(s, SnapshotForPlayer(room, ps[0].id))] + rest
      case None => rest
  }

  /** `broadcastState`: the host's view to the host when it is connected,
      then each connected player's own view to it. */
  function BroadcastState(room: Room): (r: seq<Message>)
    ensures room.host.Some? ==> |r| > 0 && r[0] == ToHost(room.host.value, SnapshotForHost(room))
    ensures forall k :: 0 <= k < |r| && r[k].ToHost? ==> k == 0 && room.host == Some(r[k].socket)
  {
    match room.host
    case Some(h) => [ToHost(h, SnapshotForHost(room))] + PlayerMessages(room, room.players)
    case None => PlayerMessages(room, room.players)
  }

  /* Every connected player receives its own view on its own socket. */
  lemma {:induction false} EveryOnlinePlayerServed(room: Room, ps: seq<Player>, i: nat)
    requires i < |ps| && ps[i].socketId.Some?
    ensures ToPlayer(ps[i].socketId.value, SnapshotForPlayer(room, ps[i].id)) in PlayerMessages(room, ps)
    decreases |ps|
  {
    if i > 0 {
      assert ps[1..][i - 1] == ps[i];
      EveryOnlinePlayerServed(room, ps[1..], i - 1);
    }
  }

  /* Every player message goes to a connected player's socket and carries
     that player's view: nobody receives somebody else's hand, and nobody
     offline is sent anything. */
  lemma {:induction false} OnlyOwnViews(room: Room, ps: seq<Player>, k: nat)
    requires k < |PlayerMessages(room, ps)|
    ensures exists i ::
      && 0 <= i < |ps| && ps[i].socketId == Some(PlayerMessages(room, ps)[k].to)
      && PlayerMessages(room, ps)[k].playerView == SnapshotForPlayer(room, ps[i].id)
    decreases |ps|
  {
    var rest := PlayerMessages(room, ps[1..]);
    if ps[0].socketId.Some? && k == 0 {
      assert ps[0].socketId == Some(PlayerMessages(room, ps)[k].to);
    } else {
      var k' := if ps[0].socketId.Some? then k - 1 else k;
      assert PlayerMessages(room, ps)[k] == rest[k'];
      OnlyOwnViews(room, ps[1..], k');
      var i :| 0 <= i < |ps[1..]| && ps[1..][i].socketId == Some(rest[k'].to) &&
        rest[k'].playerView == SnapshotForPlayer(room, ps[1..][i].id);
      assert ps[i + 1] == ps[1..][i];
    }
  }

  /* Exactly one message per connected player (plus the host's). */
  lemma {:induction false} OneMessageEach(room: Room, ps: seq<Player>)
    ensures |PlayerMessages(room, ps)| == OnlineCount(ps)
    decreases |ps|
  {
    if |ps| > 0 {
      OneMessageEach(room, ps[1..]);
    }
  }

  /** The number of connected players. */
  function OnlineCount(ps: seq<Player>): nat
  {
    if |ps| == 0 then 0 else (if ps[0].socketId.Some? then 1 else 0) + OnlineCount(ps[1..])
  }
}
