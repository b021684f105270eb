/**
 The two views of a room that the server sends out (server/src/rooms.js
 `snapshotForHost` and `snapshotForPlayer`). The host sees every hand; a
 player sees its own hand and only the size of everybody else's.
 */
module Snapshots {
  import opened Basics
  import opened Hands
  import opened RoomState

  /** A player as the host sees it. */
  datatype HostRow = HostRow(id: PlayerId, name: string, seat: Option<nat>, hand: Hand,
                             handTotal: nat, setsCount: nat, online: bool)

  /** A player as the other players see it: no hand, only its size. */
  datatype PlayerRow = PlayerRow(id: PlayerId, name: string, seat: Option<nat>,
                                 handTotal: nat, setsCount: nat, online: bool)

  /** The viewer's own id and hand. */
  datatype Me = Me(id: PlayerId, hand: Hand)

  datatype HostView = HostView(roomId: RoomId, phase: Phase, templateId: Option<string>,
                               players: seq<HostRow>, order: seq<PlayerId>, turnOrder: seq<PlayerId>,
                               activePlayerId: Option<PlayerId>, deckCount: nat, publicSets: seq<SetEntry>)

  datatype PlayerView = PlayerView(roomId: RoomId, phase: Phase, templateId: Option<string>,
                                   players: seq<PlayerRow>, order: seq<PlayerId>, turnOrder: seq<PlayerId>,
                                   activePlayerId: Option<PlayerId>, deckCount: nat, publicSets: seq<SetEntry>,
                                   me: Me)

  /** `p.seat || null`: seat 0 shows as no seat. */
  function ShownSeat(seat: Option<nat>): (r: Option<nat>)
    ensures r.Some? <==> seat.Some? && seat.value != 0
    ensures r.Some? ==> r == seat
  {
    match seat
    case Some(s) => if s == 0 then None else seat
    case None => None
  }

  function HostRowOf(p: Player): HostRow
  {
    HostRow(p.id, p.name, ShownSeat(p.seat), p.hand, HandTotal(p.hand), p.setsCount, p.socketId.Some?)
  }

  function PlayerRowOf(p: Player): PlayerRow
  {
    PlayerRow(p.id, p.name, ShownSeat(p.seat), HandTotal(p.hand), p.setsCount, p.socketId.Some?)
  }

  /** `snapshotForHost`: one row per player, in the players' order, with
      the hand, its size and whether the player is connected. */
  function SnapshotForHost(room: Room): (r: HostView)
    ensures |r.players| == |room.players|
    ensures forall i :: 0 <= i < |room.players| ==>
      r.players[i].id == room.players[i].id && r.players[i].hand == room.players[i].hand &&
      (r.players[i].online <==> room.players[i].socketId.Some?)
    ensures r.deckCount == |room.deck| && r.publicSets == room.publicSets
  {
    HostView(room.id, room.phase, room.templateId,
      seq(|room.players|, i requires 0 <= i < |room.players| => HostRowOf(room.players[i])),
      room.order, room.turnOrder, room.activePlayerId, |room.deck|, room.publicSets)
  }

  /** The viewer's hand: empty when no player has its id. */
  function MyHand(room: Room, pid: PlayerId): (r: Hand)
    ensures IndexOf(room.players, pid).None? ==> r == map[]
  {
    match IndexOf(room.players, pid)
    case Some(i) => room.players[i].hand
    case None => map[]
  }

  /** `snapshotForPlayer`: the host's view without the hands, plus the
      viewer's own hand. */
  function SnapshotForPlayer(room: Room, pid: PlayerId): (r: PlayerView)
    ensures |r.players| == |room.players|
    ensures r.me.id == pid
  {
    PlayerView(room.id, room.phase, room.templateId,
      seq(|room.players|, i requires 0 <= i < |room.players| => PlayerRowOf(room.players[i])),
      room.order, room.turnOrder, room.activePlayerId, |room.deck|, room.publicSets,
      Me(pid, MyHand(room, pid)))
  }

  /** A host row with the hand dropped. */
  function Strip(row: HostRow): PlayerRow
  {
    PlayerRow(row.id, row.name, row.seat, row.handTotal, row.setsCount, row.online)
  }

  function RowTotal(row: HostRow): nat { row.handTotal }

  /* A player's view is the host's view with the hands taken out, and the
     viewer's hand is the one the host sees in the viewer's row. */
  lemma PlayerViewIsHostView(room: Room, pid: PlayerId)
    ensures var h := SnapshotForHost(room);
      var v := SnapshotForPlayer(room, pid);
      && |v.players| == |h.players|
      && (forall i :: 0 <= i < |h.players| ==> v.players[i] == Strip(h.players[i]))
      && v.roomId == h.roomId && v.phase == h.phase && v.templateId == h.templateId
      && v.order == h.order && v.turnOrder == h.turnOrder && v.activePlayerId == h.activePlayerId
      && v.deckCount == h.deckCount && v.publicSets == h.publicSets
      && (IndexOf(room.players, pid).Some? ==> v.me.hand == h.players[IndexOf(room.players, pid).value].hand)
  {
  }

  /* The host's view accounts for every card of the room: the hand sizes
     it shows, the deck size and four cards per completed set add up to
     the room's card count. */
  lemma HostViewAccounts(room: Room)
    ensures var h := SnapshotForHost(room);
      SumOf(h.players, RowTotal) + h.deckCount + Copies * TotalSets(h.publicSets) == Cards(room)
  {
    var h := SnapshotForHost(room);
    SumOfAgree(room.players, PlayerCards, h.players, RowTotal);
  }

  /* What a player sees does not depend on the other players' cards beyond
     their number: two rooms that differ only in the hands of players other
     than the viewer, hand sizes kept, give the viewer the same view. */
  lemma PlayerViewHidesOthers(a: Room, b: Room, pid: PlayerId)
    requires a == b.(players := a.players) && |a.players| == |b.players|
    requires forall i :: 0 <= i < |a.players| ==>
      && a.players[i] == b.players[i].(hand := a.players[i].hand)
      && HandTotal(a.players[i].hand) == HandTotal(b.players[i].hand)
      && (a.players[i].id == pid ==> a.players[i].hand == b.players[i].hand)
    ensures SnapshotForPlayer(a, pid) == SnapshotForPlayer(b, pid)
  {
    var va := SnapshotForPlayer(a, pid);
    var vb := SnapshotForPlayer(b, pid);
    assert va.players == vb.players by {
      assert forall i :: 0 <= i < |a.players| ==> va.players[i] == vb.players[i];
    }
    assert forall i :: 0 <= i < |a.players| ==> PlayerKey(a.players[i]) == PlayerKey(b.players[i]);
    FirstIndexSameKeys(a.players, PlayerKey, b.players, PlayerKey, pid);
  }

  /* Conversely, the host's view tells any two different hands apart. */
  lemma HostViewShowsHands(a: Room, b: Room, i: nat)
    requires i < |a.players| && i < |b.players| && a.players[i].hand != b.players[i].hand
    ensures SnapshotForHost(a) != SnapshotForHost(b)
  {
    assert SnapshotForHost(a).players[i].hand != SnapshotForHost(b).players[i].hand;
  }
}
