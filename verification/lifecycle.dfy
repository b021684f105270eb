/**
 The room-level transitions of server/src/rooms.js: seat numbering, joining
 a game in progress, starting a game, resetting a room for a new game and
 removing a player. The manager around them (module Rooms) looks the room
 up, reports the error cases and stores the result.
 */
module Lifecycle {
  import opened Basics
  import opened Utils
  import opened Hands
  import opened RoomState
  import opened GameLogic

  // ---------------------------------------------------------------------
  // Seats
  // ---------------------------------------------------------------------

  /** A seat as the source reads it: a missing seat and seat 0 both count
      as no seat (both are falsy). */
  function SeatNumber(p: Player): nat
  {
    match p.seat
    case Some(s) => s
    case None => 0
  }

  /** The highest seat number in the list, 0 if nobody is seated. */
  function MaxSeat(ps: seq<Player>): (r: nat)
    ensures forall i :: 0 <= i < |ps| ==> SeatNumber(ps[i]) <= r
    ensures r == 0 || exists i :: 0 <= i < |ps| && SeatNumber(ps[i]) == r
  {
    if |ps| == 0 then 0
    else
      var rest := MaxSeat(ps[1..]);
      assert forall i :: 1 <= i < |ps| ==> ps[1..][i - 1] == ps[i];
      Max(SeatNumber(ps[0]), rest)
  }

  /** `nextSeat`: one past the highest seat, so above every seat in use. */
  function NextSeat(ps: seq<Player>): (r: nat)
    ensures r > 0
    ensures forall i :: 0 <= i < |ps| ==> SeatNumber(ps[i]) < r
    ensures r == 1 || exists i :: 0 <= i < |ps| && SeatNumber(ps[i]) == r - 1
  {
    MaxSeat(ps) + 1
  }

  // ---------------------------------------------------------------------
  // Late join
  // ---------------------------------------------------------------------

  /** What `appendLateJoin` leaves and returns. */
  datatype LateJoin = LateJoin(room: Room, dealt: nat)

  /** The turn tracker after a late join: the newcomer is added to the
      players who owe a gift when it owes one and a turn is in progress. */
  function AddEligible(tt: Option<TurnTracker>, pid: PlayerId, owes: bool): (r: Option<TurnTracker>)
    ensures r.Some? <==> tt.Some?
    ensures r.Some? ==> r.value.gave == tt.value.gave && r.value.startedAt == tt.value.startedAt
    ensures r.Some? ==> forall q :: q in r.value.eligible <==> q in tt.value.eligible || (owes && q == pid)
  {
    match tt
    case Some(t) => if owes then Some(t.(eligible := t.eligible + {pid})) else tt
    case None => None
  }

  /** `appendLateJoin`: the newcomer goes to the end of both turn orders,
      draws up to four cards from the top of the deck and lays down any set;
      it owes a gift in the current turn when there is one, it is not the
      active player and it holds a card. A missing player draws nothing. */
  function AppendLateJoin(room: Room, pid: PlayerId, now: int): (r: LateJoin)
    ensures r.room.order == room.order + [pid] && r.room.turnOrder == room.turnOrder + [pid]
    ensures HasPlayer(room.players, pid) ==> r.dealt == Min(HandSize, |room.deck|)
    ensures !HasPlayer(room.players, pid) ==>
      r.dealt == 0 && r.room == room.(order := r.room.order, turnOrder := r.room.turnOrder)
    ensures r.room.deck == room.deck[..|room.deck| - r.dealt]
    ensures SameRoster(room.players, r.room.players)
    ensures r.room == room.(order := r.room.order, turnOrder := r.room.turnOrder, deck := r.room.deck,
      players := r.room.players, publicSets := r.room.publicSets, turnTracker := r.room.turnTracker,
      lastActivityAt := r.room.lastActivityAt)
  {
    var joined := room.(order := room.order + [pid], turnOrder := room.turnOrder + [pid]);
    if !HasPlayer(room.players, pid) then LateJoin(joined, 0)
    else
      var k := Min(HandSize, |room.deck|);
      var drawn := DrawEach(joined, Repeat(pid, k));
      var checked := CheckSets(drawn, pid, now);
      var owes := checked.activePlayerId != Some(pid) && PlayerTotal(checked.players, pid) > 0;
      LateJoin(checked.(turnTracker := AddEligible(checked.turnTracker, pid, owes)), k)
  }

  /* A late join moves cards from the deck to the newcomer (or into its
     sets): the room's card count is unchanged. */
  lemma LateJoinCards(room: Room, pid: PlayerId, now: int)
    ensures Cards(AppendLateJoin(room, pid, now).room) == Cards(room)
  {
    if HasPlayer(room.players, pid) {
      var joined := room.(order := room.order + [pid], turnOrder := room.turnOrder + [pid]);
      var pids := Repeat(pid, Min(HandSize, |room.deck|));
      DrawEachCards(joined, pids);
      CheckSetsCards(DrawEach(joined, pids), pid, now);
    }
  }

  /* The stages of a late join when the player is present: the draws, then
     the check for sets. */
  lemma LateJoinStages(room: Room, pid: PlayerId, now: int)
    requires HasPlayer(room.players, pid)
    ensures var joined := room.(order := room.order + [pid], turnOrder := room.turnOrder + [pid]);
      var c := CheckSets(DrawEach(joined, Repeat(pid, Min(HandSize, |room.deck|))), pid, now);
      var r := AppendLateJoin(room, pid, now).room;
      r.players == c.players && r.publicSets == c.publicSets
  {
  }

  /* The dealt cards go to the newcomer: its cards in hand plus four per set
     it laid down grow by exactly the number dealt. */
  lemma LateJoinNewcomer(room: Room, pid: PlayerId, now: int)
    ensures var r := AppendLateJoin(room, pid, now);
      PlayerTotal(r.room.players, pid) + Copies * SetsOf(r.room.publicSets, pid)
        == PlayerTotal(room.players, pid) + r.dealt + Copies * SetsOf(room.publicSets, pid)
  {
    if HasPlayer(room.players, pid) {
      var joined := room.(order := room.order + [pid], turnOrder := room.turnOrder + [pid]);
      var k := Min(HandSize, |room.deck|);
      var pids := Repeat(pid, k);
      var drawn := DrawEach(joined, pids);
      assert pids[..Min(|joined.deck|, |pids|)] == pids;
      RepeatCount(pid, k, pid);
      DrawEachTotals(joined, pids, pid);
      SameRosterIndex(room.players, drawn.players, pid);
      CheckSetsPlayer(drawn, pid, now);
      SameRosterIndex(drawn.players, CheckSets(drawn, pid, now).players, pid);
      LateJoinStages(room, pid, now);
    }
  }

  /* Nobody else receives a card: every other player's hand total is
     unchanged. */
  lemma LateJoinOthers(room: Room, pid: PlayerId, now: int, q: PlayerId)
    requires q != pid
    ensures PlayerTotal(AppendLateJoin(room, pid, now).room.players, q) == PlayerTotal(room.players, q)
  {
    if HasPlayer(room.players, pid) {
      var joined := room.(order := room.order + [pid], turnOrder := room.turnOrder + [pid]);
      var k := Min(HandSize, |room.deck|);
      var pids := Repeat(pid, k);
      var drawn := DrawEach(joined, pids);
      RepeatCount(pid, k, q);
      assert pids[..Min(|joined.deck|, |pids|)] == pids;
      DrawEachTotals(joined, pids, q);
      var c := CheckSets(drawn, pid, now);
      SameRosterIndex(drawn.players, c.players, q);
      if HasPlayer(drawn.players, q) {
        CheckSetsOthers(drawn, pid, now, IndexOf(drawn.players, q).value);
      }
      LateJoinStages(room, pid, now);
    }
  }

  /* The newcomer joins the players who owe a gift exactly when a turn is
     in progress, it is not the active player and it holds a card after
     laying down its sets; nothing else in the tracker changes. */
  lemma LateJoinTracker(room: Room, pid: PlayerId, now: int)
    ensures var r := AppendLateJoin(room, pid, now).room;
      && (r.turnTracker.Some? <==> room.turnTracker.Some?)
      && (r.turnTracker.Some? ==>
        && r.turnTracker.value.gave == room.turnTracker.value.gave
        && (forall q :: q != pid ==> (q in r.turnTracker.value.eligible <==> q in room.turnTracker.value.eligible))
        && (pid in r.turnTracker.value.eligible <==>
          || pid in room.turnTracker.value.eligible
          || (HasPlayer(room.players, pid) && room.activePlayerId != Some(pid) && PlayerTotal(r.players, pid) > 0)))
  {
  }

  // ---------------------------------------------------------------------
  // Game start
  // ---------------------------------------------------------------------

  function IdOf(pid: PlayerId): PlayerId { pid }

  /** Where `pid` stands in a turn order, counted from 0. */
  function Position(order: seq<PlayerId>, pid: PlayerId): Option<nat>
  {
    FirstIndex(order, IdOf, pid)
  }

  /** A player as a game starts: seated at its position in `order` counted
      from 1 (a player missing from `order` keeps its seat), with an empty
      hand and no sets. */
  function Reseat(ps: seq<Player>, order: seq<PlayerId>): (r: seq<Player>)
    ensures SameMembers(ps, r)
    ensures forall i :: 0 <= i < |r| ==> r[i].hand == map[] && r[i].setsCount == 0
  {
    seq(|ps|, i requires 0 <= i < |ps| =>
      ps[i].(hand := map[], setsCount := 0,
        seat := match Position(order, ps[i].id) case Some(k) => Some(k + 1) case None => ps[i].seat))
  }

  /* Players without cards hold none in total. */
  lemma {:induction false} EmptyHands(ps: seq<Player>)
    requires forall i :: 0 <= i < |ps| ==> ps[i].hand == map[]
    ensures TotalHands(ps) == 0
  {
    if |ps| > 0 {
      assert HandTotal(ps[0].hand) == 0;
      assert forall i :: 0 <= i < |ps[1..]| ==> ps[1..][i] == ps[i + 1];
      EmptyHands(ps[1..]);
    }
  }

  /* Ids that match the players' ids as multisets all name players. */
  lemma PermutedIdsPresent(ps: seq<Player>, ps': seq<Player>, order: seq<PlayerId>)
    requires multiset(order) == multiset(Ids(ps)) && SameMembers(ps, ps')
    ensures forall pid :: pid in order ==> HasPlayer(ps', pid)
  {
    forall pid | pid in order ensures HasPlayer(ps', pid) {
      assert pid in multiset(Ids(ps));
      IdsPresent(ps, pid);
      SameMembersIndex(ps, ps', pid);
    }
  }

  /** The first steps of `startGame`: the player ids in shuffled order (and
      the same turn order), seats by position, no cards in hand or on the
      table and a fresh deck. */
  function Seated(room: Room, orderSwaps: seq<nat>): (r: Room)
    requires SwapsFit(|room.players|, orderSwaps)
    ensures multiset(r.order) == multiset(Ids(room.players)) && r.turnOrder == r.order
    ensures SameMembers(room.players, r.players)
    ensures OrderInRoom(r)
    ensures Cards(r) == Copies * TypeCount
    ensures |r.deck| == Copies * TypeCount && r.publicSets == []
    ensures r == room.(order := r.order, turnOrder := r.turnOrder, players := r.players,
      deck := r.deck, publicSets := r.publicSets)
  {
    var order := Shuffle(Ids(room.players), orderSwaps);
    var ps := Reseat(room.players, order);
    PermutedIdsPresent(room.players, ps, order);
    EmptyHands(ps);
    room.(order := order, turnOrder := order, players := ps, publicSets := [], deck := BuildDeck())
  }

  /** The cards dealt and the spinner's pick made: four cards to each id of
      `order` while the deck lasts, and the id at the picked index active. */
  function Picked(room: Room, orderSwaps: seq<nat>, dealSwaps: seq<nat>, seed: nat): (r: Room)
    requires |room.players| >= 2
    requires SwapsFit(|room.players|, orderSwaps) && SwapsFit(Copies * TypeCount, dealSwaps)
    ensures r.order == Seated(room, orderSwaps).order && r.turnOrder == r.order
    ensures r.turnIndex < |r.order| && r.activePlayerId == Some(r.order[r.turnIndex])
    ensures SameRoster(Seated(room, orderSwaps).players, r.players)
    ensures |r.deck| == Copies * TypeCount - Min(Copies * TypeCount, HandSize * |room.players|)
    ensures r == Seated(room, orderSwaps).(players := r.players, deck := r.deck,
      turnIndex := r.turnIndex, activePlayerId := r.activePlayerId)
  {
    var seated := Seated(room, orderSwaps);
    var dealt := Deal(seated, HandSize, dealSwaps);
    var ti := SpinnerPickIndex(seed, |seated.order|);
    dealt.(turnIndex := ti, activePlayerId := Some(seated.order[ti]))
  }

  /** The seated, dealt and picked room with its first turn open and any
      set dealt laid down. */
  function Opened(room: Room, orderSwaps: seq<nat>, dealSwaps: seq<nat>, seed: nat, now: int): (r: Room)
    requires |room.players| >= 2
    requires SwapsFit(|room.players|, orderSwaps) && SwapsFit(Copies * TypeCount, dealSwaps)
    ensures multiset(r.order) == multiset(Ids(room.players)) && r.turnOrder == r.order
    ensures r.turnIndex < |r.order| && r.activePlayerId == Some(r.order[r.turnIndex])
    ensures SameMembers(room.players, r.players)
    ensures |r.deck| == Copies * TypeCount - Min(Copies * TypeCount, HandSize * |room.players|)
    ensures forall pid :: pid in r.order ==> NoFullType(r.players, pid)
    ensures r.id == room.id && r.host == room.host && r.templateId == room.templateId
  {
    var seated := Seated(room, orderSwaps);
    var picked := Picked(room, orderSwaps, dealSwaps, seed);
    var tracked := picked.(turnTracker := Some(StartTurnTracker(picked, now)));
    var checked := CheckSetsAll(tracked, picked.order, now);
    assert checked.order == picked.order && tracked.players == picked.players;
    SameRosterTrans(seated.players, picked.players, checked.players);
    SameMembersThenRoster(room.players, seated.players, checked.players);
    checked
  }

  /** `startGame` once its checks have passed: seat and deal, pick the first
      player, open the first turn, lay down any set dealt, and go active. */
  function StartRoom(room: Room, orderSwaps: seq<nat>, dealSwaps: seq<nat>, seed: nat, now: int): (r: Room)
    requires |room.players| >= 2
    requires SwapsFit(|room.players|, orderSwaps) && SwapsFit(Copies * TypeCount, dealSwaps)
    ensures r.phase == Active && r.startedAt == Some(now) && r.lastActivityAt == now
    ensures multiset(r.order) == multiset(Ids(room.players)) && r.turnOrder == r.order
    ensures r.turnIndex < |r.order| && r.activePlayerId == Some(r.order[r.turnIndex])
    ensures SameMembers(room.players, r.players)
    ensures |r.deck| == Copies * TypeCount - Min(Copies * TypeCount, HandSize * |room.players|)
    ensures forall pid :: pid in r.order ==> NoFullType(r.players, pid)
    ensures r.id == room.id && r.host == room.host && r.templateId == room.templateId
  {
    var ready := Opened(room, orderSwaps, dealSwaps, seed, now);
    Touch(ready.(startedAt := Some(now), phase := Active), now)
  }

  /* A started game holds the whole deck: 36 cards between the deck, the
     hands and the sets laid down. */
  lemma StartCards(room: Room, orderSwaps: seq<nat>, dealSwaps: seq<nat>, seed: nat, now: int)
    requires |room.players| >= 2
    requires SwapsFit(|room.players|, orderSwaps) && SwapsFit(Copies * TypeCount, dealSwaps)
    ensures Cards(StartRoom(room, orderSwaps, dealSwaps, seed, now)) == Copies * TypeCount
  {
    var seated := Seated(room, orderSwaps);
    DealCards(seated, HandSize, dealSwaps);
    var picked := Picked(room, orderSwaps, dealSwaps, seed);
    var tracked := picked.(turnTracker := Some(StartTurnTracker(picked, now)));
    CheckSetsAllCards(tracked, picked.order, now);
  }

  /* The stages of a game start: the order and the seats come from the
     seating step and the first turn tracker from the spinner's pick; the
     later steps change only cards and sets. */
  lemma StartStages(room: Room, orderSwaps: seq<nat>, dealSwaps: seq<nat>, seed: nat, now: int)
    requires |room.players| >= 2
    requires SwapsFit(|room.players|, orderSwaps) && SwapsFit(Copies * TypeCount, dealSwaps)
    ensures var r := StartRoom(room, orderSwaps, dealSwaps, seed, now);
      var picked := Picked(room, orderSwaps, dealSwaps, seed);
      && r.order == Seated(room, orderSwaps).order
      && SameRoster(Seated(room, orderSwaps).players, r.players)
      && r.activePlayerId == picked.activePlayerId
      && r.turnTracker == Some(StartTurnTracker(picked, now))
  {
    var seated := Seated(room, orderSwaps);
    var picked := Picked(room, orderSwaps, dealSwaps, seed);
    var tracked := picked.(turnTracker := Some(StartTurnTracker(picked, now)));
    var checked := CheckSetsAll(tracked, picked.order, now);
    SameRosterTrans(seated.players, picked.players, checked.players);
  }

  /* Every player sits at its own position in the turn order, counted from
     1: the seats of a started game are 1..n, in turn order. */
  lemma StartSeats(room: Room, orderSwaps: seq<nat>, dealSwaps: seq<nat>, seed: nat, now: int, i: nat)
    requires |room.players| >= 2
    requires SwapsFit(|room.players|, orderSwaps) && SwapsFit(Copies * TypeCount, dealSwaps)
    requires i < |room.players|
    ensures var r := StartRoom(room, orderSwaps, dealSwaps, seed, now);
      && r.players[i].seat.Some?
      && 1 <= r.players[i].seat.value <= |r.order|
      && r.order[r.players[i].seat.value - 1] == room.players[i].id
  {
    StartStages(room, orderSwaps, dealSwaps, seed, now);
    SeatedSeats(room, orderSwaps, i);
  }

  /* Seating puts every player at its position in the shuffled order. */
  lemma SeatedSeats(room: Room, orderSwaps: seq<nat>, i: nat)
    requires SwapsFit(|room.players|, orderSwaps) && i < |room.players|
    ensures var s := Seated(room, orderSwaps);
      && s.players[i].seat.Some?
      && 1 <= s.players[i].seat.value <= |s.order|
      && s.order[s.players[i].seat.value - 1] == room.players[i].id
  {
    var ids := Ids(room.players);
    var order := Shuffle(ids, orderSwaps);
    var id := room.players[i].id;
    assert id in multiset(order) by {
      assert ids[i] == id;
      assert id in multiset(ids);
    }
    ReseatSeat(room.players, order, i);
    var seated := Seated(room, orderSwaps);
    assert seated.players == Reseat(room.players, order) && seated.order == order;
  }

  /* A player whose id is in `order` sits at its first position there. */
  lemma ReseatSeat(ps: seq<Player>, order: seq<PlayerId>, i: nat)
    requires i < |ps| && ps[i].id in order
    ensures var r := Reseat(ps, order);
      && r[i].seat.Some?
      && 1 <= r[i].seat.value <= |order|
      && order[r[i].seat.value - 1] == ps[i].id
  {
    assert Position(order, ps[i].id).Some?;
  }

  /* Two players with different ids never share a seat (so with unique ids
     all seats are distinct). */
  lemma StartSeatsDistinct(room: Room, orderSwaps: seq<nat>, dealSwaps: seq<nat>, seed: nat, now: int, i: nat, j: nat)
    requires |room.players| >= 2
    requires SwapsFit(|room.players|, orderSwaps) && SwapsFit(Copies * TypeCount, dealSwaps)
    requires i < j < |room.players| && room.players[i].id != room.players[j].id
    ensures var r := StartRoom(room, orderSwaps, dealSwaps, seed, now);
      r.players[i].seat != r.players[j].seat
  {
    var r := StartRoom(room, orderSwaps, dealSwaps, seed, now);
    StartSeats(room, orderSwaps, dealSwaps, seed, now, i);
    StartSeats(room, orderSwaps, dealSwaps, seed, now, j);
    SeatsApart(r.order, r.players[i].seat, r.players[j].seat, room.players[i].id, room.players[j].id);
  }

  /* Seats that point at different ids of the order are different. */
  lemma SeatsApart(order: seq<PlayerId>, a: Option<nat>, b: Option<nat>, x: PlayerId, y: PlayerId)
    requires a.Some? && 1 <= a.value <= |order| && order[a.value - 1] == x
    requires b.Some? && 1 <= b.value <= |order| && order[b.value - 1] == y
    requires x != y
    ensures a != b
  {
  }

  /* When the deck covers the deal (at most nine players) and ids are
     unique, every player except the one the spinner picked owes a gift in
     the first turn, and nobody has given yet. */
  lemma StartEligible(room: Room, orderSwaps: seq<nat>, dealSwaps: seq<nat>, seed: nat, now: int, pid: PlayerId)
    requires 2 <= |room.players| <= TypeCount && UniqueIds(room.players)
    requires SwapsFit(|room.players|, orderSwaps) && SwapsFit(Copies * TypeCount, dealSwaps)
    ensures var r := StartRoom(room, orderSwaps, dealSwaps, seed, now);
      && r.turnTracker.Some? && r.turnTracker.value.gave == {}
      && (pid in r.turnTracker.value.eligible <==> HasPlayer(room.players, pid) && r.activePlayerId != Some(pid))
  {
    StartStages(room, orderSwaps, dealSwaps, seed, now);
    PickedHands(room, orderSwaps, dealSwaps, seed, pid);
  }

  /* After the deal of a game of at most nine players, each player holds
     exactly four cards. */
  lemma PickedHands(room: Room, orderSwaps: seq<nat>, dealSwaps: seq<nat>, seed: nat, pid: PlayerId)
    requires 2 <= |room.players| <= TypeCount && UniqueIds(room.players)
    requires SwapsFit(|room.players|, orderSwaps) && SwapsFit(Copies * TypeCount, dealSwaps)
    ensures var picked := Picked(room, orderSwaps, dealSwaps, seed);
      && UniqueIds(picked.players)
      && (HasPlayer(picked.players, pid) <==> HasPlayer(room.players, pid))
      && PlayerTotal(picked.players, pid) == (if HasPlayer(room.players, pid) then HandSize else 0)
  {
    var seated := Seated(room, orderSwaps);
    var picked := Picked(room, orderSwaps, dealSwaps, seed);
    SeatedOrder(room, orderSwaps, pid);
    PickedKeepsMembers(seated.players, picked.players, pid);
    DealTotals(seated, HandSize, dealSwaps, pid);
  }

  lemma PickedKeepsMembers(a: seq<Player>, b: seq<Player>, pid: PlayerId)
    requires SameRoster(a, b)
    ensures UniqueIds(a) ==> UniqueIds(b)
    ensures HasPlayer(a, pid) <==> HasPlayer(b, pid)
  {
    SameRosterMembers(a, b);
    SameMembersIds(a, b);
    SameMembersIndex(a, b, pid);
  }

  /* The shuffled order holds exactly the players' ids, once each when ids
     are unique, and nobody holds a card yet. */
  lemma SeatedOrder(room: Room, orderSwaps: seq<nat>, pid: PlayerId)
    requires SwapsFit(|room.players|, orderSwaps)
    ensures var seated := Seated(room, orderSwaps);
      && (pid in seated.order <==> HasPlayer(seated.players, pid))
      && (HasPlayer(seated.players, pid) <==> HasPlayer(room.players, pid))
      && (UniqueIds(room.players) ==> Distinct(seated.order) && UniqueIds(seated.players))
      && PlayerTotal(seated.players, pid) == 0
  {
    var seated := Seated(room, orderSwaps);
    SameMembersIds(room.players, seated.players);
    SameMembersIndex(room.players, seated.players, pid);
    EmptyHandTotal(seated.players, pid);
    if UniqueIds(room.players) {
      DistinctPermutation(Ids(room.players), seated.order);
    }
    if HasPlayer(room.players, pid) {
      IdInIds(room.players, pid);
      assert pid in multiset(seated.order);
    }
  }

  /* Players with the same members have the same ids in the same order. */
  lemma SameMembersIds(a: seq<Player>, b: seq<Player>)
    requires SameMembers(a, b)
    ensures Ids(a) == Ids(b)
  {
  }

  /* A player with an empty hand holds no card. */
  lemma EmptyHandTotal(ps: seq<Player>, pid: PlayerId)
    requires forall i :: 0 <= i < |ps| ==> ps[i].hand == map[]
    ensures PlayerTotal(ps, pid) == 0
  {
    if HasPlayer(ps, pid) {
      assert HandTotal(ps[IndexOf(ps, pid).value].hand) == 0;
    }
  }

  /* The id of a player of the list is among its ids. */
  lemma IdInIds(ps: seq<Player>, pid: PlayerId)
    requires HasPlayer(ps, pid)
    ensures pid in Ids(ps)
  {
    assert Ids(ps)[IndexOf(ps, pid).value] == pid;
  }

  // ---------------------------------------------------------------------
  // New game
  // ---------------------------------------------------------------------

  /** A player back in the lobby: no cards, no sets, no seat. */
  function Unseat(p: Player): Player
  {
    p.(hand := map[], setsCount := 0, seat := None)
  }

  /** `newGame` on one room: back to the lobby with the same players, who
      keep their names, secrets and connections but lose their cards, sets
      and seats, and with the game state cleared. A non-empty template id
      replaces the room's; a missing or empty one keeps it. */
  function ResetRoom(room: Room, templateId: Option<string>, now: int): (r: Room)
    ensures r.phase == Lobby
    ensures SameMembers(room.players, r.players)
    ensures forall i :: 0 <= i < |r.players| ==>
      r.players[i].hand == map[] && r.players[i].setsCount == 0 && r.players[i].seat == None
    ensures r.order == [] && r.turnOrder == [] && r.turnIndex == 0 && r.activePlayerId == None
    ensures r.deck == [] && r.publicSets == [] && r.turnTracker == None && r.startedAt == None
    ensures r.id == room.id && r.host == room.host && r.lastActivityAt == now
    ensures templateId.Some? && templateId.value != "" ==> r.templateId == templateId
    ensures templateId.None? || templateId.value == "" ==> r.templateId == room.templateId
  {
    var tid := if templateId.Some? && templateId.value != "" then templateId else room.templateId;
    var ps := seq(|room.players|, i requires 0 <= i < |room.players| => Unseat(room.players[i]));
    Touch(room.(phase := Lobby, templateId := tid, order := [], turnOrder := [], turnIndex := 0,
      activePlayerId := None, deck := [], publicSets := [], turnTracker := None, startedAt := None,
      players := ps), now)
  }

  /* A reset room holds no card at all. */
  lemma ResetCards(room: Room, templateId: Option<string>, now: int)
    ensures Cards(ResetRoom(room, templateId, now)) == 0
  {
    EmptyHands(ResetRoom(room, templateId, now).players);
  }

  /* Resetting twice is resetting once (with the later clock): the second
     reset, without a template id, finds nothing left to clear. */
  lemma ResetIdempotent(room: Room, templateId: Option<string>, now: int, later: int)
    ensures ResetRoom(ResetRoom(room, templateId, now), None, later) == ResetRoom(room, templateId, later)
  {
  }

  // ---------------------------------------------------------------------
  // Removal
  // ---------------------------------------------------------------------

  /** A turn order without `x` (the source's `filter(x => x !== pid)`). */
  function Without(s: seq<PlayerId>, x: PlayerId): (r: seq<PlayerId>)
    ensures x !in r
    ensures forall y :: y != x ==> multiset(r)[y] == multiset(s)[y]
    ensures |r| <= |s|
  {
    if |s| == 0 then []
    else
      assert s == [s[0]] + s[1..];
      if s[0] == x then Without(s[1..], x) else [s[0]] + Without(s[1..], x)
  }

  /* Filtering out an absent id keeps the order as it is. */
  lemma {:induction false} WithoutAbsent(s: seq<PlayerId>, x: PlayerId)
    requires x !in s
    ensures Without(s, x) == s
  {
    if |s| > 0 {
      WithoutAbsent(s[1..], x);
      assert s == [s[0]] + s[1..];
    }
  }

  /* In an order without repetitions, filtering out the id at position k
     closes the gap it leaves. */
  lemma {:induction false} WithoutAt(s: seq<PlayerId>, k: nat)
    requires Distinct(s) && k < |s|
    ensures Without(s, s[k]) == s[..k] + s[k + 1..]
  {
    DistinctTail(s);
    if k == 0 {
      WithoutAbsent(s[1..], s[0]);
    } else {
      assert s[1..][k - 1] == s[k];
      WithoutAt(s[1..], k - 1);
      assert s[1..][..k - 1] + s[1..][k..] == s[1..k] + s[k + 1..];
      assert [s[0]] + (s[1..k] + s[k + 1..]) == s[..k] + s[k + 1..];
    }
  }

  /** The replacement for a removed active player: the id at the old turn
      index, wrapped around the shorter order; none when the order is empty
      or that id is the empty string (the source's `|| null`). */
  function PickActive(order: seq<PlayerId>, ti: nat): (r: Option<PlayerId>)
    ensures r.Some? ==> r.value in order && r.value != ""
    ensures |order| > 0 && order[ti % |order|] != "" ==> r == Some(order[ti % |order|])
    ensures |order| == 0 ==> r.None?
  {
    if |order| == 0 then None
    else
      var id := order[ti % |order|];
      if id == "" then None else Some(id)
  }

  /** `removePlayer` on one room, as the source writes it: the player's
      cards go onto the deck, which is then shuffled; the player leaves the
      players, `order` and `turnOrder`; a removed active player is replaced
      by the id now at the same turn index. `turnIndex` itself is kept, and
      so is the player's `publicSets` entry. An unknown id changes
      nothing. */
  function RemoveFromRoomAsWritten(room: Room, pid: PlayerId, swaps: seq<nat>, now: int): (r: Room)
    requires SwapsFit(|room.deck| + PlayerTotal(room.players, pid), swaps)
    ensures !HasPlayer(room.players, pid) ==> r == room
    ensures HasPlayer(room.players, pid) ==>
      && |r.players| == |room.players| - 1
      && |r.deck| == |room.deck| + PlayerTotal(room.players, pid)
      && r.order == Without(room.order, pid) && r.turnOrder == Without(room.turnOrder, pid)
      && r.lastActivityAt == now
    ensures room.activePlayerId != Some(pid) ==> r.activePlayerId == room.activePlayerId
    ensures HasPlayer(room.players, pid) && room.activePlayerId == Some(pid) ==>
      r.activePlayerId == PickActive(Without(room.order, pid), room.turnIndex)
    ensures r.turnIndex == room.turnIndex && r.publicSets == room.publicSets
    ensures r.id == room.id && r.phase == room.phase && r.turnTracker == room.turnTracker
  {
    match IndexOf(room.players, pid)
    case None => room
    case Some(i) =>
      var p := room.players[i];
      var order := Without(room.order, pid);
      var active := if room.activePlayerId == Some(pid) then PickActive(order, room.turnIndex) else room.activePlayerId;
      Touch(room.(players := room.players[..i] + room.players[i + 1..],
        deck := Shuffle(room.deck + HandCards(p.hand), swaps),
        order := order, turnOrder := Without(room.turnOrder, pid), activePlayerId := active), now)
  }

  /** The turn index after a removal, corrected: it keeps pointing at the
      active player. A removed active player's successor takes over its
      index (wrapped around the shorter order); removing somebody earlier
      in the order shifts the index down by one. */
  function FixTurnIndex(room: Room, pid: PlayerId): nat
  {
    match Position(room.order, pid)
    case None => room.turnIndex
    case Some(k) =>
      var n := |Without(room.order, pid)|;
      if room.activePlayerId == Some(pid) then (if n == 0 then 0 else room.turnIndex % n)
      else if k < room.turnIndex then room.turnIndex - 1
      else room.turnIndex
  }

  /** `removePlayer` with the turn index corrected; everything else as the
      source does it. */
  function RemoveFromRoom(room: Room, pid: PlayerId, swaps: seq<nat>, now: int): (r: Room)
    requires SwapsFit(|room.deck| + PlayerTotal(room.players, pid), swaps)
    ensures !HasPlayer(room.players, pid) ==> r == room
    ensures r == RemoveFromRoomAsWritten(room, pid, swaps, now).(turnIndex := r.turnIndex)
  {
    if !HasPlayer(room.players, pid) then room
    else RemoveFromRoomAsWritten(room, pid, swaps, now).(turnIndex := FixTurnIndex(room, pid))
  }

  /* The departing hand goes onto the deck card for card: the deck gains
     exactly the player's copies of each type, and the room's card count is
     unchanged. */
  lemma RemoveCards(room: Room, pid: PlayerId, swaps: seq<nat>, now: int)
    requires SwapsFit(|room.deck| + PlayerTotal(room.players, pid), swaps)
    ensures Cards(RemoveFromRoomAsWritten(room, pid, swaps, now)) == Cards(room)
    ensures HasPlayer(room.players, pid) ==> forall t: CardType ::
      multiset(RemoveFromRoomAsWritten(room, pid, swaps, now).deck)[t] ==
        multiset(room.deck)[t] + Count(room.players[IndexOf(room.players, pid).value].hand, t)
  {
    if HasPlayer(room.players, pid) {
      var i := IndexOf(room.players, pid).value;
      SumOfRemove(room.players, i, PlayerCards);
      var cards: seq<CardType> := HandCards(room.players[i].hand);
      var both: seq<CardType> := room.deck + cards;
      assert multiset(both) == multiset(room.deck) + multiset(cards);
    }
  }

  /* With unique ids the player is gone afterwards, and every other
     player's record is found unchanged. */
  lemma RemoveOthersKept(room: Room, pid: PlayerId, swaps: seq<nat>, now: int, q: PlayerId)
    requires SwapsFit(|room.deck| + PlayerTotal(room.players, pid), swaps)
    requires UniqueIds(room.players)
    ensures var r := RemoveFromRoomAsWritten(room, pid, swaps, now);
      && !HasPlayer(r.players, pid)
      && (q != pid ==> Get(r.players, PlayerKey, q) == Get(room.players, PlayerKey, q))
  {
    if HasPlayer(room.players, pid) {
      var i := IndexOf(room.players, pid).value;
      var rest := room.players[..i] + room.players[i + 1..];
      assert !HasPlayer(rest, pid) by {
        forall j | 0 <= j < |rest| ensures PlayerKey(rest[j]) != pid {
          var m := if j < i then j else j + 1;
          assert rest[j] == room.players[m];
          assert Ids(room.players)[m] != Ids(room.players)[i];
        }
      }
      if q != pid {
        GetRemove(room.players, PlayerKey, i, q);
      }
    } else {
      assert !HasPlayer(room.players, pid);
    }
  }

  /* Removing a player keeps the players' ids unique. */
  lemma RemoveKeepsUnique(room: Room, pid: PlayerId, swaps: seq<nat>, now: int)
    requires SwapsFit(|room.deck| + PlayerTotal(room.players, pid), swaps)
    requires UniqueIds(room.players)
    ensures UniqueIds(RemoveFromRoomAsWritten(room, pid, swaps, now).players)
  {
    if HasPlayer(room.players, pid) {
      var i := IndexOf(room.players, pid).value;
      var rest := room.players[..i] + room.players[i + 1..];
      forall a, b | 0 <= a < b < |rest| ensures Ids(rest)[a] != Ids(rest)[b] {
        var a' := if a < i then a else a + 1;
        var b' := if b < i then b else b + 1;
        assert rest[a] == room.players[a'] && rest[b] == room.players[b'];
        assert Ids(room.players)[a'] != Ids(room.players)[b'];
      }
    }
  }

  /* Deleting an element under another key leaves every lookup of this
     key as it was. */
  lemma {:induction false} GetRemove<T, K>(s: seq<T>, key: T -> K, i: nat, k: K)
    requires i < |s| && key(s[i]) != k
    ensures Get(s[..i] + s[i + 1..], key, k) == Get(s, key, k)
  {
    var s' := s[..i] + s[i + 1..];
    GetCons(s, key, k);
    if i == 0 {
      assert s' == s[1..];
    } else {
      GetCons(s', key, k);
      assert s'[0] == s[0];
      if key(s[0]) != k {
        assert s'[1..] == s[1..][..i - 1] + s[1..][i..];
        GetRemove(s[1..], key, i - 1, k);
      }
    }
  }

  /** The turn index names the active player: whenever the order is not
      empty, the index lies inside it and the id there is the active one. */
  predicate TurnAligned(room: Room)
  {
    |room.order| > 0 ==> room.turnIndex < |room.order| && room.activePlayerId == Some(room.order[room.turnIndex])
  }

  /* The corrected removal keeps the turn index on the active player, for
     an order without repetitions or empty ids. */
  lemma RemoveFromRoomKeepsTurn(room: Room, pid: PlayerId, swaps: seq<nat>, now: int)
    requires SwapsFit(|room.deck| + PlayerTotal(room.players, pid), swaps)
    requires TurnAligned(room) && Distinct(room.order) && "" !in room.order
    ensures TurnAligned(RemoveFromRoom(room, pid, swaps, now))
  {
    if HasPlayer(room.players, pid) {
      var r := RemoveFromRoom(room, pid, swaps, now);
      var ti := room.turnIndex;
      match Position(room.order, pid)
      case None =>
        WithoutAbsent(room.order, pid);
      case Some(k) =>
        WithoutAt(room.order, k);
        var order' := room.order[..k] + room.order[k + 1..];
        assert r.order == order';
        if room.activePlayerId == Some(pid) {
          assert ti == k;
          if |order'| > 0 {
            assert order'[ti % |order'|] in room.order;
          }
        } else if k < ti {
          assert order'[ti - 1] == room.order[ti];
        } else {
          assert order'[ti] == room.order[ti];
        }
    }
  }

  /** A three-player game in which the second player ("b") is active. */
  function ThreePlayers(): Room
  {
    var player := Player("", "", "", None, map[], 0, None);
    Room("R", Active, None, None,
      [player.(id := "a"), player.(id := "b"), player.(id := "c")],
      ["a", "b", "c"], ["a", "b", "c"], 1, Some("b"), None, [], [], None, 0)
  }

  /* As written, removing "a" while "b" is active leaves the turn index on
     "c" although "b" stays active, so the next turn goes back to "b" and
     "c" is skipped. With the corrected index the next turn is "c"'s. */
  lemma RemoveFromRoomAsWrittenRepeatsTurn()
    ensures TurnAligned(ThreePlayers())
    ensures !TurnAligned(RemoveFromRoomAsWritten(ThreePlayers(), "a", [], 0))
    ensures AdvanceTurn(RemoveFromRoomAsWritten(ThreePlayers(), "a", [], 0), 0).activePlayerId == Some("b")
    ensures AdvanceTurn(RemoveFromRoom(ThreePlayers(), "a", [], 0), 0).activePlayerId == Some("c")
  {
    var room := ThreePlayers();
    RemoveFirstOfThree();
    var w := RemoveFromRoomAsWritten(room, "a", [], 0);
    assert w.order == ["b", "c"] && w.turnIndex == 1 && w.activePlayerId == Some("b");
    var c := RemoveFromRoom(room, "a", [], 0);
    assert c.order == ["b", "c"] && c.turnIndex == 0;
  }

  /* The facts about the example that the evaluation above needs. */
  lemma RemoveFirstOfThree()
    ensures IndexOf(ThreePlayers().players, "a") == Some(0)
    ensures PlayerTotal(ThreePlayers().players, "a") == 0
    ensures Without(ThreePlayers().order, "a") == ["b", "c"]
    ensures Position(ThreePlayers().order, "a") == Some(0)
  {
    var room := ThreePlayers();
    assert HandTotal(map[]) == 0;
    assert room.order[1..] == ["b", "c"];
    assert Without(["c"], "a") == ["c"];
  }
}
