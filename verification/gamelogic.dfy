/**
 The rules engine of server/src/gameLogic.js as pure transitions over a
 Room: building and dealing the deck, drawing, set detection, the turn
 tracker, gifts to the active player, ending a turn with its penalty and
 round draw, and the spinner's choice of the first player.
 */
module GameLogic {
  import opened Basics
  import opened Utils
  import opened Hands
  import opened RoomState

  /** Completed sets in the room at which the game is over. */
  const SetsToWin: nat := 9

  /** Cards dealt to each player at the start and to a late joiner. */
  const HandSize: nat := 4

  function DeckFrom(t: nat): seq<CardType>
    decreases TypeCount - t
  {
    if t >= TypeCount then [] else Repeat<CardType>(t, Copies) + DeckFrom(t + 1)
  }

  lemma {:induction false} DeckFromLength(t: nat)
    requires t <= TypeCount
    ensures |DeckFrom(t)| == Copies * (TypeCount - t)
    decreases TypeCount - t
  {
    if t < TypeCount {
      DeckFromLength(t + 1);
    }
  }

  lemma {:induction false} DeckFromIndex(t: nat, i: nat)
    requires t <= TypeCount && i < Copies * (TypeCount - t)
    ensures i < |DeckFrom(t)| && DeckFrom(t)[i] == t + i / Copies
    decreases TypeCount - t
  {
    DeckFromLength(t);
    if i >= Copies {
      DeckFromLength(t + 1);
      DeckFromIndex(t + 1, i - Copies);
      assert DeckFrom(t)[i] == DeckFrom(t + 1)[i - Copies];
    }
  }

  lemma {:induction false} DeckFromCount(t: nat, u: CardType)
    requires t <= TypeCount
    ensures multiset(DeckFrom(t))[u] == if t <= u then Copies else 0
    decreases TypeCount - t
  {
    if t < TypeCount {
      DeckFromSplit(t);
      var whole := multiset(DeckFrom(t));
      var block := multiset(Repeat<CardType>(t, Copies));
      var rest := multiset(DeckFrom(t + 1));
      assert whole[u] == block[u] + rest[u];
      DeckFromCount(t + 1, u);
      RepeatCount<CardType>(t, Copies, u);
      assert block[u] == if u == t then Copies else 0;
      assert rest[u] == if t + 1 <= u then Copies else 0;
    }
  }

  lemma DeckFromSplit(t: CardType)
    ensures multiset(DeckFrom(t)) == multiset(Repeat<CardType>(t, Copies)) + multiset(DeckFrom(t + 1))
  {
  }

  /** `buildDeck`: 36 cards, four of each type, in type-major order. */
  function BuildDeck(): (r: seq<CardType>)
    ensures |r| == Copies * TypeCount
    ensures forall i :: 0 <= i < |r| ==> r[i] == i / Copies
    ensures forall t: CardType :: multiset(r)[t] == Copies
  {
    DeckFromLength(0);
    forall u: CardType ensures multiset(DeckFrom(0))[u] == Copies {
      DeckFromCount(0, u);
    }
    forall i | 0 <= i < Copies * TypeCount ensures DeckFrom(0)[i] == i / Copies {
      DeckFromIndex(0, i);
    }
    DeckFrom(0)
  }

  /** `addToHand(players.get(pid), card, 1)` on the player list. */
  function GiveCard(ps: seq<Player>, pid: PlayerId, card: CardType): (r: seq<Player>)
    requires HasPlayer(ps, pid)
    ensures SameRoster(ps, r)
  {
    var i := IndexOf(ps, pid).value;
    ps[i := ps[i].(hand := AddToHand(ps[i].hand, card, 1))]
  }

  /* The card lands in the hand of the player with this id and nowhere else:
     that player's total grows by one, every other id's total is unchanged,
     and so the room's hand total grows by one. */
  lemma GiveCardTotals(ps: seq<Player>, pid: PlayerId, card: CardType)
    requires HasPlayer(ps, pid)
    ensures forall q :: PlayerTotal(GiveCard(ps, pid, card), q) == PlayerTotal(ps, q) + (if q == pid then 1 else 0)
    ensures TotalHands(GiveCard(ps, pid, card)) == TotalHands(ps) + 1
  {
    var r := GiveCard(ps, pid, card);
    var i := IndexOf(ps, pid).value;
    TotalHandsUpdate(ps, i, r[i]);
    SameRosterAll(ps, r);
  }

  /** What `drawOne` leaves and returns. */
  datatype Drawn = Drawn(room: Room, drew: bool)

  /** `drawOne`: the top card (the last one) goes to the player's hand. The
      source dereferences the player only when the deck is not empty. */
  function DrawOne(room: Room, pid: PlayerId): (r: Drawn)
    requires |room.deck| > 0 ==> HasPlayer(room.players, pid)
    ensures r.drew <==> |room.deck| > 0
    ensures !r.drew ==> r.room == room
    ensures r.drew ==> r.room.deck == room.deck[..|room.deck| - 1]
    ensures SameRoster(room.players, r.room.players)
    ensures r.room == room.(deck := r.room.deck, players := r.room.players)
  {
    if |room.deck| == 0 then Drawn(room, false)
    else
      var card := room.deck[|room.deck| - 1];
      Drawn(room.(deck := room.deck[..|room.deck| - 1], players := GiveCard(room.players, pid, card)), true)
  }

  /* The drawn card is exactly the old top of the deck, and it lands in the
     drawing player's hand; nobody else's record changes. */
  lemma DrawOneCard(room: Room, pid: PlayerId)
    requires |room.deck| > 0 && HasPlayer(room.players, pid)
    ensures var r := DrawOne(room, pid).room;
      var i := IndexOf(room.players, pid).value;
      var card := room.deck[|room.deck| - 1];
      && room.deck == r.deck + [card]
      && Count(r.players[i].hand, card) == Count(room.players[i].hand, card) + 1
      && (forall t: CardType :: t != card ==> Count(r.players[i].hand, t) == Count(room.players[i].hand, t))
      && r.players[i].(hand := room.players[i].hand) == room.players[i]
      && (forall j :: 0 <= j < |room.players| && j != i ==> r.players[j] == room.players[j])
  {
    assert room.deck == room.deck[..|room.deck| - 1] + [room.deck[|room.deck| - 1]];
  }

  /* A draw moves one card from the deck to the drawing player: its total
     grows by one exactly when a card was drawn, and the room's card count
     is unchanged. */
  lemma DrawOneTotals(room: Room, pid: PlayerId, q: PlayerId)
    requires |room.deck| > 0 ==> HasPlayer(room.players, pid)
    ensures PlayerTotal(DrawOne(room, pid).room.players, q) ==
      PlayerTotal(room.players, q) + (if q == pid && |room.deck| > 0 then 1 else 0)
    ensures Cards(DrawOne(room, pid).room) == Cards(room)
  {
    if |room.deck| > 0 {
      GiveCardTotals(room.players, pid, room.deck[|room.deck| - 1]);
    }
  }

  lemma StillPresent(room: Room, room': Room, pids: seq<PlayerId>)
    requires |pids| > 0 && SameRoster(room.players, room'.players)
    requires |room.deck| > 0 ==> forall q :: q in pids ==> HasPlayer(room.players, q)
    ensures |room'.deck| > 0 && |room.deck| > 0 ==> forall q :: q in pids[1..] ==> HasPlayer(room'.players, q)
  {
    if |room'.deck| > 0 && |room.deck| > 0 {
      forall q | q in pids[1..] ensures HasPlayer(room'.players, q) {
        assert q in pids;
        SameRosterIndex(room.players, room'.players, q);
      }
    }
  }

  /** One `drawOne` per id, in sequence order. Once the deck is empty the
      remaining draws do nothing. */
  function DrawEach(room: Room, pids: seq<PlayerId>): (r: Room)
    requires |room.deck| > 0 ==> forall q :: q in pids ==> HasPlayer(room.players, q)
    ensures |r.deck| == |room.deck| - Min(|room.deck|, |pids|)
    ensures r.deck == room.deck[..|r.deck|]
    ensures SameRoster(room.players, r.players)
    ensures r == room.(deck := r.deck, players := r.players)
    decreases |pids|
  {
    if |pids| == 0 then room
    else
      var d := DrawOne(room, pids[0]);
      StillPresent(room, d.room, pids);
      DrawEach(d.room, pids[1..])
  }

  /* Each player receives one card per occurrence of its id among the first
     ids, as many as the deck could serve. */
  lemma {:induction false} DrawEachTotals(room: Room, pids: seq<PlayerId>, q: PlayerId)
    requires |room.deck| > 0 ==> forall q :: q in pids ==> HasPlayer(room.players, q)
    ensures PlayerTotal(DrawEach(room, pids).players, q) ==
      PlayerTotal(room.players, q) + multiset(pids[..Min(|room.deck|, |pids|)])[q]
    decreases |pids|
  {
    if |pids| > 0 {
      var d := DrawOne(room, pids[0]);
      DrawOneTotals(room, pids[0], q);
      StillPresent(room, d.room, pids);
      DrawEachTotals(d.room, pids[1..], q);
      var m := Min(|room.deck|, |pids|);
      if m > 0 {
        PrefixCount(pids, m, Min(|d.room.deck|, |pids[1..]|), q);
      }
    }
  }

  /* Drawing moves cards from the deck to hands: the room's card count is
     unchanged. */
  lemma {:induction false} DrawEachCards(room: Room, pids: seq<PlayerId>)
    requires |room.deck| > 0 ==> forall q :: q in pids ==> HasPlayer(room.players, q)
    ensures Cards(DrawEach(room, pids)) == Cards(room)
    decreases |pids|
  {
    if |pids| > 0 {
      var d := DrawOne(room, pids[0]);
      DrawOneTotals(room, pids[0], pids[0]);
      StillPresent(room, d.room, pids);
      DrawEachCards(d.room, pids[1..]);
    }
  }

  /** A player after its check: the sets leave the hand and are added to
      its count. */
  function TakeSets(p: Player): Player
  {
    p.(hand := AfterSets(p.hand), setsCount := p.setsCount + SetsIn(p.hand))
  }

  /** `checkSets` for the player with this id: every group of four leaves
      the hand and is counted both in the player's `setsCount` and in the
      room's `publicSets` entry; the clock is recorded only when some set was
      found. An unknown id changes nothing. */
  function CheckSets(room: Room, pid: PlayerId, now: int): (r: Room)
    ensures IndexOf(room.players, pid).None? ==> r == room
    ensures SameRoster(room.players, r.players)
    ensures r == room.(players := r.players, publicSets := r.publicSets, lastActivityAt := r.lastActivityAt)
  {
    match IndexOf(room.players, pid)
    case None => room
    case Some(i) =>
      var p := room.players[i];
      var found := SetsIn(p.hand);
      if found == 0 then room
      else
        var ps := room.players[i := TakeSets(p)];
        room.(players := ps, publicSets := Put(room.publicSets, EntryKey, NewEntry(room.publicSets, pid, p.hand)), lastActivityAt := now)
  }

  /** The player's `publicSets` entry after its check found sets in hand h:
      the count and the per-type tally grow by those sets. */
  function NewEntry(es: seq<SetEntry>, pid: PlayerId, h: Hand): SetEntry
  {
    var info := SetsInfo(es, pid);
    SetEntry(pid, SetInfo(info.setsCount + SetsIn(h), AddSetsByType(info.byType, h)))
  }

  /** The `publicSets` record of a player, or an empty one. */
  function SetsInfo(es: seq<SetEntry>, pid: PlayerId): (r: SetInfo)
    ensures r.setsCount == SetsOf(es, pid)
  {
    match Get(es, EntryKey, pid)
    case Some(e) => e.info
    case None => SetInfo(0, map[])
  }

  /* Sets leave the hand four cards at a time and are counted in publicSets:
     the room's card count is unchanged. */
  lemma CheckSetsCards(room: Room, pid: PlayerId, now: int)
    ensures Cards(CheckSets(room, pid, now)) == Cards(room)
  {
    if HasPlayer(room.players, pid) {
      CheckSetsHands(room, pid, now);
      CheckSetsTally(room, pid, now);
    }
  }

  /* checkSets takes four cards out of the hands per set it finds ... */
  lemma CheckSetsHands(room: Room, pid: PlayerId, now: int)
    requires HasPlayer(room.players, pid)
    ensures var h := room.players[IndexOf(room.players, pid).value].hand;
      TotalHands(CheckSets(room, pid, now).players) + Copies * SetsIn(h) == TotalHands(room.players)
  {
    var i := IndexOf(room.players, pid).value;
    var p := room.players[i];
    var r := CheckSets(room, pid, now);
    if SetsIn(p.hand) > 0 {
      var p' := TakeSets(p);
      assert r.players == room.players[i := p'];
      AfterSetsTotal(p.hand);
      TotalHandsUpdate(room.players, i, p');
    } else {
      assert r == room;
    }
  }

  /* ... and counts each of them once in the room's set total. */
  lemma CheckSetsTally(room: Room, pid: PlayerId, now: int)
    requires HasPlayer(room.players, pid)
    ensures var h := room.players[IndexOf(room.players, pid).value].hand;
      TotalSets(CheckSets(room, pid, now).publicSets) == TotalSets(room.publicSets) + SetsIn(h)
  {
    var p := room.players[IndexOf(room.players, pid).value];
    var found := SetsIn(p.hand);
    var r := CheckSets(room, pid, now);
    if found > 0 {
      var info := SetsInfo(room.publicSets, pid);
      var entry := NewEntry(room.publicSets, pid, p.hand);
      assert r.publicSets == Put(room.publicSets, EntryKey, entry);
      PutSum(room.publicSets, EntryKey, entry, EntrySets);
      assert (match Get(room.publicSets, EntryKey, pid) case Some(y) => EntrySets(y) case None => 0) == info.setsCount;
    }
  }

  /* What checkSets does to the player it checks: each count drops to its
     remainder modulo four, the sets found are added to the player's
     setsCount and to its publicSets entry, and four cards leave the hand per
     set. With no set found the room is unchanged; otherwise the activity
     clock is set. Other players and other entries are untouched. */
  lemma CheckSetsPlayer(room: Room, pid: PlayerId, now: int)
    requires HasPlayer(room.players, pid)
    ensures var r := CheckSets(room, pid, now);
      var i := IndexOf(room.players, pid).value;
      var h := room.players[i].hand;
      && (forall t: CardType :: Count(r.players[i].hand, t) == Count(h, t) % Copies)
      && r.players[i].setsCount == room.players[i].setsCount + SetsIn(h)
      && SetsOf(r.publicSets, pid) == SetsOf(room.publicSets, pid) + SetsIn(h)
      && HandTotal(r.players[i].hand) + Copies * SetsIn(h) == HandTotal(h)
      && r.players[i].(hand := h, setsCount := room.players[i].setsCount) == room.players[i]
      && (forall j :: 0 <= j < |room.players| && j != i ==> r.players[j] == room.players[j])
      && (forall q :: q != pid ==> Get(r.publicSets, EntryKey, q) == Get(room.publicSets, EntryKey, q))
      && (SetsIn(h) == 0 <==> r == room)
      && (SetsIn(h) > 0 ==> r.lastActivityAt == now)
  {
    var i := IndexOf(room.players, pid).value;
    var h := room.players[i].hand;
    SetsInZero(h);
    AfterSetsTotal(h);
    if SetsIn(h) > 0 {
      var r := CheckSets(room, pid, now);
      assert SetsOf(r.publicSets, pid) == SetsOf(room.publicSets, pid) + SetsIn(h);
      assert r.players[i].setsCount != room.players[i].setsCount;
    }
  }

  /* The checked player's counts drop to their remainders modulo four. */
  lemma CheckSetsCounts(room: Room, pid: PlayerId, now: int)
    requires HasPlayer(room.players, pid)
    ensures var i := IndexOf(room.players, pid).value;
      forall t: CardType :: Count(CheckSets(room, pid, now).players[i].hand, t) == Count(room.players[i].hand, t) % Copies
  {
    SetsInZero(room.players[IndexOf(room.players, pid).value].hand);
  }

  /* Every other player's record is untouched. */
  lemma CheckSetsOthers(room: Room, pid: PlayerId, now: int, j: nat)
    requires j < |room.players| && IndexOf(room.players, pid) != Some(j)
    ensures CheckSets(room, pid, now).players[j] == room.players[j]
  {
  }

  /* checkSets credits each type's groups of four to the player's by-type
     subtotals in publicSets. */
  lemma CheckSetsByType(room: Room, pid: PlayerId, now: int)
    requires HasPlayer(room.players, pid)
    ensures var h := room.players[IndexOf(room.players, pid).value].hand;
      forall t: CardType :: Count(SetsInfo(CheckSets(room, pid, now).publicSets, pid).byType, t)
        == Count(SetsInfo(room.publicSets, pid).byType, t) + Count(h, t) / Copies
  {
    var h := room.players[IndexOf(room.players, pid).value].hand;
    SetsInZero(h);
  }

  /* A second checkSets finds nothing: the room is left exactly as the first
     call left it. */
  lemma CheckSetsIdempotent(room: Room, pid: PlayerId, now: int, later: int)
    ensures CheckSets(CheckSets(room, pid, now), pid, later) == CheckSets(room, pid, now)
  {
    var r := CheckSets(room, pid, now);
    SameRosterIndex(room.players, r.players, pid);
    if HasPlayer(room.players, pid) {
      var i := IndexOf(room.players, pid).value;
      CheckSetsPlayer(room, pid, now);
      SetsInZero(r.players[i].hand);
      CheckSetsPlayer(r, pid, later);
    }
  }

  /** No type of this player's hand reaches four copies. */
  predicate NoFullType(ps: seq<Player>, pid: PlayerId)
  {
    match IndexOf(ps, pid)
    case Some(i) => forall t: CardType :: Count(ps[i].hand, t) < Copies
    case None => true
  }

  /* After checkSets the checked player holds no full type, and a player
     who held none still holds none. */
  lemma CheckSetsNoFullType(room: Room, pid: PlayerId, now: int)
    ensures NoFullType(CheckSets(room, pid, now).players, pid)
    ensures forall q :: NoFullType(room.players, q) ==> NoFullType(CheckSets(room, pid, now).players, q)
  {
    var r := CheckSets(room, pid, now);
    SameRosterAll(room.players, r.players);
    if HasPlayer(room.players, pid) {
      CheckSetsPlayer(room, pid, now);
    }
  }

  /** `checkSets` for each id in turn. */
  function CheckSetsAll(room: Room, pids: seq<PlayerId>, now: int): (r: Room)
    ensures SameRoster(room.players, r.players)
    ensures r == room.(players := r.players, publicSets := r.publicSets, lastActivityAt := r.lastActivityAt)
    ensures forall q :: q in pids ==> NoFullType(r.players, q)
    ensures forall q :: NoFullType(room.players, q) ==> NoFullType(r.players, q)
    decreases |pids|
  {
    if |pids| == 0 then room
    else
      var c := CheckSets(room, pids[0], now);
      SameRosterAll(room.players, c.players);
      CheckSetsNoFullType(room, pids[0], now);
      CheckSetsAll(c, pids[1..], now)
  }

  lemma {:induction false} CheckSetsAllCards(room: Room, pids: seq<PlayerId>, now: int)
    ensures Cards(CheckSetsAll(room, pids, now)) == Cards(room)
    decreases |pids|
  {
    if |pids| > 0 {
      CheckSetsCards(room, pids[0], now);
      CheckSetsAllCards(CheckSets(room, pids[0], now), pids[1..], now);
    }
  }

  /** `startTurnTracker`: the players other than the active one who hold a
      card owe a gift; nobody has given yet. */
  function StartTurnTracker(room: Room, now: int): (r: TurnTracker)
    ensures r.gave == {} && r.startedAt == now
    ensures forall pid :: pid in r.eligible ==>
      HasPlayer(room.players, pid) && Some(pid) != room.activePlayerId
    ensures UniqueIds(room.players) ==> forall pid :: pid in r.eligible <==>
      HasPlayer(room.players, pid) && Some(pid) != room.activePlayerId && PlayerTotal(room.players, pid) > 0
  {
    var ps := room.players;
    var eligible := set i | 0 <= i < |ps| && Some(ps[i].id) != room.activePlayerId && HandTotal(ps[i].hand) > 0 :: ps[i].id;
    UniqueIndexAll(ps);
    TurnTracker(now, eligible, {})
  }

  /** The position after i in a cycle of n positions: `(i + 1) % n`. */
  function NextPosition(i: nat, n: nat): (r: nat)
    requires n > 0
    ensures r < n
    ensures i + 1 < n ==> r == i + 1
    ensures i + 1 == n ==> r == 0
  {
    (i + 1) % n
  }

  /** `advanceTurn`: the next position of `order`, cyclically, becomes active
      and a fresh turn tracker starts. The source divides by the length of
      `order`, so it must not be empty. */
  function AdvanceTurn(room: Room, now: int): (r: Room)
    requires |room.order| > 0
    ensures r.turnIndex == NextPosition(room.turnIndex, |room.order|)
    ensures r.turnIndex < |room.order|
    ensures r.activePlayerId == Some(room.order[r.turnIndex])
    ensures r.turnTracker == Some(StartTurnTracker(r, now))
    ensures r == room.(turnIndex := r.turnIndex, activePlayerId := r.activePlayerId, turnTracker := r.turnTracker)
  {
    var ti := NextPosition(room.turnIndex, |room.order|);
    var moved := room.(turnIndex := ti, activePlayerId := Some(room.order[ti]));
    moved.(turnTracker := Some(StartTurnTracker(moved, now)))
  }

  /** The order in which `deal` hands out cards: k draws for the first id
      of `order`, then k for the next, and so on. */
  function DealOrder(order: seq<PlayerId>, k: nat): (r: seq<PlayerId>)
    ensures forall q :: q in r ==> q in order
  {
    if |order| == 0 then [] else Repeat(order[0], k) + DealOrder(order[1..], k)
  }

  lemma {:induction false} DealOrderLength(order: seq<PlayerId>, k: nat)
    ensures |DealOrder(order, k)| == k * |order|
  {
    if |order| > 0 {
      DealOrderLength(order[1..], k);
    }
  }

  lemma {:induction false} DealOrderCount(order: seq<PlayerId>, k: nat, q: PlayerId)
    requires Distinct(order)
    ensures multiset(DealOrder(order, k))[q] == if q in order then k else 0
  {
    if |order| > 0 {
      var block := Repeat(order[0], k);
      var rest := DealOrder(order[1..], k);
      assert DealOrder(order, k) == block + rest;
      DistinctTail(order);
      DealOrderCount(order[1..], k, q);
      RepeatCount(order[0], k, q);
      assert multiset(block + rest)[q] == multiset(block)[q] + multiset(rest)[q];
      assert q in order <==> q == order[0] || q in order[1..];
    }
  }

  /** `deal`: shuffle the deck, then k cards to each id of `order` in turn
      while the deck lasts. A missing player is dereferenced only while
      cards remain. */
  function Deal(room: Room, k: nat, swaps: seq<nat>): (r: Room)
    requires SwapsFit(|room.deck|, swaps)
    requires |room.deck| > 0 ==> OrderInRoom(room)
    ensures |r.deck| == |room.deck| - Min(|room.deck|, k * |room.order|)
    ensures multiset(r.deck) <= multiset(room.deck)
    ensures SameRoster(room.players, r.players)
    ensures r == room.(deck := r.deck, players := r.players)
  {
    var shuffled := room.(deck := Shuffle(room.deck, swaps));
    DealOrderLength(room.order, k);
    var r := DrawEach(shuffled, DealOrder(room.order, k));
    assert shuffled.deck == r.deck + shuffled.deck[|r.deck|..];
    r
  }

  /* When the deck covers every draw, each player of a duplicate-free
     `order` receives exactly k cards and nobody else receives any; no card
     is created or lost. */
  lemma DealTotals(room: Room, k: nat, swaps: seq<nat>, q: PlayerId)
    requires SwapsFit(|room.deck|, swaps)
    requires |room.deck| > 0 ==> OrderInRoom(room)
    requires Distinct(room.order) && k * |room.order| <= |room.deck|
    ensures PlayerTotal(Deal(room, k, swaps).players, q) == PlayerTotal(room.players, q) + (if q in room.order then k else 0)
    ensures Cards(Deal(room, k, swaps)) == Cards(room)
  {
    var shuffled := room.(deck := Shuffle(room.deck, swaps));
    var pids := DealOrder(room.order, k);
    assert Deal(room, k, swaps) == DrawEach(shuffled, pids);
    DealOrderLength(room.order, k);
    assert pids[..Min(|shuffled.deck|, |pids|)] == pids;
    DealOrderCount(room.order, k, q);
    DrawEachTotals(shuffled, pids, q);
    DealCards(room, k, swaps);
  }

  /* Dealing moves cards from the deck to hands: whatever the size of the
     deck, the room's card count is unchanged. */
  lemma DealCards(room: Room, k: nat, swaps: seq<nat>)
    requires SwapsFit(|room.deck|, swaps)
    requires |room.deck| > 0 ==> OrderInRoom(room)
    ensures Cards(Deal(room, k, swaps)) == Cards(room)
  {
    var shuffled := room.(deck := Shuffle(room.deck, swaps));
    DrawEachCards(shuffled, DealOrder(room.order, k));
  }

  /** Who draws in `roundDraw`: everybody in `order` when the deck suffices,
      nobody when it is empty, otherwise the first `deckSize` ids of a
      shuffled copy of `order`. */
  function RoundRecipients(order: seq<PlayerId>, deckSize: nat, swaps: seq<nat>): (r: seq<PlayerId>)
    requires SwapsFit(|order|, swaps)
    ensures |r| == Min(deckSize, |order|)
    ensures deckSize >= |order| ==> r == order
    ensures forall q :: multiset(r)[q] <= multiset(order)[q]
    ensures Distinct(order) ==> Distinct(r)
  {
    if deckSize >= |order| then order
    else if deckSize == 0 then []
    else
      var shuffled := Shuffle(order, swaps);
      var r := shuffled[..deckSize];
      assert shuffled == r + shuffled[deckSize..];
      assert multiset(shuffled) == multiset(r) + multiset(shuffled[deckSize..]);
      if Distinct(order) then
        DistinctPermutation(order, shuffled);
        assert Distinct(r) by {
          forall i, j | 0 <= i < j < |r| ensures r[i] != r[j] {
            assert r[i] == shuffled[i] && r[j] == shuffled[j];
          }
        }
        r
      else r
  }

  /** `roundDraw`: one card for each chosen id of `order`. */
  function RoundDraw(room: Room, swaps: seq<nat>): (r: Room)
    requires SwapsFit(|room.order|, swaps)
    requires |room.deck| > 0 ==> OrderInRoom(room)
    ensures |r.deck| == |room.deck| - Min(|room.deck|, |room.order|)
    ensures |room.deck| < |room.order| ==> r.deck == []
    ensures r.deck == room.deck[..|r.deck|]
    ensures SameRoster(room.players, r.players)
    ensures r == room.(deck := r.deck, players := r.players)
  {
    var pids := RoundRecipients(room.order, |room.deck|, swaps);
    RecipientsInOrder(room.order, |room.deck|, swaps);
    DrawEach(room, pids)
  }

  /* In a round draw every player of `order` draws one card when the deck
     covers them all; otherwise nobody draws more often than its id occurs
     in `order` (at most once, as ids in `order` are distinct). No card is
     created or lost. */
  lemma RoundDrawTotals(room: Room, swaps: seq<nat>, q: PlayerId)
    requires SwapsFit(|room.order|, swaps)
    requires |room.deck| > 0 ==> OrderInRoom(room)
    ensures var gain := PlayerTotal(RoundDraw(room, swaps).players, q) - PlayerTotal(room.players, q);
      && 0 <= gain <= multiset(room.order)[q]
      && (|room.deck| >= |room.order| ==> gain == multiset(room.order)[q])
      && (Distinct(room.order) ==> gain <= 1)
    ensures Cards(RoundDraw(room, swaps)) == Cards(room)
  {
    var pids := RoundRecipients(room.order, |room.deck|, swaps);
    RecipientsInOrder(room.order, |room.deck|, swaps);
    assert RoundDraw(room, swaps) == DrawEach(room, pids);
    assert pids[..Min(|room.deck|, |pids|)] == pids;
    DrawEachTotals(room, pids, q);
    DrawEachCards(room, pids);
    if Distinct(room.order) {
      DistinctCountAtMostOne(room.order, q);
    }
  }

  /* Whoever draws in a round draw is in `order`. */
  lemma RecipientsInOrder(order: seq<PlayerId>, deckSize: nat, swaps: seq<nat>)
    requires SwapsFit(|order|, swaps)
    ensures forall q :: q in RoundRecipients(order, deckSize, swaps) ==> q in order
  {
    var pids := RoundRecipients(order, deckSize, swaps);
    forall q | q in pids ensures q in order {
      assert multiset(pids)[q] > 0;
    }
  }

  /** Some player who owed a gift this turn has not given. */
  predicate PenaltyDue(tt: Option<TurnTracker>)
  {
    tt.Some? && !(tt.value.eligible <= tt.value.gave)
  }

  /** The first step of `endTurn`: the active player draws one card when a
      penalty is due. */
  function PenaltyDraw(room: Room): (r: Room)
    requires PenaltyDue(room.turnTracker) && |room.deck| > 0 ==> ActiveInRoom(room)
    ensures var drew := PenaltyDue(room.turnTracker) && |room.deck| > 0;
      && (drew ==> r.deck == room.deck[..|room.deck| - 1])
      && (!drew ==> r == room)
    ensures SameRoster(room.players, r.players)
    ensures r == room.(deck := r.deck, players := r.players)
  {
    if PenaltyDue(room.turnTracker) && |room.deck| > 0 then DrawOne(room, room.activePlayerId.value).room
    else room
  }

  /* The penalty is at most one card, it goes to the active player, and it
     is drawn exactly when some eligible player has not given and the deck
     is not empty. */
  lemma PenaltyDrawTotals(room: Room, q: PlayerId)
    requires PenaltyDue(room.turnTracker) && |room.deck| > 0 ==> ActiveInRoom(room)
    ensures PlayerTotal(PenaltyDraw(room).players, q) == PlayerTotal(room.players, q) +
      (if PenaltyDue(room.turnTracker) && |room.deck| > 0 && room.activePlayerId == Some(q) then 1 else 0)
    ensures Cards(PenaltyDraw(room)) == Cards(room)
  {
    if PenaltyDue(room.turnTracker) && |room.deck| > 0 {
      DrawOneTotals(room, room.activePlayerId.value, q);
    }
  }

  /** `checkSets` for the active player, if any (an absent active player is
      not found, so nothing happens). */
  function CheckActive(room: Room, now: int): (r: Room)
    ensures SameRoster(room.players, r.players)
    ensures r == room.(players := r.players, publicSets := r.publicSets, lastActivityAt := r.lastActivityAt)
  {
    match room.activePlayerId
    case Some(a) => CheckSets(room, a, now)
    case None => room
  }

  /** The end of the round: a round draw and a set check for everyone. */
  function RoundEnd(room: Room, swaps: seq<nat>, now: int): (r: Room)
    requires SwapsFit(|room.order|, swaps)
    requires |room.deck| > 0 ==> OrderInRoom(room)
    ensures |r.deck| == |room.deck| - Min(|room.deck|, |room.order|)
    ensures SameRoster(room.players, r.players)
    ensures forall q :: q in room.order ==> NoFullType(r.players, q)
    ensures r == room.(deck := r.deck, players := r.players, publicSets := r.publicSets, lastActivityAt := r.lastActivityAt)
  {
    CheckSetsAll(RoundDraw(room, swaps), room.order, now)
  }

  /** The last step of `endTurn`: the game is over once the rooms' sets
      reach nine. */
  function WinCheck(room: Room): (r: Room)
    ensures r.phase == if TotalSets(room.publicSets) >= SetsToWin then Finished else room.phase
    ensures r == room.(phase := r.phase)
  {
    if TotalSets(room.publicSets) >= SetsToWin then room.(phase := Finished) else room
  }

  /** The cards left after the penalty draw. */
  function DeckAfterPenalty(room: Room): nat
  {
    |room.deck| - (if PenaltyDue(room.turnTracker) && |room.deck| > 0 then 1 else 0)
  }

  /** The first half of `endTurn`: penalty draw, then the active player's set
      check. */
  function CloseTurn(room: Room, now: int): (r: Room)
    requires PenaltyDue(room.turnTracker) && |room.deck| > 0 ==> ActiveInRoom(room)
    ensures |r.deck| == DeckAfterPenalty(room)
    ensures SameRoster(room.players, r.players)
    ensures r == room.(deck := r.deck, players := r.players, publicSets := r.publicSets, lastActivityAt := r.lastActivityAt)
  {
    CheckActive(PenaltyDraw(room), now)
  }

  /** The round end of `endTurn`, which happens when the turn has wrapped to
      position 0. */
  function RoundStep(room: Room, swaps: seq<nat>, now: int): (r: Room)
    requires SwapsFit(|room.order|, swaps)
    requires room.turnIndex == 0 && |room.deck| > 0 ==> OrderInRoom(room)
    ensures |r.deck| == |room.deck| - (if room.turnIndex == 0 then Min(|room.deck|, |room.order|) else 0)
    ensures room.turnIndex == 0 ==> forall q :: q in room.order ==> NoFullType(r.players, q)
    ensures room.turnIndex != 0 ==> r == room
    ensures SameRoster(room.players, r.players)
    ensures r == room.(deck := r.deck, players := r.players, publicSets := r.publicSets, lastActivityAt := r.lastActivityAt)
  {
    if room.turnIndex == 0 then RoundEnd(room, swaps, now) else room
  }

  /** What `endTurn` needs of the room: a non-empty `order` (it divides by
      its length), an active player who is in the room when a penalty card
      is drawn, and ids of players in `order` when a round ends with cards
      left; `swaps` is the shuffle of the round draw. */
  predicate CanEndTurn(room: Room, swaps: seq<nat>)
  {
    && |room.order| > 0
    && SwapsFit(|room.order|, swaps)
    && (PenaltyDue(room.turnTracker) && |room.deck| > 0 ==> ActiveInRoom(room))
    && (NextPosition(room.turnIndex, |room.order|) == 0 && DeckAfterPenalty(room) > 0 ==> OrderInRoom(room))
  }

  /** The close and the advance of `endTurn`: the turn moves to the next
      position of `order` with a new tracker, the deck loses the penalty card
      if one is due, and the roster is kept. */
  function TurnPassed(room: Room, now: int): (r: Room)
    requires |room.order| > 0
    requires PenaltyDue(room.turnTracker) && |room.deck| > 0 ==> ActiveInRoom(room)
    ensures r.order == room.order
    ensures r.turnIndex == NextPosition(room.turnIndex, |room.order|) && r.turnIndex < |room.order|
    ensures r.activePlayerId == Some(room.order[r.turnIndex])
    ensures |r.deck| == DeckAfterPenalty(room)
    ensures SameRoster(room.players, r.players)
  {
    AdvanceTurn(CloseTurn(room, now), now)
  }

  /* After the close and the advance, a round end with cards left finds
     `order` naming players of the room. */
  lemma TurnPassedReady(room: Room, swaps: seq<nat>, now: int)
    requires CanEndTurn(room, swaps)
    ensures var r := TurnPassed(room, now);
      r.turnIndex == 0 && |r.deck| > 0 ==> OrderInRoom(r)
  {
    var r := TurnPassed(room, now);
    if r.turnIndex == 0 && |r.deck| > 0 {
      OrderInRoomKept(room, r);
    }
  }

  /** `endTurn`: penalty draw and the active player's set check, advance to
      the next position of `order` with a new turn tracker, a round draw and
      a set check for every id of `order` when the position wraps to 0, and
      the win check. */
  function EndTurn(room: Room, swaps: seq<nat>, now: int): (r: Room)
    requires CanEndTurn(room, swaps)
    ensures r.turnIndex == NextPosition(room.turnIndex, |room.order|) && r.turnIndex < |room.order|
    ensures r.activePlayerId == Some(room.order[r.turnIndex])
    ensures SameRoster(room.players, r.players)
  {
    var advanced := TurnPassed(room, now);
    TurnPassedReady(room, swaps, now);
    var stepped := RoundStep(advanced, swaps, now);
    SameRosterTrans(room.players, advanced.players, stepped.players);
    WinCheck(stepped)
  }

  /* The end of a turn is the round step after the close and the advance,
     followed by the win check. */
  lemma EndTurnStages(room: Room, swaps: seq<nat>, now: int)
    requires CanEndTurn(room, swaps)
    ensures var advanced := TurnPassed(room, now);
      && SwapsFit(|advanced.order|, swaps)
      && (advanced.turnIndex == 0 && |advanced.deck| > 0 ==> OrderInRoom(advanced))
      && EndTurn(room, swaps, now) == WinCheck(RoundStep(advanced, swaps, now))
  {
    TurnPassedReady(room, swaps, now);
  }

  /* The end of a turn starts a fresh tracker and leaves `order`, the
     roster's identities, the host and the rest of the room's setup alone. */
  lemma EndTurnTracker(room: Room, swaps: seq<nat>, now: int)
    requires CanEndTurn(room, swaps)
    ensures var r := EndTurn(room, swaps, now);
      && r.turnTracker.Some? && r.turnTracker.value.gave == {} && r.turnTracker.value.startedAt == now
      && r.(deck := room.deck, players := room.players, publicSets := room.publicSets, lastActivityAt := room.lastActivityAt,
            turnIndex := room.turnIndex, activePlayerId := room.activePlayerId, turnTracker := room.turnTracker,
            phase := room.phase) == room
  {
    EndTurnStages(room, swaps, now);
  }

  /* The deck loses one penalty card at most, then one card per id of
     `order` at a round end while it lasts; after a round end no player of
     `order` holds four of a kind. */
  lemma EndTurnDeck(room: Room, swaps: seq<nat>, now: int)
    requires CanEndTurn(room, swaps)
    ensures var r := EndTurn(room, swaps, now);
      && |r.deck| == DeckAfterPenalty(room) - (if r.turnIndex == 0 then Min(DeckAfterPenalty(room), |room.order|) else 0)
      && (r.turnIndex == 0 ==> forall q :: q in room.order ==> NoFullType(r.players, q))
  {
    EndTurnStages(room, swaps, now);
  }

  /* The game is finished after the turn exactly when the room's sets
     reach nine; otherwise the phase is kept. */
  lemma EndTurnPhase(room: Room, swaps: seq<nat>, now: int)
    requires CanEndTurn(room, swaps)
    ensures var r := EndTurn(room, swaps, now);
      r.phase == (if TotalSets(r.publicSets) >= SetsToWin then Finished else room.phase)
  {
    EndTurnStages(room, swaps, now);
  }

  lemma CloseTurnCards(room: Room, now: int)
    requires PenaltyDue(room.turnTracker) && |room.deck| > 0 ==> ActiveInRoom(room)
    ensures Cards(CloseTurn(room, now)) == Cards(room)
  {
    var penalized := PenaltyDraw(room);
    PenaltyDrawTotals(room, "");
    if penalized.activePlayerId.Some? {
      CheckSetsCards(penalized, penalized.activePlayerId.value, now);
    }
  }

  lemma RoundStepCards(room: Room, swaps: seq<nat>, now: int)
    requires SwapsFit(|room.order|, swaps)
    requires room.turnIndex == 0 && |room.deck| > 0 ==> OrderInRoom(room)
    ensures Cards(RoundStep(room, swaps, now)) == Cards(room)
  {
    if room.turnIndex == 0 {
      RoundDrawTotals(room, swaps, "");
      CheckSetsAllCards(RoundDraw(room, swaps), room.order, now);
    }
  }

  /* The end of a turn conserves the room's cards. */
  lemma EndTurnCards(room: Room, swaps: seq<nat>, now: int)
    requires CanEndTurn(room, swaps)
    ensures Cards(EndTurn(room, swaps, now)) == Cards(room)
  {
    EndTurnStages(room, swaps, now);
    CloseTurnCards(room, now);
    RoundStepCards(TurnPassed(room, now), swaps, now);
  }

  /** The cards one or several `removeAllOfType` + `addToHand` steps moved:
      the player list after the moves, how many cards moved, and how many of
      each type. */
  datatype Moved = Moved(players: seq<Player>, total: nat, byType: map<CardType, nat>)

  /** One type of a gift: every copy of t leaves the sender (index s) and
      joins the active player (index a), when there is any. */
  function Transfer(ps: seq<Player>, s: nat, a: nat, t: CardType): (r: Moved)
    requires s < |ps| && a < |ps|
    ensures r.total == Count(ps[s].hand, t)
    ensures forall u :: u in r.byType ==> u == t && r.byType[u] == r.total > 0
    ensures r.total > 0 ==> t in r.byType
    ensures SameRoster(ps, r.players)
    ensures forall i :: 0 <= i < |ps| ==> r.players[i] == ps[i].(hand := r.players[i].hand)
    ensures TotalHands(r.players) == TotalHands(ps)
  {
    var rem := RemoveAllOfType(ps[s].hand, t);
    if rem.removed == 0 then Moved(ps, 0, map[])
    else
      var ps1 := ps[s := ps[s].(hand := rem.hand)];
      var ps2 := ps1[a := ps1[a].(hand := AddToHand(ps1[a].hand, t, rem.removed))];
      assert forall i :: 0 <= i < |ps| ==> ps1[i] == ps[i].(hand := ps1[i].hand);
      assert forall i :: 0 <= i < |ps| ==> ps2[i] == ps[i].(hand := ps2[i].hand);
      TotalHandsUpdate(ps, s, ps1[s]);
      TotalHandsUpdate(ps1, a, ps2[a]);
      Moved(ps2, rem.removed, map[t := rem.removed])
  }

  /* Between two different players, one type moves completely from the
     sender to the active player; nobody else is touched. */
  lemma TransferHands(ps: seq<Player>, s: nat, a: nat, t: CardType)
    requires s < |ps| && a < |ps| && s != a
    ensures var r := Transfer(ps, s, a, t).players;
      && (forall u: CardType :: Count(r[s].hand, u) == if u == t then 0 else Count(ps[s].hand, u))
      && (forall u: CardType :: Count(r[a].hand, u) == Count(ps[a].hand, u) + if u == t then Count(ps[s].hand, t) else 0)
      && HandTotal(r[s].hand) + Count(ps[s].hand, t) == HandTotal(ps[s].hand)
      && HandTotal(r[a].hand) == HandTotal(ps[a].hand) + Count(ps[s].hand, t)
      && (forall i :: 0 <= i < |ps| && i != s && i != a ==> r[i] == ps[i])
  {
  }

  /** The loop of `giveToActiveWithMoved` over the selected types, in order.
      A type selected again moves what the sender holds of it by then, and
      its by-type record is the last positive move. */
  function MoveAll(ps: seq<Player>, s: nat, a: nat, types: seq<CardType>): (r: Moved)
    requires s < |ps| && a < |ps|
    ensures forall u :: u in r.byType ==> u in types && r.byType[u] > 0
    ensures SameRoster(ps, r.players)
    ensures forall i :: 0 <= i < |ps| ==> r.players[i] == ps[i].(hand := r.players[i].hand)
    ensures TotalHands(r.players) == TotalHands(ps)
    decreases |types|
  {
    if |types| == 0 then Moved(ps, 0, map[])
    else
      var first := Transfer(ps, s, a, types[0]);
      var rest := MoveAll(first.players, s, a, types[1..]);
      Moved(rest.players, first.total + rest.total, first.byType + rest.byType)
  }

  /* Between two different players, the sender keeps none of the selected
     types and the by-type record holds exactly its copies of them. */
  lemma {:induction false} MoveAllSender(ps: seq<Player>, s: nat, a: nat, types: seq<CardType>)
    requires s < |ps| && a < |ps| && s != a
    ensures var r := MoveAll(ps, s, a, types);
      && (forall u: CardType :: Count(r.players[s].hand, u) == if u in types then 0 else Count(ps[s].hand, u))
      && (forall u: CardType :: Count(r.byType, u) == if u in types then Count(ps[s].hand, u) else 0)
    decreases |types|
  {
    if |types| > 0 {
      TransferHands(ps, s, a, types[0]);
      MoveAllSender(Transfer(ps, s, a, types[0]).players, s, a, types[1..]);
      assert forall u :: u in types <==> u == types[0] || u in types[1..];
    }
  }

  /* Between two different players, the active player gains every copy of
     the selected types the sender held, and nobody else is touched. */
  lemma {:induction false} MoveAllActive(ps: seq<Player>, s: nat, a: nat, types: seq<CardType>)
    requires s < |ps| && a < |ps| && s != a
    ensures var r := MoveAll(ps, s, a, types);
      && (forall u: CardType :: Count(r.players[a].hand, u) == Count(ps[a].hand, u) + if u in types then Count(ps[s].hand, u) else 0)
      && (forall i :: 0 <= i < |ps| && i != s && i != a ==> r.players[i] == ps[i])
    decreases |types|
  {
    if |types| > 0 {
      TransferHands(ps, s, a, types[0]);
      var first := Transfer(ps, s, a, types[0]).players;
      MoveAllActive(first, s, a, types[1..]);
      assert forall u :: u in types <==> u == types[0] || u in types[1..];
    }
  }

  /* Between two different players, the cards moved are the cards the sender
     lost and the active player gained, and nothing moves exactly when the
     sender holds none of the selected types. */
  lemma {:induction false} MoveAllTotals(ps: seq<Player>, s: nat, a: nat, types: seq<CardType>)
    requires s < |ps| && a < |ps| && s != a
    ensures var r := MoveAll(ps, s, a, types);
      && r.total + HandTotal(r.players[s].hand) == HandTotal(ps[s].hand)
      && HandTotal(r.players[a].hand) == HandTotal(ps[a].hand) + r.total
      && (r.total == 0 <==> forall u: CardType :: u in types ==> Count(ps[s].hand, u) == 0)
    decreases |types|
  {
    if |types| > 0 {
      TransferHands(ps, s, a, types[0]);
      MoveAllTotals(Transfer(ps, s, a, types[0]).players, s, a, types[1..]);
      assert forall u :: u in types <==> u == types[0] || u in types[1..];
    }
  }

  /* Between two different players the moved total is the sum of the
     by-type record. */
  lemma MoveAllTotal(ps: seq<Player>, s: nat, a: nat, types: seq<CardType>)
    requires s < |ps| && a < |ps| && s != a
    ensures var r := MoveAll(ps, s, a, types); r.total == HandTotal(r.byType)
  {
    var r := MoveAll(ps, s, a, types);
    MoveAllSender(ps, s, a, types);
    MoveAllTotals(ps, s, a, types);
    HandTotalSplit(ps[s].hand, r.players[s].hand, r.byType);
  }

  /** What `giveToActiveWithMoved` leaves and returns. */
  datatype Gift = Gift(room: Room, movedTotal: nat, movedByType: map<CardType, nat>)

  /** `turnTracker?.gave?.add(sender)` when some card moved: the sender is
      marked as having given, if a tracker exists. */
  function MarkGave(tt: Option<TurnTracker>, sender: PlayerId, moved: bool): (r: Option<TurnTracker>)
    ensures r.Some? <==> tt.Some?
    ensures r.Some? ==> r.value.gave == tt.value.gave + (if moved then {sender} else {})
    ensures r.Some? ==> r.value.eligible == tt.value.eligible && r.value.startedAt == tt.value.startedAt
  {
    if moved && tt.Some? then Some(tt.value.(gave := tt.value.gave + {sender})) else tt
  }

  /** The moves of a gift and the tracker update, before any set check. */
  function Handover(room: Room, sender: PlayerId, types: seq<CardType>): (r: Gift)
    requires HasPlayer(room.players, sender) && ActiveInRoom(room)
    ensures SameRoster(room.players, r.room.players)
    ensures r.room == room.(players := r.room.players, turnTracker := MarkGave(room.turnTracker, sender, r.movedTotal > 0))
  {
    var s := IndexOf(room.players, sender).value;
    var m := MoveAll(room.players, s, IndexOf(room.players, room.activePlayerId.value).value, types);
    Gift(room.(players := m.players, turnTracker := MarkGave(room.turnTracker, sender, m.total > 0)), m.total, m.byType)
  }

  /** `giveToActiveWithMoved`: every copy of each selected type moves from
      the sender to the active player; the sender is marked as having given
      when some card moved and a turn tracker exists; then sets are checked
      for the active player and for the sender. Without a sender or an
      active player in the room nothing happens. */
  function GiveToActiveWithMoved(room: Room, sender: PlayerId, types: seq<CardType>, now: int): (r: Gift)
    ensures !HasPlayer(room.players, sender) || !ActiveInRoom(room) ==> r == Gift(room, 0, map[])
    ensures SameRoster(room.players, r.room.players)
    ensures r.room == room.(players := r.room.players, publicSets := r.room.publicSets,
                            turnTracker := MarkGave(room.turnTracker, sender, r.movedTotal > 0),
                            lastActivityAt := r.room.lastActivityAt)
  {
    if !HasPlayer(room.players, sender) || !ActiveInRoom(room) then Gift(room, 0, map[])
    else
      var h := Handover(room, sender, types);
      var checked := CheckSets(h.room, room.activePlayerId.value, now);
      var done := CheckSets(checked, sender, now);
      SameRosterTrans(room.players, h.room.players, checked.players);
      SameRosterTrans(room.players, checked.players, done.players);
      Gift(done, h.movedTotal, h.movedByType)
  }

  /* A gift moves cards between hands and into sets: the room's card count
     is unchanged. */
  lemma GiveCards(room: Room, sender: PlayerId, types: seq<CardType>, now: int)
    ensures Cards(GiveToActiveWithMoved(room, sender, types, now).room) == Cards(room)
  {
    if HasPlayer(room.players, sender) && ActiveInRoom(room) {
      var moved := Handover(room, sender, types).room;
      var s := IndexOf(room.players, sender).value;
      var active := room.activePlayerId.value;
      var m := MoveAll(room.players, s, IndexOf(room.players, active).value, types);
      assert moved.players == m.players;
      CheckSetsCards(moved, active, now);
      CheckSetsCards(CheckSets(moved, active, now), sender, now);
    }
  }

  /* A gift from another player empties the sender of every selected type;
     the record lists exactly the selected types the sender held, with their
     counts, and adds up to the moved total, which is positive exactly when
     the sender held some selected type. */
  lemma GiveMoved(room: Room, sender: PlayerId, types: seq<CardType>, now: int)
    requires HasPlayer(room.players, sender) && ActiveInRoom(room) && room.activePlayerId != Some(sender)
    ensures var r := GiveToActiveWithMoved(room, sender, types, now);
      var h := room.players[IndexOf(room.players, sender).value].hand;
      && (forall u: CardType :: u in types ==> Count(r.room.players[IndexOf(room.players, sender).value].hand, u) == 0)
      && (forall u: CardType :: Count(r.movedByType, u) == if u in types then Count(h, u) else 0)
      && r.movedTotal == HandTotal(r.movedByType)
      && (r.movedTotal > 0 <==> exists u: CardType :: u in types && Count(h, u) > 0)
  {
    var s := IndexOf(room.players, sender).value;
    var active := room.activePlayerId.value;
    var a := IndexOf(room.players, active).value;
    var m := MoveAll(room.players, s, a, types);
    MoveAllSender(room.players, s, a, types);
    MoveAllTotals(room.players, s, a, types);
    MoveAllTotal(room.players, s, a, types);
    var moved := Handover(room, sender, types).room;
    SameRosterIndex(room.players, m.players, active);
    SameRosterIndex(room.players, m.players, sender);
    CheckSetsPlayer(moved, active, now);
    var c := CheckSets(moved, active, now);
    SameRosterIndex(m.players, c.players, sender);
    CheckSetsPlayer(c, sender, now);
  }

  /* The moves of a gift from another player leave both players where they
     were and give the active player every copy of the selected types the
     sender held. */
  lemma HandoverActive(room: Room, sender: PlayerId, types: seq<CardType>)
    requires HasPlayer(room.players, sender) && ActiveInRoom(room) && room.activePlayerId != Some(sender)
    ensures var ps := Handover(room, sender, types).room.players;
      var s := IndexOf(room.players, sender).value;
      var a := IndexOf(room.players, room.activePlayerId.value).value;
      && s != a
      && IndexOf(ps, sender) == Some(s) && IndexOf(ps, room.activePlayerId.value) == Some(a)
      && forall u: CardType :: Count(ps[a].hand, u) == Count(room.players[a].hand, u) + if u in types then Count(room.players[s].hand, u) else 0
  {
    var ps := Handover(room, sender, types).room.players;
    var s := IndexOf(room.players, sender).value;
    var a := IndexOf(room.players, room.activePlayerId.value).value;
    MoveAllActive(room.players, s, a, types);
    SameRosterIndex(room.players, ps, sender);
    SameRosterIndex(room.players, ps, room.activePlayerId.value);
  }

  /* After a gift from another player, the active player holds, of each
     type, what it held plus what it was given (the hand `g` after the
     moves), less the sets this completed. */
  lemma GiveActive(room: Room, sender: PlayerId, types: seq<CardType>, now: int)
    requires HasPlayer(room.players, sender) && ActiveInRoom(room) && room.activePlayerId != Some(sender)
    ensures var r := GiveToActiveWithMoved(room, sender, types, now);
      var s := IndexOf(room.players, sender).value;
      var a := IndexOf(room.players, room.activePlayerId.value).value;
      var g := Handover(room, sender, types).room.players[a].hand;
      && (forall u: CardType :: Count(g, u) == Count(room.players[a].hand, u) + if u in types then Count(room.players[s].hand, u) else 0)
      && (forall u: CardType :: Count(r.room.players[a].hand, u) == Count(g, u) % Copies)
  {
    var active := room.activePlayerId.value;
    HandoverActive(room, sender, types);
    CheckTwiceFirst(Handover(room, sender, types).room, active, sender, now,
      IndexOf(room.players, active).value, IndexOf(room.players, sender).value);
  }

  /* Checking one player's sets and then another's leaves the first with its
     counts modulo four. */
  lemma CheckTwiceFirst(room: Room, first: PlayerId, second: PlayerId, now: int, i: nat, j: nat)
    requires IndexOf(room.players, first) == Some(i) && IndexOf(room.players, second) == Some(j) && i != j
    ensures forall u: CardType ::
      Count(CheckSets(CheckSets(room, first, now), second, now).players[i].hand, u)
      == Count(room.players[i].hand, u) % Copies
  {
    CheckSetsCounts(room, first, now);
    var c := CheckSets(room, first, now);
    SameRosterIndex(room.players, c.players, second);
    CheckSetsOthers(c, second, now, i);
  }

  /** `spinnerPickIndex`: the first output of the generator, scaled from
      [0, 2^32) to [0, n) and rounded down. */
  function SpinnerPickIndex(seed: nat, n: nat): (r: nat)
    ensures n > 0 ==> r < n
    ensures n == 0 ==> r == 0
  {
    Scale(Mulberry32First(seed), n)
  }

  /** `Math.floor(x / 2^32 * n)` for a 32-bit x; the product is exact in
      double precision for the room sizes involved. */
  function Scale(x: nat, n: nat): (r: nat)
    requires x < 0x1_0000_0000
    ensures n > 0 ==> r < n
    ensures n == 0 ==> r == 0
  {
    ProductBelow(x, n, 0x1_0000_0000);
    x * n / 0x1_0000_0000
  }

  lemma ProductBelow(x: nat, n: nat, d: nat)
    requires x < d
    ensures n > 0 ==> x * n < d * n
  {
  }
}
