/**
 The state of one room (server/src/rooms.js `createRoom` and the player
 record of `addPlayer`), as an immutable value, with the card count that
 every engine operation conserves.
 */
module RoomState {
  import opened Basics
  import opened Hands

  type PlayerId = string
  /** A connection id. Socket.IO never issues an empty one, so the source's
      truthiness tests on a socket id agree with `Some?` here. */
  type SocketId = s: string | s != "" witness "s"
  type RoomId = string

  datatype Phase = Lobby | Active | Finished

  /** A player: `socketId` None means offline; `seat` None means unseated. */
  datatype Player = Player(
    id: PlayerId,
    name: string,
    secret: string,
    socketId: Option<SocketId>,
    hand: Hand,
    setsCount: nat,
    seat: Option<nat>)

  /** One `publicSets` entry: a player's completed sets, total and by type. */
  datatype SetInfo = SetInfo(setsCount: nat, byType: map<CardType, nat>)
  datatype SetEntry = SetEntry(pid: PlayerId, info: SetInfo)

  /** Per-turn bookkeeping: who owed a gift when the turn began, who gave. */
  datatype TurnTracker = TurnTracker(startedAt: int, eligible: set<PlayerId>, gave: set<PlayerId>)

  /** A room. `players` and `publicSets` keep the insertion order of the
      source's `Map`s; `deck` is a stack whose top is its last element. */
  datatype Room = Room(
    id: RoomId,
    phase: Phase,
    host: Option<SocketId>,
    templateId: Option<string>,
    players: seq<Player>,
    order: seq<PlayerId>,
    turnOrder: seq<PlayerId>,
    turnIndex: nat,
    activePlayerId: Option<PlayerId>,
    startedAt: Option<int>,
    deck: seq<CardType>,
    publicSets: seq<SetEntry>,
    turnTracker: Option<TurnTracker>,
    lastActivityAt: int)

  function PlayerKey(p: Player): PlayerId { p.id }

  function EntryKey(e: SetEntry): PlayerId { e.pid }

  /** Position of the player with this id (`players.get`). */
  function IndexOf(ps: seq<Player>, pid: PlayerId): Option<nat>
  {
    FirstIndex(ps, PlayerKey, pid)
  }

  predicate HasPlayer(ps: seq<Player>, pid: PlayerId)
  {
    IndexOf(ps, pid).Some?
  }

  function Ids(ps: seq<Player>): (r: seq<PlayerId>)
    ensures |r| == |ps|
    ensures forall i :: 0 <= i < |ps| ==> r[i] == ps[i].id
  {
    seq(|ps|, i requires 0 <= i < |ps| => ps[i].id)
  }

  predicate UniqueIds(ps: seq<Player>)
  {
    Distinct(Ids(ps))
  }

  /** Two player lists with the same players in the same positions, which
      differ at most in their cards and completed sets: what every move of
      the game itself leaves intact. */
  predicate SameRoster(a: seq<Player>, b: seq<Player>)
  {
    |a| == |b| && forall i :: 0 <= i < |a| ==> b[i] == a[i].(hand := b[i].hand, setsCount := b[i].setsCount)
  }

  lemma SameRosterTrans(a: seq<Player>, b: seq<Player>, c: seq<Player>)
    requires SameRoster(a, b) && SameRoster(b, c)
    ensures SameRoster(a, c)
  {
  }

  lemma SameRosterIndex(a: seq<Player>, b: seq<Player>, pid: PlayerId)
    requires SameRoster(a, b)
    ensures IndexOf(a, pid) == IndexOf(b, pid)
  {
    assert forall m :: 0 <= m < |a| ==> PlayerKey(a[m]) == PlayerKey(b[m]);
    FirstIndexSameKeys(a, PlayerKey, b, PlayerKey, pid);
  }

  lemma SameRosterAll(a: seq<Player>, b: seq<Player>)
    requires SameRoster(a, b)
    ensures forall pid :: IndexOf(a, pid) == IndexOf(b, pid)
    ensures Ids(a) == Ids(b)
  {
    forall pid ensures IndexOf(a, pid) == IndexOf(b, pid) {
      SameRosterIndex(a, b, pid);
    }
  }

  /** Two player lists with the same people in the same positions: the same
      id, name, secret and connection; cards, sets and seats may differ. */
  predicate SameMembers(a: seq<Player>, b: seq<Player>)
  {
    |a| == |b| && forall i :: 0 <= i < |a| ==>
      b[i] == a[i].(hand := b[i].hand, setsCount := b[i].setsCount, seat := b[i].seat)
  }

  lemma SameRosterMembers(a: seq<Player>, b: seq<Player>)
    requires SameRoster(a, b)
    ensures SameMembers(a, b)
  {
  }

  /* Keeping the roster after keeping the members keeps the members. */
  lemma SameMembersThenRoster(a: seq<Player>, b: seq<Player>, c: seq<Player>)
    requires SameMembers(a, b) && SameRoster(b, c)
    ensures SameMembers(a, c)
  {
    forall i | 0 <= i < |a| ensures c[i] == a[i].(hand := c[i].hand, setsCount := c[i].setsCount, seat := c[i].seat) {
      assert b[i] == a[i].(hand := b[i].hand, setsCount := b[i].setsCount, seat := b[i].seat);
      assert c[i] == b[i].(hand := c[i].hand, setsCount := c[i].setsCount);
    }
  }

  lemma SameMembersIndex(a: seq<Player>, b: seq<Player>, pid: PlayerId)
    requires SameMembers(a, b)
    ensures IndexOf(a, pid) == IndexOf(b, pid)
  {
    assert forall m :: 0 <= m < |a| ==> PlayerKey(a[m]) == PlayerKey(b[m]);
    FirstIndexSameKeys(a, PlayerKey, b, PlayerKey, pid);
  }

  /* Every id of the list names a player of it. */
  lemma IdsPresent(ps: seq<Player>, pid: PlayerId)
    requires pid in Ids(ps)
    ensures HasPlayer(ps, pid)
  {
    var i :| 0 <= i < |ps| && Ids(ps)[i] == pid;
    assert PlayerKey(ps[i]) == pid;
  }

  /** The socket the player with this id is bound to (None when offline or
      unknown). */
  function SocketOf(ps: seq<Player>, pid: PlayerId): Option<SocketId>
  {
    match IndexOf(ps, pid)
    case Some(i) => ps[i].socketId
    case None => None
  }

  /* Lists with the same members agree on every player's socket. */
  lemma SameMembersSocket(a: seq<Player>, b: seq<Player>, pid: PlayerId)
    requires SameMembers(a, b)
    ensures SocketOf(a, pid) == SocketOf(b, pid)
  {
    SameMembersIndex(a, b, pid);
  }

  /* With unique ids, every player is found at its own position. */
  lemma UniqueIndex(ps: seq<Player>, i: nat)
    requires UniqueIds(ps) && i < |ps|
    ensures IndexOf(ps, ps[i].id) == Some(i)
  {
    var k := IndexOf(ps, ps[i].id);
    assert Ids(ps)[k.value] == Ids(ps)[i];
  }

  lemma UniqueIndexAll(ps: seq<Player>)
    ensures UniqueIds(ps) ==> forall i :: 0 <= i < |ps| ==> IndexOf(ps, ps[i].id) == Some(i)
  {
    if UniqueIds(ps) {
      forall i | 0 <= i < |ps| ensures IndexOf(ps, ps[i].id) == Some(i) {
        UniqueIndex(ps, i);
      }
    }
  }

  /** The cards the player with this id holds (0 for an unknown id). */
  function PlayerTotal(ps: seq<Player>, pid: PlayerId): nat
  {
    match IndexOf(ps, pid)
    case Some(i) => HandTotal(ps[i].hand)
    case None => 0
  }

  function PlayerCards(p: Player): nat { HandTotal(p.hand) }

  function EntrySets(e: SetEntry): nat { e.info.setsCount }

  /** All cards in the players' hands. */
  function TotalHands(ps: seq<Player>): nat
  {
    SumOf(ps, PlayerCards)
  }

  /** `totalSetsInRoom`: the sets counted in `publicSets`. */
  function TotalSets(es: seq<SetEntry>): (r: nat)
    ensures forall i :: 0 <= i < |es| ==> es[i].info.setsCount <= r
    ensures r == 0 <==> forall i :: 0 <= i < |es| ==> es[i].info.setsCount == 0
  {
    SumOfBounds(es, EntrySets);
    SumOf(es, EntrySets)
  }

  /** The sets `publicSets` records for one player (0 without an entry). */
  function SetsOf(es: seq<SetEntry>, pid: PlayerId): nat
  {
    match Get(es, EntryKey, pid)
    case Some(e) => e.info.setsCount
    case None => 0
  }

  /** Every card of the room: in a hand, in the deck, or four per completed
      set. Conserved by every operation of the engine; 36 in a started game. */
  function Cards(room: Room): nat
  {
    TotalHands(room.players) + |room.deck| + Copies * TotalSets(room.publicSets)
  }

  /** Replacing one player's hand changes the hand total of the room by the
      difference between the two hands. */
  lemma TotalHandsUpdate(ps: seq<Player>, i: nat, p: Player)
    requires i < |ps|
    ensures TotalHands(ps[i := p]) + HandTotal(ps[i].hand) == TotalHands(ps) + HandTotal(p.hand)
  {
    SumOfUpdate(ps, i, p, PlayerCards);
  }

  /** Every id in `order` names a player of the room. */
  predicate OrderInRoom(room: Room)
  {
    forall pid :: pid in room.order ==> HasPlayer(room.players, pid)
  }

  /* `order` still names players of the room after a change that keeps the
     roster. */
  lemma OrderInRoomKept(room: Room, room': Room)
    requires OrderInRoom(room) && SameRoster(room.players, room'.players) && room'.order == room.order
    ensures OrderInRoom(room')
  {
    forall pid | pid in room'.order ensures HasPlayer(room'.players, pid) {
      SameRosterIndex(room.players, room'.players, pid);
    }
  }

  /** The active player, when there is one, is a player of the room. */
  predicate ActiveInRoom(room: Room)
  {
    room.activePlayerId.Some? && HasPlayer(room.players, room.activePlayerId.value)
  }

  /** `touch`: record activity (the disk save it schedules is not modelled). */
  function Touch(room: Room, now: int): (r: Room)
    ensures r.lastActivityAt == now
    ensures r.(lastActivityAt := room.lastActivityAt) == room
  {
    room.(lastActivityAt := now)
  }
}
