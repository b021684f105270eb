/**
 The room manager of server/src/rooms.js: the rooms by id, the binding of
 connections (sockets) to players, joining by name, resuming with a
 secret, disconnecting, starting and resetting games, host-initiated
 removal and the expiry of idle rooms. Every operation is a function from
 the manager before to the manager after; the errors the source throws or
 returns are `RoomError` values.
 */
module Rooms {
  import opened Basics
  import opened Utils
  import opened Hands
  import opened RoomState
  import opened GameLogic
  import opened Names
  import opened Lifecycle

  /** A room takes at most this many players. */
  const MaxPlayers: nat := 6

  /** `ROOM_TTL_MS` with its default of 240 minutes, in milliseconds. */
  const RoomTtl: int := 240 * 60 * 1000

  /** A `socketToPlayer` entry. */
  datatype Binding = Binding(roomId: RoomId, playerId: PlayerId)

  /** `rooms` and `socketToPlayer`. */
  datatype Manager = Manager(rooms: map<RoomId, Room>, sockets: map<SocketId, Binding>)

  datatype RoomError = RoomNotFound | RoomFull | BadSecret | BadPhase | NeedTwoPlayers | TemplateNotFound

  /** A socket's entry points to a room of the manager and to a player of
      that room who is connected through this very socket. */
  predicate BoundTo(m: Manager, s: SocketId)
    requires s in m.sockets
  {
    var b := m.sockets[s];
    b.roomId in m.rooms && SocketOf(m.rooms[b.roomId].players, b.playerId) == Some(s)
  }

  /** The manager's invariant: every room is stored under its own id and
      has unique player ids, and every socket entry is sound. */
  predicate Valid(m: Manager)
  {
    && (forall id :: id in m.rooms ==> m.rooms[id].id == id && UniqueIds(m.rooms[id].players))
    && (forall s :: s in m.sockets ==> BoundTo(m, s))
  }

  /** The manager with the room under `id` replaced or added; nothing else
      changes. */
  function SetRoom(m: Manager, id: RoomId, room: Room): (r: Manager)
    ensures id in r.rooms && r.rooms[id] == room && r.sockets == m.sockets
    ensures forall k :: k in r.rooms <==> k in m.rooms || k == id
    ensures forall k :: k in m.rooms && k != id ==> r.rooms[k] == m.rooms[k]
  {
    m.(rooms := m.rooms[id := room])
  }

  // ---------------------------------------------------------------------
  // Rooms
  // ---------------------------------------------------------------------

  /** A fresh room, as `createRoom` builds it. */
  function NewRoom(id: RoomId, now: int): (r: Room)
    ensures r.id == id && r.phase == Lobby && r.lastActivityAt == now
    ensures r.players == [] && r.order == [] && r.activePlayerId == None && r.host == None
    ensures Cards(r) == 0
  {
    Room(id, Lobby, None, None, [], [], [], 0, None, None, [], [], None, now)
  }

  /** `createRoom` under the given fresh id (the source draws it at
      random); a room already stored under that id would be replaced. */
  function CreateRoom(m: Manager, id: RoomId, now: int): (r: Manager)
    ensures id in r.rooms && r.rooms[id] == NewRoom(id, now)
    ensures r.rooms.Keys == m.rooms.Keys + {id}
    ensures forall k :: k in m.rooms && k != id ==> r.rooms[k] == m.rooms[k]
    ensures r.sockets == m.sockets
  {
    SetRoom(m, id, NewRoom(id, now))
  }

  /* A room created under an unused id keeps the manager valid. */
  lemma CreateRoomValid(m: Manager, id: RoomId, now: int)
    requires Valid(m) && id !in m.rooms
    ensures Valid(CreateRoom(m, id, now))
  {
    var r := CreateRoom(m, id, now);
    forall s | s in r.sockets ensures BoundTo(r, s) {
      assert BoundTo(m, s);
    }
  }

  // ---------------------------------------------------------------------
  // Joining by name
  // ---------------------------------------------------------------------

  function NameKey(p: Player): string { NormalizeName(p.name) }

  /** `findPlayerByName`: the first player whose name normalises like the
      given one. */
  function FindPlayerByName(ps: seq<Player>, name: string): (r: Option<nat>)
    ensures r.Some? ==> r.value < |ps| && NormalizeName(ps[r.value].name) == NormalizeName(name)
    ensures r.Some? ==> forall j :: 0 <= j < r.value ==> NormalizeName(ps[j].name) != NormalizeName(name)
    ensures r.None? <==> forall j :: 0 <= j < |ps| ==> NormalizeName(ps[j].name) != NormalizeName(name)
  {
    FirstIndex(ps, NameKey, NormalizeName(name))
  }

  /* The lookup ignores the case of ASCII letters... */
  lemma FindCaseInsensitive(ps: seq<Player>, a: string, b: string)
    requires Lower(a) == Lower(b)
    ensures FindPlayerByName(ps, a) == FindPlayerByName(ps, b)
  {
    NormalizeCaseInsensitive(a, b);
  }

  /* ... and white space around the name. */
  lemma FindIgnoresPadding(ps: seq<Player>, name: string, pad1: string, pad2: string)
    requires AllSpace(pad1) && AllSpace(pad2)
    ensures FindPlayerByName(ps, pad1 + name + pad2) == FindPlayerByName(ps, name)
  {
    NormalizeIgnoresPadding(name, pad1, pad2);
  }

  /** What `addPlayer` returns: the manager after, the player's id, whether
      an existing player was reclaimed and how many cards a late joiner was
      dealt. */
  datatype Joined = Joined(manager: Manager, playerId: PlayerId, reclaimed: bool, dealt: nat)

  /** The player `addPlayer` creates: the stored name, no cards, offline,
      and seated after everybody else when a game is running. */
  function NewPlayer(room: Room, id: PlayerId, name: string, secret: string): Player
  {
    Player(id, StoredName(name), secret, None, map[], 0,
      if room.phase == Active then Some(NextSeat(room.players)) else None)
  }

  /** The room after a new player is admitted: appended to the players and,
      in a running game, dealt in as a late joiner; the room's clock is
      set. */
  function Admit(room: Room, id: PlayerId, name: string, secret: string, now: int): (r: LateJoin)
    ensures SameRoster(room.players + [NewPlayer(room, id, name, secret)], r.room.players)
    ensures room.phase == Active ==> r.room.order == room.order + [id]
    ensures room.phase != Active ==> r.room.order == room.order && r.dealt == 0
    ensures r.room.id == room.id && r.room.phase == room.phase && r.room.lastActivityAt == now
  {
    var added := room.(players := room.players + [NewPlayer(room, id, name, secret)]);
    var late := if room.phase == Active then AppendLateJoin(added, id, now) else LateJoin(added, 0);
    LateJoin(Touch(late.room, now), late.dealt)
  }

  /* Admitting a player moves cards only from the deck to the newcomer: the
     room's card count is unchanged. */
  lemma AdmitCards(room: Room, id: PlayerId, name: string, secret: string, now: int)
    ensures Cards(Admit(room, id, name, secret, now).room) == Cards(room)
  {
    var p := NewPlayer(room, id, name, secret);
    var added := room.(players := room.players + [p]);
    assert HandTotal(p.hand) == 0;
    SumOfConcat(room.players, [p], PlayerCards);
    if room.phase == Active {
      LateJoinCards(added, id, now);
    }
  }

  /** `addPlayer`, with the existing player looked up under `target`: the
      source looks up the name as given (`AddPlayerAsWritten`), the
      corrected version the name as it would be stored (`AddPlayer`). The
      room must exist and hold fewer than six players; a name that matches
      an existing player reclaims it and changes nothing; otherwise a new
      player joins under the fresh id and secret (the source draws them at
      random), joining the running game when there is one. */
  function Join(m: Manager, roomId: RoomId, target: string, name: string, freshId: PlayerId, freshSecret: string, now: int): (r: Result<Joined, RoomError>)
    ensures roomId !in m.rooms ==> r == Err(RoomNotFound)
    ensures roomId in m.rooms ==> (r == Err(RoomFull) <==> |m.rooms[roomId].players| >= MaxPlayers)
    ensures r.Err? ==> r.error == RoomNotFound || r.error == RoomFull
    ensures r.Ok? ==> roomId in m.rooms && r.value.manager.sockets == m.sockets
    ensures r.Ok? ==> r.value.manager.rooms.Keys == m.rooms.Keys
    ensures r.Ok? ==> forall k :: k in m.rooms && k != roomId ==> r.value.manager.rooms[k] == m.rooms[k]
    ensures r.Ok? ==> (r.value.reclaimed <==> FindPlayerByName(m.rooms[roomId].players, target).Some?)
    ensures r.Ok? && r.value.reclaimed ==>
      && r.value.manager == m && r.value.dealt == 0
      && r.value.playerId == m.rooms[roomId].players[FindPlayerByName(m.rooms[roomId].players, target).value].id
    ensures r.Ok? && !r.value.reclaimed ==>
      && r.value.playerId == freshId
      && r.value.manager.rooms[roomId] == Admit(m.rooms[roomId], freshId, name, freshSecret, now).room
  {
    if roomId !in m.rooms then Err(RoomNotFound)
    else
      var room := m.rooms[roomId];
      if |room.players| >= MaxPlayers then Err(RoomFull)
      else
        match FindPlayerByName(room.players, target)
        case Some(i) => Ok(Joined(m, room.players[i].id, true, 0))
        case None =>
          var late := Admit(room, freshId, name, freshSecret, now);
          Ok(Joined(SetRoom(m, roomId, late.room), freshId, false, late.dealt))
  }

  /** `addPlayer` as the source writes it: the existing player is looked up
      under the name as given. */
  function AddPlayerAsWritten(m: Manager, roomId: RoomId, name: string, freshId: PlayerId, freshSecret: string, now: int): (r: Result<Joined, RoomError>)
    ensures roomId !in m.rooms ==> r == Err(RoomNotFound)
    ensures r.Ok? ==> (r.value.reclaimed <==> FindPlayerByName(m.rooms[roomId].players, name).Some?)
  {
    Join(m, roomId, name, name, freshId, freshSecret, now)
  }

  /** `addPlayer` corrected: the existing player is looked up under the
      name as it would be stored, cut to 30 characters, so that a player
      can always reclaim its place under the name it joined with. */
  function AddPlayer(m: Manager, roomId: RoomId, name: string, freshId: PlayerId, freshSecret: string, now: int): (r: Result<Joined, RoomError>)
    ensures roomId !in m.rooms ==> r == Err(RoomNotFound)
    ensures r.Ok? ==> (r.value.reclaimed <==> FindPlayerByName(m.rooms[roomId].players, StoredName(name)).Some?)
  {
    Join(m, roomId, StoredName(name), name, freshId, freshSecret, now)
  }

  /* A new player is appended after the players already there, who keep
     their places, with the stored name (at most 30 characters), the fresh
     id and secret and no connection; in a running game its seat is above
     every seat in use. */
  lemma JoinNewPlayer(m: Manager, roomId: RoomId, target: string, name: string, freshId: PlayerId, freshSecret: string, now: int)
    ensures var r := Join(m, roomId, target, name, freshId, freshSecret, now);
      r.Ok? && !r.value.reclaimed ==>
        var ps := m.rooms[roomId].players;
        var ps' := r.value.manager.rooms[roomId].players;
        && |ps'| == |ps| + 1
        && (forall i :: 0 <= i < |ps| ==> ps'[i].id == ps[i].id && ps'[i].name == ps[i].name && ps'[i].socketId == ps[i].socketId)
        && ps'[|ps|].id == freshId && ps'[|ps|].secret == freshSecret && ps'[|ps|].socketId == None
        && ps'[|ps|].name == StoredName(name) && |ps'[|ps|].name| <= MaxNameLength
        && (m.rooms[roomId].phase == Active ==> forall i :: 0 <= i < |ps| ==> SeatNumber(ps[i]) < SeatNumber(ps'[|ps|]))
  {
    var r := Join(m, roomId, target, name, freshId, freshSecret, now);
    if r.Ok? && !r.value.reclaimed {
      var room := m.rooms[roomId];
      var ps' := r.value.manager.rooms[roomId].players;
      assert ps'[|room.players|] == NewPlayer(room, freshId, name, freshSecret).(hand := ps'[|room.players|].hand, setsCount := ps'[|room.players|].setsCount);
    }
  }

  /* Admitting a player under an unused id keeps the ids unique and every
     player's connection as it was. */
  lemma AdmitKeepsIds(room: Room, id: PlayerId, name: string, secret: string, now: int)
    requires UniqueIds(room.players) && !HasPlayer(room.players, id)
    ensures UniqueIds(Admit(room, id, name, secret, now).room.players)
    ensures forall q :: SocketOf(Admit(room, id, name, secret, now).room.players, q) == SocketOf(room.players, q)
  {
    var p := NewPlayer(room, id, name, secret);
    var ps' := Admit(room, id, name, secret, now).room.players;
    AppendUnique(room.players, p);
    SameRosterMembers(room.players + [p], ps');
    SameMembersIds(room.players + [p], ps');
    forall q ensures SocketOf(ps', q) == SocketOf(room.players, q) {
      JoinKeepsSocket(room.players, p, ps', q);
    }
  }

  /* Appending a player under an unused id keeps the ids unique. */
  lemma AppendUnique(ps: seq<Player>, p: Player)
    requires UniqueIds(ps) && !HasPlayer(ps, p.id)
    ensures UniqueIds(ps + [p])
  {
    assert Ids(ps + [p]) == Ids(ps) + [p.id];
    if p.id in Ids(ps) {
      IdsPresent(ps, p.id);
    }
  }

  /* Joining as a new player keeps the room's card count and, when the id
     is not in use yet, keeps the manager valid. */
  lemma JoinValid(m: Manager, roomId: RoomId, target: string, name: string, freshId: PlayerId, freshSecret: string, now: int)
    requires Valid(m) && (roomId in m.rooms ==> !HasPlayer(m.rooms[roomId].players, freshId))
    ensures var r := Join(m, roomId, target, name, freshId, freshSecret, now);
      r.Ok? ==> Valid(r.value.manager) && Cards(r.value.manager.rooms[roomId]) == Cards(m.rooms[roomId])
  {
    var r := Join(m, roomId, target, name, freshId, freshSecret, now);
    if r.Ok? && !r.value.reclaimed {
      var room := m.rooms[roomId];
      AdmitCards(room, freshId, name, freshSecret, now);
      AdmitKeepsIds(room, freshId, name, freshSecret, now);
      ReplaceValid(m, roomId, Admit(room, freshId, name, freshSecret, now).room);
    }
  }

  /* Replacing a room by one under the same id, with unique ids, in which
     every connected player is still connected through the same socket,
     keeps the manager valid. */
  lemma ReplaceValid(m: Manager, roomId: RoomId, room': Room)
    requires Valid(m) && roomId in m.rooms
    requires room'.id == roomId && UniqueIds(room'.players)
    requires forall q :: SocketOf(m.rooms[roomId].players, q).Some? ==> SocketOf(room'.players, q) == SocketOf(m.rooms[roomId].players, q)
    ensures Valid(SetRoom(m, roomId, room'))
  {
    var r := SetRoom(m, roomId, room');
    forall s | s in r.sockets ensures BoundTo(r, s) {
      assert BoundTo(m, s);
    }
  }

  /* Appending a player that is not yet connected does not change whom an
     existing player's connection belongs to. */
  lemma JoinKeepsSocket(ps: seq<Player>, p: Player, ps': seq<Player>, q: PlayerId)
    requires p.socketId == None && !HasPlayer(ps, p.id) && SameMembers(ps + [p], ps')
    ensures SocketOf(ps', q) == SocketOf(ps, q)
  {
    SameMembersSocket(ps + [p], ps', q);
    FirstIndexAppend(ps, PlayerKey, p, q);
  }

  /* With the corrected lookup, a player who joined as new under a name
     reclaims its place when it joins again under the same name. */
  lemma RejoinReclaims(m: Manager, roomId: RoomId, name: string, freshId: PlayerId, freshSecret: string, now: int,
                       id2: PlayerId, secret2: string, later: int)
    requires AddPlayer(m, roomId, name, freshId, freshSecret, now).Ok?
    ensures var j := AddPlayer(m, roomId, name, freshId, freshSecret, now).value;
      var again := AddPlayer(j.manager, roomId, name, id2, secret2, later);
      !j.reclaimed && again.Ok? ==> again.value.reclaimed && again.value.playerId == freshId
  {
    var j := AddPlayer(m, roomId, name, freshId, freshSecret, now).value;
    var target := StoredName(name);
    if !j.reclaimed {
      JoinNewPlayer(m, roomId, target, name, freshId, freshSecret, now);
      var ps := m.rooms[roomId].players;
      var ps' := j.manager.rooms[roomId].players;
      var k := FindPlayerByName(ps', target);
      assert k.Some?;
      assert k.value == |ps|;
    }
  }

  /** A room with one player whose name is 30 letters "a": what the source
      stores for a player who joined under a longer name of such letters. */
  function LongNameRoom(): Room
  {
    var p := Player("p1", Repeat('a', MaxNameLength), "s1", None, map[], 0, None);
    NewRoom("R", 0).(players := [p])
  }

  /* As written, a player who joined under a name of more than 30 letters
     "a" (31, say) is not found when joining again under the same name: a
     second player with the same stored name is created instead. */
  lemma LongNameNotReclaimed(n: nat)
    requires n > MaxNameLength
    ensures var r := AddPlayerAsWritten(Manager(map["R" := LongNameRoom()], map[]), "R", Repeat('a', n), "p2", "s2", 0);
      && r.Ok? && !r.value.reclaimed && r.value.playerId == "p2"
      && |r.value.manager.rooms["R"].players| == 2
      && r.value.manager.rooms["R"].players[0].name == r.value.manager.rooms["R"].players[1].name
  {
    var m := Manager(map["R" := LongNameRoom()], map[]);
    var long := Repeat('a', n);
    var stored := Repeat('a', MaxNameLength);
    var ps := LongNameRoom().players;
    assert "R" in m.rooms && m.rooms["R"].players == ps && |ps| == 1;
    LetterNames(n);
    LetterNames(MaxNameLength);
    RepeatPrefix('a', n, MaxNameLength);
    assert NormalizeName(ps[0].name) == stored;
    assert NormalizeName(long) == long && |long| != |stored|;
    assert FindPlayerByName(ps, long) == None;
    var r := Join(m, "R", long, long, "p2", "s2", 0);
    assert r.Ok? && !r.value.reclaimed;
    JoinNewPlayer(m, "R", long, long, "p2", "s2", 0);
  }

  /* The corrected lookup, by the stored name, finds the first player. */
  lemma LongNameReclaimed(n: nat)
    requires n > MaxNameLength
    ensures var r := AddPlayer(Manager(map["R" := LongNameRoom()], map[]), "R", Repeat('a', n), "p2", "s2", 0);
      r.Ok? && r.value.reclaimed && r.value.playerId == "p1"
  {
    var m := Manager(map["R" := LongNameRoom()], map[]);
    var long := Repeat('a', n);
    var stored := Repeat('a', MaxNameLength);
    var ps := LongNameRoom().players;
    assert "R" in m.rooms && m.rooms["R"].players == ps && |ps| == 1;
    LetterNames(MaxNameLength);
    RepeatPrefix('a', n, MaxNameLength);
    assert StoredName(long) == stored;
    assert NormalizeName(ps[0].name) == NormalizeName(stored);
    assert FindPlayerByName(ps, StoredName(long)) == Some(0);
  }

  /* A name of lower-case letters "a" is its own normal form. */
  lemma LetterNames(n: nat)
    ensures NormalizeName(Repeat('a', n)) == Repeat('a', n)
  {
    var s := Repeat('a', n);
    TrimNoSpace(s);
    LowerUnchanged(s);
  }

  /* The first k of n copies are k copies. */
  lemma RepeatPrefix<T>(x: T, n: nat, k: nat)
    requires k <= n
    ensures Repeat(x, n)[..k] == Repeat(x, k)
  {
  }

  // ---------------------------------------------------------------------
  // Connections
  // ---------------------------------------------------------------------

  /** `b` is the roster `a` with at most the connection of `pid` changed:
      every player keeps its place and everything but its socket, and every
      other player keeps its socket too. */
  predicate OnlySocketOf(a: seq<Player>, b: seq<Player>, pid: PlayerId)
  {
    && |a| == |b|
    && (forall j :: 0 <= j < |a| ==> b[j] == a[j].(socketId := b[j].socketId))
    && (forall j :: 0 <= j < |a| && a[j].id != pid ==> b[j] == a[j])
  }

  /** `bindPlayerSocket`: the player is now connected through `socket`,
      and `socket` maps to it; the entry of a different socket the player
      was connected through is dropped. An unknown room or player changes
      nothing. */
  function BindPlayerSocket(m: Manager, roomId: RoomId, pid: PlayerId, socket: SocketId): (r: Manager)
    ensures roomId !in m.rooms || !HasPlayer(m.rooms[roomId].players, pid) ==> r == m
    ensures roomId in m.rooms && HasPlayer(m.rooms[roomId].players, pid) ==>
      && r.rooms.Keys == m.rooms.Keys
      && SocketOf(r.rooms[roomId].players, pid) == Some(socket)
      && socket in r.sockets && r.sockets[socket] == Binding(m.rooms[roomId].id, pid)
      && (forall s :: s != socket ==> (s in r.sockets <==> s in m.sockets && Some(s) != SocketOf(m.rooms[roomId].players, pid)))
      && (forall s :: s != socket && s in r.sockets ==> r.sockets[s] == m.sockets[s])
    ensures roomId in m.rooms ==>
      && roomId in r.rooms
      && (forall k :: k in m.rooms && k != roomId ==> r.rooms[k] == m.rooms[k])
      && r.rooms[roomId] == m.rooms[roomId].(players := r.rooms[roomId].players)
      && OnlySocketOf(m.rooms[roomId].players, r.rooms[roomId].players, pid)
  {
    if roomId !in m.rooms then m
    else
      var room := m.rooms[roomId];
      match IndexOf(room.players, pid)
      case None => m
      case Some(i) =>
        var ps := Reconnect(room.players, i, pid, socket);
        Manager(m.rooms[roomId := room.(players := ps)], Rebind(m.sockets, room.players[i].socketId, socket, Binding(room.id, pid)))
  }

  /** The roster with the player at `i`, the first one with id `pid`,
      connected through `socket`. */
  function Reconnect(ps: seq<Player>, i: nat, pid: PlayerId, socket: SocketId): (r: seq<Player>)
    requires IndexOf(ps, pid) == Some(i)
    ensures IndexOf(r, pid) == Some(i) && SocketOf(r, pid) == Some(socket)
    ensures OnlySocketOf(ps, r, pid)
  {
    var r := ps[i := ps[i].(socketId := Some(socket))];
    assert IndexOf(r, pid) == Some(i) by {
      assert forall j :: 0 <= j < |r| ==> PlayerKey(r[j]) == PlayerKey(ps[j]);
      FirstIndexSameKeys(r, PlayerKey, ps, PlayerKey, pid);
    }
    r
  }

  /** The socket map after `socket` is bound to `b`: the entry of the
      player's `former` socket is dropped when it is a different one. */
  function Rebind(sockets: map<SocketId, Binding>, former: Option<SocketId>, socket: SocketId, b: Binding): (r: map<SocketId, Binding>)
    ensures socket in r && r[socket] == b
    ensures forall s :: s != socket ==> (s in r <==> s in sockets && Some(s) != former)
    ensures forall s :: s != socket && s in r ==> r[s] == sockets[s]
  {
    var kept := if former.Some? && former.value != socket then sockets - {former.value} else sockets;
    kept[socket := b]
  }

  /* Binding keeps the manager valid. */
  lemma BindValid(m: Manager, roomId: RoomId, pid: PlayerId, socket: SocketId)
    requires Valid(m)
    ensures Valid(BindPlayerSocket(m, roomId, pid, socket))
  {
    var r := BindPlayerSocket(m, roomId, pid, socket);
    if roomId in m.rooms && HasPlayer(m.rooms[roomId].players, pid) {
      var room := m.rooms[roomId];
      var i := IndexOf(room.players, pid).value;
      var ps := r.rooms[roomId].players;
      assert ps == room.players[i := room.players[i].(socketId := Some(socket))];
      assert Ids(ps) == Ids(room.players);
      forall s | s in r.sockets ensures BoundTo(r, s) {
        if s != socket {
          assert BoundTo(m, s);
          var b := m.sockets[s];
          if b.roomId == roomId {
            BindOthers(room.players, i, socket, b.playerId);
          }
        }
      }
    }
  }

  /* Connecting one player leaves every other player's connection as it
     was. */
  lemma BindOthers(ps: seq<Player>, i: nat, socket: SocketId, q: PlayerId)
    requires i < |ps| && q != ps[i].id
    ensures SocketOf(ps[i := ps[i].(socketId := Some(socket))], q) == SocketOf(ps, q)
  {
    var ps' := ps[i := ps[i].(socketId := Some(socket))];
    assert forall j :: 0 <= j < |ps| ==> PlayerKey(ps'[j]) == PlayerKey(ps[j]);
    FirstIndexSameKeys(ps', PlayerKey, ps, PlayerKey, q);
  }

  /** The secret check of `resumePlayer`: the player exists and its secret
      is the one given. */
  predicate SecretMatches(ps: seq<Player>, pid: PlayerId, secret: string)
  {
    match IndexOf(ps, pid)
    case Some(i) => ps[i].secret == secret
    case None => false
  }

  /** `resumePlayer`: with the right secret the player is connected through
      `socket` and the room's clock is set; otherwise `RoomNotFound` or
      `BadSecret` (which covers an unknown player as well), and nothing
      changes. */
  function ResumePlayer(m: Manager, roomId: RoomId, pid: PlayerId, secret: string, socket: SocketId, now: int): (r: Result<Manager, RoomError>)
    ensures roomId !in m.rooms ==> r == Err(RoomNotFound)
    ensures roomId in m.rooms ==> (r == Err(BadSecret) <==> !SecretMatches(m.rooms[roomId].players, pid, secret))
    ensures r.Err? ==> r.error == RoomNotFound || r.error == BadSecret
    ensures r.Ok? ==> roomId in r.value.rooms && SocketOf(r.value.rooms[roomId].players, pid) == Some(socket)
    ensures r.Ok? ==> socket in r.value.sockets && r.value.sockets[socket] == Binding(m.rooms[roomId].id, pid)
    ensures r.Ok? ==> r.value.rooms[roomId].lastActivityAt == now
    ensures r.Ok? ==>
      && (forall k :: k in m.rooms && k != roomId ==> k in r.value.rooms && r.value.rooms[k] == m.rooms[k])
      && r.value.rooms[roomId] == m.rooms[roomId].(players := r.value.rooms[roomId].players, lastActivityAt := now)
      && OnlySocketOf(m.rooms[roomId].players, r.value.rooms[roomId].players, pid)
    ensures r.Ok? ==>
      && (forall s :: s != socket ==> (s in r.value.sockets <==> s in m.sockets && Some(s) != SocketOf(m.rooms[roomId].players, pid)))
      && (forall s :: s != socket && s in r.value.sockets ==> r.value.sockets[s] == m.sockets[s])
  {
    if roomId !in m.rooms then Err(RoomNotFound)
    else if !SecretMatches(m.rooms[roomId].players, pid, secret) then Err(BadSecret)
    else
      var b := BindPlayerSocket(m, roomId, pid, socket);
      Ok(SetRoom(b, roomId, Touch(b.rooms[roomId], now)))
  }

  /* Resuming keeps the manager valid. */
  lemma ResumeValid(m: Manager, roomId: RoomId, pid: PlayerId, secret: string, socket: SocketId, now: int)
    requires Valid(m)
    ensures var r := ResumePlayer(m, roomId, pid, secret, socket, now);
      r.Ok? ==> Valid(r.value)
  {
    var r := ResumePlayer(m, roomId, pid, secret, socket, now);
    if r.Ok? {
      var b := BindPlayerSocket(m, roomId, pid, socket);
      BindValid(m, roomId, pid, socket);
      TouchValid(b, roomId, now);
    }
  }

  /* Setting a room's clock keeps the manager valid. */
  lemma TouchValid(m: Manager, roomId: RoomId, now: int)
    requires Valid(m) && roomId in m.rooms
    ensures Valid(SetRoom(m, roomId, Touch(m.rooms[roomId], now)))
  {
    var r := SetRoom(m, roomId, Touch(m.rooms[roomId], now));
    forall s | s in r.sockets ensures BoundTo(r, s) {
      assert BoundTo(m, s);
    }
  }

  /** The player with this id goes offline if it is connected through
      `socket`. */
  function Unbind(room: Room, pid: PlayerId, socket: SocketId): (r: Room)
    ensures r == room.(players := r.players)
  {
    match IndexOf(room.players, pid)
    case Some(i) =>
      if room.players[i].socketId == Some(socket)
      then room.(players := room.players[i := room.players[i].(socketId := None)])
      else room
    case None => room
  }

  /** The host goes offline if it is connected through `socket`. */
  function ClearHost(room: Room, socket: SocketId): (r: Room)
    ensures r.host != Some(socket)
    ensures room.host != Some(socket) ==> r == room
    ensures r == room.(host := r.host)
  {
    if room.host == Some(socket) then room.(host := None) else room
  }

  /** `disconnectSocket`: the player bound to the socket goes offline (when
      it is still connected through it) and its room's clock is set; the
      socket's entry is dropped; a host connected through it goes offline
      in every room. Cards, players and game state stay as they are. */
  function DisconnectSocket(m: Manager, socket: SocketId, now: int): (r: Manager)
    ensures r.rooms.Keys == m.rooms.Keys
    ensures r.sockets == m.sockets - {socket}
    ensures forall id :: id in r.rooms ==> r.rooms[id].host != Some(socket)
  {
    var rooms :=
      if socket in m.sockets && m.sockets[socket].roomId in m.rooms then
        var b := m.sockets[socket];
        m.rooms[b.roomId := Touch(Unbind(m.rooms[b.roomId], b.playerId, socket), now)]
      else m.rooms;
    Manager(map id | id in rooms :: ClearHost(rooms[id], socket), m.sockets - {socket})
  }

  /* Disconnecting changes no room except for connections and clocks: the
     same players with the same cards, where a player's connection changes
     only from this socket to none, and the host's only from this socket to
     none. */
  lemma DisconnectKeepsGame(m: Manager, socket: SocketId, now: int, id: RoomId)
    requires id in m.rooms
    ensures var before := m.rooms[id];
      var after := DisconnectSocket(m, socket, now).rooms[id];
      && after == before.(players := after.players, host := after.host, lastActivityAt := after.lastActivityAt)
      && |after.players| == |before.players|
      && (after.host != before.host ==> before.host == Some(socket) && after.host == None)
      && (forall i :: 0 <= i < |before.players| ==>
        && after.players[i] == before.players[i].(socketId := after.players[i].socketId)
        && (after.players[i].socketId != before.players[i].socketId ==>
          before.players[i].socketId == Some(socket) && after.players[i].socketId == None))
  {
  }

  /* With a valid manager, the player the socket was bound to is offline
     afterwards. */
  lemma DisconnectGoesOffline(m: Manager, socket: SocketId, now: int)
    requires Valid(m) && socket in m.sockets
    ensures var b := m.sockets[socket];
      b.roomId in DisconnectSocket(m, socket, now).rooms &&
      SocketOf(DisconnectSocket(m, socket, now).rooms[b.roomId].players, b.playerId) == None
  {
    assert BoundTo(m, socket);
    var b := m.sockets[socket];
    var room := m.rooms[b.roomId];
    var i := IndexOf(room.players, b.playerId).value;
    var ps := Unbind(room, b.playerId, socket).players;
    assert ps == room.players[i := room.players[i].(socketId := None)];
    assert forall j :: 0 <= j < |ps| ==> PlayerKey(ps[j]) == PlayerKey(room.players[j]);
    FirstIndexSameKeys(ps, PlayerKey, room.players, PlayerKey, b.playerId);
  }

  /* Disconnecting keeps the manager valid. */
  lemma DisconnectValid(m: Manager, socket: SocketId, now: int)
    requires Valid(m)
    ensures Valid(DisconnectSocket(m, socket, now))
  {
    var r := DisconnectSocket(m, socket, now);
    forall id | id in r.rooms ensures r.rooms[id].id == id && UniqueIds(r.rooms[id].players) {
      DisconnectKeepsGame(m, socket, now, id);
      assert Ids(r.rooms[id].players) == Ids(m.rooms[id].players);
    }
    forall s | s in r.sockets ensures BoundTo(r, s) {
      assert BoundTo(m, s);
      var b := m.sockets[s];
      DisconnectKeepsGame(m, socket, now, b.roomId);
      DisconnectOthers(m.rooms[b.roomId].players, r.rooms[b.roomId].players, socket, b.playerId, s);
    }
  }

  /* A player connected through another socket keeps its connection. */
  lemma DisconnectOthers(ps: seq<Player>, ps': seq<Player>, socket: SocketId, q: PlayerId, s: SocketId)
    requires |ps'| == |ps| && s != socket && SocketOf(ps, q) == Some(s)
    requires forall i :: 0 <= i < |ps| ==>
      && ps'[i] == ps[i].(socketId := ps'[i].socketId)
      && (ps'[i].socketId != ps[i].socketId ==> ps[i].socketId == Some(socket))
    ensures SocketOf(ps', q) == Some(s)
  {
    assert forall j :: 0 <= j < |ps| ==> PlayerKey(ps'[j]) == PlayerKey(ps[j]);
    FirstIndexSameKeys(ps', PlayerKey, ps, PlayerKey, q);
  }

  // ---------------------------------------------------------------------
  // Games
  // ---------------------------------------------------------------------

  /** The outcome of an operation that may fail after changing state. */
  datatype Attempt = Attempt(manager: Manager, error: Option<RoomError>)

  /** `startGame`: the room must exist, be in the lobby and hold two
      players; then the template id is recorded, and only then is the
      template looked up (whether it exists is given), so a missing
      template leaves the new id behind. The random order, deal and
      spinner seed are given. */
  function StartGame(m: Manager, roomId: RoomId, templateId: Option<string>, templateExists: bool,
                     orderSwaps: seq<nat>, dealSwaps: seq<nat>, seed: nat, now: int): (r: Attempt)
    requires roomId in m.rooms ==> SwapsFit(|m.rooms[roomId].players|, orderSwaps)
    requires SwapsFit(Copies * TypeCount, dealSwaps)
    ensures roomId !in m.rooms ==> r == Attempt(m, Some(RoomNotFound))
    ensures roomId in m.rooms && m.rooms[roomId].phase != Lobby ==> r == Attempt(m, Some(BadPhase))
    ensures roomId in m.rooms && m.rooms[roomId].phase == Lobby && |m.rooms[roomId].players| < 2 ==>
      r == Attempt(m, Some(NeedTwoPlayers))
    ensures r.error == Some(TemplateNotFound) <==>
      roomId in m.rooms && m.rooms[roomId].phase == Lobby && |m.rooms[roomId].players| >= 2 && !templateExists
    ensures r.error == Some(TemplateNotFound) ==>
      r.manager == SetRoom(m, roomId, m.rooms[roomId].(templateId := templateId))
    ensures r.error.None? <==>
      roomId in m.rooms && m.rooms[roomId].phase == Lobby && |m.rooms[roomId].players| >= 2 && templateExists
    ensures r.manager.sockets == m.sockets
    ensures forall k :: k in r.manager.rooms <==> k in m.rooms
    ensures forall k :: k in m.rooms && k != roomId ==> r.manager.rooms[k] == m.rooms[k]
  {
    if roomId !in m.rooms then Attempt(m, Some(RoomNotFound))
    else
      var room := m.rooms[roomId];
      if room.phase != Lobby then Attempt(m, Some(BadPhase))
      else if |room.players| < 2 then Attempt(m, Some(NeedTwoPlayers))
      else
        var named := room.(templateId := templateId);
        if !templateExists then Attempt(SetRoom(m, roomId, named), Some(TemplateNotFound))
        else Attempt(SetRoom(m, roomId, StartRoom(named, orderSwaps, dealSwaps, seed, now)), None)
  }

  /* A game that starts is running, under the given template, with every
     player in the turn order exactly once, the turn at a position of that
     order, the same players (with new seats and cards), the 36 cards of a
     fresh deck, and no player holding all four cards of a type. */
  lemma StartGameStarts(m: Manager, roomId: RoomId, templateId: Option<string>, templateExists: bool,
                        orderSwaps: seq<nat>, dealSwaps: seq<nat>, seed: nat, now: int)
    requires roomId in m.rooms ==> SwapsFit(|m.rooms[roomId].players|, orderSwaps)
    requires SwapsFit(Copies * TypeCount, dealSwaps)
    ensures var r := StartGame(m, roomId, templateId, templateExists, orderSwaps, dealSwaps, seed, now);
      r.error.None? ==>
        var room' := r.manager.rooms[roomId];
        && room'.phase == Active && room'.templateId == templateId && room'.startedAt == Some(now)
        && multiset(room'.order) == multiset(Ids(m.rooms[roomId].players))
        && room'.turnIndex < |room'.order| && room'.activePlayerId == Some(room'.order[room'.turnIndex])
        && SameMembers(m.rooms[roomId].players, room'.players)
        && Cards(room') == Copies * TypeCount
        && (forall pid :: pid in room'.order ==> NoFullType(room'.players, pid))
  {
    var r := StartGame(m, roomId, templateId, templateExists, orderSwaps, dealSwaps, seed, now);
    if r.error.None? {
      var named := m.rooms[roomId].(templateId := templateId);
      assert r.manager.rooms[roomId] == StartRoom(named, orderSwaps, dealSwaps, seed, now);
      StartCards(named, orderSwaps, dealSwaps, seed, now);
    }
  }

  /* Starting a game, or failing to, keeps the manager valid. */
  lemma StartGameValid(m: Manager, roomId: RoomId, templateId: Option<string>, templateExists: bool,
                       orderSwaps: seq<nat>, dealSwaps: seq<nat>, seed: nat, now: int)
    requires Valid(m)
    requires roomId in m.rooms ==> SwapsFit(|m.rooms[roomId].players|, orderSwaps)
    requires SwapsFit(Copies * TypeCount, dealSwaps)
    ensures Valid(StartGame(m, roomId, templateId, templateExists, orderSwaps, dealSwaps, seed, now).manager)
  {
    var r := StartGame(m, roomId, templateId, templateExists, orderSwaps, dealSwaps, seed, now);
    if roomId in m.rooms {
      var room := m.rooms[roomId];
      var room' := r.manager.rooms[roomId];
      StartGameStarts(m, roomId, templateId, templateExists, orderSwaps, dealSwaps, seed, now);
      assert SameMembers(room.players, room'.players);
      MembersKeepValid(m, roomId, room');
    }
  }

  /* Replacing a room by one with the same id and the same members keeps
     the manager valid. */
  lemma MembersKeepValid(m: Manager, roomId: RoomId, room': Room)
    requires Valid(m) && roomId in m.rooms
    requires room'.id == roomId && SameMembers(m.rooms[roomId].players, room'.players)
    ensures Valid(SetRoom(m, roomId, room'))
  {
    SameMembersIds(m.rooms[roomId].players, room'.players);
    forall q ensures SocketOf(room'.players, q) == SocketOf(m.rooms[roomId].players, q) {
      SameMembersSocket(m.rooms[roomId].players, room'.players, q);
    }
    ReplaceValid(m, roomId, room');
  }

  /** `newGame`: the room goes back to the lobby with the same players and
      no cards; a non-empty template id replaces the room's. */
  function NewGame(m: Manager, roomId: RoomId, templateId: Option<string>, now: int): (r: Result<Manager, RoomError>)
    ensures roomId !in m.rooms <==> r == Err(RoomNotFound)
    ensures r.Ok? ==> r.value.sockets == m.sockets && r.value.rooms.Keys == m.rooms.Keys
    ensures r.Ok? ==> forall k :: k in m.rooms && k != roomId ==> r.value.rooms[k] == m.rooms[k]
    ensures r.Ok? ==> r.value.rooms[roomId].phase == Lobby && Cards(r.value.rooms[roomId]) == 0
    ensures r.Ok? ==> SameMembers(m.rooms[roomId].players, r.value.rooms[roomId].players)
  {
    if roomId !in m.rooms then Err(RoomNotFound)
    else
      ResetCards(m.rooms[roomId], templateId, now);
      Ok(SetRoom(m, roomId, ResetRoom(m.rooms[roomId], templateId, now)))
  }

  /* Resetting keeps the manager valid. */
  lemma NewGameValid(m: Manager, roomId: RoomId, templateId: Option<string>, now: int)
    requires Valid(m)
    ensures var r := NewGame(m, roomId, templateId, now);
      r.Ok? ==> Valid(r.value)
  {
    if roomId in m.rooms {
      MembersKeepValid(m, roomId, ResetRoom(m.rooms[roomId], templateId, now));
    }
  }

  /** `removePlayer`: the room must exist; an unknown player changes
      nothing; otherwise the entry of the socket the player is connected
      through is dropped and the player leaves the room as the source
      writes it, turn index unchanged. */
  function RemovePlayer(m: Manager, roomId: RoomId, pid: PlayerId, swaps: seq<nat>, now: int): (r: Result<Manager, RoomError>)
    requires roomId in m.rooms ==> SwapsFit(|m.rooms[roomId].deck| + PlayerTotal(m.rooms[roomId].players, pid), swaps)
    ensures roomId !in m.rooms <==> r == Err(RoomNotFound)
    ensures r.Ok? && !HasPlayer(m.rooms[roomId].players, pid) ==> r.value == m
    ensures r.Ok? ==> r.value.rooms.Keys == m.rooms.Keys
    ensures r.Ok? ==> forall k :: k in m.rooms && k != roomId ==> r.value.rooms[k] == m.rooms[k]
    ensures r.Ok? ==> r.value.sockets.Keys == m.sockets.Keys - (match SocketOf(m.rooms[roomId].players, pid) case Some(s) => {s} case None => {})
    ensures r.Ok? ==> forall s :: s in r.value.sockets ==> r.value.sockets[s] == m.sockets[s]
    ensures r.Ok? ==> r.value.rooms[roomId].turnIndex == m.rooms[roomId].turnIndex
  {
    if roomId !in m.rooms then Err(RoomNotFound)
    else
      var room := m.rooms[roomId];
      match IndexOf(room.players, pid)
      case None => Ok(m)
      case Some(i) =>
        Ok(SetRoom(m, roomId, RemoveFromRoomAsWritten(room, pid, swaps, now)).(sockets := DropSocket(m.sockets, room.players[i].socketId)))
  }

  /** The socket map without the entry of a departing player's socket. */
  function DropSocket(sockets: map<SocketId, Binding>, former: Option<SocketId>): (r: map<SocketId, Binding>)
    ensures r.Keys == sockets.Keys - (match former case Some(s) => {s} case None => {})
    ensures forall s :: s in r ==> r[s] == sockets[s]
  {
    match former
    case Some(s) => sockets - {s}
    case None => sockets
  }

  /* Removing a player conserves the room's cards and keeps the manager
     valid. */
  lemma RemovePlayerValid(m: Manager, roomId: RoomId, pid: PlayerId, swaps: seq<nat>, now: int)
    requires Valid(m)
    requires roomId in m.rooms ==> SwapsFit(|m.rooms[roomId].deck| + PlayerTotal(m.rooms[roomId].players, pid), swaps)
    ensures var r := RemovePlayer(m, roomId, pid, swaps, now);
      r.Ok? ==> Valid(r.value) && Cards(r.value.rooms[roomId]) == Cards(m.rooms[roomId])
  {
    if roomId in m.rooms && HasPlayer(m.rooms[roomId].players, pid) {
      var room := m.rooms[roomId];
      var after := RemoveFromRoomAsWritten(room, pid, swaps, now);
      var r := RemovePlayer(m, roomId, pid, swaps, now).value;
      assert r.rooms[roomId] == after;
      RemoveCards(room, pid, swaps, now);
      RemoveKeepsUnique(room, pid, swaps, now);
      forall id | id in r.rooms ensures r.rooms[id].id == id && UniqueIds(r.rooms[id].players) {
        if id != roomId {
          assert r.rooms[id] == m.rooms[id];
        }
      }
      RemoveKeepsBindings(m, roomId, pid, swaps, now);
    }
  }

  /* Every socket entry left after a removal is still sound. */
  lemma RemoveKeepsBindings(m: Manager, roomId: RoomId, pid: PlayerId, swaps: seq<nat>, now: int)
    requires Valid(m) && roomId in m.rooms
    requires SwapsFit(|m.rooms[roomId].deck| + PlayerTotal(m.rooms[roomId].players, pid), swaps)
    ensures var r := RemovePlayer(m, roomId, pid, swaps, now).value;
      forall s :: s in r.sockets ==> BoundTo(r, s)
  {
    var room := m.rooms[roomId];
    var r := RemovePlayer(m, roomId, pid, swaps, now).value;
    forall s | s in r.sockets ensures BoundTo(r, s) {
      assert BoundTo(m, s);
      var b := m.sockets[s];
      if b.roomId == roomId && HasPlayer(room.players, pid) {
        RemoveKeepsSocket(room, pid, swaps, now, b.playerId);
      }
    }
  }

  /** `removePlayer` with the turn index corrected as `RemoveFromRoom`
      does it: the same outcome as `RemovePlayer` apart from that room's
      turn index, which now keeps naming the active player. */
  function RemovePlayerCorrected(m: Manager, roomId: RoomId, pid: PlayerId, swaps: seq<nat>, now: int): (r: Result<Manager, RoomError>)
    requires roomId in m.rooms ==> SwapsFit(|m.rooms[roomId].deck| + PlayerTotal(m.rooms[roomId].players, pid), swaps)
    ensures roomId !in m.rooms <==> r == Err(RoomNotFound)
    ensures r.Ok? ==> var w := RemovePlayer(m, roomId, pid, swaps, now).value;
      && r.value.sockets == w.sockets
      && (forall k :: k in r.value.rooms <==> k in w.rooms)
      && (forall k :: k in w.rooms && k != roomId ==> r.value.rooms[k] == w.rooms[k])
      && r.value.rooms[roomId] == w.rooms[roomId].(turnIndex := r.value.rooms[roomId].turnIndex)
    ensures r.Ok? && TurnAligned(m.rooms[roomId]) && Distinct(m.rooms[roomId].order) && "" !in m.rooms[roomId].order ==>
      TurnAligned(r.value.rooms[roomId])
  {
    if roomId !in m.rooms then Err(RoomNotFound)
    else
      var room := m.rooms[roomId];
      var after := RemoveFromRoom(room, pid, swaps, now);
      assert TurnAligned(room) && Distinct(room.order) && "" !in room.order ==> TurnAligned(after) by {
        if TurnAligned(room) && Distinct(room.order) && "" !in room.order {
          RemoveFromRoomKeepsTurn(room, pid, swaps, now);
        }
      }
      Ok(SetRoom(RemovePlayer(m, roomId, pid, swaps, now).value, roomId, after))
  }

  /* Every other player keeps its connection when a player leaves. */
  lemma RemoveKeepsSocket(room: Room, pid: PlayerId, swaps: seq<nat>, now: int, q: PlayerId)
    requires UniqueIds(room.players) && q != pid
    requires SwapsFit(|room.deck| + PlayerTotal(room.players, pid), swaps)
    ensures SocketOf(RemoveFromRoomAsWritten(room, pid, swaps, now).players, q) == SocketOf(room.players, q)
  {
    RemoveOthersKept(room, pid, swaps, now, q);
  }

  // ---------------------------------------------------------------------
  // Expiry
  // ---------------------------------------------------------------------

  /** Some player of the list is connected. */
  function AnyOnline(ps: seq<Player>): (r: bool)
    ensures r <==> exists i :: 0 <= i < |ps| && ps[i].socketId.Some?
  {
    if |ps| == 0 then false
    else
      assert forall i :: 1 <= i < |ps| ==> ps[1..][i - 1] == ps[i];
      ps[0].socketId.Some? || AnyOnline(ps[1..])
  }

  /** `roomHasAnyConnections`: the host or some player is connected. */
  function HasConnections(room: Room): (r: bool)
    ensures r <==> room.host.Some? || exists i :: 0 <= i < |room.players| && room.players[i].socketId.Some?
  {
    room.host.Some? || AnyOnline(room.players)
  }

  /** The test of `cleanup`: idle for longer than the time to live and
      nobody connected. */
  function Expired(room: Room, now: int): (r: bool)
    ensures r <==>
      && now > room.lastActivityAt + 240 * 60 * 1000
      && room.host.None?
      && forall i :: 0 <= i < |room.players| ==> room.players[i].socketId.None?
  {
    now - room.lastActivityAt > RoomTtl && !HasConnections(room)
  }

  /** `cleanup` at the clock value `now`: every expired room is dropped;
      the socket entries are left as they are. */
  function Cleanup(m: Manager, now: int): (r: Manager)
    ensures r.sockets == m.sockets
    ensures forall id :: id in r.rooms <==> id in m.rooms && !Expired(m.rooms[id], now)
    ensures forall id :: id in r.rooms ==> r.rooms[id] == m.rooms[id]
  {
    m.(rooms := map id | id in m.rooms && !Expired(m.rooms[id], now) :: m.rooms[id])
  }

  /* A room that a socket is bound to has a connection, so it survives
     cleanup; hence cleanup keeps the manager valid. */
  lemma CleanupValid(m: Manager, now: int)
    requires Valid(m)
    ensures Valid(Cleanup(m, now))
  {
    var r := Cleanup(m, now);
    forall s | s in r.sockets ensures BoundTo(r, s) {
      assert BoundTo(m, s);
      var b := m.sockets[s];
      var ps := m.rooms[b.roomId].players;
      var i := IndexOf(ps, b.playerId).value;
      assert ps[i].socketId.Some?;
      assert HasConnections(m.rooms[b.roomId]);
    }
  }

  /* A second cleanup at the same clock value removes nothing more. */
  lemma CleanupIdempotent(m: Manager, now: int)
    ensures Cleanup(Cleanup(m, now), now) == Cleanup(m, now)
  {
  }

  /* A room with a connected host or player is never dropped, however long
     it has been idle; a room without connections is dropped exactly when
     it has been idle for longer than the time to live. */
  lemma CleanupKeepsConnected(m: Manager, now: int, id: RoomId)
    requires id in m.rooms
    ensures HasConnections(m.rooms[id]) ==> id in Cleanup(m, now).rooms
    ensures !HasConnections(m.rooms[id]) ==> (id in Cleanup(m, now).rooms <==> now - m.rooms[id].lastActivityAt <= RoomTtl)
  {
  }
}
