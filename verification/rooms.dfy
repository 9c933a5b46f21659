/**
 * The values the room registry stores and sends: players, room records,
 * roles, the private `game-start` payload and the outbound events, together
 * with the pure room-level transitions that the handlers of the registry
 * apply and the invariants those transitions keep.
 */
module Rooms {
  import opened Decimal

  type PlayerId = string   // the socket id of a connection
  type RoomId = string

  datatype Option<T> = None | Some(value: T)

  datatype Player = Player(id: PlayerId, name: string)

  datatype GameState = Waiting | Playing

  datatype Role = Knower | Imposter

  /** One entry of the registry; `number` is JavaScript's `null` when None. */
  datatype Room = Room(
    players: seq<Player>,
    gameState: GameState,
    number: Option<int>,
    roles: map<PlayerId, Role>)

  /** The player count at which a game starts, and the range of the number. */
  const GameSize := 3
  const MinNumber := 1
  const MaxNumber := 100

  /** What one player is privately sent when a game starts. */
  datatype Payload = Payload(role: Role, number: Option<int>)

  /** The tag of a `game-status` message; its human-readable text is not modelled. */
  datatype StatusMessage =
    | NeedMore(count: int)     // "Waiting for <count> more player(s)..."
    | ResetReady              // "Game reset. Ready to start!"
    | PlayerLeft              // "A player left. Game reset."
    | GameStarted             // "Game started! Check your role above."

  /** Outbound socket events: to one connection or to every socket in a room. */
  datatype Event =
    | PlayerNameEvent(to: PlayerId, name: string)
    | PlayersUpdate(room: RoomId, names: seq<string>)
    | GameStatus(room: RoomId, status: GameState, message: StatusMessage)
    | GameStart(to: PlayerId, payload: Payload)
    | GameRestarted(room: RoomId)

  // ---------------------------------------------------------------------
  // Views of a room

  function PlayerIds(ps: seq<Player>): set<PlayerId> {
    set p | p in ps :: p.id
  }

  predicate DistinctIds(ps: seq<Player>) {
    forall i, j :: 0 <= i < j < |ps| ==> ps[i].id != ps[j].id
  }

  function ImposterIds(roles: map<PlayerId, Role>): set<PlayerId> {
    set id | id in roles && roles[id] == Imposter
  }

  /** The roster sent in `players-update`: the names, in join order. */
  function Names(ps: seq<Player>): (names: seq<string>)
    ensures |names| == |ps|
    ensures forall i :: 0 <= i < |ps| ==> names[i] == ps[i].name
  {
    if ps == [] then [] else Names(ps[..|ps| - 1]) + [ps[|ps| - 1].name]
  }

  /** The default name given to the `n`-th entry of a room's player list. */
  function DefaultName(n: nat): string {
    "Player " + NatToDecimal(n)
  }

  /** Two default names are equal only when they were given for the same count. */
  lemma DefaultNameInjective(a: nat, b: nat)
    requires DefaultName(a) == DefaultName(b)
    ensures a == b
  {
    assert DefaultName(a)[7..] == NatToDecimal(a);
    assert DefaultName(b)[7..] == NatToDecimal(b);
    NatToDecimalInjective(a, b);
  }

  /**
   * The first index of a player with socket id `id`, or -1 when there is
   * none (`Array.prototype.findIndex`).
   */
  function FindIndex(ps: seq<Player>, id: PlayerId): (r: int)
    ensures -1 <= r < |ps|
    ensures r == -1 <==> id !in PlayerIds(ps)
    ensures r >= 0 ==> ps[r].id == id && forall j :: 0 <= j < r ==> ps[j].id != id
    decreases |ps|
  {
    if ps == [] then -1
    else if ps[0].id == id then 0
    else
      var r := FindIndex(ps[1..], id);
      assert PlayerIds(ps) == {ps[0].id} + PlayerIds(ps[1..]) by {
        assert ps == [ps[0]] + ps[1..];
      }
      if r == -1 then -1 else r + 1
  }

  // ---------------------------------------------------------------------
  // The invariant every registered room keeps

  /**
   * A waiting room has no roles and no number; a playing room has at least
   * three players, a number in 1..100, a role for each of the three players
   * that were dealt (the first three entries, since later joiners only
   * append), and exactly one imposter id.
   */
  predicate Consistent(r: Room) {
    && (r.gameState == Waiting ==> r.roles == map[] && r.number == None)
    && (r.gameState == Playing ==>
          && |r.players| >= GameSize
          && r.number.Some? && MinNumber <= r.number.value <= MaxNumber
          && r.roles.Keys == PlayerIds(r.players[..GameSize])
          && |ImposterIds(r.roles)| == 1)
  }

  /** A registered room is non-empty and consistent. */
  predicate RoomOk(r: Room) {
    |r.players| > 0 && Consistent(r)
  }

  // ---------------------------------------------------------------------
  // join-room

  /** The record a room id gets the first time it is joined. */
  function NewRoom(): (r: Room)
    ensures r.players == [] && r.gameState == Waiting
    ensures r.number == None && r.roles == map[]
    ensures Consistent(r)
  {
    Room([], Waiting, None, map[])
  }

  /** `players.push` of a new entry for socket `id`, named after the new count. */
  function Admit(r: Room, id: PlayerId): Room {
    r.(players := r.players + [Player(id, DefaultName(|r.players| + 1))])
  }

  /**
   * Joining appends exactly one player at the end, named "Player <count+1>",
   * keeps every earlier entry and every game field, and does not check for
   * a duplicate socket id.
   */
  lemma AdmitAppends(r: Room, id: PlayerId)
    ensures var a := Admit(r, id);
      && |a.players| == |r.players| + 1
      && a.players[..|r.players|] == r.players
      && a.players[|r.players|] == Player(id, DefaultName(|r.players| + 1))
      && a.gameState == r.gameState && a.number == r.number && a.roles == r.roles
      && PlayerIds(a.players) == PlayerIds(r.players) + {id}
  {
    var a := Admit(r, id);
    assert a.players[..|r.players|] == r.players;
    assert PlayerIds(a.players) == PlayerIds(r.players) + {id} by {
      forall x | x in PlayerIds(a.players) ensures x in PlayerIds(r.players) + {id} {
        var p :| p in a.players && p.id == x;
        if p != a.players[|r.players|] {
          var i :| 0 <= i < |a.players| && a.players[i] == p;
          assert r.players[i] == p;
        }
      }
    }
  }

  /** Appending a player keeps a room consistent. */
  lemma {:induction false} AdmitKeepsConsistent(r: Room, id: PlayerId)
    requires Consistent(r)
    ensures Consistent(Admit(r, id)) && |Admit(r, id).players| > 0
  {
    var a := Admit(r, id);
    if r.gameState == Playing {
      assert a.players[..GameSize] == r.players[..GameSize];
    }
  }

  // ---------------------------------------------------------------------
  // startGame

  function RoleFor(id: PlayerId, imposterId: PlayerId): Role {
    if id == imposterId then Imposter else Knower
  }

  /**
   * The roles map after the `forEach` over `ps`: each player's id is written
   * in turn, `imposter` for the chosen id and `knower` for every other.
   */
  function AssignRoles(roles: map<PlayerId, Role>, ps: seq<Player>, imposterId: PlayerId): map<PlayerId, Role>
    decreases |ps|
  {
    if ps == [] then roles
    else AssignRoles(roles, ps[..|ps| - 1], imposterId)[ps[|ps| - 1].id := RoleFor(ps[|ps| - 1].id, imposterId)]
  }

  /**
   * After the assignment every listed player has a role, the imposter role
   * goes to exactly the chosen id, and any other key keeps its old role.
   */
  lemma {:induction false} AssignRolesSpec(roles: map<PlayerId, Role>, ps: seq<Player>, imposterId: PlayerId)
    ensures var a := AssignRoles(roles, ps, imposterId);
      && a.Keys == roles.Keys + PlayerIds(ps)
      && (forall id :: id in PlayerIds(ps) ==> a[id] == RoleFor(id, imposterId))
      && (forall id :: id in roles && id !in PlayerIds(ps) ==> a[id] == roles[id])
    decreases |ps|
  {
    if ps != [] {
      var init := ps[..|ps| - 1];
      AssignRolesSpec(roles, init, imposterId);
      assert ps == init + [ps[|ps| - 1]];
      assert PlayerIds(ps) == PlayerIds(init) + {ps[|ps| - 1].id} by {
        forall x | x in PlayerIds(ps) ensures x in PlayerIds(init) + {ps[|ps| - 1].id} {
          var p :| p in ps && p.id == x;
          var i :| 0 <= i < |ps| && ps[i] == p;
          if i < |ps| - 1 { assert init[i] == p; }
        }
      }
    }
  }

  /** The room startGame leaves: number drawn, `playing`, roles dealt. */
  function Dealt(r: Room, number: int, imposterIndex: nat): Room
    requires |r.players| == GameSize && imposterIndex < GameSize
  {
    r.(number := Some(number), gameState := Playing,
       roles := AssignRoles(r.roles, r.players, r.players[imposterIndex].id))
  }

  /**
   * Dealing keeps the players, sets `playing` and the number, gives every
   * player a role, makes the player at the chosen index the imposter together
   * with exactly the entries sharing its id; with distinct ids the imposter
   * is that one index, and when the old roles only named these players the
   * imposter id is unique.
   */
  lemma DealtRoles(r: Room, number: int, imposterIndex: nat)
    requires |r.players| == GameSize && imposterIndex < GameSize
    ensures var d := Dealt(r, number, imposterIndex);
      && d.players == r.players
      && d.gameState == Playing && d.number == Some(number)
      && (forall i :: 0 <= i < GameSize ==> r.players[i].id in d.roles)
      && d.roles[r.players[imposterIndex].id] == Imposter
      && (forall i :: 0 <= i < GameSize ==>
            (d.roles[r.players[i].id] == Imposter <==> r.players[i].id == r.players[imposterIndex].id))
      && (DistinctIds(r.players) ==>
            forall i :: 0 <= i < GameSize ==> (d.roles[r.players[i].id] == Imposter <==> i == imposterIndex))
      && (r.roles.Keys <= PlayerIds(r.players) ==>
            d.roles.Keys == PlayerIds(r.players) && ImposterIds(d.roles) == {r.players[imposterIndex].id})
  {
    var imposterId := r.players[imposterIndex].id;
    var d := Dealt(r, number, imposterIndex);
    AssignRolesSpec(r.roles, r.players, imposterId);
    assert forall i :: 0 <= i < GameSize ==> r.players[i].id in PlayerIds(r.players) by {
      forall i | 0 <= i < GameSize ensures r.players[i].id in PlayerIds(r.players) {
        assert r.players[i] in r.players;
      }
    }
    if r.roles.Keys <= PlayerIds(r.players) {
      assert ImposterIds(d.roles) == {imposterId} by {
        assert imposterId in ImposterIds(d.roles);
        forall x | x in ImposterIds(d.roles) ensures x == imposterId {
          assert RoleFor(x, imposterId) == Imposter;
        }
      }
    }
  }

  /** Dealing a consistent three-player room gives a consistent room. */
  lemma DealtKeepsConsistent(r: Room, number: int, imposterIndex: nat)
    requires Consistent(r) && |r.players| == GameSize && imposterIndex < GameSize
    requires MinNumber <= number <= MaxNumber
    ensures Consistent(Dealt(r, number, imposterIndex))
  {
    assert r.players[..GameSize] == r.players;
    DealtRoles(r, number, imposterIndex);
  }

  /**
   * The private payload for one player: only a `knower` entry is sent the
   * number; any other lookup result, including a missing role, takes the
   * imposter branch with a null number.
   */
  function PrivatePayload(role: Option<Role>, number: Option<int>): (p: Payload)
    ensures p.role == Knower <==> role == Some(Knower)
    ensures p.number.Some? ==> role == Some(Knower)
    ensures role == Some(Knower) ==> p.number == number
  {
    if role == Some(Knower) then Payload(Knower, number) else Payload(Imposter, None)
  }

  function RoleOf(roles: map<PlayerId, Role>, id: PlayerId): Option<Role> {
    if id in roles then Some(roles[id]) else None
  }

  /**
   * The `game-start` events of the second `forEach`: one per listed player
   * whose socket is still connected, in player order.
   */
  function Deliveries(ps: seq<Player>, roles: map<PlayerId, Role>, number: Option<int>, connected: set<PlayerId>): seq<Event>
    decreases |ps|
  {
    if ps == [] then []
    else
      var p := ps[|ps| - 1];
      Deliveries(ps[..|ps| - 1], roles, number, connected)
        + (if p.id in connected then [GameStart(p.id, PrivatePayload(RoleOf(roles, p.id), number))] else [])
  }

  /**
   * Every delivery goes to a connected player of the room, carries that
   * player's role, and carries the number exactly when the role is
   * `knower`: an imposter is never sent the number.  Every connected player
   * is sent one.
   */
  lemma {:induction false} DeliveriesSpec(ps: seq<Player>, roles: map<PlayerId, Role>, number: Option<int>, connected: set<PlayerId>)
    requires PlayerIds(ps) <= roles.Keys
    ensures var es := Deliveries(ps, roles, number, connected);
      && (forall e :: e in es ==>
            && e.GameStart? && e.to in connected && e.to in PlayerIds(ps)
            && e.payload.role == roles[e.to]
            && (roles[e.to] == Knower ==> e.payload.number == number)
            && (roles[e.to] == Imposter ==> e.payload.number == None))
      && (forall p :: p in ps && p.id in connected ==> GameStart(p.id, PrivatePayload(Some(roles[p.id]), number)) in es)
    decreases |ps|
  {
    if ps != [] {
      var init := ps[..|ps| - 1];
      var last := ps[|ps| - 1];
      assert ps == init + [last];
      assert PlayerIds(init) <= PlayerIds(ps) by {
        forall x | x in PlayerIds(init) ensures x in PlayerIds(ps) {
          var p :| p in init && p.id == x;
          assert p in ps;
        }
      }
      assert last.id in PlayerIds(ps) by { assert last in ps; }
      DeliveriesSpec(init, roles, number, connected);
      forall p | p in ps && p.id in connected
        ensures GameStart(p.id, PrivatePayload(Some(roles[p.id]), number)) in Deliveries(ps, roles, number, connected)
      {
        var i :| 0 <= i < |ps| && ps[i] == p;
        if i < |ps| - 1 { assert init[i] == p; }
      }
    }
  }

  /** Everything startGame emits for a dealt room. */
  function StartEvents(roomId: RoomId, d: Room, connected: set<PlayerId>): seq<Event> {
    Deliveries(d.players, d.roles, d.number, connected) + [GameStatus(roomId, Playing, GameStarted)]
  }

  /**
   * In the events of a dealt game every `game-start` knower payload carries
   * the drawn number, every imposter payload carries none, exactly one
   * connected socket id can be sent the imposter payload, and the last event
   * is the room-wide `playing` status.
   */
  lemma StartEventsSpec(roomId: RoomId, r: Room, number: int, imposterIndex: nat, connected: set<PlayerId>)
    requires |r.players| == GameSize && imposterIndex < GameSize
    ensures var d := Dealt(r, number, imposterIndex);
      var es := StartEvents(roomId, d, connected);
      && es[|es| - 1] == GameStatus(roomId, Playing, GameStarted)
      && (forall e :: e in es && e.GameStart? ==>
            && e.to in connected && e.to in PlayerIds(r.players)
            && (e.payload.number == Some(number) <==> e.to != r.players[imposterIndex].id)
            && (e.payload.role == Imposter <==> e.to == r.players[imposterIndex].id))
      && (forall p :: p in r.players && p.id in connected ==>
            p.id in d.roles && GameStart(p.id, PrivatePayload(Some(d.roles[p.id]), Some(number))) in es)
  {
    var d := Dealt(r, number, imposterIndex);
    var imposterId := r.players[imposterIndex].id;
    assert r.players[..GameSize] == r.players;
    DealtRoles(r, number, imposterIndex);
    AssignRolesSpec(r.roles, r.players, imposterId);
    DeliveriesSpec(d.players, d.roles, d.number, connected);
    var es := StartEvents(roomId, d, connected);
    forall e | e in es && e.GameStart?
      ensures e.payload.role == Imposter <==> e.to == imposterId
    {
      assert e in Deliveries(d.players, d.roles, d.number, connected);
      assert d.roles[e.to] == RoleFor(e.to, imposterId);
    }
  }

  /**
   * The room join-room leaves: the player is appended, and the game is dealt
   * exactly when the new count is three.
   */
  function Joined(r: Room, id: PlayerId, number: int, imposterIndex: nat): Room
    requires imposterIndex < GameSize
  {
    var a := Admit(r, id);
    if |a.players| == GameSize then Dealt(a, number, imposterIndex) else a
  }

  /** The events join-room emits, given the room before the player is appended. */
  function JoinEvents(roomId: RoomId, r: Room, id: PlayerId, number: int, imposterIndex: nat, connected: set<PlayerId>): seq<Event>
    requires imposterIndex < GameSize
  {
    var a := Admit(r, id);
    [PlayerNameEvent(id, DefaultName(|r.players| + 1)), PlayersUpdate(roomId, Names(a.players))]
      + (if |a.players| == GameSize then StartEvents(roomId, Dealt(a, number, imposterIndex), connected)
         else [GameStatus(roomId, Waiting, NeedMore(GameSize - |a.players|))])
  }

  /** Joining keeps a room consistent and leaves it non-empty. */
  lemma JoinKeepsConsistent(r: Room, id: PlayerId, number: int, imposterIndex: nat)
    requires Consistent(r) && imposterIndex < GameSize && MinNumber <= number <= MaxNumber
    ensures Consistent(Joined(r, id, number, imposterIndex))
    ensures |Joined(r, id, number, imposterIndex).players| == |r.players| + 1
  {
    AdmitKeepsConsistent(r, id);
    var a := Admit(r, id);
    if |a.players| == GameSize {
      DealtKeepsConsistent(a, number, imposterIndex);
    }
  }

  /**
   * A game starts on join exactly when the count becomes three: the join
   * events begin with the joiner's name and the new roster; the room is
   * dealt and the last event is the `playing` status exactly when the new
   * count is three; otherwise the room is only appended to and the one
   * remaining event is a `waiting` status reporting `3 - count` (negative
   * for a fourth joiner).
   */
  lemma JoinStartsIffThree(roomId: RoomId, r: Room, id: PlayerId, number: int, imposterIndex: nat, connected: set<PlayerId>)
    requires imposterIndex < GameSize
    ensures var j := Joined(r, id, number, imposterIndex);
      var es := JoinEvents(roomId, r, id, number, imposterIndex, connected);
      && |es| >= 3
      && es[0] == PlayerNameEvent(id, DefaultName(|r.players| + 1))
      && es[1] == PlayersUpdate(roomId, Names(j.players))
      && (es[|es| - 1] == GameStatus(roomId, Playing, GameStarted) <==> |r.players| + 1 == GameSize)
      && (|r.players| + 1 != GameSize ==>
            && es[2..] == [GameStatus(roomId, Waiting, NeedMore(GameSize - (|r.players| + 1)))]
            && j == Admit(r, id))
      && (|r.players| + 1 == GameSize ==>
            j == Dealt(Admit(r, id), number, imposterIndex) && j.gameState == Playing && j.number == Some(number))
  {
    var a := Admit(r, id);
    var es := JoinEvents(roomId, r, id, number, imposterIndex, connected);
    var head := [PlayerNameEvent(id, DefaultName(|r.players| + 1)), PlayersUpdate(roomId, Names(a.players))];
    if |a.players| == GameSize {
      var tail := StartEvents(roomId, Dealt(a, number, imposterIndex), connected);
      assert es == head + tail;
      assert tail[|tail| - 1] == GameStatus(roomId, Playing, GameStarted);
      assert es[|es| - 1] == tail[|tail| - 1];
    } else {
      assert es == head + [GameStatus(roomId, Waiting, NeedMore(GameSize - |a.players|))];
    }
  }

  /**
   * A join into a running game neither resets it nor deals again: the room
   * stays `playing` with the same roles and number, and a socket that was
   * not already listed gets no role.
   */
  lemma JoinIntoRunningGame(r: Room, id: PlayerId, number: int, imposterIndex: nat)
    requires Consistent(r) && r.gameState == Playing && imposterIndex < GameSize
    ensures var j := Joined(r, id, number, imposterIndex);
      && j == Admit(r, id)
      && j.gameState == Playing && j.roles == r.roles && j.number == r.number
      && (id !in PlayerIds(r.players) ==> id !in j.roles)
  {
    if id !in PlayerIds(r.players) {
      assert PlayerIds(r.players[..GameSize]) <= PlayerIds(r.players) by {
        forall x | x in PlayerIds(r.players[..GameSize]) ensures x in PlayerIds(r.players) {
          var p :| p in r.players[..GameSize] && p.id == x;
          var i :| 0 <= i < GameSize && r.players[..GameSize][i] == p;
          assert r.players[i] == p;
        }
      }
    }
  }

  /**
   * Three sockets joining a fresh room: the third join deals the game, the
   * players are "Player 1".."Player 3" in join order, each has a role, and
   * the one at the drawn index is the only imposter.
   */
  lemma ThreeJoinsDealOneImposter(c1: PlayerId, c2: PlayerId, c3: PlayerId, number: int, imposterIndex: nat)
    requires c1 != c2 && c2 != c3 && c1 != c3
    requires imposterIndex < GameSize && MinNumber <= number <= MaxNumber
    ensures var r1 := Joined(NewRoom(), c1, number, imposterIndex);
      var r2 := Joined(r1, c2, number, imposterIndex);
      var r3 := Joined(r2, c3, number, imposterIndex);
      && r1.gameState == Waiting && r2.gameState == Waiting
      && r3.gameState == Playing && r3.number == Some(number)
      && r3.players == [Player(c1, "Player 1"), Player(c2, "Player 2"), Player(c3, "Player 3")]
      && r3.roles.Keys == {c1, c2, c3}
      && ImposterIds(r3.roles) == {[c1, c2, c3][imposterIndex]}
      && Consistent(r3)
  {
    TwoJoinsWait(c1, c2, number, imposterIndex);
    var r2 := Room([Player(c1, "Player 1"), Player(c2, "Player 2")], Waiting, None, map[]);
    var ps := [Player(c1, "Player 1"), Player(c2, "Player 2"), Player(c3, "Player 3")];
    assert Admit(r2, c3) == Room(ps, Waiting, None, map[]) by {
      assert DefaultName(3) == "Player 3";
    }
    DealThree(ps, number, imposterIndex);
  }

  /** Dealing a fresh room of three distinct sockets. */
  lemma DealThree(ps: seq<Player>, number: int, imposterIndex: nat)
    requires |ps| == GameSize && DistinctIds(ps)
    requires imposterIndex < GameSize && MinNumber <= number <= MaxNumber
    ensures var d := Dealt(Room(ps, Waiting, None, map[]), number, imposterIndex);
      && d.gameState == Playing && d.number == Some(number) && d.players == ps
      && d.roles.Keys == {ps[0].id, ps[1].id, ps[2].id}
      && ImposterIds(d.roles) == {ps[imposterIndex].id}
      && Consistent(d)
  {
    var r := Room(ps, Waiting, None, map[]);
    assert PlayerIds(ps) == {ps[0].id, ps[1].id, ps[2].id} by {
      assert ps[0] in ps && ps[1] in ps && ps[2] in ps;
    }
    DealtRoles(r, number, imposterIndex);
    DealtKeepsConsistent(r, number, imposterIndex);
  }

  /** The first two joins of a fresh room only append. */
  lemma TwoJoinsWait(c1: PlayerId, c2: PlayerId, number: int, imposterIndex: nat)
    requires imposterIndex < GameSize
    ensures var r1 := Joined(NewRoom(), c1, number, imposterIndex);
      && r1 == Room([Player(c1, "Player 1")], Waiting, None, map[])
      && Joined(r1, c2, number, imposterIndex)
           == Room([Player(c1, "Player 1"), Player(c2, "Player 2")], Waiting, None, map[])
  {
    assert DefaultName(1) == "Player 1" && DefaultName(2) == "Player 2";
  }

  /**
   * Default names are not renumbered when a player leaves: after "Player 1"
   * leaves a two-player room, the next joiner is also named "Player 2".
   */
  lemma NamesRepeatAfterChurn(a: PlayerId, b: PlayerId, c: PlayerId)
    requires a != b
    ensures var r := Admit(Admit(NewRoom(), a), b);
      var left := AfterDeparture(Without(r, FindIndex(r.players, a), a));
      var again := Admit(left, c);
      && Names(again.players) == ["Player 2", "Player 2"]
  {
    var r := Admit(Admit(NewRoom(), a), b);
    assert DefaultName(1) == "Player 1" && DefaultName(2) == "Player 2";
    assert r.players == [Player(a, "Player 1"), Player(b, "Player 2")];
    assert FindIndex(r.players, a) == 0;
  }

  // ---------------------------------------------------------------------
  // restart-game

  /** The room restart-game leaves: `waiting`, null number, no roles. */
  function ResetGame(r: Room): Room {
    r.(gameState := Waiting, number := None, roles := map[])
  }

  /**
   * Restarting keeps the players, clears every game field and so leaves a
   * consistent room; restarting twice is the same as restarting once.
   */
  lemma ResetGameSpec(r: Room)
    ensures var z := ResetGame(r);
      && z.players == r.players && z.gameState == Waiting && z.number == None && z.roles == map[]
      && Consistent(z)
      && ResetGame(z) == z
  {
  }

  function RestartEvents(roomId: RoomId): seq<Event> {
    [GameStatus(roomId, Waiting, ResetReady), GameRestarted(roomId)]
  }

  // ---------------------------------------------------------------------
  // disconnect

  /** `players.splice(i, 1)` followed by `delete roles[id]`. */
  function Without(r: Room, i: nat, id: PlayerId): Room
    requires i < |r.players|
  {
    r.(players := r.players[..i] + r.players[i + 1..], roles := r.roles - {id})
  }

  /** A room that still has players after a departure is reset if it was playing. */
  function AfterDeparture(w: Room): Room {
    if w.gameState == Playing then ResetGame(w) else w
  }

  /**
   * Removing the first entry with the departing id takes exactly that one
   * entry out of the roster, keeps the order of the rest and drops the id's
   * role; a non-empty remainder of a consistent room is consistent after
   * the reset-on-leave, and is `waiting` with no roles and no number.
   */
  lemma {:induction false} DepartureSpec(r: Room, id: PlayerId)
    requires Consistent(r) && id in PlayerIds(r.players)
    ensures var i := FindIndex(r.players, id);
      var w := Without(r, i, id);
      && r.players[i].id == id
      && |w.players| == |r.players| - 1
      && multiset(w.players) == multiset(r.players) - multiset{r.players[i]}
      && (forall j :: 0 <= j < i ==> w.players[j] == r.players[j])
      && (forall j :: i <= j < |w.players| ==> w.players[j] == r.players[j + 1])
      && id !in w.roles
      && (|w.players| > 0 ==>
            var z := AfterDeparture(w);
            Consistent(z) && z.gameState == Waiting && z.roles == map[] && z.number == None
            && z.players == w.players)
  {
    var i := FindIndex(r.players, id);
    RemoveAtSpec(r.players, i);
  }

  /** `splice(i, 1)`: one entry out, the rest in order. */
  lemma RemoveAtSpec(ps: seq<Player>, i: nat)
    requires i < |ps|
    ensures var q := ps[..i] + ps[i + 1..];
      && |q| == |ps| - 1
      && multiset(q) == multiset(ps) - multiset{ps[i]}
      && (forall j :: 0 <= j < i ==> q[j] == ps[j])
      && (forall j :: i <= j < |q| ==> q[j] == ps[j + 1])
  {
    assert ps == ps[..i] + [ps[i]] + ps[i + 1..];
    assert multiset(ps) == multiset(ps[..i]) + multiset{ps[i]} + multiset(ps[i + 1..]);
  }

  /** A consistent room that keeps a player after a departure is consistent again. */
  lemma DepartureKeepsConsistent(r: Room, i: nat, id: PlayerId)
    requires Consistent(r) && i < |r.players| && |r.players| > 1
    ensures RoomOk(AfterDeparture(Without(r, i, id)))
  {
  }

  function DepartureEvents(roomId: RoomId, w: Room): seq<Event> {
    [PlayersUpdate(roomId, Names(w.players))]
      + (if w.gameState == Playing then [GameStatus(roomId, Waiting, PlayerLeft), GameRestarted(roomId)] else [])
  }

  // ---------------------------------------------------------------------
  // The `for...in` scan of disconnect

  predicate Holds(r: Room, id: PlayerId) {
    id in PlayerIds(r.players)
  }

  /**
   * The position in the enumeration order of the first registered room that
   * lists `id`, or None when no room does.
   */
  function FirstHolder(order: seq<RoomId>, rooms: map<RoomId, Room>, id: PlayerId): (h: Option<nat>)
    requires forall k :: 0 <= k < |order| ==> order[k] in rooms
    ensures h.Some? ==> h.value < |order| && Holds(rooms[order[h.value]], id)
    ensures h.Some? ==> forall k :: 0 <= k < h.value ==> !Holds(rooms[order[k]], id)
    ensures h.None? ==> forall k :: 0 <= k < |order| ==> !Holds(rooms[order[k]], id)
    decreases |order|
  {
    if order == [] then None
    else if Holds(rooms[order[0]], id) then Some(0)
    else match FirstHolder(order[1..], rooms, id)
      case None => None
      case Some(k) => Some(k + 1)
  }

  /**
   * When a socket id is listed in at most one room, the scan finds exactly
   * that room whatever the enumeration order.
   */
  lemma FirstHolderUnique(order: seq<RoomId>, rooms: map<RoomId, Room>, id: PlayerId, rid: RoomId)
    requires forall k :: 0 <= k < |order| ==> order[k] in rooms
    requires rid in order && Holds(rooms[rid], id)
    requires forall other :: other in rooms && Holds(rooms[other], id) ==> other == rid
    ensures var h := FirstHolder(order, rooms, id); h.Some? && order[h.value] == rid
  {
    var k :| 0 <= k < |order| && order[k] == rid;
    assert Holds(rooms[order[k]], id);
  }

  /**
   * The scan stops at the first holder: when the rooms at positions `j < k`
   * both list the socket, the room found is at or before `j`, so the room at
   * `k` keeps its entry for the departed socket.
   */
  lemma EarlierHolderScannedFirst(order: seq<RoomId>, rooms: map<RoomId, Room>, id: PlayerId, j: nat, k: nat)
    requires forall m :: 0 <= m < |order| ==> order[m] in rooms
    requires j < k < |order|
    requires Holds(rooms[order[j]], id) && Holds(rooms[order[k]], id)
    ensures var h := FirstHolder(order, rooms, id); h.Some? && h.value <= j < k
  {
  }
}
