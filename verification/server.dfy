/**
 * The process-wide room registry of the socket server and its handlers:
 * `join-room`, `start-game`, `restart-game`, `disconnect` and the shared
 * `startGame` routine.  Each handler runs to completion on the event loop,
 * so each is one method that changes the registry and returns the events it
 * emits, in emission order.
 *
 * Randomness and the transport are parameters: `number` is the drawn secret
 * (1..100), `imposterIndex` the drawn index (0..2), and `connected` the
 * socket ids the transport can still look up when payloads are sent.
 */
module Server {
  import opened Rooms

  class Registry {
    /** Room records by room id. */
    var rooms: map<RoomId, Room>
    /** The order in which `for...in` visits the room ids: insertion order. */
    var order: seq<RoomId>

    /**
     * The registry invariant: `order` lists every registered room id once,
     * every registered room has at least one player, and every room is
     * consistent (waiting rooms carry no roles and no number).
     */
    ghost predicate Valid()
      reads this
    {
      Registered(rooms, order)
    }

    constructor ()
      ensures Valid()
      ensures rooms == map[] && order == []
    {
      rooms := map[];
      order := [];
    }

    /**
     * `startGame(roomId)`: nothing happens unless the room exists with
     * exactly three players; then the number is set, the state becomes
     * `playing`, every player is given a role, and each connected player is
     * sent its private payload, followed by the room-wide `playing` status.
     */
    method StartGame(roomId: RoomId, number: int, imposterIndex: nat, connected: set<PlayerId>)
      returns (events: seq<Event>)
      requires Valid()
      requires MinNumber <= number <= MaxNumber && imposterIndex < GameSize
      modifies this
      ensures Valid()
      ensures order == old(order)
      ensures roomId in old(rooms) && |old(rooms)[roomId].players| == GameSize ==>
        && rooms == old(rooms)[roomId := Dealt(old(rooms)[roomId], number, imposterIndex)]
        && events == StartEvents(roomId, rooms[roomId], connected)
      ensures !(roomId in old(rooms) && |old(rooms)[roomId].players| == GameSize) ==>
        rooms == old(rooms) && events == []
    {
      if roomId !in rooms || |rooms[roomId].players| != GameSize {
        return [];
      }
      var room := rooms[roomId];
      RegisteredRoom(rooms, order, roomId);
      var roles := DealRoles(room.roles, room.players, room.players[imposterIndex].id);
      var dealt := room.(number := Some(number), gameState := Playing, roles := roles);
      assert dealt == Dealt(room, number, imposterIndex);
      DealtKeepsConsistent(room, number, imposterIndex);
      RegisteredUpdate(rooms, order, roomId, dealt);
      rooms := rooms[roomId := dealt];
      events := SendRoles(dealt.players, dealt.roles, dealt.number, connected);
      events := events + [GameStatus(roomId, Playing, GameStarted)];
    }

    /**
     * `join-room`: creates the room on first use, appends a player named
     * after the new count, tells the socket its name, broadcasts the roster,
     * and starts the game exactly when the count becomes three (otherwise it
     * broadcasts how many players are still needed).
     */
    method JoinRoom(roomId: RoomId, id: PlayerId, number: int, imposterIndex: nat, connected: set<PlayerId>)
      returns (events: seq<Event>)
      requires Valid()
      requires MinNumber <= number <= MaxNumber && imposterIndex < GameSize
      modifies this
      ensures Valid()
      ensures var before := if roomId in old(rooms) then old(rooms)[roomId] else NewRoom();
        && rooms == old(rooms)[roomId := Joined(before, id, number, imposterIndex)]
        && events == JoinEvents(roomId, before, id, number, imposterIndex, connected)
      ensures order == if roomId in old(rooms) then old(order) else old(order) + [roomId]
    {
      ghost var before := if roomId in rooms then rooms[roomId] else NewRoom();
      var name := AddPlayer(roomId, id);
      var count := |rooms[roomId].players|;
      events := [PlayerNameEvent(id, name), PlayersUpdate(roomId, Names(rooms[roomId].players))];
      if count == GameSize {
        var started := StartGame(roomId, number, imposterIndex, connected);
        events := events + started;
      } else {
        events := events + [GameStatus(roomId, Waiting, NeedMore(GameSize - count))];
      }
    }

    /**
     * The first half of `join-room`: creates the room on first use and
     * appends an entry for socket `id` named after the new count.
     */
    method AddPlayer(roomId: RoomId, id: PlayerId) returns (name: string)
      requires Valid()
      modifies this
      ensures Valid()
      ensures var before := if roomId in old(rooms) then old(rooms)[roomId] else NewRoom();
        && rooms == old(rooms)[roomId := Admit(before, id)]
        && name == DefaultName(|before.players| + 1)
      ensures order == if roomId in old(rooms) then old(order) else old(order) + [roomId]
    {
      var isNew := roomId !in rooms;
      var before := if isNew then NewRoom() else rooms[roomId];
      if !isNew { RegisteredRoom(rooms, order, roomId); }
      var player := Player(id, DefaultName(|before.players| + 1));
      var admitted := before.(players := before.players + [player]);
      AdmitKeepsConsistent(before, id);
      if isNew {
        RegisteredInsert(rooms, order, roomId, admitted);
        order := order + [roomId];
      } else {
        RegisteredUpdate(rooms, order, roomId, admitted);
      }
      rooms := rooms[roomId := admitted];
      name := player.name;
    }

    /** `start-game`: runs startGame only for an existing room of exactly three. */
    method StartRequest(roomId: RoomId, number: int, imposterIndex: nat, connected: set<PlayerId>)
      returns (events: seq<Event>)
      requires Valid()
      requires MinNumber <= number <= MaxNumber && imposterIndex < GameSize
      modifies this
      ensures Valid()
      ensures order == old(order)
      ensures roomId in old(rooms) && |old(rooms)[roomId].players| == GameSize ==>
        && rooms == old(rooms)[roomId := Dealt(old(rooms)[roomId], number, imposterIndex)]
        && events == StartEvents(roomId, rooms[roomId], connected)
      ensures !(roomId in old(rooms) && |old(rooms)[roomId].players| == GameSize) ==>
        rooms == old(rooms) && events == []
    {
      events := [];
      if roomId in rooms && |rooms[roomId].players| == GameSize {
        events := StartGame(roomId, number, imposterIndex, connected);
      }
    }

    /**
     * `restart-game`: an existing room goes back to `waiting` with a null
     * number and no roles, keeping its players; an unknown id changes nothing
     * and emits nothing.
     */
    method RestartGame(roomId: RoomId) returns (events: seq<Event>)
      requires Valid()
      modifies this
      ensures Valid()
      ensures order == old(order)
      ensures roomId in old(rooms) ==>
        rooms == old(rooms)[roomId := ResetGame(old(rooms)[roomId])] && events == RestartEvents(roomId)
      ensures roomId !in old(rooms) ==> rooms == old(rooms) && events == []
    {
      events := [];
      if roomId in rooms {
        var room := rooms[roomId];
        RegisteredRoom(rooms, order, roomId);
        ResetGameSpec(room);
        RegisteredUpdate(rooms, order, roomId, ResetGame(room));
        rooms := rooms[roomId := room.(gameState := Waiting, number := None, roles := map[])];
        events := RestartEvents(roomId);
      }
    }

    /**
     * `disconnect`: visits the rooms in enumeration order and, in the first
     * one that lists the socket, removes its first entry and its role.  That
     * room is deleted if it is now empty; otherwise the roster is broadcast
     * and a room that was `playing` is reset to `waiting`.  No other room
     * changes.
     */
    method Disconnect(id: PlayerId) returns (events: seq<Event>)
      requires Valid()
      modifies this
      ensures Valid()
      ensures FirstHolder(old(order), old(rooms), id).None? ==>
        rooms == old(rooms) && order == old(order) && events == []
      ensures FirstHolder(old(order), old(rooms), id).Some? ==>
        var k := FirstHolder(old(order), old(rooms), id).value;
        var rid := old(order)[k];
        var r := old(rooms)[rid];
        var w := Without(r, FindIndex(r.players, id), id);
        && (w.players == [] ==>
              && rooms == old(rooms) - {rid}
              && order == old(order)[..k] + old(order)[k + 1..]
              && events == [])
        && (w.players != [] ==>
              && rooms == old(rooms)[rid := AfterDeparture(w)]
              && order == old(order)
              && events == DepartureEvents(rid, w))
    {
      events := [];
      var i := 0;
      while i < |order|
        invariant 0 <= i <= |order|
        invariant rooms == old(rooms) && order == old(order)
        invariant forall k :: 0 <= k < i ==> !Holds(rooms[order[k]], id)
      {
        if FindIndex(rooms[order[i]].players, id) != -1 {
          assert FirstHolder(order, rooms, id) == Some(i);
          events := LeaveRoom(i, id);
          return;
        }
        i := i + 1;
      }
    }

    /**
     * The body of the `disconnect` scan for the room at position `k` of the
     * order, which lists socket `id`: `splice` out its first entry, delete
     * its role, then delete the room if it is empty, or else broadcast the
     * roster and reset the room if it was `playing`.
     */
    method LeaveRoom(k: nat, id: PlayerId) returns (events: seq<Event>)
      requires Valid()
      requires k < |order| && Holds(rooms[order[k]], id)
      modifies this
      ensures Valid()
      ensures var rid := old(order)[k];
        var r := old(rooms)[rid];
        var w := Without(r, FindIndex(r.players, id), id);
        && (w.players == [] ==>
              && rooms == old(rooms) - {rid}
              && order == old(order)[..k] + old(order)[k + 1..]
              && events == [])
        && (w.players != [] ==>
              && rooms == old(rooms)[rid := AfterDeparture(w)]
              && order == old(order)
              && events == DepartureEvents(rid, w))
    {
      var rid := order[k];
      var room := rooms[rid];
      RegisteredRoom(rooms, order, rid);
      var index := FindIndex(room.players, id);
      var w := room.(players := room.players[..index] + room.players[index + 1..], roles := room.roles - {id});
      assert w == Without(room, index, id);
      events := [];
      if |w.players| == 0 {
        RegisteredDelete(rooms, order, k);
        rooms := rooms - {rid};
        order := order[..k] + order[k + 1..];
      } else {
        events := [PlayersUpdate(rid, Names(w.players))];
        if w.gameState == Playing {
          w := w.(gameState := Waiting, number := None, roles := map[]);
          events := events + [GameStatus(rid, Waiting, PlayerLeft), GameRestarted(rid)];
        }
        DepartureKeepsConsistent(room, index, id);
        RegisteredUpdate(rooms, order, rid, w);
        rooms := rooms[rid := w];
      }
    }
  }

  /**
   * The first `forEach` of startGame: writes a role for each player in turn
   * into `roles`, `imposter` for the chosen id and `knower` otherwise.
   */
  method DealRoles(roles: map<PlayerId, Role>, players: seq<Player>, imposterId: PlayerId)
    returns (dealt: map<PlayerId, Role>)
    ensures dealt == AssignRoles(roles, players, imposterId)
  {
    dealt := roles;
    var i := 0;
    while i < |players|
      invariant 0 <= i <= |players|
      invariant dealt == AssignRoles(roles, players[..i], imposterId)
    {
      var p := players[i];
      dealt := dealt[p.id := if p.id == imposterId then Imposter else Knower];
      assert players[..i + 1][..i] == players[..i];
      i := i + 1;
    }
    assert players[..i] == players;
  }

  /**
   * The second `forEach` of startGame: looks up each player's role and, when
   * the player's socket is still connected, sends the knower payload (with
   * the number) or else the imposter payload (with none).
   */
  method SendRoles(players: seq<Player>, roles: map<PlayerId, Role>, number: Option<int>, connected: set<PlayerId>)
    returns (events: seq<Event>)
    ensures events == Deliveries(players, roles, number, connected)
  {
    events := [];
    var i := 0;
    while i < |players|
      invariant 0 <= i <= |players|
      invariant events == Deliveries(players[..i], roles, number, connected)
    {
      var p := players[i];
      var role := if p.id in roles then Some(roles[p.id]) else None;
      if p.id in connected {
        if role == Some(Knower) {
          events := events + [GameStart(p.id, Payload(Knower, number))];
        } else {
          events := events + [GameStart(p.id, Payload(Imposter, None))];
        }
      }
      assert players[..i + 1][..i] == players[..i];
      i := i + 1;
    }
    assert players[..i] == players;
  }

  /**
   * The registry invariant on values: `order` lists every registered room
   * id exactly once, and every registered room is non-empty and consistent.
   */
  ghost predicate Registered(rooms: map<RoomId, Room>, order: seq<RoomId>) {
    && (forall i, j :: 0 <= i < j < |order| ==> order[i] != order[j])
    && (forall id :: id in rooms <==> id in order)
    && (forall id {:trigger RoomOk(rooms[id])} :: id in rooms ==> RoomOk(rooms[id]))
  }

  lemma RegisteredRoom(rooms: map<RoomId, Room>, order: seq<RoomId>, rid: RoomId)
    requires Registered(rooms, order) && rid in rooms
    ensures |rooms[rid].players| > 0 && Consistent(rooms[rid])
  {
    assert RoomOk(rooms[rid]);
  }

  lemma RegisteredUpdate(rooms: map<RoomId, Room>, order: seq<RoomId>, rid: RoomId, r: Room)
    requires Registered(rooms, order) && rid in rooms
    requires |r.players| > 0 && Consistent(r)
    ensures Registered(rooms[rid := r], order)
  {
  }

  lemma RegisteredInsert(rooms: map<RoomId, Room>, order: seq<RoomId>, rid: RoomId, r: Room)
    requires Registered(rooms, order) && rid !in rooms
    requires |r.players| > 0 && Consistent(r)
    ensures Registered(rooms[rid := r], order + [rid])
  {
    var o := order + [rid];
    forall i, j | 0 <= i < j < |o| ensures o[i] != o[j] {
      if j == |order| { assert o[i] in order; }
    }
  }

  /** Deleting the room at position `i` of the order keeps the invariant. */
  lemma RegisteredDelete(rooms: map<RoomId, Room>, order: seq<RoomId>, i: nat)
    requires Registered(rooms, order) && i < |order|
    ensures Registered(rooms - {order[i]}, order[..i] + order[i + 1..])
  {
    DeleteKeepsOrder(order, i);
  }

  /** Taking one entry out of a duplicate-free order removes just that id. */
  lemma DeleteKeepsOrder(order: seq<RoomId>, i: nat)
    requires i < |order|
    requires forall a, b :: 0 <= a < b < |order| ==> order[a] != order[b]
    ensures var o := order[..i] + order[i + 1..];
      && (forall a, b :: 0 <= a < b < |o| ==> o[a] != o[b])
      && (forall x :: x in o <==> x in order && x != order[i])
  {
    var o := order[..i] + order[i + 1..];
    assert forall a :: 0 <= a < |o| ==> o[a] == (if a < i then order[a] else order[a + 1]);
    forall x | x in order && x != order[i] ensures x in o {
      var a :| 0 <= a < |order| && order[a] == x;
      if a < i { assert o[a] == x; } else { assert o[a - 1] == x; }
    }
  }
}
