# Imposter game: room registry and game state machine

This project models the server core of a small party game. Players connect over
socket.io and join a room by id. When the third player joins, the server deals
a game. It draws a secret number between 1 and 100 and picks one of the three
players as the imposter. Everyone else is a knower. Each player is then sent a
private `game-start` payload, and only knowers get the number. A room can be
restarted. It is reset whenever a player leaves a running game, and it is
deleted when its last player leaves.

The model follows `server.js`:

- `decimal.dfy` (module `Decimal`): renders the count in the default name
  `"Player N"` as decimal text, and reads it back.
- `rooms.dfy` (module `Rooms`): the stored values and the per-room transitions.
  The values are players, room records, roles, payloads and outbound events.
  The transitions are append, deal, reset and depart. The module also holds the
  room invariant `Consistent` and the lemmas about all of these.
- `server.dfy` (module `Server`): the registry as a class, `Registry`. Its
  `rooms` map is the `rooms` object of the source. Its `order` sequence is the
  order in which `for...in` visits the room ids. The class has one method per
  socket handler and one for `startGame`. The two `forEach` loops of
  `startGame` are the methods `DealRoles` and `SendRoles`.

Every handler method requires and ensures `Valid()`, and each one states its
new registry as a function of the old one. `Valid()` says:

- every registered room has at least one player;
- a `waiting` room has no roles and a null number;
- a `playing` room has a number in 1..100, roles for the three players that
  were dealt, and exactly one imposter id.

Each handler also returns the events it emits, in emission order. An event
either goes to one socket or to the whole room.

`server.js` deals exactly one imposter among exactly three players, draws the
number from 1..100, keeps no turn order and does not check for duplicate joins.
A second `join-room` from the same socket adds a second entry. A fourth
joiner during a game neither resets it nor gets a role. That fourth join also
broadcasts a `waiting` status that asks for `3 - 4 = -1` more players
(`Rooms.AdmitAppends`, `Rooms.JoinIntoRunningGame` and
`Rooms.JoinStartsIffThree` state these behaviours).

## Model

| member | source | states |
|---|---|---|
| `Server.Registry.constructor` | server.js:17 | the registry starts with no rooms and satisfies the registry invariant |
| `Server.Registry.JoinRoom` | server.js:22-52 | an unknown id gets a fresh room appended to the enumeration order; the room becomes `Joined` of its old record; the events are `JoinEvents`; the invariant is kept |
| `Server.Registry.AddPlayer` | server.js:25-39 | the room is created if missing, and then exactly one entry `Admit` is appended; the returned name is `"Player " + (old count + 1)` |
| `Rooms.NewRoom` | server.js:25-32 | a new room has no players, is `waiting`, has a null number and no roles, and is consistent |
| `Rooms.AdmitAppends` | server.js:34-39 | a join appends one player at the end, named after the new count; earlier entries and game fields are unchanged; there is no duplicate check (the id set just gains the id) |
| `Rooms.AdmitKeepsConsistent` | server.js:34-39 | appending a player keeps a room consistent and makes it non-empty, even during a game |
| `Rooms.DefaultNameInjective` | server.js:36 | two default names are equal only when they were given for the same count |
| `Decimal.NatToDecimal` | server.js:36 | the rendering of a count is a non-empty run of digits with no leading zero |
| `Decimal.DecimalRoundTrip` | server.js:36 | reading back the decimal rendering gives the rendered number |
| `Decimal.NatToDecimalInjective` | server.js:36 | distinct counts render as distinct digit strings |
| `Rooms.Names` | server.js:42 | the `players-update` roster lists every player's name, in join order |
| `Rooms.JoinStartsIffThree` | server.js:40-51 | the join events start with `player-name` and `players-update`; the last event is the `playing` status iff the new count is 3, and then the room is dealt; otherwise the room is only appended to and the one remaining event is `waiting` with `3 - count` needed |
| `Rooms.JoinIntoRunningGame` | server.js:34-51 | a join into a `playing` room only appends: the room stays `playing` with its roles and number, and a socket not already listed gets no role |
| `Rooms.JoinKeepsConsistent` | server.js:25-51 | a join keeps a room consistent and adds exactly one player |
| `Rooms.ThreeJoinsDealOneImposter` | server.js:22-51 | three distinct sockets joining a fresh room give players "Player 1".."Player 3" and a `playing` room with the drawn number, roles for all three, and the drawn index as the only imposter |
| `Rooms.TwoJoinsWait` | server.js:25-51 | the first two joins of a fresh room give a `waiting` room with "Player 1" and then "Player 2", no roles and no number |
| `Rooms.DealThree` | server.js:105-124 | dealing a fresh room of three distinct sockets gives roles for exactly those three ids, the drawn index as the only imposter id, and a consistent `playing` room |
| `Rooms.NamesRepeatAfterChurn` | server.js:36 | names are not renumbered: after "Player 1" leaves, the next joiner is named "Player 2" again |
| `Server.Registry.StartRequest` | server.js:54-58 | `start-game` deals the room only if it exists with exactly 3 players; otherwise nothing changes and nothing is emitted |
| `Server.Registry.StartGame` | server.js:105-151 | a missing room or a count other than 3 changes nothing; otherwise the room becomes `Dealt` and the events are the private payloads followed by the `playing` status; other rooms are unchanged |
| `Server.DealRoles` | server.js:117-124 | the role loop yields `AssignRoles` of the old roles over the players |
| `Rooms.AssignRolesSpec` | server.js:117-124 | after the role loop every player id has a role, `imposter` exactly for the chosen id and `knower` otherwise; other keys keep their old role |
| `Rooms.DealtRoles` | server.js:109-124 | dealing keeps the players and sets `playing` and the number; every player has a role; the player at the drawn index is the imposter, and so is any entry sharing its id; with distinct ids, exactly that index is the imposter; if the old roles named only these players, the imposter id is unique |
| `Rooms.DealtKeepsConsistent` | server.js:105-124 | dealing a consistent three-player room with a number in 1..100 gives a consistent room |
| `Server.SendRoles` | server.js:126-145 | the payload loop emits exactly `Deliveries`: one `game-start` per connected player, in player order |
| `Rooms.PrivatePayload` | server.js:128-143 | a payload has the knower role iff the looked-up role is `knower`; only then can it carry a number, and that number is the room's; a missing role takes the imposter branch |
| `Rooms.DeliveriesSpec` | server.js:127-145 | every delivery goes to a connected player of the room and carries that player's role; knowers get the number and imposters get null; every connected player is sent one |
| `Rooms.StartEventsSpec` | server.js:126-150 | in a dealt game a payload carries the number iff it is not sent to the imposter id; only that id gets the imposter role; every connected player is sent a payload; the last event is the room-wide `playing` status |
| `Server.Registry.RestartGame` | server.js:60-71 | an existing room becomes `ResetGame` of itself and emits the reset status and `game-restarted`; an unknown id changes nothing and emits nothing |
| `Rooms.ResetGameSpec` | server.js:61-64 | a reset keeps the players and sets `waiting`, a null number and no roles; the result is consistent; resetting twice equals resetting once |
| `Server.Registry.Disconnect` | server.js:73-102 | if no room lists the socket, nothing changes; otherwise only the first room in enumeration order that lists it changes: it is deleted (and leaves the order) when it becomes empty, and otherwise it becomes `AfterDeparture` and the roster and reset events are emitted |
| `Server.Registry.LeaveRoom` | server.js:78-98 | the loop body for the room found: splice out the entry, delete the role, then delete an emptied room or update the roster and reset a `playing` room |
| `Rooms.FirstHolder` | server.js:77-80 | the scan result is the first position in the order whose room lists the id, or none when no room lists it |
| `Rooms.FirstHolderUnique` | server.js:77-99 | when only one room lists the socket id, the scan finds that room whatever the enumeration order |
| `Rooms.EarlierHolderScannedFirst` | server.js:76-99 | when two rooms list the same socket, the scan stops at or before the earlier one, so the later room keeps its stale entry and is neither deleted nor reset by this departure |
| `Rooms.FindIndex` | server.js:79 | `findIndex` gives the first index with that id, or -1 exactly when no entry has it |
| `Rooms.DepartureSpec` | server.js:79-91 | removal takes out exactly the first entry with the id (the multiset loses one copy) and keeps the order of the rest; the id has no role afterwards; a room that still has players is `waiting` with no roles and a null number, and is consistent |
| `Rooms.RemoveAtSpec` | server.js:81 | `splice(i, 1)` removes exactly the entry at `i`: one fewer entry, the multiset loses that one copy, and the others keep their order |
| `Rooms.DepartureKeepsConsistent` | server.js:84-91 | a room that keeps a player after a departure is non-empty and consistent |

## Left out

- Transport: the Express app, static files, CORS, `socket.join`, `server.listen` and `console.log` are not modelled. Emissions become the returned event sequences. The socket lookup before a payload is sent (`io.sockets.sockets.get`) becomes the `connected` parameter.
- Randomness: `Math.random` becomes two parameters. `number` must be in 1..100 and `imposterIndex` in 0..2. Their distribution is not modelled. `JoinRoom` takes both even when the join does not start a game.
- Message text: `game-status` and `game-start` messages are reduced to a tag. For `game-status` that is the `waiting`/`playing` status and, on a join, the `3 - count` value. The sentences themselves are not modelled.
- Enumeration order: JavaScript's `for...in` visits array-index-like keys (such as `"42"`) first, in numeric order, and then the other keys in insertion order. The model visits every room id in insertion order. `Rooms.FirstHolderUnique` shows that the order does not matter when a socket is listed in at most one room.
- Prototype keys: a room id that names an `Object.prototype` member (such as `"constructor"`) is truthy in `rooms[roomId]` before any join. The source then fails when it reads `.players.length`. The model treats every room id as an ordinary key. Room ids that are not strings are not modelled either.
- Aliasing: room records are values in a map that the handlers reassign. The source mutates them in place, but it never shares a record outside the registry.
- Disconnect: the source stops its scan with `break`; the model returns, and nothing runs after the loop in either. The comment at server.js:76 says "Remove player from all rooms", but the `break` at server.js:99 stops after the first room. The model follows the code. A socket listed in two rooms therefore keeps a stale entry in the second room, and that room is neither deleted nor reset by the departure (`Rooms.EarlierHolderScannedFirst`).
- The browser client (`public/client.js`) is not part of this model.
