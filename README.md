# Touch relay registry: a Dafny model

The server of this multitouch demo is a WebSocket relay. Each browser sends
`touchUpdate` frames (its `clientId`, a `color` and its current `touches`) and
`clearTouches` frames. The server forwards each frame to every other client so
that everyone sees everyone's touches. All of the relay's state is one
process-wide JavaScript `Map` called `clients`. It maps a client-chosen
`clientId` to `{ ws, color }`. Three pieces of code change it or read it:

- the `touchUpdate` branch of the `message` handler registers a `clientId` the
  first time it is seen, then forwards the frame to every other open client id;
- the `clearTouches` branch forwards the frame to every other open client id
  and leaves the Map alone;
- the `close` handler scans the Map for the entry whose connection is the
  closing one, deletes it, and tells every remaining open client to clear it.

This project models that registry and those handlers, and proves what they do.

- `messages.dfy` (module `Messages`) holds the values. Connections are opaque
  tokens (`Conn = nat`), compared by identity. A `clientId` is any value
  `JSON.parse` can produce (`Key`). Strings, numbers, booleans, `null` and a
  missing field (`undefined`) are Map keys by value. An object or array is a
  Map key by identity, so it is represented by that identity together with
  the parsed value (`Ref`). `Truthy` is JavaScript truthiness, and
  `ToStringThrows` says when turning a parsed value into a string throws. Inbound frames arrive already decoded,
  with one case for a frame that failed to parse (`Malformed`) and one for an
  unknown `type` (`Unrecognized`). Each send is a pair of a connection and an
  outbound frame.
- `registry.dfy` (module `Registry`) describes the Map as a sequence of entries
  in insertion order. That is the order `Map.forEach` visits them, and the
  order in which a broadcast sends. Each handler is a function from the old
  registry to an `Outcome`: the new registry and the sends, in order.
  Readiness (`readyState === OPEN`) is an input: the set of open connections.
- `server.dfy` (module `Server`) holds the class `Relay`. Its field `clients`
  is updated in place. Its methods contain the source's `forEach` loops: the
  three broadcast loops share one method, `Broadcast`, and the close scan is
  `FindByConn`. Every method is proved equal to the registry function for its
  handler. The class invariant is that keys are unique.
- `properties.dfy` (module `Properties`) proves what the handlers promise.
  There are lemmas for the Map view (first registration wins; delete removes
  one key), for broadcasts (who receives, how often, in what order), for
  disconnection (the last match is removed; a falsy id is never removed),
  for whole runs of events (keys stay unique), and for concrete runs.

What the code does at its edges, which the model keeps:

- `clientId` may be any JSON value, including a missing one (`undefined`);
  nothing checks that it is a non-empty string.
- The close scan (server.js:89-94) overwrites `disconnectedId` for every entry
  on the closing connection, so it ends on the last matching entry in
  insertion order, and only that entry is removed. The removal is guarded by
  a truthiness test (`if (disconnectedId)`, server.js:96). So when that last
  match is `""`, `0`, `false`, `null` or `undefined`, nothing is removed and
  nothing is sent, even when an earlier entry on the same connection has a
  truthy id.
- Broadcasts send in insertion order, and nothing in a loop recovers from a
  failed send. The model keeps the order and does not claim that sends are
  independent.
- The comment at server.js:54 says a frame is not sent back to the sender.
  The test beside it leaves out the sender's `clientId`, not its connection.
  A connection registered under a second id therefore receives its own frames
  (`ExclusionIsById`).
- A forwarded `touchUpdate` carries the color of the inbound frame, not the
  color stored when the id was registered (`StaleRegistrationKept`).
- The registration log line (server.js:49) builds a string from the new
  `clientId` and `color`. That conversion throws when the value is a parsed
  object with its own `toString` key, or an array holding one. The throw comes
  after `clients.set`, so the `catch` at server.js:79 ends the handler with
  the client registered and nothing sent
  (`RegistrationLogThrowCancelsBroadcast`). For this, a `Ref` key also
  carries the parsed value.

## Model

| member | source | states |
|---|---|---|
| `Messages.Truthy` | server.js:96 | `if (disconnectedId)` passes for every key except `undefined`, `null`, `false`, `0` and `""`; every object is truthy |
| `Registry.Has` | server.js:47 | `clients.has(id)` holds iff `id` is a key of the registry's dictionary view |
| `Registry.Register` | server.js:47-48 | afterwards `id` is registered; existing entries keep their place; at most one entry is added, at the end, and it is `{ws, color}` under `id` |
| `Registry.LastMatch` | server.js:89-94 | a found id belongs to an entry on the closing connection; `null` means no entry is on that connection |
| `Registry.HandleTouchUpdate` | server.js:45-64 | after a `touchUpdate` the sender's id is registered, and every frame sent is the inbound update |
| `Registry.HandleClearTouches` | server.js:67-77 | a `clearTouches` leaves the registry unchanged and every frame sent is a `clearTouches` for the sender's id |
| `Registry.HandleMessage` | server.js:40-82 | a message never removes an entry: the registry is unchanged, or a `touchUpdate` appended the sender's entry |
| `Registry.HandleClose` | server.js:85-108 | a close never adds an entry, changes the registry only when the scan found a truthy id, and every frame sent is a `clearTouches` for that id |
| `Registry.Step` | server.js:40-109 | one event adds at most one entry; a message never shrinks the registry and a close never grows it |
| `Registry.Run` | server.js:30 | over a run of events the Map grows by at most one entry per event |
| `Properties.OnceEach` | server.js:30 | with unique keys, each entry occurs at most once in the registry |
| `Properties.FanoutOnlyToOpen` | server.js:55-56 | every send of a broadcast goes to an open connection |
| `Properties.RegistrationLogThrowCancelsBroadcast` | server.js:47-49 | a new id whose color has its own `toString` key is registered, and B1, though open, is sent nothing, because the log line throws into the `catch` |
| `Registry.Remove` | server.js:97 | `clients.delete` never makes the registry longer |
| `Registry.Recipients` | server.js:53-55 | a broadcast sends to no more entries than the registry holds |
| `Registry.Fanout` | server.js:53-63 | a broadcast sends one frame per recipient entry, in the order it visits them, each to that entry's connection and each the same frame (the loops at lines 69-76 and 100-107 have the same shape) |
| `Registry.RemoveMembers` | server.js:97 | after `clients.delete(id)` an entry is present iff it was present before and its key is not `id` |
| `Registry.RecipientsMembers` | server.js:55 | an entry receives a broadcast iff it is registered, its key is not the excluded id, and its connection is open |
| `Registry.RegisterKeepsDistinct` | server.js:47-48 | registering only when `!clients.has(id)` keeps the keys unique |
| `Registry.RemoveAbsent` | server.js:97 | deleting a key that is not present leaves the registry unchanged |
| `Registry.RemoveAt` | server.js:97 | with unique keys, deleting entry i's key removes exactly entry i and keeps the order of the rest |
| `Registry.RemoveKeepsDistinct` | server.js:97 | deleting a key keeps the keys unique |
| `Server.Relay.constructor` | server.js:30 | the relay starts with an empty Map, which has unique keys |
| `Server.Relay.Broadcast` | server.js:53-63 | the `forEach` loop sends exactly the sends `Fanout` gives for the current registry: one per eligible entry, in insertion order |
| `Server.Relay.FindByConn` | server.js:89-94 | the scan leaves in `disconnectedId` the id of the last entry whose connection is the closing one, or `null` when there is none |
| `Server.Relay.OnTouchUpdate` | server.js:45-64 | the registry becomes `Register(old, id, {ws, color})`; the sends are the `touchUpdate` broadcast that excludes `id`, or none when the registration log throws; keys stay unique |
| `Server.Relay.OnClearTouches` | server.js:67-77 | the sends are the `clearTouches` broadcast that excludes the sender's id; the method may not modify the registry |
| `Server.Relay.OnMessage` | server.js:40-82 | the message callback dispatches on `type` and matches `HandleMessage`: an unknown type or a parse failure changes nothing and sends nothing |
| `Server.Relay.OnClose` | server.js:85-109 | the close callback matches `HandleClose`: delete the last entry on the connection when its id is truthy, then notify all remaining open entries; keys stay unique |
| `Registry.HasIffInMap` | server.js:47 | `clients.has(id)` holds iff `id` is a key of the registry's dictionary view |
| `Properties.AsMapAt` | server.js:30 | with unique keys, the dictionary view maps each entry's key to that entry's `{ws, color}` |
| `Properties.RegisterFirstWins` | server.js:47-50 | an absent id gains exactly one entry `{ws: sender, color}`, at the end; a present id leaves the registry unchanged, so the stored connection and color stay; existing entries never move |
| `Properties.RemoveAsMap` | server.js:97 | in the dictionary view, `clients.delete(id)` removes key `id` and nothing else |
| `Properties.RecipientsInOrder` | server.js:53 | the recipients of a broadcast are registry entries at strictly increasing positions, that is, in insertion order |
| `Properties.RecipientsOncePerEntry` | server.js:53-56 | with unique keys, no entry receives the same broadcast twice |
| `Properties.SendsOnlyToOpen` | server.js:55-56 | every send of every handler goes to a connection that is open (the same test is at lines 70 and 101) |
| `Properties.TouchUpdateSends` | server.js:47-62 | with unique keys, a `touchUpdate` sends exactly once (multiset count 1) to each entry of the updated registry whose id differs from the sender's and whose connection is open, and to no other; each frame carries the inbound clientId, color and touches unchanged; when a new id's registration log throws, it sends nothing |
| `Properties.ClearTouchesSends` | server.js:67-76 | with unique keys, a `clearTouches` leaves the registry unchanged, even for an unregistered sender; it sends exactly one `clearTouches` with the sender's id to each other-id open entry, and none to any other |
| `Properties.IgnoredMessagesInert` | server.js:79-81 | a frame that fails to parse, or whose `type` is not handled, changes nothing and sends nothing |
| `Properties.LastMatchAt` | server.js:89-94 | when the scan finds an id, it is the id of an entry on the closing connection, and no later entry is on that connection |
| `Properties.LastMatchNone` | server.js:89-94 | the scan comes back `null` iff no entry is on the closing connection |
| `Properties.CloseRemovesLastMatch` | server.js:89-97 | a close whose scan finds a truthy id removes exactly that entry, the last one on the connection; everything else stays, in order; the Map view loses just that key |
| `Properties.CloseNotifiesRemaining` | server.js:99-107 | with unique keys, after a removal each remaining entry with an open connection receives exactly one `clearTouches` carrying the removed id, every other entry none, and no id is excluded |
| `Properties.CloseInert` | server.js:96 | a close with no entry on the connection, or whose scan ends on a falsy id, changes nothing and sends nothing |
| `Properties.FalsyIdNeverRemoved` | server.js:96 | an entry whose key is falsy is never removed by a close |
| `Properties.StepKeepsDistinct` | server.js:30 | every handler keeps the Map's keys unique |
| `Properties.RunKeepsDistinct` | server.js:30 | over any serialized run of events, the keys stay unique |
| `Properties.ThreeClientsUpdate` | server.js:45-63 | with B1 and C1 registered, A's first update registers A1 and reaches B and C once each, not A |
| `Properties.ThreeClientsClose` | server.js:85-107 | when B then disconnects, B1 is removed, and C and A (in insertion order) each get one `clearTouches` for B1 |
| `Properties.ExclusionIsById` | server.js:70 | a connection registered under a second id receives its own `clearTouches`, because exclusion is by id |
| `Properties.StaleRegistrationKept` | server.js:47-61 | a known id from a new connection with a new color keeps the old record; the forwarded frame carries the new color |
| `Properties.CloseRemovesOnlyLast` | server.js:90-97 | a connection registered under two ids loses only the later one when it closes |
| `Properties.FalsyLastMatchShadows` | server.js:90-96 | when the later id on the closing connection is `""`, nothing is removed, not even the truthy earlier id |

## Left out

- The HTTP responder for `index.html` and its 200/404/500 answers (server.js:8-24): file I/O outside the relay.
- Reading `PORT` and `server.listen` (server.js:118-122): process setup.
- The output of every `console.log` and `console.error` call: logging only. The string conversion in the registration log (server.js:49) is modelled, because it can throw (`RegistrationLogThrows`); the other log lines only print constants or an already-caught error.
- The random `tempId` (server.js:37): it is generated and never read.
- The `error` handler (server.js:112-114): it only logs.
- The `ws` library itself. `readyState` is abstracted into the input set of open connections, so CONNECTING, CLOSING and CLOSED are all "not open".
- `JSON.parse` and `JSON.stringify`. Frames are already-decoded datatypes. A parse failure, and a parsed `null` whose `.type` read throws, are both `Malformed`. Giving a fresh `Ref` identity to each parsed object or array key is left to the caller. Numbers are exact reals, so the rounding of decimal text to doubles is not modelled.
- Failures of `ws.send`. A throw in the message handler would end the rest of the loop at the `catch` (server.js:79). Each model send always happens, and the model does not claim that sends are independent of each other.
- Concurrency. Events are handled one at a time, as in Node's event loop.
