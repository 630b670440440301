# ws-server signaling relay, modelled in Dafny

The relay accepts WebSocket connections. It gives each connection a random id
and keeps a table of connected clients. Clients use the relay to address
messages to one another by id. This project models the relay's logic as a
deterministic state machine over that table. Each transport event is one
atomic transition that returns the new table and the sends it makes, in
order:

- **Connect**: the new handle is put in the table. It is sent `init` with its
  own id and the ids of the other clients. Every other open handle is sent
  `new-peer`.
- **Route**: the table is scanned in insertion order for the first client
  whose id equals the message's `target`. If a client is found and its handle
  is open, the message is forwarded to that client with `sender` stamped on
  it. Otherwise the message is dropped.
- **Disconnect**: the closing handle's entry leaves the table. No one is told.

The model also covers the `getLocalIp` rule: the first IPv4 address that is
not internal, or "localhost" when there is none.

Files:

- `wrappers.dfy`: `Option` and `Result`.
- `registry.dfy`: the client table. A JavaScript `Map` iterates in insertion
  order, so the table is an insertion-ordered sequence of (handle, id)
  entries. This file has the first-match scan and the `get`, `set` and
  `delete` operations.
- `registry_facts.dfy`: how a table's handle set and id list split at the
  first entry, and when an id occurs in the list.
- `messages.dfy`: JSON values and messages as field maps. It also has
  `target` extraction, `sender` stamping, and the relay's own payloads with
  their encoding.
- `relay.dfy`: Connect, Route, Disconnect, Broadcast, the event type, and
  runs over event sequences.
- `local_ip.dfy`: the interface-selection rule. `GetLocalIp` is a loop that
  follows the source, and `Select` is a recursive reference definition of the
  same rule.

The transport decides which handles are open, so each transition takes the
open handles as a set. A send is an output record (recipient, payload).

The comments in server.js promise more than its code does in two places. The
model follows the code in both:

- The comments at server.js:7 and server.js:28 say each client gets a unique
  id. The id is drawn at random (server.js:29) and never checked against the
  table, so two clients can hold the same id. The model does not assume
  unique ids. `Relay.DuplicateIdsAdmitted` shows a second client with an id
  already in use being admitted, and `Relay.DuplicateIdHidesPeer` shows that
  its `init` lists no one. `Relay.ShadowedClientUnreachable` and
  `Relay.DuplicateIdRoutesToFirst` show that messages for that id only ever
  reach the earlier client.
- The comment at server.js:65-66 says `init` carries the ids of all other
  connected clients. The code inserts the newcomer first (server.js:31) and
  then keeps the ids that differ from the newcomer's by value
  (server.js:67-69). A connected client whose id equals the newcomer's is
  therefore left out. The two readings agree only when no earlier client
  holds the newcomer's id. `Relay.Connect` states the code's rule, and
  `Relay.InitListsEarlierClients` gives the condition under which it lists
  every other connected client.

Sometimes a handler reads `.id` from the `undefined` that the table returns
for an unknown handle. This happens in the message handler once an open
recipient has been found, and in the close handler. The result is an uncaught
TypeError. The model returns `Failure` in these cases and does not treat them
as preconditions. `Relay.Run` stops at the first failure, because an uncaught
exception ends the Node process.

## Model

| member | source | states |
|---|---|---|
| Registry.FindFirst | server.js:40-45 | the scan returns the position of the first entry, in iteration order, that matches the key, and None only when no entry matches |
| Registry.Lookup | server.js:36 | the table yields an id for a handle exactly when the handle is present, that id is the handle's own entry, and under the one-entry-per-handle invariant it is the only one |
| Registry.Set | server.js:31 | inserting a new handle appends it at the end and keeps every existing entry and its order; an existing handle keeps its position and gets the new id; lookups of every other handle are unchanged, and the one-entry-per-handle invariant is kept |
| Registry.Delete | server.js:62 | deleting a present handle removes one entry holding it and keeps the others in order; an absent handle leaves the table unchanged; no other lookup changes; when handles are unique, they stay unique and the handle set loses exactly that handle |
| Registry.DeleteUndoesSet | server.js:27-63 | deleting a handle that was just inserted restores the table exactly |
| Registry.IdsOtherThan | server.js:67-69 | the filtered id list never contains the newcomer's id and contains every other id exactly as often as the table does, and it is the table's ids unchanged when no entry holds that id |
| Registry.IdsOtherThanAppend | server.js:67-69 | filtering a table with one entry appended is filtering the table and then appending that entry's id if it survives the filter, so table order is kept |
| Messages.Target | server.js:41 | a message addresses an id exactly when it has a string `target`; any other `target` matches no id under strict equality |
| Messages.WithSender | server.js:53 | stamping adds or overwrites `sender` with the sender's id and keeps every other field and its value |
| Messages.WithSenderOverwrites | server.js:53 | a second stamp replaces the first, and stamping never changes where a message is addressed |
| Messages.Encode | server.js:70-84 | `init` is an object with exactly type "init", id and otherClientIds; `new-peer` has exactly type "new-peer" and id; a relayed message is sent as the stamped object itself |
| Messages.DecodeEncode | server.js:70-84 | every payload the relay originates reads back as itself from its JSON object |
| Relay.Broadcast | server.js:82-86 | each broadcast send goes to an open handle of the table other than the excluded one; every such handle gets the payload; when handles are unique no handle gets it twice |
| Relay.Connect | server.js:27-75 | for a fresh handle the newcomer is appended and all earlier entries keep their order; the newcomer's handle looks up its id and no other lookup changes; the first send is `init` to the newcomer with its id; the `init` list never holds the newcomer's id; for a fresh handle the list is the pre-insertion table's ids with the new id filtered out |
| Relay.ConnectInitCounts | server.js:67-69 | apart from the newcomer's id, the `init` list holds every id of the new table exactly as often as the table does |
| Relay.ConnectAnnounces | server.js:77-86 | after `init`, `new-peer` with the new id goes to each open handle that was in the table before, other than the newcomer, once each when handles are unique, and nothing else is sent |
| Relay.Recipient | server.js:39-45 | no recipient exactly when the message has no string target or no entry holds it; otherwise the recipient is the handle of the first entry, in insertion order, whose id equals the target |
| Relay.Route | server.js:34-57 | routing never changes the table; a missing or closed recipient means no sends; an unknown sender is a fault only when a recipient is found and open; otherwise exactly one send goes to the recipient, carrying the message with `sender` set to the sender's id and every other field unchanged |
| Relay.Disconnect | server.js:59-63 | closing fails exactly for a handle not in the table; otherwise it sends nothing and removes one entry holding that handle, keeping the others in order and their lookups unchanged; when handles are unique, they stay unique and the handle set loses exactly that handle |
| Relay.ConnectThenDisconnect | server.js:27-63 | a connection that closes right after opening leaves the table as it was and sends nothing on close |
| Relay.DeliveredToAddressee | server.js:39-56 | with unique ids, a message for a connected, open client is delivered to that client alone, stamped with the sender's id |
| Relay.ShadowedClientUnreachable | server.js:40-44 | a client whose id is already held by an earlier entry is never the recipient and never gets a relayed message |
| Relay.InitListsEarlierClients | server.js:65-75 | when no client holds the newcomer's id, `init` lists exactly the ids of all earlier clients in connection order |
| Relay.InitOmitsAbsentId | server.js:67-69 | an id that no client holds is never offered in `init` |
| Relay.DepartedIdForgotten | server.js:59-63 | with unique ids, closing a client succeeds and removes its id from the table |
| Relay.DuplicateIdsAdmitted | server.js:27-31 | two connections drawing the same id are both admitted, the second after the first |
| Relay.DuplicateIdHidesPeer | server.js:65-86 | the second holder of an id gets an `init` that lists no one although the first holder is connected, and the first holder gets `new-peer` |
| Relay.DuplicateIdRoutesToFirst | server.js:40-56 | with two clients holding the same id, a message for that id goes to the first client |
| Relay.Apply | server.js:27-63 | connection events never fail; message events never change the table; close events fail exactly for unknown handles; every event keeps the one-entry-per-handle invariant and adds no entries except the connecting one |
| Relay.Run | server.js:27-87 | over any event sequence the one-entry-per-handle invariant is kept; every entry of the final table was there at the start or came from a connection event; a sequence of connection events alone never fails |
| LocalIp.FirstUsable | server.js:14-18 | the scan of one interface finds the first IPv4, non-internal entry, or reports that there is none |
| LocalIp.Select | server.js:11-21 | the reference rule picks the address of the first usable entry in scan order, or "localhost" when none is usable |
| LocalIp.SelectsUnique | server.js:11-21 | the selection rule determines one address |
| LocalIp.GetLocalIp | server.js:11-21 | the nested loop returns "localhost" exactly when no entry is usable; otherwise it returns the address of the first usable entry in scan order; it agrees with the reference rule |

## Left out

- Server startup and logging (server.js:5, 23-25, 32, 48, 55, 61). These are I/O with no logic.
- Id generation from `Math.random` formatted in base 36 (server.js:29). It depends on floating-point randomness. The id is an input of Connect, and nothing assumes it is unique.
- JSON parsing and serialization (server.js:35, 56, 75, 84). Messages are field maps of parsed JSON objects. JSON numbers are abstract integers, and the key order of serialized objects is not modelled. A frame that fails to parse throws at server.js:35. A frame that parses to `null` throws a TypeError when `message.target` is read (server.js:41, and server.js:48 on an empty table), which ends the process. A frame that parses to a number, string, boolean or array has no `target` that equals an id and is dropped. None of these frames is modelled.
- Send semantics and `readyState` (server.js:47, 75, 83-84). The open handles are a set supplied per event, and each send is an output record. What the socket library does when asked to send on a socket that is not open is not modelled. This includes the `init` sent to the newcomer.
- The `os.networkInterfaces()` call (server.js:12). Its result is an input listed in key order. Node 18.0 to 18.3 report the family as the number 4. That is not modelled; the family is a string.
- Event ordering and concurrency inside the socket library. Each event is one atomic transition.
- Handles are natural numbers compared only for identity, standing in for socket objects.
- Registry.IdsOtherThan: its contract gives the contents with multiplicities, and the exact list when nothing is filtered out. Order under filtering is stated separately by Registry.IdsOtherThanAppend.
