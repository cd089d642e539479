# Group location sharing: the presence registry

A Dafny model of the server core of a small group location-sharing service
(`index.js`). The server keeps one in-memory registry, `groups`:
group name → (userId → member record). Socket.IO connections change it through five
event handlers, and two helpers act on it. `leaveGroup` removes a member and deletes
a group once it is empty. `broadcastGroupMembers` sends the member list to a group's
room. `GET /api/status` returns a read-only snapshot of the registry.

The project has four modules:

- `JsObject` (`js_object.dfy`) models a plain JavaScript object used as a dictionary.
  An `Obj` pairs the property values with their enumeration order, so `Object.keys`
  and `Object.entries` come out in insertion order. Assigning to an existing key keeps
  its position, a new key goes last, and `delete` removes the key from the order.
- `Presence` (`presence.dfy`) holds the member record and the events the server emits.
  It defines pure functions for what each registry operation produces (`PutMember`,
  `AfterLeave`, `LeaveEvents`, `MembersView`, `Broadcast`), and the `Registry` class.
  That class owns the `groups` object and a ghost `outbox`, the sequence of emitted
  events. Each event records its target: `Room(g)` is `io.to(g)`, the whole room;
  `RoomExcept(g, s)` is `socket.to(g)` sent from socket `s`, the room without the
  sender. Both mean the room on the Socket.IO server the sending connection belongs to.
  `Registry.LeaveGroup`, `Registry.BroadcastGroupMembers` and `Registry.Status`
  are the helpers and the status route. `Registry.WriteRecord` is the record-writing
  part of `join-group`.
- `Sockets` (`sockets.dfy`) has the `Connection` class. It holds the connection's
  closure variables `currentUserId` and `currentGroup` and the five handlers. Each
  handler is a method whose postcondition states the registry and outbox it leaves, in
  terms of the `Presence` functions. A session counts as joined exactly when both
  variables are truthy in the JavaScript sense: set and not the empty string.
- `Scenarios` (`scenarios.dfy`) drives handlers of several connections over one shared
  registry. It proves the observable consequences. Rejoining on a new connection keeps
  the last position and sharing flag, while rejoining on the same connection resets
  them, because the join first leaves the old pair. A disconnect leaves an inactive
  marker, and a hidden member sends no point updates but is still listed. It also
  proves that the last leave deletes the group and that switching groups deletes the
  old group when the user was its only member.

The registry invariant `GroupsValid` has three parts: the registry object is well
formed, every group object is well formed, and no group is empty. An object is well
formed when its key order has no duplicates and lists exactly its keys. Every handler
requires it and re-establishes it.

## Model

| member | source | states |
|---|---|---|
| JsObject.Empty | index.js:17 | `{}` is a well-formed object with no keys and an empty order |
| JsObject.Obj.Get | index.js:114 | `o[k]` is defined exactly when `k` is a key, and then it is that key's value |
| JsObject.Obj.Put | index.js:111-115 | assignment sets exactly that key; an existing key keeps its position, a new one is appended; the object stays well formed |
| JsObject.Obj.Delete | index.js:180 | `delete` removes exactly that key from values and order and leaves the rest in order; deleting an absent key changes nothing |
| JsObject.Obj.Size | index.js:183 | `Object.keys(o).length` equals the number of keys, and it is 0 exactly when the object is empty |
| JsObject.Obj.Entries | index.js:196 | `Object.entries` lists every key in enumeration order with its own value |
| JsObject.Without | index.js:180 | the enumeration order after `delete o[k]`: the old order with `k` dropped and the other keys in their old relative order |
| JsObject.WithoutSpec | index.js:180 | removing a key from an order keeps exactly the other keys, keeps them distinct, and shortens the order by one when the key was there |
| JsObject.WithoutAbsent | index.js:179 | removing a key that is not in the order leaves the order unchanged |
| JsObject.WithoutAt | index.js:184 | in a duplicate-free order, removing the key at position i splices out exactly position i |
| JsObject.NotEarlier | index.js:22-23 | in a duplicate-free order, no key occurs before its own position, so the status loop never meets a group twice |
| JsObject.DistinctCard | index.js:24-25 | a duplicate-free order is as long as its set of keys, so a key count equals the member count |
| Presence.GroupOf | index.js:111-114 | `groups[g]` as the join handler reads it after creating a missing group as `{}`: the stored group when `g` exists, otherwise the empty object |
| Presence.Present | index.js:133 | `groups[g]?.[u]` is truthy exactly when group `g` exists and has a record for `u` (records are objects, so always truthy); the same test guards index.js:148, 158 and 179 |
| Presence.Rejoined | index.js:113-124 | the joined record is active with `lastSeen = now` and the new socket id; it takes lat/lng/speed/heading/sharing from an existing record, otherwise those are null and sharing is on |
| Presence.PutMember | index.js:111-124 | writing `groups[g][u]`, creating the group if missing, keeps the invariant; it changes only that record, adds at most the group `g`, leaves other groups equal and keeps key positions |
| Presence.CreateThenPut | index.js:111-115 | creating `groups[g] = {}` when missing and then assigning `groups[g][u]` gives the same registry as `PutMember` |
| Presence.AfterLeave | index.js:178-190 | `leaveGroup` keeps the invariant and removes exactly `u` from `g`; it deletes `g` exactly when `u` was its last member; it leaves other groups and an absent record untouched; key orders lose only the removed key |
| Presence.LeaveEvents | index.js:183-189 | `leaveGroup` emits nothing when the record is absent or was the last one; otherwise it emits `member-left` to the room without the sender, then a `group-members` event whose list is exactly `MembersView` of the group after the leave, which no longer contains `u` |
| Presence.View | index.js:196-205 | the `.map` callback: the list item for entry `[userId, data]`, carrying the userId and lat, lng, sharing, speed, heading, active and lastSeen of the record, and not its socket id |
| Presence.ViewsOf | index.js:196-205 | the projection maps each entry, in order, to a view with its userId and every record field except the socket id |
| Presence.MembersView | index.js:196-205 | the `members` list has one entry per key of the group, in enumeration order, copying the record without `socketId` |
| Presence.MembersViewListsEachOnce | index.js:196-205 | the broadcast list is as long as the group, lists every member, lists nothing else, and lists no userId twice |
| Presence.Broadcast | index.js:194-207 | `broadcastGroupMembers` emits nothing for a missing group, otherwise exactly one `group-members` event to the whole room carrying `MembersView` of the group |
| Presence.GroupSizes | index.js:183-185 | in a valid registry every group has at least one member and as many keys as members |
| Presence.Registry.constructor | index.js:17 | the registry starts empty, valid, with nothing emitted |
| Presence.Registry.WriteRecord | index.js:111-124 | the join's create-and-assign sequence leaves the registry equal to `PutMember` with the `Rejoined` record, and keeps the invariant |
| Presence.Registry.BroadcastGroupMembers | index.js:194-207 | appends exactly `Broadcast(groups, g)` to the outbox and changes nothing else |
| Presence.Registry.LeaveGroup | index.js:178-192 | the new registry is `AfterLeave` and the new outbox appends `LeaveEvents`; the invariant is kept |
| Presence.Registry.Status | index.js:20-29 | the body has status "ok" and lists every group in registry order; each entry's `members` is the group's key order and `memberCount` is the member count, equal to the list's length and at least 1 |
| Sockets.Truthy | index.js:108 | JavaScript truthiness of a session variable: `null` and `""` are falsy, every other string is truthy |
| Sockets.Connection.Joined | index.js:108 | `currentGroup && currentUserId`: the session is joined exactly when both variables are truthy; the same test guards index.js:132, 147, 158 and 169 |
| Sockets.Connection.HasRecord | index.js:132-133 | the session is joined and `groups[currentGroup]?.[currentUserId]` is a record, the condition under which update-location, toggle-sharing (index.js:147-148) and disconnect (index.js:158) act |
| Sockets.Connection.Record | index.js:134 | `groups[currentGroup][currentUserId]`, the session's record, read only when the session has one (also index.js:159) |
| Sockets.KeepsMembers | index.js:134-140 | overwriting an existing record leaves every group and every member in place, in the same order |
| Sockets.Connection.constructor | index.js:103-105 | a new connection starts unjoined (`currentUserId = currentGroup = null`) on the shared registry |
| Sockets.Connection.OnJoinGroup | index.js:107-129 | a joined session first gets `AfterLeave`/`LeaveEvents` of its old pair, even for the same pair; then the record is written as `PutMember` of `Rejoined` and one broadcast follows; the session becomes (userId, groupName) |
| Sockets.Connection.OnUpdateLocation | index.js:131-144 | without a session or record nothing changes; otherwise only that record's position, motion, `active = true` and `lastSeen` change; `sharing` and all keys stay; one `location-update` with `sharing: true` goes to the others exactly when the record's sharing flag is on, and nothing else is emitted |
| Sockets.Connection.OnToggleSharing | index.js:146-153 | without a session or record nothing changes; otherwise only the sharing flag changes; `member-hidden` goes to the others exactly when the new flag is off, then one broadcast |
| Sockets.Connection.OnDisconnect | index.js:155-165 | no group or member ever disappears; with a record it becomes inactive with `lastSeen = now` and one broadcast follows; otherwise nothing changes |
| Sockets.Connection.OnLeaveGroup | index.js:168-174 | a joined session gets `AfterLeave`/`LeaveEvents` and becomes unjoined; an unjoined one changes nothing |
| Scenarios.LeaveOnly | index.js:183-185 | the only member of the only group leaving empties the registry and its order |
| Scenarios.JoinSecond | index.js:111-124 | a second user joining a one-member group is appended after the first, whose record is unchanged |
| Scenarios.LeaveOneOfTwo | index.js:178-190 | one of two members leaving keeps the group with the other and emits `member-left` then a broadcast |
| Scenarios.RejoinAfterDisconnect | index.js:107-124 | a member turns sharing off and disconnects: the record is inactive but keeps its position; joining again on a new socket reactivates it, keeps the position and keeps sharing off, and the status count stays 1 |
| Scenarios.RejoinOnSameConnection | index.js:108-124 | rejoining on the same connection leaves first, so position is null and sharing is on again |
| Scenarios.HiddenMemberUpdate | index.js:131-153 | with sharing off a position update emits nothing, yet the next `group-members` list shows the new position with sharing off |
| Scenarios.FirstDisconnects | index.js:155-165 | a disconnect of one of two members leaves both listed, the first inactive |
| Scenarios.DisconnectKeepsMarker | index.js:155-165 | after a disconnect the status count is still 2 and the list shows the member inactive with its disconnect time |
| Scenarios.FirstLeaves | index.js:168-190 | an explicit leave of one of two members emits `member-left` to the room without the leaver, then a broadcast, and leaves the other member |
| Scenarios.LeaveUntilEmpty | index.js:178-190 | after the first leave the status lists the remaining member; the last leave deletes the group |
| Scenarios.SwitchGroup | index.js:107-115 | joining another group on the same connection deletes the old group if the user was alone in it |
| Scenarios.EmptyUserIdStaysActive | index.js:108 | a join with userId `""` writes a record, but the session is not joined, so a later disconnect leaves that record active |

## Left out

- `getOrCreateCerts` (index.js:37-94): certificate generation and file I/O are foreign calls.
- Per-handler console logging is not modelled (index.js:103, 127, 150, 156, 181, 185); it changes no state and emits nothing.
- Server start-up is not modelled: port binding, interface scanning, console output, Express static serving and the `GET *` fallback (index.js:13-14, 32-34, 210-247).
- Socket.IO transport is not modelled. `socket.join`/`socket.leave` room bookkeeping (index.js:126, 191) and delivery are left out. An emit is only appended to the ghost outbox, with its target.
- Delivery across the two Socket.IO servers is not modelled. `index.js` attaches one to the HTTP server and one to the HTTPS server (index.js:224, 235), both over the same `groups`. A room belongs to one server, so an emit reaches only the members connected to the sender's server, while the member list covers both.
- `test_simulator.js` is not modelled; it is a network test driver.
- The POST endpoint is not modelled. `test_simulator.js:168-249` expects a stateless `POST /api/update-location` that auto-registers members. `index.js` defines no such route and has no body parser. The model follows `index.js`.
- Concurrency is left out. Node runs each handler to completion, so each handler is one method.
- `Date.now()` is the `now` parameter.
- Coordinates, speed and heading are `Scalar` values (null, undefined or a real number). They are only copied, so no floating-point behaviour is modelled.
- Payload values are assumed well typed: `userId` and `groupName` are strings and `sharing` is a boolean. A missing `userId` or `groupName`, a non-boolean `sharing`, and its truthiness are not modelled. A handler invoked with no payload at all throws a TypeError while destructuring it (index.js:107, 131, 146); that is not modelled either.
- Object keys that JavaScript orders first (integer-like strings such as `"7"`) are modelled in insertion order. Inherited names such as `__proto__` or `constructor` as group or user names are also not modelled.
- Member records and group objects are values. In the source they are objects mutated in place, but nothing else holds a reference to them, so this loses no behaviour.
- The ghost outbox records emit order only within one handler run and across sequential runs. Network delivery order is not modelled.
