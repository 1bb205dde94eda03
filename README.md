# FamilyTrackingServer, modelled in Dafny

FamilyTrackingServer is a family location tracker. The server keeps an
in-memory registry of the last location each participant reported. It
sends that registry to every socket that connects, broadcasts each location
update, and announces a participant's departure when the participant's
socket disconnects. The tracking page mirrors the registry in two
dictionaries: `localUserData` holds the records and `markers` the map
markers. Around this sit REST services backed by Supabase:
- groups with six-character join codes;
- profile updates and profile-picture uploads;
- a JWT middleware that guards the routes.

The model has eight modules:

- `Presence` (src/services/socketService.js): the registry, the `io`
  handle and the three socket handlers. The module-level `users` object and
  the service's `io` field are the fields of the class
  `Presence.SocketService`. Each handler is proved equal to a pure step
  function (`Connect`, `LocationUpdate`, `Disconnect`). Every emission is
  appended to an event log. The order in which `Object.keys` lists the keys
  is kept as a sequence, because the disconnect search takes the first
  match in that order.
- `Client` (frontend/app.js and public/app.js): holds the page's two
  dictionaries, the class `Client.ClientMirror`, and the three socket
  handlers, written as loops over the dictionaries as the page writes them.
  It also models the count line and the avatar initial of the sidebar. The
  two files carry the same handler code line for line. Each line `N`
  between 61 and 156 of frontend/app.js appears as line `N - 9` of
  public/app.js, so `updateMarker` is at 61-75 and 52-66. The table cites
  frontend/app.js.
- `Sync`: ties the two modules above together. Take a server whose `io`
  is attached and whose registry invariant holds (every key listed once,
  each record stored under its own id). Take any run of handlers that
  does not include a page's own disconnect. A page that joins and then
  applies the messages delivered to it holds exactly the registry, with
  one marker per participant at the participant's position.
- `Groups` (src/services/groupService.js): covers three things.
  - Code generation, a loop over six supplied random draws.
  - The uniqueness retry loop of `createGroup`.
  - The decisions of `createGroup`, `joinGroup` and `getUserGroup`, made
    over in-memory `groups`, `group_members` and `users` tables. A lookup
    ending in `.single()` yields a row only when exactly one row matches.
- `Users` (src/services/userService.js): the `updates` object of
  `updateUser`, the file-name extraction and naming of
  `uploadProfilePicture`, and that function's outcomes.
- `Auth` (src/middleware/authMiddleware.js): header check, "Bearer "
  stripping, the secret fallback, and the next-or-401 decision. The
  decision acts on a request/response object.
- `Text`: the JavaScript string built-ins these need. They are
  non-negative integer formatting, `split` on one character, ASCII
  `toUpperCase` and `startsWith`.
- `Wrappers`: `Option` and `Result`.

The in-memory tables, the clock (`Date.now()`), `Math.random()`,
`bcrypt.hash` and `jwt.verify` are parameters of the operations that use
them. So is the error outcome of each insert, update and upload whose
`error` the code reads. A select whose `error` the code ignores is
modelled as a successful lookup on the tables (see "## Left out").

What the code does not do, and the model therefore does not either:
- No avatar field is kept, and no profile enrichment exists.
- A location update replaces the whole record (no field is preserved).
- Updates are not validated.
- There is no separate connection index. A disconnect searches the records
  for one whose `socketId` matches.
- `io.emit` reaches the originator too.

## Model

| member | source | states |
|---|---|---|
| `Text.Decimal` | src/services/userService.js:99 | a template literal renders a natural number as a non-empty digit string with no leading zero |
| `Text.ParseDecimalOfDecimal` | src/services/userService.js:99 | reading the rendered digits back gives the number (round trip) |
| `Text.DecimalInjective` | src/services/userService.js:99 | distinct numbers render differently |
| `Text.AsciiUpper` | frontend/app.js:101 | an ASCII-only model of `toUpperCase`: 'a'..'z' become 'A'..'Z', every other character is kept, and no ASCII lower-case letter remains |
| `Text.UpperString` | src/services/groupService.js:60 | every character is upper-cased in place and the length is kept |
| `Text.Split` | src/services/userService.js:74 | `split('/')` yields at least one piece, and no piece contains the separator |
| `Text.JoinSplit` | src/services/userService.js:74 | joining the pieces with the separator gives back the string |
| `Text.LastPieceIsSuffixAfterLastSep` | src/services/userService.js:75 | the last piece is the suffix after the last separator (the whole string if none) |
| `Text.LastPieceAfterSeparator` | src/services/userService.js:74-75 | any separator-free text placed after a separator is exactly what the last piece returns |
| `Presence.Entries` | src/services/socketService.js:18 | the serialised registry lists only stored keys, each with its stored record |
| `Presence.EntriesOfWellFormed` | src/services/socketService.js:18 | with every listed key stored, the snapshot has one entry per key in key order |
| `Presence.FindOwned` | src/services/socketService.js:52 | `find` returns a key the socket owns with no owning key before it, and nothing exactly when no key is owned |
| `Presence.RemoveKey` | src/services/socketService.js:56 | `delete` drops exactly that key from the key order and keeps the keys distinct |
| `Presence.RemoveKeyKeepsOrder` | src/services/socketService.js:56 | deleting a key from between `a` and `b` leaves `a + b`: the other keys keep their order for the next first-match search |
| `Presence.RemoveKeyAbsent` | src/services/socketService.js:56 | deleting a key that is not there leaves the key order unchanged |
| `Presence.NewRecord` | src/services/socketService.js:31-38 | the stored record is built from the payload's id, name, lat and lng, the clock and the socket id alone |
| `Presence.Connect` | src/services/socketService.js:14-18 | connecting leaves the registry unchanged and sends the snapshot to the new socket only |
| `Presence.LocationUpdate` | src/services/socketService.js:27-46 | the entry for `id` becomes exactly the new record with `now` and the socket id. Other entries are untouched. The key order is kept for a known id, and `id` is appended for a new one. One `receive-location` goes to all clients exactly when `io` is set. Key = id is preserved |
| `Presence.Disconnect` | src/services/socketService.js:48-63 | the first owned key, when non-empty, is deleted from the registry and the key order and announced to all (if `io`); otherwise nothing changes or is sent; the invariant is preserved |
| `Presence.DisconnectSparesOthers` | src/services/socketService.js:52-56 | a disconnect removes at most one record and keeps every record the socket does not own |
| `Presence.DisconnectOfNonOwnerIsNoOp` | src/services/socketService.js:52-54 | a socket owning no record: its disconnect changes nothing and emits nothing |
| `Presence.StaleDisconnectKeepsRecord` | src/services/socketService.js:31-37 | after socket B rewrites `u`, an older socket A's disconnect keeps `u` and does not announce it |
| `Presence.EmptyIdBlocksDisconnect` | src/services/socketService.js:54 | a record stored under the key "" is never removed by its socket's disconnect (`if (userId)` is false) |
| `Presence.Apply` | src/services/socketService.js:14-63 | one handler run keeps the `io` flag and the registry invariant; a connect leaves the state unchanged |
| `Presence.Run` | src/services/socketService.js:14-63 | any sequence of handler runs preserves the registry invariant |
| `Presence.ReconnectScenario` | src/services/socketService.js:31-61 | written by c1 then c2: c1's disconnect keeps the participant silently, c2's removes and announces it |
| `Presence.SocketService.constructor` | src/services/socketService.js:3-8 | an empty registry, no `io`, nothing emitted |
| `Presence.SocketService.Init` | src/services/socketService.js:10-12 | `init` sets the `io` field |
| `Presence.SocketService.HandleConnection` | src/services/socketService.js:14-25 | the registry is unchanged and the emitted log grows by `Connect`'s event |
| `Presence.SocketService.HandleLocationUpdate` | src/services/socketService.js:27-46 | the new registry and emissions are those of `LocationUpdate`; the invariant is kept |
| `Presence.SocketService.HandleDisconnect` | src/services/socketService.js:48-63 | the new registry and emissions are those of `Disconnect`; the invariant is kept |
| `Client.MarkerView` | frontend/app.js:39-40 | the marker picture of the data is one marker per key, at that record's position |
| `Client.PlaceMarker` | frontend/app.js:61-75 | `updateMarker` leaves a marker for `id` at (lat, lng), creating it if absent, and no other marker changes |
| `Client.RemoveMarkerFrom` | frontend/app.js:78-83 | `removeMarker` drops that marker if present and keeps every other one |
| `Client.ToMap` | frontend/app.js:126 | the decoded snapshot holds every listed key, and the last entry's record under its key |
| `Client.ToMapKeys` | frontend/app.js:126 | the decoded snapshot has exactly the listed keys and no other |
| `Client.Records` | frontend/app.js:134 | `Object.values` of the snapshot lists each entry's record in order (one per entry, which matches `Object.values` because the server's snapshot keys are distinct) |
| `Client.PlaceAll` | frontend/app.js:134 | placing the records in order keeps every old marker key, adds a marker per record, and the last record's marker sits at its position |
| `Client.Receive` | frontend/app.js:123-156 | `current-users` makes the data the decoded snapshot. `receive-location` writes the one entry. `user-disconnected` deletes the id, and an unknown id changes nothing |
| `Client.KeepListed` | frontend/app.js:129-131 | the sweep keeps exactly the markers the snapshot lists, unchanged |
| `Client.PlaceAllOverrides` | frontend/app.js:133-134 | placing a well-keyed snapshot's markers overrides the old markers by exactly the snapshot's positions |
| `Client.SnapshotReplacesState` | frontend/app.js:123-134 | after `current-users` the data is exactly the snapshot. For a well-keyed snapshot, the markers are exactly one per snapshot key |
| `Client.MisKeyedSnapshotSplitsKeys` | frontend/app.js:126-134 | the handler relies on keys matching ids: a record for "b" under key "a" leaves data under "a" and a marker under "b" |
| `Client.ReceiveLocationTouchesOneEntry` | frontend/app.js:141-145 | `receive-location` sets the entry and marker for `id`, adds no other key to either dictionary, and keeps every other entry and marker |
| `Client.UserDisconnectedIsIdempotent` | frontend/app.js:149-156 | a known id leaves both dictionaries and nothing else changes; an unknown id is a no-op, so a repeated delivery has no effect |
| `Client.ReceivePreservesConsistency` | frontend/app.js:123-156 | every handler keeps markers in agreement with the data (same keys, right positions), given well-keyed snapshots |
| `Client.CountText` | frontend/app.js:90 | the count line is "Active Users: " followed by digits |
| `Client.CountTextReadsBack` | frontend/app.js:90 | the digits after the prefix read back as the number of entries |
| `Client.Initial` | frontend/app.js:101 | the initial is '?' for an empty name, otherwise the upper-cased first character, never a lower-case letter |
| `Client.InitialIgnoresCase` | frontend/app.js:101 | names differing only in ASCII case get the same initial |
| `Client.RenderUserList` | frontend/app.js:86-118 | the count is the number of entries; the placeholder shows exactly when there are none; one initial per entry |
| `Client.ClientMirror.constructor` | frontend/app.js:40-44 | both dictionaries start empty and consistent |
| `Client.ClientMirror.UpdateMarker` | frontend/app.js:61-75 | the markers become `PlaceMarker` of the old markers |
| `Client.ClientMirror.RemoveMarker` | frontend/app.js:78-83 | the markers become `RemoveMarkerFrom` of the old markers |
| `Client.ClientMirror.OnCurrentUsers` | frontend/app.js:123-138 | the page state becomes `Receive` of the old state and the snapshot |
| `Client.ClientMirror.ClearLocalUserData` | frontend/app.js:125 | the delete loop empties `localUserData` |
| `Client.ClientMirror.SweepMarkers` | frontend/app.js:129-131 | the loop leaves exactly the old markers whose keys are in the snapshot |
| `Client.ClientMirror.PlaceSnapshotMarkers` | frontend/app.js:134 | the loop places the snapshot's markers in order |
| `Client.ClientMirror.OnReceiveLocation` | frontend/app.js:141-146 | the page state becomes `Receive` of the old state and the record |
| `Client.ClientMirror.OnUserDisconnected` | frontend/app.js:149-156 | the page state becomes `Receive` of the old state and the id |
| `Sync.DeliveredOne` | src/services/socketService.js:18 | one event reaches a socket, as its message, exactly when it is broadcast to all or emitted on that socket |
| `Sync.Delivered` | src/services/socketService.js:18 | a socket receives at most the events emitted. Every message it receives comes from an event addressed to it or to all, and it receives one per event exactly when every event is so addressed |
| `Sync.DeliveredAppend` | src/services/socketService.js:44 | delivery distributes over consecutive runs of emissions |
| `Sync.ReceiveAll` | frontend/app.js:123-156 | handling messages one by one keeps the markers in agreement with the data while every snapshot is well keyed |
| `Sync.ReceiveAllAppend` | frontend/app.js:123-156 | handling two batches in turn is handling their concatenation |
| `Sync.Mirror` | frontend/app.js:39-44 | the page state that shows a registry is consistent |
| `Sync.ToMapOfEntries` | src/services/socketService.js:18 | decoding the serialised registry gives the stored records under the listed keys |
| `Sync.SnapshotIsRegistry` | src/services/socketService.js:18 | under the invariant the snapshot decodes to the registry itself and is well keyed |
| `Sync.ConnectKeepsMirror` | src/services/socketService.js:14-18 | the new page's state, whatever it was, becomes the registry; other pages receive nothing |
| `Sync.UpdateKeepsMirror` | src/services/socketService.js:43-45 | a page holding the registry still holds it after applying the broadcast update |
| `Sync.DisconnectKeepsMirror` | src/services/socketService.js:54-61 | a page holding the registry still holds it after applying the departure notice |
| `Sync.StepKeepsMirror` | src/services/socketService.js:14-63 | one handler run keeps a connected page equal to the registry |
| `Sync.RunKeepsMirror` | src/services/socketService.js:14-63 | a whole run of handlers keeps a connected page equal to the registry |
| `Sync.JoinedClientHoldsRegistry` | frontend/app.js:123-156 | a page that connects and stays connected holds exactly the registry, with one marker per participant at its position |
| `Groups.CharIndex` | src/services/groupService.js:10 | every code character has a position in the 36-character alphabet |
| `Groups.CharsLayout` | src/services/groupService.js:10 | the alphabet holds 'A'..'Z' at positions 0-25 and '0'..'9' at 26-35 |
| `Groups.AlphabetIndex` | src/services/groupService.js:13 | each drawn index selects a code character, whose position is that index |
| `Groups.GenerateGroupCode` | src/services/groupService.js:9-16 | the code has exactly six characters, each from A-Z0-9, character i being the alphabet entry at draw i |
| `Groups.CodeDeterminesDraws` | src/services/groupService.js:11-14 | a code determines the draws that made it |
| `Groups.CodeOf` | src/services/groupService.js:11-14 | the code a sequence of draws spells has six characters |
| `Groups.CodeOfMatches` | src/services/groupService.js:11-15 | the loop's result is the code the draws spell |
| `Groups.Single` | src/services/groupService.js:24 | `.single()` yields a row exactly when one row matched, and then that row |
| `Groups.GroupsWhere` | src/services/groupService.js:101-105 | an `.eq(column, value)` lookup on `groups` (by code or by id) returns exactly the rows with that value |
| `Groups.GroupsWhereCount` | src/services/groupService.js:101-105 | the lookup returns each matching row as many times as the table holds it, and no other row |
| `Groups.GroupsWhereAppend` | src/services/groupService.js:101-105 | the lookup keeps table order: filtering two stretches of the table in turn is filtering the whole |
| `Groups.Memberships` | src/services/groupService.js:66-71 | the membership lookup returns only the row for that group and user, once per copy the table holds, which is the count `.single()` tests |
| `Groups.MembersOfGroup` | src/services/groupService.js:108-111 | the members query returns only the group's membership rows, and no more rows than the table |
| `Groups.MembersOfGroupCount` | src/services/groupService.js:108-111 | each of the group's rows comes back as many times as the table holds it, and no row of another group |
| `Groups.MembersOfGroupAppend` | src/services/groupService.js:108-113 | the members query keeps table order, so `members.map` lists the group's rows in table order |
| `Groups.CodeTaken` | src/services/groupService.js:24-25 | a code the lookup reports as taken is the code of some group |
| `Groups.PickUniqueCode` | src/services/groupService.js:19-27 | the loop exits only with a valid code the lookup reports as free, the first such among the draws; no code means every draw was taken |
| `Groups.SetCurrentGroup` | src/services/groupService.js:50 | the update sets `current_group_id` of that user only, and only if it applied |
| `Groups.CreateWithCode` | src/services/groupService.js:29-52 | a group insert error changes nothing. A member insert error leaves the group row without a member. On success the group is added, the admin becomes a member, and `current_group_id` is set |
| `Groups.CreateGroup` | src/services/groupService.js:18-53 | a result exists exactly when some draw gave a free code, and it is `CreateWithCode` with a free valid code |
| `Groups.JoinGroup` | src/services/groupService.js:55-88 | the rejections are "Invalid Group Code" for an unknown code and "You are already in this group" for a member, and an insert error; none changes anything. A found code, a non-member and no insert error always succeed, and an insert error returns its own message. On success exactly one membership row is added, `current_group_id` is set, and the group id and name are returned |
| `Groups.UpperStringIdempotent` | src/services/groupService.js:60 | upper-casing twice is upper-casing once |
| `Groups.JoinIgnoresCodeCase` | src/services/groupService.js:60 | joining with the upper-cased code is the same as joining with the code as typed |
| `Groups.MembershipsCount` | src/services/groupService.js:66-71 | with no duplicate rows the lookup finds at most one row, and none for a non-member |
| `Groups.JoinKeepsMembershipsUnique` | src/services/groupService.js:65-85 | joining never introduces a duplicate membership row |
| `Groups.DuplicatedMembershipIsNotRefused` | src/services/groupService.js:66-73 | the check is "exactly one row": a pair already listed twice gets a third row |
| `Groups.NoGroupWhere` | src/services/groupService.js:24 | a lookup that no row matches returns nothing |
| `Groups.GroupsWithCodeCount` | src/services/groupService.js:24 | with unique codes the lookup returns at most one group |
| `Groups.CreateKeepsCodesUnique` | src/services/groupService.js:22-36 | while codes are unique, creating a group with a code reported free keeps them unique |
| `Groups.SharedCodeReadsAsFree` | src/services/groupService.js:24-25 | a code two groups share reads as free to the `.single()` lookup |
| `Groups.ProfileOf` | src/services/groupService.js:110-113 | the joined profile exists exactly when the user row does, and carries its name and picture path |
| `Groups.Profiles` | src/services/groupService.js:113 | one member entry per membership row: the joined user's profile, or none when the row is missing |
| `Groups.GetUserGroup` | src/services/groupService.js:90-114 | null for an unknown user or an empty current group. Otherwise a current group id that matches exactly one group row gives that group, with one member entry per membership row, in order. Any other lookup outcome gives the TypeError of `group.id` on null |
| `Groups.CreatedGroupIsTheAdminsGroup` | src/services/groupService.js:41-50 | after a successful create whose unchecked `current_group_id` update applied, the admin's group is the new group and the admin's profile is among its members |
| `Groups.UnappliedUpdateHidesCreatedGroup` | src/services/groupService.js:49-52 | when that update does not apply, the create still reports the new group, the `users` table is unchanged, and the admin's group is not the new one |
| `Groups.GroupsWithFreshId` | src/services/groupService.js:104 | a new group with an unused id is the only one found under it |
| `Users.BuildUpdates` | src/services/userService.js:21-32 | `updates` holds name/email exactly when they are truthy, with their values, and password exactly when truthy, as its hash. It has no other key |
| `Users.OldFileName` | src/services/userService.js:73-75 | the extracted name is the suffix after the last '/', containing no '/' |
| `Users.OldFileNameAfterSlash` | src/services/userService.js:74-75 | whatever follows a final '/' without a '/' of its own is what is extracted |
| `Users.OldFileNameWithoutSlash` | src/services/userService.js:74-75 | a path with no '/' is extracted whole |
| `Users.NewFileName` | src/services/userService.js:99 | the new name starts with "avatar_", ends with ".png", and its length is that of its parts |
| `Users.NewFileNameShape` | src/services/userService.js:99 | the new name starts with "avatar_", ends with ".png", and holds the user id, '_' and the timestamp in between |
| `Users.NewFileNameTimestamp` | src/services/userService.js:99 | the timestamp digits are what follows the last '_' |
| `Users.NewFileNameInjective` | src/services/userService.js:99 | distinct (user, timestamp) pairs give distinct names, even for ids containing '_' |
| `Users.NewFileNameReadsBack` | src/services/userService.js:114-123 | when the bucket URL ends in '/' and the user id has no '/', the public URL written to the row yields, on extraction, the uploaded name again |
| `Users.SlashInIdBreaksReadBack` | src/services/userService.js:73-75 | a user id containing '/' makes the extracted name differ from the uploaded one |
| `Users.UploadProfilePicture` | src/services/userService.js:60-131 | removal is attempted exactly when a stored path and a non-empty name exist. An upload error fails before the row is written. An update error fails with its message. Success returns the URL written to the row |
| `Users.SecondUploadRemovesFirst` | src/services/userService.js:70-84 | when the bucket URL ends in '/' and the user id has no '/', a second upload removes exactly the file the first uploaded |
| `Auth.ExtractToken` | src/middleware/authMiddleware.js:14 | with the "Bearer " prefix, prefix + token is the header; without it the token is the header |
| `Auth.ExtractTokenOfBearer` | src/middleware/authMiddleware.js:14 | stripping undoes prefixing |
| `Auth.JwtSecret` | src/middleware/authMiddleware.js:18 | the configured secret when truthy, else "secret_dev_key" |
| `Auth.Decide` | src/middleware/authMiddleware.js:3-28 | 401 "No token, authorization denied" exactly for a missing or empty header. 401 "Token is not valid" exactly when verification fails. Otherwise next with the decoded user |
| `Auth.BearerPrefixIsOptional` | src/middleware/authMiddleware.js:14-19 | a token is accepted or refused alike with or without the "Bearer " prefix |
| `Auth.Exchange.constructor` | src/middleware/authMiddleware.js:3 | a request nothing has answered |
| `Auth.Exchange.Authenticate` | src/middleware/authMiddleware.js:3-29 | exactly one of `next` or a 401 happens. On next `req.user` is the decoded user. On a 401 no user is set and the body carries the message |

## Left out

- Socket.io transport, Express routing, multer, the controllers, server wiring and configuration (server.js, src/sockets/socketManager.js, src/routes/*, src/controllers/*, src/config/*): plumbing without decisions of its own.
- src/services/authService.js is not part of this model: it is a sequence of lookups with bcrypt compare and jwt sign.
- `getUserById` and `deleteUser` in userService.js: single database calls that map an error to an exception.
- The `updateUser` database call itself, and the response it returns.
- Leaflet, popups, the DOM, `innerHTML`, `toFixed`, `toLocaleTimeString`, sidebar toggles and touch handling in both pages. A marker is reduced to the position it shows.
- The connection-status handlers of the pages, which only change text and CSS classes.
- Coordinates are `real`: floating-point behaviour, NaN included, is not modelled.
- `Object.keys` order is modelled as insertion order; JavaScript's rule that integer-like keys come first in ascending order is not.
- JavaScript key coercion (an absent `id` becoming the key "undefined") and payloads with missing or non-string fields are not modelled.
- Client.Initial: only ASCII letters are upper-cased, and `charAt(0)` is taken as the first character rather than the first UTF-16 unit; an absent `name` is treated like an empty one.
- Text.UpperString: `toUpperCase` is modelled on ASCII letters only.
- Text.AsciiUpper: JavaScript's `toUpperCase` also maps non-ASCII letters ('é' to 'É', dotless 'ı' to 'I'); the model keeps them, so a typed join code such as "ıABCDE" that would match "IABCDE" is not modelled as matching.
- The server sees only ids and socket ids: which clients are connected, and delivery failures, are not modelled; a broadcast is one event to all.
- Concurrency: each handler and each service call runs to completion before the next starts; interleaved awaits of two requests are not modelled.
- Groups.PickUniqueCode: the source retries forever; the model draws from a finite supply of random draws and reports when the supply is exhausted, so non-termination while every code is taken is not modelled.
- Groups.CreatedGroupIsTheAdminsGroup: proved only for a create whose `current_group_id` update at src/services/groupService.js:50 applied. The code does not check that update and reports success either way; Groups.UnappliedUpdateHidesCreatedGroup states what the admin then sees.
- Users.NewFileNameReadsBack: proved for a bucket URL ending in '/' and a user id without '/', such as a UUID. A '/' in the id makes the name extracted at src/services/userService.js:74-75 wrong (Users.SlashInIdBreaksReadBack).
- Users.SecondUploadRemovesFirst: proved under the same two conditions on the bucket URL and the user id.
- Groups.CreateKeepsCodesUnique: the code lookup at src/services/groupService.js:24 is assumed to succeed. A failed select leaves `data` null and reads as "free" whatever the table holds, so under a lookup failure the code can be handed out twice.
- Groups.JoinKeepsMembershipsUnique: the membership lookup at src/services/groupService.js:66-71 is assumed to succeed. A failed select leaves `existing` null, and the member would be inserted a second time.
- Groups.GetUserGroup: the user and members selects are assumed to succeed. A failed members select would make `members.map` throw a TypeError, which is not modelled.
- Users.UploadProfilePicture: `getPublicUrl` is modelled as the bucket's public URL prefix `base` followed by the file name; the update of the row is modelled by its reported error only.
- Supabase: tables are in-memory sequences and maps, ids assigned by the database and error outcomes are parameters, and `.single()` errors (none or several rows) read as "no data", as the code treats them.
- Users.BuildUpdates: `bcrypt.hash` is an abstract function, so "the stored password is never the plaintext" holds only as far as the hash differs from its input.
- The storage removal's own success or failure is only logged, so it is not an input of Users.UploadProfilePicture.
- `jwt.verify` is an abstract function that returns the payload or nothing; expiry and signature checking are inside it.
- Logging (`console.log`, `console.error`) is left out throughout.
