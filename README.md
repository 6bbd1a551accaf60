# Presence registry, chat relay and contact filters

This project models the two pieces of logic in a small contact-manager and
chat application.

The first is the backend's real-time relay (`backend/index.js`). A plain
object `users` maps a user id to the socket id that last joined under it.
Four Socket.IO handlers act on it:

- `join` stores the joining socket under the user id. The last join wins.
- `chat` looks up the recipient. If the lookup is truthy, it emits the
  message unchanged to that socket. Otherwise the message is dropped.
- `typing` does the same lookup. It forwards only `{ from, typing }`.
- `disconnect` walks the keys in iteration order. It deletes the first key
  whose value is the closing socket's id, then stops.

The registry is a sequence of `(user, socket)` entries in key-insertion
order, because `disconnect` depends on that order (module `Presence`). The
handlers are the methods of the class `Relay.Server`. The class holds the
registry and a log `sent` of every `io.to(socket).emit(event, payload)`.
`Disconnect` is the `for...in` loop with its `break`. Each method is proved
against a function of the old state: `Assign`, `RemoveSocket`, `ChatEmits`
or `TypingEmits`. The lemmas in `Presence` prove what those functions
promise. Four client methods use only the class contracts: `DirectMessage`
(one user sends to another who is online), `OfflineRecipient` (a message to
a user who never joined, or whose socket closed), `Reconnect` (a user
re-joins from a new socket and the old one closes) and `TypingInOrder` (two
typing signals in a row).

The second piece is the home page's contact list (`src/Home.js`), in module
`Contacts`:

- `filteredContacts` keeps the contacts whose lower-cased name contains the
  lower-cased search text. When an industry filter is selected, the
  contact's industry must also equal it.
- `handleDeleteContact` drops the contact with a given `_id` from the list.

Both are `Array.prototype.filter` calls. `Filter` models that library
function once, with its lemmas. `FilteredContacts` and `RemoveContact`
instantiate it with the two callbacks.

Three details of the code that the model keeps:

- `join` stores any id, including `""`; nothing rejects it.
- `disconnect` deletes only the first key holding the closing socket. A
  socket that joined under two ids keeps the second one registered
  (`DisconnectLeavesLaterAlias`).
- `chat` and `typing` forward only when `users[to]` is truthy, so an entry
  whose socket id is `""` counts as absent (`Recipient`).

## Model

| member | source | states |
|---|---|---|
| Presence.IndexOfUser | backend/index.js:229 | the result is the first position whose key is the user, or -1 exactly when no key is the user |
| Presence.IndexOfSocket | backend/index.js:248-249 | the result is the first position, in key order, whose value equals the socket id, or -1 exactly when no value does |
| Presence.Lookup | backend/index.js:229 | `users[u]` is undefined exactly when `u` is not a key; otherwise it is the value stored under `u` |
| Presence.Assign | backend/index.js:221 | `users[u] = s`: the key holds `s` afterwards, every other entry stays at its position, and the registry grows only for a new key; pinned down index by index by JoinKeepsOrder, JoinLastWins and JoinKeepsOthers |
| Presence.RemoveSocket | backend/index.js:248-253 | the delete-and-break walk: one entry fewer exactly when some key holds the socket, nothing added, every entry on another socket kept; pinned down by DisconnectRemovesFirstMatch and DisconnectLookup |
| Presence.LookupFindsEntry | backend/index.js:229 | in a registry with unique keys, the lookup of any key gives the socket stored under it |
| Presence.LookupIffMapsTo | backend/index.js:241 | in a registry with unique keys, a lookup gives `s` exactly when the key holds `s` |
| Presence.JoinLastWins | backend/index.js:220-221 | after a join of `u` on `s`, `u` resolves to `s`, whatever it held before |
| Presence.JoinKeepsOthers | backend/index.js:221 | a join does not change what any other user id resolves to |
| Presence.JoinKeepsOrder | backend/index.js:221 | an existing key keeps its position and only its value changes; a new key is appended last; nothing else moves |
| Presence.JoinKeepsDistinct | backend/index.js:221 | a join keeps keys unique |
| Presence.JoinTwice | backend/index.js:221 | two joins of one user id leave exactly the registry that the second join alone would |
| Presence.DisconnectRemovesFirstMatch | backend/index.js:248-253 | when no key holds the socket, a disconnect leaves the registry unchanged; otherwise it deletes exactly the first key holding the socket and keeps the others in order |
| Presence.DisconnectedUserHeldSocket | backend/index.js:249-250 | some key is deleted exactly when some key holds the socket, and the deleted key resolved to that socket |
| Presence.DisconnectLookup | backend/index.js:248-253 | after a disconnect, the deleted key resolves to nothing and every other key resolves as before |
| Presence.DisconnectKeepsDistinct | backend/index.js:250 | a disconnect keeps keys unique |
| Presence.DisconnectLeavesLaterAlias | backend/index.js:248-253 | when one socket holds two keys, a disconnect deletes only the first; the later key still resolves to the closed socket |
| Presence.RejoinSurvivesStaleDisconnect | backend/index.js:220-255 | join on `s1`, re-join on `s2`, then `s1` disconnects: the user still resolves to `s2`; if nothing else held `s1`, the registry is exactly what the second join alone makes |
| Relay.Recipient | backend/index.js:229-230 | there is a recipient exactly when the key holds a non-empty socket id, and the recipient is that socket |
| Relay.ChatEmits | backend/index.js:225-232 | at most one emit, exactly when the recipient is online; it goes to the recipient's socket, is named `chat` and carries the message unchanged |
| Relay.TypingEmits | backend/index.js:239-244 | at most one emit, exactly when the recipient is online; it goes to the recipient's socket, is named `typing` and carries only `{ from, typing }` |
| Relay.Server.constructor | backend/index.js:215 | the registry starts empty and nothing has been sent |
| Relay.Server.Join | backend/index.js:220-223 | the registry becomes `Assign(old, userId, socket)`; the user resolves to the socket; every other user resolves as before; nothing is sent |
| Relay.Server.Chat | backend/index.js:225-237 | the registry is unchanged and the log grows by exactly `ChatEmits` of the registry |
| Relay.Server.Typing | backend/index.js:239-245 | the registry is unchanged and the log grows by exactly `TypingEmits` of the registry |
| Relay.Server.Disconnect | backend/index.js:247-255 | the loop leaves the registry equal to `RemoveSocket(old, socket)`; keys stay unique; nothing is sent |
| Relay.DirectMessage | backend/index.js:220-232 | with two users online, a message from one to the other reaches exactly the recipient's socket, unchanged |
| Relay.OfflineRecipient | backend/index.js:220-255 | a message to a user who never joined, or whose only socket closed, is sent nowhere |
| Relay.Reconnect | backend/index.js:220-255 | after a re-join from a new socket and the close of the old one, a message reaches the new socket and only it |
| Relay.TypingInOrder | backend/index.js:220-245 | two typing signals to an online user are emitted to its socket in the order received |
| Contacts.Filter | src/Home.js:81-84 | `Array.prototype.filter`: no longer than its input, and every kept element is from the input and passes the callback; pinned down by FilterCount and FilterIsSubsequence |
| Contacts.FilterIsSubsequence | src/Home.js:81-84 | a filter's result is a subsequence of its input: same order, no element repeated |
| Contacts.FilterCount | src/Home.js:81-84 | a filter keeps every occurrence of an element that passes the callback and none of one that fails |
| Contacts.FilterIdempotent | src/Home.js:81-84 | filtering twice with the same callback gives the same result as filtering once |
| Contacts.FilterKeepsAll | src/Home.js:81-84 | a filter that every element passes returns its input |
| Contacts.ToLower | src/Home.js:82 | lower-casing keeps the length, lowers each ASCII capital and leaves no ASCII capital |
| Contacts.Includes | src/Home.js:82 | `s.includes(t)` needs `t` no longer than `s` and always holds for `t == ""`; pinned down by IncludesIffOccurs |
| Contacts.IncludesIffOccurs | src/Home.js:82 | `s.includes(t)` holds exactly when `t` occurs in `s` at some position |
| Contacts.IncludesEmpty | src/Home.js:82 | every string includes the empty string |
| Contacts.Matches | src/Home.js:82-83 | the callback of `filteredContacts` holds exactly when the lower-cased name contains the lower-cased search text at some position and, when a filter is set, the industry equals it |
| Contacts.FilteredContacts | src/Home.js:81-84 | no more contacts than listed, each of them listed and matching; pinned down by FilteredExactly and FilteredIsSubsequence |
| Contacts.RemoveContact | src/Home.js:69 | no more contacts than listed, each of them listed and with an id other than the deleted one; pinned down by RemoveContactSpec |
| Contacts.FilteredIsSubsequence | src/Home.js:81-84 | the shown contacts are a subsequence of all contacts |
| Contacts.FilteredExactly | src/Home.js:81-84 | a contact is shown as often as it is listed when its name matches the search and, if a filter is set, its industry equals the filter; otherwise it is not shown |
| Contacts.FilteredSound | src/Home.js:82-83 | every shown contact's lower-cased name contains the lower-cased search text, and its industry equals a non-empty filter |
| Contacts.FilteredComplete | src/Home.js:81-84 | every listed contact that matches the search, and the filter when one is set, is shown |
| Contacts.EmptyQueryShowsAll | src/Home.js:82-83 | with empty search text and no filter, the shown list is the whole list |
| Contacts.FilteredIdempotent | src/Home.js:81-84 | filtering the shown list again with the same search and filter changes nothing |
| Contacts.RemoveContactSpec | src/Home.js:69 | after a delete no contact has the id; every other contact is kept as often as before, in order |
| Contacts.RemoveAbsentContact | src/Home.js:69 | deleting an id that no contact has leaves the list unchanged |

## Left out

- The Express routes (`backend/index.js:48-212`): signup, login, token verification and contact create, read, update and delete. They are MongoDB I/O around the `email-validator`, `bcryptjs` and `jsonwebtoken` libraries, whose code is not part of this model.
- The HTTP server, the Socket.IO server, `startServer` and the database connection (`backend/index.js:13-16`, `217`, `258-272`). Socket ids are opaque strings. `io.to(id).emit(...)` is only an append to `Server.sent`, and whether the transport delivers is not modelled.
- Concurrency: Node runs each handler to completion, so each handler is one atomic method. Interleavings are not modelled.
- The `console.log` lines and the `connection` log message: observability only.
- JavaScript key conversion: `users[userId]` converts a non-string id with `String(...)`. The model takes ids that are already strings.
- Keys that name `Object.prototype` properties: `users["constructor"]` is truthy through inheritance, and assigning `users["__proto__"]` does not create a key. The model treats every id as an ordinary own key.
- Key order: `for...in` lists integer-like keys first, in ascending order, before the other keys in insertion order. The model uses plain insertion order for every key.
- Malformed events: a `null` or `undefined` chat message or typing event throws when it is destructured. The model takes well-formed records. Extra message fields are string-valued, and `typing` is a boolean, whereas JavaScript forwards any value.
- Contacts.ToLower: lowers only the ASCII capitals `A`-`Z`. JavaScript's `toLowerCase` applies the full Unicode case mapping, which can also change a string's length.
- A contact without a `name` makes `toLowerCase` throw. The model's contacts always have string fields.
- The rest of `src/Home.js`: the `axios` calls, `prompt` and `alert`, rendering, and the client socket listeners. The typing listener at `src/Home.js:30` tests `data.to`, which the server never forwards (`backend/index.js:243`). So as written the typing indicator never shows. That listener is not part of this model.
- `src/App.js`: form state, notifications, `localStorage`, HTTP calls and navigation. Its checks (non-empty fields, matching passwords) are tied to UI side effects.
