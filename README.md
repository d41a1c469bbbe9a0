# Chat server session and room engine, in Dafny

This project models the in-memory coordination core of a Socket.IO chat
server (`server/server.js`). The server keeps four structures at module
level:

- `users`: an insertion-ordered Map from user id to an online-user record
  (`id`, `username`, `socketId`, `status`, `currentRoom`, `lastSeen`);
- `messages`: a Map from room name to that room's message history;
- `rooms`: the four configured rooms `general`, `random`, `tech`, `gaming`;
- `typingUsers`: a Map from socket id to a typing indicator.

Each socket also remembers the room it last joined. Every socket event handler
is a method of the class `ChatServer` (module `Server`). A handler takes the
event's inputs, the `Socket` it runs for and a clock reading. It updates the
state and returns the emissions it makes, in order. An emission is a target,
an event name and a payload. The target is one of: the sender, one socket id,
a room, a room except the sender, everyone, or everyone except the sender.
The two GET lookups are functions over the same state.

Modules:

- `ChatTypes` (`chat_types.dfy`): records, payloads, emissions, the room list.
- `Presence` (`presence.dfy`): the `users` Map as an ordered sequence of
  records keyed by `id`. It provides `get`, `set`, `delete` and the lookup by
  username that private messages use.
- `History` (`history.dfy`): looking up a message by id, and the
  append-only relation between two snapshots of `messages`.
- `Reactions` (`reactions.dfy`): the reaction algorithm of
  `react_to_message`. The removal loop is a method. The whole step is a
  function with an outcome: success, or failure at the final push.
- `Broadcast` (`broadcast.dfy`): the notification preview and the loop
  that picks the users to notify.
- `Server` (`server.dfy`): `Socket`, `ChatServer` and its object invariant
  `Valid()`. The invariant says: one entry per user id, every user's
  `currentRoom` is a configured room, every configured room has a history,
  and every reaction tally puts each username under at most one symbol and
  holds no empty list.

Conventions. The clock reading `now` stands for `Date.now()` and
`new Date()`. Ids are its decimal string and timestamps are the reading
itself. For `data.room` and `data.type`, the empty string stands for a
missing (falsy) field. A private-message copy with `isOwn == false` stands
for the copy that has no `isOwn` field.

In these places the code does something a reader might not expect, and the
model follows the code:

- a room name outside the configured four is accepted by `send_message`,
  `upload_file`, the typing events and `react_to_message`; only `send_message`
  and `upload_file` create a history for it (server/server.js:189-191,
  304-306), while the typing events only touch `typingUsers` and
  `react_to_message` does nothing for a room without a history;
- the GET history of an unknown room is `[]`, not an error;
- a reaction tally lists usernames, not user ids;
- typing indicators are keyed by socket id and never expire;
- a reaction fails when nobody else holds the symbol (see Findings).

## Model

| member | source | states |
|---|---|---|
| `ChatTypes.DecimalString` | server/server.js:94 | a message id is a non-empty string of decimal digits whose value is the clock reading, with no leading zero; so distinct readings give distinct ids |
| `Presence.Lookup` | server/server.js:145-146 | `users.get`: the result is an entry of the registry under that id; nothing is found exactly when no entry has the id |
| `Presence.LookupFindsEntry` | server/server.js:325-326 | with one entry per id, the lookup returns exactly the entry that holds the id |
| `Presence.Put` | server/server.js:79-86 | `users.set`: an existing key keeps its position and only its own entry changes; a new key is appended at the end |
| `Presence.PutLookup` | server/server.js:79-86 | after `set` the key holds the new record and every other key holds what it held |
| `Presence.PutKeepsUniqueIds` | server/server.js:79-86 | `set` keeps one entry per user id |
| `Presence.Delete` | server/server.js:327 | `users.delete`: the id is no longer found; other ids are found as before; the remaining entries are the old ones without that id; ids stay unique; deleting an id nobody holds changes nothing |
| `Presence.DeleteAt` | server/server.js:327 | with one entry per id, deleting the id at position k removes exactly that entry and keeps the others in insertion order |
| `Presence.FindByUsername` | server/server.js:262 | the first entry in registry order with the username, or none exactly when no entry has it |
| `History.FindMessage` | server/server.js:232 | `find`: the first message with that id, or none exactly when no message has it |
| `History.ExtendsTransitive` | server/server.js:188-192 | append-only evolution of the histories composes across handlers |
| `History.HistoryOfGrows` | server/server.js:458-462 | once the histories have only grown, a later GET of a room's history starts with every message of an earlier one, in place, with only reactions changed |
| `Reactions.Without` | server/server.js:241-243 | `filter`: keeps exactly the other names; a list without the name is unchanged |
| `Reactions.WithoutConcat` | server/server.js:241-243 | `filter` works element by element: filtering a concatenation concatenates the filtered parts, so the order and the copies of other names are kept |
| `Reactions.WithoutSingleton` | server/server.js:241-243 | a one-name list is dropped when it holds the caller and kept whole otherwise |
| `Reactions.StrippedFacts` | server/server.js:240-247 | after the removal loop the caller is under no symbol, no list is empty, and every other name is under exactly its old symbols |
| `Reactions.StripReactor` | server/server.js:240-247 | the loop over the tally's keys computes the removal, whatever order it visits the keys in |
| `Reactions.StrippedIgnoresNewEmptyList` | server/server.js:235-247 | the empty list created for a new symbol never survives the removal loop |
| `Reactions.ReactSucceedsIff` | server/server.js:235-250 | the push succeeds if and only if the chosen symbol already has a reactor other than the caller |
| `Reactions.ReactSuccess` | server/server.js:229-256 | on success the caller is in the chosen list exactly once, as its last entry, and in no other list; no list is empty; other names keep exactly their symbols |
| `Reactions.ReactFailureRemovesCaller` | server/server.js:234-250 | on failure the caller has already been removed from every list and emptied lists are gone |
| `Reactions.ReactKeepsTallyValid` | server/server.js:229-258 | the reaction step, successful or not, keeps each name under at most one symbol and keeps no empty list |
| `Reactions.ReactIdempotent` | server/server.js:229-256 | reacting again with the same symbol after a success leaves the tally unchanged |
| `Reactions.FirstReactionFails` | server/server.js:234-250 | a first reaction on a message, with or without a tally, fails at the push and leaves `{}` |
| `Reactions.SoleReactorLosesReaction` | server/server.js:240-250 | re-choosing the symbol of which the caller is the sole reactor fails and removes the reaction |
| `Reactions.IntendedReact` | server/server.js:229-256 | the corrected step: the caller ends as the last entry of the chosen list, exactly once, in no other list, with others unchanged and no list empty |
| `Reactions.ReactAgreesWithIntended` | server/server.js:229-256 | whenever the code as written succeeds, it computes the corrected tally |
| `Reactions.IntendedIdempotent` | server/server.js:229-256 | the corrected step is idempotent for one symbol |
| `Reactions.IntendedSwitchesSymbol` | server/server.js:229-256 | with the corrected step, from any tally, reacting with one symbol and then another leaves the caller last under the second symbol and under no other; the first symbol's list survives exactly when somebody else held it |
| `Broadcast.Preview` | server/server.js:204 | the preview is the text when it has at most 50 characters; otherwise it is the first 50 characters followed by "..." |
| `Broadcast.NotifiedSocketsExactly` | server/server.js:198-199 | a socket is notified if and only if some user with that socket is in another room and is not the sender's socket |
| `Broadcast.Notifications` | server/server.js:198-208 | the loop emits one notification per notified user, in registry order, all carrying the same preview |
| `Server.Socket.constructor` | server/server.js:63-67 | a socket carries the id and identity fixed by the token check, and has no room yet |
| `Server.ChatServer.constructor` | server/server.js:43-54 | the server starts with no users, no typing indicators and an empty history for each configured room |
| `Server.ChatServer.RoomHistory` | server/server.js:458-462 | GET history: the stored history of the room, or `[]` for an unknown room; on a valid server every message it returns has a well-formed tally |
| `Server.ChatServer.OnlineUsers` | server/server.js:465-467 | GET online users: every registry entry, one per user id, each in a configured room |
| `Server.ChatServer.Connect` | server/server.js:75-128 | exactly one entry under the user id, replacing any earlier one in place, with room "general"; one welcome message appended to "general" and other histories unchanged; the socket's room is "general"; the four emissions in order |
| `Server.ChatServer.JoinRoom` | server/server.js:131-173 | an unconfigured name gets an error for the caller only and changes nothing; a configured name sets the socket's and the user's room and returns exactly that room's history; the join notice is broadcast but not stored |
| `Server.ChatServer.SendMessage` | server/server.js:176-209 | one message appended at the end of the target room's history, with type defaulting to "text" and an empty tally; a new room gets a one-element history; other rooms untouched; then one notification per notified user |
| `Server.ChatServer.TypingStart` | server/server.js:212-218 | sets the one typing indicator of this socket and tells the room except the sender |
| `Server.ChatServer.TypingStop` | server/server.js:220-226 | removes this socket's typing indicator, present or not, and tells the room except the sender |
| `Server.ChatServer.ReactToMessage` | server/server.js:229-258 | an unknown room or message id changes nothing and emits nothing; otherwise the first message with the id gets the reaction step's tally; on failure nothing is broadcast and the removal stays; on success the full tally goes to the room |
| `Server.ChatServer.SendPrivateMessage` | server/server.js:261-287 | the first registry entry with the name gets the message once, and the sender gets a copy marked as its own; with no match only the sender gets an error; no state changes |
| `Server.ChatServer.UploadFile` | server/server.js:290-310 | one "file" message carrying the file reference is appended to the target room and sent to the room |
| `Server.ChatServer.MarkMessageRead` | server/server.js:313-319 | a read receipt goes to everyone except the sender; no state changes |
| `Server.ChatServer.Disconnect` | server/server.js:322-351 | the entry under the socket's user id is removed whatever socket it records, and so is this socket's typing indicator; departure notices go out only when an entry existed |
| `Server.ChatServer.Reconnect` | server/server.js:354-370 | the stored entry takes this socket's id and is marked online in place; the reply carries the entry's room and exactly that room's history |

## Left out

- Token verification (server/server.js:57-73): the `Socket` constructor takes
  the verified user id and username as inputs.
- Registration and login (server/server.js:374-436), password hashing, token
  signing and the credential policy.
- The upload route and disk storage (server/server.js:27-40, 439-455):
  `upload_file` takes the file name and URL as inputs.
- The Socket.IO transport: room `join`/`leave` bookkeeping inside the
  library, delivery and its order. Emissions are returned records only.
- Logging (`console.log`) and the `reason` and `attemptNumber` arguments,
  which are only logged.
- Clock values: one reading per handler call stands for every `Date.now()`
  and `new Date()` in it, and ISO time formatting is not modelled. Id
  uniqueness is not claimed; ids can repeat and the first match wins.
- Message objects are values: a reaction writes the updated message back into
  its history. Sharing of message objects between the history and earlier
  payloads is not modelled.
- The key order of a reaction tally (a JS object) is not modelled. Neither are
  symbols that name inherited object properties such as `constructor`.
- What happens after the TypeError of a failed reaction escapes the handler
  (the transport or the process) is not modelled; the handler reports
  `crashed` and stops.
- A missing `data.text` (which makes `substring` throw) and other non-string
  inputs are not modelled; every input field is a string.
- String lengths count Dafny characters, not UTF-16 code units.
- The client (`client/src/socket/socket.js`) is not part of this model.

## Findings

| source | as written | input that shows it | evidently intended | confidence | as-written member | corrected member |
|---|---|---|---|---|---|---|
| server/server.js:235-250 | the list created for a symbol with no other reactor is deleted by the cleanup loop, then `push` runs on the deleted key and throws | the first reaction on any message, e.g. `React(Some(map[]), "\U{1F602}", "alice")`; or re-choosing a symbol of which the caller is the sole reactor. Every message starts with no tally or `{}`, and a failure from such a tally leaves `{}`, so in the code as written no reaction ever succeeds | the caller becomes the symbol's only reactor, e.g. `{😂: ["alice"]}` | not executed | `Reactions.FirstReactionFails` (with `Reactions.ReactSucceedsIff`) | `Reactions.IntendedReact` (with `Reactions.ReactAgreesWithIntended`, `Reactions.IntendedIdempotent`) |

`Server.ChatServer.ReactToMessage` keeps the behaviour as written, because
it models the handler: the failed push is a `crashed` outcome after the
removal, with nothing broadcast. `Reactions.IntendedReact` is the corrected
step. It is proved to agree with the code on every input where the code
succeeds.
