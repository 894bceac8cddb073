# Chat backend: gateway, contact service and auth service

A Dafny model of the core of a NestJS chat backend:

- the websocket **chat gateway** (`src/chat/chat.gateway.ts`):
  - a registry from user id to the socket that last authenticated as that user;
  - presence written to the user table on connect and disconnect;
  - the online-friends query;
  - message send, with a push to the other party of a two-party contact;
  - the bounded, time-ordered history read;
- the **contact service** (`src/contacts/contacts.service.ts`):
  - a user's contact lists;
  - one contact resolved by id, or by the sentinel `0` that means "my notes";
  - contact creation, which makes the participants friends of each other before it inserts the contact;
- the **auth service** (`src/auth/auth.service.ts`):
  - registration, which also seeds the user's "Notes" conversation;
  - login;
  - lookup of one user;
  - the username search.

## How it is modelled

- **The database** is one value, `Store.Db`, with three tables: `users`, `contacts` and `messages`.
  - No operation deletes a row, and the model assumes that no insert uses up an id without storing its row. Under those two assumptions an autoincrement id is a row's position plus one (see "## Left out").
  - `Store.Valid` is the invariant the modelled operations keep. Part of it the database enforces, and part of it holds only because every write goes through these operations:
    - autoincrement ids;
    - unique usernames;
    - relations that point at existing rows;
    - member sets without repetition;
    - a `messageCount` equal to the number of the contact's messages. This is a plain column that a separate write bumps after each message (src/chat/chat.gateway.ts:156-163); the equality is kept by the operations, not by the database.
  - Every operation is proved to keep `Store.Valid`.
- **One `Contact` record carries both views of a contact.**
  - The services write `ownerId` and `members`.
  - The gateway reads the two-party columns `userId` and `contactId`, which the services never set.
- **The gateway is a class.** `Chat.ChatGateway` holds the registry `clients: map<int, Socket>` and the store.
  - A `Chat.Socket` is a class with an outbox of emitted events and a `disconnected` flag.
  - `emit` appends to the outbox; `disconnect()` sets the flag.
- **The two services hold no state of their own.**
  - Their operations take the store as a value and return the new store with the result.
  - The loop of `addContact` and the step sequences of `registerUser` and `login` are methods; the lookups and filters are functions.
- **JavaScript truthiness is written out.** An absent or zero id is falsy (`Base.TruthyId`), and so is an absent or empty string (`Base.TruthyText`).
- **Foreign code and the clock are parameters.**
  - The JWT verifier is the gateway's `verify`; the JWT signer is the `sign` parameter of `Login`.
  - bcrypt is the `hash` and `compare` parameters.
  - The clock is a `now` parameter.
- **Errors are values.** Exceptions are `Err` results; an exception raised by the database itself is `StoreFailure`.

## Behaviour worth knowing

- **History.** `fetchMessages` returns the **48 oldest** messages of the contact in ascending `createdAt`. The handler takes no page number, so messages after the 48 oldest can never be read. `Chat.History` proves that min(48, n) of a contact's n messages come back, and `Chat.HistoryEarliest` that nothing omitted is older than what is returned.
- **Status query.** `getStatus` emits `userStatuses`, the list of the requester's friends that are connected, whatever the body names; `contactStatus` is sent only on connection.
- **Send checks no membership.** Only `fetchMessages` checks the requester against the contact, and it checks the two-party columns, not `members`. A contact made by the services sets neither column, so its history can never be fetched (`Chat.IsParty`).
- **`take: 12` in `getContact` bounds users, not contacts.** The query selects users by id, so in a valid store it yields one row or none (`ContactsService.GetContactSingleRow`).
- **Passwords leave the service.** `getContactInfo` includes the member rows as stored, password hashes included (`ContactsService.ContactInfoKeepsPasswords`).
- **A stale socket's disconnect evicts a newer socket.**
  - A second connection of the same user replaces the registry entry without closing the first socket.
  - When the first socket then disconnects, it removes the entry, which by then holds the newer socket, and writes the user offline (`Chat.ChatGateway.HandleDisconnect`).
- **The notes conversation is shared.** It is owned by user 1 and has both the new user and user 1 as members.
  - So user 1 is a member of every user's notes conversation.
  - The first user ever registered is user 1, so their own notes conversation connects user 1 twice; assuming the relation stores the pair once, it has one member.
- **`addContact` refuses every registered user.**
  - Registration puts every user in a contact (their notes), and `addContact` refuses any user who owns or belongs to a contact.
  - `AuthService.RegisterUser` proves that registration keeps "every user is involved in some contact" true, and `ContactsService.AddContact` proves that under that condition it always refuses and changes nothing. An empty store meets the condition vacuously.
- **`addContact` is not atomic.** The friend lists are written before `contact.create`, which fails when a participant does not exist. The friend writes then stay while the call reports "Error creating contact" (`ContactsService.AddContact`).

## Model

| member | source | states |
|---|---|---|
| Seqs.Dedup | src/contacts/contacts.service.ts:60 | `[...new Set(s)]`: no repetition, exactly the values of the input, no longer than it |
| Seqs.DedupPrefix | src/contacts/contacts.service.ts:60 | insertion order is kept: de-duplicating a prefix gives a prefix of the result |
| Seqs.DedupOfNoDup | src/contacts/contacts.service.ts:60 | a list without repetition is its own de-duplication, so the model stores the connected members in the given order (the relation itself is unordered) |
| ContactsService.Participants | src/contacts/contacts.service.ts:60 | the participants have no repetition, start with the requester, and are exactly the requester and the given ids |
| ContactsService.ParticipantsInOrder | src/contacts/contacts.service.ts:60 | the given ids keep their order of first occurrence: the participants of a prefix of the ids are a prefix of the participants |
| Seqs.Take | src/chat/chat.gateway.ts:210 | `take: n` returns the first min(n, length) rows, a prefix of the input |
| Seqs.FindFirst | src/contacts/contacts.service.ts:30-36 | `findFirst` returns the first row that satisfies the filter, or none when no row does |
| Text.IndexFrom | src/chat/chat.gateway.ts:55 | the first occurrence of the pattern at or after a position, or none when there is none |
| Text.Contains | src/auth/auth.service.ts:103-105 | `contains` holds exactly when the pattern occurs somewhere in the string |
| Text.ReplaceFirst | src/chat/chat.gateway.ts:55 | `String.replace` with a string pattern and a replacement without `$` patterns (line 55 passes `''`): unchanged without an occurrence; otherwise the first occurrence is replaced by the replacement text and the text around it is kept |
| Text.StripBearer | src/chat/chat.gateway.ts:55 | the token is the header with its first `"Bearer "` removed: a header without the marker is passed as it is, and one with it loses exactly seven characters |
| Text.StripBearerOfHeader | src/chat/chat.gateway.ts:55 | the token of the header `"Bearer " + t` is `t` |
| Text.StripBearerRemovesFirstOnly | src/chat/chat.gateway.ts:55 | only the first `"Bearer "` is removed, wherever it occurs, and the rest of the header is kept |
| Store.MessagesOf | src/chat/chat.gateway.ts:205-208 | the messages of a contact are exactly the rows with that `contactId` |
| Store.MessagesOfAppend | src/chat/chat.gateway.ts:148-154 | a new row extends exactly the log of its own contact |
| Store.UserIndex | src/chat/chat.gateway.ts:87-89 | `user.findUnique({ where: { id } })` finds a row with that id, or there is none |
| Store.UsernameIndex | src/auth/auth.service.ts:63-65 | `user.findUnique({ where: { username } })` finds a row with that username, or there is none |
| Store.ContactIndex | src/chat/chat.gateway.ts:122-124 | `contact.findUnique({ where: { id } })` finds a row with that id, or there is none |
| Store.UserIndexOfValid | src/chat/chat.gateway.ts:87-89 | with autoincrement ids, the user with id k is row k - 1 and exists exactly when 1 <= k <= number of users |
| Store.ContactIndexOfValid | src/chat/chat.gateway.ts:192-194 | in a valid store the contact with id k is row k - 1 and exists exactly when 1 <= k <= number of contacts |
| Store.UpdateUser | src/chat/chat.gateway.ts:61-64 | `user.update` of columns other than id and username keeps the store valid |
| Store.PushFriend | src/contacts/contacts.service.ts:81-88 | `friends: { push }` keeps the store valid |
| Store.CreateUser | src/auth/auth.service.ts:30-36 | `user.create` succeeds exactly when the username is free, and then the store stays valid |
| Store.CreateContact | src/contacts/contacts.service.ts:109-116 | `contact.create` with `connect` succeeds exactly when every member exists; the new row is appended with the next id, the members once each and no messages; the store stays valid |
| Store.CreateContactValid | src/contacts/contacts.service.ts:109-116 | appending the new contact keeps every relation pointing at existing rows |
| Store.NewContact | src/contacts/contacts.service.ts:109-116 | the inserted row takes the next id, the given owner, name and avatar, each member once and exactly the given member ids, no two-party columns and a `messageCount` of 0 |
| Store.NewContactHasNoMessages | src/contacts/contacts.service.ts:109-116 | no message refers to the id the next contact gets, so its `messageCount` of 0 is right |
| Store.AppendMessage | src/chat/chat.gateway.ts:148-163 | `message.create` appends one row with the next id, keeps the earlier messages and the users, and keeps the number of contacts |
| Store.AppendMessageEffect | src/chat/chat.gateway.ts:148-163 | a send adds exactly one message with the given content, owner, contact and time, at the end of that contact's log and of no other; that contact's `messageCount` goes up by one; users and other contacts are unchanged |
| Store.AppendMessageValid | src/chat/chat.gateway.ts:148-163 | a send by an existing user to an existing contact keeps the store valid: `messageCount` keeps counting the contact's messages |
| Chat.Socket.constructor | src/chat/chat.gateway.ts:44-45 | a new connection carries its handshake header, no user id, an empty outbox and is open |
| Chat.Socket.Emit | src/chat/chat.gateway.ts:66 | `emit` appends exactly one event to the socket's outbox |
| Chat.Socket.Disconnect | src/chat/chat.gateway.ts:50 | `disconnect()` closes the socket |
| Chat.OnlineAmong | src/chat/chat.gateway.ts:96-105 | the reported ids are exactly the friends that have a registry entry |
| Chat.OnlineAmongConcat | src/chat/chat.gateway.ts:98-103 | the filter keeps the order of the friends list: it distributes over concatenation |
| Chat.OnlineAmongAllOnline | src/chat/chat.gateway.ts:98-103 | when every friend is connected, the whole friends list is reported, order and repetitions included |
| Chat.ReceiverId | src/chat/chat.gateway.ts:165-167 | the receiver is one of the contact's two parties; when the sender is a party of a contact with two distinct parties, the receiver is the other party, never the sender |
| Chat.IsParty | src/chat/chat.gateway.ts:196-199 | the fetch guard; a contact without the two-party columns admits nobody |
| Chat.ReceiverIsOtherParty | src/chat/chat.gateway.ts:165-167 | the push goes to the other party of a two-party contact; a sender who is neither party pushes to the `userId` party |
| Chat.ReceiverOfServiceContact | src/chat/chat.gateway.ts:165-170 | a contact the services created has no `userId`, so a send on it pushes to nobody but the sender |
| Chat.InsertByCreatedAt | src/chat/chat.gateway.ts:209 | inserting into a time-ordered list keeps it ordered and adds exactly the one message |
| Chat.SortByCreatedAt | src/chat/chat.gateway.ts:209 | `orderBy: { createdAt: 'asc' }` returns the same rows in ascending time |
| Chat.History | src/chat/chat.gateway.ts:204-211 | the history holds exactly min(48, n) of the contact's n messages, all of the requested contact, in ascending `createdAt` |
| Chat.HistoryEarliest | src/chat/chat.gateway.ts:204-213 | the history is the oldest part of the contact's log: every omitted message is at least as new as every returned one, and a contact with at most 48 messages gets all of them |
| Chat.TakeOfSortedEarliest | src/chat/chat.gateway.ts:209-210 | `take` after `orderBy` ascending keeps the oldest messages: every dropped message is at least as new as every kept one, and nothing is dropped from a list within the bound |
| Chat.ChatGateway.constructor | src/chat/chat.gateway.ts:24-29 | the gateway starts with an empty registry over a valid store |
| Chat.ChatGateway.Recipient | src/chat/chat.gateway.ts:165-168 | the socket a send pushes to is `clients[receiver id]`, the registry entry of the contact's other party; there is one exactly when the contact exists, has a receiver for that sender, and the receiver has a registry entry |
| Chat.ChatGateway.HandleConnection | src/chat/chat.gateway.ts:44-81 | no header: the socket is closed and nothing else changes. Otherwise the header minus its first "Bearer " goes to the verifier; rejection closes the socket and changes nothing else. A decoded id is attached to the socket. An existing user is marked online, the socket is sent `contactStatus {isOnline: true}`, and the registry entry for that id becomes this socket, replacing any earlier one. An unknown id closes the socket and changes nothing else. The gateway stays valid |
| Chat.ChatGateway.HandleDisconnect | src/chat/chat.gateway.ts:31-42 | a socket with a truthy user id removes that id's registry entry, whichever socket it holds, and that user is written offline with `lastOnline = now`. When the id names no user, the entry is still removed, the store is unchanged, and the uncaught failure of the offline write is reported as `StoreFailure`. A socket without a user id changes nothing |
| Chat.ChatGateway.CollectOnline | src/chat/chat.gateway.ts:96-103 | the `forEach` loop collects exactly the friends with a registry entry, in friends order |
| Chat.ChatGateway.HandleGetUserStatus | src/chat/chat.gateway.ts:83-106 | an existing user is sent `userStatuses` with their connected friends in friends order; otherwise nothing is sent; nothing else changes |
| Chat.ChatGateway.HandleMessage | src/chat/chat.gateway.ts:108-176 | falsy sender or contact id: the socket is closed and no message is created. An unknown contact is ignored. An unknown sender closes the socket and no message is created. Otherwise the store becomes the store with the message appended and `messageCount` bumped. The stored message is pushed to the receiver's registered socket, if any, and echoed to the sender (twice when the sender is its own receiver). The receiver's socket is never closed. The registry is unchanged; there is no membership check |
| Chat.ChatGateway.HandleFetchMessages | src/chat/chat.gateway.ts:178-218 | falsy ids close the socket. An unknown contact, or a requester who is neither its `userId` nor its `contactId`, gets nothing. Otherwise the requester is sent exactly the contact's history. The store and the registry are unchanged |
| ContactsService.UsersWithId | src/contacts/contacts.service.ts:11-13 | the filter `where: { id }` keeps exactly the users with that id |
| ContactsService.ContactsOf | src/contacts/contacts.service.ts:13 | the `contacts` relation of a user, taken to be the contacts having the user as a member, is exactly those contacts |
| ContactsService.GetContact | src/contacts/contacts.service.ts:9-23 | at most 12 rows, each the contacts of the requested user |
| ContactsService.UsersWithIdOfValid | src/contacts/contacts.service.ts:11-13 | with autoincrement ids the filter by id yields the one row `id - 1` or nothing |
| ContactsService.GetContactSingleRow | src/contacts/contacts.service.ts:9-15 | `getContact` yields one row for an existing user and none otherwise |
| ContactsService.MemberRows | src/contacts/contacts.service.ts:35 | `include: { members: true }` loads exactly the user rows whose ids are members |
| ContactsService.GetContactInfo | src/contacts/contacts.service.ts:25-49 | sentinel 0: found exactly when some contact owned by user 1 has the requester as a member, and what is returned is such a contact. Any other id: found exactly when a contact has that id, and the returned contact has it. The result carries its member rows |
| ContactsService.ContactInfoKeepsPasswords | src/contacts/contacts.service.ts:35-41 | the members are returned as stored rows, password hashes included |
| ContactsService.Missing | src/contacts/contacts.service.ts:79-80 | the participants the snapshot of the requester's friends lacks are exactly those to be pushed |
| ContactsService.Involved | src/contacts/contacts.service.ts:63-69 | the `findFirst` with the OR filter finds a row exactly when some contact has the user as owner or member; in particular, for any user in a notes conversation |
| ContactsService.ReconcileTurn | src/contacts/contacts.service.ts:80-105 | one turn of the loop changes only friend lists, and only by appending to them |
| ContactsService.ReconcileTurnKeeps | src/contacts/contacts.service.ts:79-106 | one loop turn extends the reconciliation from the visited participants to one more |
| ContactsService.GreetTurnKeeps | src/contacts/contacts.service.ts:91-105 | the second half of a turn: re-reading the participant and pushing the requester when it lacks it completes that participant's reconciliation |
| ContactsService.GreetOther | src/contacts/contacts.service.ts:91-105 | for an existing participant other than the requester, the requester is appended to its friends exactly when missing, and no other row changes |
| ContactsService.GreetNobody | src/contacts/contacts.service.ts:91-105 | for a participant that does not exist, or for the requester itself (whose fresh row already lists itself), the second half changes nothing |
| ContactsService.ReconciledFriendships | src/contacts/contacts.service.ts:79-106 | after the loop every participant is among the requester's friends; the requester is among the friends of every existing participant; no friend list loses or reorders an entry; and the only entries added are participants (to the requester) and the requester (to the others) |
| ContactsService.ReconcileFriends | src/contacts/contacts.service.ts:79-106 | the loop over the participants keeps the store valid and reconciles every participant |
| ContactsService.CreateGroup | src/contacts/contacts.service.ts:109-118 | on the store the loop left, `contact.create` succeeds exactly when every participant exists, appends the contact owned by the requester with the participants as members and returns its id; otherwise it fails with "Error creating contact" and the store is the one the loop left |
| ContactsService.AddContact | src/contacts/contacts.service.ts:51-123 | a missing or empty `contactIds`, a user who owns or belongs to a contact, or an unknown user: refused, nothing changes. Otherwise the friend lists are reconciled; the contact is created with the requester as owner and the participants as members, and its id is returned, exactly when every participant exists; otherwise no contact is created, though the friend writes stay. Every failure is "Error creating contact"; when every user is in some contact, every call is refused |
| AuthService.WithoutPassword | src/auth/auth.service.ts:42 | `delete user.password` keeps every other field: putting the hash back gives the stored row |
| AuthService.InvolvedPersists | src/auth/auth.service.ts:44-52 | appending a contact keeps every user who owned or belonged to a contact doing so |
| AuthService.NotesMembers | src/auth/auth.service.ts:50 | `connect: [{ id: user.id }, { id: 1 }]` stores both ids (the model keeps them in that order), and stores user 1 once when the new user is user 1 |
| AuthService.NotesKeepEveryoneInvolved | src/auth/auth.service.ts:44-52 | once the notes contact is appended, the new user belongs to a contact and everyone else still does |
| AuthService.RegisterUser | src/auth/auth.service.ts:18-59 | a missing or empty username, email or password: BadRequest "Username, email, and password are required", nothing written. A taken username: the store's failure, nothing written. Otherwise a user row with the next id, status "default", the hashed password and column defaults is appended; then the "Notes" contact owned by user 1 with members {new user, 1}, the fixed avatar and no messages; the user is returned without the password. The store stays valid, and "every user is in some contact" stays true |
| AuthService.RegisteredNotesResolve | src/auth/auth.service.ts:44-52 | after registration the notes sentinel 0 of `getContactInfo` resolves, for the new user, to the conversation registration seeded |
| AuthService.Login | src/auth/auth.service.ts:61-80 | succeeds exactly when a user with that username exists and the password compares against its hash. An unknown user and a wrong password fail with the same "Invalid username or password". A body without a username makes the lookup throw; a body without a password makes bcrypt throw once the user is found. On success the token signs the user's id and the user is returned without the password |
| AuthService.FindUser | src/auth/auth.service.ts:82-94 | found exactly when a user has the id, returned without the password; otherwise BadRequest "User not found" |
| AuthService.FindUserOfValid | src/auth/auth.service.ts:82-94 | in a valid store `findUser` succeeds exactly for existing ids, with the row at `id - 1` |
| AuthService.Matches | src/auth/auth.service.ts:101-114 | the username filter selects exactly the users whose username contains the query, projected to username, avatar, id and isOnline (no password) |
| AuthService.SearchByUsername | src/auth/auth.service.ts:96-117 | an absent query throws at `username.length`. A query of at most two characters gives nothing. Otherwise the result is the first min(6, number of matches) matching users, in the order of all matches |

## Left out

- Transport is not modelled. The socket.io server, the CORS configuration (src/chat/chat.gateway.ts:12-19) and the `@SubscribeMessage` dispatch are left out; handlers are called directly, and an emit is an outbox append.
- Concurrency is not modelled. The handlers are `async`, and their interleavings and races are left out: each handler is atomic and sequential, as is each service call.
- Logging is left out: `console.log` and `console.error` have no effect on state.
- The JWT verifier and signer are given functions. So are bcrypt's hash and compare, and the hash's cost factor 10 is not modelled.
- `new Date()` is the `now` parameter. The clock's monotonicity is not assumed; the history is ordered by `createdAt` whatever the times are.
- `Chat.ChatGateway.HandleConnection` requires a socket that is not already in the registry: socket.io calls `handleConnection` once per new connection.
- `Chat.ChatGateway.HandleMessage`: some database failures are caught and swallowed, for example an absent `content` making `message.create` throw (src/chat/chat.gateway.ts:173-175). These are not modelled; content is always a string.
- `Chat.ChatGateway.HandleFetchMessages`: the catch branch that closes the socket when `findMany` throws (src/chat/chat.gateway.ts:214-217) is not modelled, because the in-memory query cannot fail.
- `ContactsService.GetContact` and `ContactsService.GetContactInfo`: the rethrow as "Error find contacts" on a database failure is not modelled, because the in-memory lookups cannot fail.
- `AuthService.RegisterUser`:
  - The `if (!user)` and `if (!notes)` guards are dead code. `create` returns a row or throws, and the notes contact's members always exist, because user 1 exists once anyone has registered.
  - The registration body is taken to hold only username, email and password. The DTO file src/auth/auth.dto.ts is not part of this model, so any further field spread into `user.create` is not modelled.
  - A unique index on email is not modelled, because the schema is not part of this model; only the username index that `findUnique({ where: { username } })` implies is.
- `AuthService.SearchByUsername`:
  - `findMany` has no `orderBy`, so the order of rows is the database's. The model uses table order.
  - `contains` is assumed case-sensitive; that depends on the database provider, which is not part of this model.
  - The query length is counted in characters here, and in UTF-16 code units in JavaScript.
- Non-numeric ids and bodies that are not objects, which the controllers would pass through, are not modelled: ids are integers. A `findUser` with `Number(query.id)` equal to NaN (src/auth/auth.controller.ts:47) is not modelled either.
- Ids are unbounded integers. The controllers pass `Number(query.id)` and `Number(query.contactId)` through unchecked (src/auth/auth.controller.ts:47, src/contacts/contacts.controller.ts:27). If the schema's id columns are 32-bit integers, an out-of-range id fails Prisma's validation before any lookup. The schema is not part of this model, so that column-width error is not modelled. In the model, for example, `AuthService.FindUser` answers such an id with BadRequest "User not found", and `ContactsService.GetContactInfo` with no contact.
- Orders the source leaves to the database are fixed to table order in the model:
  - the `members` list of `getContactInfo` (`ContactsService.MemberRows`);
  - the `contacts` relation list of `getContact` (`ContactsService.ContactsOf`);
  - messages with equal `createdAt` in the history. `Chat.SortByCreatedAt` breaks such ties by table order, and `Chat.ChatGateway.HandleFetchMessages` inherits that order through `Chat.History`.
- Body fields of the wrong type are not modelled; only absent ones are. The login fields and the search query are absent (`None`) or strings, and an absent one is the uncaught failure the code meets. A repeated query parameter, which arrives as an array, is not modelled.
- `ContactsService.ContactsOf`: the schema is not part of this model. The `contacts` relation that `getContact` selects is assumed to be the contacts listing the user among `members`; the two-party columns `userId`/`contactId` could back a different relation.
- Gapless ids are assumed. With some database providers a failed insert still uses up its autoincrement value, for example a `user.create` refused by the unique username index or a `contact.create` with a missing member; Prisma's provider is not part of this model. After such a failure the next real id would skip. The model gives the new row the id `|table| + 1`, so the ids that `Store.CreateUser`, `Store.CreateContact`, `AuthService.RegisterUser`, `ContactsService.CreateGroup` and `ContactsService.AddContact` return are the model's ids. `Store.Valid` (through `Store.RowIds`) requires them to be positions, so a database with a skipped id is outside every handler's precondition.
- A repeated id in `members: { connect: [...] }` is assumed to be stored once, as in a many-to-many relation table keyed by the pair. The schema is not part of this model. This decides user 1's own notes conversation (`connect: [{ id: 1 }, { id: 1 }]`), which the model stores with one member (`AuthService.NotesMembers`).
- Text.ReplaceFirst: JavaScript expands the `$$`, `$&`, `` $` `` and `$'` patterns in a replacement string even when the pattern is a string. The model inserts the replacement verbatim, which is exact only for a replacement without `$`; the one call (src/chat/chat.gateway.ts:55) passes `''`.
- The controllers and modules are not modelled (src/auth/auth.controller.ts, src/contacts/contacts.controller.ts and the `*.module.ts` files). They are routing glue.
