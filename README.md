# Message service with API-key access: a Dafny model

This project models the request-authorization and record-access logic of the
message service in `src/api-server.js`: the three-stage access gate run before
every protected route, the administrator's blacklist and whitelist toggles, sending
and reading direct messages, registration and the user lookups. The database is
replaced by an in-memory store. It holds a users table (`id`, `username`, `email`,
`api_key`, `active`), a messages table (`id`, `src`, `dst`, `content`) and the next
value of each table's id sequence.

Layout:

- `wrappers.dfy`: `Option`, for request fields that may be absent.
- `records.dfy` (module `Records`): the rows, the response envelope `{code, data}` and the
  table operations the handlers use. `Select` stands for `findAll ... where`. `SetActive`
  stands for `update {active} where id = target`. The module also holds the constraints
  the users table keeps.
- `access.dfy` (module `Access`): the gate (`getApiKey`, `validateApiKey`,
  `getUserByApiKey`) as one pure function, and the lemmas about blacklisting and
  whitelisting.
- `queries.dfy` (module `Queries`): the read-only handlers. These are the lookups
  `/id/:id`, `/username/:username`, `/email/:email` and `/users`, and `/read`, whose
  `ORDER BY id DESC` is modelled by an insertion sort on descending id.
- `store.dfy` (module `Server`): class `Store`, whose methods change the tables in
  place (`/register`, `/blacklist/id/:id`, `/whitelist/id/:id`, `/send`), and
  `Handle`, which runs one request. `/register` is registered before the gate and
  runs without it. Every other route runs behind it.

Each request is one atomic step. Things outside the program are parameters of type
`Env`: whether each store call throws (the gate's two queries and the handler's own
call), and the key the UUID generator produces for a new user. A thrown store call
answers 500 and changes nothing. The administrator is the constant `Admin = 1`.

The header is missing when it is absent or empty. JavaScript's `!key` treats both
the same way, so both answer 403 "No api token". In this source the validity stage
already filters on `active == true` (src/api-server.js:59-68), so a blacklisted
user's key is refused on every protected route. The store keeps an invariant
(`Store.Valid`). Ids come from the sequences and increase. Api keys, usernames and
emails are unique. Every row with the administrator's id is active, because
blacklist cannot target id 1 (for integer path ids; see "## Left out").

## Model

| member | source | states |
|---|---|---|
| `Records.Select` | src/api-server.js:59-68 | a `findAll` with a `where` clause returns exactly the rows that satisfy the clause, and no more rows than the table has |
| `Records.SelectCounts` | src/api-server.js:59-68 | a `findAll` returns every matching row exactly as often as the table holds it, and no row that does not match |
| `Records.SetActive` | src/api-server.js:222-229 | the point update keeps the table's length; every row whose id is the target gets the new `active` flag and nothing else changes; every other row is unchanged |
| `Records.SelectByUniqueKey` | src/api-server.js:95-100 | when api keys are unique, querying by a user's key returns exactly that user's row |
| `Records.SetActiveKeepsColumns` | src/api-server.js:220-229 | a point update of `active` keeps the table's invariant: ids, keys, usernames and emails unchanged, and the administrator's row stays active unless the update sets the flag on id 1 to false |
| `Access.Gate` | src/api-server.js:36-106 | no key or an empty key gives 403 "No api token"; a failing validity query gives 500; a key no active row holds gives 403 "Invalid api token or not active"; a failing identity query gives 500; the request passes exactly when the key is present, both queries succeed and some active row holds the key; a passing request carries at least one attached identity, each from a row holding the key |
| `Access.ActiveKeyPasses` | src/api-server.js:55-106 | with unique keys, an active user's non-empty key passes the gate, and the only attached identity is that user's |
| `Access.InactiveKeyRefused` | src/api-server.js:59-75 | with unique keys, an inactive user's key is refused with 403 "Invalid api token or not active", whatever the identity stage would do |
| `Access.BlacklistLocksOut` | src/api-server.js:222-229 | after the update that blacklists user b, a request with b's key is stopped at the gate with 403 |
| `Access.WhitelistRestores` | src/api-server.js:254-261 | after the update that whitelists user b, b's key passes the gate again and identifies b |
| `Access.BlacklistThenWhitelist` | src/api-server.js:214-272 | blacklisting b and then whitelisting b: b's key is refused after the first update and admitted, as b, after the second |
| `Access.AdminAlwaysAdmitted` | src/api-server.js:216-220 | while the users table keeps its invariant, the administrator's key always passes the gate and the caller id is 1, so the administrator cannot be locked out |
| `Queries.Lookup` | src/api-server.js:139-206 | a failing query gives 500; no matching row gives 404 ("users not found" for `/users`, "user not found" otherwise); otherwise 200 with the username and email of exactly the matching rows |
| `Queries.Conversation` | src/api-server.js:311-314 | the `src = caller OR dst = caller` query keeps exactly the messages the caller sent or received |
| `Queries.ConversationCounts` | src/api-server.js:311-314 | the filter keeps every message the caller sent or received exactly as often as it is stored, and no other message |
| `Queries.ConversationDistinct` | src/api-server.js:311-314 | the filtered messages keep distinct ids when the table has them |
| `Queries.InsertNewest` | src/api-server.js:315 | inserting into a list ordered by descending id keeps it ordered and adds only the new message |
| `Queries.InsertNewestStrict` | src/api-server.js:315 | inserting a message with a new id into a strictly descending list keeps it strictly descending |
| `Queries.InsertNewestPermutes` | src/api-server.js:315 | inserting adds exactly one occurrence of the message |
| `Queries.SortNewest` | src/api-server.js:315 | `ORDER BY id DESC` yields a list ordered by descending id with the same messages |
| `Queries.SortNewestStrict` | src/api-server.js:315 | with distinct ids the sorted list is strictly descending |
| `Queries.SortNewestPermutes` | src/api-server.js:315 | the sorted list is a permutation of its input |
| `Queries.ReadMessages` | src/api-server.js:308-332 | a failing query gives 500; 404 "No messages sent or received" exactly when no message involves the caller; otherwise 200 with every message the caller sent or received, as often as stored, ordered by descending id, strictly when ids are distinct |
| `Queries.SentMessageReadFirst` | src/api-server.js:285-332 | a message stored with an id above all stored ids is the first message `/read` shows to its sender and to its receiver |
| `Server.Store.Register` | src/api-server.js:119-132 | a request meeting the table's constraints (username and email given; username, email and generated key unused) appends one active row with the next id and answers 200 with it; any violation, or a failing store call, answers 500 and changes nothing; the store invariant is kept |
| `Server.Store.Blacklist` | src/api-server.js:214-240 | 200 only when the caller is id 1 and the target is not id 1, and then only rows with the target id become inactive (200 even when none exists); a non-administrator or a target of 1 gets 403 "Not allowed"; a failing update gets 500; when the answer is not 200 nothing changes |
| `Server.Store.Whitelist` | src/api-server.js:248-272 | 200 only when the caller is id 1, for any target including 1, and then only rows with the target id become active; otherwise 403 "Not allowed" or 500, with nothing changed |
| `Server.Store.Send` | src/api-server.js:285-302 | appends exactly one message with the next id, `src` = caller and `dst`, `content` from the body, without checking that `dst` is a user; the existing messages and the users table are unchanged; a failing call answers 500 with nothing changed |
| `Server.Store.Handle` | src/api-server.js:119-136 | `/register` runs without the gate; every other route stopped by the gate gets the gate's answer and changes nothing; a route the gate lets through runs its handler with the first attached row's id as the caller |
| `Server.ReadStrictlyNewestFirst` | src/api-server.js:311-316 | on the stored messages, whose ids come from the sequence, `/read` lists messages in strictly descending id order |
| `Server.RegisteredUserAdmitted` | src/api-server.js:126-127 | a user just created by `/register` passes the gate with the generated key and is identified as the new row |

## Left out

- Database connection and bootstrap (`sequelize.authenticate`, `User.sync`, `Message.sync`, `process.exit`, src/api-server.js:9-25), src/authentificate.js and src/models/db.js: configuration and I/O only.
- Express and body-parser set-up, `app.listen`, `console.log`, and routes the service does not register. A response is only its `(code, data)` pair. The templated texts "id N has been blacklisted" and "id N is valid" are the values `Blacklisted(N)` and `Whitelisted(N)`.
- The `createdAt`/`updatedAt` columns Sequelize writes on created rows, and the `updatedAt` it writes on every row an `update` matches (src/api-server.js:222, 254), are not modelled.
- Sequelize query internals: `findAll`, `update` and `create` are a filter, a point update and an append over sequences. `findAll` without `ORDER BY` returns rows in table order.
- UUID generation: the key is `Env.freshKey`. A key that collides with a stored one is refused by the `unique` constraint on `api_key` (src/models/user.js:18-23) and answers 500.
- The users table's columns follow src/api-server.js, which reads `username`, `email`, `api_key` and `active` and writes `username`, `email` and `active`. The key of a new row is not written by the handler: it comes from the column default `UUIDV1` (src/models/user.js:22), modelled as `Env.freshKey`. The model that src/models/db.js:3 and src/models/db.js:24 wire in as `User` (src/models/user.js:4-24) declares only `id`, `name` and `api_key`. The not-null and unique constraints on `username` and `email` are therefore assumptions of this model. So is the default `true` for `active` on a new row: `User.create` (src/api-server.js:126) does not set it, and no declaration gives it a default. `Store.Register`'s active new row, the `AdminActive` part of `UsersInvariant`, `Access.AdminAlwaysAdmitted` and `Server.RegisteredUserAdmitted` rest on this assumption. Like the declared `unique` on `api_key` (src/models/user.js:18-23), a violation is a store failure and answers 500.
- Validation of the `/send` body is not modelled: the message schema (src/models/message.js) is not part of this model, so `dst` and `content` are taken as given.
- A failed insert does not advance the id sequence in this model. Postgres may consume a sequence value on a failed insert, which only leaves gaps in ids.
- Async interleaving and the check-then-act race between concurrent requests: each request is one atomic step.
- JavaScript `==` coercion between string path parameters and the number 1 (src/api-server.js:220, 252), and Postgres errors on non-numeric ids: ids are integers. `Access.AdminAlwaysAdmitted` holds for integer path ids only: a string such as "0_1" is not `== 1` in JavaScript, yet a Postgres that accepts underscores in integer input reads it as 1, so it would reach id 1.
- src/models/user.js types `api_key` as `UUID` (src/models/user.js:20). A header that is not a UUID is expected to make the validity query throw, so it answers 500, not 403. The model has string keys and covers this case with `Env.validateFails`: it does not decide which headers are UUIDs. Postgres also compares `uuid` values by value, so an upper-case, braced or hyphen-less spelling of an active user's key (`A0EEBC99-9C0B-4EF8-BB6D-6BB9BD380A11` for the stored `a0eebc99-9c0b-4ef8-bb6d-6bb9bd380a11`) passes the gate in the source. The model compares keys as exact strings and refuses it with 403 "Invalid api token or not active".
- src/models/todo.js and src/models/message.js: no modelled handler uses the todo model, and the message model is not part of this model.
- Access.Gate: states the attached identities only as a non-empty list of rows holding the key, not their exact order. Under unique keys `Access.ActiveKeyPasses` pins the list down to the single caller.
- Queries.Lookup: states the returned profiles by membership, not their order or multiplicity (the query has no `ORDER BY`).
- Multi-request sequences are not stated on `Store.Handle` itself. They are stated on the functions that `Handle`'s contract is written in: `Access.BlacklistThenWhitelist` and `Queries.SentMessageReadFirst`.
