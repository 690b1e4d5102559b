# User directory: a Dafny model

This project models the request logic of the user-management API's user directory. It has five
handlers under `/api/users`:

- list all users (admin only);
- get one user (the caller's own record, or any record for an admin);
- create a user (admin only);
- update a user (admin only);
- delete a user (admin only).

It also models the start-up step that makes sure a default administrator account exists.

The MySQL `users` table is replaced by an in-memory table (`UserStore.Table`). The table holds:

- the rows, in insertion order;
- the AUTO_INCREMENT counter for `id`;
- an insertion counter that stands for `created_at`.

The database guarantees two things, captured by `WellFormed`. Ids are unique and below the counter.
Rows are stored in creation order, so ordering by `created_at` descending is the reverse of the
stored order. Each SQL statement the handlers issue is written out:

- `SELECT ... WHERE` is `Select`, a filter over the rows.
- `INSERT` is `Inserted`.
- `UPDATE ... WHERE id = ?` is `UpdatedById`.
- `DELETE ... WHERE id = ?` is `WithoutId`.

Modules follow the source files:

- `optional.dfy` (`Optional`): an `Option` type for request-body fields that may be absent.
- `store.dfy` (`UserStore`): the table, its rows and the SQL statements. The class `UserTable` is the
  shared table object. Its methods `Insert`, `UpdateById` and `DeleteById` change it in place.
- `users.dfy` (`UserRoutes`): the handlers of `server/routes/users.js`.
  - `List` and `Get` only read, so they are functions of the table.
  - Create, Update and Delete each come twice. A function (`Create`, `Update`, `Delete`) maps the old
    table to the new table and the reply, and the properties are stated about it. A method
    (`HandleCreate`, `HandleUpdate`, `HandleDelete`) runs the same checks one by one against a
    `UserTable`, with early returns. Each method is proved to agree with its function.
- `server.dfy` (`Server`): `createDefaultAdmin` of `server/server.js`. The function `DefaultAdmin`
  states its effect. The method `CreateDefaultAdmin` performs it on a `UserTable`.

Modelling choices:

- **Caller.** The caller is an input `Principal(id, role)`. The admin-only gate answers 403 when the
  role is not `admin`. Its reply is `GateRejected`, because its message text is in the
  authentication middleware.
- **Request body.** Each body field is an `Option`, where `None` means the client left the field
  out. A string field counts as given when it is present and not empty, as JavaScript truthiness
  has it.
- **Role defaults.** Create gives the role `viewer` only when the field is absent, because
  destructuring defaults apply only to `undefined`. So a given empty role is stored as the empty
  string. Update uses `role || 'viewer'`, so an absent or empty role becomes `viewer`.
- **`is_active` default.** Update uses the given `is_active`, or `true` when it is absent.
- **Password hash.** `bcrypt.hash` is an opaque function `hash: string -> Digest`, fixed per table.
- **Password never returned.** Replies carry `PublicUser`, which has no password field.

Where the specification of the system and the code disagree, the model follows the code. The
specification says a role is always `admin` or `viewer`. Neither Create nor Update checks this, so
the model stores whatever role string the request carries.

## Model

| member | source | states |
|---|---|---|
| `UserStore.Select` | server/routes/users.js:61-66 | A query returns exactly the rows that satisfy its condition. Its result is empty exactly when no row matches, which is what every `length === 0` / `length > 0` check tests. |
| `UserStore.Inserted` | server/routes/users.js:74-77 | An INSERT appends exactly one row and advances both counters. It keeps the table well formed: the new id and stamp are above every existing one. |
| `UserStore.UpdatedById` | server/routes/users.js:121-124 | An UPDATE by id keeps every row's id, password and creation stamp. It leaves every row with another id unchanged. |
| `UserStore.UpdatedAt` | server/routes/users.js:121-124 | In a table with unique, ordered ids, an UPDATE by id changes exactly the one row with that id, and only its four updated columns. |
| `UserStore.WithoutIdRemovesOne` | server/routes/users.js:154 | In a table with unique, ordered ids, a DELETE by id removes exactly the one row with that id. The other rows stay in order. |
| `UserStore.UserTable.Insert` | server/routes/users.js:74-81 | The shared table gains the inserted row. The returned `insertId` is the id the row received. |
| `UserStore.UserTable.UpdateById` | server/routes/users.js:121-124 | The shared table's rows become the UPDATE's result. Both counters are unchanged. |
| `UserStore.UserTable.DeleteById` | server/routes/users.js:154 | The shared table's rows become the rows without that id. The table stays well formed. |
| `UserRoutes.List` | server/routes/users.js:8-13 | A non-admin gets 403. An admin gets every row, each exactly once, as public fields without the password, strictly newest `created_at` first. |
| `UserRoutes.Get` | server/routes/users.js:21-39 | A non-admin asking for another id gets 403, whatever the table holds. Otherwise an absent id gets 404. A present id gets 200 with that row's public fields. |
| `UserRoutes.Create` | server/routes/users.js:47-82 | The checks run in order: 403 for a non-admin, then 400 for a missing name, email or password, then 400 for a password under 6 characters, then 409 for an email in use. Every error leaves the table unchanged. Success returns 201, appends one row (given name and email, hashed password, role given or `viewer`, active) with the next id, and echoes `{id, name, email, role}`. Well-formedness and email uniqueness are preserved. |
| `UserRoutes.HandleCreate` | server/routes/users.js:47-82 | The step-by-step handler leaves the shared table and returns the reply exactly as `Create` specifies. |
| `UserRoutes.Update` | server/routes/users.js:90-126 | The checks run in order: 403 for a non-admin, then 400 for a missing name or email, then 404 for an absent id, then 409 when another id has the email. Keeping the record's own email is not a conflict. Errors leave the table unchanged. Success changes only the target row's name, email, role (`viewer` if absent or empty) and `is_active` (true if absent). Its password and `created_at` and every other row stay the same. Email uniqueness is preserved. |
| `UserRoutes.HandleUpdate` | server/routes/users.js:90-131 | The step-by-step handler leaves the shared table and returns the reply exactly as `Update` specifies. |
| `UserRoutes.Delete` | server/routes/users.js:134-156 | The checks run in order: 403 for a non-admin, then 400 when deleting one's own id (before any lookup), then 404 for an absent id. Errors leave the table unchanged. Success removes exactly the row with that id and keeps the others in order. |
| `UserRoutes.HandleDelete` | server/routes/users.js:134-161 | The step-by-step handler leaves the shared table and returns the reply exactly as `Delete` specifies. |
| `UserRoutes.CreateThenGet` | server/routes/users.js:71-81 | After a successful create, reading the new id (as an admin or as that user) returns 200 with the stored name, email, role, `is_active` and `created_at`, and no password. |
| `UserRoutes.CreateThenList` | server/routes/users.js:10-13 | After a successful create, the list shows the new user first. |
| `UserRoutes.CreateSameEmailTwice` | server/routes/users.js:61-68 | A second valid create with the same email gets 409. |
| `UserRoutes.UpdateKeepingOwnEmail` | server/routes/users.js:110-118 | In a table with unique emails, an admin's update that keeps the record's own email passes the conflict check and succeeds. |
| `UserRoutes.UpdateThenGet` | server/routes/users.js:120-126 | After a successful update, reading that id (as an admin or as that user) returns 200. The reply has the new name, email, role and `is_active`, and the record's original `created_at`. |
| `UserRoutes.DeleteThenGet` | server/routes/users.js:149-156 | After a successful delete, no one can read that id back. An admin gets 404. |
| `Server.DefaultAdmin` | server/server.js:42-54 | If no row has `admin@admin.com`, exactly one row is inserted: `Admin User`, that email, the hash of `admin123`, role `admin`. Otherwise the table is unchanged. Afterwards the email is present, and well-formedness and email uniqueness are preserved. |
| `Server.DefaultAdminIdempotent` | server/server.js:42-62 | Running the default-admin step twice gives the same table as running it once. |
| `Server.CreateDefaultAdmin` | server/server.js:42-62 | The step-by-step start-up routine leaves the shared table exactly as `DefaultAdmin` specifies. |

## Left out

- Token verification and the 401 answers are left out. The middleware that checks tokens is not
  part of this model; the caller's principal is an input.
- The register and login routes are not part of this model.
- Password hashing is left out. `bcrypt.hash` is a deterministic opaque function here, so its salt
  and cost factor are not modelled.
- The MySQL pool, SQL text, `testConnection`, `process.exit` and `app.listen` are I/O. The table is
  an in-memory value.
- The `catch` blocks that answer 500 are left out, as are the global error handler and the
  route-not-found handler. They deal only with transport and database failures.
- The health endpoint, CORS and body parsing are transport configuration.
- Console logging, including the default admin credentials, is output only.
- Concurrency is left out. The model is sequential, so the race between the email check and the
  insert under concurrent requests does not arise.
- `parseInt` on non-numeric ids is left out: ids are integers.
- JSON values of the wrong type are left out, for example a non-string password or a
  `null` `is_active`.
- `created_at` is an insertion counter, so two rows never share a timestamp. Real timestamps can
  tie.
- String comparison is exact. MySQL's default collation compares emails without regard to case or
  trailing spaces, and that collation is not modelled.
- Password length counts characters. JavaScript's `length` counts UTF-16 code units.
- The `is_active` column default on insert is taken to be true. The table schema is not part of
  this model.
