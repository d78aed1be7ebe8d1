# Chamomile: a Dafny model of the task tracker's server core

Chamomile is a personal task tracker. People register and log in, and each account
keeps its own tasks, which move between the lanes `todo`, `doing` and `done`. This
project models the server side of that core in Dafny and proves what it promises:

- `Validation` (`validation.dfy`) covers the input helpers. JavaScript's `trim` is modelled
  over the full ECMAScript white-space set. The e-mail regular expression
  `^[^\s@]+@[^\s@]+\.[^\s@]+$` becomes an automaton, and the automaton is proved
  equivalent to the shape `local@domain.suffix`. The module also has the password-length
  rule and the two sanitisers, trim and then slice to 200 or 1000 characters.
- `SignupGuard` (`signup_guard.dfy`) is the anti-bot gate in front of registration: a
  hidden honeypot field and a check on the time taken to fill the form. Every rejection
  gets the same 429 response.
- `AuthMiddleware` (`auth_middleware.dfy`) checks the `Authorization: Bearer <token>`
  header and attaches the verified identity to the request.
- `Database` (`database.dfy`) holds the store.
  - `DatabaseService` is a class whose fields are the two tables (in rowid order), the
    AUTOINCREMENT counters and the clock behind `CURRENT_TIMESTAMP`.
  - `Valid()` states the schema's constraints, for the requests the model can express (see
    "## Left out" on `null`), as an invariant that every write keeps:
    - the UNIQUE e-mail index
    - the status CHECK
    - the owner foreign key
    - ids grow in rowid order
  - A write the schema refuses returns a `Fail` where SQLite would throw.
- `TodoRoutes` (`todo_routes.dfy`) has the four task handlers and the router that puts
  the middleware in front of them.
- `AuthRoutes` (`auth_routes.dfy`) has registration behind the guard, and login.
- `Types` and `Http` (`types.dfy`) hold the rows, the token payload and the HTTP responses.

Hashing, hash comparison, token signing and token verification are parameters of type
function: `hash`, `compare`, `sign` and `verify`. `Date.now()` is the parameter `now`.
`parseInt` of the `:id` segment arrives as an `Option<int>`, with `None` for `NaN`.

Some consequences of the code as written, which the model keeps:

- **PUT can store an empty title.** POST refuses a blank title (`src/routes/todoRoutes.ts:45-48`).
  PUT only sanitises a supplied title (`src/routes/todoRoutes.ts:108-110`) and never checks
  it, so a title of white space alone is stored as `""`.
- **A honeypot of spaces passes.** The honeypot field "should be empty"
  (`src/middleware/tightSignupGuard.ts:9`). The check rejects it only when its trimmed form
  is non-empty (`src/middleware/tightSignupGuard.ts:22`), so a honeypot of white space alone
  passes (`SignupGuard.GuardPassesIff`).
- **The timing check can be skipped.** A request with no timestamp, or a timestamp of `0`,
  skips the timing check altogether (`src/middleware/tightSignupGuard.ts:34`).
- **An empty status reaches the store.** PUT's status check lets the empty string through
  (`src/routes/todoRoutes.ts:90`). The store's CHECK constraint then refuses it, and the
  answer is 500 "Failed to update task" rather than 400 (`TodoRoutes.UpdateTask`).
- **A `null` status is stored.** A PUT body with `"status": null` passes the same check and
  is forwarded, because `null !== undefined` (`src/routes/todoRoutes.ts:114-116`). SQLite's
  CHECK does not refuse a NULL, so the real table can hold a task without a status. The
  model has no JSON `null` (see "## Left out").

## Model

| member | source | states |
|---|---|---|
| Validation.TrimStart | src/utils/validation.ts:23 | the result is a suffix of the input, everything removed is white space, and the result does not start with white space |
| Validation.TrimEnd | src/utils/validation.ts:23 | the result is a prefix of the input, everything removed is white space, and the result does not end with white space |
| Validation.TrimIsInnerPiece | src/utils/validation.ts:23 | `trim` keeps one contiguous piece of the input, with only white space cut off on either side, and that piece neither starts nor ends with white space |
| Validation.TrimEmptyIff | src/routes/todoRoutes.ts:45 | `s.trim().length === 0` exactly when every character of `s` is white space |
| Validation.RunAccepts | src/utils/validation.ts:6-9 | from every state, the automaton accepts exactly the language of that state |
| Validation.ValidEmailShape | src/utils/validation.ts:7 | an accepted address splits as `l@d.e` with non-empty parts and no white space or `@` in any part |
| Validation.ShapeIsValidEmail | src/utils/validation.ts:7 | every such `l@d.e` is accepted |
| Validation.IsValidEmailIff | src/utils/validation.ts:6-9 | `isValidEmail` holds exactly when the address has the shape of the regular expression (both directions) |
| Validation.ValidEmailHasOneAt | src/utils/validation.ts:7 | an accepted address has exactly one `@` and no white space |
| Validation.SanitizeTaskTitle | src/utils/validation.ts:22-24 | the prefix of the trimmed title of length min(its length, 200): the whole trimmed title when it fits, exactly its first 200 characters otherwise; empty exactly when the trimmed title is empty |
| Validation.SanitizeTaskDescription | src/utils/validation.ts:29-31 | the same with a limit of 1000 characters |
| Validation.SanitizedTitleMayEndInBlank | src/utils/validation.ts:22-24 | a title cut at 200 characters can end in white space, so sanitising twice can change it again (a concrete title) |
| SignupGuard.Guard | src/middleware/tightSignupGuard.ts:13-66 | every rejection answers the same 429 "Unable to process signup…"; a "too fast" rejection has a gap under 2000 ms, and an "invalid timestamp" rejection has a gap over 600000 ms |
| SignupGuard.GuardPassesIff | src/middleware/tightSignupGuard.ts:22-65 | the request passes exactly when the honeypot is absent or only white space, and the timestamp is absent or 0 or lies 2000 to 600000 ms in the past |
| SignupGuard.HoneypotAlwaysRejected | src/middleware/tightSignupGuard.ts:22-30 | a honeypot with any non-blank character is rejected, and logged as such, whatever the timestamp |
| SignupGuard.FutureTimestampIsTooFast | src/middleware/tightSignupGuard.ts:42-61 | a timestamp in the future is always caught as "too fast", so the `timeDiff < 0` test of the second check never decides anything |
| AuthMiddleware.Authenticate | src/middleware/authMiddleware.ts:10-43 | every refusal is a 401; the caller is authenticated exactly when the header carries the `Bearer ` prefix and the rest verifies; the identity is the verified payload |
| AuthMiddleware.BearerRoundTrip | src/middleware/authMiddleware.ts:19-32 | the header `Bearer <token>` hands exactly `<token>` to verification, and the outcome follows the verification |
| AuthMiddleware.MalformedHeaderRefused | src/middleware/authMiddleware.ts:19-22 | a missing header, or one without the prefix, gets "No token provided" without anything being verified |
| AuthMiddleware.Request.constructor | src/middleware/authMiddleware.ts:17 | a request starts with its header and without a user |
| AuthMiddleware.Apply | src/middleware/authMiddleware.ts:10-43 | `next()` runs exactly when authentication succeeds, and then `req.user` is the verified payload; otherwise the refusal is sent and `req.user` is untouched |
| Database.FindUserByEmail | src/db/database.ts:33-38 | the row returned has that e-mail, and nothing is returned exactly when no row has it; the store's `DatabaseService.GetUserByEmail` returns exactly this |
| Database.FindUserById | src/db/database.ts:40-45 | the row returned has that id, and nothing is returned exactly when no row has it; the store's `DatabaseService.GetUserById` returns exactly this |
| Database.FindTask | src/db/database.ts:58-64 | the row returned has that id and that owner, and nothing is returned exactly when no row has both; the store's `DatabaseService.GetTaskById` returns exactly this |
| Database.OwnedNewestFirst | src/db/database.ts:49-56 | exactly the owner's rows, each with a strictly later creation time than the next; the store's `DatabaseService.GetAllTasksForUser` returns exactly this |
| Database.DeleteWhere | src/db/database.ts:118-125 | a row remains exactly when it was there and does not match both id and owner |
| Database.HasRowCons | src/db/database.ts:118-125 | a table has a matching row exactly when its first row matches or the rest has one |
| Database.DeleteShrinksIff | src/db/database.ts:123-124 | `changes > 0` exactly when a row matched |
| Database.DeleteRemovesOneRow | src/db/database.ts:118-125 | in a table with increasing ids, a delete removes exactly one row when one matches |
| Database.DeleteNothing | src/db/database.ts:118-125 | a delete that matches nothing leaves the table as it was |
| Database.ChronologicalHead | src/db/database.ts:49-56 | in rowid order, the first row is older, with a smaller id, than every later row |
| Database.ChronologicalCons | src/db/database.ts:49-56 | rowid order holds exactly when the first row precedes the rest and the rest is ordered |
| Database.DeleteKeepsOrder | src/db/database.ts:118-125 | a delete keeps the remaining rows in rowid order |
| Database.AssignAllConcat | src/db/database.ts:104-113 | applying a SET list in two parts is applying it whole |
| Database.UpdateWhere | src/db/database.ts:106-113 | the UPDATE keeps the table's length and leaves every row that does not match untouched |
| Database.SetListPatches | src/db/database.ts:83-104 | the SET list built from the supplied fields, plus `updated_at`, changes a row into its patched form |
| Database.UpdatePatches | src/db/database.ts:77-116 | after the UPDATE, each matching row is patched and every other row is unchanged |
| Database.TasksOkGrow | src/db/schemaInit.ts:24-31 | a helper for the store invariant: the per-row constraints of the tasks table (id handed out, status CHECK, owner foreign key, times) still hold after more users, larger counters and a later clock |
| Database.AppendUserOk | src/db/database.ts:24-31 | inserting an unused e-mail with the next id keeps the users table valid, and the id was not in use |
| Database.ChronologicalSnoc | src/db/database.ts:66-71 | appending a row that is newer than every row keeps rowid order |
| Database.ReadBackInserted | src/db/database.ts:74 | reading back by the new id and owner returns the row just inserted |
| Database.InsertTaskOk | src/db/database.ts:66-75 | inserting with the next id, an existing owner, status `todo` and the current time keeps every tasks constraint, and the read-back returns the row |
| Database.UpdateKeepsConstraints | src/db/database.ts:77-116 | an update whose status is allowed keeps every tasks constraint and rowid order |
| Database.DatabaseService.constructor | src/db/database.ts:10-14 | a fresh store has empty tables and is valid |
| Database.DatabaseService.CreateUser | src/db/database.ts:24-31 | fails with the UNIQUE violation exactly when the e-mail is taken; otherwise appends the user with the next id, returns that id and keeps the store valid |
| Database.DatabaseService.CreateTask | src/db/database.ts:66-75 | fails with the foreign-key violation exactly when the owner does not exist; otherwise appends `(next id, owner, title, description or NULL when empty, 'todo', now, now)` and returns that row |
| Database.DatabaseService.UpdateTask | src/db/database.ts:77-116 | fails with the CHECK violation exactly when a field is supplied, the row exists and the status is not allowed; otherwise patches exactly the matching row, bumps `updated_at` only when a field is supplied, and returns the row read back |
| Database.DatabaseService.DeleteTask | src/db/database.ts:118-125 | the result is `true` exactly when a matching row existed, and the table becomes the table without matching rows |
| TodoRoutes.RejectedStatusIff | src/routes/todoRoutes.ts:89-95 | the handler's list check rejects exactly the non-empty statuses the CHECK constraint also refuses |
| TodoRoutes.GetTasks | src/routes/todoRoutes.ts:22-33 | 200 with exactly the caller's tasks, newest first |
| TodoRoutes.CreateTask | src/routes/todoRoutes.ts:39-70 | a missing or blank title is a 400 with the store untouched; otherwise the caller owns one new row with status `todo`, a sanitised non-empty title of at most 200 characters and the description sanitised (NULL when empty); the response is 201 with that row |
| TodoRoutes.UpdateTask | src/routes/todoRoutes.ts:76-131 | 400 for a bad id and then for a status outside the list, 404 when the caller has no such task, each with the store untouched; otherwise exactly that row is patched with the sanitised fields and 200 returns it; an empty status ends in 500; the table keeps its length and every other user's row is unchanged in place |
| TodoRoutes.ApplyUpdate | src/routes/todoRoutes.ts:105-126 | for a task the caller owns: the updated row with 200, or 500 when the status is empty |
| TodoRoutes.DeleteTask | src/routes/todoRoutes.ts:137-163 | 400 for a bad id; 404 with the table unchanged unless the caller owns the task; otherwise exactly that one row is removed and 200 is returned; other users' tasks are never removed and no row is added |
| TodoRoutes.TokenUser | src/middleware/authMiddleware.ts:19-35 | the middleware lets a request through exactly when it yields a user id, and that id is the one in the verified token's payload |
| TodoRoutes.Route | src/routes/todoRoutes.ts:15-163 | without a verified token the answer is the middleware's 401 and the store is untouched; with one, every handler acts for the token's user: GET changes nothing and lists exactly that user's tasks, newest first; POST adds at most one row, after all the others, owned by that user, and with a non-blank title and an existing user it answers 201 with that row, status `todo` and the sanitised title; PUT keeps the table's length and changes no row other than the requested one of that user; DELETE adds no row and removes no row other than the requested one of that user |
| AuthRoutes.RegisterRejection | src/routes/authRoutes.ts:26-41 | registration goes past the field checks exactly when both fields are present, the e-mail is valid and the password has at least 8 characters; the checks run in that order, and each failure is its own 400: "Email and password are required", then "Invalid email format", then "Password must be at least 8 characters" |
| AuthRoutes.Register | src/routes/authRoutes.ts:21-65 | a field-check failure is a 400 and a taken e-mail is a 409, each with the store untouched; otherwise the user is stored with the hash of the password and 201 carries the new id; the 500 branch is never reached |
| AuthRoutes.RegisterRoute | src/routes/authRoutes.ts:17-66 | a guard rejection is its 429; every answer other than 201 leaves the store untouched, and the tasks table is never changed; the answer is 201 exactly when the guard, the field checks and the e-mail lookup all pass, and then the users table is the old one plus the new user (next id, the e-mail, the hash of the password), whom the lookup by e-mail then finds |
| AuthRoutes.FindAppended | src/routes/authRoutes.ts:44-53 | after a lookup has found no user with an e-mail, appending a user with it makes the lookup find that user |
| AuthRoutes.Login | src/routes/authRoutes.ts:72-123 | missing fields are a 400; 200 exactly when the e-mail is known and the password matches its hash, with a token signed over `{userId, email}` and that user in the body; an unknown e-mail and a wrong password get the very same 401 |
| AuthRoutes.RegisterThenLogin | src/routes/authRoutes.ts:17-123 | if the hash comparison accepts a password against its own hash, a fresh registration (201) can log in at once (200) as the new user id |

## Left out

- Rate limiting (`src/utils/rateLimiter.ts`) keeps per-address counters in process memory and depends on time. It is not part of this model.
- bcrypt and JSON Web Tokens are the parameters `hash`, `compare`, `sign` and `verify`. The random salt, the cost factor, the 7-day expiry and the signature algorithm are not modelled. `verify` returning `None` stands for every bad, forged or expired token.
- The `catch` blocks that turn other exceptions into 500 are not modelled.
  - The 500s for constraint violations are modelled: a foreign-key violation on POST, and the CHECK on an empty PUT status.
  - Thrown I/O errors, a failing `hash`, and the middleware's unreachable "Authentication failed" branch are not.
- Request bodies are modelled as optional strings, and the timestamp as an optional integer. JSON values of other types (numbers for titles, strings for timestamps) and JavaScript's coercions of them are not modelled.
- String lengths are counted in Dafny characters (code points), while JavaScript counts UTF-16 code units. The 8-character password rule and the 200/1000 limits therefore differ for characters outside the Basic Multilingual Plane.
- `Database.OwnedNewestFirst`: `CURRENT_TIMESTAMP` has one-second resolution, so two rows can share a `created_at`, and SQLite may then list them in either order. The model's clock advances on every write, so `OwnedNewestFirst` gives a strict newest-first order that the source only gives up to such ties.
- `TodoRoutes.UpdateTask`: the status of a request is absent or a string. A JSON `null` status cannot be expressed. The source forwards it and SQLite stores it, because a CHECK that evaluates to NULL is no violation. So the model's invariant that every stored status is `todo`, `doing` or `done` is stronger than what the real table guarantees.
- `AuthRoutes.Register`: each handler is modelled as one uninterrupted step. The source awaits `hashPassword` (`src/routes/authRoutes.ts:52`) between the e-mail lookup (`:44`) and the insert (`:53`). Two registrations of the same address can both pass the lookup, and the second insert then hits the UNIQUE index and answers 500 "Registration failed" (`:61-63`). That interleaving is not modelled, and the proof that the 500 branch is never reached holds only without it.
- `ON DELETE CASCADE` from users to tasks is not modelled, because no operation of the core deletes a user.
- The schema creation script (`src/db/schemaInit.ts`), the server wiring (`src/app.ts`, `src/server.ts`, `src/routes/index.ts`), the global error handler and the static front end are not part of this model.
- `Validation.IsValidPassword` is the one-line predicate `|password| >= 8`. It has no contract of its own, and it is used through `AuthRoutes.RegisterRejection`.
- Console logging is not modelled. The guard's log reason is the `logged` field of its verdict.
