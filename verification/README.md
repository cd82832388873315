# Session authentication core, modelled in Dafny

This project models the authentication layer of a small Express API: the `restricted`
access gate, the three validation middlewares (`checkUsernameFree`, `checkUsernameExists`,
`checkPasswordLength`), and the `/register`, `/login` and `/logout` routes with their
middleware chains. It is modelled as a state machine. The state holds the `users` table
and the request's session user. Each route is a pure step function
`(state, request, environment) -> (reply, next state)`.

Files:

- `options.dfy`: `Option`, used for an absent row and a missing password.
- `password.dfy`: the bcrypt stand-in. The key-derivation function is a function-valued
  parameter, the salt is an input, and the cost (10) and salt are stored in the hash.
  `Verify(p, Hash(p))` is proved from these definitions. Nothing is assumed about the
  key-derivation function.
- `store.dfy`: the `users` table, kept as a sequence of rows in insertion order.
  `where(...).first()` returns the first matching row. `insert` refuses a row whose
  `username` or `user_id` is already present; these uniqueness constraints are an
  assumption of the model (see Left out).
- `exchange.dfy`: the request and response values. The environment `Env` gives the salt
  bcrypt draws, the id the store assigns to an inserted row, and the set of store or
  session calls that fail on this request. It also holds the literal status messages and
  `Chain`, which is how Express runs a middleware in front of the rest of a route.
- `middleware.dfy`: `restricted` and the three checks.
- `router.dfy`: the register, login and logout handlers and routes.
- `properties.dfy`: properties that span several requests or states.

An error passed on with `next(err)` is modelled as `Forwarded(fault)`. The four faults
are: a failed store query, a broken uniqueness constraint on insert, bcrypt rejecting a
missing password, and the re-read after insert finding no row. The model proves that
this last fault cannot happen.

- A failed insert is forwarded to the error handler like every other store failure.
- The router's doc comment shows id 2 for "sue"; the model returns whatever id the store
  assigns.

## Model

| member | source | states |
|---|---|---|
| `Password.Hash` | api/auth/auth-router.js:42 | The stored hash records cost 10 and the drawn salt, and the password it was made from verifies against it (the bcrypt round trip). |
| `Password.VerifyIsRehash` | api/auth/auth-router.js:86 | For a hash made at cost 10, the plaintext verifies iff hashing it again with the salt embedded in the stored hash reproduces that hash. |
| `Exchange.Chain` | api/auth/auth-router.js:38 | A middleware's `next()` runs the rest of the chain unchanged. Its own JSON answer is sent with the state unchanged. Its `next(err)` forwards the error with the state unchanged. |
| `UserStore.FindByUsername` | api/auth/auth-middleware.js:29 | A row is found iff some row has that username. The row found has that username, and no earlier row does (it is the first match). |
| `UserStore.FindById` | api/auth/auth-router.js:45 | A row is found iff some row has that id, and the row found is a row of the table with that id. |
| `UserStore.Insert` | api/auth/auth-router.js:44 | The insert is refused iff the username or the id is already present. Otherwise exactly one row is appended and every old row is kept. The uniqueness constraints are preserved. |
| `UserStore.FindByUsernameAppend` | api/auth/auth-router.js:44 | Appending a row changes the lookup of no username that was already present. An absent name is found in the new row only when the names match. |
| `UserStore.FindByIdAppend` | api/auth/auth-router.js:44-45 | After appending a row whose id was absent, the lookup by that id returns exactly that row. |
| `UserStore.InsertedRowIsFound` | api/auth/auth-router.js:44-45 | After an accepted insert, looking up the new row by username or by id returns exactly the new row. |
| `UserStore.FindByUsernameUnique` | api/auth/auth-router.js:79 | In a table that meets its constraints, the row a username query returns is the only row with that username. |
| `AuthMiddleware.Restricted` | api/auth/auth-middleware.js:11-16 | Rejects with 401 "You shall not pass!" exactly when the session has no user, and passes otherwise. It never produces an error. |
| `AuthMiddleware.Protect` | api/server.js:45 | With a session user, the guarded handler's result is returned unchanged. Without one, the reply is 401 "You shall not pass!" and neither the session nor the table changes. |
| `AuthMiddleware.CheckUsernameFree` | api/auth/auth-middleware.js:26-39 | A failed lookup is forwarded as an error. Otherwise it rejects with 422 "Username taken" iff a row has that username, and passes otherwise. |
| `AuthMiddleware.CheckUsernameExists` | api/auth/auth-middleware.js:50-63 | A failed lookup is forwarded as an error. Otherwise it rejects with 401 "Invalid credentials" iff no row has that username, and passes otherwise. |
| `AuthMiddleware.CheckPasswordLength` | api/auth/auth-middleware.js:72-79 | Passes iff the password is present and longer than 3 characters. Otherwise it rejects with 422 "Password must be longer than 3 chars". It never produces an error. |
| `AuthMiddleware.UsernameChecksAreComplementary` | api/auth/auth-middleware.js:26-63 | On the same table and username, with both lookups working, exactly one of the two username checks passes. |
| `AuthMiddleware.PasswordBoundary` | api/auth/auth-middleware.js:75 | "123", "" and a missing password are refused; "1234" passes. |
| `AuthRouter.RegisterHandler` | api/auth/auth-router.js:38-55 | Replies 200 with the new id and username iff: a password is given, the insert call works, username and id are new, and the re-read works. A 200 comes with exactly the hashed row appended. A missing password, a failed insert call or a refused insert (constraint violation) is forwarded with the state unchanged. A failed re-read is forwarded with the hashed row already committed. The missing-row error never occurs. The session is untouched. |
| `AuthRouter.Register` | api/auth/auth-router.js:38 | "Username taken" comes before the password check. A weak password gets 422 only for a free name. A 422 carries one of those two messages and leaves the state unchanged. 200 holds iff every step can succeed, and then exactly the hashed row is appended and its id and username are returned. The table constraints are preserved. Once both checks pass, the reply and state are exactly the handler's, so the table either stays the same or gains exactly the hashed row. |
| `AuthRouter.LoginHandler` | api/auth/auth-router.js:75-98 | A failed lookup is forwarded, and so is a missing password for a known user (bcrypt rejects it). Nothing else is forwarded: a vanished user or a wrong password gets 401. Succeeds iff the lookup works, the user is found, a password is given and it verifies against the stored hash. Success sets the session to that row's id and username and replies "Welcome <username>!". Every other JSON reply is 401 "Invalid credentials". Failures change nothing, and the table never changes. |
| `AuthRouter.LoginAgreesWithCredentials` | api/auth/auth-router.js:79-91 | The row login checks belongs to the table. In a table that meets its constraints, the check succeeds exactly when some row with that username verifies the password. |
| `AuthRouter.Login` | api/auth/auth-router.js:75 | A failure of the middleware's lookup is forwarded. An unknown username then gets 401 "Invalid credentials" with the state unchanged, before the handler's query is made. For a known user, a failure of the handler's lookup or a missing password is forwarded, and nothing else is. The table never changes, and a failed login leaves the session unchanged. With the constraints holding, 200 holds iff both lookups work and some row matches username and password. A success opens a session for a matching row and welcomes the username. |
| `AuthRouter.Logout` | api/auth/auth-router.js:118-129 | Without a session user: 200 "no session", and nothing changes. With one: 200 "logged out" and no session if destroy works, 500 "Failed to log out" if it fails. The table never changes. |
| `AuthProperties.UnknownUserAndWrongPasswordLookAlike` | api/auth/auth-router.js:75-98 | An unknown username and a wrong password for a known one get the identical reply 401 "Invalid credentials", and neither changes the state. |
| `AuthProperties.MissingPasswordRevealsUsername` | api/auth/auth-router.js:75-98 | With no password, an unknown username gets 401 "Invalid credentials" but a known one gets bcrypt's forwarded error, so the two replies differ. |
| `AuthProperties.TakenBeforeWeak` | api/auth/auth-router.js:38 | A taken username with a weak or missing password gets "Username taken", with the state unchanged. |
| `AuthProperties.RegisteredNameIsTaken` | api/auth/auth-router.js:44 | After a successful register, the name is no longer free and now exists. A second register of it, with any password, gets "Username taken". |
| `AuthProperties.RegisterThenLogin` | api/auth/auth-router.js:38-98 | After registering, logging in with the same credentials welcomes the user. It sets the session to the new row's id and the username. |
| `AuthProperties.LogoutIsIdempotent` | api/auth/auth-router.js:118-129 | After a logout that answered 200, another logout answers 200 "no session" and changes nothing. It never answers with an error. |
| `AuthProperties.LoggedOutIsRestricted` | api/auth/auth-router.js:119-125 | After a successful logout, a route behind `restricted` answers 401 "You shall not pass!". |
| `AuthProperties.LoggedInPassesRestricted` | api/auth/auth-router.js:93 | After a successful login, a route behind `restricted` reaches its handler. |
| `AuthProperties.RegisterPreservesConsistent` | api/auth/auth-router.js:44 | Register preserves the table's constraints, and a session user remains a user of the table. |
| `AuthProperties.LoginPreservesConsistent` | api/auth/auth-router.js:93 | Login preserves the invariant, because the session it opens names a row of the table. |
| `AuthProperties.LogoutPreservesConsistent` | api/auth/auth-router.js:118-129 | Logout preserves the invariant. |
| `AuthProperties.RegisterSueOnEmptyStore` | api/auth/auth-router.js:11-18 | On an empty table, with the store assigning id 1, registering "sue"/"1234" answers 200 with id 1 and "sue". The table then holds one row with the hash of "1234". |
| `AuthProperties.RegisterBobBoundary` | api/auth/auth-middleware.js:64-79 | Registering "bob" with "123" is refused with 422 and no change. Registering "bob" with "1234" succeeds. |

## Left out

- HTTP and Express wiring (helmet, CORS, JSON parsing, router mounting): framework glue.
- The error-handling middleware (api/server.js:53-62). It would turn a forwarded error into a 500 reply echoing the error's message and stack. Here the reply stays `Forwarded(fault)`.
- The route at api/server.js:42. It mounts the users router without `restricted`, before the guarded mount at api/server.js:45. The users router is not part of this model. `restricted` is verified on its own, and no claim is made that `/api/users` is protected end to end.
- Session middleware configuration: cookie name, secret, cookie flags, knex session store, and the one-hour expiry. An expired session is modelled as a session without a user.
- bcrypt internals: the key-derivation function is a parameter. Collision resistance (a different password failing to verify) is a probabilistic property and is not stated.
- knex id assignment: the id of the inserted row is an input. An `Env.newId` already in the table stands in for a store that always assigns fresh ids; such an insert is refused as a constraint violation.
- The `users` schema: the uniqueness of `username` and `user_id` is assumed, not shown. `Insert` refusing duplicates, the `WellFormed` invariant, and the match between `Login` and `ValidCredentials` rest on it. Row order under `.first()` is taken to be insertion order; no ORDER BY appears in the queries. Usernames are matched by exact string equality; the database collation that `where({ username })` depends on is not part of this model, so a case-insensitive collation would match rows the model does not, and the welcome message would then print the stored spelling rather than the requested one.
- Concurrency and races. The "user vanished" branch of the login handler is modelled, but it can only be reached when the handler is called on its own.
- Console logging.
- Request bodies whose fields are not strings. A missing `username` would reach knex as an undefined binding, and a non-string password behaves differently in `.length` and in bcrypt. Usernames are strings here, and passwords are present or missing strings.
- AuthMiddleware.CheckPasswordLength: counts Dafny characters (Unicode scalar values). JavaScript's `length` counts UTF-16 code units, so for a password with characters outside the Basic Multilingual Plane the source sees a greater length.
- AuthRouter.Logout: when the session store fails to destroy the session, the model keeps the session user. This reflects that the stored session outlives the failed destroy. The in-memory `req.session` of that one request is not modelled.
