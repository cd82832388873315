/**
 The three routes of the auth router, each its middleware chain followed by its handler,
 as a step from one `State` to the next.
 */
module AuthRouter {
  import opened Options
  import opened Password
  import opened UserStore
  import opened Exchange
  import opened AuthMiddleware

  /**
   The row register inserts: the id the store assigns, the username, and the bcrypt hash
   of the password (never the plaintext).
   */
  function NewRow(h: Hasher, req: Credentials, env: Env): Row
    requires req.password.Some?
  {
    Row(env.newId, req.username, Hash(h, env.salt, req.password.value))
  }

  /**
   The register handler on its own: hash, insert, re-read the inserted row by id, answer
   with its id and username. Any failure is forwarded; a failure of the re-read comes after
   the insert was committed, so the table has already changed.
   */
  function RegisterHandler(h: Hasher, s: State, req: Credentials, env: Env): (t: Transition)
    ensures t.state.session == s.session
    ensures t.reply.Json? ==> t.reply == Json(200, Created(env.newId, req.username))
    ensures t.reply.Json? <==>
              && req.password.Some?
              && InsertUser !in env.down
              && !HasUsername(s.users, req.username)
              && !HasId(s.users, env.newId)
              && FetchInserted !in env.down
    ensures t.state.users == s.users || (req.password.Some? && t.state.users == s.users + [NewRow(h, req, env)])
    ensures t.reply.Json? ==> req.password.Some? && t.state.users == s.users + [NewRow(h, req, env)]
    ensures req.password.None? ==> t == Transition(Forwarded(IllegalArguments), s)
    ensures req.password.Some? && InsertUser in env.down ==>
              t == Transition(Forwarded(StoreUnavailable(InsertUser)), s)
    ensures req.password.Some? && InsertUser !in env.down
            && (HasUsername(s.users, req.username) || HasId(s.users, env.newId)) ==>
              t == Transition(Forwarded(ConstraintViolation), s)
    ensures req.password.Some? && InsertUser !in env.down && FetchInserted in env.down
            && !HasUsername(s.users, req.username) && !HasId(s.users, env.newId) ==>
              t == Transition(Forwarded(StoreUnavailable(FetchInserted)),
                              s.(users := s.users + [NewRow(h, req, env)]))
    ensures t.reply != Forwarded(MissingRow)
    ensures WellFormed(s.users) ==> WellFormed(t.state.users)
  {
    match req.password
    case None => Transition(Forwarded(IllegalArguments), s)
    case Some(password) =>
      if InsertUser in env.down then Transition(Forwarded(StoreUnavailable(InsertUser)), s)
      else
        var row := Row(env.newId, req.username, Hash(h, env.salt, password));
        match Insert(s.users, row)
        case None => Transition(Forwarded(ConstraintViolation), s)
        case Some(users) =>
          var s' := s.(users := users);
          assert users == s.users + [row];
          if FetchInserted in env.down then Transition(Forwarded(StoreUnavailable(FetchInserted)), s')
          else
            match FindById(users, env.newId)
            case None => Transition(Forwarded(MissingRow), s')
            case Some(user) => Transition(Json(200, Created(user.userId, user.username)), s')
  }

  /** Everything a register request needs in order to succeed. */
  predicate CanRegister(s: State, req: Credentials, env: Env)
  {
    && FreeLookup !in env.down
    && !HasUsername(s.users, req.username)
    && StrongEnough(req.password)
    && InsertUser !in env.down
    && !HasId(s.users, env.newId)
    && FetchInserted !in env.down
  }

  /** `POST /register`: `checkUsernameFree`, then `checkPasswordLength`, then the handler. */
  function Register(h: Hasher, s: State, req: Credentials, env: Env): (t: Transition)
    ensures t.state.session == s.session
    ensures FreeLookup in env.down ==> t == Transition(Forwarded(StoreUnavailable(FreeLookup)), s)
    ensures t.reply == Json(422, Message(UsernameTaken)) <==>
              FreeLookup !in env.down && HasUsername(s.users, req.username)
    ensures t.reply == Json(422, Message(PasswordTooShort)) <==>
              FreeLookup !in env.down && !HasUsername(s.users, req.username) && !StrongEnough(req.password)
    ensures t.reply.Json? && t.reply.status == 422 ==> t.state == s
    ensures t.reply.Json? && t.reply.status == 200 <==> CanRegister(s, req, env)
    ensures CanRegister(s, req, env) ==>
              && t.reply == Json(200, Created(env.newId, req.username))
              && t.state.users == s.users + [NewRow(h, req, env)]
    ensures FreeLookup !in env.down && !HasUsername(s.users, req.username) && StrongEnough(req.password) ==>
              t == RegisterHandler(h, s, req, env)
    ensures t.state.users == s.users || (req.password.Some? && t.state.users == s.users + [NewRow(h, req, env)])
    ensures t.reply.Json? ==> t.reply.status in {200, 422}
    ensures t.reply.Json? && t.reply.status == 422 ==>
              t.reply.body in {Message(UsernameTaken), Message(PasswordTooShort)}
    ensures WellFormed(s.users) ==> WellFormed(t.state.users)
  {
    Chain(CheckUsernameFree(s.users, req, env), s,
      Chain(CheckPasswordLength(req), s,
        RegisterHandler(h, s, req, env)))
  }

  /**
   The login handler on its own: re-read the user, compare the password with bcrypt, and on
   a match store `{ user_id, username }` in the session. The branch for a vanished user can
   only be reached if the row disappears between the middleware's query and this one.
   */
  function LoginHandler(h: Hasher, s: State, req: Credentials, env: Env): (t: Transition)
    ensures t.state.users == s.users
    ensures LoginLookup in env.down ==> t == Transition(Forwarded(StoreUnavailable(LoginLookup)), s)
    ensures LoginLookup !in env.down && FindByUsername(s.users, req.username).Some? && req.password.None? ==>
              t == Transition(Forwarded(IllegalArguments), s)
    ensures t.reply.Forwarded? <==>
              LoginLookup in env.down || (FindByUsername(s.users, req.username).Some? && req.password.None?)
    ensures !(t.reply.Json? && t.reply.status == 200) ==> t.state == s
    ensures t.reply.Json? && t.reply.status != 200 ==> t.reply == Json(401, Message(InvalidCredentials))
    ensures t.reply.Json? && t.reply.status == 200 <==>
              && LoginLookup !in env.down
              && FindByUsername(s.users, req.username).Some?
              && req.password.Some?
              && Verify(h, req.password.value, FindByUsername(s.users, req.username).value.password)
    ensures t.reply.Json? && t.reply.status == 200 ==>
              var user := FindByUsername(s.users, req.username).value;
              && t.reply.body == Message(WelcomeMessage(req.username))
              && t.state.session == Some(SessionUser(user.userId, req.username))
  {
    if LoginLookup in env.down then Transition(Forwarded(StoreUnavailable(LoginLookup)), s)
    else
      match FindByUsername(s.users, req.username)
      case None => Transition(Json(401, Message(InvalidCredentials)), s)
      case Some(user) =>
        match req.password
        case None => Transition(Forwarded(IllegalArguments), s)
        case Some(password) =>
          if !Verify(h, password, user.password) then Transition(Json(401, Message(InvalidCredentials)), s)
          else
            Transition(Json(200, Message(WelcomeMessage(user.username))),
                       s.(session := Some(SessionUser(user.userId, user.username))))
  }

  /** The credentials match a row of the table (an independent statement of success). */
  predicate ValidCredentials(h: Hasher, users: Table, req: Credentials)
  {
    && req.password.Some?
    && exists i :: 0 <= i < |users| && users[i].username == req.username
                   && Verify(h, req.password.value, users[i].password)
  }

  /** `POST /login`: `checkUsernameExists`, then the handler. */
  function Login(h: Hasher, s: State, req: Credentials, env: Env): (t: Transition)
    ensures t.state.users == s.users
    ensures ExistsLookup in env.down ==> t == Transition(Forwarded(StoreUnavailable(ExistsLookup)), s)
    ensures ExistsLookup !in env.down && !HasUsername(s.users, req.username) ==>
              t == Transition(Json(401, Message(InvalidCredentials)), s)
    ensures t.reply.Forwarded? <==>
              ExistsLookup in env.down
              || (HasUsername(s.users, req.username) && (LoginLookup in env.down || req.password.None?))
    ensures ExistsLookup !in env.down && LoginLookup in env.down && HasUsername(s.users, req.username) ==>
              t == Transition(Forwarded(StoreUnavailable(LoginLookup)), s)
    ensures ExistsLookup !in env.down && LoginLookup !in env.down
            && HasUsername(s.users, req.username) && req.password.None? ==>
              t == Transition(Forwarded(IllegalArguments), s)
    ensures !(t.reply.Json? && t.reply.status == 200) ==> t.state == s
    ensures t.reply.Json? && t.reply.status != 200 ==> t.reply == Json(401, Message(InvalidCredentials))
    ensures WellFormed(s.users) ==>
              (t.reply.Json? && t.reply.status == 200 <==>
                 && ExistsLookup !in env.down && LoginLookup !in env.down
                 && ValidCredentials(h, s.users, req))
    ensures t.reply.Json? && t.reply.status == 200 ==>
              && t.reply.body == Message(WelcomeMessage(req.username))
              && req.password.Some?
              && exists i :: 0 <= i < |s.users| && s.users[i].username == req.username
                   && t.state.session == Some(SessionUser(s.users[i].userId, req.username))
                   && Verify(h, req.password.value, s.users[i].password)
  {
    Chain(CheckUsernameExists(s.users, req, env), s, LoginHandler(h, s, req, env))
  }

  /**
   The row login compares against is a row of the table with the requested username, and
   in a well-formed table the comparison succeeds exactly when the credentials are valid.
   */
  lemma LoginAgreesWithCredentials(h: Hasher, users: Table, req: Credentials)
    ensures FindByUsername(users, req.username).Some? ==>
              var user := FindByUsername(users, req.username).value;
              exists i :: 0 <= i < |users| && users[i] == user
    ensures WellFormed(users) ==>
              (ValidCredentials(h, users, req) <==>
                 && FindByUsername(users, req.username).Some?
                 && req.password.Some?
                 && Verify(h, req.password.value, FindByUsername(users, req.username).value.password))
  {
  }

  /** `GET /logout`: destroy the session if it has a user, otherwise report that there is none. */
  function Logout(s: State, env: Env): (t: Transition)
    ensures t.state.users == s.users
    ensures t.reply.Json?
    ensures !LoggedIn(s) ==> t == Transition(Json(200, Message(NoSession)), s)
    ensures LoggedIn(s) && SessionDestroy !in env.down ==>
              t == Transition(Json(200, Message(LoggedOut)), s.(session := None))
    ensures LoggedIn(s) && SessionDestroy in env.down ==>
              t == Transition(Json(500, Message(FailedToLogOut)), s)
  {
    if s.session.Some? then
      if SessionDestroy in env.down then Transition(Json(500, Message(FailedToLogOut)), s)
      else Transition(Json(200, Message(LoggedOut)), s.(session := None))
    else Transition(Json(200, Message(NoSession)), s)
  }
}
