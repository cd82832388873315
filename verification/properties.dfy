/** Properties that relate several requests, or several states, to each other. */
module AuthProperties {
  import opened Options
  import opened Password
  import opened UserStore
  import opened Exchange
  import opened AuthMiddleware
  import opened AuthRouter

  /** The store and session calls of one request all succeed. */
  predicate Healthy(env: Env)
  {
    env.down == {}
  }

  /**
   An unknown username and a wrong password for a known one get the very same answer, so a
   login response does not reveal which usernames exist.
   */
  lemma UnknownUserAndWrongPasswordLookAlike(h: Hasher, unknown: State, known: State, req: Credentials, env: Env)
    requires ExistsLookup !in env.down && LoginLookup !in env.down
    requires req.password.Some?
    requires !HasUsername(unknown.users, req.username)
    requires FindByUsername(known.users, req.username).Some?
    requires !Verify(h, req.password.value, FindByUsername(known.users, req.username).value.password)
    ensures Login(h, unknown, req, env).reply == Json(401, Message(InvalidCredentials))
    ensures Login(h, known, req, env).reply == Login(h, unknown, req, env).reply
    ensures Login(h, unknown, req, env).state == unknown && Login(h, known, req, env).state == known
  {
  }

  /**
   Without a password the two cases do not look alike: an unknown username is answered
   401 "Invalid credentials", while a known one reaches bcrypt, whose rejection is
   forwarded to the error handler. The reply therefore tells whether the username exists.
   */
  lemma MissingPasswordRevealsUsername(h: Hasher, unknown: State, known: State, req: Credentials, env: Env)
    requires ExistsLookup !in env.down && LoginLookup !in env.down
    requires req.password.None?
    requires !HasUsername(unknown.users, req.username)
    requires HasUsername(known.users, req.username)
    ensures Login(h, unknown, req, env).reply == Json(401, Message(InvalidCredentials))
    ensures Login(h, known, req, env).reply == Forwarded(IllegalArguments)
    ensures Login(h, known, req, env).reply != Login(h, unknown, req, env).reply
  {
  }

  /** Register checks the username before the password: a taken name with a weak password is "Username taken". */
  lemma TakenBeforeWeak(h: Hasher, s: State, req: Credentials, env: Env)
    requires FreeLookup !in env.down
    requires HasUsername(s.users, req.username)
    requires !StrongEnough(req.password)
    ensures Register(h, s, req, env) == Transition(Json(422, Message(UsernameTaken)), s)
  {
  }

  /** After a successful register the username is taken for register and known to login. */
  lemma RegisteredNameIsTaken(h: Hasher, s: State, req: Credentials, env: Env, later: Credentials, env': Env)
    requires CanRegister(s, req, env)
    requires later.username == req.username
    requires Healthy(env')
    ensures CheckUsernameFree(Register(h, s, req, env).state.users, later, env') == Reject(422, UsernameTaken)
    ensures CheckUsernameExists(Register(h, s, req, env).state.users, later, env') == Pass
    ensures Register(h, Register(h, s, req, env).state, later, env').reply == Json(422, Message(UsernameTaken))
  {
  }

  /**
   Registering and then logging in with the same credentials succeeds and puts the new
   user in the session: the stored hash verifies against the password it was made from.
   */
  lemma RegisterThenLogin(h: Hasher, s: State, req: Credentials, env: Env, env': Env)
    requires CanRegister(s, req, env)
    requires Healthy(env')
    ensures var s' := Register(h, s, req, env).state;
            Login(h, s', req, env') ==
              Transition(Json(200, Message(WelcomeMessage(req.username))),
                         s'.(session := Some(SessionUser(env.newId, req.username))))
  {
  }

  /** A logout that answered 200 leaves no session, so the next logout answers "no session". */
  lemma LogoutIsIdempotent(s: State, env: Env, env': Env)
    requires Logout(s, env).reply.status == 200
    ensures var s' := Logout(s, env).state;
            Logout(s', env') == Transition(Json(200, Message(NoSession)), s')
  {
  }

  /** After a successful logout, a route behind `restricted` refuses the request. */
  lemma LoggedOutIsRestricted(s: State, env: Env, handler: State -> Transition)
    requires LoggedIn(s) && SessionDestroy !in env.down
    ensures var s' := Logout(s, env).state;
            Protect(s', handler) == Transition(Json(401, Message(ShallNotPass)), s')
  {
  }

  /** After a successful login, a route behind `restricted` is reached. */
  lemma LoggedInPassesRestricted(h: Hasher, s: State, req: Credentials, env: Env, handler: State -> Transition)
    requires Login(h, s, req, env).reply.Json? && Login(h, s, req, env).reply.status == 200
    ensures var s' := Login(h, s, req, env).state;
            Protect(s', handler) == handler(s')
  {
  }

  /** Register keeps the table's constraints and the session's reference to a user. */
  lemma RegisterPreservesConsistent(h: Hasher, s: State, req: Credentials, env: Env)
    requires Consistent(s)
    ensures Consistent(Register(h, s, req, env).state)
  {
  }

  /** Login keeps the invariant: the session it opens names the row it checked. */
  lemma LoginPreservesConsistent(h: Hasher, s: State, req: Credentials, env: Env)
    requires Consistent(s)
    ensures Consistent(Login(h, s, req, env).state)
  {
  }

  /** Logout keeps the invariant. */
  lemma LogoutPreservesConsistent(s: State, env: Env)
    requires Consistent(s)
    ensures Consistent(Logout(s, env).state)
  {
  }

  /** Registering "sue" with "1234" on an empty table, the store assigning id 1. */
  lemma RegisterSueOnEmptyStore(h: Hasher, salt: Salt)
    ensures var env := Env(salt, 1, {});
            var req := Credentials("sue", Some("1234"));
            var t := Register(h, State([], None), req, env);
            && t.reply == Json(200, Created(1, "sue"))
            && t.state.users == [Row(1, "sue", Hash(h, salt, "1234"))]
  {
  }

  /** "bob" with the three-character "123" is refused; with "1234" it is accepted. */
  lemma RegisterBobBoundary(h: Hasher, s: State, env: Env)
    requires Healthy(env)
    requires !HasUsername(s.users, "bob") && !HasId(s.users, env.newId)
    ensures Register(h, s, Credentials("bob", Some("123")), env)
         == Transition(Json(422, Message(PasswordTooShort)), s)
    ensures Register(h, s, Credentials("bob", Some("1234")), env).reply
         == Json(200, Created(env.newId, "bob"))
  {
  }
}
