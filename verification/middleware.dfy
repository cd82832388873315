/** The four middleware functions of the auth layer, each a decision over one request. */
module AuthMiddleware {
  import opened Options
  import opened UserStore
  import opened Exchange

  /** A request is authenticated when its session carries a user. */
  predicate LoggedIn(s: State)
  {
    s.session.Some?
  }

  /** `restricted`: refuses a request whose session has no user. */
  function Restricted(s: State): (g: Gate)
    ensures g.Reject? <==> !LoggedIn(s)
    ensures g.Pass? <==> LoggedIn(s)
    ensures g.Reject? ==> g.status == 401 && g.message == ShallNotPass
  {
    if s.session.None? then Reject(401, ShallNotPass) else Pass
  }

  /**
   A route mounted behind `restricted`: `handler` stands for whatever the route does and
   is reached only with a session user; a refused request changes neither the session
   nor the users table.
   */
  function Protect(s: State, handler: State -> Transition): (t: Transition)
    ensures LoggedIn(s) ==> t == handler(s)
    ensures !LoggedIn(s) ==> t.reply == Json(401, Message(ShallNotPass)) && t.state == s
  {
    Chain(Restricted(s), s, handler(s))
  }

  /** `checkUsernameFree`: refuses a username that is already in the table. */
  function CheckUsernameFree(users: Table, req: Credentials, env: Env): (g: Gate)
    ensures FreeLookup in env.down ==> g == Forward(StoreUnavailable(FreeLookup))
    ensures FreeLookup !in env.down ==> !g.Forward?
    ensures FreeLookup !in env.down ==> (g.Reject? <==> HasUsername(users, req.username))
    ensures g.Reject? ==> g.status == 422 && g.message == UsernameTaken
  {
    if FreeLookup in env.down then Forward(StoreUnavailable(FreeLookup))
    else if FindByUsername(users, req.username).Some? then Reject(422, UsernameTaken)
    else Pass
  }

  /** `checkUsernameExists`: refuses a username that is not in the table. */
  function CheckUsernameExists(users: Table, req: Credentials, env: Env): (g: Gate)
    ensures ExistsLookup in env.down ==> g == Forward(StoreUnavailable(ExistsLookup))
    ensures ExistsLookup !in env.down ==> !g.Forward?
    ensures ExistsLookup !in env.down ==> (g.Reject? <==> !HasUsername(users, req.username))
    ensures g.Reject? ==> g.status == 401 && g.message == InvalidCredentials
  {
    if ExistsLookup in env.down then Forward(StoreUnavailable(ExistsLookup))
    else if FindByUsername(users, req.username).None? then Reject(401, InvalidCredentials)
    else Pass
  }

  /** The password policy: present and longer than three characters. */
  predicate StrongEnough(password: Option<string>)
  {
    password.Some? && |password.value| > MaxRejectedLength
  }

  /** `checkPasswordLength`: refuses a missing password or one of three characters or fewer. */
  function CheckPasswordLength(req: Credentials): (g: Gate)
    ensures !g.Forward?
    ensures g.Pass? <==> StrongEnough(req.password)
    ensures g.Reject? ==> g.status == 422 && g.message == PasswordTooShort
  {
    if req.password.None? || |req.password.value| <= MaxRejectedLength then
      Reject(422, PasswordTooShort)
    else Pass
  }

  /** On the same table and username, exactly one of the two username checks passes. */
  lemma UsernameChecksAreComplementary(users: Table, req: Credentials, env: Env)
    requires FreeLookup !in env.down && ExistsLookup !in env.down
    ensures CheckUsernameFree(users, req, env).Pass? != CheckUsernameExists(users, req, env).Pass?
  {
  }

  /** The policy boundary: three characters are refused, four are accepted. */
  lemma PasswordBoundary(req: Credentials)
    ensures CheckPasswordLength(req.(password := Some("123"))) == Reject(422, PasswordTooShort)
    ensures CheckPasswordLength(req.(password := Some("1234"))) == Pass
    ensures CheckPasswordLength(req.(password := None)) == Reject(422, PasswordTooShort)
    ensures CheckPasswordLength(req.(password := Some(""))) == Reject(422, PasswordTooShort)
  {
  }
}
