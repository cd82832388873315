/**
 The values a request handler sees and produces. Express keeps the request body, the
 session and the response as ambient mutable objects; here they are explicit values:
 a `State` (the users table plus the session), the request's `Credentials`, an `Env`
 holding what the outside world decides for this request (the salt bcrypt draws, the id
 the store assigns, which store or session calls fail), and a `Transition` carrying the
 reply and the next state.
 */
module Exchange {
  import opened Options
  import opened Password
  import opened UserStore

  /** What `req.session.user` holds after a login. */
  datatype SessionUser = SessionUser(userId: nat, username: string)

  /** An expired session is simply one without a user. */
  datatype State = State(users: Table, session: Option<SessionUser>)

  /** `req.body` of register and login; a missing password is `None`. */
  datatype Credentials = Credentials(username: string, password: Option<string>)

  /** The store and session calls made while serving one request. */
  datatype Call =
    | FreeLookup      // checkUsernameFree's query
    | ExistsLookup    // checkUsernameExists's query
    | InsertUser      // register's insert
    | FetchInserted   // register's re-read of the inserted row
    | LoginLookup     // login's own query
    | SessionDestroy  // logout's req.session.destroy

  /**
   The outside world for one request: the salt bcrypt draws, the id the store gives an
   inserted row, and the calls that fail.
   */
  datatype Env = Env(salt: Salt, newId: nat, down: set<Call>)

  /** An error passed on with `next(err)` to the error-handling middleware. */
  datatype Fault =
    | StoreUnavailable(call: Call)  // the query promise rejected
    | ConstraintViolation           // the insert broke a uniqueness constraint
    | IllegalArguments              // bcrypt was given no password
    | MissingRow                    // the re-read found no row, so `user.user_id` threw

  /** What a middleware does: call `next()`, answer itself, or call `next(err)`. */
  datatype Gate = Pass | Reject(status: nat, message: string) | Forward(fault: Fault)

  datatype Body = Message(text: string) | Created(userId: nat, username: string)

  /** A JSON response, or an error handed to the error-handling middleware. */
  datatype Reply = Json(status: nat, body: Body) | Forwarded(fault: Fault)

  datatype Transition = Transition(reply: Reply, state: State)

  const ShallNotPass := "You shall not pass!"
  const UsernameTaken := "Username taken"
  const InvalidCredentials := "Invalid credentials"
  const PasswordTooShort := "Password must be longer than 3 chars"
  const FailedToLogOut := "Failed to log out"
  const LoggedOut := "logged out"
  const NoSession := "no session"

  /** A password of this many characters or fewer is refused. */
  const MaxRejectedLength: nat := 3

  function WelcomeMessage(username: string): string
  {
    "Welcome " + username + "!"
  }

  /**
   Runs a middleware in front of `downstream`: on `Pass` the rest of the chain runs, on
   a rejection the middleware's own answer is sent and nothing changes, on an error it is
   forwarded and nothing changes.
   */
  function Chain(g: Gate, s: State, downstream: Transition): (t: Transition)
    ensures g.Pass? ==> t == downstream
    ensures g.Reject? ==> t == Transition(Json(g.status, Message(g.message)), s)
    ensures g.Forward? ==> t == Transition(Forwarded(g.fault), s)
  {
    match g
    case Pass => downstream
    case Reject(status, message) => Transition(Json(status, Message(message)), s)
    case Forward(fault) => Transition(Forwarded(fault), s)
  }

  /**
   The state invariant: the table meets its uniqueness constraints and a session names a
   user of the table.
   */
  predicate Consistent(s: State)
  {
    && WellFormed(s.users)
    && (s.session.Some? ==>
          exists i :: 0 <= i < |s.users|
            && s.users[i].userId == s.session.value.userId
            && s.users[i].username == s.session.value.username)
  }
}
