/** The three POST handlers (`signup`, `user-login`, `admin-login`) as pure
    functions of the request and of the environment a request sees: the
    backing file, whether a write to it would succeed, and the clock. Each
    returns the HTTP status, the token if one was issued, and the document
    written back, if any. Response messages and logging are not modelled. */
module AuthApi {
  import opened Wrappers
  import opened CredentialStore
  import Token

  const Ok: nat := 200
  const Created: nat := 201
  const BadRequest: nat := 400
  const Unauthorized: nat := 401
  const Conflict: nat := 409
  const ServerError: nat := 500

  /** The request body. `Unparsable` is a body `request.json()` rejects; a
      field is `None` when it is absent or a falsy non-string value. */
  datatype Request = Unparsable | Body(name: Option<string>, password: Option<string>)

  /** What a request sees of the outside world: the backing file, whether
      writing it succeeds, and `Date.now()`. */
  datatype Env = Env(file: FileState, writable: bool, now: nat)

  /** The status, the issued token, and the document written to the file. */
  datatype Outcome = Outcome(status: nat, token: Option<string>, saved: Option<AuthData>)

  /** Which list a login searches and which token payload it mints. */
  datatype Role = User | Admin

  /** The field passes `!field`: present and not the empty string. */
  predicate Present(f: Option<string>)
  {
    f.Some? && f.value != ""
  }

  /** Both fields pass the handlers' presence check. */
  predicate WellFormed(req: Request)
  {
    req.Body? && Present(req.name) && Present(req.password)
  }

  /** The credentials a well-formed request carries. */
  function Creds(req: Request): Cred
    requires WellFormed(req)
  {
    Cred(req.name.value, req.password.value)
  }

  /** A response without token that writes nothing. */
  function Reply(status: nat): Outcome
  {
    Outcome(status, None, None)
  }

  /** The file as the next request sees it. */
  function After(env: Env, out: Outcome): FileState
  {
    FileAfter(env.file, out.saved)
  }

  /** POST /api/auth/signup. */
  function Signup(req: Request, env: Env): (out: Outcome)
    ensures out.token.None?
    ensures out.saved.Some? <==> out.status == Created
    ensures out.status in {BadRequest, Conflict, Created, ServerError}
    ensures out.status == BadRequest <==> req.Body? && !WellFormed(req)
  {
    if req.Unparsable? then Reply(ServerError)
    else if !WellFormed(req) then Reply(BadRequest)
    else
      var data := GetAuthData(env.file);
      match data.users
      case None => Reply(ServerError)
      case Some(users) =>
        if NameTaken(users, req.name.value) then Reply(Conflict)
        else
          var updated := data.(users := Some(users + [Creds(req)]));
          match SaveAuthData(updated, env.writable)
          case None => Reply(ServerError)
          case Some(written) => Outcome(Created, None, Some(written))
  }

  function ListFor(role: Role, data: AuthData): Option<seq<Cred>>
  {
    match role
    case User => data.users
    case Admin => data.admins
  }

  function Payload(role: Role, name: string, now: nat): string
  {
    match role
    case User => Token.UserPayload(name, now)
    case Admin => Token.AdminPayload(name, now)
  }

  /** The body both login handlers share: validate, load, search the role's
      list for an exact match, and on a match mint `btoa(payload)`. */
  function Login(role: Role, req: Request, env: Env): (out: Outcome)
    ensures out.saved.None?
    ensures out.token.Some? <==> out.status == Ok
    ensures out.status in {BadRequest, Unauthorized, Ok, ServerError}
    ensures out.status == BadRequest <==> req.Body? && !WellFormed(req)
  {
    if req.Unparsable? then Reply(ServerError)
    else if !WellFormed(req) then Reply(BadRequest)
    else
      match ListFor(role, GetAuthData(env.file))
      case None => Reply(ServerError)
      case Some(list) =>
        if FindMatch(list, req.name.value, req.password.value).None? then Reply(Unauthorized)
        else
          match Token.Btoa(Payload(role, req.name.value, env.now))
          case None => Reply(ServerError)
          case Some(token) => Outcome(Ok, Some(token), None)
  }

  /** POST /api/auth/user-login. */
  function UserLogin(req: Request, env: Env): (out: Outcome)
    ensures out.saved.None?
    ensures out.status == Ok ==> WellFormed(req) && out.token.Some?
    ensures out.status == Ok ==>
      GetAuthData(env.file).users.Some? && Creds(req) in GetAuthData(env.file).users.value
  {
    Login(User, req, env)
  }

  /** POST /api/auth/admin-login. */
  function AdminLogin(req: Request, env: Env): (out: Outcome)
    ensures out.saved.None?
    ensures out.status == Ok ==> WellFormed(req) && out.token.Some?
    ensures out.status == Ok ==>
      GetAuthData(env.file).admins.Some? && Creds(req) in GetAuthData(env.file).admins.value
  {
    Login(Admin, req, env)
  }
}
