/** What the three handlers promise, alone and in sequence. */
module AuthProperties {
  import opened Wrappers
  import opened CredentialStore
  import opened AuthApi
  import Token
  import Decimal

  // ---------------------------------------------------------------- signup

  /** A request lacking a field is answered 400 before the store is read:
      the outcome does not depend on the environment, and nothing is written. */
  lemma SignupRejectsMissingFields(req: Request, env: Env, env': Env)
    requires req.Body? && !WellFormed(req)
    ensures Signup(req, env) == Reply(BadRequest)
    ensures Signup(req, env') == Signup(req, env)
  {
  }

  /** A name already in `users` is refused with 409 and the store is not written. */
  lemma SignupDuplicateIsConflict(req: Request, env: Env)
    requires WellFormed(req)
    requires GetAuthData(env.file).users.Some?
    requires exists i :: 0 <= i < |GetAuthData(env.file).users.value|
                      && GetAuthData(env.file).users.value[i].name == req.name.value
    ensures Signup(req, env) == Reply(Conflict)
  {
  }

  /** A new name is appended at the end of `users`, exactly once, and the
      whole document is written back; nothing else in it changes. */
  lemma SignupAppends(req: Request, env: Env)
    requires WellFormed(req) && env.writable
    requires GetAuthData(env.file).users.Some?
    requires forall i :: 0 <= i < |GetAuthData(env.file).users.value|
                      ==> GetAuthData(env.file).users.value[i].name != req.name.value
    ensures Signup(req, env).status == Created
    ensures Signup(req, env).saved
         == Some(AuthData(Some(GetAuthData(env.file).users.value + [Creds(req)]),
                          GetAuthData(env.file).admins))
  {
  }

  /** Signup never writes to `admins`. */
  lemma SignupKeepsAdmins(req: Request, env: Env)
    ensures Signup(req, env).saved.Some? ==>
      Signup(req, env).saved.value.admins == GetAuthData(env.file).admins
  {
  }

  /** The duplicate check looks only at `users`: a name known only as an
      admin can still sign up. */
  lemma SignupIgnoresAdmins(req: Request, env: Env)
    requires WellFormed(req) && env.writable
    requires GetAuthData(env.file).users.Some? && GetAuthData(env.file).admins.Some?
    requires exists a :: a in GetAuthData(env.file).admins.value && a.name == req.name.value
    requires !NameTaken(GetAuthData(env.file).users.value, req.name.value)
    ensures Signup(req, env).status == Created
  {
  }

  /** Distinct names in `users` stay distinct across a signup. */
  lemma SignupPreservesUniqueNames(req: Request, env: Env)
    requires GetAuthData(env.file).users.Some?
    requires UniqueNames(GetAuthData(env.file).users.value)
    ensures Signup(req, env).saved.Some? ==>
      Signup(req, env).saved.value.users.Some? &&
      UniqueNames(Signup(req, env).saved.value.users.value)
  {
    var out := Signup(req, env);
    if out.saved.Some? {
      var users := GetAuthData(env.file).users.value;
      var users' := out.saved.value.users.value;
      assert users' == users + [Creds(req)];
      assert !NameTaken(users, req.name.value);
      forall i, j | 0 <= i < j < |users'|
        ensures users'[i].name != users'[j].name
      {
        if j == |users| {
          assert users'[j] == Creds(req);
          assert users'[i] == users[i];
        }
      }
    }
  }

  /** With the file missing or unreadable the store is empty, so the first
      signup succeeds and writes a document holding just that user (the
      unreadable file is overwritten). */
  lemma FirstSignupOnFallbackStore(req: Request, env: Env)
    requires WellFormed(req) && env.writable
    requires env.file.Absent? || env.file.Unreadable?
    ensures Signup(req, env) == Outcome(Created, None, Some(AuthData(Some([Creds(req)]), Some([]))))
  {
    var empty: seq<Cred> := [];
    assert empty + [Creds(req)] == [Creds(req)];
  }

  /** A failed write is reported as 500 and leaves the file as it was. */
  lemma SignupWriteFailure(req: Request, env: Env)
    requires !env.writable
    ensures Signup(req, env).saved.None?
    ensures After(env, Signup(req, env)) == env.file
    ensures WellFormed(req) && GetAuthData(env.file).users.Some?
            && !NameTaken(GetAuthData(env.file).users.value, req.name.value)
            ==> Signup(req, env).status == ServerError
  {
  }

  /** Signing up twice with one name: the second attempt is refused, and the
      stored `users` holds that name exactly once. */
  lemma SignupTwice(req: Request, req': Request, env: Env, env': Env)
    requires WellFormed(req) && WellFormed(req') && req'.name == req.name
    requires Signup(req, env).status == Created
    requires env'.file == After(env, Signup(req, env))
    ensures Signup(req', env') == Reply(Conflict)
    ensures CountName(Signup(req, env).saved.value.users.value, req.name.value) == 1
  {
    var users := GetAuthData(env.file).users.value;
    var users' := Signup(req, env).saved.value.users.value;
    assert users' == users + [Creds(req)];
    assert users'[|users|].name == req.name.value;
    CountNameAppend(users, Creds(req), req.name.value);
  }

  // ---------------------------------------------------------- server errors

  /** A body `request.json()` rejects is caught and answered 500 by every
      handler, before the store is read; nothing is written. */
  lemma UnparsableRequestIsServerError(env: Env)
    ensures Signup(Request.Unparsable, env) == Reply(ServerError)
    ensures UserLogin(Request.Unparsable, env) == Reply(ServerError)
    ensures AdminLogin(Request.Unparsable, env) == Reply(ServerError)
  {
  }

  /** When the parsed document has no `users` array, `.some` and `.find` on
      it throw: signup and user login answer 500 and nothing is written. */
  lemma MissingUsersIsServerError(req: Request, doc: AuthData, writable: bool, now: nat)
    requires WellFormed(req) && doc.users.None?
    ensures Signup(req, Env(Holds(doc), writable, now)) == Reply(ServerError)
    ensures UserLogin(req, Env(Holds(doc), writable, now)) == Reply(ServerError)
  {
  }

  /** When the parsed document has no `admins` array, admin login answers 500. */
  lemma MissingAdminsIsServerError(req: Request, doc: AuthData, writable: bool, now: nat)
    requires WellFormed(req) && doc.admins.None?
    ensures AdminLogin(req, Env(Holds(doc), writable, now)) == Reply(ServerError)
  {
  }

  /** Only the handler that touches a list fails when it is missing: signup
      and user login do not depend on `admins` at all (signup writes the
      missing field back as it found it), and admin login does not depend
      on `users`. */
  lemma MissingListOnlyAffectsItsReaders(req: Request, users: Option<seq<Cred>>,
                                        admins: Option<seq<Cred>>, writable: bool, now: nat)
    ensures var withAdmins := Env(Holds(AuthData(users, admins)), writable, now);
            var noAdmins := Env(Holds(AuthData(users, None)), writable, now);
            && Signup(req, noAdmins).status == Signup(req, withAdmins).status
            && (Signup(req, noAdmins).saved.Some? ==>
                  Signup(req, noAdmins).saved.value == Signup(req, withAdmins).saved.value.(admins := None))
            && UserLogin(req, noAdmins) == UserLogin(req, withAdmins)
    ensures AdminLogin(req, Env(Holds(AuthData(None, admins)), writable, now))
         == AdminLogin(req, Env(Holds(AuthData(users, admins)), writable, now))
  {
  }

  // ---------------------------------------------------------------- logins

  /** A login request lacking a field is answered 400 before the store is
      read; logins never write the store. */
  lemma LoginRejectsMissingFields(role: Role, req: Request, env: Env, env': Env)
    requires req.Body? && !WellFormed(req)
    ensures Login(role, req, env) == Reply(BadRequest)
    ensures Login(role, req, env') == Login(role, req, env)
  {
  }

  /** User login on a readable `users` list: 200 exactly when some record
      equals both fields (and the payload is Latin-1, else `btoa` throws and
      the answer is 500), 401 exactly when none does. On 200 the token is
      `btoa(name:now)`. */
  lemma UserLoginDecides(req: Request, env: Env)
    requires WellFormed(req)
    requires GetAuthData(env.file).users.Some?
    ensures UserLogin(req, env).status == Unauthorized
        <==> Creds(req) !in GetAuthData(env.file).users.value
    ensures UserLogin(req, env).status == Ok
        <==> Creds(req) in GetAuthData(env.file).users.value && Token.IsLatin1(req.name.value)
    ensures UserLogin(req, env).status == Ok ==>
      UserLogin(req, env).token == Token.Btoa(Token.UserPayload(req.name.value, env.now))
  {
    var payload := Token.UserPayload(req.name.value, env.now);
    assert Token.IsLatin1(payload) <==> Token.IsLatin1(req.name.value) by {
      assert forall i :: 0 <= i < |req.name.value| ==> payload[i] == req.name.value[i];
      if Token.IsLatin1(req.name.value) {
        forall i | 0 <= i < |payload| ensures payload[i] as int < 256 {
          if i >= |req.name.value| + 1 {
            assert payload[i] == Decimal.Show(env.now)[i - |req.name.value| - 1];
          }
        }
      }
    }
  }

  /** Admin login on a readable `admins` list: as user login, searching
      `admins` and minting `btoa(admin:name:now)`. */
  lemma AdminLoginDecides(req: Request, env: Env)
    requires WellFormed(req)
    requires GetAuthData(env.file).admins.Some?
    ensures AdminLogin(req, env).status == Unauthorized
        <==> Creds(req) !in GetAuthData(env.file).admins.value
    ensures AdminLogin(req, env).status == Ok
        <==> Creds(req) in GetAuthData(env.file).admins.value && Token.IsLatin1(req.name.value)
    ensures AdminLogin(req, env).status == Ok ==>
      AdminLogin(req, env).token == Token.Btoa(Token.AdminPayload(req.name.value, env.now))
  {
    var payload := Token.AdminPayload(req.name.value, env.now);
    var m := |Token.AdminMarker|;
    assert Token.IsLatin1(payload) <==> Token.IsLatin1(req.name.value) by {
      assert forall i :: 0 <= i < |req.name.value| ==> payload[m + i] == req.name.value[i];
      if Token.IsLatin1(req.name.value) {
        forall i | 0 <= i < |payload| ensures payload[i] as int < 256 {
          if i < m {
            assert payload[i] == Token.AdminMarker[i];
          } else if i >= m + |req.name.value| + 1 {
            assert payload[i] == Decimal.Show(env.now)[i - m - |req.name.value| - 1];
          }
        }
      }
    }
  }

  /** With distinct user names, the right name with a wrong password is 401. */
  lemma WrongPasswordIsUnauthorized(req: Request, env: Env, stored: Cred)
    requires WellFormed(req)
    requires GetAuthData(env.file).users.Some?
    requires UniqueNames(GetAuthData(env.file).users.value)
    requires stored in GetAuthData(env.file).users.value
    requires stored.name == req.name.value && stored.password != req.password.value
    ensures UserLogin(req, env).status == Unauthorized
  {
    UserLoginDecides(req, env);
  }

  /** Credentials held only in `admins` do not log in as a user. */
  lemma AdminOnlyCredentialsFailUserLogin(req: Request, env: Env)
    requires WellFormed(req)
    requires GetAuthData(env.file).users.Some? && GetAuthData(env.file).admins.Some?
    requires Creds(req) in GetAuthData(env.file).admins.value
    requires Creds(req) !in GetAuthData(env.file).users.value
    ensures UserLogin(req, env).status == Unauthorized
  {
    UserLoginDecides(req, env);
  }

  /** Credentials held only in `users` do not log in as an admin. */
  lemma UserOnlyCredentialsFailAdminLogin(req: Request, env: Env)
    requires WellFormed(req)
    requires GetAuthData(env.file).users.Some? && GetAuthData(env.file).admins.Some?
    requires Creds(req) in GetAuthData(env.file).users.value
    requires Creds(req) !in GetAuthData(env.file).admins.value
    ensures AdminLogin(req, env).status == Unauthorized
  {
    AdminLoginDecides(req, env);
  }

  /** With the file missing or unreadable there are no admins, so every
      well-formed admin login is refused. */
  lemma AdminLoginOnFallbackStoreFails(req: Request, env: Env)
    requires WellFormed(req)
    requires env.file.Absent? || env.file.Unreadable?
    ensures AdminLogin(req, env) == Reply(Unauthorized)
  {
  }

  /** A user token decodes to `name:now`, which splits back into the name and
      the login time. */
  lemma UserTokenDecodes(req: Request, env: Env)
    requires UserLogin(req, env).status == Ok
    ensures Token.StrictDecode(UserLogin(req, env).token.value)
         == Some(Token.UserPayload(req.name.value, env.now))
    ensures Token.ParseUserPayload(Token.UserPayload(req.name.value, env.now))
         == Some((req.name.value, env.now))
  {
    var payload := Token.UserPayload(req.name.value, env.now);
    assert Token.Btoa(payload).Some?;
    Token.StrictDecodeOfBtoa(payload);
    Token.ParseUserPayloadOfUserPayload(req.name.value, env.now);
  }

  /** An admin token decodes to `admin:name:now`, which splits back into the
      name and the login time. */
  lemma AdminTokenDecodes(req: Request, env: Env)
    requires AdminLogin(req, env).status == Ok
    ensures Token.StrictDecode(AdminLogin(req, env).token.value)
         == Some(Token.AdminPayload(req.name.value, env.now))
    ensures Token.ParseAdminPayload(Token.AdminPayload(req.name.value, env.now))
         == Some((req.name.value, env.now))
  {
    var payload := Token.AdminPayload(req.name.value, env.now);
    assert Token.Btoa(payload).Some?;
    Token.StrictDecodeOfBtoa(payload);
    Token.ParseAdminPayloadOfAdminPayload(req.name.value, env.now);
  }

  /** Tokens carry no role of their own: a user named `admin:n` receives, at
      the same instant, the very token an admin `n` receives. */
  lemma UserTokenCanEqualAdminToken(admin: Request, user: Request, env: Env)
    requires WellFormed(admin) && WellFormed(user)
    requires user.name.value == Token.AdminMarker + admin.name.value
    requires AdminLogin(admin, env).status == Ok && UserLogin(user, env).status == Ok
    ensures UserLogin(user, env).token == AdminLogin(admin, env).token
  {
    Token.AdminPayloadIsUserPayload(admin.name.value, env.now);
    AdminLoginDecides(admin, env);
    UserLoginDecides(user, env);
  }

  // ------------------------------------------------------------ composition

  /** After a successful signup, logging in as a user with the same
      credentials on the file it wrote yields 200 and a non-empty token,
      unless `btoa` cannot encode the name, in which case it yields 500. */
  lemma SignupThenUserLogin(req: Request, env: Env, env': Env)
    requires Signup(req, env).status == Created
    requires env'.file == After(env, Signup(req, env))
    ensures Token.IsLatin1(req.name.value) ==>
      UserLogin(req, env').status == Ok && |UserLogin(req, env').token.value| > 0
    ensures !Token.IsLatin1(req.name.value) ==> UserLogin(req, env').status == ServerError
  {
    var users := GetAuthData(env.file).users.value;
    assert GetAuthData(env'.file).users == Some(users + [Creds(req)]);
    assert (users + [Creds(req)])[|users|] == Creds(req);
    UserLoginDecides(req, env');
    if Token.IsLatin1(req.name.value) {
      UserTokenDecodes(req, env');
      var payload := Token.UserPayload(req.name.value, env'.now);
      assert |payload| > 0;
      Token.StrictDecodeOfBtoa(payload);
      Token.BtoaNonEmpty(payload);
    }
  }

  /** The concrete exchange on any store that has no alice yet: sign up
      alice, sign up alice again, log in with a wrong password, then with the
      right one. */
  lemma AliceScenario(env: Env)
    requires GetAuthData(env.file).users.Some? && env.writable
    requires !NameTaken(GetAuthData(env.file).users.value, "alice")
    ensures var signup := Request.Body(Some("alice"), Some("secret1"));
            var wrong := Request.Body(Some("alice"), Some("wrong"));
            var first := Signup(signup, env);
            var env' := env.(file := After(env, first));
            && first.status == Created
            && Signup(signup, env').status == Conflict
            && UserLogin(wrong, env').status == Unauthorized
            && UserLogin(signup, env').status == Ok
            && |UserLogin(signup, env').token.value| > 0
  {
    var signup := Request.Body(Some("alice"), Some("secret1"));
    var wrong := Request.Body(Some("alice"), Some("wrong"));
    var first := Signup(signup, env);
    var env' := env.(file := After(env, first));
    var users := GetAuthData(env.file).users.value;
    SignupAppends(signup, env);
    SignupTwice(signup, signup, env, env');
    assert GetAuthData(env'.file).users.value == users + [Cred("alice", "secret1")];
    assert Cred("alice", "wrong") !in users + [Cred("alice", "secret1")];
    UserLoginDecides(wrong, env');
    assert Token.IsLatin1("alice");
    SignupThenUserLogin(signup, env, env');
  }
}
