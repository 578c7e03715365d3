/**
 * `LoginHandler` of backend/login.go: the same guard as signup, the lookup by
 * email or username, one message for every credential failure, and the session
 * replacement, run as two separate statements outside any transaction.
 */
module Login {
  import opened Base
  import opened Http
  import opened Validation
  import opened Hex
  import opened Database
  import opened Credentials

  const Template := "login.html"
  const LandingPage := "/post"


  const MsgRequired := "Email and password required"
  const MsgInvalidCredentials := "Invalid email or password"

  /** The identifier: the form's `email` field, which may also hold a username. */
  function Identifier(form: map<string, string>): string { FormValue(form, "email") }

  /** A POST to a clean path whose form parsed and whose two fields are non-empty. */
  predicate CredentialsGiven(req: Request, clean: string -> string) {
    && Guard(req, clean, Template).None?
    && req.form.Some?
    && Identifier(req.form.value) != "" && Password(req.form.value) != ""
  }

  /**
   * The outcome of each call outside this model: whether the user query fails
   * (other than by finding no row), what `rand.Read` returns, whether the DELETE
   * and the INSERT on `sessions` fail, and the clock, in seconds.
   */
  datatype LoginEnv = LoginEnv(queryFails: bool, random: Option<Entropy>,
                               deleteFails: bool, insertFails: bool, now: int)

  /**
   * The session replacement: `DELETE FROM sessions WHERE user_id = ?` and then a
   * separate INSERT. A failed delete changes nothing; a failed insert comes after
   * the delete has taken effect and leaves the user with no session at all.
   */
  method ReplaceSession(db: Store, userId: int, token: string, expires: int, env: LoginEnv)
    returns (resp: Response)
    requires db.Valid() && userId in db.users
    modifies db
    ensures db.Valid()
    ensures env.deleteFails ==> resp == Status(StatusInternalServerError) && db.State() == old(db.State())
    ensures resp.SeeOther? <==> !env.deleteFails && !env.insertFails
                                && forall s :: s in SessionsWithout(old(db.sessions), userId) ==> s.token != token
    ensures resp.SeeOther? ==>
            && resp == SeeOther(LandingPage, Cookie(token, expires))
            && db.State() == old(db.State()).(
                 sessions := SessionsWithout(old(db.sessions), userId) + {Session(token, userId, expires)})
    ensures !env.deleteFails && !resp.SeeOther? ==>
            && resp == Status(StatusInternalServerError)
            && db.State() == old(db.State()).(sessions := SessionsWithout(old(db.sessions), userId))
  {
    if env.deleteFails {
      return Status(StatusInternalServerError);
    }
    db.DeleteSessionsOf(userId);
    if env.insertFails {
      return Status(StatusInternalServerError);
    }
    var stored := db.InsertSession(token, userId, expires);
    if !stored {
      return Status(StatusInternalServerError);
    }
    resp := SeeOther(LandingPage, Cookie(token, expires));
  }

  /**
   * After the form checks: look the identifier up, compare the password, make a
   * token, replace the session. `who` is the user the query returned, if any.
   * An unknown identifier and a wrong password give the same page and change
   * nothing; so does a failed query, a failed token and a failed delete.
   */
  method Authenticate(db: Store, ident: string, password: string, hasher: Hasher, env: LoginEnv)
    returns (resp: Response, ghost who: Option<int>)
    requires db.Valid()
    modifies db
    ensures db.Valid()
    ensures who.Some? ==> who.value in old(db.users) && MatchesIdentifier(old(db.users)[who.value], ident)
    ensures !env.queryFails ==> (who.None? <==> !exists k :: k in old(db.users) && MatchesIdentifier(old(db.users)[k], ident))
    ensures env.queryFails ==> resp == Status(StatusInternalServerError) && db.State() == old(db.State())
    ensures !env.queryFails && who.None? ==> resp == Page(Template, StatusOK, MsgInvalidCredentials)
    ensures !env.queryFails && who.Some? && !hasher.verify(old(db.users)[who.value].passwordHash, password)
            ==> resp == Page(Template, StatusOK, MsgInvalidCredentials)
    ensures resp.Page? ==> resp == Page(Template, StatusOK, MsgInvalidCredentials) && db.State() == old(db.State())
    ensures resp.Page? ==> !env.queryFails && (who.None? || !hasher.verify(old(db.users)[who.value].passwordHash, password))
    ensures !env.queryFails && who.Some? && hasher.verify(old(db.users)[who.value].passwordHash, password)
            && (env.random.None? || env.deleteFails) ==>
            resp == Status(StatusInternalServerError) && db.State() == old(db.State())
    ensures (env.random.None? || env.deleteFails) && !resp.Page? ==>
            resp == Status(StatusInternalServerError) && db.State() == old(db.State())
    ensures resp.SeeOther? <==>
            && !env.queryFails && who.Some? && hasher.verify(old(db.users)[who.value].passwordHash, password)
            && env.random.Some? && !env.deleteFails && !env.insertFails
            && forall s :: s in SessionsWithout(old(db.sessions), who.value) ==> s.token != HexOf(env.random.value)
    ensures resp.SeeOther? ==>
            var token := HexOf(env.random.value);
            && resp == SeeOther(LandingPage, Cookie(token, env.now + SessionLifetime))
            && db.State() == old(db.State()).(
                 sessions := SessionsWithout(old(db.sessions), who.value) + {Session(token, who.value, env.now + SessionLifetime)})
    ensures who.Some? && hasher.verify(old(db.users)[who.value].passwordHash, password)
            && env.random.Some? && !env.deleteFails && !resp.SeeOther? ==>
            && resp == Status(StatusInternalServerError)
            && db.State() == old(db.State()).(sessions := SessionsWithout(old(db.sessions), who.value))
  {
    who := None;
    if env.queryFails {
      return Status(StatusInternalServerError), who;
    }
    var found := db.FindLoginUser(ident);
    if found.None? {
      return Page(Template, StatusOK, MsgInvalidCredentials), who;
    }
    var userId := found.value;
    who := found;
    if !hasher.verify(db.users[userId].passwordHash, password) {
      return Page(Template, StatusOK, MsgInvalidCredentials), who;
    }
    var token := GenerateRandomToken(env.random);
    if token == "" {
      return Status(StatusInternalServerError), who;
    }
    resp := ReplaceSession(db, userId, token, env.now + SessionLifetime, env);
  }

  /** The handler: the shared guard, the form, the two required fields, then `Authenticate`. */
  method LoginHandler(db: Store, req: Request, clean: string -> string, hasher: Hasher, env: LoginEnv)
    returns (resp: Response, ghost who: Option<int>)
    requires db.Valid()
    modifies db
    ensures db.Valid()
    ensures Guard(req, clean, Template).Some? ==>
            resp == Guard(req, clean, Template).value && db.State() == old(db.State())
    ensures Guard(req, clean, Template).None? && req.form.None? ==>
            resp == Status(StatusBadRequest) && db.State() == old(db.State())
    ensures Guard(req, clean, Template).None? && req.form.Some?
            && (Identifier(req.form.value) == "" || Password(req.form.value) == "") ==>
            resp == Page(Template, StatusOK, MsgRequired) && db.State() == old(db.State())
    ensures who.Some? ==> CredentialsGiven(req, clean) && who.value in old(db.users)
                          && MatchesIdentifier(old(db.users)[who.value], Identifier(req.form.value))
    ensures CredentialsGiven(req, clean) && !env.queryFails ==>
            (who.None? <==> !exists k :: k in old(db.users) && MatchesIdentifier(old(db.users)[k], Identifier(req.form.value)))
    ensures resp == Page(Template, StatusOK, MsgInvalidCredentials) ==>
            && CredentialsGiven(req, clean) && !env.queryFails
            && (who.None? || !hasher.verify(old(db.users)[who.value].passwordHash, Password(req.form.value)))
            && db.State() == old(db.State())
    ensures CredentialsGiven(req, clean) && env.queryFails ==>
            resp == Status(StatusInternalServerError) && db.State() == old(db.State())
    ensures CredentialsGiven(req, clean) && !env.queryFails && who.Some?
            && hasher.verify(old(db.users)[who.value].passwordHash, Password(req.form.value))
            && (env.random.None? || env.deleteFails) ==>
            resp == Status(StatusInternalServerError) && db.State() == old(db.State())
    ensures CredentialsGiven(req, clean) && !env.queryFails && who.None? ==>
            resp == Page(Template, StatusOK, MsgInvalidCredentials)
    ensures CredentialsGiven(req, clean) && !env.queryFails && who.Some?
            && !hasher.verify(old(db.users)[who.value].passwordHash, Password(req.form.value)) ==>
            resp == Page(Template, StatusOK, MsgInvalidCredentials)
    ensures resp.SeeOther? <==>
            && CredentialsGiven(req, clean) && !env.queryFails && who.Some?
            && hasher.verify(old(db.users)[who.value].passwordHash, Password(req.form.value))
            && env.random.Some? && !env.deleteFails && !env.insertFails
            && forall s :: s in SessionsWithout(old(db.sessions), who.value) ==> s.token != HexOf(env.random.value)
    ensures resp.SeeOther? ==>
            var token := HexOf(env.random.value);
            && resp == SeeOther(LandingPage, Cookie(token, env.now + SessionLifetime))
            && db.State() == old(db.State()).(
                 sessions := SessionsWithout(old(db.sessions), who.value) + {Session(token, who.value, env.now + SessionLifetime)})
    ensures !resp.SeeOther? && !(who.Some? && env.random.Some? && !env.deleteFails) ==> db.State() == old(db.State())
    ensures who.Some? && hasher.verify(old(db.users)[who.value].passwordHash, Password(req.form.value))
            && env.random.Some? && !env.deleteFails && !resp.SeeOther? ==>
            && resp == Status(StatusInternalServerError)
            && db.State() == old(db.State()).(sessions := SessionsWithout(old(db.sessions), who.value))
  {
    who := None;
    var guard := Guard(req, clean, Template);
    if guard.Some? {
      return guard.value, who;
    }
    if req.form.None? {
      return Status(StatusBadRequest), who;
    }
    var form := req.form.value;
    var ident, password := Identifier(form), Password(form);
    if ident == "" || password == "" {
      return Page(Template, StatusOK, MsgRequired), who;
    }
    resp, who := Authenticate(db, ident, password, hasher, env);
  }

  /**
   * After a replacement the user owns exactly one session, the new one; no other
   * user's session changed; and the schema's session constraints still hold.
   */
  lemma ReplacementLeavesOneSession(sessions: set<Session>, userId: int, token: string, expires: int)
    requires SessionsUnique(sessions)
    requires forall s :: s in SessionsWithout(sessions, userId) ==> s.token != token
    ensures var r := SessionsWithout(sessions, userId) + {Session(token, userId, expires)};
      && SessionsUnique(r)
      && (forall s :: s in r && s.userId == userId ==> s == Session(token, userId, expires))
      && (forall s :: s in sessions && s.userId != userId <==> s in r && s.userId != userId)
      && (forall s :: s in sessions && s.userId == userId && s.token != token ==> s !in r)
  {
  }

  /**
   * When every user came in through signup's validators, an identifier matches at
   * most one user: emails and usernames are unique, and no username can equal an
   * email, because an email holds an `@` and a username cannot.
   */
  lemma IdentifierMatchesAtMostOne(users: map<int, User>, ident: string, a: int, b: int)
    requires UsersUnique(users)
    requires forall k :: k in users ==> ValidUsername(users[k].username) && EmailShape(users[k].email)
    requires a in users && MatchesIdentifier(users[a], ident)
    requires b in users && MatchesIdentifier(users[b], ident)
    ensures a == b
  {
  }
}
