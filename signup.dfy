/**
 * `SignupHandler` of backend/signup.go: the guard, the field checks in their
 * fixed order, the two uniqueness queries, and the transaction that inserts the
 * user and the first session together.
 */
module Signup {
  import opened Base
  import opened Http
  import opened Validation
  import opened Hex
  import opened Database
  import opened Credentials

  const Template := "signup.html"
  const HomePage := "/"

  const MinPasswordBytes := 8

  const MsgRequired := "All fields are required"
  const MsgInvalidEmail := "Invalid email"
  const MsgInvalidUsername := "Invalid username"
  const MsgShortPassword := "Password must be >= 8 chars"
  const MsgEmailTaken := "Email already taken"
  const MsgUsernameTaken := "Username already taken"

  /**
   * The field checks: the first one that fails decides the message. An empty
   * field is answered with status 200, every other rejection with 203. The
   * password length is counted in bytes.
   */
  function CheckFields(username: string, email: string, password: string): (r: Option<Response>)
    ensures r.None? <==> username != "" && email != "" && password != ""
                         && EmailShape(email) && ValidUsername(username) && Utf8Length(password) >= MinPasswordBytes
    ensures username == "" || email == "" || password == "" ==> r == Some(Page(Template, StatusOK, MsgRequired))
    ensures username != "" && email != "" && password != "" && !EmailShape(email)
            ==> r == Some(Page(Template, StatusNonAuthoritativeInfo, MsgInvalidEmail))
    ensures username != "" && email != "" && password != "" && EmailShape(email) && !ValidUsername(username)
            ==> r == Some(Page(Template, StatusNonAuthoritativeInfo, MsgInvalidUsername))
    ensures username != "" && email != "" && password != "" && EmailShape(email) && ValidUsername(username)
            && Utf8Length(password) < MinPasswordBytes
            ==> r == Some(Page(Template, StatusNonAuthoritativeInfo, MsgShortPassword))
  {
    if username == "" || email == "" || password == "" then Some(Page(Template, StatusOK, MsgRequired))
    else if !IsValidEmail(email) then Some(Page(Template, StatusNonAuthoritativeInfo, MsgInvalidEmail))
    else if !ValidUsername(username) then Some(Page(Template, StatusNonAuthoritativeInfo, MsgInvalidUsername))
    else if Utf8Length(password) < MinPasswordBytes then Some(Page(Template, StatusNonAuthoritativeInfo, MsgShortPassword))
    else None
  }

  /** The submitted fields, read with `FormValue`. */
  function Username(form: map<string, string>): string { FormValue(form, "username") }
  function Email(form: map<string, string>): string { FormValue(form, "email") }

  /** The request is a POST to a clean path whose form parsed and whose fields pass every check. */
  predicate FormAccepted(req: Request, clean: string -> string) {
    && Guard(req, clean, Template).None?
    && req.form.Some?
    && CheckFields(Username(req.form.value), Email(req.form.value), Password(req.form.value)).None?
  }

  /**
   * The outcome of every call the handler makes to something outside this model:
   * each database statement that may fail (`*Fails`), what `rand.Read` returns,
   * and the clock, in seconds.
   */
  datatype SignupEnv = SignupEnv(
    emailQueryFails: bool, usernameQueryFails: bool,
    beginFails: bool, insertUserFails: bool, lastInsertIdFails: bool,
    random: Option<Entropy>, insertSessionFails: bool, commitFails: bool,
    now: int)

  /** No session row holds `token`. */
  predicate TokenFree(sessions: set<Session>, token: string) {
    forall s :: s in sessions ==> s.token != token
  }

  /**
   * The transaction: insert the user, read its id, make a token, insert the
   * session, commit. Any failure rolls back, so either both rows are added or
   * the tables are as before.
   */
  method CreateAccount(db: Store, username: string, email: string, hash: string, env: SignupEnv)
    returns (resp: Response)
    requires db.Valid()
    requires !EmailTaken(db.users, email) && !UsernameTaken(db.users, username)
    modifies db
    ensures db.Valid()
    ensures resp.SeeOther? || resp == Status(StatusInternalServerError)
    ensures !resp.SeeOther? ==> db.State() == old(db.State())
    ensures resp.SeeOther? <==>
            && !env.beginFails && !env.insertUserFails && !env.lastInsertIdFails
            && env.random.Some? && TokenFree(old(db.sessions), HexOf(env.random.value))
            && !env.insertSessionFails && !env.commitFails
    ensures resp.SeeOther? ==>
            var id := old(db.nextUserId);
            var token := HexOf(env.random.value);
            && id !in old(db.users)
            && resp == SeeOther(HomePage, Cookie(token, env.now + SessionLifetime))
            && db.State() == old(db.State()).(
                 users := old(db.users)[id := User(username, email, hash, env.now)],
                 nextUserId := id + 1,
                 sessions := old(db.sessions) + {Session(token, id, env.now + SessionLifetime)})
  {
    // DB.Begin(); every early return below runs the deferred tx.Rollback()
    if env.beginFails {
      return Status(StatusInternalServerError);
    }
    var saved := db.State();
    if env.insertUserFails {
      db.Restore(saved);
      return Status(StatusInternalServerError);
    }
    var inserted, userId := db.InsertUser(username, email, hash, env.now);
    // the uniqueness queries leave the UNIQUE constraints nothing to reject
    assert inserted;
    if env.lastInsertIdFails {
      db.Restore(saved);
      return Status(StatusInternalServerError);
    }

    var token := GenerateRandomToken(env.random);
    if token == "" {
      db.Restore(saved);
      return Status(StatusInternalServerError);
    }
    var expires := env.now + SessionLifetime;
    if env.insertSessionFails {
      db.Restore(saved);
      return Status(StatusInternalServerError);
    }
    // a new user has no session yet, so only the token can clash
    assert forall s :: s in saved.sessions ==> s.userId in saved.users;
    var stored := db.InsertSession(token, userId, expires);
    if !stored {
      db.Restore(saved);
      return Status(StatusInternalServerError);
    }
    if env.commitFails {
      db.Restore(saved);
      return Status(StatusInternalServerError);
    }
    resp := SeeOther(HomePage, Cookie(token, expires));
  }

  /**
   * After the field checks: the email query, then the username query, then the
   * password hash, then the transaction. A taken email is reported before a
   * taken username; neither changes anything.
   */
  method Register(db: Store, username: string, email: string, password: string, hasher: Hasher, env: SignupEnv)
    returns (resp: Response)
    requires db.Valid()
    modifies db
    ensures db.Valid()
    ensures !resp.SeeOther? ==> db.State() == old(db.State())
    ensures env.emailQueryFails ==> resp == Status(StatusInternalServerError)
    ensures !env.emailQueryFails && EmailTaken(old(db.users), email)
            ==> resp == Page(Template, StatusNonAuthoritativeInfo, MsgEmailTaken)
    ensures !env.emailQueryFails && !EmailTaken(old(db.users), email) && env.usernameQueryFails
            ==> resp == Status(StatusInternalServerError)
    ensures !env.emailQueryFails && !EmailTaken(old(db.users), email)
            && !env.usernameQueryFails && UsernameTaken(old(db.users), username)
            ==> resp == Page(Template, StatusNonAuthoritativeInfo, MsgUsernameTaken)
    ensures resp.SeeOther? <==>
            && !env.emailQueryFails && !EmailTaken(old(db.users), email)
            && !env.usernameQueryFails && !UsernameTaken(old(db.users), username)
            && hasher.hash(password).Some?
            && !env.beginFails && !env.insertUserFails && !env.lastInsertIdFails
            && env.random.Some? && TokenFree(old(db.sessions), HexOf(env.random.value))
            && !env.insertSessionFails && !env.commitFails
    ensures resp.SeeOther? ==>
            var id := old(db.nextUserId);
            var token := HexOf(env.random.value);
            && id !in old(db.users)
            && resp == SeeOther(HomePage, Cookie(token, env.now + SessionLifetime))
            && db.State() == old(db.State()).(
                 users := old(db.users)[id := User(username, email, hasher.hash(password).value, env.now)],
                 nextUserId := id + 1,
                 sessions := old(db.sessions) + {Session(token, id, env.now + SessionLifetime)})
    ensures !env.emailQueryFails && !EmailTaken(old(db.users), email)
            && !env.usernameQueryFails && !UsernameTaken(old(db.users), username)
            && !resp.SeeOther?
            ==> resp == Status(StatusInternalServerError)
  {
    if env.emailQueryFails {
      return Status(StatusInternalServerError);
    }
    var emailCount := db.CountEmail(email);
    if emailCount > 0 {
      return Page(Template, StatusNonAuthoritativeInfo, MsgEmailTaken);
    }
    if env.usernameQueryFails {
      return Status(StatusInternalServerError);
    }
    var usernameCount := db.CountUsername(username);
    if usernameCount > 0 {
      return Page(Template, StatusNonAuthoritativeInfo, MsgUsernameTaken);
    }
    var hash := hasher.hash(password);
    if hash.None? {
      return Status(StatusInternalServerError);
    }
    resp := CreateAccount(db, username, email, hash.value, env);
  }

  /**
   * The handler. Anything short of the redirect leaves every table as it was;
   * the redirect adds exactly one user, under the next id, and exactly one
   * session for that id that expires a day from now.
   */
  method SignupHandler(db: Store, req: Request, clean: string -> string, hasher: Hasher, env: SignupEnv)
    returns (resp: Response)
    requires db.Valid()
    modifies db
    ensures db.Valid()
    ensures !resp.SeeOther? ==> db.State() == old(db.State())
    ensures Guard(req, clean, Template).Some? ==> resp == Guard(req, clean, Template).value
    ensures Guard(req, clean, Template).None? && req.form.None? ==> resp == Status(StatusBadRequest)
    ensures Guard(req, clean, Template).None? && req.form.Some?
            && CheckFields(Username(req.form.value), Email(req.form.value), Password(req.form.value)).Some?
            ==> resp == CheckFields(Username(req.form.value), Email(req.form.value), Password(req.form.value)).value
    ensures FormAccepted(req, clean) && !env.emailQueryFails && EmailTaken(old(db.users), Email(req.form.value))
            ==> resp == Page(Template, StatusNonAuthoritativeInfo, MsgEmailTaken)
    ensures FormAccepted(req, clean) && !env.emailQueryFails && !EmailTaken(old(db.users), Email(req.form.value))
            && !env.usernameQueryFails && UsernameTaken(old(db.users), Username(req.form.value))
            ==> resp == Page(Template, StatusNonAuthoritativeInfo, MsgUsernameTaken)
    ensures FormAccepted(req, clean) && env.emailQueryFails ==> resp == Status(StatusInternalServerError)
    ensures FormAccepted(req, clean) && !env.emailQueryFails && !EmailTaken(old(db.users), Email(req.form.value))
            && env.usernameQueryFails
            ==> resp == Status(StatusInternalServerError)
    ensures FormAccepted(req, clean) && !env.emailQueryFails && !EmailTaken(old(db.users), Email(req.form.value))
            && !env.usernameQueryFails && !UsernameTaken(old(db.users), Username(req.form.value))
            && !resp.SeeOther?
            ==> resp == Status(StatusInternalServerError)
    ensures resp.SeeOther? <==>
            && FormAccepted(req, clean)
            && !env.emailQueryFails && !EmailTaken(old(db.users), Email(req.form.value))
            && !env.usernameQueryFails && !UsernameTaken(old(db.users), Username(req.form.value))
            && hasher.hash(Password(req.form.value)).Some?
            && !env.beginFails && !env.insertUserFails && !env.lastInsertIdFails
            && env.random.Some? && TokenFree(old(db.sessions), HexOf(env.random.value))
            && !env.insertSessionFails && !env.commitFails
    ensures resp.SeeOther? ==>
            var form := req.form.value;
            var id := old(db.nextUserId);
            var token := HexOf(env.random.value);
            && id !in old(db.users)
            && resp == SeeOther(HomePage, Cookie(token, env.now + SessionLifetime))
            && db.State() == old(db.State()).(
                 users := old(db.users)[id := User(Username(form), Email(form), hasher.hash(Password(form)).value, env.now)],
                 nextUserId := id + 1,
                 sessions := old(db.sessions) + {Session(token, id, env.now + SessionLifetime)})
  {
    var guard := Guard(req, clean, Template);
    if guard.Some? {
      return guard.value;
    }
    if req.form.None? {
      return Status(StatusBadRequest);
    }
    var form := req.form.value;
    var username, email, password := Username(form), Email(form), Password(form);
    var rejected := CheckFields(username, email, password);
    if rejected.Some? {
      return rejected.value;
    }
    resp := Register(db, username, email, password, hasher, env);
  }
}
