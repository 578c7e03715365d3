/**
 * End-to-end runs of the two handlers against a fresh database, proved from the
 * handlers' contracts alone: signing up and then logging in with the new
 * account, and signing up twice with the same email.
 */
module Scenarios {
  import opened Base
  import opened Http
  import opened Hex
  import opened Database
  import opened Credentials
  import Signup
  import Login

  /** A path both handlers let through: no `..`, no NUL, short enough, and already clean. */
  predicate Servable(path: string, clean: string -> string) {
    !SuspiciousPath(path) && clean(path) == path
  }

  function SignupRequest(path: string, username: string, email: string, password: string): Request {
    Request(path, "POST", Some(map["username" := username, "email" := email, "password" := password]))
  }

  function LoginRequest(path: string, ident: string, password: string): Request {
    Request(path, "POST", Some(map["email" := ident, "password" := password]))
  }

  /** Environments in which every outside call succeeds. */
  function NoSignupFaults(random: Entropy, now: int): Signup.SignupEnv {
    Signup.SignupEnv(false, false, false, false, false, Some(random), false, false, now)
  }

  function NoLoginFaults(random: Entropy, now: int): Login.LoginEnv {
    Login.LoginEnv(false, Some(random), false, false, now)
  }

  lemma SignupFormReads(path: string, username: string, email: string, password: string, clean: string -> string)
    requires Servable(path, clean)
    requires Signup.CheckFields(username, email, password).None?
    ensures var form := SignupRequest(path, username, email, password).form.value;
      && Signup.Username(form) == username && Signup.Email(form) == email && Password(form) == password
    ensures Signup.FormAccepted(SignupRequest(path, username, email, password), clean)
  {
    var form := SignupRequest(path, username, email, password).form.value;
    assert Signup.Username(form) == username && Signup.Email(form) == email && Password(form) == password;
  }

  lemma LoginFormReads(path: string, ident: string, password: string, clean: string -> string)
    requires Servable(path, clean) && ident != "" && password != ""
    ensures Login.Identifier(LoginRequest(path, ident, password).form.value) == ident
    ensures Password(LoginRequest(path, ident, password).form.value) == password
    ensures Login.CredentialsGiven(LoginRequest(path, ident, password), clean)
  {
    var form := LoginRequest(path, ident, password).form.value;
    assert Login.Identifier(form) == ident && Password(form) == password;
  }

  /**
   * Sign up on an empty database with fields that pass every check: the new user
   * gets id 1 and the only session.
   */
  method SignupOnEmpty(db: Store, hasher: Hasher, clean: string -> string, path: string,
                       username: string, email: string, password: string, random: Entropy, now: int)
    returns (signup: Response)
    requires db.Valid() && db.users == map[] && db.sessions == {} && db.nextUserId == 1
    requires hasher.hash(password).Some?
    requires Servable(path, clean)
    requires Signup.CheckFields(username, email, password).None?
    modifies db
    ensures db.Valid()
    ensures signup == SeeOther(Signup.HomePage, Cookie(HexOf(random), now + SessionLifetime))
    ensures db.users == map[1 := User(username, email, hasher.hash(password).value, now)]
    ensures db.sessions == {Session(HexOf(random), 1, now + SessionLifetime)}
  {
    SignupFormReads(path, username, email, password, clean);
    assert !EmailTaken(db.users, email) && !UsernameTaken(db.users, username) && Signup.TokenFree(db.sessions, HexOf(random));
    signup := Signup.SignupHandler(db, SignupRequest(path, username, email, password), clean, hasher, NoSignupFaults(random, now));
    assert signup.SeeOther?;
  }

  /**
   * Log in as the only user of a database whose sessions all belong to that
   * user: they are all replaced by the new one.
   */
  method LoginAsOnlyUser(db: Store, hasher: Hasher, clean: string -> string, path: string,
                         user: User, ident: string, password: string, random: Entropy, now: int)
    returns (login: Response)
    requires db.Valid() && db.users == map[1 := user] && forall s :: s in db.sessions ==> s.userId == 1
    requires Sound(hasher) && hasher.hash(password) == Some(user.passwordHash)
    requires Servable(path, clean) && ident != "" && password != "" && MatchesIdentifier(user, ident)
    modifies db
    ensures login == SeeOther(Login.LandingPage, Cookie(HexOf(random), now + SessionLifetime))
    ensures db.sessions == {Session(HexOf(random), 1, now + SessionLifetime)}
  {
    LoginFormReads(path, ident, password, clean);
    assert 1 in db.users && MatchesIdentifier(db.users[1], ident);
    assert hasher.verify(user.passwordHash, password);
    assert SessionsWithout(db.sessions, 1) == {};
    ghost var who: Option<int>;
    login, who := Login.LoginHandler(db, LoginRequest(path, ident, password), clean, hasher, NoLoginFaults(random, now));
    assert who == Some(1);
  }

  /**
   * Sign up on an empty database with fields that pass every check, then log in
   * with the new email or username and the same password. The signup creates
   * user 1 and redirects home with a cookie; the login redirects to the posts
   * with a second cookie, and afterwards the sessions table holds exactly the
   * login's session, so the signup's token no longer names a session.
   */
  method SignupThenLogin(hasher: Hasher, clean: string -> string, signupPath: string, loginPath: string,
                         username: string, email: string, password: string, ident: string,
                         r1: Entropy, r2: Entropy, now: int)
    returns (signup: Response, login: Response, sessions: set<Session>)
    requires Sound(hasher) && hasher.hash(password).Some?
    requires Servable(signupPath, clean) && Servable(loginPath, clean)
    requires Signup.CheckFields(username, email, password).None?
    requires ident == email || ident == username
    requires r1 != r2
    ensures signup == SeeOther(Signup.HomePage, Cookie(HexOf(r1), now + SessionLifetime))
    ensures login == SeeOther(Login.LandingPage, Cookie(HexOf(r2), now + SessionLifetime))
    ensures sessions == {Session(HexOf(r2), 1, now + SessionLifetime)}
    ensures forall s :: s in sessions ==> s.token != HexOf(r1)
  {
    var db := new Store({});
    signup := SignupOnEmpty(db, hasher, clean, signupPath, username, email, password, r1, now);
    var user := User(username, email, hasher.hash(password).value, now);
    login := LoginAsOnlyUser(db, hasher, clean, loginPath, user, ident, password, r2, now);
    sessions := db.sessions;
    HexOfInjective(r1, r2);
  }

  /**
   * Sign up twice with the same email: the second attempt, under any username
   * and password, is answered with "Email already taken" and the users table
   * still holds the one row the first attempt added.
   */
  method DuplicateEmail(hasher: Hasher, clean: string -> string, path: string,
                        username: string, email: string, password: string,
                        otherName: string, otherPassword: string,
                        r1: Entropy, r2: Entropy, now: int)
    returns (first: Response, second: Response, users: map<int, User>)
    requires hasher.hash(password).Some?
    requires Servable(path, clean)
    requires Signup.CheckFields(username, email, password).None?
    requires Signup.CheckFields(otherName, email, otherPassword).None?
    ensures first.SeeOther?
    ensures second == Page(Signup.Template, StatusNonAuthoritativeInfo, Signup.MsgEmailTaken)
    ensures users == map[1 := User(username, email, hasher.hash(password).value, now)]
  {
    var db := new Store({});
    SignupFormReads(path, username, email, password, clean);
    first := Signup.SignupHandler(db, SignupRequest(path, username, email, password), clean, hasher, NoSignupFaults(r1, now));
    assert db.users[1].email == email;
    SignupFormReads(path, otherName, email, otherPassword, clean);
    second := Signup.SignupHandler(db, SignupRequest(path, otherName, email, otherPassword), clean, hasher, NoSignupFaults(r2, now));
    users := db.users;
  }
}
