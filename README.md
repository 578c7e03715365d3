# Forum accounts: signup, login and the schema behind them

A Dafny model of the account core of a small Go web forum. It covers three
files of the backend:

- `backend/signup.go`: the signup handler and the session-token generator;
- `backend/login.go`: the login handler;
- `backend/init.go`: the SQLite schema those handlers write to.

The model follows the source's own structure:

- **Base** (`base.dfy`): `Option`, bytes, and `Utf8Length`, which is Go's `len` on a string (its UTF-8 byte count).
- **Hex** (`hex.dfy`): `hexEncode`, written as an array loop proved against the recursive specification `HexOf`. Also `generateRandomToken`, a decoder `HexDecode` serving as the encoder's inverse, and the round trip between the two.
- **Validation** (`validation.dfy`): the username regular expression as a character predicate. The email regular expression appears twice: as a declarative language `EmailShape` (a local part, an `@`, at least two dot-separated labels), and as a split-and-check decision procedure `IsValidEmail`, proved to accept exactly that language.
- **Http** (`http.dfy`): requests, responses and cookies. Also `Guard`, the path and method checks both handlers run first.
- **Credentials** (`credentials.dfy`): bcrypt as an abstract `Hasher` pair.
- **Database** (`database.dfy`): the schema's constraints as the invariant `Consistent` over all tables. Deletes are cascade functions with soundness lemmas. The database handle is a `class Store` with one field per table, and its statement methods either keep `Consistent` or fail and change nothing.
- **Signup** (`signup.dfy`) and **Login** (`login.dfy`): the two handlers as methods on a `Store`. Every outcome of each call they make to the outside world is a parameter:
  - whether each database statement fails;
  - what the random source returns;
  - the clock;
  - `path.Clean`;
  - bcrypt.
- **Scenarios** (`scenarios.dfy`): two end-to-end runs proved from the handlers' contracts:
  - signing up and then logging in replaces the signup session;
  - a second signup with the same email is refused.

Three properties carry the weight:

- Signup either adds exactly one user and one session, or leaves every table as it was. That covers each failure path, including those inside the transaction.
- Each handler's response is pinned down for every rejection and every failing outside call: the guard's status, 400 for an unparsable form, the field-check pages, the taken-email and taken-username pages, the invalid-credentials page, and 500 for a failing query, hash, random source, delete or transaction step. The table below lists them per member.
- The tables stay consistent with the schema after every operation.

## Model

| member | source | states |
|---|---|---|
| Base.Utf8Width | backend/signup.go:75 | a character takes 1 to 4 bytes, and exactly one when it is ASCII |
| Base.Utf8Length | backend/signup.go:75 | Go's `len` on a string counts bytes: at least the number of characters, at most four times it, and equal to it for ASCII text (also the 2048-byte path limit of signup.go:26 and login.go:17) |
| Hex.Digit | backend/signup.go:176-180 | the digit for a nibble is one of the sixteen lower-case hexadecimal characters, taken from `hexChars` |
| Hex.DigitValue | backend/signup.go:176 | a character has a value exactly when it is a lower-case hex digit, and then that digit is the digit of its value |
| Hex.HexOf | backend/signup.go:175-183 | the encoding has two characters per byte, and every character is a lower-case hex digit |
| Hex.HexOfAt | backend/signup.go:178-181 | character 2i is the digit of `b[i] >> 4`, character 2i+1 the digit of `b[i] & 0x0f` |
| Hex.HexDecode | backend/signup.go:175-183 | the inverse of the encoder: a successful decode has half as many bytes as the text |
| Hex.DigitRoundTrip | backend/signup.go:176 | reading a digit back gives its nibble |
| Hex.HexRoundTrip | backend/signup.go:175-183 | decoding an encoding gives back the original bytes |
| Hex.HexOfInjective | backend/signup.go:167-173 | two tokens are equal exactly when the random bytes behind them are |
| Hex.HexEncode | backend/signup.go:175-183 | the loop that fills a buffer of twice the length returns exactly `HexOf(b)` |
| Hex.GenerateRandomToken | backend/signup.go:167-173 | the result is empty exactly when the random read fails; otherwise it is the encoding of the 32 bytes read, 64 lower-case hex digits |
| Validation.ValidUsername | backend/signup.go:17 | a valid username is non-empty and has neither an `@` nor a `.` |
| Validation.Split | backend/signup.go:19-23 | splitting gives at least one separator-free piece, and joining the pieces again gives back the string |
| Validation.SplitJoin | backend/signup.go:19-23 | splitting undoes joining when no part holds the separator |
| Validation.EmailSplitsUniquely | backend/signup.go:19-23 | each address of the email language splits at its one `@` into its local part and domain, and the domain splits at dots into its labels |
| Validation.IsValidEmail | backend/signup.go:19-23 | the procedure accepts exactly the language of the email expression, and every accepted address contains an `@` |
| Http.Guard | backend/signup.go:26-49 | the request goes on exactly when its path is safe and already clean and the method is POST. A long, NUL-holding, `..`-holding or unclean path gives 400 and any other method 405; GET gives the page with no error. Login runs the same checks (login.go:17-40) |
| Database.LikeAddedConsistent | backend/init.go:106-108 | a like whose user and targets exist, and that repeats neither the (user, post) nor the (user, comment) pair, keeps every table consistent |
| Database.DeleteUserCascadeSound | backend/init.go:43-93 | a user delete allowed by `post_categories` keeps the schema intact. Nothing that refers to the user remains, other users and their sessions stay, and `comment_likes` is untouched |
| Database.DeletePostCascadeSound | backend/init.go:65-93 | a post delete allowed by `post_categories` removes the post's comments and every like on the post or on those comments, keeps the schema intact and leaves users and sessions alone |
| Database.DeleteCommentCascadeSound | backend/init.go:78-80 | a comment delete removes exactly the likes of that comment and keeps the schema intact |
| Database.Store.constructor | backend/init.go:29-109 | a fresh database has every table empty, every AUTOINCREMENT counter at 1, and satisfies the schema |
| Database.Store.Restore | backend/signup.go:117 | the rollback puts every table back as it was when the transaction began |
| Database.Store.CountEmail | backend/signup.go:81-91 | the count is 0 or 1, and positive exactly when some user has the email |
| Database.Store.CountUsername | backend/signup.go:92-102 | the count is 0 or 1, and positive exactly when some user has the username |
| Database.Store.FindLoginUser | backend/login.go:54-65 | no row exactly when no user's email or username equals the identifier; otherwise the id of one matching user |
| Database.Store.InsertUser | backend/init.go:30-36 | the insert succeeds exactly when the username and email are both unused. The new row takes the next AUTOINCREMENT id, which no user holds; on failure nothing changes |
| Database.Store.InsertSession | backend/init.go:38-44 | the insert succeeds exactly when the user exists, the token is unused, and the user has no session (`idx_sessions_user`, init.go:109); on failure nothing changes |
| Database.Store.DeleteSessionsOf | backend/login.go:81 | exactly the user's sessions go |
| Database.Store.InsertPost | backend/init.go:46-55 | the insert succeeds exactly when the author exists, under the next id |
| Database.Store.InsertComment | backend/init.go:57-69 | the insert succeeds exactly when the post and the author exist, under the next id |
| Database.Store.InsertLike | backend/init.go:71-81 | the insert succeeds exactly when the user and any given target exist and the user has no like on the same post or the same comment (init.go:107-108). A like with no target is always accepted |
| Database.Store.InsertCommentLike | backend/init.go:82-88 | the insert succeeds exactly when the (comment, user) pair is new; no existence check, because the table declares no foreign key |
| Database.Store.InsertPostCategory | backend/init.go:90-96 | the insert succeeds exactly when the pair is new and both the post and the category exist |
| Database.Store.DeleteComment | backend/init.go:78-80 | the new tables are the comment cascade of the old ones |
| Database.Store.DeletePost | backend/init.go:65-93 | the delete fails, changing nothing, exactly when a `post_categories` row lists the post (its foreign key has no ON DELETE action); otherwise the new tables are the post cascade |
| Database.Store.DeleteUser | backend/init.go:43-93 | the delete fails, changing nothing, exactly when one of the user's posts is listed in `post_categories`; otherwise the new tables are the user cascade |
| Signup.CheckFields | backend/signup.go:61-79 | the fields pass exactly when all three are non-empty, the email is in the email language, the username is valid and the password has at least 8 bytes. Otherwise the first failing check picks the message: status 200 for a missing field, 203 for the rest |
| Signup.CreateAccount | backend/signup.go:111-163 | the transaction redirects home with a cookie exactly when no step fails and the token is unused. The new state then holds exactly the new user, under the next id, and one session for it expiring in 24 hours; every failure gives 500 and restores all tables |
| Signup.Register | backend/signup.go:81-109 | a taken email is reported before a taken username, and a failing email or username query gives 500. Once both counts come back zero, anything but the redirect (a failing hash or transaction step) is 500. No outcome except the redirect changes anything, and the redirect has the same conditions and the same new state as the transaction |
| Signup.SignupHandler | backend/signup.go:25-164 | anything short of the redirect leaves every table as it was. Each rejection (guard, unparsable form, field checks, taken email, taken username) gives its own response. For an accepted form, a failing email or username query gives 500, and so does any other failure after both names are free (hash or transaction). The redirect happens exactly when every check and step succeeds, adding one user and one session |
| Login.ReplaceSession | backend/login.go:79-113 | a failed delete changes nothing. A successful delete followed by a failed insert leaves the user with no session and gives 500. Success leaves exactly one session for the user, the new one, and redirects to `/post` with its cookie |
| Login.Authenticate | backend/login.go:54-113 | an unknown identifier and a wrong password give the same page and change nothing, and that page is given for nothing else. A failing query, a failing random source and a failing delete each give 500 and change nothing. The redirect happens exactly when the password verifies, every step succeeds and the token is not held by another user's session |
| Login.LoginHandler | backend/login.go:15-114 | guard, form and required-field rejections change nothing. The user found always matches the identifier, and nobody is found exactly when no user matches. The invalid-credentials page comes exactly from an unmatched identifier or a wrong password. With both fields given, a failing query, random source or delete gives 500 and changes nothing. The redirect conditions and new state are those of `Authenticate` |
| Login.ReplacementLeavesOneSession | backend/login.go:81-96 | after a replacement the user's only session is the new one, other users' sessions are unchanged, and the session constraints still hold |
| Login.IdentifierMatchesAtMostOne | backend/login.go:56 | when every user came in through signup's validators, one identifier matches at most one user, so the order of the query's rows does not matter |
| Scenarios.SignupOnEmpty | backend/signup.go:111-163 | on an empty database, valid fields create user 1, and the sessions table then holds exactly that user's one session, named by the cookie's token |
| Scenarios.LoginAsOnlyUser | backend/login.go:54-113 | logging in as the only user, by email or username, replaces all of that user's sessions with the new one |
| Scenarios.SignupThenLogin | backend/login.go:81-113 | after signing up and logging in, the sessions table holds exactly the login's session, and no session carries the signup token |
| Scenarios.DuplicateEmail | backend/signup.go:81-91 | a second signup with a used email, under any username and password, gives "Email already taken" and the users table keeps its single row |

## Left out

- Routing, the server and `main.go` are not part of this model. Neither are the handlers for posts, comments, likes, categories and logout, nor the authentication middleware. The schema's tables for them are modelled, but those handlers are not.
- bcrypt is abstract. `Hasher.hash` may fail, and the only property used is that a hash it produced verifies its password (`Credentials.Sound`). Its cost factor and hash format are not modelled.
- `crypto/rand` is a parameter: either 32 bytes or a failure.
- The clock is an integer number of seconds. Time formatting (`2006-01-02 15:04:05`) and time zones are left out, and so are the `DEFAULT (datetime('now'))` timestamp columns.
- `path.Clean` is an uninterpreted function parameter. Only whether a path equals its cleaned form matters to the handlers.
- Template rendering is not modelled. A page response names its template, status and error message. On GET the source answers 500 when the template fails to render; the model assumes rendering succeeds.
- Logging, connection settings (`SetMaxOpenConns`, `SetConnMaxLifetime`, `busy_timeout`) and concurrent requests are not modelled. Each handler runs alone on the store.
- The foreign keys are modelled as the schema declares them, with their cascades. In the source, `PRAGMA foreign_keys = ON` runs only on the local handle that `init()` opens; the handle the handlers use is opened elsewhere and is not part of this model.
- The `categories` table and its seeding live outside this schema (`WriteCategories`), so they are a set of ids given to the constructor. The commented-out `method_post` block is ignored.
- `post_categories` keys are nullable in SQLite. The model only stores rows with both ids present.
- The `id` columns of `sessions` and `comment_likes` are not modelled, because nothing reads them.
- Strings are sequences of Unicode scalar values. Go strings that are not valid UTF-8 are not modelled.
- Login replaces the session with two separate statements outside any transaction, so the replacement is not atomic: a failed insert after a successful delete leaves the user logged out. The model follows the code, and `Login.ReplaceSession` states the half-applied outcome.
- Nothing in the `likes` schema forces a row to name exactly one target (a post or a comment): a row with neither or both is accepted, and `Database.Store.InsertLike` follows the schema.
- The email local part admits 1 to 65 characters, as the expression reads (`Validation.LocalPartOk`). That is one more than the 64 of RFC 5321, section 4.5.3.1.1; the model keeps the expression's bound.
- The `if err != nil` repeated after the session insert in `login.go` can never fire, so the model has no counterpart for it.
