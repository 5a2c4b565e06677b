# Flask Starter Pack: account logic in Dafny

This project models the account logic of the Flask Starter Pack web
application: the in-memory users table, the login session, and the handlers
that read and change them.

- `wrappers.dfy` (`Wrappers`): the `Option` type used for absent form fields
  and empty query results.
- `web.dfy` (`Web`): what a handler returns. HTML routes answer with a
  rendered page or a redirect, each with an optional flash notice. API
  routes answer with a JSON document and a status code. `Filled` is Python
  truthiness of a form value: `None` and `""` are both falsy.
- `accounts.dfy` (`Accounts`): the `User` record and the abstract password
  `Hasher`. It also has the two `filter_by(...).first()` lookups, the
  uniqueness predicates, and the `Store` class. The store is the users
  table: a sequence of records plus the next id to hand out. Its invariant
  is that usernames are unique and ids are positive and increasing.
- `sessions.dfy` (`Sessions`): the `Session` class, holding the logged-in
  user id and the remember-me flag (`login_user`, `logout_user`).
- `auth.dfy` (`Auth`): `register`, `login` and `logout`. Their validation
  chains are pure functions (`RegisterCheck`, `Authenticate`,
  `RedirectTarget`). The handlers are methods that change the store or
  the session and are proved against those functions.
- `api.dfy` (`Api`): `health`, `version`, `echo`, `list_users` and
  `create_test_user`.

Password hashing is abstract. A `Hasher` is a pair of total functions:
`hash` stands for `set_password`, with its salt, and `check` stands for
`check_password`. The only fact assumed about them is `Sound`: a password
checks against its own hash. Only the lemma that a newly registered user
can log in needs that fact. `url_parse(next).netloc` is the function
parameter `netloc`.

The register checks run in this order: fields present, passwords equal,
password at least 6 characters, username new, email new. `Auth.Violates`
states each of the five rules on its own, and `Auth.Rank` gives the order
in which the handler checks them. `RegisterCheck` is proved to return the
lowest-ranked rule the form breaks, or nothing when it breaks none.

`create_test_user` looks up only the username, never the email. So the
store invariant holds unique usernames but not unique emails.
`Auth.Register` preserves email uniqueness. `Api.TestUserMayDuplicateEmail`
shows that the test-user endpoint can break it. The table definition
(`app/models.py`) is not part of this model. If it declares the email
column unique, the test-user commit fails instead (see Left out).

## Model

| member | source | states |
|---|---|---|
| `Accounts.FindByUsername` | app/auth/routes.py:66 | finds a user exactly when some stored user has the username; the user found has that username and no earlier record does |
| `Accounts.FindByEmail` | app/auth/routes.py:70 | finds a user exactly when some stored user has the email; the user found has that email and no earlier record does |
| `Accounts.FindByUsernameUnique` | app/auth/routes.py:25 | when usernames are unique, the username lookup returns the one record with that name |
| `Accounts.CountUsernameUnique` | app/api/routes.py:30-40 | when usernames are unique, a name is stored once if present and zero times if absent |
| `Accounts.AppendKeepsUsernamesUnique` | app/auth/routes.py:66-78 | appending a record with a new username keeps usernames unique |
| `Accounts.AppendKeepsEmailsUnique` | app/auth/routes.py:70-78 | appending a record with a new email keeps emails unique |
| `Accounts.Store.Add` | app/auth/routes.py:75-78 | the insert appends exactly one active record with the next id; earlier records are unchanged; the store invariant is kept |
| `Sessions.Session.LogIn` | app/auth/routes.py:28 | an active user is logged in: the session then belongs to its id, with the given remember-me flag; an inactive user is refused and the session is unchanged; the result says which happened |
| `Sessions.Session.LogOut` | app/auth/routes.py:90 | the session is then anonymous and the remember-me flag is cleared |
| `Auth.RegisterCheck` | app/auth/routes.py:53-72 | the result is none exactly when no rule is broken; otherwise it is a broken rule, and no broken rule comes earlier in the check order (so a password mismatch is reported even when the username is taken, and a 6-character password passes the length rule) |
| `Auth.RegisterKeepsUnique` | app/auth/routes.py:66-78 | appending the record of a form that passes every check keeps usernames unique, and keeps emails unique if they were |
| `Auth.Register` | app/auth/routes.py:40-83 | an authenticated requester is sent to the index and nothing changes; GET renders the form; a failed check renders the form with that check's message and leaves the store unchanged; success appends exactly one record (given username and email, hash of the password, next id), redirects to login, and keeps email uniqueness |
| `Auth.Authenticate` | app/auth/routes.py:25-27 | a successful credential check yields a stored user with that username whose hash accepts the password |
| `Auth.AuthenticateExactly` | app/auth/routes.py:25-27 | when usernames are unique, the credential check passes if and only if some stored user has that username and a hash that accepts the password |
| `Auth.UnknownUserLikeWrongPassword` | app/auth/routes.py:27-35 | an unknown username and a known username with a wrong password both fail the credential check; `Auth.Login` answers every failed check with the same page and flash message, so its answer does not reveal which case happened (response timing is not modelled, see Left out) |
| `Auth.RegisteredUserCanLogIn` | app/auth/routes.py:75-78 | after a successful registration, the same username and password pass the credential check and yield exactly the new record |
| `Auth.RedirectTarget` | app/auth/routes.py:29-31 | the login redirect goes to `next` if and only if `next` is present, non-empty and has an empty netloc; otherwise it goes to the index |
| `Auth.Login` | app/auth/routes.py:10-37 | an authenticated requester is sent to the index and nothing changes; GET renders the form; an empty field gives the fill-in message; when the credential check passes, the redirect goes to the guarded target with a welcome notice, and the session is set up if the user is active (the handler ignores `login_user`'s refusal of an inactive user, so an inactive user gets the welcome redirect but stays anonymous); a session is never set up when the check fails; every failed check gives the one "Invalid username or password." page with the session unchanged; the store is never modified |
| `Auth.Logout` | app/auth/routes.py:86-92 | for a logged-in requester, the session is cleared and the redirect goes to the index with the logged-out notice |
| `Api.Health` | app/api/routes.py:8-14 | a constant 200 document with exactly two members: status "healthy" and the running message |
| `Api.Version` | app/api/routes.py:17-23 | a constant 200 document with exactly two members: version "1.0.0" and the API name |
| `Api.Echo` | app/api/routes.py:67-74 | a 200 document with exactly two members: the submitted JSON unchanged under `data`, and the message "Echo successful" |
| `Api.PublicFields` | app/api/routes.py:58-63 | a listing entry has exactly four members: the user's id, username, email and is_active (never the password hash) |
| `Api.Listing` | app/api/routes.py:58-63 | one entry per stored user, in store order, each the public fields of that user |
| `Api.ListUsers` | app/api/routes.py:53-64 | a 200 document whose only member, `users`, is the listing of every stored user |
| `Api.Summary` | app/api/routes.py:45-49 | the created-user summary has exactly three members: the record's id, username and email (never the password hash) |
| `Api.TestUserExists` | app/api/routes.py:31-34 | the conflict answer has status 400 and exactly two members: status "error" and message "Test user already exists" |
| `Api.TestUserCreated` | app/api/routes.py:42-50 | the success answer has status 200 and exactly three members: status "success", the success message and the summary of the new record |
| `Api.CreateTestUser` | app/api/routes.py:26-50 | if a `testuser` exists, the answer is the 400 conflict and the store is unchanged; otherwise exactly one record (`testuser`, `test@example.com`, hash of `password123`, next id) is appended and the answer echoes it |
| `Api.CreateTestUserTwice` | app/api/routes.py:30-40 | on any valid store, two calls in a row: the first succeeds exactly when no `testuser` existed, the second always answers 400, and exactly one `testuser` is stored afterwards |
| `Api.TestUserMayDuplicateEmail` | app/api/routes.py:30-40 | if another user already has `test@example.com`, creating the test user leaves that email stored twice: only the username is checked |

## Left out

- Password hashing internals and the salt: `app/models.py` is not part of this model. Hashing is the uninterpreted `Hasher`, and only `Sound` is assumed about it.
- `url_parse`: its netloc is the uninterpreted, total parameter `netloc`. So the model says nothing about which strings a browser would treat as off-site. Its exceptions are not modelled either: for a malformed `next` such as `//[x`, `url_parse` raises after `login_user` has already run. The welcome flash and redirect then never happen, and the request ends in the 500 handler. The model returns the welcome redirect instead.
- Template rendering, `flash` queueing and `url_for`: a response carries the template name and title, the flash notice, or the endpoint name as plain values.
- The `User` model's column defaults and constraints (`app/models.py` is not part of this model). The model takes a new record to be active. `Store.Add` requires a new username, because every caller checks that first. A constraint failure at commit time is not modelled.
- `.first()` and `.all()` without an ordering: the model uses insertion order, both for the record a lookup returns and for the order of the `list_users` entries.
- `Auth.Logout`: `login_required` is modelled as a precondition. Its redirect of an anonymous requester to the login page is not modelled.
- `load_user`, the application factory, extension set-up, blueprint registration, the 404 and 500 handlers (including the 500 handler's transaction rollback), `app/main/routes.py`, `run.py` and `wsgi.py`: framework wiring with no account logic.
- Concurrent requests: two registrations racing past the uniqueness checks depend on database isolation, not on this code.
- HTTP methods other than GET and POST. HEAD is accepted wherever GET is and reaches `login`, `register` and `logout`. There it behaves like GET, because the handlers test only for POST. OPTIONS is answered by Flask itself. No CSRF checking happens in the code shown: `CSRFProtect()` is created in `app/extensions.py`, but `init_app` is never called on it.
- Database string comparison: every lookup compares usernames and emails exactly. The database's `=` under a case-insensitive or space-padding collation could make names such as "Bob" and "bob " collide; the configuration is not part of this model.
- Response timing: for an unknown username the credential check stops before `check_password` runs, while a known username runs the deliberately slow hash check. So the time taken can reveal whether a username exists, even though the page and message are the same.
- `Api.Echo` takes the already-parsed JSON body. A request whose body is not JSON is not modelled, and JSON numbers are integers.
- The key order of `jsonify` output: responses are specified member by member through `Field`.
- The lifetime of the remember-me cookie: only the flag passed to `login_user` is kept.
