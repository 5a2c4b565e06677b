/** The authentication routes: registration, login and logout. */
module Auth {
  import opened Wrappers
  import opened Web
  import opened Accounts
  import opened Sessions

  const LoginTemplate := "auth/login.html"
  const LoginTitle := "Sign In"
  const RegisterTemplate := "auth/register.html"
  const RegisterTitle := "Register"

  const MinPasswordLength := 6

  const FillAllFields := "Please fill in all fields."
  const InvalidCredentials := "Invalid username or password."
  const Registered := "Registration successful! You can now log in."
  const LoggedOut := "You have been logged out."

  /** The fields of the registration form, each absent or a string. */
  datatype RegisterForm = RegisterForm(username: Option<string>, email: Option<string>,
                                       password: Option<string>, password2: Option<string>)

  datatype RegisterRequest = RegisterRequest(verb: HttpMethod, form: RegisterForm)

  /** The fields of the login form; `next` comes from the query string. */
  datatype LoginForm = LoginForm(username: Option<string>, password: Option<string>, rememberMe: Option<string>)

  datatype LoginRequest = LoginRequest(verb: HttpMethod, form: LoginForm, next: Option<string>)

  /** The registration checks, in the order the handler runs them. */
  datatype RegisterError = MissingField | PasswordMismatch | PasswordTooShort | UsernameTaken | EmailTaken

  function Rank(e: RegisterError): nat {
    match e
    case MissingField => 0
    case PasswordMismatch => 1
    case PasswordTooShort => 2
    case UsernameTaken => 3
    case EmailTaken => 4
  }

  function Message(e: RegisterError): string {
    match e
    case MissingField => FillAllFields
    case PasswordMismatch => "Passwords do not match."
    case PasswordTooShort => "Password must be at least 6 characters long."
    case UsernameTaken => "Username already exists."
    case EmailTaken => "Email already registered."
  }

  /** Each registration rule stated on its own, independently of the others
      and of the order in which the handler checks them. */
  ghost predicate Violates(f: RegisterForm, users: seq<User>, e: RegisterError) {
    match e
    case MissingField => !(Filled(f.username) && Filled(f.email) && Filled(f.password) && Filled(f.password2))
    case PasswordMismatch => f.password != f.password2
    case PasswordTooShort => f.password.None? || |f.password.value| < MinPasswordLength
    case UsernameTaken => f.username.Some? && HasUsername(users, f.username.value)
    case EmailTaken => f.email.Some? && HasEmail(users, f.email.value)
  }

  /** The validation chain of `register`: the first failing check, or `None`
      when the form may be stored. The result is exactly the lowest-ranked
      rule the form violates. */
  function RegisterCheck(f: RegisterForm, users: seq<User>): (r: Option<RegisterError>)
    ensures r.None? ==> forall e :: !Violates(f, users, e)
    ensures r.Some? ==> Violates(f, users, r.value)
    ensures r.Some? ==> forall e :: Violates(f, users, e) ==> Rank(r.value) <= Rank(e)
  {
    if !(Filled(f.username) && Filled(f.email) && Filled(f.password) && Filled(f.password2)) then
      Some(MissingField)
    else if f.password != f.password2 then
      Some(PasswordMismatch)
    else if |f.password.value| < MinPasswordLength then
      Some(PasswordTooShort)
    else if FindByUsername(users, f.username.value).Some? then
      Some(UsernameTaken)
    else if FindByEmail(users, f.email.value).Some? then
      Some(EmailTaken)
    else
      None
  }

  /** The record a successful registration stores. */
  function NewUser(id: nat, f: RegisterForm, h: Hasher): User
    requires f.username.Some? && f.email.Some? && f.password.Some?
  {
    User(id, f.username.value, f.email.value, h.hash(f.password.value), true)
  }

  /** A form that passes every check keeps both usernames and emails unique
      once its record is appended. */
  lemma RegisterKeepsUnique(users: seq<User>, f: RegisterForm, id: nat, h: Hasher)
    requires RegisterCheck(f, users).None?
    ensures UniqueUsernames(users) ==> UniqueUsernames(users + [NewUser(id, f, h)])
    ensures UniqueEmails(users) ==> UniqueEmails(users + [NewUser(id, f, h)])
  {
    var u := NewUser(id, f, h);
    assert !Violates(f, users, UsernameTaken) && !Violates(f, users, EmailTaken);
    if UniqueUsernames(users) {
      AppendKeepsUsernamesUnique(users, u);
    }
    if UniqueEmails(users) {
      AppendKeepsEmailsUnique(users, u);
    }
  }

  /** `register`. */
  method Register(store: Store, session: Session, h: Hasher, req: RegisterRequest) returns (resp: Response)
    requires store.Valid()
    modifies store
    ensures store.Valid()
    // an authenticated requester is sent home before the form is read
    ensures session.Authenticated() ==>
      resp == Redirect(Endpoint(IndexEndpoint), None) && unchanged(store)
    ensures !session.Authenticated() && req.verb == Get ==>
      resp == Render(RegisterTemplate, RegisterTitle, None) && unchanged(store)
    // a failed check re-renders the form with that check's message and stores nothing
    ensures !session.Authenticated() && req.verb == Post && RegisterCheck(req.form, old(store.users)).Some? ==>
      resp == Render(RegisterTemplate, RegisterTitle,
                     Some(Flash(Message(RegisterCheck(req.form, old(store.users)).value), Error))) &&
      unchanged(store)
    // otherwise exactly one record is appended and the user is sent to log in
    ensures !session.Authenticated() && req.verb == Post && RegisterCheck(req.form, old(store.users)).None? ==>
      resp == Redirect(Endpoint(LoginEndpoint), Some(Flash(Registered, Success))) &&
      store.users == old(store.users) + [NewUser(old(store.nextId), req.form, h)] &&
      store.nextId == old(store.nextId) + 1
    ensures old(UniqueEmails(store.users)) ==> UniqueEmails(store.users)
  {
    if session.Authenticated() {
      return Redirect(Endpoint(IndexEndpoint), None);
    }
    if req.verb == Post {
      var f := req.form;
      if !(Filled(f.username) && Filled(f.email) && Filled(f.password) && Filled(f.password2)) {
        return Render(RegisterTemplate, RegisterTitle, Some(Flash(Message(MissingField), Error)));
      }
      if f.password != f.password2 {
        return Render(RegisterTemplate, RegisterTitle, Some(Flash(Message(PasswordMismatch), Error)));
      }
      if |f.password.value| < MinPasswordLength {
        return Render(RegisterTemplate, RegisterTitle, Some(Flash(Message(PasswordTooShort), Error)));
      }
      if FindByUsername(store.users, f.username.value).Some? {
        return Render(RegisterTemplate, RegisterTitle, Some(Flash(Message(UsernameTaken), Error)));
      }
      if FindByEmail(store.users, f.email.value).Some? {
        return Render(RegisterTemplate, RegisterTitle, Some(Flash(Message(EmailTaken), Error)));
      }
      RegisterKeepsUnique(store.users, f, store.nextId, h);
      var u := store.Add(f.username.value, f.email.value, h.hash(f.password.value));
      return Redirect(Endpoint(LoginEndpoint), Some(Flash(Registered, Success)));
    }
    return Render(RegisterTemplate, RegisterTitle, None);
  }

  /** The credential check of `login`: the user found by that username, if
      its stored hash accepts the password. */
  function Authenticate(users: seq<User>, h: Hasher, username: string, password: string): (r: Option<User>)
    ensures r.Some? ==> r.value in users && r.value.username == username && h.check(r.value.passwordHash, password)
  {
    match FindByUsername(users, username)
    case None => None
    case Some(u) => if h.check(u.passwordHash, password) then Some(u) else None
  }

  /** With unique usernames, login succeeds exactly when some stored user
      has that username and a hash that accepts the password. */
  lemma AuthenticateExactly(users: seq<User>, h: Hasher, username: string, password: string)
    requires UniqueUsernames(users)
    ensures Authenticate(users, h, username, password).Some? <==>
            exists i :: 0 <= i < |users| && users[i].username == username && h.check(users[i].passwordHash, password)
  {
    if exists i :: 0 <= i < |users| && users[i].username == username && h.check(users[i].passwordHash, password) {
      var i :| 0 <= i < |users| && users[i].username == username && h.check(users[i].passwordHash, password);
      FindByUsernameUnique(users, username, i);
    }
  }

  /** An unknown username and a known username with a wrong password both
      fail the credential check, so `login` answers both alike. */
  lemma UnknownUserLikeWrongPassword(users: seq<User>, h: Hasher, unknown: string, known: string,
                                     password: string, wrongPassword: string, k: nat)
    requires UniqueUsernames(users)
    requires !HasUsername(users, unknown)
    requires k < |users| && users[k].username == known && !h.check(users[k].passwordHash, wrongPassword)
    ensures Authenticate(users, h, unknown, password) == None
    ensures Authenticate(users, h, known, wrongPassword) == None
  {
    FindByUsernameUnique(users, known, k);
  }

  /** Right after a successful registration the same username and password
      log in as the new record. */
  lemma RegisteredUserCanLogIn(users: seq<User>, f: RegisterForm, id: nat, h: Hasher)
    requires Sound(h)
    requires RegisterCheck(f, users).None?
    ensures Authenticate(users + [NewUser(id, f, h)], h, f.username.value, f.password.value) == Some(NewUser(id, f, h))
  {
    var u := NewUser(id, f, h);
    var s := users + [u];
    assert !Violates(f, users, UsernameTaken);
    var r := FindByUsername(s, u.username);
    assert s[|users|] == u;
    var i :| 0 <= i < |s| && s[i] == r.value && r.value.username == u.username &&
             forall j :: 0 <= j < i ==> s[j].username != u.username;
    assert h.check(h.hash(f.password.value), f.password.value);
  }

  /** The guard on `next`: it is followed only when present, non-empty and
      `url_parse` reports no network location for it. */
  function RedirectTarget(next: Option<string>, netloc: string -> string): (r: Location)
    ensures r.Url? ==> next == Some(r.url) && r.url != "" && netloc(r.url) == ""
    ensures Filled(next) && netloc(next.value) == "" ==> r == Url(next.value)
    ensures r.Endpoint? ==> r.name == IndexEndpoint
  {
    if !Filled(next) || netloc(next.value) != "" then Endpoint(IndexEndpoint) else Url(next.value)
  }

  /** `login`; `netloc` stands for `url_parse(...).netloc`. */
  method Login(store: Store, session: Session, h: Hasher, netloc: string -> string, req: LoginRequest)
    returns (resp: Response)
    modifies session
    // an authenticated requester is sent home before the form is read
    ensures old(session.Authenticated()) ==>
      resp == Redirect(Endpoint(IndexEndpoint), None) && unchanged(session)
    ensures !old(session.Authenticated()) && req.verb == Get ==>
      resp == Render(LoginTemplate, LoginTitle, None) && unchanged(session)
    ensures !old(session.Authenticated()) && req.verb == Post &&
            !(Filled(req.form.username) && Filled(req.form.password)) ==>
      resp == Render(LoginTemplate, LoginTitle, Some(Flash(FillAllFields, Error))) && unchanged(session)
    // a session is established exactly when the credential check passes
    ensures !old(session.Authenticated()) && req.verb == Post &&
            Filled(req.form.username) && Filled(req.form.password) ==>
      match Authenticate(store.users, h, req.form.username.value, req.form.password.value)
      case Some(u) =>
        // `login_user` refuses an inactive user, but the handler ignores that
        (u.isActive ==> session.user == Some(u.id) && session.remember == Filled(req.form.rememberMe)) &&
        (!u.isActive ==> unchanged(session)) &&
        resp == Redirect(RedirectTarget(req.next, netloc),
                         Some(Flash("Welcome back, " + u.username + "!", Success)))
      case None =>
        // one answer for every kind of failure
        resp == Render(LoginTemplate, LoginTitle, Some(Flash(InvalidCredentials, Error))) && unchanged(session)
  {
    if session.Authenticated() {
      return Redirect(Endpoint(IndexEndpoint), None);
    }
    if req.verb == Post {
      var username := req.form.username;
      var password := req.form.password;
      var rememberMe := Filled(req.form.rememberMe);
      if !Filled(username) || !Filled(password) {
        return Render(LoginTemplate, LoginTitle, Some(Flash(FillAllFields, Error)));
      }
      var user := FindByUsername(store.users, username.value);
      if user.Some? && h.check(user.value.passwordHash, password.value) {
        var loggedIn := session.LogIn(user.value.id, user.value.isActive, rememberMe);
        var nextPage := req.next;
        var target := if !Filled(nextPage) || netloc(nextPage.value) != "" then Endpoint(IndexEndpoint)
                      else Url(nextPage.value);
        return Redirect(target, Some(Flash("Welcome back, " + user.value.username + "!", Success)));
      }
      return Render(LoginTemplate, LoginTitle, Some(Flash(InvalidCredentials, Error)));
    }
    return Render(LoginTemplate, LoginTitle, None);
  }

  /** `logout`; `login_required` lets only a logged-in requester reach it. */
  method Logout(session: Session) returns (resp: Response)
    requires session.Authenticated()
    modifies session
    ensures !session.Authenticated() && !session.remember
    ensures resp == Redirect(Endpoint(IndexEndpoint), Some(Flash(LoggedOut, Info)))
  {
    session.LogOut();
    resp := Redirect(Endpoint(IndexEndpoint), Some(Flash(LoggedOut, Info)));
  }
}
