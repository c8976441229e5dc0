/** The `auth` blueprint: registration, login, logout, the per-request user
    lookup and the `login_required` gate. */
module Auth {
  import opened Wrappers
  import opened Db
  import opened Passwords
  import opened Context

  /** The error `register` flashes, or None when the form is accepted. The
      checks run in a fixed order: empty username, empty password, then a
      username that is already taken. */
  function RegisterError(users: UserTable, username: string, password: string): (r: Option<string>)
    ensures r.None? <==> username != "" && password != "" && forall id | id in users :: users[id].username != username
    ensures username == "" ==> r == Some("Username is required")
    ensures username != "" && password == "" ==> r == Some("Password is required")
    ensures username != "" && password != "" && r.Some? ==> r == Some("User " + username + " is already registered")
  {
    if username == "" then Some("Username is required")
    else if password == "" then Some("Password is required")
    else if UserByName(users, username).Some? then Some("User " + username + " is already registered")
    else None
  }

  /** Any username already in the table is refused, whatever the password,
      unless an empty password is caught first. */
  lemma DuplicateRejected(users: UserTable, id: Id, password: string)
    requires id in users && users[id].username != ""
    ensures RegisterError(users, users[id].username, password)
         == if password == "" then Some("Password is required")
            else Some("User " + users[id].username + " is already registered")
  {
  }

  /** Accepting a registration keeps usernames unique. */
  lemma RegisterKeepsUnique(users: UserTable, id: Id, username: string, password: string, hash: string)
    requires UniqueUsernames(users) && id !in users
    requires RegisterError(users, username, password).None?
    ensures UniqueUsernames(users[id := User(id, username, hash)])
  {
  }

  /** The outcome of the credential check in `login`: the user row, or the
      error to flash. An unknown username is told apart from a wrong
      password. */
  function Authenticate(users: UserTable, h: Hasher, username: string, password: string): (r: Result<User, string>)
    ensures r == Err("Incorrect username") <==> forall id | id in users :: users[id].username != username
    ensures r.Err? ==> r.error == "Incorrect username" || r.error == "Incorrect password"
    ensures r.Ok? ==> r.value.username == username && h.check(r.value.passwordHash, password)
    ensures r.Ok? ==> exists id :: HasName(users, id, username) && users[id] == r.value
    ensures UniqueUsernames(users) ==> forall id | HasName(users, id, username) ::
              r == if h.check(users[id].passwordHash, password) then Ok(users[id]) else Err("Incorrect password")
  {
    match UserByName(users, username)
    case None => Err("Incorrect username")
    case Some(user) =>
      if !h.check(user.passwordHash, password) then Err("Incorrect password") else Ok(user)
  }

  /** A user registered with `password` can log in with it, provided the
      hasher accepts the password against the hash it produced; the login
      finds exactly the row registration inserted. */
  lemma {:induction false} RegisterThenAuthenticate(users: UserTable, h: Hasher, salt: Salt, id: Id, username: string, password: string)
    requires UniqueUsernames(users) && id !in users
    requires RegisterError(users, username, password).None?
    requires Accepts(h, password, salt)
    ensures var added := User(id, username, h.generate(password, salt));
            Authenticate(users[id := added], h, username, password) == Ok(added)
  {
    var added := User(id, username, h.generate(password, salt));
    RegisterKeepsUnique(users, id, username, password, added.passwordHash);
    assert HasName(users[id := added], id, username);
  }

  /** `load_logged_in_user`: the user row whose id the session carries, or
      None when the session has no id or no row has that id. */
  function LoadUser(session: Session, users: UserTable): (r: Option<User>)
    ensures r.Some? <==> session.userId.Some? && session.userId.value in users
    ensures r.Some? ==> r.value == users[session.userId.value]
  {
    match session.userId
    case None => None
    case Some(id) => if id in users then Some(users[id]) else None
  }

  /** The choice `login_required` makes before a view runs. */
  datatype Gate = RunView | Refuse(response: Response)

  /** `login_required`: the view runs if and only if a user is loaded;
      otherwise the client is sent to the login page. */
  function LoginRequired(user: Option<User>): (r: Gate)
    ensures r.RunView? <==> user.Some?
    ensures r.Refuse? ==> r.response == Redirect(AuthLogin)
  {
    if user.None? then Refuse(Redirect(AuthLogin)) else RunView
  }

  /** `register`: on a valid POST, insert one user row holding the username
      and a hash of the password, and redirect to the login page; otherwise
      flash the error (POST) and render the form, leaving the table alone. */
  method Register(app: App, verb: Verb, username: string, password: string, h: Hasher, salt: Salt)
    returns (resp: Response)
    requires app.Valid()
    modifies app
    ensures app.Valid()
    ensures app.posts == old(app.posts) && app.nextPostId == old(app.nextPostId) && app.user == old(app.user)
    ensures var error := RegisterError(old(app.users), username, password);
            if verb == POST && error.None? then
              && resp == Redirect(AuthLogin)
              && app.users == old(app.users)[old(app.nextUserId) := User(old(app.nextUserId), username, h.generate(password, salt))]
              && app.nextUserId == old(app.nextUserId) + 1
              && app.session == old(app.session)
            else
              && resp == Render(RegisterPage, [])
              && app.users == old(app.users)
              && app.nextUserId == old(app.nextUserId)
              && app.session == if verb == POST then Flash(old(app.session), error.value) else old(app.session)
  {
    if verb == POST {
      var error := RegisterError(app.users, username, password);
      if error.None? {
        RegisterKeepsUnique(app.users, app.nextUserId, username, password, h.generate(password, salt));
        app.users := app.users[app.nextUserId := User(app.nextUserId, username, h.generate(password, salt))];
        app.nextUserId := app.nextUserId + 1;
        return Redirect(AuthLogin);
      }
      app.session := Flash(app.session, error.value);
    }
    return Render(RegisterPage, []);
  }

  /** `login`: on a POST whose credentials check, clear the session, store
      only the user's id in it and redirect to the index; otherwise flash the
      error (POST) and render the form, leaving the session's user alone. */
  method Login(app: App, verb: Verb, username: string, password: string, h: Hasher)
    returns (resp: Response)
    requires app.Valid()
    modifies app`session
    ensures app.Valid()
    ensures var outcome := Authenticate(app.users, h, username, password);
            if verb == POST && outcome.Ok? then
              && resp == Redirect(Index)
              && app.session == Session(Some(outcome.value.id), [])
              && LoadUser(app.session, app.users) == Some(outcome.value)
            else
              && resp == Render(LoginPage, [])
              && app.session == if verb == POST then Flash(old(app.session), outcome.error) else old(app.session)
  {
    if verb == POST {
      var outcome := Authenticate(app.users, h, username, password);
      if outcome.Ok? {
        app.session := ClearedSession;
        app.session := app.session.(userId := Some(outcome.value.id));
        return Redirect(Index);
      }
      app.session := Flash(app.session, outcome.error);
    }
    return Render(LoginPage, []);
  }

  /** `load_logged_in_user`, run before every view: set `g.user` from the
      session. */
  method LoadLoggedInUser(app: App)
    requires app.Valid()
    modifies app`user
    ensures app.Valid()
    ensures app.user == LoadUser(app.session, app.users)
  {
    app.user := LoadUser(app.session, app.users);
  }

  /** `logout`: clear the session, so the next request loads no user. */
  method Logout(app: App) returns (resp: Response)
    requires app.Valid()
    modifies app`session
    ensures app.Valid()
    ensures resp == Redirect(Index)
    ensures app.session == ClearedSession
    ensures LoadUser(app.session, app.users) == None
  {
    app.session := ClearedSession;
    return Redirect(Index);
  }
}
