/** What a request handler sees besides the database: the HTTP verb, the
    session cookie, the request-scoped `g.user`, and the response it returns.
    One `App` object holds the tables together with the session and `g.user`,
    because every handler reads and writes all of them. */
module Context {
  import opened Wrappers
  import opened Db

  datatype Verb = GET | POST

  /** Flask's signed session cookie: the logged-in user's id, and the messages
      `flash` has queued (Flask keeps those in the session as well). */
  datatype Session = Session(userId: Option<Id>, flashes: seq<string>)

  /** The session after `session.clear()`. */
  const ClearedSession := Session(None, [])

  /** `flash(message)`: queue a message for the next rendered page. */
  function Flash(s: Session, message: string): (s': Session)
  {
    s.(flashes := s.flashes + [message])
  }

  /** Endpoints passed to `url_for`. `Index` is the application-level 'index'
      endpoint that `login` and `logout` name; `BlogIndex` is 'blog.index'. */
  datatype Endpoint = AuthLogin | Index | BlogIndex

  /** The templates the handlers render. */
  datatype Template = RegisterPage | LoginPage | IndexPage | CreatePage | UpdatePage

  /** What a handler returns: a redirect, a rendered template with the rows
      it is given, or an `abort` status. */
  datatype Response = Redirect(endpoint: Endpoint) | Render(template: Template, rows: seq<PostRow>) | Abort(status: int)

  class App {
    var users: UserTable
    var posts: PostTable
    var session: Session
    /** `g.user`: the user row loaded for the current request, if any. */
    var user: Option<User>
    /** The ids SQLite assigns to the next inserted row of each table. */
    var nextUserId: Id
    var nextPostId: Id

    /** What the handlers keep true of the tables between requests. */
    ghost predicate Valid()
      reads this
    {
      && UsersKeyed(users)
      && PostsKeyed(posts)
      && 0 < nextUserId && 0 < nextPostId
      && UniqueUsernames(users)
      && (forall id | id in users :: 0 < id < nextUserId && users[id].username != "")
      && (forall id | id in posts :: 0 < id < nextPostId && posts[id].authorId in users)
      && (user.Some? ==> user.value.id in users && users[user.value.id] == user.value)
    }

    /** A freshly initialised database and a client without a cookie. */
    constructor ()
      ensures Valid()
      ensures users == map[] && posts == map[]
      ensures session == ClearedSession && user == None
      ensures nextUserId == 1 && nextPostId == 1
    {
      users, posts := map[], map[];
      session, user := ClearedSession, None;
      nextUserId, nextPostId := 1, 1;
    }
  }
}
