# flaskr: accounts, sessions and owner-only posts

This project models the request handlers of flaskr, a small Flask blog. Users
register and log in. A logged-in user writes posts. Only the author of a post may
edit or delete it. Everyone sees the feed, newest post first.

The model keeps the state the handlers share in one `Context.App` object:

- the `user` and `post` tables, as maps from row id to row;
- the session cookie: the logged-in user's id plus the messages `flash` has queued;
- `g.user`, the user row loaded for the current request;
- the ids SQLite will give the next inserted rows.

Each view of `flaskr/auth.py` and `flaskr/blog.py` that writes is a method that
changes that state and returns a `Response`: a redirect to an endpoint, a
rendered template with its rows, or an `abort` status. The read-only `index`
view is the ghost function `Blog.IndexView`, which returns the rendered feed.
The methods' contracts state the whole new state: what is inserted, overwritten
or removed, what is flashed, and that nothing else moves. `App.Valid()` holds
between requests and is kept by every handler. It says:

- every row sits under its own id;
- usernames are unique and non-empty;
- every post's author exists;
- `g.user`, when set, is the current row of that user.

The decisions are pure functions with their own contracts:

- the order of the registration checks;
- the credential check of `login`;
- the per-request user lookup;
- the `login_required` gate;
- the feed query;
- the 404-before-403 ownership check of `get_post`.

Lemmas relate these functions to each other. Registering keeps usernames
unique. A user who registers can then log in. The feed lists every post exactly
once, newest first.

Hashing is werkzeug's and is not defined in the repository. `Passwords.Hasher`
holds it as two function values: `generate(password, salt)` and
`check(hash, password)`. The salt is the generator's randomness, passed in by
the caller. Nothing is assumed about them. The one property that needs the
hasher to accept its own output, the register-then-login round trip, requires
`Accepts(h, password, salt)` for that password and that salt.

Four behaviours of the code that are easy to misread:

- Re-registering a taken username with an empty password gets "Password is
  required", not the duplicate error. The emptiness checks run first
  (`Auth.DuplicateRejected`).
- The feed is ordered by `created` alone. Posts with equal timestamps come in
  an unspecified order, not necessarily insertion order. `Blog.Latest` picks
  among tied rows without saying which.
- `register` does not return the new id. It redirects to the login page.
- An `update` with an empty title is not an error response. It flashes
  "Title is required" and still redirects to the feed.

## Model

| member | source | states |
|---|---|---|
| `Db.UserByName` | flaskr/auth.py:69-70 | the lookup by username finds a row iff some row has that name; the row found has that name and is in the table (under its own id); with unique usernames it is that user's row |
| `Auth.RegisterError` | flaskr/auth.py:24-35 | registration is accepted iff username and password are non-empty and no row has the username; an empty username is reported first, then an empty password, then "User … is already registered" |
| `Auth.DuplicateRejected` | flaskr/auth.py:27-35 | an existing username is always refused: with "Password is required" when the password is empty, else with the duplicate message |
| `Auth.RegisterKeepsUnique` | flaskr/auth.py:31-40 | inserting an accepted registration under a fresh id keeps usernames unique |
| `Auth.Authenticate` | flaskr/auth.py:68-77 | "Incorrect username" iff no row has the username; otherwise the row with that name is returned iff `check_password_hash` accepts its hash, else "Incorrect password"; a user is never returned when the check fails |
| `Auth.RegisterThenAuthenticate` | flaskr/auth.py:37-77 | after an accepted registration, logging in with the same username and password returns exactly the inserted row, provided the hasher accepts the password against the hash it generated |
| `Auth.LoadUser` | flaskr/auth.py:94-101 | `g.user` is a row iff the session holds a `user_id` that is a key of the user table, and then it is that row |
| `Auth.LoginRequired` | flaskr/auth.py:114-122 | the view runs iff a user is loaded; otherwise the response is a redirect to `auth.login` |
| `Auth.Register` | flaskr/auth.py:18-56 | an accepted POST inserts exactly one row (new id, the username, `generate(password, salt)`) and redirects to `auth.login`; any other request leaves the user table unchanged and renders the form, a rejected POST flashing its error; posts and `g.user` never change; `Valid()` is kept |
| `Auth.Login` | flaskr/auth.py:63-88 | a POST with good credentials replaces the session by one holding only that user's id, so the next lookup loads that user, and redirects to `index`; otherwise the session's user is unchanged, a failed POST flashes its error, and the form is rendered; tables never change |
| `Auth.LoadLoggedInUser` | flaskr/auth.py:93-101 | sets `g.user` to the lookup of the session's id and changes nothing else |
| `Auth.Logout` | flaskr/auth.py:106-108 | clears the session, so the next lookup loads no user, and redirects to `index` |
| `Blog.Joined` | flaskr/blog.py:16-18 | the inner join has at most one row per post, each under its post's id; when every post's author exists it has exactly one row per post |
| `Blog.SortedByCreated` | flaskr/blog.py:19 | `ORDER BY created DESC` yields exactly as many rows as it is given; the ordering itself is stated by `Blog.SortedByCreatedOrders` |
| `Blog.SortedByCreatedOrders` | flaskr/blog.py:16-20 | ordering the joined rows keeps every row exactly once, adds none, and leaves `created` non-increasing |
| `Blog.IndexRowsAreJoined` | flaskr/blog.py:14-22 | every row of the feed is an existing post joined with its author's username |
| `Blog.IndexHasEveryPost` | flaskr/blog.py:14-22 | every post whose author exists appears in the feed |
| `Blog.IndexOrdered` | flaskr/blog.py:16-20 | the feed repeats no post, has `created` non-increasing, and has one row per post when all authors exist |
| `Blog.Index` | flaskr/blog.py:14-22 | the feed query lists no post twice, has no more rows than there are posts, and has exactly one per post when every author exists; what the rows are and their order are stated by `Blog.IndexRowsAreJoined`, `Blog.IndexHasEveryPost` and `Blog.IndexOrdered` |
| `Blog.IndexView` | flaskr/blog.py:13-22 | the `index` view renders the feed template; each row is an existing post joined with its author's username, no post repeats, every post whose author exists is included, and rows come newest first; it changes no state |
| `Blog.GetPost` | flaskr/blog.py:51-62 | 404 iff the post (joined with its author) does not exist, whatever `checkAuthor` is and whether or not a user is loaded; 403 iff it exists, `checkAuthor` is set and the author is not `g.user`; otherwise the joined row, unchanged |
| `Blog.Create` | flaskr/blog.py:25-48 | anonymous callers are redirected to `auth.login` and nothing changes; a POST with an empty title flashes "Title is required" and leaves the posts alone; a POST with a title adds exactly one post (fresh id, the title, the body, `g.user`'s id, `now`) and redirects to `blog.index`; existing posts keep author and creation time |
| `Blog.Update` | flaskr/blog.py:67-90 | anonymous callers are redirected; otherwise `get_post` runs before any change and a 404/403 leaves everything alone; a POST with a title overwrites only the title and body of post `id`, an empty title only flashes, and both redirect to `blog.index`; no other post changes, author and creation time never change, and only the owner can change the table |
| `Blog.Delete` | flaskr/blog.py:95-102 | anonymous callers are redirected; a missing post (404) or someone else's (403) leaves the table intact; otherwise exactly post `id` is removed and the response is a redirect to `blog.index`; only the owner can change the table |
| `Context.App.constructor` | flaskr/db.py:34-38 | the state right after `init_db` has run the schema, with a client that has no cookie: no users, no posts, an empty session, no user loaded, and both id counters at 1 |
| `Walkthrough.SignUp` | flaskr/auth.py:37-84 | registering a fresh name and logging in with the same password loads exactly the new row as `g.user` on the next request, leaving the posts alone |
| `Walkthrough.AliceThenBob` | flaskr/blog.py:59-62 | on a fresh database: alice signs up and posts "Hello"/"World"; the feed then has exactly that post under "alice"; bob signs up and his update of it is refused with 403 |

## Left out

- Flask itself: routing, blueprints, `url_for`, template rendering and the display of flashed messages are outcome values (`Response`, `Session.flashes`), not behaviour. A message stays queued in the session until `session.clear()`, because the templates that consume messages are not part of this model.
- Form parsing: every form field is taken to be present. A missing field makes Flask answer 400 where the view first reads the field: after `login_required`, and in `update` after `get_post`. Nothing has been written by then. That answer is not modelled.
- The text `abort(404, …)` attaches to its status, and the `print` to standard error in `create`.
- SQLite: the schema file is not part of this model. Ids come from a per-table counter (the next id is never reused). A post's `created` is the `now` parameter of `Blog.Create`, standing for the database's default timestamp.
- Requests run one after another. Transactions, commits and concurrent requests are not modelled.
- `Db.UserByName`: `fetchone()` returns some matching row; the model takes the one with the least id. Registration keeps usernames unique, so there is only one.
- `Blog.GetPost`: requires a loaded user when `checkAuthor` is set and the post exists with its author. Only then does the code read `g.user['id']`, and it would fail without a user; a missing post is answered with 404 before that read. Its only callers sit behind `login_required`.
- `Blog.Index`: the feed is a ghost function, not executable code. Rows with equal `created` come in an order the model leaves open.
- Password hashing is abstract: `generate` and `check` are parameters. Its salting and its one-wayness are not modelled. "Never the plaintext" is modelled only as "the stored value is the generator's output".
- The application factory, `init-db` and the database connection lifecycle in `flaskr/__init__.py` and `flaskr/db.py`, and the packaging in `setup.py`. As written, the factory does not register the `auth` or `blog` blueprints, the `index` endpoint or the database teardown. The model assumes the views are reachable as the handlers intend.
- `Walkthrough.AliceThenBob`: the feed it returns is ghost, because the feed query is a ghost function.
