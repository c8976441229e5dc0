/** The `blog` blueprint: the feed, post creation, and the ownership-checked
    update and delete. */
module Blog {
  import opened Wrappers
  import opened Db
  import opened Context
  import Auth

  /** Post `id` joined with its author's row. */
  function JoinRow(id: Id, p: Post, author: User): (r: PostRow)
  {
    PostRow(id, p.title, p.body, p.created, p.authorId, author.username)
  }

  /** The rows of `post p JOIN user u ON p.author_id = u.id`, by post id; an
      inner join, so a post whose author has no row is dropped. */
  function Joined(posts: PostTable, users: UserTable): (r: map<Id, PostRow>)
    ensures RowsKeyed(r)
    ensures r.Keys <= posts.Keys && |r| <= |posts|
    ensures (forall id | id in posts :: posts[id].authorId in users) ==> r.Keys == posts.Keys && |r| == |posts|
  {
    var r := map id | id in posts && posts[id].authorId in users :: JoinRow(id, posts[id], users[posts[id].authorId]);
    assert r.Keys <= posts.Keys;
    SubsetNoLarger(r.Keys, posts.Keys);
    KeysWhenAuthorsExist(posts, users, r.Keys);
    assert |r| == |r.Keys| && |posts| == |posts.Keys|;
    r
  }

  lemma KeysWhenAuthorsExist(posts: PostTable, users: UserTable, keys: set<Id>)
    requires forall id | id in keys :: id in posts
    requires forall id | id in posts && posts[id].authorId in users :: id in keys
    ensures (forall id | id in posts :: posts[id].authorId in users) ==> keys == posts.Keys
  {
    if forall id | id in posts :: posts[id].authorId in users {
      forall id | id in posts.Keys
        ensures id in keys
      {
        assert id in posts && posts[id].authorId in users;
      }
      forall id | id in keys
        ensures id in posts.Keys
      {
        assert id in posts;
      }
    }
  }

  lemma {:induction false} SubsetNoLarger(a: set<Id>, b: set<Id>)
    requires a <= b
    ensures |a| <= |b|
    decreases b
  {
    if a != b {
      assert exists x :: x in b && x !in a by {
        if forall x :: x in b ==> x in a {
          assert false;
        }
      }
      var x :| x in b && x !in a;
      SubsetNoLarger(a, b - {x});
    }
  }

  predicate RowsKeyed(rows: map<Id, PostRow>)
  {
    forall id | id in rows :: rows[id].id == id
  }

  predicate IsLatest(rows: map<Id, PostRow>, k: Id)
  {
    k in rows && forall j | j in rows :: rows[j].created <= rows[k].created
  }

  lemma {:induction false} LatestExists(rows: map<Id, PostRow>)
    requires rows != map[]
    ensures exists k :: IsLatest(rows, k)
    decreases |rows|
  {
    assert exists k :: k in rows by {
      if forall k :: k !in rows {
        assert false;
      }
    }
    var k :| k in rows;
    var rest := rows - {k};
    assert rest.Keys == rows.Keys - {k};
    if rest == map[] {
      forall j | j in rows
        ensures rows[j].created <= rows[k].created
      {
        assert j == k || j in rest;
      }
      assert IsLatest(rows, k);
    } else {
      LatestExists(rest);
      var m :| IsLatest(rest, m);
      var latest := if rows[k].created >= rows[m].created then k else m;
      forall j | j in rows
        ensures rows[j].created <= rows[latest].created
      {
        assert j == k || j in rest;
      }
      assert IsLatest(rows, latest);
    }
  }

  /** A row with the greatest `created`; which one, among rows that tie, is
      left open. */
  ghost function Latest(rows: map<Id, PostRow>): (k: Id)
    requires rows != map[]
    ensures IsLatest(rows, k)
  {
    LatestExists(rows);
    var k :| IsLatest(rows, k);
    k
  }

  /** The rows, latest first: the `ORDER BY created DESC` of the feed. */
  ghost function SortedByCreated(rows: map<Id, PostRow>): (r: seq<PostRow>)
    ensures |r| == |rows|
    decreases |rows|
  {
    if rows == map[] then []
    else
      var k := Latest(rows);
      var rest := rows - {k};
      assert rest.Keys == rows.Keys - {k};
      assert |rest| == |rows| - 1 by {
        assert |rest.Keys| == |rows.Keys| - 1;
      }
      [rows[k]] + SortedByCreated(rest)
  }

  /** Ordering the rows loses none, repeats none, invents none, and leaves
      their `created` values non-increasing. */
  lemma {:induction false} SortedByCreatedOrders(rows: map<Id, PostRow>)
    requires RowsKeyed(rows)
    ensures var r := SortedByCreated(rows);
            && |r| == |rows|
            && (forall i | 0 <= i < |r| :: r[i].id in rows && rows[r[i].id] == r[i])
            && (forall id | id in rows :: rows[id] in r)
            && (forall i, j | 0 <= i < j < |r| :: r[i].id != r[j].id)
            && (forall i, j | 0 <= i < j < |r| :: r[i].created >= r[j].created)
    decreases |rows|
  {
    var r := SortedByCreated(rows);
    if rows != map[] {
      var k := Latest(rows);
      var rest := rows - {k};
      assert rest.Keys == rows.Keys - {k};
      var t := SortedByCreated(rest);
      SortedByCreatedOrders(rest);
      assert r == [rows[k]] + t;
      forall i | 0 <= i < |r|
        ensures r[i].id in rows && rows[r[i].id] == r[i]
      {
        if i > 0 {
          assert r[i] == t[i - 1];
        }
      }
      forall id | id in rows
        ensures rows[id] in r
      {
        if id != k {
          assert id in rest && rest[id] == rows[id];
          var i :| 0 <= i < |t| && t[i] == rest[id];
          assert r[i + 1] == rows[id];
        }
      }
      forall i, j | 0 <= i < j < |r|
        ensures r[i].id != r[j].id && r[i].created >= r[j].created
      {
        assert r[j] == t[j - 1] && r[j].id in rest;
        if i > 0 {
          assert r[i] == t[i - 1];
        }
      }
    }
  }

  /** The rows of the feed: at most one per post, and exactly one per post
      when every author exists. */
  ghost function Index(posts: PostTable, users: UserTable): (r: seq<PostRow>)
    ensures |r| <= |posts|
    ensures forall i, j | 0 <= i < j < |r| :: r[i].id != r[j].id
    ensures (forall id | id in posts :: posts[id].authorId in users) ==> |r| == |posts|
  {
    SortedByCreatedOrders(Joined(posts, users));
    SortedByCreated(Joined(posts, users))
  }

  /** `index`: render the feed template with the feed's rows, whoever asks;
      the view changes nothing. */
  ghost function IndexView(posts: PostTable, users: UserTable): (r: Response)
    ensures r.Render? && r.template == IndexPage
    ensures forall i, j | 0 <= i < j < |r.rows| :: r.rows[i].created >= r.rows[j].created
    ensures forall id | id in posts && posts[id].authorId in users ::
              JoinRow(id, posts[id], users[posts[id].authorId]) in r.rows
    ensures forall i | 0 <= i < |r.rows| ::
              && r.rows[i].id in posts && posts[r.rows[i].id].authorId in users
              && r.rows[i] == JoinRow(r.rows[i].id, posts[r.rows[i].id], users[posts[r.rows[i].id].authorId])
    ensures forall i, j | 0 <= i < j < |r.rows| :: r.rows[i].id != r.rows[j].id
  {
    IndexOrdered(posts, users);
    IndexHasEveryPost(posts, users);
    IndexRowsAreJoined(posts, users);
    Render(IndexPage, Index(posts, users))
  }

  /** Each row of the feed is a post whose author exists, joined with that
      author's username. */
  lemma IndexRowsAreJoined(posts: PostTable, users: UserTable)
    ensures var r := Index(posts, users);
            forall i | 0 <= i < |r| ::
              && r[i].id in posts && posts[r[i].id].authorId in users
              && r[i] == JoinRow(r[i].id, posts[r[i].id], users[posts[r[i].id].authorId])
  {
    var rows := Joined(posts, users);
    assert RowsKeyed(rows);
    SortedByCreatedOrders(rows);
  }

  /** Every post whose author exists is in the feed. */
  lemma IndexHasEveryPost(posts: PostTable, users: UserTable)
    ensures forall id | id in posts && posts[id].authorId in users ::
              JoinRow(id, posts[id], users[posts[id].authorId]) in Index(posts, users)
  {
    var rows := Joined(posts, users);
    assert RowsKeyed(rows);
    SortedByCreatedOrders(rows);
    forall id | id in posts && posts[id].authorId in users
      ensures JoinRow(id, posts[id], users[posts[id].authorId]) in Index(posts, users)
    {
      assert id in rows;
    }
  }

  /** The feed lists no post twice and lists newer posts first; when every
      post's author exists (as the handlers keep it), it has one row per
      post. */
  lemma IndexOrdered(posts: PostTable, users: UserTable)
    ensures var r := Index(posts, users);
            && (forall i, j | 0 <= i < j < |r| :: r[i].id != r[j].id)
            && (forall i, j | 0 <= i < j < |r| :: r[i].created >= r[j].created)
            && ((forall id | id in posts :: posts[id].authorId in users) ==> |r| == |posts|)
  {
    SortedByCreatedOrders(Joined(posts, users));
  }

  /** `get_post`: the joined row of post `id`, or the status `abort` raises:
      404 when there is no such row, whatever `checkAuthor` says; then 403
      when `checkAuthor` is set and the post is not the user's. */
  function GetPost(users: UserTable, posts: PostTable, id: Id, checkAuthor: bool, user: Option<User>)
    : (r: Result<PostRow, int>)
    requires checkAuthor && id in posts && posts[id].authorId in users ==> user.Some?
    ensures r == Err(404) <==> !(id in posts && posts[id].authorId in users)
    ensures r == Err(403) <==> id in posts && posts[id].authorId in users && checkAuthor && posts[id].authorId != user.value.id
    ensures r.Ok? || r == Err(404) || r == Err(403)
    ensures r.Ok? ==> id in posts && r.value == JoinRow(id, posts[id], users[posts[id].authorId])
  {
    if id !in posts || posts[id].authorId !in users then Err(404)
    else if checkAuthor && posts[id].authorId != user.value.id then Err(403)
    else Ok(JoinRow(id, posts[id], users[posts[id].authorId]))
  }

  /** No handler changes the author or the creation time of a post it keeps. */
  ghost predicate KeepsAuthorship(before: PostTable, after: PostTable)
  {
    forall id | id in before && id in after ::
      after[id].authorId == before[id].authorId && after[id].created == before[id].created
  }

  /** Only the logged-in owner of post `id` can have changed the table. */
  ghost predicate OnlyOwnerChanged(before: PostTable, after: PostTable, id: Id, user: Option<User>)
  {
    after != before ==> user.Some? && id in before && before[id].authorId == user.value.id
  }

  /** `create`, behind `login_required`: a POST with a title inserts one post
      by the logged-in user, stamped `now`, and redirects to the feed; an
      empty title is flashed and the form rendered again. */
  method Create(app: App, verb: Verb, title: string, body: string, now: int) returns (resp: Response)
    requires app.Valid()
    modifies app`posts, app`nextPostId, app`session
    ensures app.Valid()
    ensures KeepsAuthorship(old(app.posts), app.posts)
    ensures old(app.posts).Keys <= app.posts.Keys
    ensures if app.user.None? then
              && resp == Redirect(AuthLogin)
              && app.posts == old(app.posts) && app.nextPostId == old(app.nextPostId)
              && app.session == old(app.session)
            else if verb == GET then
              && resp == Render(CreatePage, [])
              && app.posts == old(app.posts) && app.nextPostId == old(app.nextPostId)
              && app.session == old(app.session)
            else if title == "" then
              && resp == Render(CreatePage, [])
              && app.posts == old(app.posts) && app.nextPostId == old(app.nextPostId)
              && app.session == Flash(old(app.session), "Title is required")
            else
              && resp == Redirect(BlogIndex)
              && old(app.nextPostId) !in old(app.posts)
              && app.posts == old(app.posts)[old(app.nextPostId) :=
                   Post(old(app.nextPostId), title, body, app.user.value.id, now)]
              && app.nextPostId == old(app.nextPostId) + 1
              && app.session == old(app.session)
  {
    var gate := Auth.LoginRequired(app.user);
    if gate.Refuse? {
      return gate.response;
    }
    if verb == POST {
      if title == "" {
        app.session := Flash(app.session, "Title is required");
      } else {
        app.posts := app.posts[app.nextPostId := Post(app.nextPostId, title, body, app.user.value.id, now)];
        app.nextPostId := app.nextPostId + 1;
        return Redirect(BlogIndex);
      }
    }
    return Render(CreatePage, []);
  }

  /** `update`, behind `login_required`: `get_post` runs first, so a missing
      post (404) or someone else's (403) is refused before anything changes.
      A POST with a title overwrites that post's title and body only; an
      empty title is flashed. Either POST redirects to the feed. */
  method Update(app: App, verb: Verb, id: Id, title: string, body: string) returns (resp: Response)
    requires app.Valid()
    modifies app`posts, app`session
    ensures app.Valid()
    ensures KeepsAuthorship(old(app.posts), app.posts)
    ensures app.posts.Keys == old(app.posts).Keys
    ensures app.posts - {id} == old(app.posts) - {id}
    ensures OnlyOwnerChanged(old(app.posts), app.posts, id, app.user)
    ensures if app.user.None? then
              resp == Redirect(AuthLogin) && app.posts == old(app.posts) && app.session == old(app.session)
            else
              var got := GetPost(app.users, old(app.posts), id, true, app.user);
              if got.Err? then
                resp == Abort(got.error) && app.posts == old(app.posts) && app.session == old(app.session)
              else if verb == GET then
                resp == Render(UpdatePage, [got.value]) && app.posts == old(app.posts) && app.session == old(app.session)
              else if title == "" then
                && resp == Redirect(BlogIndex)
                && app.posts == old(app.posts)
                && app.session == Flash(old(app.session), "Title is required")
              else
                && resp == Redirect(BlogIndex)
                && app.posts == old(app.posts)[id := old(app.posts)[id].(title := title, body := body)]
                && app.session == old(app.session)
  {
    var gate := Auth.LoginRequired(app.user);
    if gate.Refuse? {
      return gate.response;
    }
    var got := GetPost(app.users, app.posts, id, true, app.user);
    if got.Err? {
      return Abort(got.error);
    }
    if verb == GET {
      return Render(UpdatePage, [got.value]);
    }
    if title == "" {
      app.session := Flash(app.session, "Title is required");
    } else {
      app.posts := app.posts[id := app.posts[id].(title := title, body := body)];
    }
    return Redirect(BlogIndex);
  }

  /** `delete`, behind `login_required`: once `get_post` has passed, remove
      exactly post `id` and redirect to the feed. */
  method Delete(app: App, id: Id) returns (resp: Response)
    requires app.Valid()
    modifies app`posts
    ensures app.Valid()
    ensures KeepsAuthorship(old(app.posts), app.posts)
    ensures app.posts - {id} == old(app.posts) - {id}
    ensures OnlyOwnerChanged(old(app.posts), app.posts, id, app.user)
    ensures if app.user.None? then
              resp == Redirect(AuthLogin) && app.posts == old(app.posts)
            else
              var got := GetPost(app.users, old(app.posts), id, true, app.user);
              if got.Err? then
                resp == Abort(got.error) && app.posts == old(app.posts)
              else
                resp == Redirect(BlogIndex) && id in old(app.posts) && app.posts == old(app.posts) - {id}
  {
    var gate := Auth.LoginRequired(app.user);
    if gate.Refuse? {
      return gate.response;
    }
    var got := GetPost(app.users, app.posts, id, true, app.user);
    if got.Err? {
      return Abort(got.error);
    }
    app.posts := app.posts - {id};
    return Redirect(BlogIndex);
  }
}
