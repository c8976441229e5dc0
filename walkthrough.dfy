/** Requests against a fresh database, each view preceded by
    `load_logged_in_user` as Flask runs it before every view. */
module Walkthrough {
  import opened Wrappers
  import opened Db
  import opened Passwords
  import opened Context
  import Auth
  import Blog

  /** Register a new name, then log in with the same password: the next
      request carries the new user. */
  method SignUp(app: App, name: string, password: string, h: Hasher, salt: Salt)
    requires app.Valid()
    requires name != "" && password != "" && Accepts(h, password, salt)
    requires forall id | id in app.users :: app.users[id].username != name
    modifies app
    ensures app.Valid()
    ensures app.posts == old(app.posts) && app.nextPostId == old(app.nextPostId)
    ensures old(app.users).Keys <= app.users.Keys
    ensures app.users == old(app.users)[old(app.nextUserId) := User(old(app.nextUserId), name, h.generate(password, salt))]
    ensures app.user == Some(app.users[old(app.nextUserId)])
    ensures Auth.LoadUser(app.session, app.users) == app.user
  {
    Auth.LoadLoggedInUser(app);
    var r := Auth.Register(app, POST, name, password, h, salt);
    assert HasName(app.users, old(app.nextUserId), name);
    Auth.LoadLoggedInUser(app);
    r := Auth.Login(app, POST, name, password, h);
    Auth.LoadLoggedInUser(app);
  }

  /** alice signs up and posts "Hello"; the feed then shows that one post
      under her name; bob signs up and tries to edit it, and is refused with
      403. */
  method AliceThenBob(h: Hasher, aliceSalt: Salt, bobSalt: Salt, now: int)
    returns (ghost feed: seq<PostRow>, resp: Response)
    requires Accepts(h, "pw1", aliceSalt) && Accepts(h, "pw2", bobSalt)
    ensures |feed| == 1
    ensures feed[0].username == "alice" && feed[0].title == "Hello" && feed[0].body == "World"
    ensures resp == Abort(403)
  {
    var app := new App();
    SignUp(app, "alice", "pw1", h, aliceSalt);
    Auth.LoadLoggedInUser(app);
    var r := Blog.Create(app, POST, "Hello", "World", now);
    assert app.posts.Keys == {1};

    feed := Blog.Index(app.posts, app.users);
    Blog.IndexRowsAreJoined(app.posts, app.users);
    Blog.IndexOrdered(app.posts, app.users);

    SignUp(app, "bob", "pw2", h, bobSalt);
    Auth.LoadLoggedInUser(app);
    resp := Blog.Update(app, POST, 1, "Hacked", "");
  }
}
