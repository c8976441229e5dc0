/** The two SQLite tables the handlers use, as in-memory maps keyed by row id,
    and the keyed lookups the handlers run on them. */
module Db {
  import opened Wrappers

  type Id = int

  /** A row of table `user`. */
  datatype User = User(id: Id, username: string, passwordHash: string)

  /** A row of table `post`. */
  datatype Post = Post(id: Id, title: string, body: string, authorId: Id, created: int)

  /** A row of `post p JOIN user u ON p.author_id = u.id`, the shape both the
      feed and `get_post` select. */
  datatype PostRow = PostRow(id: Id, title: string, body: string, created: int, authorId: Id, username: string)

  type UserTable = map<Id, User>
  type PostTable = map<Id, Post>

  /** Every row sits under its own id. */
  predicate UsersKeyed(users: UserTable)
  {
    forall id | id in users :: users[id].id == id
  }

  predicate PostsKeyed(posts: PostTable)
  {
    forall id | id in posts :: posts[id].id == id
  }

  /** No two rows of `user` share a username. */
  predicate UniqueUsernames(users: UserTable)
  {
    forall a, b | a in users && b in users :: users[a].username == users[b].username ==> a == b
  }

  predicate HasName(users: UserTable, id: Id, name: string)
  {
    id in users && users[id].username == name
  }

  lemma {:induction false} LeastExists(s: set<Id>)
    requires s != {}
    ensures exists m :: m in s && forall j :: j in s ==> m <= j
  {
    assert exists x :: x in s by {
      if forall x :: x !in s {
        assert false;
      }
    }
    var x :| x in s;
    var rest := s - {x};
    if rest == {} {
      forall j | j in s
        ensures x <= j
      {
        assert j == x || j in rest;
      }
    } else {
      LeastExists(rest);
      var m :| m in rest && forall j :: j in rest ==> m <= j;
      var least := if x < m then x else m;
      forall j | j in s
        ensures least <= j
      {
        if j != x {
          assert j in rest;
        }
      }
    }
  }

  /** `SELECT * FROM user WHERE username = ?` followed by `fetchone()`: the
      first matching row, taken here as the one with the least id, or None. */
  function UserByName(users: UserTable, name: string): (r: Option<User>)
    ensures r.None? <==> forall id | id in users :: users[id].username != name
    ensures r.Some? ==> r.value.username == name
    ensures r.Some? ==> exists id :: HasName(users, id, name) && users[id] == r.value
    ensures UsersKeyed(users) && r.Some? ==> r.value.id in users && users[r.value.id] == r.value
    ensures UniqueUsernames(users) ==> forall id | HasName(users, id, name) :: r == Some(users[id])
  {
    var named := set id | id in users && users[id].username == name;
    if named == {} then
      assert forall id | id in users :: id in named ==> false;
      None
    else
      LeastExists(named);
      var id :| id in named && forall j :: j in named ==> id <= j;
      Some(users[id])
  }
}
