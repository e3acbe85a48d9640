/** The database the handlers query, as three in-memory tables in insertion
    order. Each table has its own serial id counter; one logical clock stands in
    for CURRENT_TIMESTAMP and advances on every insert and update. */
module Tables {
  import opened Wrappers
  import opened Models

  /** Usernames are pairwise distinct. */
  ghost predicate UniqueUsernames(us: seq<User>) {
    forall i, j :: 0 <= i < j < |us| ==> us[i].username != us[j].username
  }

  ghost predicate UsersValid(us: seq<User>, nextId: int, clock: nat) {
    && 1 <= nextId
    && (forall i :: 0 <= i < |us| ==> 0 < us[i].id < nextId && us[i].username != "" && us[i].createdAt < clock)
    && (forall i, j :: 0 <= i < j < |us| ==> us[i].id < us[j].id)
    && UniqueUsernames(us)
  }

  /** Ids and creation times both grow along the table, so table order, id
      order and created_at order agree. */
  ghost predicate PostsValid(ps: seq<Post>, nextId: int, clock: nat) {
    && 1 <= nextId
    && (forall i :: 0 <= i < |ps| ==> 0 < ps[i].id < nextId && ps[i].createdAt <= ps[i].updatedAt < clock)
    && (forall i, j :: 0 <= i < j < |ps| ==> ps[i].id < ps[j].id && ps[i].createdAt < ps[j].createdAt)
  }

  ghost predicate CommentsValid(cs: seq<Comment>, nextId: int, clock: nat) {
    && 1 <= nextId
    && (forall i :: 0 <= i < |cs| ==> 0 < cs[i].id < nextId && cs[i].createdAt < clock)
    && (forall i, j :: 0 <= i < j < |cs| ==> cs[i].id < cs[j].id && cs[i].createdAt < cs[j].createdAt)
  }

  class Db {
    var users: seq<User>
    var posts: seq<Post>
    var comments: seq<Comment>
    var nextUserId: int
    var nextPostId: int
    var nextCommentId: int
    var clock: nat

    ghost predicate Valid()
      reads this
    {
      && UsersValid(users, nextUserId, clock)
      && PostsValid(posts, nextPostId, clock)
      && CommentsValid(comments, nextCommentId, clock)
    }

    /** Empty tables whose serial counters start at 1. */
    constructor ()
      ensures Valid()
      ensures users == [] && posts == [] && comments == []
      ensures nextUserId == 1 && nextPostId == 1 && nextCommentId == 1 && clock == 0
    {
      users, posts, comments := [], [], [];
      nextUserId, nextPostId, nextCommentId := 1, 1, 1;
      clock := 0;
    }
  }

  /** `SELECT ... FROM users WHERE id = $1`. */
  function UserById(us: seq<User>, id: int): (r: Option<User>)
    ensures r.Some? ==> r.value in us && r.value.id == id
    ensures r.None? ==> forall i :: 0 <= i < |us| ==> us[i].id != id
  {
    if us == [] then None
    else if us[0].id == id then Some(us[0])
    else UserById(us[1..], id)
  }

  /** `SELECT ... FROM users WHERE username = $1`. */
  function UserByName(us: seq<User>, name: string): (r: Option<User>)
    ensures r.Some? ==> r.value in us && r.value.username == name
    ensures r.None? ==> forall i :: 0 <= i < |us| ==> us[i].username != name
  {
    if us == [] then None
    else if us[0].username == name then Some(us[0])
    else UserByName(us[1..], name)
  }

  /** Looking a name up in a table with distinct names finds the one row that has it. */
  lemma {:induction false} UserByNameFindsRow(us: seq<User>, k: nat)
    requires UniqueUsernames(us) && k < |us|
    ensures UserByName(us, us[k].username) == Some(us[k])
  {
    if k > 0 {
      assert us[0].username != us[k].username;
      assert UniqueUsernames(us[1..]) by {
        forall i, j | 0 <= i < j < |us| - 1
          ensures us[1..][i].username != us[1..][j].username
        {
          assert us[1..][i] == us[i + 1] && us[1..][j] == us[j + 1];
        }
      }
      UserByNameFindsRow(us[1..], k - 1);
    }
  }

  /** Looking an id up in a table with increasing ids finds the one row that has it. */
  lemma {:induction false} UserByIdFindsRow(us: seq<User>, k: nat)
    requires (forall i, j :: 0 <= i < j < |us| ==> us[i].id < us[j].id) && k < |us|
    ensures UserById(us, us[k].id) == Some(us[k])
  {
    if k > 0 {
      UserByIdFindsRow(us[1..], k - 1);
    }
  }

  /** The first n rows of a result set (`LIMIT n`). */
  function Take<T>(s: seq<T>, n: nat): (r: seq<T>)
    ensures |r| <= n && r <= s
    ensures |s| >= n ==> |r| == n
    ensures |s| <= n ==> r == s
  {
    if |s| <= n then s else s[..n]
  }
}
