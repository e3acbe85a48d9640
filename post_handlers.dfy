/** The post handlers: the public feed, one user's posts, and ownership-guarded
    create, update and delete on the posts table. */
module PostHandlers {
  import opened Wrappers
  import opened Models
  import opened Tables
  import opened StrConv

  /** `LIMIT 10` on the feed query. */
  const FeedLimit: nat := 10

  // ---------------------------------------------------------------------------
  // The feed: posts JOIN users ORDER BY created_at DESC LIMIT 10

  /** A post joined with its author; a post whose author has no row drops out
      of the inner join. */
  function FeedEntry(p: Post, users: seq<User>): (e: Option<FeedPost>)
    ensures e.Some? <==> UserById(users, p.userId).Some?
    ensures e.Some? ==> e.value == FeedPost(p.id, p.title, p.body, p.topic, UserById(users, p.userId).value.username)
  {
    match UserById(users, p.userId)
    case None => None
    case Some(u) => Some(FeedPost(p.id, p.title, p.body, p.topic, u.username))
  }

  /** Every post that joins with its author, latest row first. The table is
      in created_at order (Tables.PostsValid), so this is created_at DESC. */
  function Feed(ps: seq<Post>, users: seq<User>): (f: seq<FeedPost>)
    ensures |f| <= |ps|
  {
    if ps == [] then [] else Feed(ps[1..], users) + FeedEntry(ps[0], users).ToSeq()
  }

  /** Scanning the table from some row to the end yields a prefix of the whole feed. */
  lemma {:induction false} FeedSuffixIsPrefix(ps: seq<Post>, users: seq<User>, i: nat)
    requires i <= |ps|
    ensures Feed(ps[i..], users) <= Feed(ps, users)
  {
    if i > 0 {
      assert ps[1..][i - 1..] == ps[i..];
      FeedSuffixIsPrefix(ps[1..], users, i - 1);
    }
  }

  /** The feed holds exactly the joined entries of the table's posts. */
  lemma {:induction false} FeedMembers(ps: seq<Post>, users: seq<User>)
    ensures forall p :: p in ps && FeedEntry(p, users).Some? ==> FeedEntry(p, users).value in Feed(ps, users)
    ensures forall e :: e in Feed(ps, users) ==> exists p :: p in ps && FeedEntry(p, users) == Some(e)
  {
    if ps != [] {
      FeedMembers(ps[1..], users);
      forall p | p in ps && FeedEntry(p, users).Some?
        ensures FeedEntry(p, users).value in Feed(ps, users)
      {
        if p != ps[0] {
          assert p in ps[1..];
        }
      }
      forall e | e in Feed(ps, users)
        ensures exists p :: p in ps && FeedEntry(p, users) == Some(e)
      {
        if e in Feed(ps[1..], users) {
          var p :| p in ps[1..] && FeedEntry(p, users) == Some(e);
          assert p in ps;
        } else {
          assert FeedEntry(ps[0], users) == Some(e);
        }
      }
    }
  }

  /** Newest first: with ids increasing along the table, feed ids strictly decrease. */
  lemma {:induction false} FeedNewestFirst(ps: seq<Post>, users: seq<User>)
    requires forall i, j :: 0 <= i < j < |ps| ==> ps[i].id < ps[j].id
    ensures forall i, j :: 0 <= i < j < |Feed(ps, users)| ==> Feed(ps, users)[i].id > Feed(ps, users)[j].id
  {
    if ps != [] {
      var rest := Feed(ps[1..], users);
      FeedNewestFirst(ps[1..], users);
      FeedMembers(ps[1..], users);
      forall e | e in rest
        ensures e.id > ps[0].id
      {
        var p :| p in ps[1..] && FeedEntry(p, users) == Some(e);
        var k :| 0 <= k < |ps[1..]| && ps[1..][k] == p;
        assert ps[k + 1] == p;
      }
      var f := Feed(ps, users);
      forall i, j | 0 <= i < j < |f|
        ensures f[i].id > f[j].id
      {
        if j >= |rest| {
          assert f[i] in rest;
        } else {
          assert f[i] == rest[i] && f[j] == rest[j];
        }
      }
    }
  }

  /** GetAllPostsHandler: always 200 with at most ten joined posts, newest
      first (the ten newest); `null` when there are none. */
  method GetAllPosts(db: Db) returns (r: Response)
    ensures r == Response(StatusOK, FeedJson(EncodeAppended(Take(Feed(db.posts, db.users), FeedLimit))))
  {
    var feed: seq<FeedPost> := [];
    var i := |db.posts|;
    while i > 0 && |feed| < FeedLimit
      invariant 0 <= i <= |db.posts|
      invariant feed == Feed(db.posts[i..], db.users)
      invariant |feed| <= FeedLimit
    {
      i := i - 1;
      assert db.posts[i..][1..] == db.posts[i + 1..];
      feed := feed + FeedEntry(db.posts[i], db.users).ToSeq();
    }
    FeedSuffixIsPrefix(db.posts, db.users, i);
    assert db.posts[0..] == db.posts;
    var all := Feed(db.posts, db.users);
    if i > 0 {
      assert feed == all[..FeedLimit];
      assert Take(all, FeedLimit) == feed;
    } else {
      assert feed == all;
      assert Take(all, FeedLimit) == feed;
    }
    r := Response(StatusOK, FeedJson(EncodeAppended(feed)));
  }

  // ---------------------------------------------------------------------------
  // One user's posts: WHERE user_id = $1 ORDER BY created_at DESC

  /** The posts of user uid, latest row first. */
  function OwnPosts(ps: seq<Post>, uid: int): (r: seq<Post>)
    ensures |r| <= |ps|
  {
    if ps == [] then [] else OwnPosts(ps[1..], uid) + (if ps[0].userId == uid then [ps[0]] else [])
  }

  /** Exactly that user's posts are listed. */
  lemma {:induction false} OwnPostsMembers(ps: seq<Post>, uid: int)
    ensures forall p :: p in OwnPosts(ps, uid) <==> p in ps && p.userId == uid
  {
    if ps != [] {
      OwnPostsMembers(ps[1..], uid);
      assert ps == [ps[0]] + ps[1..];
    }
  }

  /** Newest first: created_at strictly decreases along the list. */
  lemma {:induction false} OwnPostsNewestFirst(ps: seq<Post>, uid: int)
    requires forall i, j :: 0 <= i < j < |ps| ==> ps[i].createdAt < ps[j].createdAt
    ensures forall i, j :: 0 <= i < j < |OwnPosts(ps, uid)| ==>
              OwnPosts(ps, uid)[i].createdAt > OwnPosts(ps, uid)[j].createdAt
  {
    if ps != [] {
      var rest := OwnPosts(ps[1..], uid);
      OwnPostsNewestFirst(ps[1..], uid);
      OwnPostsMembers(ps[1..], uid);
      forall p | p in rest
        ensures p.createdAt > ps[0].createdAt
      {
        var k :| 0 <= k < |ps[1..]| && ps[1..][k] == p;
        assert ps[k + 1] == p;
      }
      var f := OwnPosts(ps, uid);
      forall i, j | 0 <= i < j < |f|
        ensures f[i].createdAt > f[j].createdAt
      {
        if j >= |rest| {
          assert f[i] in rest;
        } else {
          assert f[i] == rest[i] && f[j] == rest[j];
        }
      }
    }
  }

  /** The `user_id` query checks of GetPostsHandler, in order: present,
      a base-10 int64, an existing user. */
  function CheckOwner(users: seq<User>, userIdParam: string): (r: Result<int, Response>)
    ensures r.Ok? <==> ParseInt(userIdParam).Some? && UserById(users, ParseInt(userIdParam).value).Some?
    ensures r.Ok? ==> r.value == ParseInt(userIdParam).value
    ensures r.Err? ==> r.error.status == StatusBadRequest
    ensures userIdParam == "" ==> r == Err(Fail(StatusBadRequest, UserIdRequired))
    ensures userIdParam != "" && ParseInt(userIdParam).None? ==> r == Err(Fail(StatusBadRequest, InvalidUserId))
    ensures ParseInt(userIdParam).Some? && UserById(users, ParseInt(userIdParam).value).None? ==>
              r == Err(Fail(StatusBadRequest, UserNotFound))
  {
    if userIdParam == "" then Err(Fail(StatusBadRequest, UserIdRequired))
    else
      match ParseInt(userIdParam)
      case None => Err(Fail(StatusBadRequest, InvalidUserId))
      case Some(uid) =>
        if UserById(users, uid).None? then Err(Fail(StatusBadRequest, UserNotFound))
        else Ok(uid)
  }

  /** GetPostsHandler: 400 unless `user_id` names an existing user, otherwise
      200 with that user's posts newest first (`null` when there are none). */
  method GetPosts(db: Db, userIdParam: string) returns (r: Response)
    ensures CheckOwner(db.users, userIdParam).Err? ==> r == CheckOwner(db.users, userIdParam).error
    ensures CheckOwner(db.users, userIdParam).Ok? ==>
              r == Response(StatusOK, PostsJson(EncodeAppended(OwnPosts(db.posts, CheckOwner(db.users, userIdParam).value))))
  {
    var check := CheckOwner(db.users, userIdParam);
    if check.Err? {
      return check.error;
    }
    var uid := check.value;
    var posts: seq<Post> := [];
    var i := |db.posts|;
    while i > 0
      invariant 0 <= i <= |db.posts|
      invariant posts == OwnPosts(db.posts[i..], uid)
    {
      i := i - 1;
      assert db.posts[i..][1..] == db.posts[i + 1..];
      if db.posts[i].userId == uid {
        posts := posts + [db.posts[i]];
      }
    }
    assert db.posts[0..] == db.posts;
    r := Response(StatusOK, PostsJson(EncodeAppended(posts)));
  }

  // ---------------------------------------------------------------------------
  // Create

  /** The checks of CreatePostHandler, in order: a decodable body, a title, a
      body, a topic, a positive user_id, an existing user. */
  function CheckCreate(users: seq<User>, req: Option<CreatePostRequest>): (r: Option<Response>)
    ensures r.None? <==>
              req.Some? && req.value.title != "" && req.value.body != "" && req.value.topic != "" &&
              req.value.userId > 0 && UserById(users, req.value.userId).Some?
    ensures r.Some? ==> r.value.status == StatusBadRequest
    ensures req.None? ==> r == Some(Malformed)
    ensures req.Some? && req.value.title == "" ==> r == Some(Fail(StatusBadRequest, TitleRequired))
    ensures req.Some? && req.value.title != "" && req.value.body == "" ==>
              r == Some(Fail(StatusBadRequest, BodyRequired))
    ensures req.Some? && req.value.title != "" && req.value.body != "" && req.value.topic == "" ==>
              r == Some(Fail(StatusBadRequest, TopicRequired))
    ensures (req.Some? && req.value.title != "" && req.value.body != "" && req.value.topic != "" &&
             req.value.userId <= 0) ==> r == Some(Fail(StatusBadRequest, ValidUserIdRequired))
    ensures (req.Some? && req.value.title != "" && req.value.body != "" && req.value.topic != "" &&
             req.value.userId > 0 && UserById(users, req.value.userId).None?) ==>
              r == Some(Fail(StatusBadRequest, UserNotFound))
  {
    match req
    case None => Some(Malformed)
    case Some(q) =>
      if q.title == "" then Some(Fail(StatusBadRequest, TitleRequired))
      else if q.body == "" then Some(Fail(StatusBadRequest, BodyRequired))
      else if q.topic == "" then Some(Fail(StatusBadRequest, TopicRequired))
      else if q.userId <= 0 then Some(Fail(StatusBadRequest, ValidUserIdRequired))
      else if UserById(users, q.userId).None? then Some(Fail(StatusBadRequest, UserNotFound))
      else None
  }

  /** CreatePostHandler: a rejected request inserts nothing; an accepted one
      inserts exactly one row with the given fields, the next id and the
      current time, and answers 200 with that row. */
  method CreatePost(db: Db, req: Option<CreatePostRequest>) returns (r: Response)
    requires db.Valid()
    modifies db
    ensures db.Valid()
    ensures db.users == old(db.users) && db.comments == old(db.comments)
    ensures db.nextUserId == old(db.nextUserId) && db.nextCommentId == old(db.nextCommentId)
    ensures CheckCreate(old(db.users), req).Some? ==>
              && r == CheckCreate(old(db.users), req).value
              && db.posts == old(db.posts) && db.nextPostId == old(db.nextPostId) && db.clock == old(db.clock)
    ensures CheckCreate(old(db.users), req).None? ==>
              var q := req.value;
              var p := Post(old(db.nextPostId), q.title, q.body, q.topic, q.userId, old(db.clock), old(db.clock));
              && r == Response(StatusOK, PostJson(p))
              && db.posts == old(db.posts) + [p]
              && db.nextPostId == old(db.nextPostId) + 1 && db.clock == old(db.clock) + 1
  {
    var rejected := CheckCreate(db.users, req);
    if rejected.Some? {
      return rejected.value;
    }
    var q := req.value;
    var p := Post(db.nextPostId, q.title, q.body, q.topic, q.userId, db.clock, db.clock);
    db.posts := db.posts + [p];
    db.nextPostId := db.nextPostId + 1;
    db.clock := db.clock + 1;
    r := Response(StatusOK, PostJson(p));
  }

  // ---------------------------------------------------------------------------
  // Update and delete, guarded by `WHERE id = $x AND user_id = $y`

  predicate Owns(p: Post, id: int, uid: int) {
    p.id == id && p.userId == uid
  }

  /** The position of the row with this id and this owner, if there is one. */
  function FindOwned(ps: seq<Post>, id: int, uid: int): (k: Option<nat>)
    ensures k.Some? ==> k.value < |ps| && Owns(ps[k.value], id, uid)
    ensures k.None? ==> forall i :: 0 <= i < |ps| ==> !Owns(ps[i], id, uid)
  {
    if ps == [] then None
    else if Owns(ps[0], id, uid) then Some(0)
    else match FindOwned(ps[1..], id, uid)
      case None => None
      case Some(k) => Some(k + 1)
  }

  /** Ids are unique, so the guarded row is the only one the WHERE clause matches. */
  lemma {:induction false} OwnedRowIsUnique(ps: seq<Post>, k: nat)
    requires forall i, j :: 0 <= i < j < |ps| ==> ps[i].id < ps[j].id
    requires k < |ps|
    ensures FindOwned(ps, ps[k].id, ps[k].userId) == Some(k)
    ensures forall i :: 0 <= i < |ps| && Owns(ps[i], ps[k].id, ps[k].userId) ==> i == k
  {
    if k > 0 {
      OwnedRowIsUnique(ps[1..], k - 1);
    }
  }

  datatype UpdateArgs = UpdateArgs(id: int, fields: UpdatePostRequest, uid: int)

  /** The checks of UpdatePostHandler, in order: a base-10 int64 post id, a
      decodable body, a title, a body and a topic (every field is required,
      so an update replaces all three), then a `user_id` query that is
      present and parses. */
  function CheckUpdate(idParam: string, req: Option<UpdatePostRequest>, userIdParam: string): (r: Result<UpdateArgs, Response>)
    ensures r.Ok? <==>
              ParseInt(idParam).Some? && req.Some? &&
              req.value.title != "" && req.value.body != "" && req.value.topic != "" &&
              ParseInt(userIdParam).Some?
    ensures r.Ok? ==> r.value == UpdateArgs(ParseInt(idParam).value, req.value, ParseInt(userIdParam).value)
    ensures r.Err? ==> r.error.status == StatusBadRequest
    ensures ParseInt(idParam).None? ==> r == Err(Fail(StatusBadRequest, InvalidPostId))
    ensures ParseInt(idParam).Some? && req.None? ==> r == Err(Malformed)
    ensures ParseInt(idParam).Some? && req.Some? && req.value.title == "" ==>
              r == Err(Fail(StatusBadRequest, TitleRequired))
    ensures ParseInt(idParam).Some? && req.Some? && req.value.title != "" && req.value.body == "" ==>
              r == Err(Fail(StatusBadRequest, BodyRequired))
    ensures ParseInt(idParam).Some? && req.Some? && req.value.title != "" && req.value.body != "" &&
            req.value.topic == "" ==>
              r == Err(Fail(StatusBadRequest, TopicRequired))
    ensures ParseInt(idParam).Some? && req.Some? &&
            req.value.title != "" && req.value.body != "" && req.value.topic != "" && userIdParam == "" ==>
              r == Err(Fail(StatusBadRequest, UserIdRequiredForUpdate))
    ensures ParseInt(idParam).Some? && req.Some? &&
            req.value.title != "" && req.value.body != "" && req.value.topic != "" &&
            userIdParam != "" && ParseInt(userIdParam).None? ==>
              r == Err(Fail(StatusBadRequest, InvalidUserId))
  {
    match ParseInt(idParam)
    case None => Err(Fail(StatusBadRequest, InvalidPostId))
    case Some(id) =>
      match req
      case None => Err(Malformed)
      case Some(q) =>
        if q.title == "" then Err(Fail(StatusBadRequest, TitleRequired))
        else if q.body == "" then Err(Fail(StatusBadRequest, BodyRequired))
        else if q.topic == "" then Err(Fail(StatusBadRequest, TopicRequired))
        else if userIdParam == "" then
          Err(Fail(StatusBadRequest, UserIdRequiredForUpdate))
        else
          match ParseInt(userIdParam)
          case None => Err(Fail(StatusBadRequest, InvalidUserId))
          case Some(uid) => Ok(UpdateArgs(id, q, uid))
  }

  /** A request without the `user_id` query, whatever else it carries, is
      rejected with 400 before the table is touched. */
  lemma UpdateWithoutOwnerIsRejected(idParam: string, req: Option<UpdatePostRequest>)
    ensures CheckUpdate(idParam, req, "").Err?
    ensures CheckUpdate(idParam, req, "").error.status == StatusBadRequest
  {
  }

  /** The row after UPDATE ... SET title, body, topic, updated_at = now. */
  function Updated(p: Post, q: UpdatePostRequest, now: nat): (u: Post)
    ensures u.id == p.id && u.userId == p.userId && u.createdAt == p.createdAt
    ensures u.title == q.title && u.body == q.body && u.topic == q.topic && u.updatedAt == now
  {
    p.(title := q.title, body := q.body, topic := q.topic, updatedAt := now)
  }

  /** UpdatePostHandler: after its checks, changes only the row with that id
      and owner (replacing title, body and topic and refreshing updated_at)
      and answers 200 with it; 404 and no change when no row matches. */
  method UpdatePost(db: Db, idParam: string, req: Option<UpdatePostRequest>, userIdParam: string) returns (r: Response)
    requires db.Valid()
    modifies db
    ensures db.Valid()
    ensures db.users == old(db.users) && db.comments == old(db.comments)
    ensures db.nextUserId == old(db.nextUserId) && db.nextPostId == old(db.nextPostId)
    ensures db.nextCommentId == old(db.nextCommentId)
    ensures CheckUpdate(idParam, req, userIdParam).Err? ==>
              r == CheckUpdate(idParam, req, userIdParam).error && db.posts == old(db.posts) && db.clock == old(db.clock)
    ensures CheckUpdate(idParam, req, userIdParam).Ok? ==>
              var a := CheckUpdate(idParam, req, userIdParam).value;
              match FindOwned(old(db.posts), a.id, a.uid)
              case None =>
                && r == Fail(StatusNotFound, NoPostToUpdate)
                && db.posts == old(db.posts) && db.clock == old(db.clock)
              case Some(k) =>
                var p := Updated(old(db.posts)[k], a.fields, old(db.clock));
                && r == Response(StatusOK, PostJson(p))
                && db.posts == old(db.posts)[k := p]
                && db.clock == old(db.clock) + 1
  {
    var check := CheckUpdate(idParam, req, userIdParam);
    if check.Err? {
      return check.error;
    }
    var a := check.value;
    var found := FindOwned(db.posts, a.id, a.uid);
    if found.None? {
      return Fail(StatusNotFound, NoPostToUpdate);
    }
    var k := found.value;
    var p := Updated(db.posts[k], a.fields, db.clock);
    db.posts := db.posts[k := p];
    db.clock := db.clock + 1;
    r := Response(StatusOK, PostJson(p));
  }

  /** The table after `DELETE FROM posts WHERE id = $1 AND user_id = $2`. */
  function WithoutOwned(ps: seq<Post>, id: int, uid: int): (r: seq<Post>)
    ensures |r| <= |ps|
    ensures forall p :: p in r <==> p in ps && !Owns(p, id, uid)
  {
    if ps == [] then []
    else if Owns(ps[0], id, uid) then WithoutOwned(ps[1..], id, uid)
    else [ps[0]] + WithoutOwned(ps[1..], id, uid)
  }

  /** When no row matches, the delete leaves the table as it was. */
  lemma {:induction false} DeleteWithoutMatch(ps: seq<Post>, id: int, uid: int)
    requires FindOwned(ps, id, uid).None?
    ensures WithoutOwned(ps, id, uid) == ps
  {
    if ps != [] {
      DeleteWithoutMatch(ps[1..], id, uid);
      assert ps == [ps[0]] + ps[1..];
    }
  }

  /** With unique ids, the delete removes exactly the one matching row and
      keeps the others in their order. */
  lemma {:induction false} DeleteRemovesOneRow(ps: seq<Post>, id: int, uid: int)
    requires forall i, j :: 0 <= i < j < |ps| ==> ps[i].id < ps[j].id
    requires FindOwned(ps, id, uid).Some?
    ensures WithoutOwned(ps, id, uid) == ps[..FindOwned(ps, id, uid).value] + ps[FindOwned(ps, id, uid).value + 1..]
  {
    var k := FindOwned(ps, id, uid).value;
    if k == 0 {
      forall i | 0 <= i < |ps[1..]|
        ensures !Owns(ps[1..][i], id, uid)
      {
        assert ps[1..][i] == ps[i + 1];
      }
      DeleteWithoutMatch(ps[1..], id, uid);
    } else {
      DeleteRemovesOneRow(ps[1..], id, uid);
      assert ps[1..][..k - 1] == ps[1..k];
      assert ps[1..][k..] == ps[k + 1..];
      assert ps[..k] == [ps[0]] + ps[1..k];
    }
  }

  /** Removing one row keeps the table invariant. */
  lemma RemoveRowKeepsValid(ps: seq<Post>, k: nat, nextId: int, clock: nat)
    requires PostsValid(ps, nextId, clock) && k < |ps|
    ensures PostsValid(ps[..k] + ps[k + 1..], nextId, clock)
  {
    var r := ps[..k] + ps[k + 1..];
    assert forall i :: 0 <= i < |r| ==> r[i] == (if i < k then ps[i] else ps[i + 1]);
  }

  /** What the delete does to a valid table, in one statement: with no match
      nothing, otherwise exactly one row fewer, and the table stays valid. */
  lemma DeleteEffect(ps: seq<Post>, id: int, uid: int, nextId: int, clock: nat)
    requires PostsValid(ps, nextId, clock)
    ensures PostsValid(WithoutOwned(ps, id, uid), nextId, clock)
    ensures FindOwned(ps, id, uid).None? ==> WithoutOwned(ps, id, uid) == ps
    ensures FindOwned(ps, id, uid).Some? ==>
              var k := FindOwned(ps, id, uid).value;
              WithoutOwned(ps, id, uid) == ps[..k] + ps[k + 1..] && |WithoutOwned(ps, id, uid)| == |ps| - 1
  {
    match FindOwned(ps, id, uid)
    case None =>
      DeleteWithoutMatch(ps, id, uid);
    case Some(k) =>
      DeleteRemovesOneRow(ps, id, uid);
      RemoveRowKeepsValid(ps, k, nextId, clock);
  }

  datatype DeleteArgs = DeleteArgs(id: int, uid: int)

  /** The checks of DeletePostHandler, in order: a base-10 int64 post id, then
      a `user_id` query that is present and parses. */
  function CheckDelete(idParam: string, userIdParam: string): (r: Result<DeleteArgs, Response>)
    ensures r.Ok? <==> ParseInt(idParam).Some? && ParseInt(userIdParam).Some?
    ensures r.Ok? ==> r.value == DeleteArgs(ParseInt(idParam).value, ParseInt(userIdParam).value)
    ensures r.Err? ==> r.error.status == StatusBadRequest
    ensures ParseInt(idParam).None? ==> r == Err(Fail(StatusBadRequest, InvalidPostId))
    ensures ParseInt(idParam).Some? && userIdParam == "" ==>
              r == Err(Fail(StatusBadRequest, UserIdRequiredForDelete))
    ensures ParseInt(idParam).Some? && userIdParam != "" && ParseInt(userIdParam).None? ==>
              r == Err(Fail(StatusBadRequest, InvalidUserId))
  {
    match ParseInt(idParam)
    case None => Err(Fail(StatusBadRequest, InvalidPostId))
    case Some(id) =>
      if userIdParam == "" then
        Err(Fail(StatusBadRequest, UserIdRequiredForDelete))
      else
        match ParseInt(userIdParam)
        case None => Err(Fail(StatusBadRequest, InvalidUserId))
        case Some(uid) => Ok(DeleteArgs(id, uid))
  }

  /** DeletePostHandler: after its checks, removes the row with that id and
      owner and answers 204; 404 and no change when no row matches. */
  method DeletePost(db: Db, idParam: string, userIdParam: string) returns (r: Response)
    requires db.Valid()
    modifies db
    ensures db.Valid()
    ensures db.users == old(db.users) && db.comments == old(db.comments) && db.clock == old(db.clock)
    ensures db.nextUserId == old(db.nextUserId) && db.nextPostId == old(db.nextPostId)
    ensures db.nextCommentId == old(db.nextCommentId)
    ensures CheckDelete(idParam, userIdParam).Err? ==>
              r == CheckDelete(idParam, userIdParam).error && db.posts == old(db.posts)
    ensures CheckDelete(idParam, userIdParam).Ok? ==>
              var a := CheckDelete(idParam, userIdParam).value;
              match FindOwned(old(db.posts), a.id, a.uid)
              case None =>
                r == Fail(StatusNotFound, NoPostToDelete) &&
                db.posts == old(db.posts)
              case Some(k) =>
                r == Response(StatusNoContent, NoBody) && db.posts == old(db.posts)[..k] + old(db.posts)[k + 1..]
  {
    var check := CheckDelete(idParam, userIdParam);
    if check.Err? {
      return check.error;
    }
    var a := check.value;
    var remaining := WithoutOwned(db.posts, a.id, a.uid);
    var rowsAffected := |db.posts| - |remaining|;
    DeleteEffect(db.posts, a.id, a.uid, db.nextPostId, db.clock);
    db.posts := remaining;
    if rowsAffected == 0 {
      return Fail(StatusNotFound, NoPostToDelete);
    }
    r := Response(StatusNoContent, NoBody);
  }
}
