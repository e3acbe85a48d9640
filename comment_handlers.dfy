/** The comment handlers: a post's newest comments, and comment creation. */
module CommentHandlers {
  import opened Wrappers
  import opened Models
  import opened Tables
  import opened StrConv

  /** `LIMIT 10` on the comment query. */
  const CommentLimit: nat := 10

  /** The topic stored for a comment that names none. */
  const DefaultTopic: string := "general"

  /** A comment of post pid joined with its author; other comments, and
      comments whose author has no row, drop out of the query. */
  function CommentEntry(c: Comment, users: seq<User>, pid: int): (e: Option<CommentView>)
    ensures e.Some? <==> c.postId == pid && UserById(users, c.userId).Some?
    ensures e.Some? ==> e.value.id == c.id && e.value.body == c.body && e.value.topic == c.topic
    ensures e.Some? ==> e.value.username == UserById(users, c.userId).value.username
  {
    if c.postId != pid then None
    else
      match UserById(users, c.userId)
      case None => None
      case Some(u) => Some(CommentView(c.id, c.body, c.topic, u.username))
  }

  /** Every comment of post pid that joins with its author, latest row first.
      The table is in created_at order (Tables.CommentsValid), so this is
      created_at DESC. */
  function Thread(cs: seq<Comment>, users: seq<User>, pid: int): (t: seq<CommentView>)
    ensures |t| <= |cs|
  {
    if cs == [] then [] else Thread(cs[1..], users, pid) + CommentEntry(cs[0], users, pid).ToSeq()
  }

  lemma {:induction false} ThreadSuffixIsPrefix(cs: seq<Comment>, users: seq<User>, pid: int, i: nat)
    requires i <= |cs|
    ensures Thread(cs[i..], users, pid) <= Thread(cs, users, pid)
  {
    if i > 0 {
      assert cs[1..][i - 1..] == cs[i..];
      ThreadSuffixIsPrefix(cs[1..], users, pid, i - 1);
    }
  }

  /** The thread holds exactly the joined entries of that post's comments. */
  lemma {:induction false} ThreadMembers(cs: seq<Comment>, users: seq<User>, pid: int)
    ensures forall c :: c in cs && CommentEntry(c, users, pid).Some? ==>
              CommentEntry(c, users, pid).value in Thread(cs, users, pid)
    ensures forall e :: e in Thread(cs, users, pid) ==>
              exists c :: c in cs && c.postId == pid && CommentEntry(c, users, pid) == Some(e)
  {
    if cs != [] {
      ThreadMembers(cs[1..], users, pid);
      forall c | c in cs && CommentEntry(c, users, pid).Some?
        ensures CommentEntry(c, users, pid).value in Thread(cs, users, pid)
      {
        if c != cs[0] {
          assert c in cs[1..];
        }
      }
      forall e | e in Thread(cs, users, pid)
        ensures exists c :: c in cs && c.postId == pid && CommentEntry(c, users, pid) == Some(e)
      {
        if e in Thread(cs[1..], users, pid) {
          var c :| c in cs[1..] && c.postId == pid && CommentEntry(c, users, pid) == Some(e);
          assert c in cs;
        } else {
          assert CommentEntry(cs[0], users, pid) == Some(e);
        }
      }
    }
  }

  /** Newest first: with ids increasing along the table, thread ids strictly decrease. */
  lemma {:induction false} ThreadNewestFirst(cs: seq<Comment>, users: seq<User>, pid: int)
    requires forall i, j :: 0 <= i < j < |cs| ==> cs[i].id < cs[j].id
    ensures forall i, j :: 0 <= i < j < |Thread(cs, users, pid)| ==>
              Thread(cs, users, pid)[i].id > Thread(cs, users, pid)[j].id
  {
    if cs != [] {
      var rest := Thread(cs[1..], users, pid);
      ThreadNewestFirst(cs[1..], users, pid);
      ThreadMembers(cs[1..], users, pid);
      forall e | e in rest
        ensures e.id > cs[0].id
      {
        var c :| c in cs[1..] && c.postId == pid && CommentEntry(c, users, pid) == Some(e);
        var k :| 0 <= k < |cs[1..]| && cs[1..][k] == c;
        assert cs[k + 1] == c;
      }
      var t := Thread(cs, users, pid);
      forall i, j | 0 <= i < j < |t|
        ensures t[i].id > t[j].id
      {
        if j >= |rest| {
          assert t[j] == CommentEntry(cs[0], users, pid).value;
          assert t[i] in rest;
        } else {
          assert t[i] == rest[i] && t[j] == rest[j];
        }
      }
    }
  }

  /** A post without comments has an empty thread. */
  lemma {:induction false} ThreadOfUncommentedPost(cs: seq<Comment>, users: seq<User>, pid: int)
    requires forall i :: 0 <= i < |cs| ==> cs[i].postId != pid
    ensures Thread(cs, users, pid) == []
  {
    if cs != [] {
      assert forall i :: 0 <= i < |cs[1..]| ==> cs[1..][i] == cs[i + 1];
      ThreadOfUncommentedPost(cs[1..], users, pid);
    }
  }

  /** GetComments: 400 for a post id that is not a base-10 int64; otherwise 200
      with that post's ten newest comments. The result slice starts out empty
      rather than nil, so no comments encode as `[]`, never `null`. */
  method GetComments(db: Db, postIdParam: string) returns (r: Response)
    ensures ParseInt(postIdParam).None? ==> r == Fail(StatusBadRequest, InvalidPostId)
    ensures ParseInt(postIdParam).Some? ==>
              r == Response(StatusOK, CommentsJson(Array(Take(Thread(db.comments, db.users, ParseInt(postIdParam).value), CommentLimit))))
  {
    var parsed := ParseInt(postIdParam);
    if parsed.None? {
      return Fail(StatusBadRequest, InvalidPostId);
    }
    var pid := parsed.value;
    var comments: seq<CommentView> := [];
    var i := |db.comments|;
    while i > 0 && |comments| < CommentLimit
      invariant 0 <= i <= |db.comments|
      invariant comments == Thread(db.comments[i..], db.users, pid)
      invariant |comments| <= CommentLimit
    {
      i := i - 1;
      assert db.comments[i..][1..] == db.comments[i + 1..];
      comments := comments + CommentEntry(db.comments[i], db.users, pid).ToSeq();
    }
    ThreadSuffixIsPrefix(db.comments, db.users, pid, i);
    assert db.comments[0..] == db.comments;
    var all := Thread(db.comments, db.users, pid);
    if i > 0 {
      assert comments == all[..CommentLimit];
      assert Take(all, CommentLimit) == comments;
    } else {
      assert Take(all, CommentLimit) == comments;
    }
    r := Response(StatusOK, CommentsJson(Array(comments)));
  }

  /** The topic a new comment is stored with. */
  function StoredTopic(topic: string): (t: string)
    ensures t != ""
    ensures topic == "" ==> t == DefaultTopic && t == "general"
    ensures topic != "" ==> t == topic
  {
    if topic == "" then DefaultTopic else topic
  }

  datatype CommentArgs = CommentArgs(postId: int, author: User, request: CreateCommentRequest)

  /** The checks of CreateCommentHandler, in order: a base-10 int64 post id, a
      decodable body, a non-empty body and username, an existing username. The
      post id is not looked up. */
  function CheckCreateComment(users: seq<User>, postIdParam: string, req: Option<CreateCommentRequest>): (r: Result<CommentArgs, Response>)
    ensures r.Ok? <==>
              ParseInt(postIdParam).Some? && req.Some? && req.value.body != "" && req.value.username != "" &&
              UserByName(users, req.value.username).Some?
    ensures r.Ok? ==> r.value == CommentArgs(ParseInt(postIdParam).value, UserByName(users, req.value.username).value, req.value)
    ensures r.Err? ==> r.error.status == StatusBadRequest
    ensures ParseInt(postIdParam).None? ==> r == Err(Fail(StatusBadRequest, InvalidPostId))
    ensures ParseInt(postIdParam).Some? && req.None? ==> r == Err(Malformed)
    ensures (ParseInt(postIdParam).Some? && req.Some? && (req.value.body == "" || req.value.username == "")) ==>
              r == Err(Fail(StatusBadRequest, UsernameAndBodyRequired))
    ensures (ParseInt(postIdParam).Some? && req.Some? && req.value.body != "" && req.value.username != "" &&
             UserByName(users, req.value.username).None?) ==>
              r == Err(Fail(StatusBadRequest, UserNotFound))
  {
    match ParseInt(postIdParam)
    case None => Err(Fail(StatusBadRequest, InvalidPostId))
    case Some(pid) =>
      match req
      case None => Err(Malformed)
      case Some(q) =>
        if q.body == "" || q.username == "" then Err(Fail(StatusBadRequest, UsernameAndBodyRequired))
        else
          match UserByName(users, q.username)
          case None => Err(Fail(StatusBadRequest, UserNotFound))
          case Some(u) => Ok(CommentArgs(pid, u, q))
  }

  /** CreateCommentHandler: a rejected request inserts nothing; an accepted one
      inserts exactly one comment carrying the author's id, the path's post id
      and the stored topic, and answers 201 with no body. */
  method CreateComment(db: Db, postIdParam: string, req: Option<CreateCommentRequest>) returns (r: Response)
    requires db.Valid()
    modifies db
    ensures db.Valid()
    ensures db.users == old(db.users) && db.posts == old(db.posts)
    ensures db.nextUserId == old(db.nextUserId) && db.nextPostId == old(db.nextPostId)
    ensures CheckCreateComment(old(db.users), postIdParam, req).Err? ==>
              && r == CheckCreateComment(old(db.users), postIdParam, req).error
              && db.comments == old(db.comments) && db.nextCommentId == old(db.nextCommentId)
              && db.clock == old(db.clock)
    ensures CheckCreateComment(old(db.users), postIdParam, req).Ok? ==>
              var a := CheckCreateComment(old(db.users), postIdParam, req).value;
              var c := Comment(old(db.nextCommentId), a.request.body, StoredTopic(a.request.topic), a.author.id,
                               a.postId, old(db.clock));
              && r == Response(StatusCreated, NoBody)
              && db.comments == old(db.comments) + [c]
              && db.nextCommentId == old(db.nextCommentId) + 1 && db.clock == old(db.clock) + 1
  {
    var check := CheckCreateComment(db.users, postIdParam, req);
    if check.Err? {
      return check.error;
    }
    var a := check.value;
    var topic := a.request.topic;
    if topic == "" {
      topic := DefaultTopic;
    }
    var c := Comment(db.nextCommentId, a.request.body, topic, a.author.id, a.postId, db.clock);
    db.comments := db.comments + [c];
    db.nextCommentId := db.nextCommentId + 1;
    db.clock := db.clock + 1;
    r := Response(StatusCreated, NoBody);
  }
}
