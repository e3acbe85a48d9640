/** LoginHandler and RegisterHandler: username lookup and insertion on the users table. */
module UserHandlers {
  import opened Wrappers
  import opened Models
  import opened Tables

  /** LoginHandler, a read-only lookup: 400 for a malformed body or an empty
      username, 401 for a name with no row, otherwise 200 and the stored row. */
  function Login(users: seq<User>, req: Option<UserRequest>): (r: Response)
    ensures req.None? ==> r == Malformed
    ensures req.Some? && req.value.username == "" ==> r == Fail(StatusBadRequest, UsernameRequired)
    ensures req.Some? && req.value.username != "" ==>
              (r.status == StatusOK <==> UserByName(users, req.value.username).Some?)
    ensures req.Some? && req.value.username != "" && UserByName(users, req.value.username).None? ==>
              r == Fail(StatusUnauthorized, UserNotFound)
    ensures r.status == StatusOK ==>
              r.payload.UserJson? && r.payload.user in users && r.payload.user.username == req.value.username
  {
    match req
    case None => Malformed
    case Some(q) =>
      if q.username == "" then Fail(StatusBadRequest, UsernameRequired)
      else
        match UserByName(users, q.username)
        case None => Fail(StatusUnauthorized, UserNotFound)
        case Some(u) => Response(StatusOK, UserJson(u))
  }

  /** Logging in with the name of a stored user returns exactly that user's row. */
  lemma LoginReturnsStoredRow(users: seq<User>, k: nat)
    requires UniqueUsernames(users) && k < |users| && users[k].username != ""
    ensures Login(users, Some(UserRequest(users[k].username))) == Response(StatusOK, UserJson(users[k]))
  {
    UserByNameFindsRow(users, k);
  }

  /** A name absent from the table is found, after it is appended, as the appended row. */
  lemma {:induction false} UserByNameAfterAppend(users: seq<User>, u: User)
    requires UserByName(users, u.username).None?
    ensures UserByName(users + [u], u.username) == Some(u)
  {
    if users != [] {
      assert (users + [u])[1..] == users[1..] + [u];
      UserByNameAfterAppend(users[1..], u);
    }
  }

  /** Registering a fresh name keeps usernames unique. */
  lemma UniqueAfterAppend(users: seq<User>, u: User)
    requires UniqueUsernames(users) && UserByName(users, u.username).None?
    ensures UniqueUsernames(users + [u])
  {
    var us := users + [u];
    forall i, j | 0 <= i < j < |us|
      ensures us[i].username != us[j].username
    {
      if j == |users| {
        assert us[i] == users[i];
      } else {
        assert us[i] == users[i] && us[j] == users[j];
      }
    }
  }

  /** After registering a new name, logging in with it returns the row just inserted. */
  lemma LoginAfterRegister(users: seq<User>, u: User)
    requires UserByName(users, u.username).None? && u.username != ""
    ensures Login(users + [u], Some(UserRequest(u.username))) == Response(StatusOK, UserJson(u))
  {
    UserByNameAfterAppend(users, u);
  }

  /** RegisterHandler: 400 for a malformed body or an empty username, 409 for a
      name already taken, otherwise one new row with a fresh id, returned with 200. */
  method Register(db: Db, req: Option<UserRequest>) returns (r: Response)
    requires db.Valid()
    modifies db
    ensures db.Valid()
    ensures db.posts == old(db.posts) && db.comments == old(db.comments)
    ensures db.nextPostId == old(db.nextPostId) && db.nextCommentId == old(db.nextCommentId)
    ensures req.None? ==> r == Malformed
    ensures req.Some? && req.value.username == "" ==> r == Fail(StatusBadRequest, UsernameRequired)
    ensures req.Some? && req.value.username != "" && UserByName(old(db.users), req.value.username).Some? ==>
              r == Fail(StatusConflict, UserAlreadyExists)
    ensures r.status == StatusOK <==>
              req.Some? && req.value.username != "" && UserByName(old(db.users), req.value.username).None?
    ensures r.status != StatusOK ==>
              db.users == old(db.users) && db.nextUserId == old(db.nextUserId) && db.clock == old(db.clock)
    ensures r.status == StatusOK ==>
              var u := User(old(db.nextUserId), req.value.username, old(db.clock));
              && r == Response(StatusOK, UserJson(u))
              && db.users == old(db.users) + [u]
              && db.nextUserId == old(db.nextUserId) + 1 && db.clock == old(db.clock) + 1
              && Login(db.users, req) == r
  {
    if req.None? {
      return Malformed;
    }
    var name := req.value.username;
    if name == "" {
      return Fail(StatusBadRequest, UsernameRequired);
    }
    if UserByName(db.users, name).Some? {
      return Fail(StatusConflict, UserAlreadyExists);
    }
    var u := User(db.nextUserId, name, db.clock);
    UniqueAfterAppend(db.users, u);
    LoginAfterRegister(db.users, u);
    db.users := db.users + [u];
    db.nextUserId := db.nextUserId + 1;
    db.clock := db.clock + 1;
    r := Response(StatusOK, UserJson(u));
  }
}
