/** How the client's requests meet the server's checks: which requests the
    forms and the store can produce, and what the handlers make of them. */
module RestContract {
  import opened Wrappers
  import opened Models
  import opened Tables
  import opened StrConv
  import opened Text
  import opened Api
  import opened UserHandlers
  import opened PostHandlers
  import PostsForm
  import RegisterForm

  /** `getPosts` puts the id in the query as decimal text; for a stored user the
      server parses it back to the same id and accepts it as an owner. */
  lemma PostsQueryIsAccepted(users: seq<User>, nextId: int, clock: nat, k: nat)
    requires UsersValid(users, nextId, clock) && k < |users| && IsInt64(users[k].id)
    ensures CheckOwner(users, FormatInt(users[k].id)) == Ok(users[k].id)
  {
    ParseFormatRoundTrip(users[k].id);
    UserByIdFindsRow(users, k);
  }

  /** A form that passes its client-side checks, sent by a stored user, passes
      every check of the create handler. */
  lemma SubmittedPostIsAccepted(users: seq<User>, nextId: int, clock: nat, k: nat,
                                title: string, body: string, topic: string, customTopic: string)
    requires UsersValid(users, nextId, clock) && k < |users|
    requires PostsForm.Submission(title, body, topic, customTopic).Some?
    ensures var f := PostsForm.Submission(title, body, topic, customTopic).value;
            CheckCreate(users, Some(CreatePostRequest(f.title, f.body, f.topic, users[k].id))).None?
  {
    PostsForm.SubmissionFieldsAreNonEmpty(title, body, topic, customTopic);
    UserByIdFindsRow(users, k);
  }

  /** The login form sends only names that pass the server's emptiness check:
      the server answers 200 if the trimmed name is stored and 401 otherwise. */
  lemma LoginRequestIsNeverEmpty(users: seq<User>, name: string)
    requires !IsBlank(name)
    ensures Login(users, Some(UserRequest(Trim(name)))).status != StatusBadRequest
    ensures Login(users, Some(UserRequest(Trim(name)))).status == StatusOK <==> UserByName(users, Trim(name)).Some?
    ensures Login(users, Some(UserRequest(Trim(name)))).status != StatusOK ==>
              Login(users, Some(UserRequest(Trim(name)))) == Fail(StatusUnauthorized, UserNotFound)
  {
    TrimOfNotBlank(name);
  }

  // ---------------------------------------------------------------------------
  // A user without posts is sent `null`

  /** As written: when a user owns no post, the server's list is `null`, which
      the client stores as its post list instead of a list. */
  lemma {:induction false} PostlessOwnerGetsNull(ps: seq<Post>, uid: int)
    requires forall i :: 0 <= i < |ps| ==> ps[i].userId != uid
    ensures EncodeAppended(OwnPosts(ps, uid)) == Null
    ensures ReceivedAsWritten(EncodeAppended(OwnPosts(ps, uid))).None?
  {
    if ps != [] {
      assert forall i :: 0 <= i < |ps[1..]| ==> ps[1..][i] == ps[i + 1];
      PostlessOwnerGetsNull(ps[1..], uid);
    }
  }

  /** The concrete case: a user who has just registered asks for their posts. */
  lemma NewUserGetsNull()
    ensures var users := [User(1, "alice", 0)];
            && CheckOwner(users, FormatInt(1)) == Ok(1)
            && EncodeAppended(OwnPosts([], 1)) == Null
  {
    PostsQueryIsAccepted([User(1, "alice", 0)], 2, 1, 0);
  }

  /** Corrected: reading `null` as the empty list, the store receives exactly
      the owner's posts, newest first, the empty list included. */
  lemma OwnPostsAreReceived(ps: seq<Post>, uid: int)
    ensures Received(EncodeAppended(OwnPosts(ps, uid))) == OwnPosts(ps, uid)
  {
    ReceivedEncodeRoundTrip(OwnPosts(ps, uid));
  }

  // ---------------------------------------------------------------------------
  // Updates from the client carry no owner

  /** As written: the client's update request has no `user_id` query, so the
      server rejects every update it sends with 400, before any row is read. */
  lemma ClientUpdateIsRejected(call: UpdateCall)
    ensures CheckUpdate(FormatInt(call.id), Some(call.fields), "").Err?
    ensures CheckUpdate(FormatInt(call.id), Some(call.fields), "").error.status == StatusBadRequest
  {
    UpdateWithoutOwnerIsRejected(FormatInt(call.id), Some(call.fields));
  }

  /** The `user_id` query an update carries when it names its owner. */
  function OwnerQuery(uid: int): (q: string)
    requires IsInt64(uid)
    ensures ParseInt(q) == Some(uid)
  {
    ParseFormatRoundTrip(uid);
    FormatInt(uid)
  }

  /** Corrected: with the owner's id in the query, an update with all three
      fields passes every check and reaches the ownership-guarded UPDATE. */
  lemma OwnedUpdateIsAccepted(call: UpdateCall, uid: int)
    requires IsInt64(call.id) && IsInt64(uid)
    requires call.fields.title != "" && call.fields.body != "" && call.fields.topic != ""
    ensures CheckUpdate(FormatInt(call.id), Some(call.fields), OwnerQuery(uid)) == Ok(UpdateArgs(call.id, call.fields, uid))
  {
    ParseFormatRoundTrip(call.id);
  }

  // ---------------------------------------------------------------------------
  // The registration conflict loses its status

  /** How a fetch wrapper settles on a response, as written: a non-2xx status
      is thrown as a plain Error, without the status. */
  function SettleAsWritten<T>(r: Response, decoded: T): (o: Outcome<T>)
    ensures o.Success? <==> 200 <= r.status <= 299
    ensures o.Failure? ==> o.status.None?
  {
    if 200 <= r.status <= 299 then Success(decoded) else Failure(None)
  }

  /** As written, every failure the wrapper settles on is one thrown without
      a status. */
  lemma WrapperFailuresHaveNoStatus<T>(r: Response, decoded: T)
    requires !(200 <= r.status <= 299)
    ensures ThrownByFetchWrapper(SettleAsWritten(r, decoded))
  {
  }

  /** Corrected: the thrown error carries the response's status. */
  function Settle<T>(r: Response, decoded: T): (o: Outcome<T>)
    ensures o.Success? <==> 200 <= r.status <= 299
    ensures o.Failure? ==> o.status == Some(r.status)
  {
    if 200 <= r.status <= 299 then Success(decoded) else Failure(Some(r.status))
  }

  /** As written: the 409 the server answers for a taken name reaches the
      registration form without a status, so it raises no alert at all. */
  lemma TakenNameIsSilent(decoded: User)
    ensures FailureAlertOf(SettleAsWritten(Fail(StatusConflict, UserAlreadyExists), decoded)).None?
  {
  }

  /** Corrected: with the status kept, a taken name raises the "already
      exists" alert, and an unrecognised status still raises none. */
  lemma TakenNameIsReported(decoded: User, r: Response)
    ensures FailureAlertOf(Settle(Fail(StatusConflict, UserAlreadyExists), decoded)) == Some(RegisterForm.UsernameTaken)
    ensures !(200 <= r.status <= 299) && r.status != 409 && r.status != 500 ==>
              FailureAlertOf(Settle(r, decoded)).None?
  {
  }

  /** The alert the registration form raises for an outcome, if it failed. */
  function FailureAlertOf(o: Outcome<User>): (a: Option<RegisterForm.Alert>)
    ensures o.Success? ==> a.None?
    ensures o.Failure? ==> a == RegisterForm.FailureAlert(o.status)
  {
    if o.Success? then None else RegisterForm.FailureAlert(o.status)
  }
}
