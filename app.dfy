/** The client's session store: the logged-in user, that user's posts and a
    loading flag, together with the handlers the forms call. The effect that
    runs when `currentUser` changes is folded into the handler that changes it. */
module App {
  import opened Wrappers
  import opened Models
  import opened Text
  import opened Api
  import Dashboard
  import PostsForm
  import LoginForm

  /** `prev.map(post => post.id === id ? updated : post)`: every entry whose id
      matches becomes `u`, every other entry stays where it is. */
  function ReplaceById(ps: seq<Post>, id: int, u: Post): (r: seq<Post>)
    ensures |r| == |ps|
    ensures forall i :: 0 <= i < |ps| && ps[i].id == id ==> r[i] == u
    ensures forall i :: 0 <= i < |ps| && ps[i].id != id ==> r[i] == ps[i]
  {
    if ps == [] then []
    else [if ps[0].id == id then u else ps[0]] + ReplaceById(ps[1..], id, u)
  }

  /** When no entry has the id, the list is unchanged: nothing is appended. */
  lemma ReplaceAbsentIdChangesNothing(ps: seq<Post>, id: int, u: Post)
    requires forall i :: 0 <= i < |ps| ==> ps[i].id != id
    ensures ReplaceById(ps, id, u) == ps
  {
    var r := ReplaceById(ps, id, u);
    assert forall i :: 0 <= i < |ps| ==> r[i] == ps[i];
  }

  /** Replacing twice with the same post is replacing once. */
  lemma ReplaceIdempotent(ps: seq<Post>, id: int, u: Post)
    ensures ReplaceById(ReplaceById(ps, id, u), id, u) == ReplaceById(ps, id, u)
  {
    var r := ReplaceById(ps, id, u);
    var rr := ReplaceById(r, id, u);
    forall i | 0 <= i < |ps|
      ensures rr[i] == r[i]
    {
      if ps[i].id == id {
        assert r[i] == u;
      } else {
        assert r[i] == ps[i];
      }
    }
  }

  /** The updated post is in the list exactly when some entry had its id, or it
      was there already. */
  lemma ReplaceMembers(ps: seq<Post>, id: int, u: Post)
    ensures u in ReplaceById(ps, id, u) <==> u in ps || exists i :: 0 <= i < |ps| && ps[i].id == id
  {
    var r := ReplaceById(ps, id, u);
    if u in r {
      var k :| 0 <= k < |r| && r[k] == u;
      if ps[k].id != id {
        assert ps[k] == u;
      }
    }
    if exists i :: 0 <= i < |ps| && ps[i].id == id {
      var k :| 0 <= k < |ps| && ps[k].id == id;
      assert r[k] == u;
    }
    if u in ps {
      var k :| 0 <= k < |ps| && ps[k] == u;
      assert r[k] == u;
    }
  }

  /** With distinct ids, a replacement that keeps the id keeps the ids distinct
      and in the same positions. */
  lemma ReplaceKeepsIds(ps: seq<Post>, id: int, u: Post)
    requires u.id == id
    ensures forall i :: 0 <= i < |ps| ==> ReplaceById(ps, id, u)[i].id == ps[i].id
  {
  }

  /** The alerts the store's handlers raise when a call fails. */
  datatype Alert = LoadFailed | CreateFailed | UpdateFailed {
    function Message(): string {
      match this
      case LoadFailed => "Failed to load posts"
      case CreateFailed => "Failed to create post"
      case UpdateFailed => "Failed to update post"
    }
  }

  class AppState {
    var currentUser: Option<User>
    var userPosts: seq<Post>
    var loading: bool

    /** Logged out, the post list is empty. */
    ghost predicate Valid()
      reads this
    {
      currentUser.None? ==> userPosts == []
    }

    constructor ()
      ensures Valid()
      ensures currentUser.None? && userPosts == [] && !loading
    {
      currentUser := None;
      userPosts := [];
      loading := false;
    }

    /** loadPosts, given how `getPosts` settles. Logged out, it does nothing.
        Logged in, it asks for the user's posts; success replaces the list
        wholesale, failure keeps it and raises an alert; `loading` ends false
        either way. `request` is the user id sent. */
    method LoadPosts(fetched: Outcome<Json<Post>>) returns (request: Option<int>, alert: Option<Alert>)
      requires Valid()
      modifies this
      ensures Valid()
      ensures currentUser == old(currentUser)
      ensures old(currentUser).None? ==>
                request.None? && userPosts == old(userPosts) && loading == old(loading)
      ensures old(currentUser).Some? ==> request == Some(old(currentUser).value.id) && !loading
      ensures old(currentUser).Some? && fetched.Success? ==> userPosts == Received(fetched.value)
      ensures fetched.Failure? ==> userPosts == old(userPosts)
      ensures alert.Some? <==> old(currentUser).Some? && fetched.Failure?
      ensures alert.Some? ==> alert.value == LoadFailed
    {
      alert := None;
      if currentUser.None? {
        return None, None;
      }
      loading := true;
      request := Some(currentUser.value.id);
      if fetched.Success? {
        userPosts := Received(fetched.value);
      } else {
        alert := Some(LoadFailed);
      }
      loading := false;
    }

    /** handleLogin followed by the effect it triggers: the user is set and that
        user's posts are loaded. A user from the server is a fresh object, so
        the effect runs on every login. */
    method HandleLogin(user: User, fetched: Outcome<Json<Post>>) returns (request: int, alert: Option<Alert>)
      requires Valid()
      modifies this
      ensures Valid()
      ensures currentUser == Some(user) && request == user.id && !loading
      ensures fetched.Success? ==> userPosts == Received(fetched.value) && alert.None?
      ensures fetched.Failure? ==> userPosts == old(userPosts) && alert == Some(LoadFailed)
    {
      currentUser := Some(user);
      var sent;
      sent, alert := LoadPosts(fetched);
      request := sent.value;
    }

    /** handleLogout followed by the effect it triggers: no user, no posts. */
    method HandleLogout()
      requires Valid()
      modifies this
      ensures Valid()
      ensures currentUser.None? && userPosts == [] && loading == old(loading)
    {
      currentUser := None;
      userPosts := [];
    }

    /** handleAddPost, given how `createPost` settles. Logged out, nothing is
        sent and nothing changes. Logged in, the fields are sent with the
        current user's id; success puts the returned post in front of the
        list, failure keeps it and raises an alert. The error is caught
        here, so the caller always sees a resolved call. */
    method HandleAddPost(postData: UpdatePostRequest, created: Outcome<Post>)
      returns (sent: Option<CreatePostRequest>, alert: Option<Alert>)
      requires Valid()
      modifies this
      ensures Valid()
      ensures currentUser == old(currentUser) && loading == old(loading)
      ensures old(currentUser).None? ==> sent.None? && userPosts == old(userPosts)
      ensures old(currentUser).Some? ==>
                sent == Some(CreatePostRequest(postData.title, postData.body, postData.topic, old(currentUser).value.id))
      ensures old(currentUser).Some? && created.Success? ==> userPosts == [created.value] + old(userPosts)
      ensures created.Failure? ==> userPosts == old(userPosts)
      ensures alert.Some? <==> old(currentUser).Some? && created.Failure?
      ensures alert.Some? ==> alert.value == CreateFailed
    {
      if currentUser.None? {
        return None, None;
      }
      sent := Some(CreatePostRequest(postData.title, postData.body, postData.topic, currentUser.value.id));
      alert := None;
      if created.Success? {
        userPosts := [created.value] + userPosts;
      } else {
        alert := Some(CreateFailed);
      }
    }

    /** handleUpdatePost, given how `updatePost` settles: the call always goes
        out; success replaces the entries with that id, failure keeps the list
        and raises an alert. The error is caught here. */
    method HandleUpdatePost(id: int, fields: UpdatePostRequest, updated: Outcome<Post>)
      returns (sent: UpdateCall, alert: Option<Alert>)
      requires Valid()
      modifies this
      ensures Valid()
      ensures currentUser == old(currentUser) && loading == old(loading)
      ensures sent == UpdateCall(id, fields)
      ensures updated.Success? ==> userPosts == ReplaceById(old(userPosts), id, updated.value)
      ensures updated.Failure? ==> userPosts == old(userPosts) && alert == Some(UpdateFailed)
      ensures updated.Success? ==> alert.None?
    {
      sent := UpdateCall(id, fields);
      alert := None;
      if updated.Success? {
        userPosts := ReplaceById(userPosts, id, updated.value);
      } else {
        alert := Some(UpdateFailed);
      }
    }
  }

  /** The Posts form submitting through handleAddPost. handleAddPost catches
      its own errors, so the form always sees a resolved call: an accepted
      form is cleared and reports success even when the post was not created
      (the store's "create failed" alert comes first), and only a created post
      reaches the list. A refused form changes nothing and sends nothing. */
  method SubmitPost(app: AppState, form: PostsForm.PostsFormState, created: Outcome<Post>)
    returns (sent: Option<CreatePostRequest>, storeAlert: Option<Alert>, alert: PostsForm.Alert)
    requires app.Valid()
    modifies app, form
    ensures app.Valid()
    ensures app.currentUser == old(app.currentUser) && app.loading == old(app.loading)
    ensures old(form.Pending()).None? ==>
              && sent.None? && storeAlert.None? && app.userPosts == old(app.userPosts)
              && form.title == old(form.title) && form.body == old(form.body) && form.topic == old(form.topic)
              && form.customTopic == old(form.customTopic) && form.submitting == old(form.submitting)
              && alert == PostsForm.FillAllFields
    ensures old(form.Pending()).Some? && old(app.currentUser).None? ==> sent.None? && storeAlert.None?
    ensures old(form.Pending()).Some? && old(app.currentUser).Some? ==>
              var f := old(form.Pending()).value;
              sent == Some(CreatePostRequest(f.title, f.body, f.topic, old(app.currentUser).value.id))
    ensures old(form.Pending()).Some? ==>
              && form.title == "" && form.body == "" && form.topic == "" && form.customTopic == ""
              && !form.submitting && alert == PostsForm.Submitted
    ensures sent.Some? && created.Success? ==> app.userPosts == [created.value] + old(app.userPosts)
    ensures created.Failure? ==> app.userPosts == old(app.userPosts)
    ensures storeAlert.Some? <==> sent.Some? && created.Failure?
    ensures storeAlert.Some? ==> storeAlert.value == CreateFailed
  {
    var submission := form.Pending();
    sent, storeAlert := None, None;
    if submission.Some? {
      sent, storeAlert := app.HandleAddPost(submission.value, created);
    }
    var call;
    call, alert := form.HandleSubmit(Success(()));
  }

  /** The Dashboard saving through handleUpdatePost. handleUpdatePost catches
      its own errors, so the Dashboard always leaves edit mode after a save,
      including when the update failed (with the store's alert) and the list
      was left as it was. The edit buffer is never cleared. */
  method SaveEdit(app: AppState, dash: Dashboard.DashboardState, updated: Outcome<Post>)
    returns (sent: Option<UpdateCall>, storeAlert: Option<Alert>)
    requires app.Valid()
    modifies app, dash
    ensures app.Valid()
    ensures app.currentUser == old(app.currentUser) && app.loading == old(app.loading)
    ensures sent == old(dash.Pending())
    ensures dash.editTitle == old(dash.editTitle) && dash.editBody == old(dash.editBody)
    ensures dash.editTopic == old(dash.editTopic)
    ensures sent.None? ==>
              && app.userPosts == old(app.userPosts) && dash.editingId.None?
              && dash.updating == old(dash.updating) && storeAlert.None?
    ensures sent.Some? ==> dash.editingId.None? && !dash.updating
    ensures sent.Some? && updated.Success? ==>
              app.userPosts == ReplaceById(old(app.userPosts), sent.value.id, updated.value)
    ensures updated.Failure? ==> app.userPosts == old(app.userPosts)
    ensures storeAlert.Some? <==> sent.Some? && updated.Failure?
    ensures storeAlert.Some? ==> storeAlert.value == UpdateFailed
  {
    sent := dash.Pending();
    storeAlert := None;
    if sent.Some? {
      var call;
      call, storeAlert := app.HandleUpdatePost(sent.value.id, sent.value.fields, updated);
    }
    var call, alert := dash.HandleSave(Success(()));
  }

  /** The Login form logging in through handleLogin: the store takes the user
      exactly when the form hands one over, and then loads that user's posts. */
  method LogIn(app: AppState, form: LoginForm.LoginFormState, outcome: Outcome<User>, fetched: Outcome<Json<Post>>)
    returns (request: Option<string>, postsRequest: Option<int>, alert: LoginForm.Alert, storeAlert: Option<Alert>)
    requires app.Valid()
    modifies app, form
    ensures app.Valid()
    ensures form.username == old(form.username)
    ensures request == (if IsBlank(old(form.username)) then None else Some(Trim(old(form.username))))
    ensures IsBlank(old(form.username)) ==> form.loading == old(form.loading) && alert == LoginForm.EnterUsername
    ensures !IsBlank(old(form.username)) ==> !form.loading
    ensures !IsBlank(old(form.username)) && outcome.Success? ==>
              && app.currentUser == Some(outcome.value) && postsRequest == Some(outcome.value.id)
              && !app.loading && alert == LoginForm.LoggedIn(outcome.value.username)
              && (fetched.Success? ==> app.userPosts == Received(fetched.value) && storeAlert.None?)
              && (fetched.Failure? ==> app.userPosts == old(app.userPosts) && storeAlert == Some(LoadFailed))
    ensures !IsBlank(old(form.username)) && outcome.Failure? ==> alert == LoginForm.LoginFailed
    ensures IsBlank(old(form.username)) || outcome.Failure? ==>
              && postsRequest.None? && storeAlert.None? && app.currentUser == old(app.currentUser)
              && app.userPosts == old(app.userPosts) && app.loading == old(app.loading)
  {
    var handed;
    request, handed, alert := form.HandleLogin(outcome);
    postsRequest, storeAlert := None, None;
    if handed.Some? {
      var id;
      id, storeAlert := app.HandleLogin(handed.value, fetched);
      postsRequest := Some(id);
    }
  }
}
