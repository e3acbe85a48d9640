/** The Dashboard's edit mode: at most one post is being edited, its fields
    held in the edit buffer until they are saved or the edit is cancelled. */
module Dashboard {
  import opened Wrappers
  import opened Models
  import opened Api

  /** The update a save would issue: the edited post's id and the buffer. */
  function PendingCall(editingId: Option<int>, title: string, body: string, topic: string): (c: Option<UpdateCall>)
    ensures c.Some? <==> editingId.Some?
    ensures c.Some? ==> c.value.id == editingId.value
    ensures c.Some? ==> c.value.fields == UpdatePostRequest(title, body, topic)
  {
    match editingId
    case None => None
    case Some(id) => Some(UpdateCall(id, UpdatePostRequest(title, body, topic)))
  }

  /** The alert a failed save raises. */
  datatype Alert = SaveFailed {
    function Message(): string {
      "Failed to update post. Please try again."
    }
  }

  class DashboardState {
    var editingId: Option<int>
    var editTitle: string
    var editBody: string
    var editTopic: string
    var updating: bool

    /** The initial state: nothing is being edited. */
    constructor ()
      ensures editingId == None && editTitle == "" && editBody == "" && editTopic == ""
      ensures !updating
    {
      editingId := None;
      editTitle, editBody, editTopic := "", "", "";
      updating := false;
    }

    /** The call the save button would make now. */
    function Pending(): Option<UpdateCall>
      reads this
    {
      PendingCall(editingId, editTitle, editBody, editTopic)
    }

    /** handleEdit: enter edit mode on a post with a copy of its fields, so
        an immediate save sends the post back unchanged. */
    method HandleEdit(post: Post)
      modifies this
      ensures editingId == Some(post.id)
      ensures editTitle == post.title && editBody == post.body && editTopic == post.topic
      ensures updating == old(updating)
      ensures Pending() == Some(UpdateCall(post.id, UpdatePostRequest(post.title, post.body, post.topic)))
    {
      editingId := Some(post.id);
      editTitle := post.title;
      editBody := post.body;
      editTopic := post.topic;
    }

    /** handleSave, given how the awaited `onUpdatePost` settles. Outside edit
        mode nothing is called and nothing changes. In edit mode the buffer
        is sent; a resolved call leaves edit mode, a rejected one stays in it
        with the buffer intact and raises an alert; either way `updating`
        ends false. The buffer itself is never cleared. */
    method HandleSave(settled: Outcome<()>) returns (call: Option<UpdateCall>, alert: Option<Alert>)
      modifies this
      ensures call == old(Pending())
      ensures editTitle == old(editTitle) && editBody == old(editBody) && editTopic == old(editTopic)
      ensures old(editingId).None? ==>
                editingId == old(editingId) && updating == old(updating) && alert.None?
      ensures old(editingId).Some? ==> !updating
      ensures old(editingId).Some? && settled.Success? ==> editingId.None? && alert.None?
      ensures old(editingId).Some? && settled.Failure? ==>
                editingId == old(editingId) && alert == Some(SaveFailed)
    {
      call := Pending();
      alert := None;
      if editingId.Some? {
        updating := true;
        if settled.Success? {
          editingId := None;
        } else {
          alert := Some(SaveFailed);
        }
        updating := false;
      }
    }

    /** handleCancel: leave edit mode without calling anything. */
    method HandleCancel()
      modifies this
      ensures editingId.None? && Pending().None?
      ensures editTitle == old(editTitle) && editBody == old(editBody) && editTopic == old(editTopic)
      ensures updating == old(updating)
    {
      editingId := None;
    }
  }
}
