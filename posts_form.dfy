/** The post creation form: a topic chosen from a list or typed in under
    "others", blank fields refused, and a reset once the post is accepted. */
module PostsForm {
  import opened Wrappers
  import opened Models
  import opened Text
  import opened Api

  /** The topic option that switches to the typed-in custom topic. */
  const OthersOption: string := "others"

  /** The alerts a submit raises. */
  datatype Alert = Submitted | SubmitFailed | FillAllFields {
    function Message(): string {
      match this
      case Submitted => "Post submitted!"
      case SubmitFailed => "Failed to submit post. Please try again."
      case FillAllFields => "Please fill all fields"
    }
  }

  /** The topic that is submitted: the custom one exactly when "others" is selected. */
  function FinalTopic(topic: string, customTopic: string): (t: string)
    ensures topic == OthersOption ==> t == customTopic
    ensures topic != OthersOption ==> t == topic
  {
    if topic == OthersOption then customTopic else topic
  }

  /** What a submit passes to `onAddPost`: the title and body untrimmed and the
      final topic, provided none of the three is blank; otherwise nothing. */
  function Submission(title: string, body: string, topic: string, customTopic: string): (s: Option<UpdatePostRequest>)
    ensures s.Some? <==> !IsBlank(title) && !IsBlank(body) && !IsBlank(FinalTopic(topic, customTopic))
    ensures s.Some? ==> s.value == UpdatePostRequest(title, body, FinalTopic(topic, customTopic))
  {
    var t := FinalTopic(topic, customTopic);
    if !IsBlank(title) && !IsBlank(body) && !IsBlank(t) then Some(UpdatePostRequest(title, body, t)) else None
  }

  /** A submission whose fields are not blank carries non-empty fields, and so
      passes the server's title, body and topic checks. */
  lemma SubmissionFieldsAreNonEmpty(title: string, body: string, topic: string, customTopic: string)
    requires Submission(title, body, topic, customTopic).Some?
    ensures var s := Submission(title, body, topic, customTopic).value;
            s.title != "" && s.body != "" && s.topic != ""
  {
    NotBlankIsNonEmpty(title);
    NotBlankIsNonEmpty(body);
    NotBlankIsNonEmpty(FinalTopic(topic, customTopic));
  }

  /** Selecting "others" with a blank custom topic never submits, whatever the
      title and body are. */
  lemma BlankCustomTopicIsRefused(title: string, body: string, customTopic: string)
    requires forall i :: 0 <= i < |customTopic| ==> IsWhiteSpace(customTopic[i])
    ensures Submission(title, body, OthersOption, customTopic).None?
  {
    BlankIffAllWhiteSpace(customTopic);
  }

  class PostsFormState {
    var title: string
    var body: string
    var topic: string
    var customTopic: string
    var submitting: bool

    /** The initial, empty form. */
    constructor ()
      ensures title == "" && body == "" && topic == "" && customTopic == "" && !submitting
    {
      title, body, topic, customTopic := "", "", "", "";
      submitting := false;
    }

    /** The submission the form would pass on now. */
    function Pending(): Option<UpdatePostRequest>
      reads this
    {
      Submission(title, body, topic, customTopic)
    }

    /** Clears the four input fields. */
    method Reset()
      modifies this
      ensures title == "" && body == "" && topic == "" && customTopic == ""
      ensures submitting == old(submitting)
    {
      title, body, topic, customTopic := "", "", "", "";
    }

    /** handleSubmit, given how the awaited `onAddPost` settles. A refused form
        calls nothing and changes nothing. Otherwise the submission is passed
        on; a resolved call clears all four fields, a rejected one keeps them;
        either way `submitting` ends false. */
    method HandleSubmit(settled: Outcome<()>) returns (call: Option<UpdatePostRequest>, alert: Alert)
      modifies this
      ensures call == old(Pending())
      ensures call.None? ==>
                && title == old(title) && body == old(body) && topic == old(topic)
                && customTopic == old(customTopic) && submitting == old(submitting)
                && alert == FillAllFields
      ensures call.Some? ==> !submitting
      ensures call.Some? && settled.Success? ==>
                title == "" && body == "" && topic == "" && customTopic == "" && alert == Submitted
      ensures call.Some? && settled.Failure? ==>
                && title == old(title) && body == old(body) && topic == old(topic)
                && customTopic == old(customTopic) && alert == SubmitFailed
    {
      call := Pending();
      if call.None? {
        alert := FillAllFields;
        return;
      }
      submitting := true;
      if settled.Success? {
        alert := Submitted;
        Reset();
      } else {
        alert := SubmitFailed;
      }
      submitting := false;
    }
  }
}
