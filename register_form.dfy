/** The registration form: like the login form, but a failure raises an alert
    only for the statuses it recognises, 409 and 500. */
module RegisterForm {
  import opened Wrappers
  import opened Models
  import opened Text
  import opened Api

  /** The alerts a registration attempt raises. */
  datatype Alert = EnterUsername | Registered(username: string) | UsernameTaken | RetryLater {
    function Message(): string {
      match this
      case EnterUsername => "Please enter a username"
      case Registered(name) => "Registered and logged in as " + name
      case UsernameTaken => "Username already exists. Please choose a different username."
      case RetryLater => "Registration failed. Please try again."
    }
  }

  /** The alert for a failed registration, chosen by the error's status. */
  function FailureAlert(status: Option<int>): (a: Option<Alert>)
    ensures status == Some(409) <==> a == Some(UsernameTaken)
    ensures status == Some(500) <==> a == Some(RetryLater)
    ensures a.None? <==> status != Some(409) && status != Some(500)
  {
    if status == Some(409) then Some(UsernameTaken)
    else if status == Some(500) then Some(RetryLater)
    else None
  }

  /** A failure thrown by the client's fetch wrapper, which carries no status,
      raises no alert at all. */
  lemma WrapperFailureIsSilent(o: Outcome<User>)
    requires ThrownByFetchWrapper(o)
    ensures FailureAlert(o.status).None?
  {
  }

  class RegisterFormState {
    var username: string
    var loading: bool

    constructor ()
      ensures username == "" && !loading
    {
      username := "";
      loading := false;
    }

    /** handleRegister, given how the awaited `registerUser` settles. `request`
        is the name sent, `handed` the user passed to `onLogin`. */
    method HandleRegister(outcome: Outcome<User>) returns (request: Option<string>, handed: Option<User>, alert: Option<Alert>)
      modifies this
      ensures username == old(username)
      ensures IsBlank(username) ==>
                request.None? && handed.None? && loading == old(loading) && alert == Some(EnterUsername)
      ensures !IsBlank(username) ==> request == Some(Trim(username)) && !loading
      ensures !IsBlank(username) && outcome.Success? ==>
                handed == Some(outcome.value) && alert == Some(Registered(outcome.value.username))
      ensures !IsBlank(username) && outcome.Failure? ==> handed.None? && alert == FailureAlert(outcome.status)
      ensures handed.Some? <==> !IsBlank(username) && outcome.Success?
    {
      if IsBlank(username) {
        return None, None, Some(EnterUsername);
      }
      loading := true;
      request := Some(Trim(username));
      match outcome {
        case Success(user) =>
          handed := Some(user);
          alert := Some(Registered(user.username));
        case Failure(status) =>
          handed := None;
          alert := FailureAlert(status);
      }
      loading := false;
    }
  }
}
