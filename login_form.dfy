/** The login form: a blank username is refused on the client; otherwise the
    trimmed name is sent and, on success, the returned user is handed to
    `onLogin`. */
module LoginForm {
  import opened Wrappers
  import opened Models
  import opened Text
  import opened Api

  /** The alerts a login attempt raises. */
  datatype Alert = EnterUsername | LoggedIn(username: string) | LoginFailed {
    function Message(): string {
      match this
      case EnterUsername => "Please enter a username"
      case LoggedIn(name) => "Logged in as " + name
      case LoginFailed => "Login failed. Please try again."
    }
  }

  class LoginFormState {
    var username: string
    var loading: bool

    constructor ()
      ensures username == "" && !loading
    {
      username := "";
      loading := false;
    }

    /** handleLogin, given how the awaited `loginUser` settles. `request` is the
        name sent, `handed` the user passed to `onLogin` (at most once). */
    method HandleLogin(outcome: Outcome<User>) returns (request: Option<string>, handed: Option<User>, alert: Alert)
      modifies this
      ensures username == old(username)
      ensures IsBlank(username) ==>
                request.None? && handed.None? && loading == old(loading) && alert == EnterUsername
      ensures !IsBlank(username) ==> request == Some(Trim(username)) && !loading
      ensures !IsBlank(username) && outcome.Success? ==>
                handed == Some(outcome.value) && alert == LoggedIn(outcome.value.username)
      ensures !IsBlank(username) && outcome.Failure? ==> handed.None? && alert == LoginFailed
      ensures handed.Some? <==> !IsBlank(username) && outcome.Success?
    {
      if IsBlank(username) {
        return None, None, EnterUsername;
      }
      loading := true;
      request := Some(Trim(username));
      match outcome {
        case Success(user) =>
          handed := Some(user);
          alert := LoggedIn(user.username);
        case Failure(_) =>
          handed := None;
          alert := LoginFailed;
      }
      loading := false;
    }
  }
}
