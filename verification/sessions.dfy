/** The fields of `$_SESSION` the handlers read and write. */
module Sessions {
  import opened Wrappers

  class Session {
    var loggedin: bool
    var username: Option<string>
    /** `$_SESSION['error']`: the last error message, shown once by the page. */
    var error: Option<string>
    /** `$_SESSION['message']`: the registration notice. */
    var message: Option<string>

    constructor()
      ensures !loggedin && username == None && error == None && message == None
    {
      loggedin := false;
      username := None;
      error := None;
      message := None;
    }

    /** The guard of every explorer request: `loggedin === true` and a username set. */
    function User(): (u: Option<string>)
      reads this
      ensures u.Some? <==> loggedin && username.Some?
      ensures u.Some? ==> u == username
    {
      if loggedin && username.Some? then username else None
    }
  }
}
