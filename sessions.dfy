/** The login session of the requester (`current_user`, `login_user`,
    `logout_user`). */
module Sessions {
  import opened Wrappers

  class Session {
    /** The id of the logged-in user, if any. */
    var user: Option<nat>
    /** Whether the login should outlive the browser session. */
    var remember: bool

    predicate Authenticated()
      reads this
    {
      user.Some?
    }

    /** An anonymous requester. */
    constructor ()
      ensures !Authenticated() && !remember
    {
      user := None;
      remember := false;
    }

    /** `login_user(user, remember=remember)`: an inactive user is refused
        and the session stays as it was; `ok` says whether it logged in. */
    method LogIn(id: nat, active: bool, remember: bool) returns (ok: bool)
      modifies this
      ensures ok == active
      ensures active ==> user == Some(id) && this.remember == remember
      ensures !active ==> unchanged(this)
    {
      ok := active;
      if active {
        user := Some(id);
        this.remember := remember;
      }
    }

    /** `logout_user()`: forgets the user and the remember-me flag. */
    method LogOut()
      modifies this
      ensures !Authenticated() && !remember
    {
      user := None;
      remember := false;
    }
  }
}
