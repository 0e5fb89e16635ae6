/**
 * project/ele_ds_ui: the application state of the egui client and the
 * transition the login page makes when its button is clicked. The text
 * fields are edited by the UI between frames; the model takes the clicked
 * flag as an input and leaves the drawing out.
 */
module EleDsLogin {
  import opened Wrappers

  /** The pages of the client: exactly these three. */
  datatype Page = Login | Dashboard | Settings

  /** The signed-in user. */
  datatype User = User(username: string)

  /** The message shown after a rejected attempt. */
  const INVALID_CREDENTIALS := "Invalid credentials"

  /** `AppState`, whose fields the pages update in place. */
  class AppState {
    var currentPage: Page
    var user: Option<User>
    var loginUsername: string
    var loginPassword: string
    var loginError: Option<string>

    /**
     * What every reachable state keeps: the dashboard is only shown to a
     * signed-in user, and the only error that is ever set is the rejection.
     */
    predicate Valid()
      reads this
    {
      && (currentPage == Dashboard ==> user.Some?)
      && (loginError.Some? ==> loginError.value == INVALID_CREDENTIALS)
    }

    /** `AppState::default`: the login page, nobody signed in, empty fields, no error. */
    constructor ()
      ensures currentPage == Login && user == None
      ensures loginUsername == "" && loginPassword == ""
      ensures loginError == None
      ensures Valid()
    {
      currentPage := Login;
      user := None;
      loginUsername := "";
      loginPassword := "";
      loginError := None;
    }

    /**
     * The button handling of `render_login_page`: with both fields filled in
     * a click signs the typed user in, opens the dashboard and clears the
     * form; otherwise a click sets the rejection and changes nothing else.
     * Without a click nothing changes.
     */
    method RenderLoginPage(clicked: bool)
      requires Valid()
      modifies this
      ensures Valid()
      ensures !clicked ==>
        && currentPage == old(currentPage) && user == old(user)
        && loginUsername == old(loginUsername) && loginPassword == old(loginPassword)
        && loginError == old(loginError)
      ensures clicked && old(loginUsername) != "" && old(loginPassword) != "" ==>
        && user == Some(User(old(loginUsername))) && currentPage == Dashboard
        && loginUsername == "" && loginPassword == "" && loginError == None
      ensures clicked && (old(loginUsername) == "" || old(loginPassword) == "") ==>
        && loginError == Some(INVALID_CREDENTIALS)
        && currentPage == old(currentPage) && user == old(user)
        && loginUsername == old(loginUsername) && loginPassword == old(loginPassword)
    {
      if clicked {
        if loginUsername != "" && loginPassword != "" {
          user := Some(User(loginUsername));
          currentPage := Dashboard;
          loginUsername := "";
          loginPassword := "";
          loginError := None;
        } else {
          loginError := Some(INVALID_CREDENTIALS);
        }
      }
    }

    /** A click signs a user in exactly when both fields were filled in. */
    method ClickLogin() returns (signedIn: bool)
      requires Valid()
      modifies this
      ensures Valid()
      ensures signedIn <==> old(loginUsername) != "" && old(loginPassword) != ""
      ensures signedIn <==> currentPage == Dashboard && loginError == None && user == Some(User(old(loginUsername)))
    {
      RenderLoginPage(true);
      signedIn := loginError == None;
    }
  }
}
