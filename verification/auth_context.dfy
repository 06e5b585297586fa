/** The React authentication context: whether the UI considers itself
    logged in, the role it shows, and the token kept in local storage. */
module AuthContext {
  import opened Wrappers
  import opened Json

  /** `userRole` is whatever the login form passed in, so it may be any
      JavaScript value; null before login and after logout. */
  datatype AuthState = AuthState(isAuthenticated: bool, userRole: JsValue)

  /** The provider's state together with local storage's 'token' entry. */
  datatype Session = Session(auth: AuthState, storedToken: Option<string>)

  const UseAuthOutsideProvider: string := "useAuth must be used within an AuthProvider"

  /** A freshly mounted provider: not authenticated, no role. It does not
      look at local storage, so a token left there by an earlier visit stays
      (and is still sent by the API helper) while the UI shows logged out. */
  function Mount(storage: Option<string>): (r: Session)
    ensures !r.auth.isAuthenticated && r.auth.userRole == JsNull
    ensures r.storedToken == storage
  {
    Session(AuthState(false, JsNull), storage)
  }

  /** `login(token, role)`: stores the token and marks the UI logged in with
      that role, whatever the state before. */
  function LogIn(s: Session, token: string, role: JsValue): (r: Session)
    ensures r.auth.isAuthenticated && r.auth.userRole == role && r.storedToken == Some(token)
  {
    Session(AuthState(true, role), Some(token))
  }

  /** `logout()`: removes the token and resets the state. */
  function LogOut(s: Session): (r: Session)
    ensures !r.auth.isAuthenticated && r.auth.userRole == JsNull && r.storedToken == None
  {
    Session(AuthState(false, JsNull), None)
  }

  /** `useAuth()`: the context value, or the error it throws outside a
      provider. */
  function UseAuth(context: Option<AuthState>): (r: Result<AuthState, string>)
    ensures r.Ok? <==> context.Some?
    ensures r.Ok? ==> r.value == context.value
    ensures r.Err? ==> r.error == UseAuthOutsideProvider
  {
    match context
    case None => Err(UseAuthOutsideProvider)
    case Some(a) => Ok(a)
  }

  /** Logging out always lands in the state of a fresh provider over empty
      storage, and a later login depends only on its own arguments: the
      state carries nothing across a logout or between logins. */
  lemma SessionHasNoMemory(s: Session, t: Session, token: string, role: JsValue)
    ensures LogOut(s) == Mount(None)
    ensures LogIn(s, token, role) == LogIn(t, token, role)
    ensures LogOut(LogIn(s, token, role)) == LogOut(s)
  {
  }

  /** The context's test cases: the initial state, a login as 'User' with
      'fake-token', and a logout after it. */
  lemma ContextTestCases()
    ensures var s := Mount(None);
            !s.auth.isAuthenticated && s.auth.userRole == JsNull
    ensures var s := LogIn(Mount(None), "fake-token", JsString("User"));
            s.auth.isAuthenticated && s.auth.userRole == JsString("User") && s.storedToken == Some("fake-token")
    ensures var s := LogOut(LogIn(Mount(None), "fake-token", JsString("User")));
            !s.auth.isAuthenticated && s.auth.userRole == JsNull && s.storedToken == None
  {
  }
}
