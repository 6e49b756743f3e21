/**
 * The authentication gate: the login handler that stores an authorization
 * record in the session, and the `auth` middleware in front of every
 * route under `/customer/auth/`. Signing and verifying tokens are outside the model:
 * a login receives the token the signer issued, and the middleware receives the
 * verifier as a function from a token to its decoded payload, `None` when the
 * signature or the expiry is rejected.
 */
module Auth {
  import opened Wrappers
  import opened Types
  import Users
  import Reviews

  const BadCredentials := "Invalid credentials."
  const LoggedIn := "Logged in successfully."

  /**
   * `POST /customer/login`: 400 when a field is missing or empty, 401 when no
   * user has exactly this name and password; otherwise the session's
   * authorization record holds the issued token and the username, and the token is
   * returned. Returns the response and the new authorization record.
   */
  function Login(users: seq<User>, auth: Option<Authorization>, username: Option<string>, password: Option<string>,
                 issued: string): (out: (Response, Option<Authorization>))
    ensures !Present(username) || !Present(password) ==> out == (Response(400, Users.MissingFields, NoPayload), auth)
    ensures out.0.status == 401 <==>
              Present(username) && Present(password) && User(username.value, password.value) !in users
    ensures out.0.status == 401 ==> out == (Response(401, BadCredentials, NoPayload), auth)
    ensures out.0.status == 200 <==>
              Present(username) && Present(password) && User(username.value, password.value) in users
    ensures out.0.status == 200 ==>
              && out.0 == Response(200, LoggedIn, IssuedToken(issued))
              && out.1 == Some(Authorization(issued, username.value))
              && Users.IsValid(users, username.value)
  {
    if !Present(username) || !Present(password) then
      (Response(400, Users.MissingFields, NoPayload), auth)
    else
      match Users.AuthenticatedUser(users, username.value, password.value)
      case None => (Response(401, BadCredentials, NoPayload), auth)
      case Some(_) =>
        (Response(200, LoggedIn, IssuedToken(issued)), Some(Authorization(issued, username.value)))
  }

  /** What the middleware decides: a 403 with its message, or pass to the handler with the decoded payload. */
  datatype Decision<D> = Forbidden(message: string) | Pass(decoded: D)

  const NotLoggedIn := "User not logged in"
  const TokenMissing := "Access token missing"
  const BadToken := "Invalid or expired token"

  /**
   * The `auth` middleware: no authorization record, then no (truthy) access
   * token, then a token the verifier rejects, each answer 403 with its own
   * message; otherwise the request passes with the decoded payload as `req.user`.
   */
  function Gate<D>(auth: Option<Authorization>, verify: string -> Option<D>): (d: Decision<D>)
    ensures d.Pass? <==> auth.Some? && auth.value.accessToken != "" && verify(auth.value.accessToken).Some?
    ensures d.Pass? ==> d.decoded == verify(auth.value.accessToken).value
    ensures auth.None? ==> d == Forbidden(NotLoggedIn)
    ensures auth.Some? && auth.value.accessToken == "" ==> d == Forbidden(TokenMissing)
    ensures auth.Some? && auth.value.accessToken != "" && verify(auth.value.accessToken).None? ==> d == Forbidden(BadToken)
  {
    if auth.None? then Forbidden(NotLoggedIn)
    else
      var token := auth.value.accessToken;
      if token == "" then Forbidden(TokenMissing)
      else
        match verify(token)
        case None => Forbidden(BadToken)
        case Some(decoded) => Pass(decoded)
  }

  /**
   * A successful login whose issued token the verifier accepts opens the gate,
   * and the review handlers then see the logged-in user: neither answers 403.
   */
  lemma LoginOpensGate<D>(users: seq<User>, auth: Option<Authorization>, username: Option<string>, password: Option<string>,
                          issued: string, verify: string -> Option<D>, books: map<string, Book>, isbn: string, text: Option<string>)
    requires Login(users, auth, username, password, issued).0.status == 200
    requires issued != "" && verify(issued).Some?
    ensures var session := Login(users, auth, username, password, issued).1;
            && Gate(session, verify) == Pass(verify(issued).value)
            && Reviews.SessionUser(session) == Some(username.value)
            && Reviews.Put(books, session, isbn, text).0.status != 403
            && Reviews.Delete(books, session, isbn).0.status != 403
  {
  }

  /** A login that fails, for either reason, leaves an earlier session's gate decision as it was. */
  lemma FailedLoginKeepsGate<D>(users: seq<User>, auth: Option<Authorization>, username: Option<string>, password: Option<string>,
                                issued: string, verify: string -> Option<D>)
    requires Login(users, auth, username, password, issued).0.status != 200
    ensures Gate(Login(users, auth, username, password, issued).1, verify) == Gate(auth, verify)
  {
  }
}
