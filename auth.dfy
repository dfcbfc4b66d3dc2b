/** The authentication gateway in front of every todo route: a service caller
    presenting the API key, or a browser whose session resolves to a user. */
module Auth {
  import opened Js
  import opened Users

  const DefaultApiKey: string := "demo-api-key-12345"

  /** The identity an API-key caller gets when it does not name one. */
  const DefaultUserId: string := "1"

  /** The configured key: the environment's value unless that is unset or empty. */
  function ConfiguredApiKey(env: Option<string>): (key: string)
    ensures key != ""
    ensures Truthy(env) ==> key == env.value
    ensures !Truthy(env) ==> key == DefaultApiKey
  {
    OrElse(env, DefaultApiKey)
  }

  datatype AuthError = InvalidApiKey | AuthenticationRequired

  /** Both rejections are answered with status 401 and this message. */
  function ErrorMessage(e: AuthError): string {
    match e
    case InvalidApiKey => "Invalid API key"
    case AuthenticationRequired => "Authentication required"
  }

  datatype AuthResult = Authorized(userId: string) | Unauthorized(error: AuthError)

  /** The gateway's decision for a request with headers `x-api-key` (`keyHeader`)
      and `x-user-id` (`userHeader`) whose session resolved to `sessionUser`.
      A present key decides alone, wrong or right; only without one is the
      session looked at. The asserted user id of an API-key caller is trusted
      as it is. */
  function EnsureAuth(apiKey: string, keyHeader: Option<string>, userHeader: Option<string>,
                      sessionUser: Option<User>): (r: AuthResult)
    ensures Truthy(keyHeader) && keyHeader.value != apiKey ==> r == Unauthorized(InvalidApiKey)
    ensures Truthy(keyHeader) && keyHeader.value == apiKey ==>
              r == Authorized(if Truthy(userHeader) then userHeader.value else DefaultUserId)
    ensures !Truthy(keyHeader) && sessionUser.Some? ==> r == Authorized(sessionUser.value.id)
    ensures !Truthy(keyHeader) && sessionUser.None? ==> r == Unauthorized(AuthenticationRequired)
  {
    if Truthy(keyHeader) then
      if keyHeader.value != apiKey then Unauthorized(InvalidApiKey)
      else Authorized(OrElse(userHeader, DefaultUserId))
    else if sessionUser.Some? then Authorized(sessionUser.value.id)
    else Unauthorized(AuthenticationRequired)
  }

  /** With a key header present the session plays no part: two requests that
      differ only in their sessions get the same decision. */
  lemma SessionIgnoredWithApiKey(apiKey: string, keyHeader: Option<string>, userHeader: Option<string>,
                                 s1: Option<User>, s2: Option<User>)
    requires Truthy(keyHeader)
    ensures EnsureAuth(apiKey, keyHeader, userHeader, s1) == EnsureAuth(apiKey, keyHeader, userHeader, s2)
  {
  }

  /** Without a key header, `x-user-id` plays no part. */
  lemma UserHeaderIgnoredWithoutApiKey(apiKey: string, keyHeader: Option<string>, u1: Option<string>,
                                       u2: Option<string>, sessionUser: Option<User>)
    requires !Truthy(keyHeader)
    ensures EnsureAuth(apiKey, keyHeader, u1, sessionUser) == EnsureAuth(apiKey, keyHeader, u2, sessionUser)
  {
  }

  /** An empty header counts as no header. */
  lemma EmptyHeadersAreAbsent(apiKey: string, userHeader: Option<string>, sessionUser: Option<User>)
    ensures EnsureAuth(apiKey, Some(""), userHeader, sessionUser) == EnsureAuth(apiKey, None, userHeader, sessionUser)
    ensures EnsureAuth(apiKey, Some(apiKey), Some(""), sessionUser) == EnsureAuth(apiKey, Some(apiKey), None, sessionUser)
  {
  }

  /** Where an authorized identity comes from: the asserted header or the
      default for a correct key, otherwise the session's user. */
  lemma AuthorizedIdentitySource(apiKey: string, keyHeader: Option<string>, userHeader: Option<string>,
                                 sessionUser: Option<User>)
    requires EnsureAuth(apiKey, keyHeader, userHeader, sessionUser).Authorized?
    ensures var id := EnsureAuth(apiKey, keyHeader, userHeader, sessionUser).userId;
            (Truthy(keyHeader) && keyHeader.value == apiKey &&
             (id == DefaultUserId || (userHeader.Some? && id == userHeader.value))) ||
            (!Truthy(keyHeader) && sessionUser.Some? && id == sessionUser.value.id)
  {
  }

  /** The full decision for a request whose session holds `stored`. */
  function Authenticate(apiKey: string, users: seq<User>, keyHeader: Option<string>,
                        userHeader: Option<string>, stored: Option<string>): AuthResult
  {
    EnsureAuth(apiKey, keyHeader, userHeader, SessionUser(users, stored))
  }

  /** A browser that logged in through `POST /auth/login` and sends no key
      header is authorized as the user who logged in. */
  lemma LoggedInBrowserIsAuthorized(apiKey: string, users: seq<User>, username: Option<string>,
                                    password: Option<string>, userHeader: Option<string>)
    requires UniqueIds(users)
    requires Login(users, username, password).LoggedIn?
    ensures Authenticate(apiKey, users, None, userHeader, Some(Login(users, username, password).session))
            == Authorized(Login(users, username, password).id)
  {
    LoginThenSession(users, username, password);
  }
}
