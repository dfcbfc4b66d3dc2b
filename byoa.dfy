/** The "bring your own auth" handshake with the identity orchestrator:
    1. the orchestrator sends the browser to the sign-in page with a
       `login_request_id` and a `state`, which the form carries as hidden fields;
    2. the submitted form reaches the callback, which checks the credentials
       (a failure shows a "try again" link back to step 1 with the same values);
    3. on success the callback tells the orchestrator who signed in and, once
       that call succeeds, redirects the browser back to the orchestrator.
    The orchestrator call is an input here: whether it succeeded. */
module Byoa {
  import opened Js
  import opened Users
  import Uri
  import Html

  /** The orchestrator settings: its environment URL and this app's connection
      id there; either may be unset in the environment. */
  datatype Orchestrator = Orchestrator(environmentUrl: Option<string>, connectionId: Option<string>)

  const MissingQueryMessage: string := "Missing login_request_id or state parameter."
  const MissingBodyMessage: string := "Missing login_request_id or state."
  const DelegationFailedMessage: string := "Failed to complete authentication with Scalekit."

  // ------------------------------------------------------------ sign-in page

  /** The answer to `GET /auth/mcp-login`: status 400, or the sign-in form, of
      which only the two hidden inputs matter here. */
  datatype PageResponse =
    | PageBadRequest(message: string)
    | SignInForm(loginRequestIdInput: string, stateInput: string)

  /** The sign-in page with its hidden inputs escaped: the browser sends back
      both values, with only the normalization every form field undergoes. */
  function LoginPage(loginRequestId: Option<string>, state: Option<string>): (r: PageResponse)
    ensures r.PageBadRequest? <==> !Truthy(loginRequestId) || !Truthy(state)
    ensures r.PageBadRequest? ==> r.message == MissingQueryMessage
    ensures r.SignInForm? ==>
              Html.SubmittedValue("login_request_id", r.loginRequestIdInput) == Some(Html.FormValue(loginRequestId.value)) &&
              Html.SubmittedValue("state", r.stateInput) == Some(Html.FormValue(state.value))
  {
    if !Truthy(loginRequestId) || !Truthy(state) then PageBadRequest(MissingQueryMessage)
    else
      LiteralFacts();
      Html.HiddenInputRoundTrip("login_request_id", loginRequestId.value);
      Html.HiddenInputRoundTrip("state", state.value);
      SignInForm(Html.HiddenInput("login_request_id", loginRequestId.value),
                 Html.HiddenInput("state", state.value))
  }

  /** The sign-in page as the source writes it, with both values interpolated
      unescaped. The attribute value of each hidden input, read on its own, is
      the part of the value before its first `"`; when that part holds no `&`
      it is sent back, normalized as every form field is. */
  function LoginPageAsWritten(loginRequestId: Option<string>, state: Option<string>): (r: PageResponse)
    ensures r.PageBadRequest? <==> !Truthy(loginRequestId) || !Truthy(state)
    ensures r.PageBadRequest? ==> r.message == MissingQueryMessage
    ensures r.SignInForm? ==>
              var cut := Html.UpToQuote(loginRequestId.value);
              Html.SubmittedValue("login_request_id", r.loginRequestIdInput) ==
              Html.SubmittedValue("login_request_id", Html.HiddenInputAsWritten("login_request_id", cut)) &&
              ('&' !in cut ==> Html.SubmittedValue("login_request_id", r.loginRequestIdInput) == Some(Html.FormValue(cut)))
    ensures r.SignInForm? ==>
              var cut := Html.UpToQuote(state.value);
              Html.SubmittedValue("state", r.stateInput) ==
              Html.SubmittedValue("state", Html.HiddenInputAsWritten("state", cut)) &&
              ('&' !in cut ==> Html.SubmittedValue("state", r.stateInput) == Some(Html.FormValue(cut)))
  {
    if !Truthy(loginRequestId) || !Truthy(state) then PageBadRequest(MissingQueryMessage)
    else
      LiteralFacts();
      Html.HiddenInputAsWrittenCut("login_request_id", loginRequestId.value);
      Html.HiddenInputAsWrittenCut("state", state.value);
      AsWrittenPlainWhenNoAmpersand("login_request_id", Html.UpToQuote(loginRequestId.value));
      AsWrittenPlainWhenNoAmpersand("state", Html.UpToQuote(state.value));
      SignInForm(Html.HiddenInputAsWritten("login_request_id", loginRequestId.value),
                 Html.HiddenInputAsWritten("state", state.value))
  }

  lemma AsWrittenPlainWhenNoAmpersand(name: string, cut: string)
    requires '\r' !in name && '"' !in cut
    ensures '&' !in cut ==>
              Html.SubmittedValue(name, Html.HiddenInputAsWritten(name, cut)) == Some(Html.FormValue(cut))
  {
    if '&' !in cut {
      Html.HiddenInputAsWrittenPlain(name, cut);
    }
  }

  // ---------------------------------------------------------------- callback

  /** The fields of the submitted sign-in form. */
  datatype CallbackBody = CallbackBody(loginRequestId: Option<string>, state: Option<string>,
                                       username: Option<string>, password: Option<string>)

  /** What the callback tells the orchestrator: for this connection and login
      request, the subject (the user's id) and the user's email. */
  datatype NotifyRequest = NotifyRequest(connectionId: Option<string>, loginRequestId: string,
                                         sub: string, email: string)

  /** The answer to `POST /auth/mcp-login-callback`. */
  datatype CallbackResponse =
    | BadRequest(message: string)   // status 400
    | RetryPage(link: string)       // "Invalid username or password." with a "Try again" link
    | Redirect(url: string)         // back to the orchestrator
    | ServerError(message: string)  // status 500

  /** The orchestrator call made (if any) and the answer sent to the browser. */
  datatype CallbackOutcome = CallbackOutcome(notified: Option<NotifyRequest>, response: CallbackResponse)

  /** The "try again" link: the sign-in page with both values percent-encoded. */
  function RetryLink(loginRequestId: string, state: string): string {
    LoginPath + "?" + RetryQuery(loginRequestId, state)
  }

  const LoginPath: string := "/auth/mcp-login"

  function RetryQuery(loginRequestId: string, state: string): string {
    Uri.EncodedPair("login_request_id", loginRequestId) + "&" + Uri.EncodedPair("state", state)
  }

  /** Where the orchestrator expects the browser back, before the query. */
  function PartnerCallback(cfg: Orchestrator): string {
    Interpolate(cfg.environmentUrl) + "/sso/v1/connections/" + Interpolate(cfg.connectionId) + "/partner:callback"
  }

  function RedirectUrl(cfg: Orchestrator, state: string): string {
    PartnerCallback(cfg) + "?" + Uri.EncodedPair("state", state)
  }

  /** The callback. `notifySucceeds` is the outcome of the orchestrator call,
      which is awaited only when the credentials were accepted. */
  function Callback(cfg: Orchestrator, users: seq<User>, body: CallbackBody, notifySucceeds: bool): (r: CallbackOutcome)
    ensures r.response.BadRequest? <==> !Truthy(body.loginRequestId) || !Truthy(body.state)
    ensures r.response.BadRequest? ==> r.response.message == MissingBodyMessage
    ensures r.response.RetryPage? <==> Truthy(body.loginRequestId) && Truthy(body.state) &&
                                       CheckCredentials(users, body.username, body.password).None?
    ensures r.response.RetryPage? ==> r.response.link == RetryLink(body.loginRequestId.value, body.state.value)
    ensures r.notified.Some? <==> Truthy(body.loginRequestId) && Truthy(body.state) &&
                                  CheckCredentials(users, body.username, body.password).Some?
    ensures r.notified.Some? ==>
              exists u :: u in users && HasCredentials(u, body.username.value, body.password.value) &&
                          r.notified.value == NotifyRequest(cfg.connectionId, body.loginRequestId.value, u.id, u.email)
    ensures r.response.Redirect? <==> r.notified.Some? && notifySucceeds
    ensures r.response.Redirect? ==> r.response.url == RedirectUrl(cfg, body.state.value)
    ensures r.response.ServerError? <==> r.notified.Some? && !notifySucceeds
    ensures r.response.ServerError? ==> r.response.message == DelegationFailedMessage
  {
    if !Truthy(body.loginRequestId) || !Truthy(body.state) then
      CallbackOutcome(None, BadRequest(MissingBodyMessage))
    else
      var loginRequestId, state := body.loginRequestId.value, body.state.value;
      match CheckCredentials(users, body.username, body.password)
      case None => CallbackOutcome(None, RetryPage(RetryLink(loginRequestId, state)))
      case Some(u) =>
        var request := NotifyRequest(cfg.connectionId, loginRequestId, u.id, u.email);
        if notifySucceeds then CallbackOutcome(Some(request), Redirect(RedirectUrl(cfg, state)))
        else CallbackOutcome(Some(request), ServerError(DelegationFailedMessage))
  }

  // ------------------------------------------------------ round-trip fidelity

  /** The query string of a URL: what follows its first `?`. */
  function QueryOf(url: string): string {
    match Uri.SepIndex(url, '?')
    case None => ""
    case Some(i) => url[i + 1..]
  }

  lemma QueryAfter(path: string, query: string)
    requires '?' !in path
    ensures QueryOf(path + "?" + query) == query
  {
    assert path + "?" + query == path + ['?'] + query;
    Uri.SepIndexAfter(path, '?', query);
    assert (path + ['?'] + query)[|path| + 1..] == query;
  }

  lemma LiteralFacts()
    ensures '?' !in LoginPath
    ensures '=' !in "login_request_id" && '&' !in "login_request_id"
    ensures '=' !in "state" && '&' !in "state"
    ensures "login_request_id" != "state"
    ensures '\r' !in "login_request_id" && '\r' !in "state"
  {
    assert "login_request_id"[0] != "state"[0];
  }

  /** Following the "try again" link sends the sign-in page exactly the
      `login_request_id` and `state` the callback received. */
  lemma RetryLinkRoundTrip(loginRequestId: string, state: string)
    ensures Uri.QueryParam(QueryOf(RetryLink(loginRequestId, state)), "login_request_id") == Some(loginRequestId)
    ensures Uri.QueryParam(QueryOf(RetryLink(loginRequestId, state)), "state") == Some(state)
  {
    LiteralFacts();
    QueryAfter(LoginPath, RetryQuery(loginRequestId, state));
    Uri.TwoParamQuery("login_request_id", loginRequestId, "state", state);
  }

  /** The redirect hands the orchestrator back exactly the `state` it issued. */
  lemma RedirectCarriesState(cfg: Orchestrator, state: string)
    requires '?' !in PartnerCallback(cfg)
    ensures Uri.QueryParam(QueryOf(RedirectUrl(cfg, state)), "state") == Some(state)
  {
    LiteralFacts();
    QueryAfter(PartnerCallback(cfg), Uri.EncodedPair("state", state));
    Uri.OneParamQuery("state", state);
  }

  // ----------------------------------------------------- the whole handshake

  /** The form the browser submits from the sign-in page, with the credentials
      the user typed. */
  function Submit(form: PageResponse, username: Option<string>, password: Option<string>): CallbackBody
    requires form.SignInForm?
  {
    CallbackBody(Html.SubmittedValue("login_request_id", form.loginRequestIdInput),
                 Html.SubmittedValue("state", form.stateInput), username, password)
  }

  /** A handshake with the right credentials and a successful orchestrator call
      ends in a redirect carrying the `state` the browser sent back, after
      telling the orchestrator the `login_request_id` it sent back and the
      user's identity; for values without line breaks or U+0000 these are the
      original values. */
  lemma HandshakeCompletes(cfg: Orchestrator, users: seq<User>, loginRequestId: string, state: string,
                           username: string, password: string, u: User)
    requires loginRequestId != "" && state != "" && username != "" && password != ""
    requires u in users && HasCredentials(u, username, password)
    requires UniqueUsernames(users)
    ensures LoginPage(Some(loginRequestId), Some(state)).SignInForm?
    ensures var r := Callback(cfg, users, Submit(LoginPage(Some(loginRequestId), Some(state)), Some(username), Some(password)), true);
            r.notified == Some(NotifyRequest(cfg.connectionId, Html.FormValue(loginRequestId), u.id, u.email)) &&
            r.response == Redirect(RedirectUrl(cfg, Html.FormValue(state)))
    ensures Html.NoLineBreakOrNul(loginRequestId) && Html.NoLineBreakOrNul(state) ==>
            var r := Callback(cfg, users, Submit(LoginPage(Some(loginRequestId), Some(state)), Some(username), Some(password)), true);
            r.notified == Some(NotifyRequest(cfg.connectionId, loginRequestId, u.id, u.email)) &&
            r.response == Redirect(RedirectUrl(cfg, state))
  {
    var form := LoginPage(Some(loginRequestId), Some(state));
    SubmittedFormSignsIn(cfg, users, form, loginRequestId, state, username, password, u);
    if Html.NoLineBreakOrNul(loginRequestId) && Html.NoLineBreakOrNul(state) {
      Html.FormValuePlain(loginRequestId);
      Html.FormValuePlain(state);
    }
  }

  /** The same handshake through the page as the source writes it completes
      alike when neither value holds `"` or `&`. */
  lemma HandshakeCompletesAsWritten(cfg: Orchestrator, users: seq<User>, loginRequestId: string, state: string,
                                    username: string, password: string, u: User)
    requires loginRequestId != "" && state != "" && username != "" && password != ""
    requires '"' !in loginRequestId && '&' !in loginRequestId && '"' !in state && '&' !in state
    requires u in users && HasCredentials(u, username, password)
    requires UniqueUsernames(users)
    ensures LoginPageAsWritten(Some(loginRequestId), Some(state)).SignInForm?
    ensures var r := Callback(cfg, users, Submit(LoginPageAsWritten(Some(loginRequestId), Some(state)), Some(username), Some(password)), true);
            r.notified == Some(NotifyRequest(cfg.connectionId, Html.FormValue(loginRequestId), u.id, u.email)) &&
            r.response == Redirect(RedirectUrl(cfg, Html.FormValue(state)))
  {
    var form := LoginPageAsWritten(Some(loginRequestId), Some(state));
    Html.UpToQuoteWhole(loginRequestId);
    Html.UpToQuoteWhole(state);
    SubmittedFormSignsIn(cfg, users, form, loginRequestId, state, username, password, u);
  }

  /** A form that sends back the two values normalized, submitted with the
      right credentials, is forwarded to the orchestrator and redirected. */
  lemma SubmittedFormSignsIn(cfg: Orchestrator, users: seq<User>, form: PageResponse, loginRequestId: string,
                             state: string, username: string, password: string, u: User)
    requires form.SignInForm?
    requires Html.SubmittedValue("login_request_id", form.loginRequestIdInput) == Some(Html.FormValue(loginRequestId))
    requires Html.SubmittedValue("state", form.stateInput) == Some(Html.FormValue(state))
    requires loginRequestId != "" && state != "" && username != "" && password != ""
    requires u in users && HasCredentials(u, username, password)
    requires UniqueUsernames(users)
    ensures var r := Callback(cfg, users, Submit(form, Some(username), Some(password)), true);
            r.notified == Some(NotifyRequest(cfg.connectionId, Html.FormValue(loginRequestId), u.id, u.email)) &&
            r.response == Redirect(RedirectUrl(cfg, Html.FormValue(state)))
  {
    var body := Submit(form, Some(username), Some(password));
    Html.FormValueNonEmpty(loginRequestId);
    Html.FormValueNonEmpty(state);
    assert Truthy(body.loginRequestId) && Truthy(body.state);
    var k :| 0 <= k < |users| && users[k] == u;
    CredentialsSelectUser(users, k);
    assert CheckCredentials(users, Some(username), Some(password)) == Some(u);
  }

  /** Wrong credentials lead back, through the retry link, to the same sign-in form. */
  lemma RetryReturnsToSameForm(cfg: Orchestrator, users: seq<User>, body: CallbackBody, notifySucceeds: bool)
    requires Callback(cfg, users, body, notifySucceeds).response.RetryPage?
    ensures var query := QueryOf(Callback(cfg, users, body, notifySucceeds).response.link);
            LoginPage(Uri.QueryParam(query, "login_request_id"), Uri.QueryParam(query, "state")) ==
            LoginPage(body.loginRequestId, body.state) &&
            LoginPage(body.loginRequestId, body.state).SignInForm?
    ensures var query := QueryOf(Callback(cfg, users, body, notifySucceeds).response.link);
            LoginPageAsWritten(Uri.QueryParam(query, "login_request_id"), Uri.QueryParam(query, "state")) ==
            LoginPageAsWritten(body.loginRequestId, body.state) &&
            LoginPageAsWritten(body.loginRequestId, body.state).SignInForm?
  {
    RetryLinkRoundTrip(body.loginRequestId.value, body.state.value);
  }

  /** Neither endpoint does anything but answer 400 when a value is missing. */
  lemma MissingValuesAreTerminal(cfg: Orchestrator, users: seq<User>, body: CallbackBody, notifySucceeds: bool)
    requires !Truthy(body.loginRequestId) || !Truthy(body.state)
    ensures LoginPage(body.loginRequestId, body.state) == PageBadRequest(MissingQueryMessage)
    ensures LoginPageAsWritten(body.loginRequestId, body.state) == PageBadRequest(MissingQueryMessage)
    ensures Callback(cfg, users, body, notifySucceeds) == CallbackOutcome(None, BadRequest(MissingBodyMessage))
  {
  }
}
