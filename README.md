# Todo app with bring-your-own-auth: a Dafny model

This project models the core of a small Express server (`server.js`). The server keeps a table of
users and a shared list of todos. Callers reach the todo API in one of two ways: a service presents a
static API key (and may name a user in `x-user-id`), or a browser presents a logged-in session. The
server also lets an external identity orchestrator (Scalekit) delegate its sign-in screen to this app.
This is the "bring your own auth" (BYOA) handshake:

1. The orchestrator sends the browser to `/auth/mcp-login` with a `login_request_id` and a `state`.
2. The page's form carries both values back as hidden fields.
3. The callback checks the submitted credentials. On failure it shows a "try again" link. On success it
   tells the orchestrator who signed in, then redirects the browser back to it.

The model has eight modules, one file each:

- `Js`: the JavaScript semantics the code relies on. An unset or empty string is falsy.
  `${undefined}` renders as `"undefined"`. It also defines `findIndex` and `find`.
- `Users`: the seeded user table and the local strategy's exact-match credential check. It also
  covers the session's id round trip (serialize / deserialize) and `POST /auth/login`.
- `Auth`: the configured API key and `ensureAuth`. `ensureAuth` is a fixed-precedence decision: a
  present key decides alone, and only without one is the session consulted.
- `Uri`: `encodeURIComponent` and `decodeURIComponent`, with full UTF-8, as ECMA-262 section 19.2.6
  defines them. It also holds a minimal query-string reader, enough to state what a browser following a
  link sends back.
- `Html`: how a value written into a hidden input `value="..."` comes back when the form is submitted.
  The browser model follows the HTML Living Standard on this path: the parser's input preprocessing
  turns CR LF and lone CR into LF, a double-quoted attribute value ends at the next `"` and has its
  U+0000 replaced by U+FFFD, character references are decoded, and form submission writes every line
  break as CR LF. `Html.FormValue` is what the server then receives for a value.
- `Byoa`: the sign-in page and the callback's decision, including the retry link and the redirect URL.
  It also has lemmas about the whole handshake.
- `Todos`: the todo record, the owner filter `OwnedBy`, and the owner-scoped lookup. The `TodoStore`
  class holds the list as a `seq<Todo>`, which its methods reassign.
- `Api`: the four `/api/todos` routes. Each runs `ensureAuth` first and calls the handler with the
  resolved user id.

The orchestrator call `updateLoginUserDetails` is an input to the callback: whether it succeeded. The
request it would send is part of the callback's output, so "nobody was notified" can be stated. A
session is given as the id it stores, or as the user it resolved to. The generated UUID is a parameter
of `Create`.

Where the code and the design description differ, the model follows the code:

- An unset orchestrator URL or connection id is interpolated as the text `undefined` into the redirect
  URL, and the unset connection id is passed as such to the orchestrator call (`Byoa.PartnerCallback`,
  `Byoa.NotifyRequest`).
- `PUT /api/todos/:id` accepts an empty title, because it only tests `!== undefined`. `POST` rejects
  one, because it tests `!title`.
- The second rejection message is "Authentication required".

## Model

| member | source | states |
|---|---|---|
| `Js.FindIndex` | server.js:280-282 | the index returned is the first element satisfying the predicate; none is returned only when no element satisfies it |
| `Js.Find` | server.js:267-269 | an element is found iff some element satisfies the predicate; the one found satisfies it and no earlier element does |
| `Users.LocalVerify` | server.js:76-82 | authenticated iff some user has exactly that username and exactly that password, and it returns such a user; every rejection is the same `Invalid credentials`, whichever field was wrong |
| `Users.CheckCredentials` | server.js:195-199 | a user comes back iff both submitted fields are non-empty and some user has exactly those credentials |
| `Users.CredentialsSelectUser` | server.js:77-79 | with unique usernames, a user's own username and password select exactly that user |
| `Users.DeserializeUser` | server.js:87-90 | a user comes back iff some user has that id, and it has that id |
| `Users.Login` | server.js:120-122 | login succeeds iff the credentials check succeeds; the session then stores the user's id, and the reply carries that user's id and name |
| `Users.LoginThenSession` | server.js:85-90 | with unique ids, the session stored by a successful login resolves back to the user who logged in |
| `Users.SeedLogins` | server.js:36-39 | the two seeded accounts sign in as themselves and every other username/password pair is rejected |
| `Users.SeedUsersAreUnique` | server.js:36-39 | the seeded users have unique ids and unique usernames |
| `Auth.ConfiguredApiKey` | server.js:11 | the key is the environment's value when set and non-empty, otherwise `demo-api-key-12345`; never empty |
| `Auth.EnsureAuth` | server.js:96-114 | a present key that differs from the configured key gives `InvalidApiKey` whatever the session; the right key gives the `x-user-id` header if non-empty, else `"1"`; with no key the session user's id, or `AuthenticationRequired` |
| `Auth.SessionIgnoredWithApiKey` | server.js:98-105 | with a key header present, the decision does not depend on the session at all |
| `Auth.UserHeaderIgnoredWithoutApiKey` | server.js:107-113 | without a key header, `x-user-id` plays no part |
| `Auth.EmptyHeadersAreAbsent` | server.js:98-103 | an empty `x-api-key` or `x-user-id` header is the same as no header |
| `Auth.AuthorizedIdentitySource` | server.js:103-110 | an authorized id is the asserted header or `"1"` after the right key, or the session user's id when there is no key |
| `Auth.LoggedInBrowserIsAuthorized` | server.js:108-110 | a browser that logged in and sends no key is authorized as the user who logged in |
| `Uri.EncodeURIComponent` | server.js:212 | text of unreserved characters only is left as it is; the output is never shorter than the input |
| `Uri.DecodeEncode` | server.js:212 | `decodeURIComponent(encodeURIComponent(s)) == s` for every string |
| `Uri.EncodedAlphabet` | server.js:212 | encoded text holds only unreserved characters and `%`, so it cannot contain `&`, `=`, `+` or `?` |
| `Uri.TwoParamQuery` | server.js:212 | a query `k1=enc(v1)&k2=enc(v2)` reads back `v1` for `k1` and `v2` for `k2` |
| `Uri.OneParamQuery` | server.js:230 | a query `k=enc(v)` reads back `v` for `k` |
| `Html.UnescapeEscape` | server.js:172-173 | decoding character references undoes the attribute escaping |
| `Html.HiddenInputRoundTrip` | server.js:172-173 | the escaped hidden input makes the browser submit the value written into it, with only the normalization every form field undergoes (`FormValue`) |
| `Html.FormValuePlain` | server.js:172-173 | a value without CR, LF and U+0000 reaches the server exactly as it is |
| `Html.CrlfNewlinesAbsorbs` | server.js:172-173 | the parser's newline preprocessing leaves no trace once submission has normalized line breaks |
| `Html.NormalizeNewlinesEscape` | server.js:172-173 | escaping keeps the line breaks of the text, so preprocessing commutes with it |
| `Html.HiddenInputAsWrittenCut` | server.js:172-173 | as written, the attribute value read from one hidden input on its own is the part of the value before its first `"` |
| `Html.HiddenInputAsWrittenTruncates` | server.js:172-173 | as written, the page given `state` = `a"b` makes the browser submit `a` |
| `Html.HiddenInputAsWrittenPlain` | server.js:172-173 | as written, a value holding neither `"` nor `&` is submitted with only the normalization every form field undergoes |
| `Byoa.LoginPage` | server.js:137-143 | the corrected page: status 400 iff `login_request_id` or `state` is missing or empty; otherwise both hidden inputs submit back the values received, normalized as every form field is |
| `Byoa.LoginPageAsWritten` | server.js:137-186 | the page as the source sends it: status 400 iff a value is missing or empty; otherwise the attribute value of each hidden input, read on its own, is the part of its value before the first `"`, and it submits that part itself (normalized) when it holds no `&` |
| `Byoa.Callback` | server.js:188-237 | 400 iff a value is missing; a retry page iff the values are present and the credentials fail, with the link built from those same values; the orchestrator is notified iff the credentials succeed, with (connection id, `login_request_id`, user id, email); redirect iff notified and the call succeeded; 500 iff notified and it failed |
| `Byoa.RetryLinkRoundTrip` | server.js:212 | following the retry link gives the sign-in page exactly the `login_request_id` and `state` the callback received |
| `Byoa.RedirectCarriesState` | server.js:229-231 | the redirect's query gives the orchestrator back exactly the `state` it issued |
| `Byoa.HandshakeCompletes` | server.js:188-231 | with the corrected page: sign-in page, then form submission with the right credentials, then a successful notify: the orchestrator is told the submitted `login_request_id` and the user's id and email, and the browser is redirected with the submitted `state`; for values without CR, LF and U+0000 these are the original values |
| `Byoa.HandshakeCompletesAsWritten` | server.js:172-231 | with the page as the source sends it, the same handshake completes alike when neither value holds `"` or `&` |
| `Byoa.SubmittedFormSignsIn` | server.js:195-231 | a form that submits the two values back, sent with the right credentials and followed by a successful notify, tells the orchestrator the user and redirects with the submitted `state` |
| `Byoa.RetryReturnsToSameForm` | server.js:199-214 | after wrong credentials, the retry link leads back to the same sign-in form, both for the page as written and for the corrected one |
| `Byoa.MissingValuesAreTerminal` | server.js:137-193 | a missing value gives 400 on both endpoints (for the page, as written and corrected), with no credential check and no notify |
| `Todos.OwnedByMembers` | server.js:245 | the caller's list holds every todo the caller owns and no other todo |
| `Todos.OwnedByAppend` | server.js:245 | the filter distributes over concatenation, so list order is kept |
| `Todos.OwnedByAppendOther` | server.js:261 | appending a todo leaves every other user's list unchanged |
| `Todos.OwnedByReplace` | server.js:273-274 | changing one todo in place leaves every other user's list unchanged |
| `Todos.OwnedByRemove` | server.js:286 | removing a todo leaves every other user's list unchanged |
| `Todos.NewTodoId` | server.js:256 | the id is `todo-` followed by the first eight characters of the UUID (all of it when shorter) |
| `Todos.Patched` | server.js:272-274 | a patch never changes the id or the owner; each field it provides replaces the old one, and each it omits is kept |
| `Todos.FindOwned` | server.js:267-269 | the position found holds a todo with that id owned by the caller; nothing is found iff no such todo exists |
| `Todos.FindOwnedById` | server.js:267-271 | with unique ids, a todo is found for the caller iff the caller owns it |
| `Todos.ForeignTodoIsNotFound` | server.js:267-285 | another user's todo is neither listed nor found for update or delete |
| `Todos.TodoStore.constructor` | server.js:41-50 | the store starts with the three seeded todos, with unique ids |
| `Todos.TodoStore.List` | server.js:244-247 | returns exactly the caller's todos in list order, all owned by the caller |
| `Todos.TodoStore.Create` | server.js:250-263 | a missing or empty title gives 400 and no change; otherwise one todo `{id, title, completed: false, userId: caller}` is appended; other users' lists are unchanged; ids stay unique |
| `Todos.TodoStore.Update` | server.js:266-276 | when not found for the caller: 404, no change; otherwise only that entry changes, and only in the fields provided; other users' lists are unchanged; a todo with that id is found iff the caller owns it |
| `Todos.TodoStore.Delete` | server.js:279-288 | when not found for the caller: 404, no change; otherwise exactly that entry is removed and returned; other users' lists are unchanged; a todo with that id is found iff the caller owns it |
| `Api.ListTodos` | server.js:244-247 | with the key configured by the environment: denied iff the gateway rejects, with its message; otherwise exactly the resolved user's todos |
| `Api.CreateTodo` | server.js:250-263 | denied iff the gateway rejects, with its message and the store unchanged; otherwise the create handler acting as the resolved user |
| `Api.UpdateTodo` | server.js:266-276 | denied iff the gateway rejects, with its message and the store unchanged; otherwise the update handler acting as the resolved user, which finds a todo with that id iff that user owns it |
| `Api.DeleteTodo` | server.js:279-288 | denied iff the gateway rejects, with its message and the store unchanged; otherwise the delete handler acting as the resolved user, which finds a todo with that id iff that user owns it |

## Findings

| source | as written | input that shows it | evidently intended | confidence | as-written member | corrected member |
|---|---|---|---|---|---|---|
| server.js:172-173 | `login_request_id` and `state` are interpolated unescaped into `value="..."` of the hidden inputs | `state` = `a"b`: the attribute ends at the inner quote and the browser submits `a` (the rest of the value can also inject markup) | the form echoes both values unchanged, so the values must be HTML-escaped | medium; not executed | `Html.HiddenInputAsWrittenTruncates` | `Html.HiddenInputRoundTrip` |

At the endpoint, `Byoa.LoginPageAsWritten` is the page as the source sends it and
`Byoa.HandshakeCompletesAsWritten` the handshake through it. `Byoa.LoginPage` and
`Byoa.HandshakeCompletes` are the corrected page and handshake, with the hidden inputs written by
`Html.HiddenInput`.

## Left out

- Express routing, JSON and form body parsing, `app.listen` and `PORT`: framework plumbing.
- The session middleware (cookie, secret, 24-hour lifetime) and `passport.session()`: a session is the
  user id it stores, or the user it resolves to.
- `POST /auth/logout` (server.js:124-129): it clears what the session stores, and `Users.SessionUser`
  of an empty session is `None`. The error path `next(err)` is not modelled.
- The failure answer of `passport.authenticate("local")` on `/auth/login` (a 401, or a 400 when a field
  is missing) belongs to the library: `Users.Login` only says `LoginRejected`.
- The library's fallback of reading username and password from the query string is not modelled. The
  credentials come from the body only.
- `if (err) return next(err)` in the callback (server.js:197): the verify callback never reports an
  error, so the branch cannot be taken.
- The Scalekit client, its lazy construction, and the network call: only their success or failure
  enters, as `notifySucceeds`. A constructor that throws counts as a failure, because it runs inside the
  same `try`.
- HTML and CSS page bodies: only the two hidden inputs and the retry link are modelled.
- `Byoa.LoginPageAsWritten` says nothing about a value holding `&` before its first `"`: a browser
  decodes every named and numeric character reference there, and `Html.Unescape` knows only the five
  that `Html.Escape` writes.
- `Html.HiddenInputAsWrittenCut` and `Byoa.LoginPageAsWritten` read each hidden input on its own and
  ignore the markup after the first `"` of an unescaped value. In a browser that markup is parsed:
  it can add attributes (`a" disabled x="` disables the input, so it is not submitted and the
  callback answers 400), close the tag and add fields, or open a comment (`x"><!--`) that hides the
  other input. Only values without `"` (`Byoa.HandshakeCompletesAsWritten`) are covered completely.
- `Byoa.RedirectUrl` is the URL handed to `res.redirect` (server.js:231). Express passes it through
  the `encodeurl` package before setting `Location`, which percent-encodes a space or non-ASCII text in
  the base URL or connection id. The encoded `state` is left as it is. That step is not modelled.
- Strings are sequences of Unicode scalar values, so a JSON body carrying a lone surrogate (which
  `express.json()` accepts) is not modelled. For such a value `encodeURIComponent` throws a URIError:
  at server.js:212 outside any `try` (no answer is sent), and at server.js:230 inside it (a 500 after
  the orchestrator was notified, where `Byoa.Callback` says `Redirect`).
- `console.log` / `console.error` output, and environment loading beyond the API key.
- Values other than strings in query and body fields: arrays from repeated parameters, and JSON `null`,
  numbers or objects for `title` and `completed`. `title` is an optional string and `completed` an
  optional boolean.
- `Uri.QueryParam` is not the full query parser. On a malformed escape the real parser keeps the raw
  text, and repeated keys become arrays. The links the server builds contain neither.
- Aliasing between the stored todo objects and the objects placed in a response: each response is
  serialized at once, so it cannot be observed.
- `Todos.TodoStore.Create` requires that the new id `todo-` + 8 UUID characters is unused. The source
  does not check this, and a collision of 8 hex digits is not modelled.
- `mcp-server/server.py` is not part of this model: it only forwards tool calls over HTTP.
