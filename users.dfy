/** The credential store: the seeded user table, the local strategy's
    exact-match credential check, and the session's user-id round trip
    (serialize on login, deserialize on each request). */
module Users {
  import opened Js

  datatype User = User(id: string, username: string, password: string, name: string, email: string)

  /** The users the server starts with; there is no way to add or change one. */
  const SeedUsers: seq<User> := [
    User("1", "alice", "password123", "Alice Smith", "alice@example.com"),
    User("2", "bob", "password456", "Bob Jones", "bob@example.com")
  ]

  /** Credentials match by plain string equality of both fields. */
  predicate HasCredentials(u: User, username: string, password: string) {
    u.username == username && u.password == password
  }

  ghost predicate UniqueIds(users: seq<User>) {
    forall i, j :: 0 <= i < |users| && 0 <= j < |users| && users[i].id == users[j].id ==> i == j
  }

  ghost predicate UniqueUsernames(users: seq<User>) {
    forall i, j :: 0 <= i < |users| && 0 <= j < |users| && users[i].username == users[j].username ==> i == j
  }

  const InvalidCredentials: string := "Invalid credentials"

  /** What the local strategy's verify callback reports. */
  datatype Verdict = Authenticated(user: User) | Rejected(message: string)

  /** The local strategy's verify callback: the first user with exactly this
      username and exactly this password, or a rejection whose message is the
      same whichever field was wrong. */
  function LocalVerify(users: seq<User>, username: string, password: string): (v: Verdict)
    ensures v.Authenticated? <==> exists u :: u in users && HasCredentials(u, username, password)
    ensures v.Authenticated? ==> v.user in users && HasCredentials(v.user, username, password)
    ensures v.Rejected? ==> v == Rejected(InvalidCredentials)
  {
    match Find(users, (u: User) => HasCredentials(u, username, password))
    case Some(u) => Authenticated(u)
    case None => Rejected(InvalidCredentials)
  }

  /** The credential check as the strategy runs it on a submitted form: a
      missing or empty username or password fails before any lookup. */
  function CheckCredentials(users: seq<User>, username: Option<string>, password: Option<string>): (r: Option<User>)
    ensures r.Some? <==> Truthy(username) && Truthy(password) &&
                         exists u :: u in users && HasCredentials(u, username.value, password.value)
    ensures r.Some? ==> r.value in users && HasCredentials(r.value, username.value, password.value)
  {
    if !Truthy(username) || !Truthy(password) then None
    else match LocalVerify(users, username.value, password.value)
      case Authenticated(u) => Some(u)
      case Rejected(_) => None
  }

  /** With unique usernames, a user's own credentials always select that user. */
  lemma CredentialsSelectUser(users: seq<User>, k: nat)
    requires UniqueUsernames(users) && k < |users|
    ensures LocalVerify(users, users[k].username, users[k].password) == Authenticated(users[k])
  {
    var p := (u: User) => HasCredentials(u, users[k].username, users[k].password);
    FindUnique(users, p, k);
  }

  /** The session stores only the user's id. */
  function SerializeUser(u: User): string {
    u.id
  }

  /** Turns the id kept in the session back into a user; an id that names no
      user leaves the request unauthenticated. */
  function DeserializeUser(users: seq<User>, id: string): (r: Option<User>)
    ensures r.Some? <==> exists u :: u in users && u.id == id
    ensures r.Some? ==> r.value in users && r.value.id == id
  {
    Find(users, (u: User) => u.id == id)
  }

  /** `req.user` for a request whose session holds `stored` (`None`: no
      session, or one that never logged in or was logged out). */
  function SessionUser(users: seq<User>, stored: Option<string>): Option<User> {
    if stored.Some? then DeserializeUser(users, stored.value) else None
  }

  /** The answer to `POST /auth/login`. */
  datatype LoginOutcome =
    | LoggedIn(session: string, id: string, name: string)  // the session now holds `session`
    | LoginRejected                                        // answered by the strategy's failure response

  function Login(users: seq<User>, username: Option<string>, password: Option<string>): (r: LoginOutcome)
    ensures r.LoggedIn? <==> CheckCredentials(users, username, password).Some?
    ensures r.LoggedIn? ==> exists u :: u in users && HasCredentials(u, username.value, password.value) &&
                                        r == LoggedIn(u.id, u.id, u.name)
  {
    match CheckCredentials(users, username, password)
    case Some(u) => LoggedIn(SerializeUser(u), u.id, u.name)
    case None => LoginRejected
  }

  /** After a successful login, every later request of that session resolves
      to the user who logged in (user ids are unique). */
  lemma LoginThenSession(users: seq<User>, username: Option<string>, password: Option<string>)
    requires UniqueIds(users)
    requires Login(users, username, password).LoggedIn?
    ensures var u := CheckCredentials(users, username, password).value;
            SessionUser(users, Some(Login(users, username, password).session)) == Some(u)
  {
    var u := CheckCredentials(users, username, password).value;
    var k :| 0 <= k < |users| && users[k] == u;
    FindUnique(users, (v: User) => v.id == u.id, k);
  }

  lemma SeedUsersAreUnique()
    ensures UniqueIds(SeedUsers) && UniqueUsernames(SeedUsers)
  {
  }

  /** The two seeded accounts sign in as themselves; any other pair is rejected. */
  lemma SeedLogins(username: string, password: string)
    ensures LocalVerify(SeedUsers, "alice", "password123") == Authenticated(SeedUsers[0])
    ensures LocalVerify(SeedUsers, "bob", "password456") == Authenticated(SeedUsers[1])
    ensures (username, password) != ("alice", "password123") && (username, password) != ("bob", "password456") ==>
              LocalVerify(SeedUsers, username, password) == Rejected(InvalidCredentials)
  {
    SeedUsersAreUnique();
    CredentialsSelectUser(SeedUsers, 0);
    CredentialsSelectUser(SeedUsers, 1);
  }
}
