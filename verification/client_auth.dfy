/** The client side of authentication (ClientAuthContext.tsx,
    src/types/clientAuth.ts): the login decision over the record the client
    table lookup returned, the user record built from it, and the session
    checks shared with the admin side. The lookup itself is a parameter. */
module ClientAuth {
  import opened Domain
  import opened AuthCore

  /** A signed-in client; timestamps are the stored strings. */
  datatype ClientUser = ClientUser(
    id: string,
    email: string,
    username: string,
    fullName: string,
    passwordHash: string,
    createdAt: string,
    lastLogin: Option<string>)

  /** A row of the client table; nullable columns are options. */
  datatype ClientRecord = ClientRecord(
    userId: string,
    email: string,
    username: Option<string>,
    fullName: Option<string>,
    passwordHash: Option<string>,
    createdAt: string,
    lastLogin: Option<string>)

  /** What the lookup of an active client by e-mail produced: one record, an
      error or no data, or a thrown exception. */
  datatype Lookup = Found(record: ClientRecord) | NotFound | LookupThrew

  /** One entry of `DEMO_CLIENT_CREDENTIALS`. */
  datatype DemoClient = DemoClient(email: string, username: string, password: string, fullName: string)

  const DemoClients: seq<DemoClient> := [
    DemoClient("client1@drinkph-demo.com", "client_demo1", "ClientDemo2025!", "Demo Client One"),
    DemoClient("client2@drinkph-demo.com", "client_demo2", "ClientDemo2025!", "Demo Client Two")
  ]

  const InvalidCredentials: string := "Invalid email or password. Please check your credentials."
  const LoginFailed: string := "Login failed. Please try again later."

  datatype LoginResponse = LoginResponse(success: bool, error: Option<string>, user: Option<ClientUser>)

  /** The session structure check: a non-empty id and e-mail. */
  predicate WellFormed(u: ClientUser) {
    u.id != "" && u.email != ""
  }

  /** The `a || ""` idiom on a nullable text column. */
  function OrEmpty(x: Option<string>): (r: string)
    ensures x.Some? ==> r == x.value
    ensures x.None? ==> r == ""
  {
    x.GetOr("")
  }

  /** The client record built from a table row whose password matched. */
  function UserOf(rec: ClientRecord): (u: ClientUser)
    ensures u.id == rec.userId && u.email == rec.email && u.createdAt == rec.createdAt
    ensures u.username == OrEmpty(rec.username) && u.fullName == OrEmpty(rec.fullName)
    ensures u.passwordHash == OrEmpty(rec.passwordHash)
    ensures u.lastLogin.Some? <==> rec.lastLogin.Some? && rec.lastLogin.value != ""
    ensures u.lastLogin.Some? ==> u.lastLogin == rec.lastLogin
  {
    ClientUser(rec.userId, rec.email, OrEmpty(rec.username), OrEmpty(rec.fullName),
               OrEmpty(rec.passwordHash), rec.createdAt, Truthy(rec.lastLogin))
  }

  /** The stored hash equals the typed password (a missing hash never does). */
  predicate PasswordMatches(rec: ClientRecord, password: string) {
    rec.passwordHash == Some(password)
  }

  /** `login` over the lookup result: `SET_LOADING`, `CLEAR_ERROR`, then
      either the user is stored and set, or the error is set. */
  function Login(s: AuthState<ClientUser>, storage: Storage<ClientUser>, lookup: Lookup, password: string, now: int, storageWorks: bool)
    : (out: (AuthState<ClientUser>, Storage<ClientUser>, LoginResponse))
    ensures out.2.success <==> lookup.Found? && PasswordMatches(lookup.record, password) && storageWorks
    ensures out.2.success ==>
      && out.2.user == Some(UserOf(lookup.record)) && out.2.error.None?
      && out.0.user == out.2.user && out.0.isAuthenticated && !out.0.isLoading && out.0.error.None?
      && out.1 == Stored(NewSession(UserOf(lookup.record), now))
    ensures !out.2.success ==>
      && out.2.user.None? && out.2.error.Some? && out.0.error == out.2.error
      && out.0.user == s.user && out.0.isAuthenticated == s.isAuthenticated && !out.0.isLoading
      && out.1 == storage
    ensures !out.2.success ==>
      (out.2.error == Some(LoginFailed) <==> lookup.LookupThrew? || (lookup.Found? && PasswordMatches(lookup.record, password)))
  {
    var s1 := Reduce(Reduce(s, SetLoading(true)), ClearError);
    match lookup
    case LookupThrew =>
      (Reduce(s1, SetError(Some(LoginFailed))), storage, LoginResponse(false, Some(LoginFailed), None))
    case NotFound =>
      (Reduce(s1, SetError(Some(InvalidCredentials))), storage, LoginResponse(false, Some(InvalidCredentials), None))
    case Found(rec) =>
      if !PasswordMatches(rec, password) then
        (Reduce(s1, SetError(Some(InvalidCredentials))), storage, LoginResponse(false, Some(InvalidCredentials), None))
      else
        var u := UserOf(rec);
        if storageWorks then
          (Reduce(s1, SetUser(Some(u))), Stored(NewSession(u, now)), LoginResponse(true, None, Some(u)))
        else
          (Reduce(s1, SetError(Some(LoginFailed))), storage, LoginResponse(false, Some(LoginFailed), None))
  }

  /** An unknown e-mail and a wrong password are indistinguishable: same
      state, same storage, same response. */
  lemma UnknownAndWrongPasswordAlike(s: AuthState<ClientUser>, storage: Storage<ClientUser>, rec: ClientRecord,
                                     password: string, now: int, storageWorks: bool)
    requires !PasswordMatches(rec, password)
    ensures Login(s, storage, NotFound, password, now, storageWorks) == Login(s, storage, Found(rec), password, now, storageWorks)
  {
  }

  /** `checkAuth` for the client session. */
  function CheckClient(s: AuthState<ClientUser>, storage: Storage<ClientUser>, now: int): (out: (AuthState<ClientUser>, Storage<ClientUser>))
    ensures Restores(storage, now, WellFormed) ==> out.0.user == storage.session.user && out.0.isAuthenticated && out.1 == storage
    ensures !Restores(storage, now, WellFormed) ==> out.0.user == s.user && out.1 == NoSession
  {
    CheckAuth(s, storage, now, (u: ClientUser) => WellFormed(u))
  }

  /** A successful login followed by a reload within 24 hours restores the
      client exactly when the table row has a non-empty user id and e-mail;
      a row without them signs in once but is not restored. */
  lemma LoginThenReload(s: AuthState<ClientUser>, storage: Storage<ClientUser>, rec: ClientRecord, password: string,
                        login: nat, later: int)
    requires PasswordMatches(rec, password)
    requires later <= login + SessionLifetime
    ensures var afterLogin := Login(s, storage, Found(rec), password, login, true);
      var reload := CheckClient(Initial(), afterLogin.1, later);
      afterLogin.2.success &&
      (reload.0.isAuthenticated <==> rec.userId != "" && rec.email != "")
  {
  }

  /** `logout` then a reload: nobody is signed in. */
  lemma LogoutThenReload(s: AuthState<ClientUser>, now: int)
    ensures var out := SignOut(s);
      !CheckClient(out.0, out.1, now).0.isAuthenticated
  {
    SignOutThenCheckAuth(s, now, (u: ClientUser) => WellFormed(u));
  }
}
