/** The admin side of authentication (AuthContext.tsx, src/types/auth.ts):
    the demo credential check in `login`, the session it writes, and the
    structure check `checkAuth` applies to a stored admin. The 800 ms
    simulated delay is not modelled; `storageWorks` says whether writing the
    session succeeded. */
module AdminAuth {
  import opened Text
  import opened Domain
  import opened AuthCore

  datatype Role = Admin | SuperAdmin

  /** An admin; `createdAt` and `lastLogin` are millisecond timestamps. */
  datatype AdminUser = AdminUser(
    id: string,
    email: string,
    username: string,
    role: Role,
    createdAt: int,
    lastLogin: Option<int>)

  /** `DEMO_ADMIN_CREDENTIALS`. */
  const DemoEmail: string := "admin@drinkph-demo.com"
  const DemoUsername: string := "drinkph_admin"
  const DemoPassword: string := "DrinkPH2025!"
  const DemoDisplayName: string := "DrinkPH Admin"

  const InvalidCredentials: string := "Invalid email or password. Please check your credentials."
  const LoginFailed: string := "Login failed. Please try again later."

  datatype LoginResponse = LoginResponse(success: bool, error: Option<string>, user: Option<AdminUser>)

  /** The session structure check: a non-empty id and e-mail. */
  predicate WellFormed(u: AdminUser) {
    u.id != "" && u.email != ""
  }

  const IdPrefix: string := "demo-admin-"

  /** The admin record built at login time `now`. */
  function DemoAdmin(now: nat): (u: AdminUser)
    ensures StartsWith(u.id, IdPrefix) && u.email == DemoEmail && u.username == DemoUsername
    ensures u.role == Admin && u.createdAt == now && u.lastLogin == Some(now)
    ensures WellFormed(u)
  {
    AdminUser(IdPrefix + Decimal(now), DemoEmail, DemoUsername, Admin, now, Some(now))
  }

  /** Logins at different instants produce different ids. */
  lemma DemoAdminIdsDiffer(a: nat, b: nat)
    requires a != b
    ensures DemoAdmin(a).id != DemoAdmin(b).id
  {
    if DemoAdmin(a).id == DemoAdmin(b).id {
      var ia := DemoAdmin(a).id;
      assert ia[|IdPrefix|..] == Decimal(a);
      assert DemoAdmin(b).id[|IdPrefix|..] == Decimal(b);
      DecimalRoundTrip(a);
      DecimalRoundTrip(b);
    }
  }

  /** `login`: `SET_LOADING`, `CLEAR_ERROR`, then either the demo admin is
      stored and set as user, or the error is set. Returns the new state,
      the new storage and the response. */
  function Login(s: AuthState<AdminUser>, storage: Storage<AdminUser>, email: string, password: string, now: nat, storageWorks: bool)
    : (out: (AuthState<AdminUser>, Storage<AdminUser>, LoginResponse))
    ensures out.2.success <==> email == DemoEmail && password == DemoPassword && storageWorks
    ensures out.2.success ==>
      && out.2.user == Some(DemoAdmin(now)) && out.2.error.None?
      && out.0.user == out.2.user && out.0.isAuthenticated && !out.0.isLoading && out.0.error.None?
      && out.1 == Stored(NewSession(DemoAdmin(now), now))
    ensures !out.2.success ==>
      && out.2.user.None? && out.2.error.Some? && out.0.error == out.2.error
      && out.0.user == s.user && out.0.isAuthenticated == s.isAuthenticated && !out.0.isLoading
      && out.1 == storage
    ensures !out.2.success ==>
      (out.2.error == Some(InvalidCredentials) <==> email != DemoEmail || password != DemoPassword)
    ensures !out.2.success && email == DemoEmail && password == DemoPassword ==>
      out.2.error == Some(LoginFailed)
  {
    var s1 := Reduce(Reduce(s, SetLoading(true)), ClearError);
    if email == DemoEmail && password == DemoPassword then
      var u := DemoAdmin(now);
      if storageWorks then
        (Reduce(s1, SetUser(Some(u))), Stored(NewSession(u, now)), LoginResponse(true, None, Some(u)))
      else
        (Reduce(s1, SetError(Some(LoginFailed))), storage, LoginResponse(false, Some(LoginFailed), None))
    else
      (Reduce(s1, SetError(Some(InvalidCredentials))), storage, LoginResponse(false, Some(InvalidCredentials), None))
  }

  /** `checkAuth` for the admin session. */
  function CheckAdmin(s: AuthState<AdminUser>, storage: Storage<AdminUser>, now: int): (out: (AuthState<AdminUser>, Storage<AdminUser>))
    ensures out.0.isAuthenticated && out.0.user.Some? <==>
      (Restores(storage, now, WellFormed) || (!Restores(storage, now, WellFormed) && s.isAuthenticated && s.user.Some?))
    ensures Restores(storage, now, WellFormed) ==> out.0.user == storage.session.user && out.1 == storage
    ensures !Restores(storage, now, WellFormed) ==> out.1 == NoSession
  {
    CheckAuth(s, storage, now, (u: AdminUser) => WellFormed(u))
  }

  /** A successful login followed by a reload within 24 hours signs the same
      admin back in; after that the session is dropped. */
  lemma LoginThenReload(s: AuthState<AdminUser>, storage: Storage<AdminUser>, login: nat, later: int)
    ensures var afterLogin := Login(s, storage, DemoEmail, DemoPassword, login, true);
      var reload := CheckAdmin(Initial(), afterLogin.1, later);
      && (later <= login + SessionLifetime ==> reload.0.user == Some(DemoAdmin(login)) && reload.0.isAuthenticated)
      && (later > login + SessionLifetime ==> !reload.0.isAuthenticated && reload.1 == NoSession)
  {
    SessionRoundTrip(DemoAdmin(login), login, later, (u: AdminUser) => WellFormed(u));
  }

  /** A failed login never signs out a user who is already signed in. */
  lemma FailedLoginKeepsSession(s: AuthState<AdminUser>, storage: Storage<AdminUser>, email: string, password: string, now: nat)
    requires s.isAuthenticated && s.user.Some?
    requires email != DemoEmail
    ensures Login(s, storage, email, password, now, true).0.isAuthenticated
    ensures Login(s, storage, email, password, now, true).1 == storage
  {
  }
}
