/** The two route guards, ProtectedRoute.tsx (admin) and
    ClientProtectedRoute.tsx (client), which decide alike: a spinner while
    the session check runs, a redirect to the sign-in page remembering where
    the visitor was going, or the protected page. */
module RouteGuard {
  import opened Domain
  import opened AuthCore
  import AdminAuth
  import ClientAuth

  datatype Decision =
    | ShowSpinner
    | Redirect(to: string, from: string)
    | RenderChildren

  const AdminLoginPath: string := "/admin/login"
  const AdminHome: string := "/admin"
  const ClientLoginPath: string := "/client/login"
  const ClientHome: string := "/client"

  /** The remembered destination: the current path, except that the sign-in
      page itself is replaced by the area's home. */
  function FromPath(pathname: string, loginPath: string, home: string): (r: string)
    ensures pathname != loginPath ==> r == pathname
    ensures pathname == loginPath ==> r == home
    ensures loginPath != home ==> r != loginPath
  {
    if pathname != loginPath then pathname else home
  }

  /** The shared decision. */
  function Guard<U>(s: AuthState<U>, pathname: string, fallbackPath: string, loginPath: string, home: string): (d: Decision)
    ensures d == ShowSpinner <==> s.isLoading
    ensures d == RenderChildren <==> !s.isLoading && s.isAuthenticated && s.user.Some?
    ensures d.Redirect? ==> d.to == fallbackPath && d.from == FromPath(pathname, loginPath, home)
  {
    if s.isLoading then ShowSpinner
    else if !s.isAuthenticated || s.user.None? then Redirect(fallbackPath, FromPath(pathname, loginPath, home))
    else RenderChildren
  }

  /** `ProtectedRoute`; `fallbackPath` defaults to the admin sign-in page. */
  function AdminGuard(s: AuthState<AdminAuth.AdminUser>, pathname: string, fallbackPath: Option<string>): (d: Decision)
    ensures d == RenderChildren <==> !s.isLoading && s.isAuthenticated && s.user.Some?
    ensures fallbackPath.None? && d.Redirect? ==> d.to == AdminLoginPath && d.from != AdminLoginPath
  {
    Guard(s, pathname, fallbackPath.GetOr(AdminLoginPath), AdminLoginPath, AdminHome)
  }

  /** `ClientProtectedRoute`; `fallbackPath` defaults to the client sign-in
      page. */
  function ClientGuard(s: AuthState<ClientAuth.ClientUser>, pathname: string, fallbackPath: Option<string>): (d: Decision)
    ensures d == RenderChildren <==> !s.isLoading && s.isAuthenticated && s.user.Some?
    ensures fallbackPath.None? && d.Redirect? ==> d.to == ClientLoginPath && d.from != ClientLoginPath
  {
    Guard(s, pathname, fallbackPath.GetOr(ClientLoginPath), ClientLoginPath, ClientHome)
  }

  /** On a state reachable through the reducer the flag alone decides
      between redirect and render. */
  lemma ConsistentStateDecidesByFlag<U>(actions: seq<Action<U>>, pathname: string, fallbackPath: string, loginPath: string, home: string)
    ensures var s := ReduceAll(Initial(), actions);
      !s.isLoading ==> (Guard(s, pathname, fallbackPath, loginPath, home) == RenderChildren <==> s.isAuthenticated)
  {
    ReduceAllPreservesConsistency(Initial<U>(), actions);
  }

  /** Before the mount-time session check finishes, the guard shows the
      spinner; after the demo admin signs in it renders; after logout it
      sends the visitor to the sign-in page. */
  lemma AdminGuardLifecycle(s: AuthState<AdminAuth.AdminUser>, storage: Storage<AdminAuth.AdminUser>, pathname: string, now: nat)
    ensures AdminGuard(Initial(), pathname, None) == ShowSpinner
    ensures AdminGuard(AdminAuth.Login(s, storage, AdminAuth.DemoEmail, AdminAuth.DemoPassword, now, true).0, pathname, None) == RenderChildren
    ensures AdminGuard(SignOut(s).0, pathname, None) == Redirect(AdminLoginPath, FromPath(pathname, AdminLoginPath, AdminHome))
  {
  }
}
