/** What AuthContext.tsx and ClientAuthContext.tsx share, written once and
    generic over the user record: the reducer and its initial state, and the
    session kept in browser storage with its expiry and structure checks.
    Storage is a value passed in and returned; the clock is a parameter. */
module AuthCore {
  import opened Domain

  // ---------------------------------------------------------------- reducer

  datatype AuthState<U> = AuthState(
    user: Option<U>,
    isAuthenticated: bool,
    isLoading: bool,
    error: Option<string>)

  datatype Action<U> =
    | SetLoading(loading: bool)
    | SetUser(payload: Option<U>)
    | SetError(message: Option<string>)
    | ClearError
    | Logout

  /** `initialState`: nobody signed in, still loading. */
  function Initial<U>(): (s: AuthState<U>)
    ensures s.user.None? && !s.isAuthenticated && s.isLoading && s.error.None?
  {
    AuthState(None, false, true, None)
  }

  /** The state `LOGOUT` produces. */
  function LoggedOut<U>(): (s: AuthState<U>)
    ensures s.user.None? && !s.isAuthenticated && !s.isLoading && s.error.None?
  {
    AuthState(None, false, false, None)
  }

  /** The flag agrees with the presence of a user. */
  predicate Consistent<U>(s: AuthState<U>) {
    s.isAuthenticated <==> s.user.Some?
  }

  /** `authReducer` (and `clientAuthReducer`, which is identical). */
  function Reduce<U>(s: AuthState<U>, a: Action<U>): (r: AuthState<U>)
    ensures a.SetLoading? ==>
      r.isLoading == a.loading && r.user == s.user && r.isAuthenticated == s.isAuthenticated && r.error == s.error
    ensures a.SetUser? ==>
      r.user == a.payload && (r.isAuthenticated <==> a.payload.Some?) && !r.isLoading && r.error.None?
    ensures a.SetError? ==>
      r.error == a.message && !r.isLoading && r.user == s.user && r.isAuthenticated == s.isAuthenticated
    ensures a.ClearError? ==>
      r.error.None? && r.user == s.user && r.isAuthenticated == s.isAuthenticated && r.isLoading == s.isLoading
    ensures a.Logout? ==> r == LoggedOut()
  {
    match a
    case SetLoading(loading) => s.(isLoading := loading)
    case SetUser(payload) => s.(user := payload, isAuthenticated := payload.Some?, isLoading := false, error := None)
    case SetError(message) => s.(error := message, isLoading := false)
    case ClearError => s.(error := None)
    case Logout => AuthState(None, false, false, None)
  }

  /** Dispatches the actions in order. */
  function ReduceAll<U>(s: AuthState<U>, actions: seq<Action<U>>): (r: AuthState<U>)
    decreases |actions|
  {
    if actions == [] then s else ReduceAll(Reduce(s, actions[0]), actions[1..])
  }

  /** Every action keeps the flag and the user in agreement. */
  lemma ReducePreservesConsistency<U>(s: AuthState<U>, a: Action<U>)
    requires Consistent(s)
    ensures Consistent(Reduce(s, a))
  {
  }

  /** Any run of actions from a consistent state stays consistent; in
      particular every state reachable from `initialState` is. */
  lemma {:induction false} ReduceAllPreservesConsistency<U>(s: AuthState<U>, actions: seq<Action<U>>)
    requires Consistent(s)
    ensures Consistent(ReduceAll(s, actions))
    decreases |actions|
  {
    if actions != [] {
      ReducePreservesConsistency(s, actions[0]);
      ReduceAllPreservesConsistency(Reduce(s, actions[0]), actions[1..]);
    }
  }

  /** Dispatching two runs one after the other is dispatching their
      concatenation. */
  lemma {:induction false} ReduceAllConcat<U>(s: AuthState<U>, xs: seq<Action<U>>, ys: seq<Action<U>>)
    ensures ReduceAll(s, xs + ys) == ReduceAll(ReduceAll(s, xs), ys)
    decreases |xs|
  {
    if xs != [] {
      assert (xs + ys)[0] == xs[0];
      assert (xs + ys)[1..] == xs[1..] + ys;
      ReduceAllConcat(Reduce(s, xs[0]), xs[1..], ys);
    } else {
      assert xs + ys == ys;
    }
  }

  /** `LOGOUT` forgets everything: whatever came before, the state after it
      is the same. */
  lemma LogoutForgets<U>(s: AuthState<U>, t: AuthState<U>)
    ensures Reduce(s, Logout) == Reduce(t, Logout)
  {
  }

  // ---------------------------------------------------------------- sessions

  /** A session lasts 24 hours, in milliseconds. */
  const SessionLifetime: int := 24 * 60 * 60 * 1000

  /** The stored session record; every part may be missing from what the
      storage holds. Timestamps are milliseconds. */
  datatype Session<U> = Session(user: Option<U>, timestamp: Option<int>, expires: Option<int>)

  /** The storage slot: empty, holding text that does not parse, or holding
      a parsed session. */
  datatype Storage<U> = NoSession | Unreadable | Stored(session: Session<U>)

  /** The session written on a successful login at `now`. */
  function NewSession<U>(user: U, now: int): (s: Session<U>)
    ensures s.user == Some(user)
    ensures s.timestamp.Some? && s.expires.Some? && s.expires.value - s.timestamp.value == SessionLifetime
  {
    Session(Some(user), Some(now), Some(now + SessionLifetime))
  }

  /** `parsed.expires && Date.now() > parsed.expires`: a missing or zero
      expiry never expires, and the comparison is strict. */
  predicate Expired(expires: Option<int>, now: int) {
    expires.Some? && expires.value != 0 && now > expires.value
  }

  /** `checkAuth`, given the check every user record must pass (`wellFormed`:
      a non-empty id and e-mail). Returns the new state and storage. */
  function CheckAuth<U>(s: AuthState<U>, storage: Storage<U>, now: int, wellFormed: U -> bool): (out: (AuthState<U>, Storage<U>))
    ensures !out.0.isLoading
    ensures out.1 == storage || out.1 == NoSession
    ensures Restores(storage, now, wellFormed) ==>
      out.0.user == storage.session.user && out.0.isAuthenticated && out.0.error.None? && out.1 == storage
    ensures !Restores(storage, now, wellFormed) ==> out == (s.(isLoading := false), NoSession)
  {
    match storage
    case NoSession => (Reduce(s, SetLoading(false)), NoSession)
    case Unreadable => (Reduce(s, SetLoading(false)), NoSession)
    case Stored(session) =>
      if Expired(session.expires, now) then (Reduce(s, SetLoading(false)), NoSession)
      else if session.user.Some? && wellFormed(session.user.value) then (Reduce(s, SetUser(session.user)), storage)
      else (Reduce(s, SetLoading(false)), NoSession)
  }

  /** The storage holds an unexpired session with a well-formed user. */
  predicate Restores<U>(storage: Storage<U>, now: int, wellFormed: U -> bool) {
    && storage.Stored?
    && !Expired(storage.session.expires, now)
    && storage.session.user.Some?
    && wellFormed(storage.session.user.value)
  }

  /** A session written at `login` brings its user back on the mount-time
      `checkAuth` exactly while the 24 hours have not run out. */
  lemma SessionRoundTrip<U>(user: U, login: nat, now: int, wellFormed: U -> bool)
    requires wellFormed(user)
    ensures var out := CheckAuth(Initial(), Stored(NewSession(user, login)), now, wellFormed);
      (out.0.user == Some(user) && out.0.isAuthenticated) <==> now <= login + SessionLifetime
  {
  }

  /** The session is still good at the exact expiry instant. */
  lemma ExpiryIsStrict(expires: int)
    ensures !Expired(Some(expires), expires)
    ensures expires != 0 ==> Expired(Some(expires), expires + 1)
  {
  }

  /** `logout`: storage cleared, logged-out state. */
  function SignOut<U>(s: AuthState<U>): (out: (AuthState<U>, Storage<U>))
    ensures !out.0.isAuthenticated && out.0.user.None? && !out.0.isLoading && out.0.error.None?
    ensures out.1 == NoSession
  {
    (Reduce(s, Logout), NoSession)
  }

  /** After `logout` a `checkAuth` at any time finds nothing to restore. */
  lemma SignOutThenCheckAuth<U>(s: AuthState<U>, now: int, wellFormed: U -> bool)
    ensures var out := SignOut(s);
      CheckAuth(out.0, out.1, now, wellFormed) == (LoggedOut(), NoSession)
  {
  }
}
