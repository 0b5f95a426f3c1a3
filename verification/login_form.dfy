/** The two sign-in forms, AdminLogin.tsx and ClientLogin.tsx, which share
    their rules: when the submit button is enabled, the `handleSubmit` guard
    and the normalisation of what is sent to `login`, the reset of the
    submitting flag, and the demo-credential buttons. */
module LoginForm {
  import opened Text
  import opened Domain
  import AdminAuth
  import AuthCore
  import ClientAuth

  /** The form's two inputs, also what `login` receives. */
  datatype Credentials = Credentials(email: string, password: string)

  /** `isFormValid`: a non-blank e-mail and a password of six UTF-16 code
      units or more. */
  predicate IsFormValid(f: Credentials) {
    Trim(f.email) != [] && Utf16Length(f.password) >= 6
  }

  /** The submit button's `disabled` attribute, negated. */
  predicate SubmitEnabled(f: Credentials, isSubmitting: bool, isLoading: bool) {
    IsFormValid(f) && !isSubmitting && !isLoading
  }

  /** What `login` is called with: the e-mail trimmed and lower-cased, the
      password verbatim. */
  function Normalise(f: Credentials): (c: Credentials)
    ensures c.password == f.password
    ensures |c.email| <= |f.email|
    ensures c.email == [] <==> AllSpace(f.email)
    ensures forall i :: 0 <= i < |c.email| ==> !('A' <= c.email[i] <= 'Z')
  {
    Credentials(Lower(Trim(f.email)), f.password)
  }

  /** Normalising twice is normalising once. */
  lemma NormaliseIdempotent(f: Credentials)
    ensures Normalise(Normalise(f)) == Normalise(f)
  {
    var t := Trim(f.email);
    var l := Lower(t);
    if l != [] {
      assert IsSpace(l[0]) <==> IsSpace(t[0]);
      assert IsSpace(l[|l| - 1]) <==> IsSpace(t[|t| - 1]);
    }
    TrimUnpadded(l);
    LowerIdempotent(t);
  }

  /** One press of submit: what was sent to `login`, if anything, and the
      submitting flag afterwards. */
  datatype Attempt = Attempt(sent: Option<Credentials>, isSubmitting: bool)

  /** `handleSubmit`: nothing happens when either raw input is empty;
      otherwise `login` receives the normalised credentials and, whatever
      it returns or throws, the submitting flag ends false. */
  function HandleSubmit(f: Credentials, isSubmitting: bool): (r: Attempt)
    ensures r.sent.None? <==> f.email == "" || f.password == ""
    ensures r.sent.None? ==> r.isSubmitting == isSubmitting
    ensures r.sent.Some? ==> r.sent.value == Normalise(f) && !r.isSubmitting
  {
    if f.email == "" || f.password == "" then Attempt(None, isSubmitting)
    else Attempt(Some(Normalise(f)), false)
  }

  /** An enabled button always gets past the guard; the guard alone lets
      through a blank e-mail that the button would refuse. */
  lemma GuardWeakerThanButton(f: Credentials, isSubmitting: bool)
    ensures IsFormValid(f) ==> HandleSubmit(f, isSubmitting).sent.Some?
    ensures var blank := Credentials(" ", "secret");
      !IsFormValid(blank) && HandleSubmit(blank, isSubmitting).sent == Some(Credentials("", "secret"))
  {
    assert AllSpace(" ");
    assert Lower("") == "";
  }

  // ---------------------------------------------------------------- demo buttons

  /** The admin form's `fillDemoCredentials`. */
  function FillAdminDemo(): (f: Credentials)
    ensures f == Credentials(AdminAuth.DemoEmail, AdminAuth.DemoPassword)
    ensures IsFormValid(f)
  {
    var e := AdminAuth.DemoEmail;
    assert e[0] == 'a' && e[|e| - 1] == 'm';
    TrimUnpadded(e);
    Credentials(e, AdminAuth.DemoPassword)
  }

  /** The client form's `fillDemoCredentials(index)`; the page only offers
      the two listed accounts. */
  function FillClientDemo(index: int): (f: Credentials)
    requires 0 <= index < |ClientAuth.DemoClients|
    ensures f.email == ClientAuth.DemoClients[index].email && f.password == ClientAuth.DemoClients[index].password
    ensures IsFormValid(f)
  {
    var e := ClientAuth.DemoClients[index].email;
    assert e[0] == 'c' && e[|e| - 1] == 'm';
    TrimUnpadded(e);
    Credentials(e, ClientAuth.DemoClients[index].password)
  }

  /** Lower-casing agrees with a character-by-character target. */
  lemma LowerMatches(s: string, t: string)
    requires |s| == |t|
    requires forall i :: 0 <= i < |s| ==> LowerChar(s[i]) == t[i]
    ensures Lower(s) == t
  {
  }

  /** An address typed with whitespace padding and any capitals normalises
      to its lower-case form. */
  lemma PaddedNormalises(w1: string, typed: string, w2: string, password: string, target: string)
    requires AllSpace(w1) && AllSpace(w2)
    requires typed != [] && !IsSpace(typed[0]) && !IsSpace(typed[|typed| - 1])
    requires |typed| == |target| && forall i :: 0 <= i < |typed| ==> LowerChar(typed[i]) == target[i]
    ensures Normalise(Credentials(w1 + typed + w2, password)) == Credentials(target, password)
  {
    TrimPadded(w1, typed, w2);
    LowerMatches(typed, target);
  }

  /** The demo address is already in normal form. */
  lemma DemoEmailNormal()
    ensures Normalise(FillAdminDemo()) == FillAdminDemo()
  {
    var e := AdminAuth.DemoEmail;
    assert e[0] == 'a' && e[|e| - 1] == 'm';
    TrimUnpadded(e);
    LowerMatches(e, e);
  }

  /** The filled-in demo admin form signs in. */
  lemma FilledDemoSignsIn(s: AuthCore.AuthState<AdminAuth.AdminUser>, storage: AuthCore.Storage<AdminAuth.AdminUser>, now: nat)
    ensures var c := HandleSubmit(FillAdminDemo(), false).sent.value;
      AdminAuth.Login(s, storage, c.email, c.password, now, true).2.success
  {
    DemoEmailNormal();
  }

  /** The demo address typed with surrounding spaces and capitals
      normalises to the demo address. */
  lemma TypedDemoNormalises()
    ensures Normalise(Credentials(" " + "Admin@DrinkPH-Demo.com" + " ", AdminAuth.DemoPassword)) ==
            Credentials(AdminAuth.DemoEmail, AdminAuth.DemoPassword)
  {
    var typed := "Admin@DrinkPH-Demo.com";
    assert AllSpace(" ");
    assert typed[0] == 'A' && typed[|typed| - 1] == 'm';
    PaddedNormalises(" ", typed, " ", AdminAuth.DemoPassword, AdminAuth.DemoEmail);
  }

  /** The demo address typed with surrounding spaces and capitals signs in. */
  lemma PaddedDemoSignsIn(s: AuthCore.AuthState<AdminAuth.AdminUser>, storage: AuthCore.Storage<AdminAuth.AdminUser>, now: nat)
    ensures var c := HandleSubmit(Credentials(" " + "Admin@DrinkPH-Demo.com" + " ", AdminAuth.DemoPassword), false).sent.value;
      AdminAuth.Login(s, storage, c.email, c.password, now, true).2.success
  {
    TypedDemoNormalises();
  }
}
