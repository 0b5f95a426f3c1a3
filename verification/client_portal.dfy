/** The four-step submission wizard of ClientPortal.tsx: field edits, the
    per-step gates, submission into the stored list, the currency switch,
    and the debounced draft save, as one event-driven machine. */
module ClientPortal {
  import opened Text
  import opened Domain
  import opened Helpers
  import opened FieldValidation
  import opened AutoSave

  // ================================================================ the step-1 e-mail regex

  /** A character of the class `[^\s@]`. */
  predicate LooseChar(c: char) {
    !IsSpace(c) && c != '@'
  }

  predicate AllLoose(s: string) {
    forall i :: 0 <= i < |s| ==> LooseChar(s[i])
  }

  /** One reading of `s` as a word of /^[^\s@]+@[^\s@]+\.[^\s@]+$/. */
  ghost predicate LooseParse(s: string, user: string, host: string, tail: string) {
    && s == user + "@" + host + "." + tail
    && |user| >= 1 && AllLoose(user)
    && |host| >= 1 && AllLoose(host)
    && |tail| >= 1 && AllLoose(tail)
  }

  /** Recogniser for the step-1 regex, applied to the raw (untrimmed) input:
      one "@", no whitespace, and a "." strictly inside the part after "@". */
  predicate LooseEmail(s: string) {
    var parts := Split(s, '@');
    && |parts| == 2
    && |parts[0]| >= 1 && AllLoose(parts[0])
    && |parts[1]| >= 3 && AllLoose(parts[1])
    && '.' in parts[1][1..|parts[1]| - 1]
  }

  /** Whatever the step-1 recogniser accepts parses as the regex's word. */
  lemma LooseEmailSound(s: string)
    requires LooseEmail(s)
    ensures exists user, host, tail :: LooseParse(s, user, host, tail)
  {
    var parts := Split(s, '@');
    SplitJoin(s, '@');
    assert s == parts[0] + ['@'] + parts[1];
    var d := parts[1];
    var j :| 0 <= j < |d[1..|d| - 1]| && d[1..|d| - 1][j] == '.';
    var k := j + 1;
    assert d[k] == '.';
    var host := d[..k];
    var tail := d[k + 1..];
    assert AllLoose(host) by {
      forall i | 0 <= i < |host| ensures LooseChar(host[i]) { assert host[i] == d[i]; }
    }
    assert AllLoose(tail) by {
      forall i | 0 <= i < |tail| ensures LooseChar(tail[i]) { assert tail[i] == d[k + 1 + i]; }
    }
    assert d == host + "." + tail;
    assert s == parts[0] + "@" + host + "." + tail;
    assert LooseParse(s, parts[0], host, tail);
  }

  /** Every word of the step-1 regex is accepted by the recogniser. */
  lemma LooseEmailComplete(s: string, user: string, host: string, tail: string)
    requires LooseParse(s, user, host, tail)
    ensures LooseEmail(s)
  {
    var d := host + "." + tail;
    assert s == user + ['@'] + d;
    assert forall i :: 0 <= i < |user| ==> user[i] != '@';
    assert AllLoose(d) by {
      forall i | 0 <= i < |d|
        ensures LooseChar(d[i])
      {
        if i < |host| {
          assert d[i] == host[i];
        } else if i > |host| {
          assert d[i] == tail[i - |host| - 1];
        }
      }
    }
    SplitConcat(user, d, '@');
    SplitWithoutSeparator(user, '@');
    SplitWithoutSeparator(d, '@');
    assert d[1..|d| - 1][|host| - 1] == '.';
  }

  /** The recogniser accepts exactly the words of the step-1 regex. */
  lemma LooseEmailIff(s: string)
    ensures LooseEmail(s) <==> exists user, host, tail :: LooseParse(s, user, host, tail)
  {
    if LooseEmail(s) {
      LooseEmailSound(s);
    }
    if exists user, host, tail :: LooseParse(s, user, host, tail) {
      var user, host, tail :| LooseParse(s, user, host, tail);
      LooseEmailComplete(s, user, host, tail);
    }
  }

  /** Input the step-1 regex accepts contains no whitespace at all. */
  lemma LooseEmailHasNoSpace(s: string)
    ensures LooseEmail(s) ==> NoSpace(s)
  {
    if LooseEmail(s) {
      var parts := Split(s, '@');
      SplitJoin(s, '@');
      assert s == parts[0] + ['@'] + parts[1];
      forall i | 0 <= i < |s|
        ensures !IsSpace(s[i])
      {
        if i < |parts[0]| {
          assert s[i] == parts[0][i];
        } else if i > |parts[0]| {
          assert s[i] == parts[1][i - |parts[0]| - 1];
        }
      }
    }
  }

  /** A blank address fails the step-1 regex. */
  lemma BlankFailsLoose(s: string)
    ensures Trim(s) == [] ==> !LooseEmail(s)
  {
    LooseEmailHasNoSpace(s);
    if Trim(s) == [] && s != [] {
      assert IsSpace(s[0]);
    }
  }

  // ================================================================ step gates

  /** An error map over two distinct fields, each entry present exactly
      when its message is. */
  function TwoErrors(k1: Field, m1: Option<string>, k2: Field, m2: Option<string>): (errs: map<Field, string>)
    requires k1 != k2
    ensures k1 in errs <==> m1.Some?
    ensures k2 in errs <==> m2.Some?
    ensures m1.Some? ==> errs[k1] == m1.value
    ensures m2.Some? ==> errs[k2] == m2.value
    ensures forall k :: k in errs ==> k == k1 || k == k2
  {
    var e: map<Field, string> := if m1.Some? then map[k1 := m1.value] else map[];
    if m2.Some? then e[k2 := m2.value] else e
  }

  /** The step-1 e-mail message: required when blank, invalid when the
      step-1 regex refuses it. */
  function StepOneEmailError(e: string): (m: Option<string>)
    ensures m.Some? <==> !LooseEmail(e)
    ensures m == Some(EmailRequired) <==> Trim(e) == []
  {
    BlankFailsLoose(e);
    if Trim(e) == [] then Some(EmailRequired)
    else if !LooseEmail(e) then Some(EmailInvalid)
    else None
  }

  function Step1Errors(f: FormData): (errs: map<Field, string>)
    ensures CompanyName in errs <==> Trim(f.companyName) == []
    ensures ContactEmail in errs <==> !LooseEmail(f.contactEmail)
    ensures ContactEmail in errs ==> (errs[ContactEmail] == EmailRequired <==> Trim(f.contactEmail) == [])
    ensures forall k :: k in errs ==> k == CompanyName || k == ContactEmail
  {
    TwoErrors(CompanyName, if Trim(f.companyName) == [] then Some(CompanyRequired) else None,
              ContactEmail, StepOneEmailError(f.contactEmail))
  }

  function Step2Errors(f: FormData): (errs: map<Field, string>)
    ensures Field.ProjectType in errs <==> f.projectType == ""
    ensures Description in errs <==> Utf16Length(Trim(f.description)) < 50
    ensures Description in errs ==> (errs[Description] == DescriptionRequired <==> Trim(f.description) == [])
    ensures forall k :: k in errs ==> k == Field.ProjectType || k == Description
  {
    var d := Trim(f.description);
    TwoErrors(Field.ProjectType, if f.projectType == "" then Some(ProjectTypeRequired) else None,
              Description, if d == [] then Some(DescriptionRequired) else if Utf16Length(d) < 50 then Some(DescriptionTooShort) else None)
  }

  function Step3Errors(f: FormData): (errs: map<Field, string>)
    ensures Timeline in errs <==> Trim(f.timeline) == []
    ensures Field.BudgetRange in errs <==> f.budgetRange == ""
    ensures forall k :: k in errs ==> k == Timeline || k == Field.BudgetRange
  {
    TwoErrors(Timeline, if Trim(f.timeline) == [] then Some(TimelineRequired) else None,
              Field.BudgetRange, if f.budgetRange == "" then Some(BudgetRequired) else None)
  }

  /** `validateCurrentStep`'s error map; the review step checks nothing. */
  function StepErrors(step: int, f: FormData): (errs: map<Field, string>)
    ensures step == 1 ==> errs == Step1Errors(f)
    ensures step == 2 ==> errs == Step2Errors(f)
    ensures step == 3 ==> errs == Step3Errors(f)
    ensures step != 1 && step != 2 && step != 3 ==> errs == map[]
  {
    if step == 1 then Step1Errors(f)
    else if step == 2 then Step2Errors(f)
    else if step == 3 then Step3Errors(f)
    else map[]
  }

  /** Steps 2 and 3 check nothing the submit-time validator does not: a form
      it accepts passes both. Step 1's company-name check is the same rule. */
  lemma LaterGatesImpliedByForm(f: FormData)
    ensures ValidateForm(f) == map[] ==> StepErrors(2, f) == map[] && StepErrors(3, f) == map[]
    ensures (CompanyName in StepErrors(1, f)) <==> (CompanyName in ValidateForm(f))
  {
    ValidateFormSelections(f);
    ValidateFormText(f);
    if ValidateForm(f) == map[] {
      forall k: Field
        ensures k !in StepErrors(2, f) && k !in StepErrors(3, f)
      {
      }
      assert StepErrors(2, f).Keys == {};
      assert StepErrors(3, f).Keys == {};
    }
  }

  /** Every word of the strict e-mail regex is a word of the step-1 regex. */
  lemma StrictShapeIsLoose(s: string, local: string, host: string, tld: string)
    requires EmailParse(s, local, host, tld)
    ensures LooseEmail(s)
  {
    assert AllLoose(local) by {
      forall i | 0 <= i < |local| ensures LooseChar(local[i]) {
        assert IsLocalChar(local[i]);
      }
    }
    assert AllLoose(host) by {
      forall i | 0 <= i < |host| ensures LooseChar(host[i]) {
        assert IsHostChar(host[i]);
      }
    }
    assert AllLoose(tld) by {
      forall i | 0 <= i < |tld| ensures LooseChar(tld[i]) {
        assert IsLetter(tld[i]);
      }
    }
    assert LooseParse(s, local, host, tld);
    LooseEmailIff(s);
  }

  /** The step-1 e-mail gate is weaker than the submit-time check: a ".con"
      typo passes step 1 and is only caught at submission. */
  lemma TypoPassesStepOne(local: string, host: string)
    requires |local| >= 1 && AllLocal(local) && |host| >= 1 && AllHost(host)
    ensures LooseEmail(local + "@" + host + ".con")
    ensures !ValidateEmail(local + "@" + host + ".con")
  {
    TypoTldRejected(local, host);
    ConIsTypoLabel();
    WellFormedIsLoose(local, host, "con");
    ConSpelling(local, host);
  }

  /** An address assembled from regex characters passes step 1. */
  lemma WellFormedIsLoose(local: string, host: string, tld: string)
    requires |local| >= 1 && AllLocal(local) && |host| >= 1 && AllHost(host)
    requires |tld| >= 2 && AllLetters(tld)
    ensures LooseEmail(local + "@" + host + "." + tld)
  {
    StrictShapeIsLoose(local + "@" + host + "." + tld, local, host, tld);
  }

  /** Trimming ignores a leading space. */
  lemma TrimLeadingSpace(s: string)
    ensures Trim(" " + s) == Trim(s)
  {
    assert (" " + s)[1..] == s;
  }

  /** A leading space does not change the submit-time verdict. */
  lemma LeadingSpaceKeepsVerdict(e: string)
    ensures ValidateEmail(" " + e) == ValidateEmail(e)
  {
    TrimLeadingSpace(e);
    assert NormaliseEmail(" " + e) == NormaliseEmail(e);
    ValidateEmailNormalised(" " + e);
    ValidateEmailNormalised(e);
  }

  /** The step-1 regex refuses a leading space. */
  lemma LeadingSpaceFailsLoose(e: string)
    ensures !LooseEmail(" " + e)
  {
    LooseEmailHasNoSpace(" " + e);
    assert (" " + e)[0] == ' ';
  }

  /** Conversely the step-1 regex sees the raw input: with a leading space
      every address the submit-time validator accepts still passes it, yet
      is blocked at step 1. */
  lemma PaddedFailsStepOne(e: string)
    requires ValidateEmail(e)
    ensures ValidateEmail(" " + e)
    ensures !LooseEmail(" " + e)
  {
    LeadingSpaceKeepsVerdict(e);
    LeadingSpaceFailsLoose(e);
  }

  // ================================================================ form fields

  /** The text value of a field (attachments excluded). */
  function FieldValue(f: FormData, k: Field): string
    requires k != Files
  {
    match k
    case CompanyName => f.companyName
    case ContactEmail => f.contactEmail
    case ContactPhone => f.contactPhone
    case ProjectType => f.projectType
    case Description => f.description
    case Timeline => f.timeline
    case BudgetRange => f.budgetRange
  }

  /** `{ ...prev, [field]: value }`: one text field replaced. */
  function SetField(f: FormData, k: Field, v: string): (r: FormData)
    requires k != Files
    ensures FieldValue(r, k) == v
    ensures forall g :: g != Files && g != k ==> FieldValue(r, g) == FieldValue(f, g)
    ensures r.files == f.files
  {
    match k
    case CompanyName => f.(companyName := v)
    case ContactEmail => f.(contactEmail := v)
    case ContactPhone => f.(contactPhone := v)
    case ProjectType => f.(projectType := v)
    case Description => f.(description := v)
    case Timeline => f.(timeline := v)
    case BudgetRange => f.(budgetRange := v)
  }

  // ================================================================ the wizard

  datatype Portal = Portal(
    step: int,
    currency: Currency,
    form: FormData,
    errors: map<Field, string>,
    results: Results,
    success: bool)

  const InitialPortal: Portal := Portal(1, PHP, EmptyForm, map[], map[], false)

  /** The fields validated as the user types. */
  const LiveFields: set<Field> := {ContactEmail, ContactPhone, CompanyName, Description}

  /** `nextStep`: the current step's errors replace the displayed ones, and
      the wizard moves on by one exactly when there are none; a failing step
      and the last step stay where they are. */
  function NextStep(p: Portal): (r: Portal)
    ensures r.errors == StepErrors(p.step, p.form)
    ensures r.step > p.step <==> StepErrors(p.step, p.form) == map[] && p.step < 4
    ensures r.step > p.step ==> r.step == p.step + 1
    ensures StepErrors(p.step, p.form) != map[] ==> r.step == p.step
    ensures p.step == 4 ==> r.step == 4
    ensures p.step <= 4 ==> r.step <= 4
    ensures r.form == p.form && r.currency == p.currency && r.results == p.results && r.success == p.success
  {
    var errs := StepErrors(p.step, p.form);
    p.(errors := errs, step := if errs == map[] then (if p.step + 1 < 4 then p.step + 1 else 4) else p.step)
  }

  /** `prevStep`: back one step, never below the first, without validating. */
  function PrevStep(p: Portal): (r: Portal)
    ensures p.step > 1 ==> r.step == p.step - 1
    ensures p.step <= 1 ==> r.step == 1
    ensures r.(step := p.step) == p
  {
    p.(step := if p.step - 1 > 1 then p.step - 1 else 1)
  }

  /** `handleInputChange`: one text field replaced, its displayed error
      cleared, and the live verdict refreshed for the four live fields. */
  function HandleInputChange(p: Portal, k: Field, v: string): (r: Portal)
    requires k != Files
    ensures FieldValue(r.form, k) == v
    ensures forall g :: g != Files && g != k ==> FieldValue(r.form, g) == FieldValue(p.form, g)
    ensures r.form.files == p.form.files
    ensures k !in r.errors
    ensures forall g :: g != k ==> (g in r.errors <==> g in p.errors)
    ensures forall g :: g != k && g in p.errors ==> r.errors[g] == p.errors[g]
    ensures k in LiveFields ==> Get(r.results, k) == ValidateField(k, v)
    ensures k !in LiveFields ==> r.results == p.results
    ensures r.step == p.step && r.currency == p.currency && r.success == p.success
  {
    var results := if k in LiveFields then Validate(p.results, k, v).1 else p.results;
    p.(form := SetField(p.form, k, v), errors := p.errors - {k}, results := results)
  }

  /** `handleFilesChange`: the attachment list replaced, nothing else. */
  function HandleFilesChange(p: Portal, files: seq<Attachment>): (r: Portal)
    ensures r.form.files == files
    ensures forall g :: g != Files ==> FieldValue(r.form, g) == FieldValue(p.form, g)
    ensures r.(form := p.form) == p
  {
    p.(form := p.form.(files := files))
  }

  /** The currency select: the new currency, and the budget reset to "". */
  function ChangeCurrency(p: Portal, c: Currency): (r: Portal)
    ensures r.currency == c
    ensures r.form.budgetRange == ""
    ensures forall g :: g != Files && g != Field.BudgetRange ==> FieldValue(r.form, g) == FieldValue(p.form, g)
    ensures r.form.files == p.form.files && r.step == p.step
  {
    HandleInputChange(p.(currency := c), Field.BudgetRange, "")
  }

  /** The options of the budget select. */
  function BudgetOptions(p: Portal): seq<string> {
    GetBudgetRanges(p.currency)
  }

  /** After a currency change the budget select shows the placeholder: the
      cleared value is none of the new currency's options. */
  lemma CurrencyChangeClearsChoice(p: Portal, c: Currency)
    ensures forall i :: 0 <= i < |BudgetOptions(ChangeCurrency(p, c))| ==>
      BudgetOptions(ChangeCurrency(p, c))[i] != ChangeCurrency(p, c).form.budgetRange
  {
  }

  /** The record `handleSubmit` stores for a form. */
  function SubmissionRecord(f: FormData, id: string, now: int): (rec: Project)
    ensures rec.id == id && rec.status == StatusLabel(Submitted)
    ensures rec.companyName == f.companyName && rec.contactEmail == f.contactEmail
    ensures rec.contactPhone == Some(f.contactPhone) && rec.projectType == f.projectType
    ensures rec.description == f.description && rec.timeline == f.timeline
    ensures rec.budgetRange == f.budgetRange && rec.files == f.files
    ensures rec.submittedAt == now && rec.lastUpdated == now && rec.adminNotes.None?
  {
    Project(id, f.companyName, f.contactEmail, Some(f.contactPhone), f.projectType, f.description,
            f.timeline, f.budgetRange, f.files, "Submitted", now, now, None)
  }

  // ================================================================ the page as a machine

  /** The simulated submission delay in milliseconds. */
  const SubmitDelay: nat := 2000

  /** The wizard, the auto-save debounce, the stored draft, the stored
      submissions, and whether the post-submit reset is still to come. */
  datatype Machine = Machine(
    portal: Portal,
    saver: Saver<FormData>,
    draft: Option<FormData>,
    submissions: seq<Project>,
    resetPending: bool)

  datatype Event =
    | Mount
    | Input(field: Field, value: string)
    | SetFiles(files: seq<Attachment>)
    | ChangeCurrencyTo(currency: Currency)
    | Next
    | Prev
    | Submit(id: string)
    | SuccessTimer
    | Tick(dt: nat)

  /** The page before its effects run, at clock `now`, with whatever draft
      and submissions storage already holds. */
  function Init(now: int, draft: Option<FormData>, submissions: seq<Project>): Machine {
    Machine(InitialPortal, Saver(now, None), draft, submissions, false)
  }

  /** A form change re-runs the auto-save effect. */
  function WithForm(m: Machine, p: Portal): Machine {
    m.(portal := p, saver := Schedule(m.saver, p.form))
  }

  /** `handleSubmit` on the review step. */
  function SubmitStep(m: Machine, id: string): Machine {
    var errs := ValidateForm(m.portal.form);
    if errs != map[] then
      m.(portal := m.portal.(errors := errs, step := 1))
    else
      var (s1, _) := Advance(m.saver, SubmitDelay);
      m.(saver := s1,
         submissions := m.submissions + [SubmissionRecord(m.portal.form, id, s1.now)],
         draft := None,
         portal := m.portal.(success := true),
         resetPending := true)
  }

  function Step(m: Machine, e: Event): Machine {
    match e
    case Mount =>
      WithForm(m, m.portal.(form := m.draft.GetOr(m.portal.form)))
    case Input(k, v) =>
      if k == Files then m else WithForm(m, HandleInputChange(m.portal, k, v))
    case SetFiles(files) =>
      WithForm(m, HandleFilesChange(m.portal, files))
    case ChangeCurrencyTo(c) =>
      WithForm(m, ChangeCurrency(m.portal, c))
    case Next =>
      m.(portal := NextStep(m.portal))
    case Prev =>
      m.(portal := PrevStep(m.portal))
    case Submit(id) =>
      if m.portal.step == 4 then SubmitStep(m, id) else m
    case SuccessTimer =>
      if m.resetPending then
        WithForm(m, m.portal.(form := EmptyForm, step := 1, success := false)).(resetPending := false)
      else m
    case Tick(dt) =>
      var (s1, written) := Advance(m.saver, dt);
      m.(saver := s1, draft := if written.Some? then written else m.draft)
  }

  function Run(m: Machine, events: seq<Event>): Machine
    decreases |events|
  {
    if events == [] then m else Run(Step(m, events[0]), events[1..])
  }

  /** The wizard stays within its four steps, and a pending auto-save always
      carries the current form and falls due within `Delay`. */
  predicate Inv(m: Machine) {
    && 1 <= m.portal.step <= 4
    && (m.saver.pending.Some? ==>
          m.saver.pending.value.value == m.portal.form &&
          m.saver.pending.value.due <= m.saver.now + Delay)
  }

  lemma InitSatisfiesInv(now: int, draft: Option<FormData>, submissions: seq<Project>)
    ensures Inv(Init(now, draft, submissions))
  {
  }

  lemma StepPreservesInv(m: Machine, e: Event)
    requires Inv(m)
    ensures Inv(Step(m, e))
  {
  }

  /** Every event sequence from the initial page keeps the invariant. */
  lemma {:induction false} RunPreservesInv(m: Machine, events: seq<Event>)
    requires Inv(m)
    ensures Inv(Run(m, events))
    decreases |events|
  {
    if events != [] {
      StepPreservesInv(m, events[0]);
      RunPreservesInv(Step(m, events[0]), events[1..]);
    }
  }

  /** A failing submission shows the form validator's errors on step 1 and
      stores nothing. */
  lemma SubmitFailure(m: Machine, id: string)
    requires m.portal.step == 4 && ValidateForm(m.portal.form) != map[]
    ensures var m1 := Step(m, Submit(id));
      && m1.portal.errors == ValidateForm(m.portal.form)
      && m1.portal.step == 1
      && m1.submissions == m.submissions
      && m1.draft == m.draft
      && m1.portal.form == m.portal.form
  {
    var errs := ValidateForm(m.portal.form);
    assert SubmitStep(m, id) == m.(portal := m.portal.(errors := errs, step := 1));
  }

  /** A successful submission appends exactly one "Submitted" record copying
      the form, and removes the draft; the pending save has fired during the
      delay. */
  lemma SubmitSuccess(m: Machine, id: string)
    requires Inv(m) && m.portal.step == 4 && ValidateForm(m.portal.form) == map[]
    ensures var m1 := Step(m, Submit(id));
      && |m1.submissions| == |m.submissions| + 1
      && m1.submissions[..|m.submissions|] == m.submissions
      && m1.submissions[|m.submissions|] == SubmissionRecord(m.portal.form, id, m.saver.now + SubmitDelay)
      && m1.submissions[|m.submissions|].status == "Submitted"
      && m1.draft.None?
      && m1.saver.pending.None?
      && m1.resetPending
  {
    assert Step(m, Submit(id)) == SubmitStep(m, id);
    var m1 := SubmitStep(m, id);
    assert m1.submissions[..|m.submissions|] == m.submissions;
  }

  /** After a successful submission the success timer resets the wizard to
      the empty form on step 1 and keeps the stored submissions. */
  lemma ResetAfterSuccess(m: Machine)
    requires m.resetPending
    ensures var m2 := Step(m, SuccessTimer);
      && m2.portal.form == EmptyForm && m2.portal.step == 1 && !m2.portal.success
      && m2.submissions == m.submissions && !m2.resetPending
  {
  }

  /** Whatever auto-save writes is the form current at that moment. */
  lemma AutoSaveWritesCurrentForm(m: Machine, dt: nat)
    requires Inv(m)
    ensures Step(m, Tick(dt)).draft == m.draft || Step(m, Tick(dt)).draft == Some(m.portal.form)
    ensures Step(m, Tick(dt)).portal == m.portal
  {
  }

  /** A text change followed by `Delay` quiet milliseconds writes the
      changed form as the draft. */
  lemma ChangeIsSaved(m: Machine, k: Field, v: string)
    requires Inv(m) && k != Files
    ensures var m1 := Step(Step(m, Input(k, v)), Tick(Delay));
      && m1.draft == Some(m1.portal.form)
      && FieldValue(m1.portal.form, k) == v
  {
    var p := HandleInputChange(m.portal, k, v);
    var m0 := Step(m, Input(k, v));
    assert m0 == WithForm(m, p);
    assert m0.saver.pending == Some(Timer(m.saver.now + Delay, p.form));
  }

  /** A page mounted over a stored draft shows that draft. */
  lemma MountRestoresDraft(now: int, draft: FormData, submissions: seq<Project>)
    ensures Step(Init(now, Some(draft), submissions), Mount).portal.form == draft
  {
  }

  /** A change followed by `Delay` quiet milliseconds is saved, and a page
      mounted later over that draft shows the same form. */
  lemma DraftRoundTrip(m: Machine, k: Field, v: string, later: int)
    requires Inv(m) && k != Files
    ensures var m1 := Step(Step(m, Input(k, v)), Tick(Delay));
      && m1.draft == Some(m1.portal.form)
      && FieldValue(m1.portal.form, k) == v
      && Step(Init(later, m1.draft, m1.submissions), Mount).portal.form == m1.portal.form
  {
    ChangeIsSaved(m, k, v);
    var m1 := Step(Step(m, Input(k, v)), Tick(Delay));
    MountRestoresDraft(later, m1.portal.form, m1.submissions);
  }

  /** A restored draft keeps its budget label while the currency starts as
      pesos again, so the select can hold a value none of its options show. */
  lemma RestoredBudgetOutsideOptions(now: int)
    ensures var m := Step(Init(now, Some(EmptyForm.(budgetRange := "Under $900")), []), Mount);
      && m.portal.currency == PHP
      && m.portal.form.budgetRange == "Under $900"
      && forall i :: 0 <= i < |BudgetOptions(m.portal)| ==> BudgetOptions(m.portal)[i] != m.portal.form.budgetRange
  {
  }
}
