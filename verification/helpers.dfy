/** The validation library of src/utils/helpers.ts: the e-mail and Philippine
    mobile-number recognisers, the whole-form validator, the attachment checks,
    status progress, budget labels and notification messages. The regular
    expressions are written out as recognisers over strings. */
module Helpers {
  import opened Text
  import opened Domain

  // ================================================================ e-mail

  predicate IsLocalChar(c: char) {
    IsLetter(c) || IsDigit(c) || c == '.' || c == '_' || c == '%' || c == '+' || c == '-'
  }

  predicate IsHostChar(c: char) {
    IsLetter(c) || IsDigit(c) || c == '.' || c == '-'
  }

  predicate AllLocal(s: string) {
    forall i :: 0 <= i < |s| ==> IsLocalChar(s[i])
  }

  predicate AllHost(s: string) {
    forall i :: 0 <= i < |s| ==> IsHostChar(s[i])
  }

  predicate AllLetters(s: string) {
    forall i :: 0 <= i < |s| ==> IsLetter(s[i])
  }

  /** One reading of `s` as a word of /^[a-zA-Z0-9._%+-]+@[a-zA-Z0-9.-]+\.[a-zA-Z]{2,}$/:
      a local part, "@", a host, ".", and a top-level label of two or more letters. */
  ghost predicate EmailParse(s: string, local: string, host: string, tld: string) {
    && s == local + "@" + host + "." + tld
    && |local| >= 1 && AllLocal(local)
    && |host| >= 1 && AllHost(host)
    && |tld| >= 2 && AllLetters(tld)
  }

  /** The part after "@": host characters only, and after its last "." at
      least two letters preceded by at least one character. */
  predicate HostShape(d: string) {
    var labels := Split(d, '.');
    && AllHost(d)
    && |labels| >= 2
    && |Last(labels)| >= 2 && AllLetters(Last(labels))
    && |d| - |Last(labels)| - 1 >= 1
  }

  /** Recogniser for the basic e-mail regex. */
  predicate BasicEmailShape(s: string) {
    var parts := Split(s, '@');
    |parts| == 2 && |parts[0]| >= 1 && AllLocal(parts[0]) && HostShape(parts[1])
  }

  /** A parse fixes the pieces `split("@")` and `split(".")` produce. */
  lemma EmailParsePieces(s: string, local: string, host: string, tld: string)
    requires EmailParse(s, local, host, tld)
    ensures Split(s, '@') == [local, host + "." + tld]
    ensures Split(host + "." + tld, '.') == Split(host, '.') + [tld]
  {
    var d := host + "." + tld;
    assert s == local + ['@'] + d;
    assert forall i :: 0 <= i < |local| ==> local[i] != '@' by {
      forall i | 0 <= i < |local| ensures local[i] != '@' {
        assert IsLocalChar(local[i]);
      }
    }
    assert forall i :: 0 <= i < |d| ==> d[i] != '@' by {
      forall i | 0 <= i < |d| ensures d[i] != '@' {
        if i < |host| {
          assert d[i] == host[i] && IsHostChar(host[i]);
        } else if i > |host| {
          assert d[i] == tld[i - |host| - 1] && IsLetter(tld[i - |host| - 1]);
        }
      }
    }
    assert forall i :: 0 <= i < |tld| ==> tld[i] != '.' by {
      forall i | 0 <= i < |tld| ensures tld[i] != '.' {
        assert IsLetter(tld[i]);
      }
    }
    SplitConcat(local, d, '@');
    SplitWithoutSeparator(local, '@');
    SplitWithoutSeparator(d, '@');
    assert d == host + ['.'] + tld;
    SplitConcat(host, tld, '.');
    SplitWithoutSeparator(tld, '.');
  }

  /** Whatever the basic recogniser accepts parses as the regex's word. */
  lemma BasicEmailShapeSound(s: string)
    requires BasicEmailShape(s)
    ensures exists local, host, tld :: EmailParse(s, local, host, tld)
  {
    var parts := Split(s, '@');
    SplitJoin(s, '@');
    assert s == parts[0] + ['@'] + parts[1];
    var d := parts[1];
    var labels := Split(d, '.');
    SplitJoin(d, '.');
    JoinLast(labels, '.');
    var host := Join(labels[..|labels| - 1], '.');
    var tld := Last(labels);
    assert d == host + ['.'] + tld;
    assert host == d[..|host|];
    assert AllHost(host);
    assert s == parts[0] + "@" + host + "." + tld;
    assert EmailParse(s, parts[0], host, tld);
  }

  /** Every word of the basic regex is accepted by the recogniser. */
  lemma BasicEmailShapeComplete(s: string, local: string, host: string, tld: string)
    requires EmailParse(s, local, host, tld)
    ensures BasicEmailShape(s)
  {
    EmailParsePieces(s, local, host, tld);
    var d := host + "." + tld;
    var labels := Split(d, '.');
    assert Last(labels) == tld;
    assert AllHost(d) by {
      forall i | 0 <= i < |d|
        ensures IsHostChar(d[i])
      {
        if i < |host| {
          assert d[i] == host[i];
        } else if i > |host| {
          assert d[i] == tld[i - |host| - 1];
        }
      }
    }
    assert HostShape(d);
  }

  /** The recogniser accepts exactly the words of the basic e-mail regex. */
  lemma BasicEmailShapeIff(s: string)
    ensures BasicEmailShape(s) <==> exists local, host, tld :: EmailParse(s, local, host, tld)
  {
    if BasicEmailShape(s) {
      BasicEmailShapeSound(s);
    }
    if exists local, host, tld :: EmailParse(s, local, host, tld) {
      var local, host, tld :| EmailParse(s, local, host, tld);
      BasicEmailShapeComplete(s, local, host, tld);
    }
  }

  /** Any two parses of a string agree (the top-level label follows the last "."). */
  lemma EmailParseUnique(s: string, l1: string, h1: string, t1: string, l2: string, h2: string, t2: string)
    requires EmailParse(s, l1, h1, t1) && EmailParse(s, l2, h2, t2)
    ensures l1 == l2 && h1 == h2 && t1 == t2
  {
    EmailParsePieces(s, l1, h1, t1);
    EmailParsePieces(s, l2, h2, t2);
    var d := h1 + "." + t1;
    assert d == h2 + "." + t2;
    assert t1 == Last(Split(d, '.')) == t2;
    assert h1 == d[..|d| - |t1| - 1] == h2;
  }

  /** Typos of common top-level domains, rejected even when the shape matches. */
  const InvalidTlds: seq<string> := [
    "cum", "con", "coom", "cmo", "cim", "cpm", "ocm", "vom", "cpm", "cm", "co", "c",
    "om", "comm", "coml", "nit", "nte", "ner", "ne", "orgm", "ogr", "or", "phm", "phl"
  ]

  /** Suffixes an accepted domain must end with (after a "."). */
  const ValidTlds: seq<string> := [
    "com", "net", "org", "edu", "gov", "mil", "int", "ph", "co.uk", "co.ph", "gov.ph",
    "org.ph", "net.ph", "edu.ph", "io", "ly", "me", "tv", "cc", "ws", "biz", "info",
    "name", "tech", "app"
  ]

  /** `validTLDs.some(v => domain.endsWith("." + v))`. */
  predicate HasAllowedSuffix(domain: string) {
    exists i :: 0 <= i < |ValidTlds| && EndsWith(domain, "." + ValidTlds[i])
  }

  /** The address the validator inspects: trimmed and lower-cased. */
  function NormaliseEmail(email: string): string {
    Lower(Trim(email))
  }

  /** The top-level label of a domain: the text after its last ".". */
  function TopLabel(domain: string): string {
    Last(Split(domain, '.'))
  }

  /** The denylist and allowlist checks on the part after "@". */
  predicate DomainAccepted(domain: string) {
    var tld := TopLabel(domain);
    if tld != "" && tld in InvalidTlds then false
    else tld != "" && HasAllowedSuffix(domain)
  }

  /** `validateEmail`. */
  predicate ValidateEmail(email: string) {
    var t := NormaliseEmail(email);
    BasicEmailShape(t) && DomainAccepted(Split(t, '@')[1])
  }

  /** An accepted address parses, with a label off the denylist and an
      allow-listed suffix. */
  lemma ValidateEmailSound(email: string)
    requires ValidateEmail(email)
    ensures exists local, host, tld ::
        && EmailParse(NormaliseEmail(email), local, host, tld)
        && tld !in InvalidTlds
        && HasAllowedSuffix(host + "." + tld)
  {
    var t := NormaliseEmail(email);
    BasicEmailShapeSound(t);
    var local, host, tld :| EmailParse(t, local, host, tld);
    EmailParsePieces(t, local, host, tld);
  }

  /** A parse of the normal form whose label is off the denylist and whose
      domain carries an allow-listed suffix is accepted. */
  lemma ValidateEmailComplete(email: string, local: string, host: string, tld: string)
    requires EmailParse(NormaliseEmail(email), local, host, tld)
    requires tld !in InvalidTlds && HasAllowedSuffix(host + "." + tld)
    ensures ValidateEmail(email)
  {
    var t := NormaliseEmail(email);
    BasicEmailShapeComplete(t, local, host, tld);
    EmailParsePieces(t, local, host, tld);
  }

  /** The validator accepts exactly the addresses whose normal form parses
      as the basic shape with a top-level label outside the denylist and a
      domain ending in "." and an allow-listed suffix. */
  lemma ValidateEmailIff(email: string)
    ensures ValidateEmail(email) <==>
      exists local, host, tld ::
        && EmailParse(NormaliseEmail(email), local, host, tld)
        && tld !in InvalidTlds
        && HasAllowedSuffix(host + "." + tld)
  {
    if ValidateEmail(email) {
      ValidateEmailSound(email);
    }
    if exists local, host, tld ::
        && EmailParse(NormaliseEmail(email), local, host, tld)
        && tld !in InvalidTlds
        && HasAllowedSuffix(host + "." + tld)
    {
      var local, host, tld :|
        && EmailParse(NormaliseEmail(email), local, host, tld)
        && tld !in InvalidTlds
        && HasAllowedSuffix(host + "." + tld);
      ValidateEmailComplete(email, local, host, tld);
    }
  }

  /** A denylisted top-level label rejects the address whatever its shape. */
  lemma DenylistedTldRejected(email: string, local: string, host: string, tld: string)
    requires EmailParse(NormaliseEmail(email), local, host, tld)
    requires tld in InvalidTlds
    ensures !ValidateEmail(email)
  {
    ValidateEmailIff(email);
    forall l2, h2, t2 | EmailParse(NormaliseEmail(email), l2, h2, t2)
      ensures t2 == tld
    {
      EmailParseUnique(NormaliseEmail(email), local, host, tld, l2, h2, t2);
    }
  }

  /** Normalising twice is normalising once. */
  lemma NormaliseIdempotent(email: string)
    ensures NormaliseEmail(NormaliseEmail(email)) == NormaliseEmail(email)
  {
    var t := Trim(email);
    var u := Lower(t);
    TrimUnpadded(u);
    assert Trim(u) == u;
    LowerIdempotent(t);
  }

  /** Validation looks only at the normal form of an address. */
  lemma ValidateEmailNormalised(email: string)
    ensures ValidateEmail(email) == ValidateEmail(NormaliseEmail(email))
  {
    NormaliseIdempotent(email);
  }

  /** A blank address is never valid. */
  lemma BlankEmailRejected(email: string)
    ensures Trim(email) == [] ==> !ValidateEmail(email)
  {
  }

  /** An address already in normal form (no padding, no capitals). */
  lemma NormalisedAlready(email: string)
    requires email == [] || (!IsSpace(email[0]) && !IsSpace(email[|email| - 1]))
    requires forall i :: 0 <= i < |email| ==> !('A' <= email[i] <= 'Z')
    ensures NormaliseEmail(email) == email
  {
    TrimUnpadded(email);
    assert Trim(email) == email;
    LowerOfLower(email);
    assert Lower(Trim(email)) == email;
  }

  /** An address built from regex characters has no padding to trim. */
  lemma TrimWellFormed(local: string, host: string, suffix: string)
    requires |local| >= 1 && AllLocal(local) && |host| >= 1 && AllHost(host)
    requires |suffix| >= 1 && AllLetters(suffix)
    ensures Trim(local + "@" + host + "." + suffix) == local + "@" + host + "." + suffix
  {
    var e := local + "@" + host + "." + suffix;
    assert e[0] == local[0] && IsLocalChar(local[0]);
    assert e[|e| - 1] == suffix[|suffix| - 1] && IsLetter(suffix[|suffix| - 1]);
    TrimUnpadded(e);
  }

  /** Lower-casing an address lower-cases each part and keeps "@" and ".". */
  lemma LowerAddress(local: string, host: string, suffix: string)
    ensures Lower(local + "@" + host + "." + suffix) == Lower(local) + "@" + Lower(host) + "." + Lower(suffix)
  {
    LowerConcat(local + "@" + host + ".", suffix);
    LowerConcat(local + "@" + host, ".");
    LowerConcat(local + "@", host);
    LowerConcat(local, "@");
    assert Lower("@") == "@" && Lower(".") == ".";
  }

  /** The normal form of a well-formed address lower-cases its parts. */
  lemma NormaliseWellFormed(local: string, host: string, suffix: string)
    requires |local| >= 1 && AllLocal(local) && |host| >= 1 && AllHost(host)
    requires |suffix| >= 1 && AllLetters(suffix)
    ensures NormaliseEmail(local + "@" + host + "." + suffix) ==
            Lower(local) + "@" + Lower(host) + "." + Lower(suffix)
  {
    TrimWellFormed(local, host, suffix);
    LowerAddress(local, host, suffix);
  }

  /** Lower-casing keeps the regex character classes. */
  lemma LowerKeepsClasses(s: string)
    ensures AllLocal(s) ==> AllLocal(Lower(s))
    ensures AllHost(s) ==> AllHost(Lower(s))
    ensures AllLetters(s) ==> AllLetters(Lower(s))
  {
  }

  /** A well-formed address whose lower-case top-level label is on the
      denylist is refused, whatever the rest of it is. */
  lemma DenylistedLabelRejected(local: string, host: string, tld: string)
    requires |local| >= 1 && AllLocal(local) && |host| >= 1 && AllHost(host)
    requires |tld| >= 2 && AllLetters(tld) && Lower(tld) == tld && tld in InvalidTlds
    ensures !ValidateEmail(local + "@" + host + "." + tld)
  {
    var e := local + "@" + host + "." + tld;
    NormaliseWellFormed(local, host, tld);
    LowerKeepsClasses(local);
    LowerKeepsClasses(host);
    assert EmailParse(NormaliseEmail(e), Lower(local), Lower(host), tld);
    DenylistedTldRejected(e, Lower(local), Lower(host), tld);
  }

  /** "con" is a lower-case label of letters on the denylist. */
  lemma ConIsTypoLabel()
    ensures |"con"| >= 2 && AllLetters("con") && Lower("con") == "con" && "con" in InvalidTlds
  {
    var con := "con";
    assert IsLetter(con[0]) && IsLetter(con[1]) && IsLetter(con[2]);
    assert InvalidTlds[1] == con;
  }

  /** Writing ".con" as "." followed by "con". */
  lemma ConSpelling(local: string, host: string)
    ensures local + "@" + host + ".con" == local + "@" + host + "." + "con"
  {
  }

  /** The typo ".con" is refused, whatever the address is otherwise. */
  lemma TypoTldRejected(local: string, host: string)
    requires |local| >= 1 && AllLocal(local) && |host| >= 1 && AllHost(host)
    ensures !ValidateEmail(local + "@" + host + ".con")
  {
    ConIsTypoLabel();
    DenylistedLabelRejected(local, host, "con");
    ConSpelling(local, host);
  }

  /** A parsed normal form with an allowed top-level label passes both stages. */
  lemma ParsedAddressAccepted(n: string, local: string, host: string, tld: string)
    requires EmailParse(n, local, host, tld)
    requires tld !in InvalidTlds && HasAllowedSuffix(host + "." + tld)
    ensures BasicEmailShape(n) && DomainAccepted(Split(n, '@')[1])
  {
    BasicEmailShapeIff(n);
    EmailParsePieces(n, local, host, tld);
  }

  /** "com" is not a typo and is on the allowlist. */
  lemma ComAllowed(host: string)
    ensures "com" !in InvalidTlds
    ensures HasAllowedSuffix(host + "." + "com")
  {
    assert EndsWith(host + "." + "com", "." + ValidTlds[0]);
  }

  /** The intended ".com" is accepted for the same address. */
  lemma CorrectTldAccepted(local: string, host: string)
    requires |local| >= 1 && AllLocal(local) && |host| >= 1 && AllHost(host)
    ensures ValidateEmail(local + "@" + host + ".com")
  {
    var e := local + "@" + host + ".com";
    assert e == local + "@" + host + "." + "com";
    NormaliseWellFormed(local, host, "com");
    LowerKeepsClasses(local);
    LowerKeepsClasses(host);
    assert Lower("com") == "com";
    var n := NormaliseEmail(e);
    assert EmailParse(n, Lower(local), Lower(host), "com");
    ComAllowed(Lower(host));
    ParsedAddressAccepted(n, Lower(local), Lower(host), "com");
  }

  // ================================================================ phone

  /** `phone.replace(/\s+/g, "")`. */
  function StripSpaces(s: string): (r: string)
    ensures NoSpace(r)
    ensures |r| <= |s|
    ensures NoSpace(s) ==> r == s
  {
    if s == [] then []
    else if IsSpace(s[0]) then StripSpaces(s[1..])
    else [s[0]] + StripSpaces(s[1..])
  }

  /** Ten digits starting with "9". */
  predicate NationalNumber(s: string) {
    |s| == 10 && s[0] == '9' && AllDigits(s[1..])
  }

  /** Recogniser for /^(?:\+63|0)?9\d{9}$/, dispatching on length. */
  predicate MatchesMobile(c: string) {
    if |c| == 13 then c[..3] == "+63" && NationalNumber(c[3..])
    else if |c| == 11 then c[0] == '0' && NationalNumber(c[1..])
    else NationalNumber(c)
  }

  /** The optional prefixes of a Philippine mobile number. */
  const MobilePrefixes: seq<string> := ["", "+63", "0"]

  /** `validatePhoneNumber`. */
  predicate ValidatePhoneNumber(phone: string) {
    MatchesMobile(StripSpaces(phone))
  }

  /** A number is accepted iff, with whitespace deleted, it is an optional
      "+63" or "0" followed by "9" and nine digits. */
  lemma ValidatePhoneIff(phone: string)
    ensures ValidatePhoneNumber(phone) <==>
      exists i :: 0 <= i < |MobilePrefixes| &&
        StartsWith(StripSpaces(phone), MobilePrefixes[i]) &&
        NationalNumber(StripSpaces(phone)[|MobilePrefixes[i]|..])
  {
    var c := StripSpaces(phone);
    if MatchesMobile(c) {
      if |c| == 13 {
        assert StartsWith(c, MobilePrefixes[1]);
      } else if |c| == 11 {
        assert StartsWith(c, MobilePrefixes[2]);
      } else {
        assert StartsWith(c, MobilePrefixes[0]);
      }
    }
  }

  /** Deleting whitespace distributes over concatenation. */
  lemma {:induction false} StripSpacesConcat(a: string, b: string)
    ensures StripSpaces(a + b) == StripSpaces(a) + StripSpaces(b)
    decreases |a|
  {
    if a != [] {
      var ab := a + b;
      assert ab[0] == a[0];
      assert ab[1..] == a[1..] + b;
      StripSpacesConcat(a[1..], b);
      if IsSpace(a[0]) {
        assert StripSpaces(ab) == StripSpaces(ab[1..]);
      } else {
        assert StripSpaces(ab) == [a[0]] + StripSpaces(ab[1..]);
      }
    } else {
      assert a + b == b;
    }
  }

  /** Whitespace alone strips to nothing. */
  lemma {:induction false} StripAllSpace(w: string)
    requires AllSpace(w)
    ensures StripSpaces(w) == []
    decreases |w|
  {
    if w != [] {
      StripAllSpace(w[1..]);
    }
  }

  /** Whitespace inserted anywhere in a number does not change the verdict. */
  lemma WhitespaceIgnored(a: string, w: string, b: string)
    requires AllSpace(w)
    ensures ValidatePhoneNumber(a + w + b) == ValidatePhoneNumber(a + b)
  {
    StripSpacesConcat(a + w, b);
    StripSpacesConcat(a, w);
    StripSpacesConcat(a, b);
    StripAllSpace(w);
    assert StripSpaces(a) + [] == StripSpaces(a);
  }

  /** A national number is accepted bare, after "0" and after "+63". */
  lemma PrefixedFormsAccepted(n: string)
    requires NationalNumber(n)
    ensures ValidatePhoneNumber(n)
    ensures ValidatePhoneNumber("0" + n)
    ensures ValidatePhoneNumber("+63" + n)
  {
    assert NoSpace(n) by {
      forall i | 0 <= i < |n| ensures !IsSpace(n[i]) {
        if i > 0 {
          assert n[1..][i - 1] == n[i];
        }
      }
    }
    assert NoSpace("0" + n) && NoSpace("+63" + n);
    assert ("0" + n)[1..] == n;
    assert ("+63" + n)[..3] == "+63" && ("+63" + n)[3..] == n;
  }

  /** A landline-style number is refused. */
  lemma LandlineRejected()
    ensures !ValidatePhoneNumber("081234567")
  {
    assert NoSpace("081234567");
  }

  // ================================================================ whole form

  /** Every rule of the whole-form validator, stated field by field. */
  predicate FormIsComplete(f: FormData) {
    && Trim(f.companyName) != []
    && ValidateEmail(f.contactEmail)
    && (Trim(f.contactPhone) == [] || ValidatePhoneNumber(f.contactPhone))
    && f.projectType != ""
    && Utf16Length(Trim(f.description)) >= 50
    && Trim(f.timeline) != []
    && f.budgetRange != ""
  }

  // Messages of the whole-form validator, also used by the wizard's step
  // checks.
  const CompanyRequired: string := "Company name is required"
  const EmailRequired: string := "Contact email is required"
  const EmailInvalid: string := "Please enter a valid email address"
  const PhoneInvalid: string := "Please enter a valid Philippine mobile number (e.g., +63 976 125 1205, 0976 125 1205, or 976 125 1205)"
  const ProjectTypeRequired: string := "Please select a project type"
  const DescriptionRequired: string := "Project description is required"
  const DescriptionTooShort: string := "Please provide at least 50 characters for the project description"
  const TimelineRequired: string := "Timeline is required"
  const BudgetRequired: string := "Please select a budget range"

  /** The message `validateForm` records for one field, if its rule fails. */
  function FieldError(f: FormData, k: Field): Option<string> {
    match k
    case CompanyName =>
      if Trim(f.companyName) == [] then Some(CompanyRequired) else None
    case ContactEmail =>
      if Trim(f.contactEmail) == [] then Some(EmailRequired)
      else if !ValidateEmail(f.contactEmail) then Some(EmailInvalid)
      else None
    case ContactPhone =>
      if f.contactPhone != "" && Trim(f.contactPhone) != [] && !ValidatePhoneNumber(f.contactPhone)
      then Some(PhoneInvalid)
      else None
    case ProjectType =>
      if f.projectType == "" then Some(ProjectTypeRequired) else None
    case Description =>
      if Trim(f.description) == [] then Some(DescriptionRequired)
      else if Utf16Length(Trim(f.description)) < 50 then Some(DescriptionTooShort)
      else None
    case Timeline =>
      if Trim(f.timeline) == [] then Some(TimelineRequired) else None
    case BudgetRange =>
      if f.budgetRange == "" then Some(BudgetRequired) else None
    case Files => None
  }

  const AllFields: set<Field> :=
    {CompanyName, ContactEmail, ContactPhone, Field.ProjectType, Description, Timeline, Field.BudgetRange, Files}

  /** `validateForm`: one entry per failing rule, keyed by its field. Every
      message is non-empty, so an entry always reads as truthy. The rules
      themselves are stated by the lemmas below. */
  function ValidateForm(f: FormData): (errors: map<Field, string>)
    ensures Files !in errors
    ensures forall k :: k in errors ==> errors[k] != ""
  {
    FieldErrorsNonEmpty(f);
    map k | k in AllFields && FieldError(f, k).Some? :: FieldError(f, k).value
  }

  /** Every message is non-empty, and the file list has no rule. */
  lemma FieldErrorsNonEmpty(f: FormData)
    ensures forall k :: FieldError(f, k).Some? ==> FieldError(f, k).value != ""
    ensures FieldError(f, Files).None?
  {
    forall k | FieldError(f, k).Some?
      ensures FieldError(f, k).value != ""
    {
      match k
      case CompanyName =>
      case ContactEmail =>
      case ContactPhone =>
      case ProjectType =>
      case Description =>
      case Timeline =>
      case BudgetRange =>
      case Files =>
    }
  }

  /** The rules for the company name, project type and budget, which need no
      recogniser. */
  lemma ValidateFormSelections(f: FormData)
    ensures CompanyName in ValidateForm(f) <==> Trim(f.companyName) == []
    ensures Field.ProjectType in ValidateForm(f) <==> f.projectType == ""
    ensures Field.BudgetRange in ValidateForm(f) <==> f.budgetRange == ""
    ensures CompanyName in ValidateForm(f) ==> ValidateForm(f)[CompanyName] == CompanyRequired
    ensures Field.ProjectType in ValidateForm(f) ==> ValidateForm(f)[Field.ProjectType] == ProjectTypeRequired
    ensures Field.BudgetRange in ValidateForm(f) ==> ValidateForm(f)[Field.BudgetRange] == BudgetRequired
  {
  }

  /** The e-mail rule: an error exactly when the validator rejects the
      address, with the "required" message for a blank one. */
  lemma ValidateFormEmail(f: FormData)
    ensures ContactEmail in ValidateForm(f) <==> !ValidateEmail(f.contactEmail)
    ensures ContactEmail in ValidateForm(f) ==>
      ValidateForm(f)[ContactEmail] == (if Trim(f.contactEmail) == [] then EmailRequired
                                        else EmailInvalid)
  {
    BlankEmailRejected(f.contactEmail);
  }

  /** The phone is optional: an error only for a non-blank number the
      recogniser rejects. */
  lemma ValidateFormPhone(f: FormData)
    ensures ContactPhone in ValidateForm(f) <==> Trim(f.contactPhone) != [] && !ValidatePhoneNumber(f.contactPhone)
    ensures ContactPhone in ValidateForm(f) ==> ValidateForm(f)[ContactPhone] == PhoneInvalid
  {
  }

  /** The description needs 50 UTF-16 code units after trimming; the timeline must
      not be blank. */
  lemma ValidateFormText(f: FormData)
    ensures Description in ValidateForm(f) <==> Utf16Length(Trim(f.description)) < 50
    ensures Timeline in ValidateForm(f) <==> Trim(f.timeline) == []
    ensures Description in ValidateForm(f) ==>
      ValidateForm(f)[Description] == (if Trim(f.description) == [] then DescriptionRequired
                                       else DescriptionTooShort)
    ensures Timeline in ValidateForm(f) ==> ValidateForm(f)[Timeline] == TimelineRequired
  {
  }

  /** No errors at all exactly when every rule holds. */
  lemma ValidateFormEmptyIff(f: FormData)
    ensures ValidateForm(f) == map[] <==> FormIsComplete(f)
  {
    ValidateFormSelections(f);
    ValidateFormEmail(f);
    ValidateFormPhone(f);
    ValidateFormText(f);
    if FormIsComplete(f) {
      forall k: Field
        ensures k !in ValidateForm(f)
      {
        match k
        case CompanyName =>
        case ContactEmail =>
        case ContactPhone =>
        case ProjectType =>
        case Description =>
        case Timeline =>
        case BudgetRange =>
        case Files =>
      }
      assert ValidateForm(f).Keys == {};
    }
  }

  /** The description boundary: 49 trimmed code units are refused, 50 pass. */
  lemma DescriptionBoundary(f: FormData)
    ensures Utf16Length(Trim(f.description)) == 49 ==> Description in ValidateForm(f)
    ensures Utf16Length(Trim(f.description)) == 50 ==> Description !in ValidateForm(f)
  {
    ValidateFormText(f);
  }

  // ================================================================ attachments

  const PdfType: string := "application/pdf"
  const DocType: string := "application/msword"
  const DocxType: string := "application/vnd.openxmlformats-officedocument.wordprocessingml.document"
  const PngType: string := "image/png"
  const JpegType: string := "image/jpeg"
  const JpgType: string := "image/jpg"

  /** The attachment MIME types the portal accepts: PDF, DOC, DOCX, PNG, JPEG. */
  const AllowedFileTypes: seq<string> := [PdfType, DocType, DocxType, PngType, JpegType, JpgType]

  /** 5 MiB. */
  const MaxFileSize: int := 5 * 1024 * 1024

  /** `isValidFileType`. */
  predicate IsValidFileType(mimeType: string) {
    mimeType in AllowedFileTypes
  }

  /** `isValidFileSize`. */
  predicate IsValidFileSize(size: int) {
    size <= MaxFileSize
  }

  /** The size limit is inclusive at 5 MiB, and the type check is membership
      in the six listed types. */
  lemma FileCheckBoundaries()
    ensures IsValidFileSize(5242880) && !IsValidFileSize(5242881)
    ensures IsValidFileType(PdfType) && IsValidFileType(JpgType)
    ensures !IsValidFileType("image/gif") && !IsValidFileType("")
    ensures forall t :: IsValidFileType(t) <==> exists i :: 0 <= i < 6 && AllowedFileTypes[i] == t
  {
    assert AllowedFileTypes[5] == JpgType;
  }

  // ================================================================ status progress

  /** `getStatusProgress`: percent complete per status, 0 for any other string. */
  function StatusProgress(status: string): (p: int)
    ensures 0 <= p <= 100
    ensures p == 0 <==> ParseStatus(status).None?
    ensures p % 20 == 0
  {
    match ParseStatus(status)
    case None => 0
    case Some(Submitted) => 20
    case Some(UnderReview) => 40
    case Some(InProgress) => 60
    case Some(PendingClientFeedback) => 80
    case Some(Completed) => 100
  }

  /** Progress rises strictly along the status order of the dashboard. */
  lemma ProgressIncreasesAlongStatuses()
    ensures forall i, j :: 0 <= i < j < |ProjectStatuses| ==>
      StatusProgress(StatusLabel(ProjectStatuses[i])) < StatusProgress(StatusLabel(ProjectStatuses[j]))
    ensures StatusProgress(StatusLabel(Completed)) == 100
  {
  }

  // ================================================================ budgets

  /** `getBudgetRanges`: the five budget bands in the selected currency. */
  function GetBudgetRanges(currency: Currency): (r: seq<string>)
    ensures |r| == 5
    ensures forall i, j :: 0 <= i < j < |r| ==> r[i] != r[j]
    ensures forall i :: 0 <= i < |r| ==> r[i] != ""
    ensures currency == PHP ==> r == BudgetRanges
  {
    if currency == PHP then
      ["Under ₱50,000", "₱50,000 - ₱150,000", "₱150,000 - ₱300,000", "₱300,000 - ₱500,000", "Over ₱500,000"]
    else
      ["Under $900", "$900 - $2,700", "$2,700 - $5,400", "$5,400 - $9,000", "Over $9,000"]
  }

  /** The two currencies share no label, so a band chosen in one is never
      offered in the other. */
  lemma BudgetLabelsDisjoint()
    ensures forall i, j :: 0 <= i < 5 && 0 <= j < 5 ==> GetBudgetRanges(PHP)[i] != GetBudgetRanges(USD)[j]
  {
  }

  // ================================================================ notifications

  datatype NotificationKind = SubmissionEvent | StatusChangeEvent | FileUploadEvent

  datatype Notification = Notification(kind: NotificationKind, projectId: string, message: string, timestamp: int)

  /** `createNotification`: a custom message wins when non-empty; otherwise a
      default message naming the project is chosen by kind. */
  function CreateNotification(kind: NotificationKind, projectId: string, custom: Option<string>, now: int): (n: Notification)
    ensures n.kind == kind && n.projectId == projectId && n.timestamp == now
    ensures custom.Some? && custom.value != "" ==> n.message == custom.value
    ensures !(custom.Some? && custom.value != "") ==> Contains(n.message, projectId)
  {
    if custom.Some? && custom.value != "" then Notification(kind, projectId, custom.value, now)
    else
      var message :=
        match kind
        case SubmissionEvent => "New project submission received for project " + projectId
        case StatusChangeEvent => "Project " + projectId + " status has been updated"
        case FileUploadEvent => "New file uploaded for project " + projectId;
      ContainsSuffix("New project submission received for project ", projectId);
      ContainsInfix("Project ", projectId, " status has been updated");
      ContainsSuffix("New file uploaded for project ", projectId);
      Notification(kind, projectId, message, now)
  }
}
