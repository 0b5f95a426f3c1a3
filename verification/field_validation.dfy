/** The live field validator of src/hooks/useFieldValidation.ts: a verdict
    per field value, and the field → verdict map the hook keeps. The hook
    receives the form's property names; the model keys them by `Field`. */
module FieldValidation {
  import opened Text
  import opened Domain
  import opened Helpers

  datatype ValidationResult = ValidationResult(isValid: bool, message: string)

  /** The verdict for fields without live checks. */
  const Neutral: ValidationResult := ValidationResult(true, "")

  const EmailMissing: string := "Email is required"
  const EmailMalformed: string := "Please enter a valid email (e.g., user@gmail.com)"
  const EmailAccepted: string := "Valid email address"
  const PhoneMissing: string := "Phone number is required"
  const PhoneMalformed: string := "Please enter a valid PH mobile number (e.g., +63 976 125 1205)"
  const PhoneAccepted: string := "Valid Philippine mobile number"
  const DescriptionPrefix: string := "Please provide at least 50 characters ("
  const DescriptionSuffix: string := "/50)"
  const GoodDescriptionPrefix: string := "Good description ("
  const GoodDescriptionSuffix: string := " characters)"

  /** `validateField`'s verdict (without the store update). */
  function ValidateField(field: Field, value: string): ValidationResult {
    var t := Trim(value);
    if field == ContactEmail then
      if t == [] then ValidationResult(false, EmailMissing)
      else if !ValidateEmail(value) then ValidationResult(false, EmailMalformed)
      else ValidationResult(true, EmailAccepted)
    else if field == ContactPhone then
      if t == [] then ValidationResult(false, PhoneMissing)
      else if !ValidatePhoneNumber(value) then ValidationResult(false, PhoneMalformed)
      else ValidationResult(true, PhoneAccepted)
    else if field == Description then
      if t == [] then ValidationResult(false, DescriptionRequired)
      else if Utf16Length(t) < 50 then ValidationResult(false, DescriptionPrefix + Decimal(Utf16Length(t)) + DescriptionSuffix)
      else ValidationResult(true, GoodDescriptionPrefix + Decimal(Utf16Length(t)) + GoodDescriptionSuffix)
    else Neutral
  }

  /** The e-mail verdict: "required" exactly on a blank value, valid exactly
      when the submit-time e-mail validator accepts it. */
  lemma EmailVerdict(value: string)
    ensures var r := ValidateField(ContactEmail, value);
      && (r == ValidationResult(false, EmailMissing) <==> Trim(value) == [])
      && (r.isValid <==> ValidateEmail(value))
  {
    BlankEmailRejected(value);
  }

  /** The phone verdict: "required" exactly on a blank value, valid exactly
      on a non-blank value the mobile-number check accepts. */
  lemma PhoneVerdict(value: string)
    ensures var r := ValidateField(ContactPhone, value);
      && (r == ValidationResult(false, PhoneMissing) <==> Trim(value) == [])
      && (r.isValid <==> Trim(value) != [] && ValidatePhoneNumber(value))
  {
  }

  /** The description verdict: valid exactly from 50 trimmed UTF-16 code units on,
      "required" exactly on a blank value. */
  lemma DescriptionVerdict(value: string)
    ensures var r := ValidateField(Description, value);
      && (r.isValid <==> Utf16Length(Trim(value)) >= 50)
      && (r == ValidationResult(false, DescriptionRequired) <==> Trim(value) == [])
  {
  }

  /** The threshold counts code units: twenty-five emoji (each a surrogate
      pair) make a valid description, though they are only 25 characters. */
  lemma EmojiDescriptionPasses(value: string)
    requires |value| == 25
    requires forall i :: 0 <= i < |value| ==> value[i] == '\U{1F600}'
    ensures ValidateField(Description, value).isValid
  {
    TrimUnpadded(value);
    Utf16LengthOfAstral(value);
    DescriptionVerdict(value);
  }

  /** Every other field gets the neutral verdict. */
  lemma OtherFieldsNeutral(field: Field, value: string)
    requires field !in {ContactEmail, ContactPhone, Description}
    ensures ValidateField(field, value) == Neutral
  {
  }

  /** A short description's message reports its trimmed length in code units, and that
      count can be read back out of the message. */
  lemma DescriptionMessageCount(value: string)
    requires 0 < Utf16Length(Trim(value)) < 50
    ensures var m := ValidateField(Description, value).message;
      && StartsWith(m, DescriptionPrefix)
      && EndsWith(m, DescriptionSuffix)
      && |m| >= |DescriptionPrefix| + 4
      && ParseDecimal(m[|DescriptionPrefix|..|m| - 4]) == Utf16Length(Trim(value))
  {
    var n := Utf16Length(Trim(value));
    var m := ValidateField(Description, value).message;
    assert m == DescriptionPrefix + Decimal(n) + DescriptionSuffix;
    assert m[|DescriptionPrefix|..|m| - 4] == Decimal(n);
    DecimalRoundTrip(n);
  }

  // ---------------------------------------------------------------- the verdict store

  /** `validationResults`: the latest verdict per field name. */
  type Results = map<Field, ValidationResult>

  /** `validateField` with its store update: the verdict is returned and
      recorded under `field`, and no other entry changes. */
  function Validate(results: Results, field: Field, value: string): (out: (ValidationResult, Results))
    ensures out.0 == ValidateField(field, value)
    ensures field in out.1 && out.1[field] == out.0
    ensures forall k :: k in results && k != field ==> k in out.1 && out.1[k] == results[k]
    ensures forall k :: k in out.1 ==> k == field || k in results
  {
    var r := ValidateField(field, value);
    (r, results[field := r])
  }

  /** `getFieldValidation`: the stored verdict, or the neutral one. */
  function Get(results: Results, field: Field): ValidationResult {
    if field in results then results[field] else Neutral
  }

  /** `clearFieldValidation`: forget one field's verdict. */
  function Clear(results: Results, field: Field): (r: Results)
    ensures field !in r
    ensures forall k :: k in results && k != field ==> k in r && r[k] == results[k]
    ensures forall k :: k in r ==> k in results
  {
    results - {field}
  }

  /** Reading a field after validating it returns the fresh verdict; other
      fields read as before. */
  lemma GetAfterValidate(results: Results, field: Field, value: string, other: Field)
    ensures Get(Validate(results, field, value).1, field) == ValidateField(field, value)
    ensures other != field ==> Get(Validate(results, field, value).1, other) == Get(results, other)
  {
  }

  /** Reading a field after clearing it returns the neutral verdict; other
      fields read as before. */
  lemma GetAfterClear(results: Results, field: Field, other: Field)
    ensures Get(Clear(results, field), field) == Neutral
    ensures other != field ==> Get(Clear(results, field), other) == Get(results, other)
  {
  }

  // ---------------------------------------------------------------- agreement with validateForm

  /** The live e-mail verdict agrees with the submit-time validator. */
  lemma EmailAgreesWithForm(f: FormData)
    ensures ValidateField(ContactEmail, f.contactEmail).isValid <==> ContactEmail !in ValidateForm(f)
  {
    EmailVerdict(f.contactEmail);
    ValidateFormEmail(f);
  }

  /** The live description verdict agrees with the submit-time validator. */
  lemma DescriptionAgreesWithForm(f: FormData)
    ensures ValidateField(Description, f.description).isValid <==> Description !in ValidateForm(f)
  {
    DescriptionVerdict(f.description);
    ValidateFormText(f);
  }

  /** On a non-blank phone the two validators agree; on a blank one the
      live check complains while the form validator treats the phone as
      optional. */
  lemma PhoneAgreementAndBlankGap(f: FormData)
    ensures Trim(f.contactPhone) != [] ==>
      (ValidateField(ContactPhone, f.contactPhone).isValid <==> ContactPhone !in ValidateForm(f))
    ensures Trim(f.contactPhone) == [] ==>
      !ValidateField(ContactPhone, f.contactPhone).isValid && ContactPhone !in ValidateForm(f)
  {
    PhoneVerdict(f.contactPhone);
    ValidateFormPhone(f);
  }
}
