# DrinkPH project portal — a Dafny model of its rules

This project models the core rules of the DrinkPH client portal (the yugen
repository), a React application. Clients use it to submit a project brief,
attach files and track progress. Admins use it to review submissions and
change their status. The model is written in Dafny, and everything the portal
decides without a server or a clock is a pure function or a small state
machine:

- **Validation library** (`Helpers`). This covers:
  - the e-mail recogniser: basic shape, then the denylist of typo TLDs, then the allow-list of suffixes;
  - the Philippine mobile-number recogniser;
  - the whole-form validator and its per-field error map;
  - the file type and size checks;
  - the status-to-progress mapping;
  - the per-currency budget bands;
  - the notification builder.

  The regular expressions are written as hand recognisers over `seq<char>`. Each one is proved equivalent to an existential "this string splits into these pieces" definition.
- **Live field validator** (`FieldValidation`). This is `validateField` and the field→verdict store with its get and clear operations.
- **Submission wizard** (`ClientPortal`). It covers:
  - the four-step gate of `nextStep` and the clamped `prevStep`;
  - field-local input changes;
  - the currency switch that resets the budget;
  - `handleSubmit`;
  - the draft auto-save, as a machine over an abstract millisecond clock.

  The debounce itself is `AutoSave`.
- **Attachment list** (`FileUpload`). The `handleFiles` acceptance loop is a verified method. `removeFile` is also modelled.
- **Admin dashboard** (`AdminPanel`). It covers:
  - row conversion;
  - the merge and de-duplication of saved submissions;
  - the mock fallback;
  - the search and status filters;
  - the status/notes update;
  - the per-status statistics.
- **Client tracker** (`StatusTracker`). This is the load guard and the search filter.
- **Authentication** (`AuthCore`, `AdminAuth`, `ClientAuth`).
  - The reducer shared by both contexts, and its invariant `isAuthenticated ⇔ user ≠ null`.
  - The 24-hour session and its strict expiry.
  - The structure check in `checkAuth`.
  - The admin demo-credential check and the client login decision over a looked-up record.
- **Sign-in forms** (`LoginForm`). This covers `isFormValid`, the submit guard, and the trim-and-lower-case normalisation.
- **Route guards** (`RouteGuard`). This is the spinner / redirect / render decision and the remembered `from` path.

`Text` and `Seqs` provide the ASCII string model (trim, lower-case, split, join, substring) and order-preserving filters. `Domain` holds the records and enumerations. Storage, the database and the clock are values passed in and returned.

## Model

| member | source | states |
|---|---|---|
| Domain.ParseStatus | src/types/index.ts:1-6 | a stored status string reads back as a status exactly when it is the label of one of the five statuses, and then as that status |
| Domain.Truthy | src/components/AdminPanel/AdminPanel.tsx:77 | `x \|\| undefined`: null and the empty string both become absent, anything else is kept |
| Domain.FromRow | src/components/AdminPanel/AdminPanel.tsx:72-88 | a database row becomes a project with every column copied, no files, and a null or empty phone or note read as absent; a phone or note that is present keeps its stored value |
| Domain.FromRows | src/components/AdminPanel/AdminPanel.tsx:72-88 | the conversion keeps the rows' number and order |
| Helpers.EmailParsePieces | src/utils/helpers.ts:45-46 | for an address of the form local@host.tld, splitting at '@' gives the local part and the domain, and splitting the domain at '.' ends with the TLD |
| Helpers.BasicEmailShapeSound | src/utils/helpers.ts:12-15 | a string the basic-shape recogniser accepts splits as local@host.tld with the allowed character classes and a TLD of two or more letters |
| Helpers.BasicEmailShapeComplete | src/utils/helpers.ts:12-15 | every string that splits that way is accepted by the recogniser |
| Helpers.BasicEmailShapeIff | src/utils/helpers.ts:12-15 | the recogniser accepts exactly the strings that split as local@host.tld |
| Helpers.EmailParseUnique | src/utils/helpers.ts:12-15 | such a split, when it exists, is unique |
| Helpers.ValidateEmailSound | src/utils/helpers.ts:8-85 | an accepted address normalises to local@host.tld with an alphabetic TLD of two or more letters that is not a typo TLD, and its domain ends in "." plus an allowed suffix |
| Helpers.ValidateEmailComplete | src/utils/helpers.ts:8-85 | every address whose normal form splits that way with a non-typo TLD and an allowed suffix is accepted |
| Helpers.ValidateEmail | src/utils/helpers.ts:8-85 | no contract of its own; characterised by `Helpers.ValidateEmailIff` |
| Helpers.ValidateEmailIff | src/utils/helpers.ts:8-85 | `validateEmail` holds exactly for the addresses whose normal form has that shape, a non-typo TLD and an allow-listed suffix |
| Helpers.DenylistedTldRejected | src/utils/helpers.ts:18-51 | an address whose last domain label is a typo TLD is rejected even though its shape matches |
| Helpers.NormaliseIdempotent | src/utils/helpers.ts:9 | trimming and lower-casing twice is the same as doing it once |
| Helpers.ValidateEmailNormalised | src/utils/helpers.ts:9 | the verdict on an address equals the verdict on its trimmed, lower-cased form |
| Helpers.BlankEmailRejected | src/utils/helpers.ts:9-15 | an empty or whitespace-only address is rejected |
| Helpers.NormalisedAlready | src/utils/helpers.ts:9 | an unpadded address without capitals is its own normal form |
| Helpers.TrimWellFormed | src/utils/helpers.ts:9 | a well-formed address has no padding to trim |
| Helpers.LowerAddress | src/utils/helpers.ts:9 | lower-casing an address lower-cases each of its parts and keeps the '@' and the '.' |
| Helpers.NormaliseWellFormed | src/utils/helpers.ts:9 | a well-formed address normalises to the address made of its lower-cased parts |
| Helpers.LowerKeepsClasses | src/utils/helpers.ts:9-15 | lower-casing keeps a part inside its character class |
| Helpers.DenylistedLabelRejected | src/utils/helpers.ts:18-51 | any well-formed local@host.tld whose TLD is on the typo list is rejected |
| Helpers.ConIsTypoLabel | src/utils/helpers.ts:20 | "con" is a two-letter-or-longer lower-case label on the typo list |
| Helpers.ConSpelling | src/utils/helpers.ts:20 | an address ending in ".con" is the address with TLD "con" |
| Helpers.TypoTldRejected | src/utils/helpers.ts:18-51 | "user@drinkph.con" and every well-formed address ending in ".con" are rejected |
| Helpers.ParsedAddressAccepted | src/utils/helpers.ts:12-84 | a normal-form address that splits as local@host.tld, with a non-typo TLD and an allowed suffix, passes the shape test and the domain test |
| Helpers.ComAllowed | src/utils/helpers.ts:54-84 | "com" is not a typo TLD, and every domain ending in ".com" carries an allowed suffix |
| Helpers.CorrectTldAccepted | src/utils/helpers.ts:8-85 | "user@drinkph.com" and every well-formed address ending in ".com" are accepted |
| Helpers.StripSpaces | src/utils/helpers.ts:89 | removing whitespace leaves no whitespace, never lengthens, and leaves a whitespace-free string as it was |
| Helpers.ValidatePhoneNumber | src/utils/helpers.ts:87-96 | no contract of its own; characterised by `Helpers.ValidatePhoneIff` |
| Helpers.ValidatePhoneIff | src/utils/helpers.ts:87-96 | a phone is accepted exactly when, with all whitespace removed, it is an optional "+63" or "0" followed by "9" and nine digits |
| Helpers.StripSpacesConcat | src/utils/helpers.ts:89 | whitespace removal distributes over concatenation |
| Helpers.StripAllSpace | src/utils/helpers.ts:89 | a run of whitespace vanishes completely |
| Helpers.WhitespaceIgnored | src/utils/helpers.ts:87-96 | inserting whitespace anywhere never changes the phone verdict, so "+63 917 123 4567" is judged like "+639171234567" |
| Helpers.PrefixedFormsAccepted | src/utils/helpers.ts:87-96 | a national number "9xxxxxxxxx" is accepted bare, with "0" and with "+63" |
| Helpers.LandlineRejected | src/utils/helpers.ts:87-96 | "081234567" is rejected |
| Helpers.ValidateForm | src/utils/helpers.ts:98-141 | the error map never has a `files` key, and every message in it is non-empty |
| Helpers.FieldError | src/utils/helpers.ts:98-141 | no contract of its own; characterised by `Helpers.FieldErrorsNonEmpty` and `Helpers.ValidateFormSelections`, `ValidateFormEmail`, `ValidateFormPhone` and `ValidateFormText` |
| Helpers.FieldErrorsNonEmpty | src/utils/helpers.ts:98-141 | each field's rule produces either no message or a non-empty one, and `files` never has one |
| Helpers.ValidateFormSelections | src/utils/helpers.ts:101-103 | the company key is present iff the trimmed company name is empty; the project-type and budget keys are present iff nothing is selected; each present key holds that field's "required" message |
| Helpers.ValidateFormEmail | src/utils/helpers.ts:105-109 | the e-mail key is present iff `validateEmail` fails, with the "required" message exactly for a blank address |
| Helpers.ValidateFormPhone | src/utils/helpers.ts:111-119 | the phone key is present iff the phone is non-blank and fails the mobile check, so a blank phone is never an error; the message is the Philippine-number hint |
| Helpers.ValidateFormText | src/utils/helpers.ts:125-134 | the description key is present iff the trimmed description is shorter than 50 UTF-16 code units; the timeline key is present iff the trimmed timeline is empty; the description message is "required" for a blank description and the 50-character one otherwise, and the timeline message is "required" |
| Helpers.ValidateFormEmptyIff | src/utils/helpers.ts:98-141 | the error map is empty exactly when every field rule holds |
| Helpers.DescriptionBoundary | src/utils/helpers.ts:125-130 | a description of 49 trimmed UTF-16 code units is rejected and one of 50 is accepted |
| Helpers.IsValidFileType | src/utils/helpers.ts:143-153 | no contract of its own; characterised by `Helpers.FileCheckBoundaries` |
| Helpers.IsValidFileSize | src/utils/helpers.ts:155-158 | no contract of its own; characterised by `Helpers.FileCheckBoundaries` |
| Helpers.FileCheckBoundaries | src/utils/helpers.ts:143-158 | a file type is allowed iff it is one of the six listed MIME types; 5242880 bytes passes and 5242881 does not |
| Helpers.StatusProgress | src/utils/helpers.ts:209-226 | progress lies in 0..100 in steps of 20, and is 0 exactly for a string that is not one of the five statuses |
| Helpers.ProgressIncreasesAlongStatuses | src/utils/helpers.ts:209-226 | progress strictly increases along the order of `projectStatuses`, reaching 100 at Completed |
| Helpers.GetBudgetRanges | src/utils/helpers.ts:317-335 | each currency has exactly five distinct, non-empty labels, and the peso list is `budgetRanges` |
| Helpers.BudgetLabelsDisjoint | src/utils/helpers.ts:317-335 | no peso label is also a dollar label |
| Helpers.CreateNotification | src/utils/helpers.ts:229-258 | a notification carries its kind, project and time; a non-empty custom message is used as is, otherwise the default text names the project |
| Text.ContainsSuffix | src/utils/helpers.ts:229-258 | a string contains whatever it ends with, so the submission and upload notifications name their project |
| FieldValidation.ValidateField | src/hooks/useFieldValidation.ts:12-61 | no contract of its own; characterised by `FieldValidation.EmailVerdict`, `PhoneVerdict`, `DescriptionVerdict` and `OtherFieldsNeutral` |
| FieldValidation.EmailVerdict | src/hooks/useFieldValidation.ts:16-24 | the e-mail verdict is invalid with "Email is required" iff the value is blank, and otherwise valid iff `validateEmail` accepts it |
| FieldValidation.PhoneVerdict | src/hooks/useFieldValidation.ts:26-34 | the phone verdict is invalid with "required" iff the value is blank, and otherwise valid iff the mobile check accepts it |
| FieldValidation.DescriptionVerdict | src/hooks/useFieldValidation.ts:41-49 | the description verdict is valid iff the trimmed description has 50 or more UTF-16 code units |
| FieldValidation.EmojiDescriptionPasses | src/hooks/useFieldValidation.ts:41-49 | twenty-five emoji, 50 UTF-16 code units but 25 characters, make a valid description |
| FieldValidation.OtherFieldsNeutral | src/hooks/useFieldValidation.ts:36-39 | the company name and every other field get the neutral verdict {valid, ""} |
| FieldValidation.DescriptionMessageCount | src/hooks/useFieldValidation.ts:41-49 | a short description's message embeds its trimmed length in UTF-16 code units, and that count parses back out of the message |
| FieldValidation.Validate | src/hooks/useFieldValidation.ts:55-60 | validating a field stores its verdict under that field only; every other entry is kept |
| FieldValidation.Clear | src/hooks/useFieldValidation.ts:67-73 | clearing removes that field's entry and keeps every other one |
| FieldValidation.Get | src/hooks/useFieldValidation.ts:63-65 | no contract of its own; characterised by `FieldValidation.GetAfterValidate` and `GetAfterClear` |
| FieldValidation.GetAfterValidate | src/hooks/useFieldValidation.ts:55-65 | after validating, reading the field gives the new verdict and reading any other field gives what it gave before |
| FieldValidation.GetAfterClear | src/hooks/useFieldValidation.ts:63-73 | after clearing, reading the field gives the default {valid, ""}, and other fields are unaffected |
| FieldValidation.EmailAgreesWithForm | src/hooks/useFieldValidation.ts:16-24 | the live e-mail verdict is valid exactly when the form validator reports no e-mail error |
| FieldValidation.DescriptionAgreesWithForm | src/hooks/useFieldValidation.ts:41-49 | the live description verdict is valid exactly when the form validator reports no description error |
| FieldValidation.PhoneAgreementAndBlankGap | src/hooks/useFieldValidation.ts:26-34 | on a non-blank phone the two validators agree; on a blank phone the live one says invalid while the form validator reports nothing |
| AutoSave.Schedule | src/components/ClientPortal/ClientPortal.tsx:46-55 | a change replaces any pending write with one carrying the new value, due `Delay` (1000 ms) from now |
| AutoSave.Advance | src/components/ClientPortal/ClientPortal.tsx:46-55 | time passing performs the pending write iff it has fallen due, writing exactly its value |
| AutoSave.RunEdits | src/components/ClientPortal/ClientPortal.tsx:46-55 | after a run of changes the pending write carries the last value and falls due `Delay` after the last change |
| AutoSave.BurstWritesLastValueOnly | src/components/ClientPortal/ClientPortal.tsx:46-55 | changes less than `Delay` apart write nothing; `Delay` after the last one, exactly the last value is written |
| ClientPortal.LooseEmail | src/components/ClientPortal/ClientPortal.tsx:83 | no contract of its own; characterised by `ClientPortal.LooseEmailIff` |
| ClientPortal.LooseEmailSound | src/components/ClientPortal/ClientPortal.tsx:83 | a string the step-1 e-mail pattern accepts splits as user@host.tail with no whitespace or '@' in any piece |
| ClientPortal.LooseEmailComplete | src/components/ClientPortal/ClientPortal.tsx:83 | every string that splits that way is accepted |
| ClientPortal.LooseEmailIff | src/components/ClientPortal/ClientPortal.tsx:83 | the step-1 pattern accepts exactly the strings that split as user@host.tail |
| ClientPortal.LooseEmailHasNoSpace | src/components/ClientPortal/ClientPortal.tsx:83 | an address passing the step-1 pattern contains no whitespace |
| ClientPortal.BlankFailsLoose | src/components/ClientPortal/ClientPortal.tsx:81-85 | a blank address fails the step-1 pattern |
| ClientPortal.TwoErrors | src/components/ClientPortal/ClientPortal.tsx:77-98 | a step's error map has a key exactly for each failing check, holding its message, and no other keys |
| ClientPortal.StepOneEmailError | src/components/ClientPortal/ClientPortal.tsx:81-86 | step 1 reports an e-mail error iff the address fails the loose pattern, with "required" exactly when it is blank |
| ClientPortal.Step1Errors | src/components/ClientPortal/ClientPortal.tsx:79-86 | step 1 checks only the trimmed company name and the loose e-mail pattern, never the phone |
| ClientPortal.Step2Errors | src/components/ClientPortal/ClientPortal.tsx:87-94 | step 2 checks only the project type and a trimmed description of at least 50 UTF-16 code units, with "required" exactly for a blank one |
| ClientPortal.Step3Errors | src/components/ClientPortal/ClientPortal.tsx:95-98 | step 3 checks only the timeline and the budget |
| ClientPortal.StepErrors | src/components/ClientPortal/ClientPortal.tsx:75-103 | steps 1–3 use their own checks; step 4 checks nothing |
| ClientPortal.LaterGatesImpliedByForm | src/components/ClientPortal/ClientPortal.tsx:87-98 | a form the submit-time validator accepts passes the step-2 and step-3 gates, and steps 1 and submit agree on the company name |
| ClientPortal.StrictShapeIsLoose | src/components/ClientPortal/ClientPortal.tsx:83 | every address with the strict shape passes the loose step-1 pattern |
| ClientPortal.TypoPassesStepOne | src/components/ClientPortal/ClientPortal.tsx:83 | "a@b.con" and every well-formed ".con" address pass step 1 but are rejected at submit |
| ClientPortal.WellFormedIsLoose | src/components/ClientPortal/ClientPortal.tsx:83 | every well-formed local@host.tld passes the step-1 pattern |
| ClientPortal.TrimLeadingSpace | src/utils/helpers.ts:9 | a leading space disappears under trimming |
| ClientPortal.LeadingSpaceKeepsVerdict | src/utils/helpers.ts:9 | a leading space never changes the submit-time e-mail verdict |
| ClientPortal.LeadingSpaceFailsLoose | src/components/ClientPortal/ClientPortal.tsx:83 | an address with a leading space always fails the untrimmed step-1 pattern |
| ClientPortal.PaddedFailsStepOne | src/components/ClientPortal/ClientPortal.tsx:83 | a valid address typed with a leading space is accepted at submit but blocked at step 1 |
| ClientPortal.SetField | src/components/ClientPortal/ClientPortal.tsx:57-63 | setting a field changes that field only |
| ClientPortal.NextStep | src/components/ClientPortal/ClientPortal.tsx:105-109 | the step advances by one, never past 4, iff the current step's checks find nothing; a failing step stays where it is, and step 4 stays at 4; the errors become exactly that step's error map; nothing else changes |
| ClientPortal.PrevStep | src/components/ClientPortal/ClientPortal.tsx:111-113 | going back never validates, gives max(step−1, 1), and changes nothing else |
| ClientPortal.HandleInputChange | src/components/ClientPortal/ClientPortal.tsx:57-69 | an input changes only its own field, clears only that field's error, and re-validates live fields |
| ClientPortal.HandleFilesChange | src/components/ClientPortal/ClientPortal.tsx:71-73 | the attachment list is replaced and nothing else changes |
| ClientPortal.ChangeCurrency | src/components/ClientPortal/ClientPortal.tsx:306-311 | switching currency always empties the budget choice and leaves every other field and the step alone |
| ClientPortal.CurrencyChangeClearsChoice | src/components/ClientPortal/ClientPortal.tsx:306-311 | after a switch the options are the new currency's five bands, and the empty budget is none of them |
| ClientPortal.SubmissionRecord | src/components/ClientPortal/ClientPortal.tsx:130-144 | the stored record has status "Submitted" and copies the form's fields, files included |
| ClientPortal.InitSatisfiesInv | src/components/ClientPortal/ClientPortal.tsx:18 | the page starts on a step in 1..4, with no pending save |
| ClientPortal.StepPreservesInv | src/components/ClientPortal/ClientPortal.tsx:18-180 | every event keeps the step in 1..4, and keeps any pending save carrying the current form and due within 1000 ms |
| ClientPortal.Inv | src/components/ClientPortal/ClientPortal.tsx:18-55 | no contract of its own; characterised by `ClientPortal.InitSatisfiesInv`, `StepPreservesInv` and `RunPreservesInv` |
| ClientPortal.Step | src/components/ClientPortal/ClientPortal.tsx:39-180 | no contract of its own; characterised by `ClientPortal.StepPreservesInv` and the per-event lemmas |
| ClientPortal.Run | src/components/ClientPortal/ClientPortal.tsx:18-180 | no contract of its own; characterised by `ClientPortal.RunPreservesInv` |
| ClientPortal.SubmitStep | src/components/ClientPortal/ClientPortal.tsx:115-180 | no contract of its own; characterised by `ClientPortal.SubmitFailure` and `SubmitSuccess` |
| ClientPortal.RunPreservesInv | src/components/ClientPortal/ClientPortal.tsx:18-180 | any sequence of events keeps that invariant |
| ClientPortal.SubmitFailure | src/components/ClientPortal/ClientPortal.tsx:116-122 | a submit the validator rejects sets the errors to its map, goes to step 1, and stores nothing |
| ClientPortal.SubmitSuccess | src/components/ClientPortal/ClientPortal.tsx:124-158 | a valid submit appends exactly one record with the form's contents, keeps the earlier records, removes the draft, and shows success |
| ClientPortal.ResetAfterSuccess | src/components/ClientPortal/ClientPortal.tsx:159-172 | after the success timer the form is the empty form on step 1 |
| ClientPortal.AutoSaveWritesCurrentForm | src/components/ClientPortal/ClientPortal.tsx:46-55 | whenever the clock writes a draft, it writes the form as it is at that moment |
| ClientPortal.ChangeIsSaved | src/components/ClientPortal/ClientPortal.tsx:46-69 | 1000 ms after an input the stored draft is the form holding the new value |
| ClientPortal.MountRestoresDraft | src/components/ClientPortal/ClientPortal.tsx:39-44 | on mount a stored draft replaces the form |
| ClientPortal.DraftRoundTrip | src/components/ClientPortal/ClientPortal.tsx:39-69 | a saved draft reloaded on a later mount gives back the form with the typed value |
| ClientPortal.RestoredBudgetOutsideOptions | src/components/ClientPortal/ClientPortal.tsx:19 | a draft's budget is restored as is, even when it is not among the peso options on screen |
| FileUpload.Attach | src/components/FileUpload/FileUpload.tsx:55-62 | an accepted attachment copies name, size and type from its file and gets its id, content and time |
| FileUpload.Admissible | src/components/FileUpload/FileUpload.tsx:37-68 | no contract of its own; characterised by `FileUpload.AdmittedValid` and `SkippedFileIsTransparent` |
| FileUpload.Admitted | src/components/FileUpload/FileUpload.tsx:24-83 | no contract of its own; characterised by `FileUpload.AdmittedBounds`, `AdmittedValid`, `AdmittedComeFromPicked` and `HandleFiles` |
| FileUpload.AdmittedBounds | src/components/FileUpload/FileUpload.tsx:31-35 | the loop adds at most one attachment per picked file, nothing once the cap is reached, and never more than the cap |
| FileUpload.AdmittedValid | src/components/FileUpload/FileUpload.tsx:37-47 | every added attachment has an allowed type and at most 5242880 bytes |
| FileUpload.AdmittedComeFromPicked | src/components/FileUpload/FileUpload.tsx:49-68 | every added attachment is a copy of one of the picked files |
| FileUpload.HandleFiles | src/components/FileUpload/FileUpload.tsx:24-83 | the loop returns the old list followed by the accepted files, in input order |
| FileUpload.HandleFilesResult | src/components/FileUpload/FileUpload.tsx:31-75 | the old list is kept as a prefix; within the cap the result stays within the cap; a full list is returned unchanged; added entries are valid |
| FileUpload.SkippedFileIsTransparent | src/components/FileUpload/FileUpload.tsx:37-68 | a file failing the type, size or read check is skipped without using a slot, as if it had not been picked |
| FileUpload.RemoveFile | src/components/FileUpload/FileUpload.tsx:94-98 | removal drops every entry with the id and keeps all others in order |
| FileUpload.RemoveAbsentId | src/components/FileUpload/FileUpload.tsx:94-98 | removing an id not in the list changes nothing |
| AdminPanel.Merge | src/components/AdminPanel/AdminPanel.tsx:96-101 | the merged list starts with the converted rows unchanged, and grows by at most the number of saved projects |
| AdminPanel.MergeCoversSaved | src/components/AdminPanel/AdminPanel.tsx:96-101 | after the merge every saved project's id is present |
| AdminPanel.MergeAppendsNew | src/components/AdminPanel/AdminPanel.tsx:96-101 | every appended entry is a saved project whose id the rows did not have |
| AdminPanel.MergeKeepsDistinct | src/components/AdminPanel/AdminPanel.tsx:96-101 | the merge never introduces a duplicate id |
| AdminPanel.MergeKeepsNew | src/components/AdminPanel/AdminPanel.tsx:96-101 | a saved project with an id new to the rows and to earlier saved projects is appended |
| AdminPanel.FindId | src/components/AdminPanel/AdminPanel.tsx:98 | the search finds an id iff some project has it |
| AdminPanel.MergeSaved | src/components/AdminPanel/AdminPanel.tsx:96-101 | the `forEach` loop computes the merge |
| AdminPanel.LoadProjects | src/components/AdminPanel/AdminPanel.tsx:56-134 | rows give the converted rows first, in order; a non-array or a failure gives the mock projects then all saved ones; every saved project's id ends up present |
| AdminPanel.LoadedIdsDistinct | src/components/AdminPanel/AdminPanel.tsx:96-101 | with distinct row ids, no project is listed twice |
| AdminPanel.SavedOnlyProjectShown | src/components/AdminPanel/AdminPanel.tsx:96-101 | a saved project missing from the database is shown |
| AdminPanel.FilterProjects | src/components/AdminPanel/AdminPanel.tsx:136-160 | a project is shown iff it matches the search (or the term is empty) and the status filter |
| AdminPanel.FilterProjectsIsOneFilter | src/components/AdminPanel/AdminPanel.tsx:136-160 | the two filters together are one order-preserving filter, so the result is a subsequence |
| AdminPanel.MatchesSearch | src/components/AdminPanel/AdminPanel.tsx:140-153 | no contract of its own; characterised by `AdminPanel.FilterProjects` and `SearchIgnoresCase` |
| AdminPanel.SearchIgnoresCase | src/components/AdminPanel/AdminPanel.tsx:140-153 | the search does not depend on the case of the term |
| AdminPanel.NoFilterShowsAll | src/components/AdminPanel/AdminPanel.tsx:136-160 | no term and "all" shows every project in order |
| AdminPanel.Edited | src/components/AdminPanel/AdminPanel.tsx:176-191 | an edit sets status, notes and time and keeps everything else |
| AdminPanel.ApplyEdit | src/components/AdminPanel/AdminPanel.tsx:182-193 | only projects with the id are edited; length and all other entries are unchanged |
| AdminPanel.HandleStatusUpdate | src/components/AdminPanel/AdminPanel.tsx:162-206 | with an updated row the list and selection carry the edit; with a null row or an error only the edit mode ends; with no selection nothing happens |
| AdminPanel.ApplyEditKeepsIds | src/components/AdminPanel/AdminPanel.tsx:182-193 | an edit keeps the ids and their order |
| AdminPanel.ApplyEditIdempotent | src/components/AdminPanel/AdminPanel.tsx:182-193 | applying the same edit twice is applying it once |
| AdminPanel.ApplyEditAbsentId | src/components/AdminPanel/AdminPanel.tsx:182-193 | an id not in the list leaves the list unchanged |
| AdminPanel.StatusCount | src/components/AdminPanel/AdminPanel.tsx:221-228 | a status count is at most the number of projects |
| AdminPanel.StatusStats | src/components/AdminPanel/AdminPanel.tsx:221-228 | one entry per status, in `projectStatuses` order, each with the count of projects whose status is exactly that one |
| AdminPanel.StatusCountStep | src/components/AdminPanel/AdminPanel.tsx:221-228 | adding a project adds one to its own status's count only |
| AdminPanel.OneLabelMatches | src/components/AdminPanel/AdminPanel.tsx:221-228 | a stored status matches exactly one label if it is one of the five, and none otherwise |
| AdminPanel.FiveCountsAreKnown | src/components/AdminPanel/AdminPanel.tsx:221-228 | the five counts together count each project with a known status exactly once |
| AdminPanel.TotalOfFive | src/components/AdminPanel/AdminPanel.tsx:221-228 | the total of a five-entry table is the sum of its entries |
| AdminPanel.StatsAddUp | src/components/AdminPanel/AdminPanel.tsx:221-228 | the statistics add up to the number of projects whose status is one of the five |
| StatusTracker.LoadTracked | src/components/StatusTracker/StatusTracker.tsx:44-88 | no user or no id, a query error or an exception give the empty list; data gives the converted rows in order, with no files |
| StatusTracker.Tracked | src/components/StatusTracker/StatusTracker.tsx:91-96 | no contract of its own; characterised by `StatusTracker.FilterTracked` and `TrackedImpliesAdminMatch` |
| StatusTracker.FilterTracked | src/components/StatusTracker/StatusTracker.tsx:91-96 | a project is kept iff the term matches the company or e-mail case-insensitively or the id case-sensitively; the result is a subsequence |
| StatusTracker.ContainsEmpty | src/components/StatusTracker/StatusTracker.tsx:91-96 | every string contains the empty term |
| StatusTracker.EmptySearchKeepsAll | src/components/StatusTracker/StatusTracker.tsx:91-96 | an empty search keeps every project in order |
| StatusTracker.TrackedImpliesAdminMatch | src/components/StatusTracker/StatusTracker.tsx:91-96 | whatever the client's search finds, the admin search for the same term finds too |
| AuthCore.Initial | src/contexts/AuthContext.tsx:53-58 | the initial state has no user, is not authenticated, is loading and has no error |
| AuthCore.LoggedOut | src/contexts/AuthContext.tsx:41-47 | the logged-out state has no user, is not authenticated, not loading and error-free |
| AuthCore.Reduce | src/contexts/AuthContext.tsx:18-51 | SET_LOADING changes only the flag; SET_USER sets the user, authentication iff a user, no loading and no error; SET_ERROR sets the error, ends loading and keeps the user; CLEAR_ERROR changes only the error; LOGOUT gives the logged-out state |
| AuthCore.ReducePreservesConsistency | src/contexts/AuthContext.tsx:18-51 | every action keeps `isAuthenticated ⇔ user ≠ null` |
| AuthCore.ReduceAllPreservesConsistency | src/contexts/AuthContext.tsx:18-58 | every state reached from `initialState` satisfies `isAuthenticated ⇔ user ≠ null` |
| AuthCore.ReduceAllConcat | src/contexts/AuthContext.tsx:18-51 | dispatching two runs in turn is dispatching their concatenation |
| AuthCore.LogoutForgets | src/contexts/AuthContext.tsx:41-47 | LOGOUT gives the same state whatever came before |
| AuthCore.NewSession | src/contexts/AuthContext.tsx:92-96 | a new session holds the user and expires 86400000 ms after its timestamp |
| AuthCore.Restores | src/contexts/AuthContext.tsx:137-169 | no contract of its own; characterised by `AuthCore.CheckAuth` and `SessionRoundTrip` |
| AuthCore.CheckAuth | src/contexts/AuthContext.tsx:137-169 | the check restores the stored user iff the session is unexpired and the user has an id and an e-mail; otherwise it clears the storage and only ends loading |
| AuthCore.SessionRoundTrip | src/contexts/AuthContext.tsx:92-96 | a session written at login restores its user exactly while now ≤ login + 24 h |
| AuthCore.Expired | src/contexts/AuthContext.tsx:145-150 | no contract of its own; characterised by `AuthCore.ExpiryIsStrict` |
| AuthCore.ExpiryIsStrict | src/contexts/AuthContext.tsx:145-150 | a session is still valid at its expiry instant and expired 1 ms later, unless the expiry is 0 |
| AuthCore.SignOut | src/contexts/AuthContext.tsx:123-135 | logout clears the storage and yields the logged-out state |
| AuthCore.SignOutThenCheckAuth | src/contexts/AuthContext.tsx:123-169 | after logout a check at any time leaves the visitor logged out |
| AdminAuth.DemoAdmin | src/contexts/AuthContext.tsx:82-89 | the signed-in admin has a "demo-admin-" id, the demo e-mail and username, the admin role, and the login time |
| AdminAuth.DemoAdminIdsDiffer | src/contexts/AuthContext.tsx:83 | logins at different instants get different ids |
| AdminAuth.Login | src/contexts/AuthContext.tsx:69-121 | login succeeds iff the e-mail and password equal the demo credentials exactly (and the session is stored); failure keeps the user, sets the error and returns the invalid-credentials message exactly for a mismatch and the login-failed message when the demo credentials match but the session cannot be stored |
| AdminAuth.CheckAdmin | src/contexts/AuthContext.tsx:137-169 | the admin check restores a well-formed unexpired session and drops any other |
| AdminAuth.LoginThenReload | src/contexts/AuthContext.tsx:69-169 | a reload within 24 h of a demo login signs the same admin back in; after that the session is dropped |
| AdminAuth.FailedLoginKeepsSession | src/contexts/AuthContext.tsx:103-111 | a failed login does not sign out a signed-in admin or touch storage |
| ClientAuth.OrEmpty | src/contexts/ClientAuthContext.tsx:121-123 | a missing text column reads as "" |
| ClientAuth.UserOf | src/contexts/ClientAuthContext.tsx:118-126 | the client user takes its id from `user_id`, copies the e-mail, defaults a missing username or full name to "", and keeps a non-empty last-login value as stored |
| ClientAuth.PasswordMatches | src/contexts/ClientAuthContext.tsx:106 | no contract of its own; characterised by `ClientAuth.Login` |
| ClientAuth.Login | src/contexts/ClientAuthContext.tsx:83-144 | login succeeds iff an active record was found and its stored password equals the typed one; on success the session holds that user; on failure the state keeps its user and shows the error |
| ClientAuth.UnknownAndWrongPasswordAlike | src/contexts/ClientAuthContext.tsx:96-116 | an unknown e-mail and a wrong password give identical results |
| ClientAuth.CheckClient | src/contexts/ClientAuthContext.tsx:158-181 | the client check restores a well-formed unexpired session and clears any other |
| ClientAuth.LoginThenReload | src/contexts/ClientAuthContext.tsx:118-181 | a reload within 24 h of a login restores the client iff the record has a non-empty user id and e-mail |
| ClientAuth.LogoutThenReload | src/contexts/ClientAuthContext.tsx:146-181 | after logout a reload finds nobody signed in |
| LoginForm.IsFormValid | src/components/AdminLogin/AdminLogin.tsx:83 | no contract of its own; characterised by `LoginForm.FillAdminDemo` and `GuardWeakerThanButton`; the password length counts UTF-16 code units |
| LoginForm.SubmitEnabled | src/components/AdminLogin/AdminLogin.tsx:213 | no contract of its own; characterised by `LoginForm.GuardWeakerThanButton` |
| LoginForm.Normalise | src/components/AdminLogin/AdminLogin.tsx:60-63 | the e-mail sent to login is trimmed and has no capitals, and is empty iff the typed e-mail was blank; the password is sent verbatim |
| LoginForm.NormaliseIdempotent | src/components/AdminLogin/AdminLogin.tsx:60-63 | normalising twice is normalising once |
| LoginForm.HandleSubmit | src/components/AdminLogin/AdminLogin.tsx:50-74 | nothing happens iff the e-mail or the password is empty; otherwise login receives the normalised credentials and the submitting flag ends false |
| LoginForm.GuardWeakerThanButton | src/components/AdminLogin/AdminLogin.tsx:53-55 | an enabled button always gets past the guard, but the guard alone lets a blank e-mail through |
| LoginForm.FillAdminDemo | src/components/AdminLogin/AdminLogin.tsx:76-83 | the admin demo button fills the demo credentials, and that form is valid |
| LoginForm.FillClientDemo | src/components/ClientLogin/ClientLogin.tsx:50-57 | either client demo button fills that entry's credentials, and that form is valid |
| LoginForm.LowerMatches | src/components/AdminLogin/AdminLogin.tsx:61 | lower-casing equals a character-by-character lower-case target |
| LoginForm.PaddedNormalises | src/components/AdminLogin/AdminLogin.tsx:60-63 | an address typed with padding and capitals normalises to its lower-case form |
| LoginForm.DemoEmailNormal | src/components/AdminLogin/AdminLogin.tsx:60-63 | the demo address is already normalised |
| LoginForm.FilledDemoSignsIn | src/components/AdminLogin/AdminLogin.tsx:60-81 | submitting the filled-in demo form signs in |
| LoginForm.TypedDemoNormalises | src/components/AdminLogin/AdminLogin.tsx:60-63 | " Admin@DrinkPH-Demo.com " normalises to the demo address |
| LoginForm.PaddedDemoSignsIn | src/components/AdminLogin/AdminLogin.tsx:60-63 | " Admin@DrinkPH-Demo.com " with the demo password signs in |
| RouteGuard.FromPath | src/components/Auth/ProtectedRoute.tsx:46-47 | the remembered path is the current one, except that the sign-in page is replaced by the area's home |
| RouteGuard.Guard | src/components/Auth/ProtectedRoute.tsx:24-53 | spinner iff loading; render iff not loading, authenticated and with a user; otherwise redirect to the fallback with the remembered path |
| RouteGuard.AdminGuard | src/components/Auth/ProtectedRoute.tsx:18-53 | the admin page renders only for an authenticated admin; the default redirect goes to "/admin/login" and never remembers that page |
| RouteGuard.ClientGuard | src/components/Auth/ClientProtectedRoute.tsx:17-47 | the client page renders only for an authenticated client; the default redirect goes to "/client/login" and never remembers that page |
| RouteGuard.ConsistentStateDecidesByFlag | src/components/Auth/ProtectedRoute.tsx:44-53 | on any state the reducer can reach, once loading is over the flag alone decides between render and redirect |
| RouteGuard.AdminGuardLifecycle | src/components/Auth/ProtectedRoute.tsx:24-53 | before the session check the spinner shows; after a demo login the page renders; after logout the visitor is redirected |
| Seqs.Filter | src/components/AdminPanel/AdminPanel.tsx:141-157 | a filter keeps exactly the elements passing the test, in order |
| Seqs.FilterTwice | src/components/AdminPanel/AdminPanel.tsx:136-160 | filtering by one test and then another is filtering by both |
| Text.SplitJoin | src/utils/helpers.ts:45-46 | joining the pieces of a split with the separator gives back the string |
| Text.Utf16Length | src/hooks/useFieldValidation.ts:43-46 | `length` counts UTF-16 code units: at least one and at most two per character |
| Text.Utf16LengthConcat | src/hooks/useFieldValidation.ts:43-46 | code units add up over concatenation |
| Text.Utf16LengthOfBmp | src/hooks/useFieldValidation.ts:43-46 | below U+10000 the code-unit count equals the character count |
| Text.Utf16LengthOfAstral | src/hooks/useFieldValidation.ts:43-46 | characters above U+FFFF count two code units each |
| Text.DecimalRoundTrip | src/contexts/AuthContext.tsx:83 | the decimal text of a number reads back as that number |

## Left out

- I/O is not modelled: storage, the database, `FileReader` and toasts. Each becomes a parameter or a result value:
  - the stored draft;
  - the saved submissions;
  - the outcome of the project query and of the update;
  - the client-table lookup;
  - whether a file's content could be read;
  - whether the session could be written (`storageWorks`).

  Log lines and toasts have no state and are dropped.
- Simulated delays and intervals are not modelled: the 800 ms login delay, the 1500 ms upload delay, and the 60 s re-check interval of both auth contexts. The 3500 ms post-submit reset timer is an event (`SuccessTimer`) with no duration. The 2000 ms submit delay only advances the auto-save clock. The submit runs atomically, and its catch branch, which only toasts, is not modelled.
- `generateId` and `Date.now` are not modelled, because they are random and time-dependent. Ids and timestamps are parameters. One `now` stamps every attachment of an upload. `AdminPanel.HandleStatusUpdate` and `ClientPortal.SubmissionRecord` also use one `now` for both timestamps, where the source calls `new Date()` twice; the two readings may differ by a millisecond there.
- `FileUpload.HandleFiles`: its `maxSize` prop is not modelled. The source ignores it and checks the fixed 5 MiB limit.
- Floating point and locale are not modelled: `formatFileSize`, `convertCurrency`, date formatting, progress-bar widths and `getStatusColor`.
- Unicode is modelled only in lengths. `Text.Utf16Length` counts UTF-16 code units, as JavaScript's `length` does, so a character above U+FFFF counts two. Trimming, lower-casing and `\s` follow ASCII: whitespace is space and tab through carriage return, and only A–Z are lower-cased.
- Passwords are compared as plain equality. No security property is claimed.
- The `window.location` redirect in `logout` is not modelled, because it is navigation, not state.
- The Supabase query's ordering, its `.single()` semantics and its `is_active` filter are not modelled. They live in the lookup parameter.
- `mockProjects` is a parameter of `AdminPanel.LoadProjects`, because its contents are sample data.
- Only the form's own fields are modelled in `FieldValidation.Validate`. Its store is keyed by `Field`, the form's field names, so verdicts stored under other strings are not modelled.
- `Helpers.CreateNotification` does not model the fallback branch. That branch is unreachable because a notification has only three kinds.
- The budget is checked only for being non-empty, as the source does. A draft restored with a budget from the other currency is kept, and `ClientPortal.RestoredBudgetOutsideOptions` states this.
- `ClientPortal.HandleInputChange` clears an error by removing its key. The source sets the key to `undefined`, which every reader treats the same way.
- The reset after a successful submit leaves the empty form in place. The next auto-save then stores that empty form as the draft, as the source's effect does.
- `ClientAuth.Login` does not require the record's `user_id` to be non-empty. A client whose record lacks it signs in once but is not restored on reload, as `ClientAuth.LoginThenReload` states.
- Presentation components are not part of this model: animations, headers, the error boundary and the validation-message widget.
