# Member registration rules, modelled in Dafny

This project models the registration logic of the member-join form
(`main.py`). The form takes a name, a surname, a mobile number and an e-mail
address. It strips the four fields and validates them. It then asks the
members table whether the mobile or the e-mail is already registered. It
either shows every problem it found, or stores the member and shows a
welcome.

The model has four modules, one file each:

- `text.dfy` (`Text`): Python's `str.strip()`, `str.lower()` and `str.join()`
  on ASCII text.
- `validators.dfy` (`Validators`): `is_valid_mobile`, `is_valid_email` and
  the mobile-cleaning rule `re.sub(r'[\s\-\(\)]', '', ...)`.
- `members.dfy` (`Members`): the members table with its two unique indexes;
  `save_member_to_db`, `check_mobile_exists`, `check_email_exists` and the
  ordering of `get_all_members`. The SQLite table is replaced by a sequence
  of rows. `Members.Save` is the insert as a function on table values.
  `Members.MemberStore` is a class whose `Insert` method changes the rows in
  place and is proved against `Save`.
- `registration.dfy` (`Registration`): `submit_form`. The four input
  widgets become a `Request` value. The status label and the clearing of
  the inputs become an `Outcome` value (text, colour, clear-inputs flag).
  `Submission` is the whole workflow as a function of the table, the
  request and the storage faults. `SubmitForm` is the same workflow as a
  method on a `MemberStore`, proved against `Submission`.

The `except Exception` paths of the store functions are modelled by a
`Faults` value. A probe that raises answers "not registered". An insert
that raises answers false and leaves the table unchanged.

The registration timestamp (`datetime.now()`, main.py:65) is replaced by the
AUTOINCREMENT id, and the listing is ordered by id. That agrees with
`ORDER BY registration_date DESC` (main.py:132) as long as the local clock
never goes back between two registrations.

Notes on the code:

- `submit_form` sends no confirmation e-mail. The mail client in
  `test_email.py` is left out.
- The pattern at main.py:13 is applied with `re.match` and ends in `$`
  (main.py:14), so it also accepts one trailing newline.
  `Validators.IsValidEmail` keeps that behaviour.
  `Validators.StrippedEmailValid` shows that it never matters inside
  `submit_form`, because the field is stripped first.
- The `[a-zA-Z]{2,}` at main.py:13 rejects a top-level label of one letter
  (`a@b.c`).

## Model

| member | source | states |
|---|---|---|
| Text.Strip | main.py:147-150 | the result has no whitespace at either end, and it is empty exactly when the input is all whitespace |
| Text.StripPadded | main.py:147-150 | stripping removes exactly the whitespace padding around a string whose ends are not whitespace |
| Text.StripSplits | main.py:147-150 | every string is its stripped form with whitespace-only padding before and after |
| Text.StripIdempotent | main.py:147-150 | stripping twice gives the same result as stripping once |
| Text.Lower | main.py:65 | the lower-cased e-mail has the input's length and is lower-cased character by character |
| Text.LowerIdempotent | main.py:112 | lower-casing an already lower-cased e-mail changes nothing, so the probe finds stored e-mails |
| Text.JoinSnoc | main.py:180 | joining one more part appends the separator and that part |
| Validators.CleanMobile | main.py:20 | the cleaned number is no longer than the input and holds no whitespace, `-`, `(` or `)` |
| Validators.CleanMobileAppend | main.py:20 | cleaning distributes over concatenation |
| Validators.CleanMobileIdempotent | main.py:92-95 | a cleaned number is unchanged by cleaning it again, so the probe's cleaning finds stored numbers |
| Validators.SeparatorIgnored | main.py:20 | inserting a separator anywhere does not change the cleaned number |
| Validators.CleanMobileDigits | main.py:20-22 | the input is all separators and digits exactly when the cleaned form is all digits; the cleaned form then has one character per digit |
| Validators.MobileValidIff | main.py:17-22 | a mobile is valid iff every character is a separator or a digit and there are exactly 8 digits |
| Validators.CleanedMobileValid | main.py:60 | a valid mobile stays valid once cleaned, and the cleaned form is a fixed point of cleaning |
| Validators.DigitStringValidIff | main.py:22 | for a string of digits, validity is exactly a length of 8 |
| Validators.SeparatorKeepsValidity | main.py:20-22 | a separator anywhere neither makes nor breaks a number |
| Validators.LetterRejected | main.py:22 | a letter anywhere makes a number invalid |
| Validators.SeparatorsOnlyClean | main.py:20 | a string of separators cleans to the empty string |
| Validators.DashedNumberValid | main.py:17-22 | "1234-5678" is accepted |
| Validators.NineDigitsRejected | main.py:22 | 9 digits are rejected |
| Validators.SevenDigitsRejected | main.py:22 | 7 digits are rejected |
| Validators.SeparatorsOnlyRejected | main.py:22 | a number of separators only is rejected, because its cleaned form is empty and not a digit string |
| Validators.LettersRejected | main.py:22 | "abcd5678" is rejected |
| Validators.IsValidMobile | main.py:17-22 | is_valid_mobile: the cleaned number is a digit string of length 8; a valid number has at least 8 characters before cleaning (its meaning on the raw input is `MobileValidIff`) |
| Validators.FirstIndex | main.py:13 | the index of the first `@`, or the length when there is none |
| Validators.LastIndex | main.py:13 | the index of the last `.`, or -1 when there is none |
| Validators.MatchesEmailPattern | main.py:11-14 | the pattern matched against the whole string; a match has at least 6 characters, starts with a local-part character and ends with a letter |
| Validators.IsValidEmail | main.py:11-14 | is_valid_email: the pattern matches the whole string, or all but one final newline; every full match is accepted, and an accepted address has at least 6 characters |
| Validators.MatchesEmailPatternIff | main.py:11-14 | the pattern matches iff some split points make the address a local part over `[a-zA-Z0-9._%+-]`, `@`, a domain over `[a-zA-Z0-9.-]`, `.` and a top-level label of at least two letters |
| Validators.EmailFromParts | main.py:13 | any such local part, domain and top-level label make an address that matches |
| Validators.EmailSplits | main.py:13 | every matching address splits into such a local part, domain and top-level label |
| Validators.StrippedEmailValid | main.py:11-14 | on a stripped field (as `submit_form` passes it), the allowance for one trailing newline never applies |
| Validators.LowerKeepsEmailParts | main.py:62-65 | lower-casing keeps an address in the pattern, with the same split points |
| Validators.LowerKeepsEmailPattern | main.py:62-65 | the stored lower-case form of a matching address matches too |
| Validators.EmailAccepted | main.py:11-14 | "a.b+c@sub.example.com" is accepted |
| Validators.EmailsRejected | main.py:11-14 | "not-an-email" and "a@b" are rejected |
| Validators.ShortTopLevelRejected | main.py:13 | "a@b.c" is rejected, because its top-level label has one letter |
| Validators.TrailingNewlineAccepted | main.py:14 | `$` lets "a@b.co" followed by one newline through |
| Members.Count | main.py:95-99 | the count of rows with the key is at most the table size, and positive exactly when some row holds the key |
| Members.EmptyTable | main.py:31-45 | the fresh table is empty and satisfies the unique-index, normal-form and id-order invariant |
| Members.CountAtMostOne | main.py:44-45 | under the unique indexes a probe counts at most one row |
| Members.MobileRegistered | main.py:86-103 | check_mobile_exists answers true exactly when a row holds the cleaned number |
| Members.EmailRegistered | main.py:106-120 | check_email_exists answers true exactly when a row holds the lower-cased address |
| Members.Save | main.py:53-83 | save_member_to_db on a table value: it adds one row when it succeeds and none when it fails, and never changes a stored row |
| Members.SaveEffect | main.py:53-83 | the insert succeeds exactly when the storage does not raise and neither probe would report its key; on success exactly one row is appended with the cleaned mobile, the lower-case e-mail and the next id; on failure nothing changes |
| Members.SaveKeepsValid | main.py:43-65 | the insert keeps mobiles and e-mails pairwise distinct, stored keys in normal form, and ids increasing |
| Members.NewestFirst | main.py:129-133 | the listing has one entry per row, the most recently inserted row first |
| Members.NewestFirstPermutes | main.py:129-137 | the listing is a permutation of the rows |
| Members.NewestFirstListsAll | main.py:129-137 | the listing holds every row once, in strictly decreasing id order |
| Members.MemberStore.constructor | main.py:25-50 | a fresh store holds the empty table |
| Members.MemberStore.Insert | main.py:53-83 | the new state and result are those of `Save` on the old state, and the invariant is kept |
| Members.MemberStore.AllMembers | main.py:123-141 | get_all_members returns every stored row once, highest id first |
| Registration.ValidationErrors | main.py:153-169 | the validation block: at most four messages, all of them validation messages (their exact conditions are in `ValidationMessages`) |
| Registration.DuplicateErrors | main.py:171-177 | the duplicate block: at most two messages, and none exactly when neither key is taken |
| Registration.CollectErrors | main.py:153-177 | every message submit_form collects: never more than four, because the probes run only when validation found nothing |
| Registration.Rejected | main.py:179-181 | the label is red, starts with the cross, and the inputs keep their text |
| Registration.SaveFailed | main.py:195-198 | the generic failure label is red, and the inputs keep their text |
| Registration.Welcome | main.py:184-192 | the welcome label is green, and the inputs are cleared |
| Registration.Submission | main.py:144-198 | one submission of the form: stored rows are never changed or removed, and at most one row is added |
| Registration.Texts | main.py:180 | one text per error, in the same order |
| Registration.TextsSnoc | main.py:180 | one more error adds its text at the end |
| Registration.RejectedText | main.py:179-180 | a single error follows the cross directly; each further error is appended behind " • " |
| Registration.OrderedConcat | main.py:153-177 | concatenating message lists from consecutive rank ranges keeps them strictly ordered |
| Registration.OrderedWiden | main.py:153-177 | an ordered message list stays ordered under a wider rank range |
| Registration.Validate | main.py:153-169 | the step-by-step appends produce exactly the validation errors of the stripped fields |
| Registration.CheckDuplicates | main.py:172-177 | the probes append the mobile message and then the e-mail message, each exactly when its probe reports the key |
| Registration.SubmitForm | main.py:144-198 | the new table and the outcome are those of `Submission` on the old table, and the table invariant is kept |
| Registration.ValidationOrdered | main.py:153-169 | validation messages come out name, surname, mobile, e-mail, each at most once |
| Registration.DuplicatesOrdered | main.py:172-177 | duplicate messages come out mobile first, each at most once |
| Registration.ErrorsInFixedOrder | main.py:153-177 | all collected messages follow the fixed reporting order, with no message twice |
| Registration.ValidationSources | main.py:153-169 | a validation message comes from exactly one field's check |
| Registration.CollectKeepsValidation | main.py:172 | a validation message is reported exactly when validation found it |
| Registration.NameMessages | main.py:155-159 | "Name is required" and "Surname is required" appear exactly for an empty field |
| Registration.MobileMessages | main.py:161-164 | "required" appears exactly for an empty mobile, and the format error exactly for a non-empty invalid one |
| Registration.EmailMessages | main.py:166-169 | "required" appears exactly for an empty e-mail, and the format error exactly for a non-empty invalid one |
| Registration.ValidationMessages | main.py:153-169 | each field's "required" and format messages appear under exactly their conditions, and never both together |
| Registration.DuplicateMessages | main.py:171-177 | duplicate messages appear only when validation passed; then each appears exactly when its working probe finds the key; when both appear, they are the only two, mobile first |
| Registration.RejectionLeavesTable | main.py:179-181 | with any error the table is unchanged, the label is red and lists every error behind the cross, and the inputs keep their text |
| Registration.SuccessAddsOneMember | main.py:182-192 | the outcome is green exactly when the inputs are cleared; green means no errors and exactly one appended row with the stripped names, cleaned mobile and lower-case e-mail under the next id; red means the table is unchanged |
| Registration.PrecheckIsComplete | main.py:171-198 | without storage faults the outcome is green exactly when no error was collected, and then it is the welcome: the generic "Registration failed" cannot appear |
| Registration.SubmissionKeepsValid | main.py:144-198 | a submission keeps the unique indexes, normal forms and id order, even when a probe raises |
| Registration.AcceptedIsWellFormed | main.py:147-169 | a row accepted by the form has non-empty stripped names, 8 bare digits and a matching lower-case e-mail |
| Registration.AllWellFormedSnoc | main.py:184 | appending a well-formed row keeps every row well formed |
| Registration.SubmissionKeepsWellFormed | main.py:144-198 | if every stored row is well formed, it stays so after any submission |
| Registration.ResubmissionRejected | main.py:171-181 | after a success, a submission that passes validation and whose mobile differs only in separators, or whose e-mail differs only in letter case, is rejected, leaves the table alone, and each working probe reports its duplicate |
| Registration.NoValidationErrors | main.py:153-169 | no validation error exactly when both names are present and both contact fields are non-empty and valid |
| Registration.AcceptedSubmission | main.py:171-192 | valid, unregistered fields with a working insert always give the welcome and one appended row |
| Registration.AlFieldsStripped | main.py:147-150 | the example form "Al", "Li", "1234 5678", "Al@Li.io" is unchanged by stripping |
| Registration.AlMobileCleans | main.py:17-22 | "1234 5678" cleans to "12345678" and is valid |
| Registration.AlEmailValid | main.py:11-14 | "Al@Li.io" is accepted |
| Registration.AlEmailLowered | main.py:65 | "Al@Li.io" is stored as "al@li.io" |
| Registration.AlPassesValidation | main.py:153-169 | the example form has no validation error |
| Registration.ScenarioRegister | main.py:53-69 | inserting the example into an empty table stores id 1 with mobile "12345678" and e-mail "al@li.io" |
| Registration.ShortMobileInvalid | main.py:22 | "123" is rejected |
| Registration.ScenarioBadMobile | main.py:161-169 | with mobile "123" the only validation error is the mobile format error |
| Registration.CapitalsLowered | main.py:112 | "AL@li.io" lower-cases to the stored "al@li.io" |
| Registration.ScenarioEmailTaken | main.py:106-116 | with the example stored, its e-mail in other letter case is reported as registered |
| Registration.ScenarioMobileFree | main.py:86-99 | with the example stored, a different mobile is not reported |

## Left out

- The NiceGUI page (`create_member_form`, `main`, styling, widget values). It is replaced by `Request` and `Outcome`.
- SQLite connections, commits and closes. The table is an in-memory sequence.
- Members.NewestFirst, Members.MemberStore.AllMembers: the `registration_date` timestamp and `ORDER BY registration_date DESC` are not modelled; the listing is in decreasing id order. That matches the source only while the local clock (`datetime.now()`) never goes back between registrations. After a clock step back (end of daylight saving, a clock correction), the source lists a later row behind older ones, and the model does not. Rows saved in the same clock tick, whose relative order SQLite leaves open, are not modelled either.
- The `except` fallback of `get_all_members`, which returns an empty list when the storage raises. The listing is modelled only on the success path.
- init_database's failure to create the unique indexes over existing duplicate rows. The model always has both indexes.
- The race between the duplicate probe and the insert. The model is sequential. The insert failing on a duplicate key is still modelled, through the `Faults` value (a probe that raises misses the duplicate).
- The printed log lines.
- Environment configuration and the scripts `debug_env.py`, `view_members.py` and `test_email.py`. The last one is a network client.
- Text.Strip, Text.Lower, Validators.IsDigitString: Python's Unicode semantics of `\s`, `str.isspace`, `str.isdigit` and `str.lower` are approximated by their ASCII parts. Whitespace is space, `\t` to `\r` and `\x1c` to `\x1f`; digits are `0` to `9`; lower-casing changes only `A` to `Z`.
- Text.Join has no contract of its own. The label text is stated through Registration.RejectedText.
- Registration.ScenarioRegister, Registration.ScenarioBadMobile, Registration.ScenarioEmailTaken: the end-to-end examples are stated on the insert, the validation errors and the probes, not on a whole `Submission`. The general lemmas (`AcceptedSubmission`, `RejectionLeavesTable`, `DuplicateMessages`) carry them to the outcome.
