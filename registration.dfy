/** The submit_form workflow of main.py: strip the four fields, collect the
    validation errors in a fixed order, probe for duplicates only when the
    fields are valid, and either report every error without touching the
    table or insert the member and clear the form. The widgets become a
    Request value and an Outcome value. */
module Registration {
  import opened Text
  import opened Validators
  import opened Members

  /** The four form fields as typed. */
  datatype Request = Request(name: string, surname: string, mobile: string, email: string)

  /** Which store calls raise. A probe that raises answers "not registered";
      an insert that raises answers false and changes nothing. */
  datatype Faults = Faults(mobileProbeFails: bool, emailProbeFails: bool, saveFails: bool)

  const NoFaults := Faults(false, false, false)

  datatype Color = Red | Green

  /** What the form shows afterwards: the status label's text and colour, and
      whether the four inputs are cleared. */
  datatype Outcome = Outcome(text: string, color: Color, clearInputs: bool)

  /** The messages submit_form can report, in their fixed reporting order. */
  datatype Message =
    | NameRequired | SurnameRequired
    | MobileRequired | MobileInvalid
    | EmailRequired | EmailInvalid
    | MobileTaken | EmailTaken

  /** The text shown for each message. */
  function MessageText(m: Message): string {
    match m
    case NameRequired => "Name is required"
    case SurnameRequired => "Surname is required"
    case MobileRequired => "Mobile number is required"
    case MobileInvalid => "Invalid mobile number format"
    case EmailRequired => "Email is required"
    case EmailInvalid => "Invalid email format"
    case MobileTaken => "Mobile number is already registered"
    case EmailTaken => "Email is already registered"
  }

  /** Position of a message in the reporting order. */
  function Rank(m: Message): nat {
    match m
    case NameRequired => 0
    case SurnameRequired => 1
    case MobileRequired => 2
    case MobileInvalid => 3
    case EmailRequired => 4
    case EmailInvalid => 5
    case MobileTaken => 6
    case EmailTaken => 7
  }

  /** Messages whose ranks lie in `lo..hi`, strictly increasing. */
  ghost predicate OrderedWithin(e: seq<Message>, lo: nat, hi: nat) {
    && (forall i | 0 <= i < |e| :: lo <= Rank(e[i]) < hi)
    && (forall i, j | 0 <= i < j < |e| :: Rank(e[i]) < Rank(e[j]))
  }

  lemma OrderedConcat(a: seq<Message>, b: seq<Message>, lo: nat, mid: nat, hi: nat)
    requires lo <= mid <= hi
    requires OrderedWithin(a, lo, mid) && OrderedWithin(b, mid, hi)
    ensures OrderedWithin(a + b, lo, hi)
  {
    var e := a + b;
    assert forall i | 0 <= i < |e| :: e[i] == if i < |a| then a[i] else b[i - |a|];
    forall i, j | 0 <= i < j < |e| ensures Rank(e[i]) < Rank(e[j]) {
      if j < |a| {
        assert e[i] == a[i] && e[j] == a[j];
      } else if i >= |a| {
        assert e[i] == b[i - |a|] && e[j] == b[j - |a|];
      } else {
        assert e[i] == a[i] && e[j] == b[j - |a|];
      }
    }
  }

  function Stripped(req: Request): Request {
    Request(Strip(req.name), Strip(req.surname), Strip(req.mobile), Strip(req.email))
  }

  /** The message for a field that is empty. */
  function RequiredError(value: string, missing: Message): seq<Message> {
    if value == [] then [missing] else []
  }

  /** The message for a field that is empty, or else malformed. */
  function FormatError(value: string, valid: bool, missing: Message, malformed: Message): seq<Message> {
    if value == [] then [missing] else if !valid then [malformed] else []
  }

  /** The validation errors for already stripped fields, in reporting order. */
  function ValidationErrors(r: Request): (errors: seq<Message>)
    ensures |errors| <= 4
    ensures forall i | 0 <= i < |errors| :: Rank(errors[i]) < 6
  {
    RequiredError(r.name, NameRequired)
    + RequiredError(r.surname, SurnameRequired)
    + FormatError(r.mobile, IsValidMobile(r.mobile), MobileRequired, MobileInvalid)
    + FormatError(r.email, IsValidEmail(r.email), EmailRequired, EmailInvalid)
  }

  /** The duplicate messages, mobile first. */
  function DuplicateErrors(mobileTaken: bool, emailTaken: bool): (errors: seq<Message>)
    ensures |errors| <= 2
    ensures errors == [] <==> !mobileTaken && !emailTaken
  {
    (if mobileTaken then [MobileTaken] else []) + (if emailTaken then [EmailTaken] else [])
  }

  /** Every error submit_form collects for the stripped fields `r`: the
      probes run only when validation found nothing. */
  function CollectErrors(t: Table, r: Request, faults: Faults): (errors: seq<Message>)
    ensures |errors| <= 4
  {
    var invalid := ValidationErrors(r);
    if invalid != [] then invalid
    else DuplicateErrors(!faults.mobileProbeFails && MobileRegistered(t, r.mobile),
                         !faults.emailProbeFails && EmailRegistered(t, r.email))
  }

  function Texts(errors: seq<Message>): (texts: seq<string>)
    ensures |texts| == |errors|
    ensures forall i | 0 <= i < |errors| :: texts[i] == MessageText(errors[i])
  {
    if errors == [] then [] else [MessageText(errors[0])] + Texts(errors[1..])
  }

  /** The red label listing the errors; the inputs keep their text. */
  function Rejected(errors: seq<Message>): (o: Outcome)
    ensures o.color == Red && !o.clearInputs
    ensures "\U{274C} " <= o.text
  {
    Outcome("\U{274C} " + Join(Texts(errors), " \U{2022} "), Red, false)
  }

  lemma TextsSnoc(errors: seq<Message>, m: Message)
    ensures Texts(errors + [m]) == Texts(errors) + [MessageText(m)]
  {
    assert forall i | 0 <= i < |errors| :: (errors + [m])[i] == errors[i];
  }

  /** The label lists the errors in order: a single error follows the cross
      directly, and every further error is added behind " \U{2022} ". */
  lemma RejectedText(errors: seq<Message>, m: Message)
    ensures Rejected([m]).text == "\U{274C} " + MessageText(m)
    ensures errors != [] ==>
      Rejected(errors + [m]).text == Rejected(errors).text + " \U{2022} " + MessageText(m)
  {
    TextsSnoc([], m);
    assert [] + [m] == [m];
    TextsSnoc(errors, m);
    JoinSnoc(Texts(errors), MessageText(m), " \U{2022} ");
    var j := Join(Texts(errors), " \U{2022} ");
    assert "\U{274C} " + (j + " \U{2022} " + MessageText(m)) == "\U{274C} " + j + " \U{2022} " + MessageText(m);
  }

  /** The red label shown when the insert itself fails. */
  function SaveFailed(): (o: Outcome)
    ensures o.color == Red && !o.clearInputs
  {
    Outcome("\U{274C} Registration failed. Please try again.", Red, false)
  }

  /** The green welcome label; the inputs are cleared. */
  function Welcome(name: string, surname: string): (o: Outcome)
    ensures o.color == Green && o.clearInputs
  {
    Outcome("\U{2705} Welcome " + name + " " + surname + "! Registration successful.", Green, true)
  }

  datatype Step = Step(table: Table, outcome: Outcome)

  /** One submission of the form against table `t`. It never changes or
      removes a stored row, and adds at most one. */
  function Submission(t: Table, req: Request, faults: Faults): (s: Step)
    ensures |t.rows| <= |s.table.rows| <= |t.rows| + 1
    ensures s.table.rows[..|t.rows|] == t.rows
  {
    var r := Stripped(req);
    var errors := CollectErrors(t, r, faults);
    if errors != [] then Step(t, Rejected(errors))
    else
      var saved := Save(t, r.name, r.surname, r.mobile, r.email, faults.saveFails);
      if saved.ok then Step(saved.table, Welcome(r.name, r.surname)) else Step(t, SaveFailed())
  }

  /** Proof helper for SubmitForm: one submission, unfolded once for the
      stripped fields `r`. */
  lemma SubmissionCases(t: Table, req: Request, faults: Faults, r: Request)
    requires r == Stripped(req)
    ensures CollectErrors(t, r, faults) != [] ==>
      Submission(t, req, faults) == Step(t, Rejected(CollectErrors(t, r, faults)))
    ensures CollectErrors(t, r, faults) == [] && Save(t, r.name, r.surname, r.mobile, r.email, faults.saveFails).ok ==>
      Submission(t, req, faults) == Step(Save(t, r.name, r.surname, r.mobile, r.email, faults.saveFails).table, Welcome(r.name, r.surname))
    ensures CollectErrors(t, r, faults) == [] && !Save(t, r.name, r.surname, r.mobile, r.email, faults.saveFails).ok ==>
      Submission(t, req, faults) == Step(t, SaveFailed())
  {
  }

  /** The validation block of submit_form: one message per failed check,
      appended in the order the checks run. */
  method Validate(name: string, surname: string, mobile: string, email: string) returns (errors: seq<Message>)
    ensures errors == ValidationErrors(Request(name, surname, mobile, email))
  {
    errors := [];
    if name == [] {
      errors := errors + [NameRequired];
    }
    assert errors == RequiredError(name, NameRequired);
    if surname == [] {
      errors := errors + [SurnameRequired];
    }
    assert errors == RequiredError(name, NameRequired) + RequiredError(surname, SurnameRequired);
    ghost var mobileValid := IsValidMobile(mobile);
    if mobile == [] {
      errors := errors + [MobileRequired];
    } else if !IsValidMobile(mobile) {
      errors := errors + [MobileInvalid];
    }
    assert errors == RequiredError(name, NameRequired) + RequiredError(surname, SurnameRequired)
                     + FormatError(mobile, mobileValid, MobileRequired, MobileInvalid);
    if email == [] {
      errors := errors + [EmailRequired];
    } else if !IsValidEmail(email) {
      errors := errors + [EmailInvalid];
    }
  }

  /** The duplicate block of submit_form: the mobile probe, then the e-mail
      probe; a probe that raises adds nothing. */
  method CheckDuplicates(store: MemberStore, mobile: string, email: string, faults: Faults) returns (errors: seq<Message>)
    ensures errors == DuplicateErrors(!faults.mobileProbeFails && MobileRegistered(store.State(), mobile),
                                      !faults.emailProbeFails && EmailRegistered(store.State(), email))
  {
    errors := [];
    if !faults.mobileProbeFails && MobileRegistered(store.State(), mobile) {
      errors := errors + [MobileTaken];
    }
    if !faults.emailProbeFails && EmailRegistered(store.State(), email) {
      errors := errors + [EmailTaken];
    }
  }

  /** submit_form. */
  method SubmitForm(store: MemberStore, req: Request, faults: Faults) returns (outcome: Outcome)
    requires store.Valid()
    modifies store
    ensures store.Valid()
    ensures Step(store.State(), outcome) == Submission(old(store.State()), req, faults)
  {
    var name := Strip(req.name);
    var surname := Strip(req.surname);
    var mobile := Strip(req.mobile);
    var email := Strip(req.email);
    ghost var r := Request(name, surname, mobile, email);
    ghost var before := store.State();
    SubmissionCases(before, req, faults, r);

    var errors := Validate(name, surname, mobile, email);

    if errors == [] {
      errors := CheckDuplicates(store, mobile, email, faults);
    }

    if errors != [] {
      outcome := Rejected(errors);
    } else {
      var ok := store.Insert(name, surname, mobile, email, faults.saveFails);
      if ok {
        outcome := Welcome(name, surname);
      } else {
        outcome := SaveFailed();
      }
    }
  }

  // ---------------------------------------------------------------------------
  // Properties of one submission
  // ---------------------------------------------------------------------------

  /** The validation messages come out name, surname, mobile, e-mail, each
      at most once. */
  lemma ValidationOrdered(r: Request)
    ensures OrderedWithin(ValidationErrors(r), 0, 6)
  {
    var a := RequiredError(r.name, NameRequired);
    var b := RequiredError(r.surname, SurnameRequired);
    var c := FormatError(r.mobile, IsValidMobile(r.mobile), MobileRequired, MobileInvalid);
    var d := FormatError(r.email, IsValidEmail(r.email), EmailRequired, EmailInvalid);
    OrderedConcat(a, b, 0, 1, 2);
    OrderedConcat(a + b, c, 0, 2, 4);
    OrderedConcat(a + b + c, d, 0, 4, 6);
  }

  /** The duplicate messages come out mobile first, each at most once. */
  lemma DuplicatesOrdered(mobileTaken: bool, emailTaken: bool)
    ensures OrderedWithin(DuplicateErrors(mobileTaken, emailTaken), 6, 8)
  {
    var x := if mobileTaken then [MobileTaken] else [];
    var y := if emailTaken then [EmailTaken] else [];
    OrderedConcat(x, y, 6, 7, 8);
  }

  /** Widening the admitted range of ranks keeps a sequence ordered. */
  lemma OrderedWiden(e: seq<Message>, lo: nat, hi: nat, lo': nat, hi': nat)
    requires OrderedWithin(e, lo, hi) && lo' <= lo && hi <= hi'
    ensures OrderedWithin(e, lo', hi')
  {
  }

  /** The messages come out in the fixed order name, surname, mobile, e-mail,
      mobile duplicate, e-mail duplicate, each at most once. */
  lemma ErrorsInFixedOrder(t: Table, r: Request, faults: Faults)
    ensures OrderedWithin(CollectErrors(t, r, faults), 0, 8)
  {
    var invalid := ValidationErrors(r);
    if invalid != [] {
      ValidationOrdered(r);
      OrderedWiden(invalid, 0, 6, 0, 8);
    } else {
      var m := !faults.mobileProbeFails && MobileRegistered(t, r.mobile);
      var e := !faults.emailProbeFails && EmailRegistered(t, r.email);
      DuplicatesOrdered(m, e);
      OrderedWiden(DuplicateErrors(m, e), 6, 8, 0, 8);
    }
  }

  /** Where each validation message can come from. */
  lemma ValidationSources(r: Request, x: Message)
    ensures x in ValidationErrors(r) <==>
      || x in RequiredError(r.name, NameRequired)
      || x in RequiredError(r.surname, SurnameRequired)
      || x in FormatError(r.mobile, IsValidMobile(r.mobile), MobileRequired, MobileInvalid)
      || x in FormatError(r.email, IsValidEmail(r.email), EmailRequired, EmailInvalid)
  {
  }

  /** A validation message is reported exactly when validation found it. */
  lemma CollectKeepsValidation(t: Table, r: Request, faults: Faults, x: Message)
    requires Rank(x) < 6
    ensures x in CollectErrors(t, r, faults) <==> x in ValidationErrors(r)
  {
  }

  /** "Name is required" and "Surname is required" appear exactly for an
      empty field. */
  lemma NameMessages(t: Table, r: Request, faults: Faults)
    ensures NameRequired in CollectErrors(t, r, faults) <==> r.name == []
    ensures SurnameRequired in CollectErrors(t, r, faults) <==> r.surname == []
  {
    ValidationSources(r, NameRequired);
    ValidationSources(r, SurnameRequired);
    CollectKeepsValidation(t, r, faults, NameRequired);
    CollectKeepsValidation(t, r, faults, SurnameRequired);
  }

  /** The mobile's message: "required" when empty, the format error when
      non-empty and invalid. */
  lemma MobileMessages(t: Table, r: Request, faults: Faults)
    ensures MobileRequired in CollectErrors(t, r, faults) <==> r.mobile == []
    ensures MobileInvalid in CollectErrors(t, r, faults) <==> r.mobile != [] && !IsValidMobile(r.mobile)
  {
    ValidationSources(r, MobileRequired);
    ValidationSources(r, MobileInvalid);
    CollectKeepsValidation(t, r, faults, MobileRequired);
    CollectKeepsValidation(t, r, faults, MobileInvalid);
  }

  /** The e-mail's message: "required" when empty, the format error when
      non-empty and invalid. */
  lemma EmailMessages(t: Table, r: Request, faults: Faults)
    ensures EmailRequired in CollectErrors(t, r, faults) <==> r.email == []
    ensures EmailInvalid in CollectErrors(t, r, faults) <==> r.email != [] && !IsValidEmail(r.email)
  {
    ValidationSources(r, EmailRequired);
    ValidationSources(r, EmailInvalid);
    CollectKeepsValidation(t, r, faults, EmailRequired);
    CollectKeepsValidation(t, r, faults, EmailInvalid);
  }

  /** Which validation messages appear: "required" exactly for an empty
      field, a format error exactly for a non-empty invalid one, and never
      both for the same field. */
  lemma ValidationMessages(t: Table, r: Request, faults: Faults)
    ensures NameRequired in CollectErrors(t, r, faults) <==> r.name == []
    ensures SurnameRequired in CollectErrors(t, r, faults) <==> r.surname == []
    ensures MobileRequired in CollectErrors(t, r, faults) <==> r.mobile == []
    ensures MobileInvalid in CollectErrors(t, r, faults) <==> r.mobile != [] && !IsValidMobile(r.mobile)
    ensures EmailRequired in CollectErrors(t, r, faults) <==> r.email == []
    ensures EmailInvalid in CollectErrors(t, r, faults) <==> r.email != [] && !IsValidEmail(r.email)
    ensures !(MobileRequired in CollectErrors(t, r, faults) && MobileInvalid in CollectErrors(t, r, faults))
    ensures !(EmailRequired in CollectErrors(t, r, faults) && EmailInvalid in CollectErrors(t, r, faults))
  {
    NameMessages(t, r, faults);
    MobileMessages(t, r, faults);
    EmailMessages(t, r, faults);
  }

  /** The duplicate probes: they run only after validation passed, report
      the mobile first and the e-mail second, both when both collide. A probe
      that raises reports nothing. */
  lemma DuplicateMessages(t: Table, r: Request, faults: Faults)
    ensures MobileTaken in CollectErrors(t, r, faults) || EmailTaken in CollectErrors(t, r, faults)
      ==> ValidationErrors(r) == []
    ensures ValidationErrors(r) == [] ==>
      (MobileTaken in CollectErrors(t, r, faults) <==> !faults.mobileProbeFails && MobileRegistered(t, r.mobile))
    ensures ValidationErrors(r) == [] ==>
      (EmailTaken in CollectErrors(t, r, faults) <==> !faults.emailProbeFails && EmailRegistered(t, r.email))
    ensures MobileTaken in CollectErrors(t, r, faults) && EmailTaken in CollectErrors(t, r, faults)
      ==> CollectErrors(t, r, faults) == [MobileTaken, EmailTaken]
  {
    if ValidationErrors(r) != [] {
      ValidationSources(r, MobileTaken);
      ValidationSources(r, EmailTaken);
    }
  }

  /** Any error leaves the table alone and reports every error, joined by
      " \U{2022} " behind the cross; the inputs keep their text. */
  lemma RejectionLeavesTable(t: Table, req: Request, faults: Faults)
    requires CollectErrors(t, Stripped(req), faults) != []
    ensures Submission(t, req, faults).table == t
    ensures Submission(t, req, faults).outcome
         == Outcome("\U{274C} " + Join(Texts(CollectErrors(t, Stripped(req), faults)), " \U{2022} "), Red, false)
  {
  }

  /** A green outcome means the fields passed every check and exactly one
      member was appended: the stripped name and surname, the cleaned mobile
      and the lower-case e-mail, under the next id. The form is cleared only
      then. Any other outcome leaves the table unchanged. */
  lemma SuccessAddsOneMember(t: Table, req: Request, faults: Faults)
    ensures Submission(t, req, faults).outcome.color == Green <==> Submission(t, req, faults).outcome.clearInputs
    ensures Submission(t, req, faults).outcome.color == Green ==>
      && CollectErrors(t, Stripped(req), faults) == []
      && Submission(t, req, faults).table.rows
         == t.rows + [Member(t.nextId, Strip(req.name), Strip(req.surname), CleanMobile(Strip(req.mobile)), Lower(Strip(req.email)))]
      && Submission(t, req, faults).table.nextId == t.nextId + 1
    ensures Submission(t, req, faults).outcome.color == Red ==> Submission(t, req, faults).table == t
  {
    SaveEffect(t, Strip(req.name), Strip(req.surname), Strip(req.mobile), Strip(req.email), faults.saveFails);
  }

  /** The probes use the insert's normalisation, so when they work and find
      nothing the insert cannot hit a unique index: without storage faults
      the generic "Registration failed" never shows. */
  lemma PrecheckIsComplete(t: Table, req: Request)
    ensures Submission(t, req, NoFaults).outcome.color == Green <==> CollectErrors(t, Stripped(req), NoFaults) == []
    ensures CollectErrors(t, Stripped(req), NoFaults) == [] ==>
      Submission(t, req, NoFaults).outcome == Welcome(Strip(req.name), Strip(req.surname))
  {
    var r := Stripped(req);
    SubmissionCases(t, req, NoFaults, r);
    if CollectErrors(t, r, NoFaults) == [] {
      assert ValidationErrors(r) == [];
      assert !MobileRegistered(t, r.mobile) && !EmailRegistered(t, r.email);
      SaveEffect(t, r.name, r.surname, r.mobile, r.email, false);
    }
  }

  /** Submissions keep the unique indexes, the normal forms and the id order,
      even when a probe raises and misses a duplicate. */
  lemma SubmissionKeepsValid(t: Table, req: Request, faults: Faults)
    requires TableValid(t)
    ensures TableValid(Submission(t, req, faults).table)
  {
    var r := Stripped(req);
    SaveKeepsValid(t, r.name, r.surname, r.mobile, r.email, faults.saveFails);
  }

  /** A member that got in through the form has a non-empty stripped name and
      surname, a mobile of exactly 8 digits, and an e-mail that matches the
      pattern. */
  ghost predicate WellFormed(m: Member) {
    && m.name != [] && Strip(m.name) == m.name
    && m.surname != [] && Strip(m.surname) == m.surname
    && IsDigitString(m.mobile) && |m.mobile| == 8
    && MatchesEmailPattern(m.email)
  }

  /** The member a successful submission stores is well formed. */
  lemma AcceptedIsWellFormed(t: Table, r: Request, faults: Faults)
    requires CollectErrors(t, r, faults) == []
    requires Strip(r.name) == r.name && Strip(r.surname) == r.surname && Strip(r.email) == r.email
    ensures WellFormed(Member(t.nextId, r.name, r.surname, CleanMobile(r.mobile), Lower(r.email)))
  {
    NameMessages(t, r, faults);
    MobileMessages(t, r, faults);
    EmailMessages(t, r, faults);
    CleanedMobileValid(r.mobile);
    StrippedEmailValid(r.email);
    LowerKeepsEmailPattern(r.email);
  }

  ghost predicate AllWellFormed(rows: seq<Member>) {
    forall k | 0 <= k < |rows| :: WellFormed(rows[k])
  }

  lemma AllWellFormedSnoc(rows: seq<Member>, m: Member)
    requires AllWellFormed(rows) && WellFormed(m)
    ensures AllWellFormed(rows + [m])
  {
    forall k | 0 <= k < |rows| + 1 ensures WellFormed((rows + [m])[k]) {
      if k < |rows| {
        assert (rows + [m])[k] == rows[k];
      } else {
        assert (rows + [m])[k] == m;
      }
    }
  }

  lemma SubmissionKeepsWellFormed(t: Table, req: Request, faults: Faults)
    requires AllWellFormed(t.rows)
    ensures AllWellFormed(Submission(t, req, faults).table.rows)
  {
    var r := Stripped(req);
    var s := Submission(t, req, faults);
    SuccessAddsOneMember(t, req, faults);
    if s.outcome.color == Green {
      StripIdempotent(req.name);
      StripIdempotent(req.surname);
      StripIdempotent(req.email);
      AcceptedIsWellFormed(t, r, faults);
      var added := Member(t.nextId, r.name, r.surname, CleanMobile(r.mobile), Lower(r.email));
      AllWellFormedSnoc(t.rows, added);
    } else {
      assert s.table == t;
    }
  }

  /** After a successful registration, a second submission whose mobile
      cleans to the same number, or whose e-mail lower-cases to the same
      address, cannot register: the table stays as it is, and every probe
      that works reports its duplicate. */
  lemma ResubmissionRejected(t: Table, req: Request, faults: Faults, again: Request, faults2: Faults)
    requires Submission(t, req, faults).outcome.color == Green
    requires ValidationErrors(Stripped(again)) == []
    requires CleanMobile(Strip(again.mobile)) == CleanMobile(Strip(req.mobile))
          || Lower(Strip(again.email)) == Lower(Strip(req.email))
    ensures Submission(Submission(t, req, faults).table, again, faults2).table == Submission(t, req, faults).table
    ensures Submission(Submission(t, req, faults).table, again, faults2).outcome.color == Red
    ensures CleanMobile(Strip(again.mobile)) == CleanMobile(Strip(req.mobile)) && !faults2.mobileProbeFails
      ==> MobileTaken in CollectErrors(Submission(t, req, faults).table, Stripped(again), faults2)
    ensures Lower(Strip(again.email)) == Lower(Strip(req.email)) && !faults2.emailProbeFails
      ==> EmailTaken in CollectErrors(Submission(t, req, faults).table, Stripped(again), faults2)
  {
    var r, r2 := Stripped(req), Stripped(again);
    var t2 := Submission(t, req, faults).table;
    SuccessAddsOneMember(t, req, faults);
    var added := t2.rows[|t.rows|];
    assert Key(added, MobileColumn) == CleanMobile(r.mobile);
    assert Key(added, EmailColumn) == Lower(r.email);
    SuccessAddsOneMember(t2, again, faults2);
    SaveEffect(t2, r2.name, r2.surname, r2.mobile, r2.email, faults2.saveFails);
    DuplicateMessages(t2, r2, faults2);
  }

  /** No validation error exactly when both names are present and both
      contact fields are well formed. */
  lemma NoValidationErrors(r: Request)
    ensures ValidationErrors(r) == [] <==>
      r.name != [] && r.surname != [] && r.mobile != [] && IsValidMobile(r.mobile) && r.email != [] && IsValidEmail(r.email)
  {
  }

  /** A submission whose stripped fields are valid and unregistered, with no
      storage fault, is accepted: the member is appended under the next id
      and the welcome is shown. */
  lemma AcceptedSubmission(t: Table, req: Request, faults: Faults)
    requires ValidationErrors(Stripped(req)) == []
    requires !MobileRegistered(t, Strip(req.mobile)) && !EmailRegistered(t, Strip(req.email))
    requires !faults.saveFails
    ensures Submission(t, req, faults)
         == Step(Table(t.rows + [Member(t.nextId, Strip(req.name), Strip(req.surname), CleanMobile(Strip(req.mobile)), Lower(Strip(req.email)))], t.nextId + 1),
                 Welcome(Strip(req.name), Strip(req.surname)))
  {
    var r := Stripped(req);
    SubmissionCases(t, req, faults, r);
    SaveEffect(t, r.name, r.surname, r.mobile, r.email, faults.saveFails);
  }

  // ---------------------------------------------------------------------------
  // End-to-end scenarios
  // ---------------------------------------------------------------------------

  /** A form as typed: the mobile has a space between its two halves and the
      e-mail has capitals. */
  const Al := Request("Al", "Li", "1234" + " " + "5678", "Al@Li.io")

  /** The row the insert stores for it. */
  const AlStored := Member(1, "Al", "Li", "1234" + "5678", "al@li.io")

  lemma AlFieldsStripped()
    ensures Stripped(Al) == Al
  {
    StripKeeps("Al");
    StripKeeps("Li");
    StripKeeps("1234" + " " + "5678");
    StripKeeps("Al@Li.io");
  }

  lemma AlMobileCleans()
    ensures CleanMobile("1234" + " " + "5678") == "1234" + "5678"
    ensures IsValidMobile("1234" + " " + "5678")
  {
    SeparatorIgnored("1234", ' ', "5678");
    SeparatorKeepsValidity("1234", ' ', "5678");
    DigitsConcat("1234", "5678");
    CleanMobileKeeps("1234" + "5678");
    DigitStringValidIff("1234" + "5678");
  }

  lemma AlEmailValid()
    ensures IsValidEmail("Al@Li.io")
  {
    EmailFromParts("Al", "Li", "io");
    assert "Al" + "@" + "Li" + "." + "io" == "Al@Li.io";
  }

  lemma AlEmailLowered()
    ensures Lower("Al@Li.io") == "al@li.io"
  {
  }

  lemma AlPassesValidation()
    ensures ValidationErrors(Al) == []
  {
    AlMobileCleans();
    AlEmailValid();
    NoValidationErrors(Al);
  }

  /** Scenario A: Al's form passes validation, and the insert into an empty
      table stores the mobile without its space and the e-mail in lower case,
      under id 1. */
  lemma ScenarioRegister()
    ensures Save(EmptyTable(), Al.name, Al.surname, Al.mobile, Al.email, false) == SaveResult(Table([AlStored], 2), true)
  {
    AlMobileCleans();
    AlEmailLowered();
  }

  lemma ShortMobileInvalid()
    ensures !IsValidMobile("123")
  {
    DigitStringValidIff("123");
  }

  /** Scenario B: a three-digit mobile is the only error in Al's form. */
  lemma ScenarioBadMobile()
    ensures ValidationErrors(Al.(mobile := "123")) == [MobileInvalid]
  {
    ShortMobileInvalid();
    AlEmailValid();
  }

  lemma CapitalsLowered()
    ensures Lower("AL@li.io") == "al@li.io"
  {
  }

  /** Scenario C: with Al stored, Al's e-mail in other letter case is found
      as a duplicate ... */
  lemma ScenarioEmailTaken()
    ensures EmailRegistered(Table([AlStored], 2), "AL@li.io")
  {
    CapitalsLowered();
    assert Key(AlStored, EmailColumn) == "al@li.io";
  }

  /** ... while a different mobile is not. */
  lemma ScenarioMobileFree()
    ensures !MobileRegistered(Table([AlStored], 2), "87654321")
  {
    CleanMobileKeeps("87654321");
  }
}
