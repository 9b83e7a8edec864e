/** The serializers of the library API that carry rules: registration of a
    reader, issuing a copy of a book to a reader, and taking a copy back. */
module Serializers {
  import opened Outcomes
  import opened Tables
  import opened Models
  import opened Validators
  import opened InventoryNumbers

  // ---------------------------------------------------------------------
  // Registration

  /** The profile fields a client submits; an absent optional field is None.
      `role` is what the client asked for, if anything. */
  datatype UserFields = UserFields(
    username: string,
    role: Option<Role>,
    birthDate: Option<Date>,
    passport: Option<string>,
    phone: Option<string>,
    address: Option<string>)

  /** A stored user row. */
  datatype UserRecord = UserRecord(
    username: string,
    role: Role,
    birthDate: Option<Date>,
    passport: Option<string>,
    phone: Option<string>,
    address: Option<string>)

  const AllFieldErrors: set<FieldError> :=
    {PassportFormat, PhoneFormat, AddressTooShort, BirthDateInFuture, UnderAge}

  /** What a text field of a model serializer hands to its validator and to
      the store: the submitted text with surrounding whitespace removed (the
      framework's CharField trims by default, and these columns allow blank). */
  function Trimmed(v: Option<string>): Option<string> {
    match v
    case None => None
    case Some(s) => Some(Strip(s))
  }

  /** The submitted fields as the serializer sees them after trimming. */
  function TrimFields(d: UserFields): UserFields {
    d.(username := Strip(d.username), passport := Trimmed(d.passport),
       phone := Trimmed(d.phone), address := Trimmed(d.address))
  }

  /** The check of RegisterSerializer that reports e fails; an absent field
      is not validated. */
  predicate RegistrationFails(d: UserFields, today: Date, e: FieldError) {
    match e
    case UnderAge => d.birthDate.Some? && ValidateRegistrationBirthDate(d.birthDate.value, today).Err?
    case PassportFormat => d.passport.Some? && ValidatePassport(d.passport.value).Err?
    case PhoneFormat => d.phone.Some? && ValidatePhone(d.phone.value).Err?
    case AddressTooShort => d.address.Some? && ValidateAddress(d.address.value).Err?
    case BirthDateInFuture => false
  }

  /** The field errors of RegisterSerializer on the fields as its validators
      receive them (after trimming): every present field is validated and
      all failures are reported together. */
  function RegistrationErrors(d: UserFields, today: Date): (errs: set<FieldError>)
    ensures UnderAge in errs <==>
              d.birthDate.Some? && Before(today, Anniversary(d.birthDate.value, MinRegistrationAge))
    ensures PassportFormat in errs <==> d.passport.Some? && ValidatePassport(d.passport.value).Err?
    ensures PhoneFormat in errs <==> d.phone.Some? && ValidatePhone(d.phone.value).Err?
    ensures AddressTooShort in errs <==> d.address.Some? && ValidateAddress(d.address.value).Err?
    ensures BirthDateInFuture !in errs
  {
    var errs := set e | e in AllFieldErrors && RegistrationFails(d, today, e);
    assert UnderAge in errs <==> RegistrationFails(d, today, UnderAge);
    assert PassportFormat in errs <==> RegistrationFails(d, today, PassportFormat);
    assert PhoneFormat in errs <==> RegistrationFails(d, today, PhoneFormat);
    assert AddressTooShort in errs <==> RegistrationFails(d, today, AddressTooShort);
    errs
  }

  /** RegisterSerializer: the fields are trimmed, then a registration either
      fails with their field errors or creates a user whose role is reader,
      whatever role was submitted, from the trimmed fields, each of which
      passes its own check. */
  function Register(d: UserFields, today: Date): (r: Result<UserRecord, set<FieldError>>)
    ensures r.Err? <==> RegistrationErrors(TrimFields(d), today) != {}
    ensures r.Err? ==> r.error == RegistrationErrors(TrimFields(d), today)
    ensures r.Ok? ==> r.value.role == Reader
    ensures r.Ok? ==> r.value.username == Strip(d.username) && r.value.birthDate == d.birthDate
                      && r.value.passport == Trimmed(d.passport) && r.value.phone == Trimmed(d.phone)
                      && r.value.address == Trimmed(d.address)
    ensures r.Ok? && r.value.passport.Some? ==> ValidatePassport(r.value.passport.value).Ok?
    ensures r.Ok? && r.value.phone.Some? ==> ValidatePhone(r.value.phone.value).Ok?
    ensures r.Ok? && r.value.address.Some? ==> ValidateAddress(r.value.address.value).Ok?
  {
    var t := TrimFields(d);
    var errs := RegistrationErrors(t, today);
    if errs != {} then Err(errs)
    else Ok(UserRecord(t.username, Reader, t.birthDate, t.passport, t.phone, t.address))
  }

  /** The check of UserSerializer that reports e fails. */
  predicate ProfileFails(d: UserFields, today: Date, e: FieldError) {
    match e
    case BirthDateInFuture => ValidateProfileBirthDate(d.birthDate, today).Err?
    case PassportFormat => d.passport.Some? && ValidatePassport(d.passport.value).Err?
    case PhoneFormat => d.phone.Some? && ValidatePhone(d.phone.value).Err?
    case AddressTooShort => d.address.Some? && ValidateAddress(d.address.value).Err?
    case UnderAge => false
  }

  /** The field errors of UserSerializer, used when a librarian creates or
      edits a user, on the fields as its validators receive them: the same
      passport, phone and address rules, and a birth date that must not lie
      in the future. */
  function ProfileErrors(d: UserFields, today: Date): (errs: set<FieldError>)
    ensures BirthDateInFuture in errs <==> d.birthDate.Some? && Before(today, d.birthDate.value)
    ensures PassportFormat in errs <==> d.passport.Some? && ValidatePassport(d.passport.value).Err?
    ensures PhoneFormat in errs <==> d.phone.Some? && ValidatePhone(d.phone.value).Err?
    ensures AddressTooShort in errs <==> d.address.Some? && ValidateAddress(d.address.value).Err?
    ensures UnderAge !in errs
  {
    var errs := set e | e in AllFieldErrors && ProfileFails(d, today, e);
    assert BirthDateInFuture in errs <==> ProfileFails(d, today, BirthDateInFuture);
    assert PassportFormat in errs <==> ProfileFails(d, today, PassportFormat);
    assert PhoneFormat in errs <==> ProfileFails(d, today, PhoneFormat);
    assert AddressTooShort in errs <==> ProfileFails(d, today, AddressTooShort);
    errs
  }

  /** Trimming the fields a second time changes nothing. */
  lemma TrimFieldsTwice(d: UserFields)
    ensures TrimFields(TrimFields(d)) == TrimFields(d)
  {
    StripIdempotent(d.username);
    if d.passport.Some? { StripIdempotent(d.passport.value); }
    if d.phone.Some? { StripIdempotent(d.phone.value); }
    if d.address.Some? { StripIdempotent(d.address.value); }
  }

  /** Surrounding whitespace never matters: submitting the trimmed fields
      registers the same user or reports the same errors. */
  lemma SurroundingSpaceIgnored(d: UserFields, today: Date)
    ensures Register(TrimFields(d), today) == Register(d, today)
  {
    TrimFieldsTwice(d);
  }

  lemma StripPaddedPassport()
    ensures Strip(" AB123456 ") == "AB123456"
  {
    var p := " AB123456 ";
    assert p[1..] == "AB123456 " && LeadingSpace(p[1..]) == 0;
    assert LeadingSpace(p) == 1;
    assert p[1..][..|p[1..]| - 1] == "AB123456";
    assert TrailingSpace(p[1..]) == 1;
    assert p[1..9] == "AB123456";
  }

  lemma StripPlainName()
    ensures Strip("reader") == "reader"
  {
    assert LeadingSpace("reader") == 0;
    assert TrailingSpace("reader") == 0;
    assert "reader"[0..6] == "reader";
  }

  lemma SamplePassportValid()
    ensures ValidatePassport("AB123456").Ok?
  {
    var p := "AB123456";
    assert IsSeriesLetter(p[0]) && IsSeriesLetter(p[1]);
    assert forall i :: 2 <= i < 8 ==> IsDigit(p[i]);
  }

  /** A passport sent with a space on each side reaches the check, and the
      store, without them: the registration succeeds and stores it trimmed. */
  lemma PaddedPassportAccepted(today: Date)
    ensures TrimFields(UserFields("reader", None, None, Some(" AB123456 "), None, None))
            == UserFields("reader", None, None, Some("AB123456"), None, None)
    ensures RegistrationErrors(UserFields("reader", None, None, Some("AB123456"), None, None), today) == {}
    ensures Register(UserFields("reader", None, None, Some(" AB123456 "), None, None), today)
            == Ok(UserRecord("reader", Reader, None, Some("AB123456"), None, None))
  {
    StripPaddedPassport();
    StripPlainName();
    SamplePassportValid();
    var errs := RegistrationErrors(UserFields("reader", None, None, Some("AB123456"), None, None), today);
    forall e | e in errs ensures false {
      match e
      case PassportFormat =>
      case _ =>
    }
  }

  /** The profile of a freshly registered reader passes the profile checks:
      the registration rules are at least as strict. */
  lemma RegisteredProfileValid(d: UserFields, today: Date)
    requires Register(d, today).Ok?
    ensures ProfileErrors(TrimFields(d), today) == {}
  {
    if d.birthDate.Some? {
      RegisteredBirthDateNotInFuture(d.birthDate.value, today);
    }
  }

  // ---------------------------------------------------------------------
  // Issuing a copy

  /** The loan period: the due day is thirty days after the issue day. */
  const LoanDays: int := 30

  datatype IssueError =
    | UnknownBook       // book_id: no such book among those not soft-deleted
    | UnknownReader     // reader_id: not an active user with role reader
    | NoAvailableCopy
    | LoanLimit         // the reader already has three open issues
    | AlreadyHolds      // the reader already has an open issue of this book

  /** `Inventory.objects.filter(book=b, status='available').first()`: the
      available copy of b with the smallest id. */
  function FirstAvailable(cs: seq<Copy>, b: BookId): (r: Option<nat>)
    ensures r.Some? ==> r.value < |cs| && AvailableCopyOf(cs[r.value], b)
    ensures r.Some? ==> forall j :: 0 <= j < r.value ==> !AvailableCopyOf(cs[j], b)
    ensures r.None? <==> forall j :: 0 <= j < |cs| ==> !AvailableCopyOf(cs[j], b)
  {
    if cs == [] then None
    else if AvailableCopyOf(cs[0], b) then Some(0)
    else match FirstAvailable(cs[1..], b)
      case None => None
      case Some(j) => Some(j + 1)
  }

  /** The validation of BookIssueSerializer. The two fields are checked
      together; only when both resolve does `validate` run its three checks,
      stopping at the first that fails. No errors means the issue may be
      created. */
  function IssueErrors(books: seq<Book>, copies: seq<Copy>, issues: seq<Issue>, returned: map<nat, Return>,
                       reader: UserId, readerEligible: bool, b: BookId): (errs: set<IssueError>)
    requires IssuesWellFormed(copies, issues)
    ensures UnknownBook in errs <==> !BookVisible(books, b)
    ensures UnknownReader in errs <==> !readerEligible
    ensures NoAvailableCopy in errs <==>
              BookVisible(books, b) && readerEligible
              && forall i :: 0 <= i < |copies| ==> !AvailableCopyOf(copies[i], b)
    ensures LoanLimit in errs <==>
              BookVisible(books, b) && readerEligible && Count(copies, b, {Available}) > 0
              && |OpenIssues(issues, returned, reader)| >= MaxOpenIssues
    ensures AlreadyHolds in errs <==>
              BookVisible(books, b) && readerEligible && Count(copies, b, {Available}) > 0
              && |OpenIssues(issues, returned, reader)| < MaxOpenIssues
              && HoldsBook(copies, issues, returned, reader, b)
    ensures BookVisible(books, b) && readerEligible ==> |errs| <= 1
  {
    CountAvailablePositive(copies, b);
    var fieldErrs := (if BookVisible(books, b) then {} else {UnknownBook})
                     + (if readerEligible then {} else {UnknownReader});
    if fieldErrs != {} then fieldErrs
    else if FirstAvailable(copies, b).None? then {NoAvailableCopy}
    else if |OpenIssues(issues, returned, reader)| >= MaxOpenIssues then {LoanLimit}
    else if HoldsBook(copies, issues, returned, reader, b) then {AlreadyHolds}
    else {}
  }

  /** An accepted issue request names a visible book with an available copy,
      and a reader below the loan limit who holds no copy of that book. */
  lemma {:induction false} IssueAccepted(books: seq<Book>, copies: seq<Copy>, issues: seq<Issue>,
                                         returned: map<nat, Return>, reader: UserId, readerEligible: bool, b: BookId)
    requires IssuesWellFormed(copies, issues)
    ensures IssueErrors(books, copies, issues, returned, reader, readerEligible, b) == {} <==>
              (BookVisible(books, b) && readerEligible && FirstAvailable(copies, b).Some?
               && |OpenIssues(issues, returned, reader)| < MaxOpenIssues
               && !HoldsBook(copies, issues, returned, reader, b))
  {
    var errs := IssueErrors(books, copies, issues, returned, reader, readerEligible, b);
    CountAvailablePositive(copies, b);
    if errs == {} {
      assert UnknownBook !in errs && UnknownReader !in errs && NoAvailableCopy !in errs;
      assert LoanLimit !in errs && AlreadyHolds !in errs;
    }
  }

  /** BookIssueSerializer.create after a successful validation: the
      available copy with the smallest id becomes borrowed, and a loan of it
      is stored, issued today by the librarian and due in thirty days. The
      loan rules hold afterwards, and the reader has one more open issue. */
  method IssueBook(lib: Library, reader: UserId, readerEligible: bool, b: BookId, librarian: UserId, today: int)
    returns (errs: set<IssueError>)
    requires lib.Valid()
    modifies lib
    ensures lib.Valid()
    ensures errs == IssueErrors(old(lib.books), old(lib.copies), old(lib.issues), old(lib.returned),
                                reader, readerEligible, b)
    ensures lib.books == old(lib.books) && lib.returned == old(lib.returned)
    ensures errs != {} ==> lib.copies == old(lib.copies) && lib.issues == old(lib.issues)
    ensures errs == {} ==>
              FirstAvailable(old(lib.copies), b).Some?
              && var i := FirstAvailable(old(lib.copies), b).value;
              lib.copies == old(lib.copies)[i := old(lib.copies)[i].(status := Borrowed)]
              && lib.issues == old(lib.issues) + [Issue(reader, i, today, today + LoanDays, librarian, false)]
    ensures errs == {} ==>
              OpenIssues(lib.issues, lib.returned, reader)
              == OpenIssues(old(lib.issues), old(lib.returned), reader) + {|old(lib.issues)|}
              && |OpenIssues(lib.issues, lib.returned, reader)| <= MaxOpenIssues
    ensures old(CopiesFollowLoans(lib.copies, lib.issues, lib.returned)) ==>
              CopiesFollowLoans(lib.copies, lib.issues, lib.returned)
  {
    errs := IssueErrors(lib.books, lib.copies, lib.issues, lib.returned, reader, readerEligible, b);
    if errs != {} {
      return;
    }
    IssueAccepted(lib.books, lib.copies, lib.issues, lib.returned, reader, readerEligible, b);
    var i := FirstAvailable(lib.copies, b).value;
    ghost var c0 := lib.copies;
    lib.SaveCopyStatus(i, Borrowed);
    var x := Issue(reader, i, today, today + LoanDays, librarian, false);
    LoanRulesWhenIssuing(c0, lib.issues, lib.returned, lib.copies, x);
    if CopiesFollowLoans(c0, lib.issues, lib.returned) {
      IssueKeepsCopiesFollowLoans(c0, lib.issues, lib.returned, x);
    }
    lib.issues := lib.issues + [x];
  }

  // ---------------------------------------------------------------------
  // Returning a copy

  datatype ReturnError =
    | UnknownIssue        // issue_id: no such issue among those not soft-deleted
    | AlreadyReturned     // a return row of this issue exists
    | DuplicateReturnRow  // the insert hit the one-to-one link of a soft-deleted return

  /** The validation of BookReturnSerializer's issue_id field as written: the
      lookup of an existing return goes through the soft-delete manager, so
      a soft-deleted return does not stop a second one. */
  function ReturnErrorsAsWritten(issues: seq<Issue>, returned: map<nat, Return>, k: nat): (r: Outcome<ReturnError>)
    ensures r == Fail(UnknownIssue) <==> !(k < |issues| && !issues[k].isDeleted)
    ensures r == Fail(AlreadyReturned) <==>
              k < |issues| && !issues[k].isDeleted && k in returned && !returned[k].isDeleted
    ensures r == Pass <==>
              k < |issues| && !issues[k].isDeleted && (k in returned ==> returned[k].isDeleted)
  {
    if !(k < |issues| && !issues[k].isDeleted) then Fail(UnknownIssue)
    else if k in returned && !returned[k].isDeleted then Fail(AlreadyReturned)
    else Pass
  }

  /** BookReturnSerializer.create as written, after its validation: the copy
      of issue k becomes available, then the return row is inserted,
      received by the librarian today with the fine BookReturn.save
      computes. The copy is saved first, so when a soft-deleted return of
      the same issue makes the insert fail the copy stays available. */
  method ReturnBookAsWritten(lib: Library, k: nat, librarian: UserId, today: int) returns (r: Outcome<ReturnError>)
    requires lib.Valid()
    modifies lib
    ensures lib.Valid()
    ensures lib.books == old(lib.books) && lib.issues == old(lib.issues)
    ensures ReturnErrorsAsWritten(old(lib.issues), old(lib.returned), k).Fail? ==>
              r == ReturnErrorsAsWritten(old(lib.issues), old(lib.returned), k)
              && lib.copies == old(lib.copies) && lib.returned == old(lib.returned)
    ensures ReturnErrorsAsWritten(old(lib.issues), old(lib.returned), k) == Pass ==>
              k < |lib.issues|
              && var c := lib.issues[k].copy;
              lib.copies == old(lib.copies)[c := old(lib.copies)[c].(status := Available)]
    ensures ReturnErrorsAsWritten(old(lib.issues), old(lib.returned), k) == Pass && k !in old(lib.returned) ==>
              r == Pass
              && old(IsOpen(lib.issues, lib.returned, k))
              && lib.returned == old(lib.returned)[k := Return(today, FineOnSave(0, lib.issues[k].due, today), librarian, false)]
              && forall rd :: OpenIssues(lib.issues, lib.returned, rd) == OpenIssues(lib.issues, old(lib.returned), rd) - {k}
    ensures ReturnErrorsAsWritten(old(lib.issues), old(lib.returned), k) == Pass && k in old(lib.returned) ==>
              r == Fail(DuplicateReturnRow) && lib.returned == old(lib.returned)
  {
    r := ReturnErrorsAsWritten(lib.issues, lib.returned, k);
    if r.Fail? {
      return;
    }
    lib.SaveCopyStatus(lib.issues[k].copy, Available);
    var inserted := lib.InsertReturn(k, Return(today, 0, librarian, false), today);
    if inserted.Fail? {
      r := Fail(DuplicateReturnRow);
    }
  }

  /** The first half of the double lending below, from an empty library:
      reader 7 borrows the only copy of a one-copy book and returns it, and
      the return row is soft-deleted. */
  method SoftDeletedReturn(librarian: UserId, today: int) returns (lib: Library)
    ensures fresh(lib) && lib.Valid()
    ensures lib.books == [Book(1, false)]
    ensures |lib.copies| == 1 && lib.copies[0].book == 0 && lib.copies[0].status == Available
    ensures lib.issues == [Issue(7, 0, today, today + LoanDays, librarian, false)]
    ensures lib.returned.Keys == {0} && lib.returned[0].isDeleted
  {
    lib := new Library();
    var b := lib.CreateBook(1);
    assert |lib.copies| == 1 && lib.copies[0].book == 0 && lib.copies[0].status == Available;
    IssueAccepted(lib.books, lib.copies, lib.issues, lib.returned, 7, true, 0);
    assert FirstAvailable(lib.copies, 0) == Some(0);
    assert OpenIssues(lib.issues, lib.returned, 7) == {};
    var e1 := IssueBook(lib, 7, true, 0, librarian, today);
    assert ReturnErrorsAsWritten(lib.issues, lib.returned, 0) == Pass;
    var r1 := ReturnBookAsWritten(lib, 0, librarian, today);
    lib.DeleteReturn(0, today);
  }

  /** The double lending the as-written return allows: after the first
      half above, reader 8 borrows the same copy, and a second return of the
      first loan is refused only after the copy was made available, while
      reader 8's loan is still open. The intended validation refuses that
      second return. */
  method ReturnedCopyLentTwice(librarian: UserId, today: int) returns (lib: Library)
    ensures lib.Valid()
    ensures |lib.issues| == 2 && lib.issues[0].copy == 0 && lib.issues[1].copy == 0
    ensures IsOpen(lib.issues, lib.returned, 1) && lib.copies[0].status == Available
    ensures !CopiesFollowLoans(lib.copies, lib.issues, lib.returned)
    ensures ReturnErrors(lib.issues, lib.returned, 0) == Fail(AlreadyReturned)
  {
    lib := SoftDeletedReturn(librarian, today);
    IssueAccepted(lib.books, lib.copies, lib.issues, lib.returned, 8, true, 0);
    assert FirstAvailable(lib.copies, 0) == Some(0);
    assert OpenIssues(lib.issues, lib.returned, 8) == {};
    var e2 := IssueBook(lib, 8, true, 0, librarian, today);
    assert ReturnErrorsAsWritten(lib.issues, lib.returned, 0) == Pass;
    var r2 := ReturnBookAsWritten(lib, 0, librarian, today);
    assert r2 == Fail(DuplicateReturnRow);
  }

  /** The validation of issue_id as intended: any return row of the issue,
      soft-deleted or not, refuses it, so an issue can be returned exactly
      when it is open. */
  function ReturnErrors(issues: seq<Issue>, returned: map<nat, Return>, k: nat): (r: Outcome<ReturnError>)
    ensures r == Fail(UnknownIssue) <==> !(k < |issues| && !issues[k].isDeleted)
    ensures r == Fail(AlreadyReturned) <==> k < |issues| && !issues[k].isDeleted && k in returned
    ensures r == Pass <==> k < |issues| && IsOpen(issues, returned, k)
  {
    if !(k < |issues| && !issues[k].isDeleted) then Fail(UnknownIssue)
    else if k in returned then Fail(AlreadyReturned)
    else Pass
  }

  /** BookReturnSerializer.create with the intended validation: a refused
      return changes nothing; an accepted one makes the copy available and
      stores the return row with its fine, closing the issue. The copy
      statuses keep following the loans. */
  method ReturnBook(lib: Library, k: nat, librarian: UserId, today: int) returns (r: Outcome<ReturnError>)
    requires lib.Valid()
    modifies lib
    ensures lib.Valid()
    ensures r == ReturnErrors(old(lib.issues), old(lib.returned), k)
    ensures lib.books == old(lib.books) && lib.issues == old(lib.issues)
    ensures r.Fail? ==> lib.copies == old(lib.copies) && lib.returned == old(lib.returned)
    ensures r == Pass ==>
              var c := lib.issues[k].copy;
              lib.copies == old(lib.copies)[c := old(lib.copies)[c].(status := Available)]
              && lib.returned == old(lib.returned)[k := Return(today, FineOnSave(0, lib.issues[k].due, today), librarian, false)]
              && forall rd :: OpenIssues(lib.issues, lib.returned, rd) == OpenIssues(lib.issues, old(lib.returned), rd) - {k}
    ensures old(CopiesFollowLoans(lib.copies, lib.issues, lib.returned)) ==>
              CopiesFollowLoans(lib.copies, lib.issues, lib.returned)
  {
    r := ReturnErrors(lib.issues, lib.returned, k);
    if r.Fail? {
      return;
    }
    ghost var c0, m0 := lib.copies, lib.returned;
    var c := lib.issues[k].copy;
    var row := Return(today, 0, librarian, false);
    lib.SaveCopyStatus(c, Available);
    var inserted := lib.InsertReturn(k, row, today);
    if CopiesFollowLoans(c0, lib.issues, m0) {
      ReturnKeepsCopiesFollowLoans(c0, lib.issues, m0, k, row.(fine := FineOnSave(row.fine, lib.issues[k].due, today)));
    }
  }
}
