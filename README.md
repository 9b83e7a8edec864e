# Library lending rules, modelled in Dafny

This project models the lending core of a small Django library service. The
service tracks books and the physical copies of each book ("inventory"
rows). It also tracks loans ("issues") of a copy to a reader, and the
returns that close them.

The model covers these parts:

- **Copy-table reconciliation.** Saving a book grows or shrinks its set of
  copies to match its quantity.
- **Inventory numbers.** A copy's number is `INV-` plus its row id,
  zero-padded to five digits.
- **Loans.** A copy can be issued to a reader and later returned. A reader
  may hold at most three open loans and never two of the same book. A late
  return is fined five per day.
- **Input validation.** Registration and profile fields are trimmed of
  surrounding whitespace, then checked. Registration always creates a reader.
- **Access rules.** Three permission classes, and which one each view asks
  for per method and action.
- **Soft deletion.** Deleting a row only flags it.
- **Book destroy.** The books view overrides destroy.

The model has these modules:

| module | file | what it holds |
|---|---|---|
| `Outcomes` | `outcomes.dfy` | `Option`, `Result`, `Outcome` |
| `InventoryNumbers` | `inventory_numbers.dfy` | The `INV-%05d` format and its inverse |
| `Tables` | `tables.dfy` | Row datatypes, copy counting, and the loan rules as predicates over the tables |
| `Models` | `models.dfy` | `class Library`, the store. Its fields are the copy, book, issue and return tables, and its methods are the model-level `save`/`delete` operations. Its invariant `Valid()` says every copy number is the formatted row id and the loan rules hold. |
| `Validators` | `validators.dfy` | The field validators |
| `Serializers` | `serializers.dfy` | Registration, issuing and returning |
| `Permissions` | `permissions.dfy` | The permission classes |
| `Views` | `views.dfy` | The permission table of each view, and the books view's destroy |

Row ids are positions. The copy at position `i` has id `i + 1`. Books and
issues are referred to by their position.

Loan dates are day numbers. Birth dates are `(year, month, day)` triples,
compared as Python compares dates.

The current date is a parameter `today` of every operation that reads the
clock.

## Model

| member | source | states |
|---|---|---|
| `InventoryNumbers.InventoryNumber` | librarian/models.py:146 | The number is `INV-` followed by at least five characters, all decimal digits |
| `InventoryNumbers.ZeroPad` | librarian/models.py:146 | Padding only prepends `0`s, up to width 5; a longer digit string is kept whole |
| `InventoryNumbers.Decimal` | librarian/models.py:146 | The decimal digits of the id, with no leading zero |
| `InventoryNumbers.DecimalValue` | librarian/models.py:146 | The decimal digits read back give the id |
| `InventoryNumbers.LeadingZerosValue` | librarian/models.py:146 | Leading zeros do not change the value a digit string denotes |
| `InventoryNumbers.ParseInventoryNumber` | librarian/models.py:146 | Reading a number back succeeds only on `INV-` followed by digits |
| `InventoryNumbers.InventoryNumberRoundTrip` | librarian/models.py:146 | Parsing the number of id `n` gives back `n` |
| `InventoryNumbers.InventoryNumberInjective` | librarian/models.py:140-146 | Distinct ids get distinct numbers, so the unique column can never clash |
| `InventoryNumbers.ShortIdsPadToFive` | librarian/models.py:146 | Ids below 100000 give numbers of exactly nine characters |
| `Tables.Count` | librarian/models.py:119-123 | The number of copies of a book whose status lies in a set, never more than the table size |
| `Tables.CountAppend` | librarian/models.py:103-115 | Counting over appended rows adds the counts |
| `Tables.CountUpdate` | librarian/models.py:128 | Changing one row's status moves it from one count to another and changes nothing else |
| `Tables.CountAbsent` | librarian/models.py:103-107 | A book with no rows has count 0 |
| `Tables.CountAvailablePositive` | librarian/serializers.py:201 | The available count is positive exactly when some available copy of the book exists |
| `Tables.FreshCopies` | librarian/models.py:103-115 | The new rows of a save: n copies of the book, each available, numbered from consecutive ids |
| `Tables.FreshCopiesCount` | librarian/models.py:103-115 | The new rows add n available copies of that book, and none of any other book or status |
| `Tables.GrowCounts` | librarian/models.py:110-115 | Appending n new copies of a book adds n to its live count and leaves every other book's counts alone |
| `Tables.RetireFirst` | librarian/models.py:119-128 | Retiring the d lowest-id available copies keeps the table size |
| `Tables.RetireFirstRows` | librarian/models.py:119-128 | Each row is either unchanged or an available copy of the book turned deleted; rows of other books are unchanged |
| `Tables.RetireFirstCounts` | librarian/models.py:119-128 | Retiring d available copies: d fewer available, d more deleted, borrowed unchanged, d fewer live |
| `Tables.RetireFirstOtherBooks` | librarian/models.py:119-128 | No other book's counts change |
| `Tables.RetireFirstOtherCounts` | librarian/models.py:119-128 | The same for all other books and status sets at once |
| `Tables.RetireFirstKeepsTables` | librarian/models.py:119-128 | Retiring copies keeps every row's book and number and every loan rule, so the store stays valid |
| `Tables.RetireAll` | librarian/models.py:134 | Every copy of the book becomes deleted; other rows are unchanged |
| `Tables.RetireAllCounts` | librarian/models.py:134 | Afterwards the book has no live copies; other books' counts are unchanged |
| `Tables.AppendCopyKeepsTables` | librarian/models.py:143-147 | A new available row numbered from its own id keeps the store valid |
| `Tables.OpenIssues` | librarian/serializers.py:205-208 | A reader's open issues are the ones not soft-deleted that have no return row, soft-deleted or not |
| `Tables.NumbersUnique` | librarian/models.py:140 | In a valid store no two copies share an inventory number |
| `Tables.LoanRulesWhenClosing` | librarian/models.py:24-26 | Changes that only close issues keep both loan rules, and open sets only shrink |
| `Tables.OpenIssuesAppend` | librarian/serializers.py:231 | A new open issue joins its reader's open set only |
| `Tables.LoanRulesWhenIssuing` | librarian/serializers.py:204-231 | An issue admitted under the limit and the no-duplicate rule keeps both loan rules, and grows the reader's open set by exactly the new issue |
| `Tables.NoDuplicateWhenIssuing` | librarian/serializers.py:212-214 | Afterwards no reader has two open issues of one book |
| `Models.FineOnSave` | librarian/models.py:181-188 | When late, the fine is 5 times the days late; otherwise the stored fine is kept |
| `Models.FineOfNewReturn` | librarian/models.py:177-187 | A new return's fine is never negative, is 0 exactly when on time, and grows by 5 per further day late |
| `Models.Library.constructor` | librarian/models.py:138-141 | The empty store is valid |
| `Models.Library.AddCopy` | librarian/models.py:143-147 | A new row gets `INV-` plus its own zero-padded id, is available, and nothing else changes |
| `Models.Library.SaveCopyStatus` | librarian/models.py:148 | Saving a copy with a number changes only its status and keeps its number |
| `Models.Library.CreateBook` | librarian/models.py:94-107 | A new book with quantity n gets exactly n new available copies, none for other books, and its live count equals n |
| `Models.Library.AppendCopies` | librarian/models.py:110-115 | Raising the quantity by d appends exactly d new available copies and leaves existing copies unchanged |
| `Models.Library.RetireAvailable` | librarian/models.py:119-128 | The loop turns the d lowest-id available copies of the book to deleted |
| `Models.RetireRows` | librarian/models.py:119-128 | Walking the rows in order and retiring available copies of the book until d are done yields exactly the d lowest-id available copies retired |
| `Models.Library.ReconcileCopies` | librarian/models.py:109-128 | An increase appends one new copy per unit. A decrease retires that many available copies, or fails with copies unchanged when fewer are available. On success the live count moves by the difference, and other books are untouched. |
| `Models.Library.SaveBook` | librarian/models.py:94-128 | Stores the row first. An increase appends copies. A decrease beyond the available count fails with copies unchanged but the new quantity kept. On success the live count still equals the quantity, and other books are untouched. |
| `Models.Library.DeleteBook` | librarian/models.py:130-136 | Refused when a loan that is not soft-deleted used a copy of the book. Otherwise every copy is deleted and the book is soft-deleted. |
| `Models.Library.DeleteCopy` | librarian/models.py:150-155 | Refused when the copy has a loan that is not soft-deleted; otherwise its status becomes deleted |
| `Models.Library.DeleteIssue` | librarian/models.py:24-26 | Soft delete of a loan sets only its flag; the loan leaves every open set |
| `Models.Library.InsertReturn` | librarian/models.py:174-188 | The return row is inserted with its computed fine, unless one (even soft-deleted) is linked already; the issue closes |
| `Models.Library.SaveReturn` | librarian/models.py:181-188 | Every save of a return recomputes the fine from today |
| `Models.Library.DeleteReturn` | librarian/models.py:24-26 | Soft delete of a return sets its flag and recomputes its fine; the issue stays closed |
| `Validators.FullMatch` | librarian/serializers.py:29 | A pattern of character classes matches exactly the strings of its length whose characters lie in the classes |
| `Validators.PassportPatternMeaning` | librarian/serializers.py:29 | The passport pattern matches two Latin or Cyrillic capitals followed by six digits |
| `Validators.PhonePatternMeaning` | librarian/serializers.py:34 | The phone pattern matches `+996` followed by nine digits |
| `Validators.ValidatePassport` | librarian/serializers.py:28-31 | Accepted exactly when the value is 2 capitals (A–Z or А–Я) then 6 digits; the value is kept |
| `Validators.ValidatePhone` | librarian/serializers.py:33-36 | Accepted exactly when the value is `+996` then 9 digits |
| `Validators.StripBounds` | librarian/serializers.py:39 | `str.strip` (`Validators.Strip`, the slice between these bounds): the kept slice is bordered only by whitespace, and starts and ends with non-whitespace |
| `Validators.StripKeepsContent` | librarian/serializers.py:39 | Stripping never drops a non-whitespace character |
| `Validators.StripIdempotent` | librarian/serializers.py:39 | Stripping twice is stripping once |
| `Validators.ValidateAddress` | librarian/serializers.py:38-41 | Rejected exactly when the stripped address has fewer than 5 characters |
| `Validators.ShortAddressRejected` | librarian/serializers.py:87-90 | Addresses shorter than 5, or all whitespace, are rejected |
| `Validators.AgeOn` | librarian/serializers.py:72-73 | The age counts the birthdays already reached: the age-th is on or before today, the next is after |
| `Validators.AgeAtLeast` | librarian/serializers.py:73-74 | The age is at least n exactly when the n-th birthday is not after today |
| `Validators.ValidateRegistrationBirthDate` | librarian/serializers.py:71-76 | Rejected exactly when the 14th birthday is still ahead |
| `Validators.ValidateProfileBirthDate` | librarian/serializers.py:43-46 | An absent date passes; a date after today is rejected |
| `Validators.RegisteredBirthDateNotInFuture` | librarian/serializers.py:43-76 | A birth date accepted at registration passes the profile check |
| `Serializers.RegistrationErrors` | librarian/serializers.py:71-90 | The registration errors are exactly the failing checks of the fields as the validators receive them, all reported together |
| `Serializers.Register` | librarian/serializers.py:63-94 | The text fields are trimmed first (`Serializers.TrimFields`, which applies `Serializers.Trimmed` to each present field). Registration then fails with the errors of the trimmed fields, or stores the trimmed fields with role reader, whatever role was asked for. Each stored passport, phone and address passes its own check. |
| `Serializers.TrimFieldsTwice` | librarian/serializers.py:63-69 | Trimming the submitted fields twice is trimming them once |
| `Serializers.SurroundingSpaceIgnored` | librarian/serializers.py:63-94 | Whitespace around the submitted text never changes the outcome of a registration |
| `Serializers.PaddedPassportAccepted` | librarian/serializers.py:63-94 | A passport sent as `" AB123456 "` reaches its check and the store as `"AB123456"`, and the registration succeeds |
| `Serializers.ProfileErrors` | librarian/serializers.py:15-46 | The profile errors are exactly the failing checks of the fields as the validators receive them |
| `Serializers.RegisteredProfileValid` | librarian/serializers.py:28-94 | The trimmed fields of a profile accepted at registration pass every profile check |
| `Serializers.FirstAvailable` | librarian/serializers.py:222 | Finds the available copy of the book with the smallest id, or reports that none exists |
| `Serializers.IssueErrors` | librarian/serializers.py:182-216 | Unknown book or reader, then in order: no available copy, three open issues, an open issue of the same book; at most one of the last three |
| `Serializers.IssueAccepted` | librarian/serializers.py:196-216 | An issue is accepted exactly when the book is found, a copy is available, the reader has fewer than 3 open issues and none of this book |
| `Serializers.IssueBook` | librarian/serializers.py:218-231 | A rejected issue changes nothing. An accepted one borrows the first available copy and stores a loan due in 30 days, issued by the librarian. The reader's open set grows by one and stays at most 3, and the loan rules still hold, as does the rule that every open issue's copy is borrowed. |
| `Serializers.ReturnErrorsAsWritten` | librarian/serializers.py:236-249 | As written: unknown (or soft-deleted) issue, or a return that is not soft-deleted already exists; a soft-deleted return lets the request through |
| `Serializers.ReturnBookAsWritten` | librarian/serializers.py:251-261 | As written: a rejected return changes nothing. Otherwise the copy becomes available, then the return row is stored with its fine, closing the issue. When a soft-deleted return blocks the insert, the request fails but the copy stays available. |
| `Serializers.SoftDeletedReturn` | librarian/serializers.py:218-261 | From an empty store, one copy is issued, returned, and the return soft-deleted: the copy is available and the issue closed |
| `Serializers.ReturnedCopyLentTwice` | librarian/serializers.py:246-261 | Continuing, the copy is issued to another reader and the first issue is returned again: the copy is available while the second issue is open, so copy statuses no longer follow the loans |
| `Serializers.ReturnErrors` | librarian/serializers.py:246-249 | Intended validation: a return is accepted exactly when its issue exists, is not soft-deleted and has no return row, soft-deleted or not |
| `Serializers.ReturnBook` | librarian/serializers.py:251-261 | Intended return: a refused request changes nothing. Otherwise the copy becomes available and the return row is stored with its fine, closing the issue; copy statuses keep following the open loans. |
| `Tables.IssueKeepsCopiesFollowLoans` | librarian/serializers.py:218-231 | Borrowing an available copy for a new open issue keeps every open issue's copy borrowed and no copy on two open issues |
| `Tables.ReturnKeepsCopiesFollowLoans` | librarian/serializers.py:251-261 | Closing an open issue and making its copy available keeps every open issue's copy borrowed |
| `Permissions.IsLibrarian` | librarian/permissions.py:3-5 | Holds only for a signed-in user, and for one exactly when the role is librarian |
| `Permissions.IsReader` | librarian/permissions.py:7-9 | Holds only for a signed-in user, and for one exactly when the role is reader |
| `Permissions.RolesPartitionMembers` | librarian/permissions.py:3-9 | No user is both; every signed-in user is one of them |
| `Permissions.OwnerOrLibrarian` | librarian/permissions.py:11-17 | Granted to librarians and to the object's reader. A reader is refused another reader's object. Anonymous users, and non-librarians on objects without a reader, raise an error. |
| `Views.ActionOf` | librarian/views.py:135-140 | The action a method and route dispatch to: retrieve is GET/HEAD on an item, OPTIONS is metadata, unsafe methods map only to mutating actions |
| `Views.PolicyOf` | librarian/views.py:47-159 | Only registration is open. Retrieve of loans and returns is owner-or-librarian. Users, unsafe catalog requests and mutating loan/return actions need a librarian. |
| `Views.TargetOf` | librarian/views.py:146-159 | Return rows are the objects without a reader |
| `Views.Access` | librarian/views.py:24-159 | The verdict per view: users need a librarian, catalog reads need sign-in and writes a librarian, loan and return writes need a librarian, loan retrieve needs librarian or owner, return retrieve by a non-librarian raises |
| `Views.OnlyLibrariansWrite` | librarian/views.py:47-159 | Except registration, every granted create/update/delete is a librarian's |
| `Views.AnonymousOnlyRegisters` | librarian/views.py:24-159 | An anonymous visitor is granted registration and nothing else |
| `Views.ReadersRetrieveOwnLoans` | librarian/views.py:138-139 | A reader may retrieve a loan exactly when it is theirs |
| `Views.IssuedGuardNeverFires` | librarian/views.py:106 | No copy's status is ever `issued`, so the guard never refuses |
| `Views.DestroyBook` | librarian/views.py:104-110 | A missing book is not found. Otherwise the store is unchanged and the book stays found: destroy deletes nothing. |

## Findings

| source | as written | input that shows it | evidently intended | confidence | as-written member | corrected member |
|---|---|---|---|---|---|---|
| librarian/serializers.py:246-261 | The return validation looks for an existing return through the manager that hides soft-deleted rows. `create` then makes the copy available before inserting the return, and that insert fails on the one-to-one link of the soft-deleted row. | A one-copy book is issued to reader 7 and returned, and the return is soft-deleted. The copy is then issued to reader 8, and the first issue is returned again: the request fails, but the copy is available while reader 8 still has it. | Any return row of the issue, soft-deleted or not, refuses the request before the copy is touched, so every open issue's copy stays borrowed. | not executed | `Serializers.ReturnedCopyLentTwice` | `Serializers.ReturnBook` |

## Left out

- The user table is not modelled. The username's own rules (required, unique, its validators), passwords, e-mail and the uniqueness of passport and phone are not modelled: they are checked by the database and the user manager. The username is only trimmed and stored.
- Whether a `reader_id` names an active user with role reader is a parameter (`readerEligible`) of `Serializers.IssueErrors`, because the user table is not modelled.
- The generic serializers are not modelled: authors, directions, publishers, inventory, the book create/update field mapping, user update and password hashing. Updating a loan through the generic update is not modelled either.
- Inventory rows created directly through the API with a caller-chosen number are not modelled. The store invariant assumes every number is the formatted row id, as `Inventory.save` makes it.
- Soft deletion of authors, directions and publishers is not modelled. They carry no lending rules; the same flag-only delete is modelled for loans and returns.
- JWT token creation at registration and the current-user view are not modelled: foreign library calls.
- `Validators.ValidatePassport`: two regex quirks are not modelled. `$` also accepts a trailing newline, and `\d` also matches non-ASCII decimal digits. The model accepts ASCII digits only and no trailing newline. Through the serializers the newline case cannot arise, because trimming removes it first.
- `Validators.ValidatePhone`: the same two regex quirks are not modelled.
- `Serializers.Register`: an explicit `null` for a field is not modelled; an absent field is `None` and skips its check. An explicit null birth date would crash the registration age check.
- `Serializers.Register`: the stored username is the trimmed text, but `create_user` (librarian/serializers.py:94) stores the NFKC normal form of it. For example, `"ｒeader"` with a fullwidth first letter (U+FF52) is stored as `"reader"` by the service and kept as written by the model. Unicode normalisation tables are not modelled.
- `Serializers.Register`: the first, last and middle names (librarian/serializers.py:68-69, at most 150, 150 and 50 characters) are not modelled, since no rule of the service reads them.
- `Serializers.Register`: the framework's own field checks, which run before each `validate_<field>`, are not modelled: the maximum lengths and the refusal of null characters. A value such as an address containing `"\x00"` is refused by the framework but accepted by the model.
- `Tables.RetireFirst`: the model retires the d lowest-id available copies. The sliced query has no ordering, so the database may choose any d available copies; the lowest ids are one order it may produce. `Models.RetireRows`, `Models.Library.RetireAvailable`, `Models.Library.ReconcileCopies` and `Models.Library.SaveBook` fix the resulting table to that choice. Only which rows are retired depends on this choice; how many copies of each status remain would be the same for any choice.
- Trimming is modelled for the text fields of the user serializers only. The username's own validators and the blank-username error are not modelled.
- The monetary fine is an integer. The decimal column's bound of 9999.99 is not modelled.
- One `today` is used for every date in one operation. The source reads the date twice, through the local date and the UTC date, which can differ near midnight.
- The condition text of a return is not modelled.
- The framework's request transaction is not modelled. Each operation runs to its end or stops at its first error, as the source does without atomic requests.
- Several lines of the source would raise an exception as written. The model follows the evident intent of each:
  - the call to `update` on one copy;
  - the filter on a `book` field that a loan does not have;
  - the misspelt `invantory` filter in the copy delete.
- Concurrent issuing of the last copy is not modelled: the model is sequential.
