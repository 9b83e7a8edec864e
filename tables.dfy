/** The rows the lending rules work on (librarian/models.py), with the
    counting functions and invariants stated over them.

    The relational store is modelled in memory: the Inventory table is a
    sequence of copies whose row id is position + 1 (ids are handed out
    from 1 upwards and copies are never removed), the Book and BookIssue
    tables are sequences indexed by position, and the BookReturn table is a
    map from the position of the issue it completes (a one-to-one link). */
module Tables {
  import opened InventoryNumbers

  type UserId = nat
  type BookId = nat

  datatype Role = Reader | Librarian

  datatype Status = Available | Borrowed | Deleted

  /** The text stored in the status column for each choice. */
  function StatusName(s: Status): string {
    match s
    case Available => "available"
    case Borrowed => "borrowed"
    case Deleted => "deleted"
  }

  /** One Inventory row: a physical copy of a book. */
  datatype Copy = Copy(book: BookId, number: string, status: Status)

  /** One Book row; only the fields the lending rules read. */
  datatype Book = Book(quantity: nat, isDeleted: bool)

  /** One BookIssue row (a loan). Dates are day numbers. */
  datatype Issue = Issue(reader: UserId, copy: nat, issueDate: int, due: int,
                         issuedBy: UserId, isDeleted: bool)

  /** One BookReturn row. */
  datatype Return = Return(returnDate: int, fine: int, receivedBy: UserId, isDeleted: bool)

  /** The statuses of copies that still exist physically. */
  const Live: set<Status> := {Available, Borrowed}

  /** The loan limit of the issue serializer. */
  const MaxOpenIssues: nat := 3

  /** The inventory row id of the copy at position i. */
  function CopyId(i: nat): nat {
    i + 1
  }

  // ---------------------------------------------------------------------
  // Counting copies

  predicate Counted(c: Copy, b: BookId, st: set<Status>) {
    c.book == b && c.status in st
  }

  predicate AvailableCopyOf(c: Copy, b: BookId) {
    c.book == b && c.status == Available
  }

  /** The number of copies of book b whose status lies in st. */
  function Count(cs: seq<Copy>, b: BookId, st: set<Status>): (n: nat)
    ensures n <= |cs|
  {
    if cs == [] then 0
    else (if Counted(cs[0], b, st) then 1 else 0) + Count(cs[1..], b, st)
  }

  lemma {:induction false} CountAppend(cs: seq<Copy>, ds: seq<Copy>, b: BookId, st: set<Status>)
    ensures Count(cs + ds, b, st) == Count(cs, b, st) + Count(ds, b, st)
    decreases |cs|
  {
    if cs != [] {
      assert (cs + ds)[0] == cs[0] && (cs + ds)[1..] == cs[1..] + ds;
      CountAppend(cs[1..], ds, b, st);
    } else {
      assert cs + ds == ds;
    }
  }

  /** Changing one row changes each count by at most the row's own contribution. */
  lemma {:induction false} CountUpdate(cs: seq<Copy>, i: nat, x: Copy, b: BookId, st: set<Status>)
    requires i < |cs|
    ensures Count(cs[i := x], b, st)
         == Count(cs, b, st) - (if Counted(cs[i], b, st) then 1 else 0) + (if Counted(x, b, st) then 1 else 0)
    decreases i
  {
    if i > 0 {
      assert cs[i := x][1..] == cs[1..][i - 1 := x];
      CountUpdate(cs[1..], i - 1, x, b, st);
    } else {
      assert cs[i := x][1..] == cs[1..];
    }
  }

  /** A book without copies in cs counts zero in every status. */
  lemma {:induction false} CountAbsent(cs: seq<Copy>, b: BookId, st: set<Status>)
    requires forall i :: 0 <= i < |cs| ==> cs[i].book != b
    ensures Count(cs, b, st) == 0
    decreases |cs|
  {
    if cs != [] {
      CountAbsent(cs[1..], b, st);
    }
  }

  /** There is an available copy of b exactly when the available count is positive. */
  lemma {:induction false} CountAvailablePositive(cs: seq<Copy>, b: BookId)
    ensures Count(cs, b, {Available}) > 0 <==> exists i :: 0 <= i < |cs| && AvailableCopyOf(cs[i], b)
    decreases |cs|
  {
    if cs != [] {
      CountAvailablePositive(cs[1..], b);
      if exists i :: 0 <= i < |cs[1..]| && AvailableCopyOf(cs[1..][i], b) {
        var i :| 0 <= i < |cs[1..]| && AvailableCopyOf(cs[1..][i], b);
        assert AvailableCopyOf(cs[i + 1], b);
      }
      if exists i :: 0 <= i < |cs| && AvailableCopyOf(cs[i], b) {
        var i :| 0 <= i < |cs| && AvailableCopyOf(cs[i], b);
        if i > 0 { assert AvailableCopyOf(cs[1..][i - 1], b); }
      }
    }
  }

  // ---------------------------------------------------------------------
  // The copy-table changes made by Book.save and Book.delete

  /** The n rows that n successive Inventory.save calls append for book b
      when the next row id is firstId: all available, numbered from their ids. */
  function FreshCopies(b: BookId, firstId: nat, n: nat): (r: seq<Copy>)
    ensures |r| == n
    ensures forall k :: 0 <= k < n ==> r[k] == Copy(b, InventoryNumber(firstId + k), Available)
  {
    if n == 0 then [] else FreshCopies(b, firstId, n - 1) + [Copy(b, InventoryNumber(firstId + n - 1), Available)]
  }

  /** New copies count only for their own book, and only as available (hence live). */
  lemma {:induction false} FreshCopiesCount(b: BookId, firstId: nat, n: nat, b': BookId, st: set<Status>)
    ensures Count(FreshCopies(b, firstId, n), b', st) == if b' == b && Available in st then n else 0
    decreases n
  {
    if n > 0 {
      var last := Copy(b, InventoryNumber(firstId + n - 1), Available);
      FreshCopiesCount(b, firstId, n - 1, b', st);
      CountAppend(FreshCopies(b, firstId, n - 1), [last], b', st);
      assert Count([last], b', st) == Count([], b', st) + (if Counted(last, b', st) then 1 else 0);
    }
  }

  /** Appending n new copies of b adds n live copies of b and leaves every
      other book's counts alone. */
  lemma GrowCounts(cs: seq<Copy>, b: BookId, firstId: nat, n: nat)
    ensures Count(cs + FreshCopies(b, firstId, n), b, Live) == Count(cs, b, Live) + n
    ensures forall b', st :: b' != b ==> Count(cs + FreshCopies(b, firstId, n), b', st) == Count(cs, b', st)
  {
    FreshCopiesCount(b, firstId, n, b, Live);
    CountAppend(cs, FreshCopies(b, firstId, n), b, Live);
    forall b', st | b' != b ensures Count(cs + FreshCopies(b, firstId, n), b', st) == Count(cs, b', st) {
      FreshCopiesCount(b, firstId, n, b', st);
      CountAppend(cs, FreshCopies(b, firstId, n), b', st);
    }
  }

  /** Marks as deleted the d lowest-id available copies of b. The slice
      `Inventory.objects.filter(book=b, status='available')[:d]` has no
      ordering, so the database may return any d of them; this is the
      order of a plain table scan. */
  function RetireFirst(cs: seq<Copy>, b: BookId, d: nat): (r: seq<Copy>)
    ensures |r| == |cs|
  {
    if d == 0 || cs == [] then cs
    else if AvailableCopyOf(cs[0], b) then [cs[0].(status := Deleted)] + RetireFirst(cs[1..], b, d - 1)
    else [cs[0]] + RetireFirst(cs[1..], b, d)
  }

  /** Each row is either left as it was or is an available copy of b that
      became deleted: borrowed copies and other books' copies never change. */
  lemma {:induction false} RetireFirstRows(cs: seq<Copy>, b: BookId, d: nat, i: nat)
    requires i < |cs|
    ensures var r := RetireFirst(cs, b, d);
            r[i] == cs[i] || (AvailableCopyOf(cs[i], b) && r[i] == cs[i].(status := Deleted))
    decreases i
  {
    if d > 0 && i > 0 {
      RetireFirstRows(cs[1..], b, if AvailableCopyOf(cs[0], b) then d - 1 else d, i - 1);
    }
  }

  /** With at least d available copies, exactly d of them become deleted:
      the available and live counts drop by d and borrowed copies stay. */
  lemma {:induction false} RetireFirstCounts(cs: seq<Copy>, b: BookId, d: nat)
    requires d <= Count(cs, b, {Available})
    ensures Count(RetireFirst(cs, b, d), b, {Available}) == Count(cs, b, {Available}) - d
    ensures Count(RetireFirst(cs, b, d), b, {Deleted}) == Count(cs, b, {Deleted}) + d
    ensures Count(RetireFirst(cs, b, d), b, {Borrowed}) == Count(cs, b, {Borrowed})
    ensures Count(RetireFirst(cs, b, d), b, Live) == Count(cs, b, Live) - d
    decreases |cs|
  {
    if d > 0 && cs != [] {
      RetireFirstCounts(cs[1..], b, if AvailableCopyOf(cs[0], b) then d - 1 else d);
    }
  }

  /** RetireFirst leaves every other book's counts alone. */
  lemma RetireFirstOtherCounts(cs: seq<Copy>, b: BookId, d: nat)
    ensures forall b', st :: b' != b ==> Count(RetireFirst(cs, b, d), b', st) == Count(cs, b', st)
  {
    forall b', st | b' != b ensures Count(RetireFirst(cs, b, d), b', st) == Count(cs, b', st) {
      RetireFirstOtherBooks(cs, b, d, b', st);
    }
  }

  /** RetireFirst handles the first row, then the rest. */
  lemma RetireFirstUnfold(rest: seq<Copy>, b: BookId, left: nat)
    requires |rest| > 0 && left > 0
    ensures AvailableCopyOf(rest[0], b) ==>
              RetireFirst(rest, b, left) == [rest[0].(status := Deleted)] + RetireFirst(rest[1..], b, left - 1)
    ensures !AvailableCopyOf(rest[0], b) ==>
              RetireFirst(rest, b, left) == [rest[0]] + RetireFirst(rest[1..], b, left)
  {
  }

  /** One step of the loop that computes RetireFirst row by row, when row i
      is an available copy of b: after it is retired, the handled prefix
      followed by what is still to be done is still the whole result. */
  lemma RetireFirstTake(c0: seq<Copy>, cur: seq<Copy>, next: seq<Copy>, i: nat, b: BookId, left: nat, d: nat)
    requires |cur| == |c0| && i < |c0| && left > 0
    requires cur[..i] + RetireFirst(c0[i..], b, left) == RetireFirst(c0, b, d)
    requires cur[i..] == c0[i..]
    requires AvailableCopyOf(cur[i], b) && next == cur[i := cur[i].(status := Deleted)]
    ensures next[..i + 1] + RetireFirst(c0[i + 1..], b, left - 1) == RetireFirst(c0, b, d)
    ensures next[i + 1..] == c0[i + 1..]
  {
    var rest := c0[i..];
    assert rest[0] == c0[i] == cur[i] && rest[1..] == c0[i + 1..];
    RetireFirstUnfold(rest, b, left);
    var x := c0[i].(status := Deleted);
    assert next[..i + 1] == cur[..i] + [x];
    assert cur[..i] + ([x] + RetireFirst(c0[i + 1..], b, left - 1))
        == (cur[..i] + [x]) + RetireFirst(c0[i + 1..], b, left - 1);
  }

  /** The same step when row i is left alone. */
  lemma RetireFirstSkip(c0: seq<Copy>, cur: seq<Copy>, i: nat, b: BookId, left: nat, d: nat)
    requires |cur| == |c0| && i < |c0| && left > 0
    requires cur[..i] + RetireFirst(c0[i..], b, left) == RetireFirst(c0, b, d)
    requires cur[i..] == c0[i..]
    requires !AvailableCopyOf(cur[i], b)
    ensures cur[..i + 1] + RetireFirst(c0[i + 1..], b, left) == RetireFirst(c0, b, d)
    ensures cur[i + 1..] == c0[i + 1..]
  {
    var rest := c0[i..];
    assert rest[0] == c0[i] == cur[i] && rest[1..] == c0[i + 1..];
    RetireFirstUnfold(rest, b, left);
    assert cur[..i + 1] == cur[..i] + [c0[i]];
    assert cur[..i] + ([c0[i]] + RetireFirst(c0[i + 1..], b, left))
        == (cur[..i] + [c0[i]]) + RetireFirst(c0[i + 1..], b, left);
  }

  /** When the loop stops, the rows handled so far are the whole result. */
  lemma RetireFirstLoopEnd(c0: seq<Copy>, cur: seq<Copy>, i: nat, b: BookId, left: nat, d: nat)
    requires |cur| == |c0| && i <= |c0| && (i == |c0| || left == 0)
    requires cur[..i] + RetireFirst(c0[i..], b, left) == RetireFirst(c0, b, d)
    requires cur[i..] == c0[i..]
    ensures cur == RetireFirst(c0, b, d)
  {
    assert cur == cur[..i] + cur[i..];
  }

  /** Copies of every other book are left alone. */
  lemma {:induction false} RetireFirstOtherBooks(cs: seq<Copy>, b: BookId, d: nat, b': BookId, st: set<Status>)
    requires b' != b
    ensures Count(RetireFirst(cs, b, d), b', st) == Count(cs, b', st)
    decreases |cs|
  {
    if d > 0 && cs != [] {
      RetireFirstOtherBooks(cs[1..], b, if AvailableCopyOf(cs[0], b) then d - 1 else d, b', st);
    }
  }

  /** Retiring copies keeps every row's book and number and closes no loan,
      so the store stays valid. */
  lemma RetireFirstKeepsTables(books: seq<Book>, copies: seq<Copy>, issues: seq<Issue>, returned: map<nat, Return>,
                               b: BookId, d: nat)
    requires TablesValid(books, copies, issues, returned)
    ensures TablesValid(books, RetireFirst(copies, b, d), issues, returned)
  {
    var r := RetireFirst(copies, b, d);
    forall i | 0 <= i < |copies| ensures r[i].book == copies[i].book && r[i].number == copies[i].number {
      RetireFirstRows(copies, b, d, i);
    }
    LoanRulesWhenClosing(copies, issues, returned, r, issues, returned);
  }

  /** Marks every copy of b as deleted: `Inventory.objects.filter(book=b).update(status='deleted')`. */
  function RetireAll(cs: seq<Copy>, b: BookId): (r: seq<Copy>)
    ensures |r| == |cs|
    ensures forall i :: 0 <= i < |cs| ==> r[i] == if cs[i].book == b then cs[i].(status := Deleted) else cs[i]
  {
    if cs == [] then [] else [if cs[0].book == b then cs[0].(status := Deleted) else cs[0]] + RetireAll(cs[1..], b)
  }

  /** After RetireAll no copy of b is live, and other books keep every count. */
  lemma {:induction false} RetireAllCounts(cs: seq<Copy>, b: BookId, b': BookId, st: set<Status>)
    ensures Count(RetireAll(cs, b), b, Live) == 0
    ensures b' != b ==> Count(RetireAll(cs, b), b', st) == Count(cs, b', st)
    decreases |cs|
  {
    if cs != [] {
      RetireAllCounts(cs[1..], b, b', st);
    }
  }

  // ---------------------------------------------------------------------
  // Loans

  /** The book is found by the soft-delete manager `Book.objects`. */
  predicate BookVisible(books: seq<Book>, b: BookId) {
    b < |books| && !books[b].isDeleted
  }

  predicate IssuesWellFormed(copies: seq<Copy>, issues: seq<Issue>) {
    forall k :: 0 <= k < |issues| ==> issues[k].copy < |copies|
  }

  /** An open issue: visible through the soft-delete manager and with no
      BookReturn row linked to it. The join `bookreturn__isnull=True` does
      not go through the soft-delete manager, so a soft-deleted return still
      closes its issue. */
  predicate IsOpen(issues: seq<Issue>, returned: map<nat, Return>, k: nat)
    requires k < |issues|
  {
    !issues[k].isDeleted && k !in returned
  }

  /** The positions of the reader's open issues. */
  function OpenIssues(issues: seq<Issue>, returned: map<nat, Return>, reader: UserId): (s: set<nat>)
    ensures forall k :: k in s <==> 0 <= k < |issues| && issues[k].reader == reader && IsOpen(issues, returned, k)
  {
    set k | 0 <= k < |issues| && issues[k].reader == reader && IsOpen(issues, returned, k)
  }

  /** The reader has an open issue of some copy of book b. */
  predicate HoldsBook(copies: seq<Copy>, issues: seq<Issue>, returned: map<nat, Return>, reader: UserId, b: BookId)
    requires IssuesWellFormed(copies, issues)
  {
    exists k :: 0 <= k < |issues| && issues[k].reader == reader && IsOpen(issues, returned, k)
                && copies[issues[k].copy].book == b
  }

  /** The two loan rules: at most three open issues per reader, and never two
      open issues of the same reader for copies of one book. */
  ghost predicate LoanRules(copies: seq<Copy>, issues: seq<Issue>, returned: map<nat, Return>)
    requires IssuesWellFormed(copies, issues)
  {
    && (forall r :: |OpenIssues(issues, returned, r)| <= MaxOpenIssues)
    && (forall j, k ::
          0 <= j < |issues| && 0 <= k < |issues| && j != k
          && IsOpen(issues, returned, j) && IsOpen(issues, returned, k)
          && issues[j].reader == issues[k].reader
          ==> copies[issues[j].copy].book != copies[issues[k].copy].book)
  }

  /** The invariant of the whole store. */
  ghost predicate TablesValid(books: seq<Book>, copies: seq<Copy>, issues: seq<Issue>, returned: map<nat, Return>) {
    && (forall i :: 0 <= i < |copies| ==> copies[i].book < |books| && copies[i].number == InventoryNumber(CopyId(i)))
    && IssuesWellFormed(copies, issues)
    && (forall k :: k in returned ==> k < |issues|)
    && LoanRules(copies, issues, returned)
  }

  /** No two copies share an inventory number. */
  lemma NumbersUnique(books: seq<Book>, copies: seq<Copy>, issues: seq<Issue>, returned: map<nat, Return>, i: nat, j: nat)
    requires TablesValid(books, copies, issues, returned)
    requires i < |copies| && j < |copies| && i != j
    ensures copies[i].number != copies[j].number
  {
    InventoryNumberInjective(CopyId(i), CopyId(j));
  }

  lemma SubsetCard(a: set<nat>, b: set<nat>)
    requires a <= b
    ensures |a| <= |b|
  {
    assert b == a + (b - a);
  }

  /** Appending a new available copy numbered from its id keeps the store valid. */
  lemma AppendCopyKeepsTables(books: seq<Book>, copies: seq<Copy>, issues: seq<Issue>, returned: map<nat, Return>, b: BookId)
    requires TablesValid(books, copies, issues, returned) && b < |books|
    ensures TablesValid(books, copies + [Copy(b, InventoryNumber(CopyId(|copies|)), Available)], issues, returned)
  {
    var c := copies + [Copy(b, InventoryNumber(CopyId(|copies|)), Available)];
    forall i | 0 <= i < |c| ensures c[i].book < |books| && c[i].number == InventoryNumber(CopyId(i)) {
      if i < |copies| {
        assert c[i] == copies[i];
      }
    }
    assert forall i :: 0 <= i < |copies| ==> c[i] == copies[i];
    LoanRulesWhenClosing(copies, issues, returned, c, issues, returned);
  }

  /** Loan rules survive any change that only closes issues and keeps every
      issue's reader and copy, and every referenced copy's book. */
  lemma LoanRulesWhenClosing(copies: seq<Copy>, issues: seq<Issue>, returned: map<nat, Return>,
                             copies': seq<Copy>, issues': seq<Issue>, returned': map<nat, Return>)
    requires IssuesWellFormed(copies, issues) && LoanRules(copies, issues, returned)
    requires |issues'| == |issues| && |copies'| >= |copies|
    requires forall k :: 0 <= k < |issues| ==>
               issues'[k].reader == issues[k].reader && issues'[k].copy == issues[k].copy
               && copies'[issues[k].copy].book == copies[issues[k].copy].book
               && (IsOpen(issues', returned', k) ==> IsOpen(issues, returned, k))
    ensures IssuesWellFormed(copies', issues') && LoanRules(copies', issues', returned')
    ensures forall r :: OpenIssues(issues', returned', r) <= OpenIssues(issues, returned, r)
  {
    forall r ensures |OpenIssues(issues', returned', r)| <= MaxOpenIssues {
      SubsetCard(OpenIssues(issues', returned', r), OpenIssues(issues, returned, r));
    }
  }

  /** Appending an open issue adds its position to its reader's open set
      and leaves every other reader's open set as it was. */
  lemma OpenIssuesAppend(issues: seq<Issue>, returned: map<nat, Return>, x: Issue, r: UserId)
    requires forall k :: k in returned ==> k < |issues|
    requires !x.isDeleted
    ensures OpenIssues(issues + [x], returned, r)
         == OpenIssues(issues, returned, r) + (if r == x.reader then {|issues|} else {})
    ensures |issues| !in OpenIssues(issues, returned, r)
  {
    var issues' := issues + [x];
    forall k | 0 <= k < |issues| ensures issues'[k] == issues[k] { }
    assert IsOpen(issues', returned, |issues|);
  }

  /** Adding one open issue of a reader for book b, while the reader has fewer
      than three open issues and none for b, keeps both loan rules and grows
      the reader's open set by exactly the new issue. */
  lemma LoanRulesWhenIssuing(copies: seq<Copy>, issues: seq<Issue>, returned: map<nat, Return>,
                             copies': seq<Copy>, x: Issue)
    requires IssuesWellFormed(copies, issues) && LoanRules(copies, issues, returned)
    requires forall k :: k in returned ==> k < |issues|
    requires |copies'| == |copies| && forall i :: 0 <= i < |copies| ==> copies'[i].book == copies[i].book
    requires x.copy < |copies| && !x.isDeleted
    requires |OpenIssues(issues, returned, x.reader)| < MaxOpenIssues
    requires !HoldsBook(copies, issues, returned, x.reader, copies[x.copy].book)
    ensures IssuesWellFormed(copies', issues + [x]) && LoanRules(copies', issues + [x], returned)
    ensures OpenIssues(issues + [x], returned, x.reader) == OpenIssues(issues, returned, x.reader) + {|issues|}
    ensures forall r :: r != x.reader ==> OpenIssues(issues + [x], returned, r) == OpenIssues(issues, returned, r)
  {
    var issues' := issues + [x];
    forall r ensures |OpenIssues(issues', returned, r)| <= MaxOpenIssues
      && OpenIssues(issues', returned, r) == OpenIssues(issues, returned, r) + (if r == x.reader then {|issues|} else {})
    {
      OpenIssuesAppend(issues, returned, x, r);
    }
    NoDuplicateWhenIssuing(copies, issues, returned, copies', x);
  }

  lemma NoDuplicateWhenIssuing(copies: seq<Copy>, issues: seq<Issue>, returned: map<nat, Return>,
                               copies': seq<Copy>, x: Issue)
    requires IssuesWellFormed(copies, issues) && LoanRules(copies, issues, returned)
    requires |copies'| == |copies| && forall i :: 0 <= i < |copies| ==> copies'[i].book == copies[i].book
    requires x.copy < |copies|
    requires !HoldsBook(copies, issues, returned, x.reader, copies[x.copy].book)
    ensures IssuesWellFormed(copies', issues + [x])
    ensures forall j, k ::
          0 <= j < |issues + [x]| && 0 <= k < |issues + [x]| && j != k
          && IsOpen(issues + [x], returned, j) && IsOpen(issues + [x], returned, k)
          && (issues + [x])[j].reader == (issues + [x])[k].reader
          ==> copies'[(issues + [x])[j].copy].book != copies'[(issues + [x])[k].copy].book
  {
    var issues' := issues + [x];
    var n := |issues|;
    forall j, k |
          0 <= j < |issues'| && 0 <= k < |issues'| && j != k
          && IsOpen(issues', returned, j) && IsOpen(issues', returned, k)
          && issues'[j].reader == issues'[k].reader
      ensures copies'[issues'[j].copy].book != copies'[issues'[k].copy].book
    {
      if j == n {
        assert issues'[k] == issues[k];
        assert !(issues[k].reader == x.reader && IsOpen(issues, returned, k) && copies[issues[k].copy].book == copies[x.copy].book);
      } else if k == n {
        assert issues'[j] == issues[j];
        assert !(issues[j].reader == x.reader && IsOpen(issues, returned, j) && copies[issues[j].copy].book == copies[x.copy].book);
      } else {
        assert issues'[j] == issues[j] && issues'[k] == issues[k];
      }
    }
  }
  // ---------------------------------------------------------------------
  // Copies out on loan

  /** The copy statuses follow the loans: the copy of every open issue is
      stored as borrowed, and no copy has two open issues. */
  predicate CopiesFollowLoans(copies: seq<Copy>, issues: seq<Issue>, returned: map<nat, Return>)
    requires IssuesWellFormed(copies, issues)
  {
    && (forall k :: 0 <= k < |issues| && IsOpen(issues, returned, k) ==> copies[issues[k].copy].status == Borrowed)
    && (forall j, k ::
          0 <= j < |issues| && 0 <= k < |issues| && j != k && IsOpen(issues, returned, j) && IsOpen(issues, returned, k)
          ==> issues[j].copy != issues[k].copy)
  }

  /** Lending an available copy keeps the statuses following the loans: no
      open issue had that copy, since its copy would be borrowed. */
  lemma IssueKeepsCopiesFollowLoans(copies: seq<Copy>, issues: seq<Issue>, returned: map<nat, Return>, x: Issue)
    requires IssuesWellFormed(copies, issues) && CopiesFollowLoans(copies, issues, returned)
    requires forall k :: k in returned ==> k < |issues|
    requires x.copy < |copies| && copies[x.copy].status == Available && !x.isDeleted
    ensures IssuesWellFormed(copies[x.copy := copies[x.copy].(status := Borrowed)], issues + [x])
    ensures CopiesFollowLoans(copies[x.copy := copies[x.copy].(status := Borrowed)], issues + [x], returned)
  {
    var copies' := copies[x.copy := copies[x.copy].(status := Borrowed)];
    var issues' := issues + [x];
    var n := |issues|;
    assert IsOpen(issues', returned, n);
    forall k | 0 <= k < n && IsOpen(issues', returned, k) ensures issues'[k].copy != x.copy {
      assert issues'[k] == issues[k] && IsOpen(issues, returned, k);
    }
    forall k | 0 <= k < |issues'| && IsOpen(issues', returned, k)
      ensures copies'[issues'[k].copy].status == Borrowed
    {
      if k < n {
        assert issues'[k] == issues[k] && IsOpen(issues, returned, k);
      }
    }
    forall j, k | 0 <= j < |issues'| && 0 <= k < |issues'| && j != k
                  && IsOpen(issues', returned, j) && IsOpen(issues', returned, k)
      ensures issues'[j].copy != issues'[k].copy
    {
      if j < n && k < n {
        assert issues'[j] == issues[j] && IsOpen(issues, returned, j);
        assert issues'[k] == issues[k] && IsOpen(issues, returned, k);
      }
    }
  }

  /** Closing an open issue and making its copy available keeps the statuses
      following the loans: no other open issue has that copy. */
  lemma ReturnKeepsCopiesFollowLoans(copies: seq<Copy>, issues: seq<Issue>, returned: map<nat, Return>,
                                     k: nat, ret: Return)
    requires IssuesWellFormed(copies, issues) && CopiesFollowLoans(copies, issues, returned)
    requires k < |issues| && IsOpen(issues, returned, k)
    ensures var c := issues[k].copy;
            CopiesFollowLoans(copies[c := copies[c].(status := Available)], issues, returned[k := ret])
  {
    var c := issues[k].copy;
    var copies' := copies[c := copies[c].(status := Available)];
    var returned' := returned[k := ret];
    forall j | 0 <= j < |issues| && IsOpen(issues, returned', j) ensures copies'[issues[j].copy].status == Borrowed {
      assert j != k && IsOpen(issues, returned, j);
    }
    forall i, j | 0 <= i < |issues| && 0 <= j < |issues| && i != j
                  && IsOpen(issues, returned', i) && IsOpen(issues, returned', j)
      ensures issues[i].copy != issues[j].copy
    {
      assert IsOpen(issues, returned, i) && IsOpen(issues, returned, j);
    }
  }

}
