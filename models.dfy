/** The save and delete hooks of the models (librarian/models.py), acting on
    an in-memory copy of the store. */
module Models {
  import opened Outcomes
  import opened InventoryNumbers
  import opened Tables

  /** The fine per day late, in som. */
  const FinePerDay: int := 5

  /** The fine BookReturn.save stores: when the save happens after the due
      day, 5 per day late; otherwise the fine already on the row is kept
      (0 on a new row). The clock is the parameter today (a day number). */
  function FineOnSave(current: int, due: int, today: int): (fine: int)
    ensures today > due ==> fine > 0 && fine % FinePerDay == 0 && fine / FinePerDay == today - due
    ensures today <= due ==> fine == current
  {
    if today > due then (today - due) * FinePerDay else current
  }

  /** A new return row starts at fine 0, so its fine is never negative, is
      zero when the copy comes back on or before the due day, and grows by
      5 for each further day. */
  lemma FineOfNewReturn(due: int, today: int)
    ensures FineOnSave(0, due, today) >= 0
    ensures FineOnSave(0, due, today) == 0 <==> today <= due
    ensures FineOnSave(0, due, today + 1) == FineOnSave(0, due, today) + (if today >= due then FinePerDay else 0)
  {
  }

  /** Walks the copy table in id order and retires the first d available
      copies of b met, one row at a time. */
  method RetireRows(c0: seq<Copy>, b: BookId, d: nat) returns (cur: seq<Copy>)
    ensures cur == RetireFirst(c0, b, d)
  {
    cur := c0;
    var i, left := 0, d;
    while i < |cur| && left > 0
      invariant 0 <= i <= |cur| && |cur| == |c0|
      invariant cur[..i] + RetireFirst(c0[i..], b, left) == RetireFirst(c0, b, d)
      invariant cur[i..] == c0[i..]
    {
      if AvailableCopyOf(cur[i], b) {
        var next := cur[i := cur[i].(status := Deleted)];
        RetireFirstTake(c0, cur, next, i, b, left, d);
        cur, left := next, left - 1;
      } else {
        RetireFirstSkip(c0, cur, i, b, left, d);
      }
      i := i + 1;
    }
    RetireFirstLoopEnd(c0, cur, i, b, left, d);
  }

  datatype ModelError =
    | BookNotFound        // Book.objects.get raised DoesNotExist
    | NotEnoughAvailable  // a quantity decrease with too few available copies
    | BookAlreadyIssued   // Book.delete of a book with a loan
    | CopyAlreadyIssued   // Inventory.delete of a copy with a loan
    | ReturnRowExists     // the one-to-one link of BookReturn already taken

  class Library {
    var books: seq<Book>
    var copies: seq<Copy>
    var issues: seq<Issue>
    var returned: map<nat, Return>

    ghost predicate Valid()
      reads this
    {
      TablesValid(books, copies, issues, returned)
    }

    predicate Visible(b: BookId)
      reads this
    {
      BookVisible(books, b)
    }

    /** The copy-table invariant of one book: as many live copies as its quantity. */
    ghost predicate Reconciled(b: BookId)
      reads this
      requires b < |books|
    {
      Count(copies, b, Live) == books[b].quantity
    }

    /** Some loan visible through the soft-delete manager uses a copy of b. */
    predicate EverIssued(b: BookId)
      reads this
      requires IssuesWellFormed(copies, issues)
    {
      exists k :: 0 <= k < |issues| && !issues[k].isDeleted && copies[issues[k].copy].book == b
    }

    /** Some loan visible through the soft-delete manager uses copy i. */
    predicate CopyEverIssued(i: nat)
      reads this
    {
      exists k :: 0 <= k < |issues| && !issues[k].isDeleted && issues[k].copy == i
    }

    constructor ()
      ensures Valid()
      ensures books == [] && copies == [] && issues == [] && returned == map[]
    {
      books, copies, issues, returned := [], [], [], map[];
    }

    /** Inventory.save of a new row for book b, as Book.save creates them:
        the row is stored to obtain its id, then its empty inventory number
        is replaced by the one formatted from that id. */
    method AddCopy(b: BookId)
      requires Valid() && b < |books|
      modifies this
      ensures Valid()
      ensures copies == old(copies) + [Copy(b, InventoryNumber(CopyId(|old(copies)|)), Available)]
      ensures books == old(books) && issues == old(issues) && returned == old(returned)
    {
      var row := Copy(b, "", Available);
      AppendCopyKeepsTables(books, copies, issues, returned, b);
      copies := copies + [row];
      var id := CopyId(|copies| - 1);
      if row.number == "" {
        copies := copies[id - 1 := copies[id - 1].(number := InventoryNumber(id))];
      }
    }

    /** Inventory.save of an existing row with a new status: the number is
        already set, so it is kept. */
    method SaveCopyStatus(i: nat, s: Status)
      requires Valid() && i < |copies|
      modifies this
      ensures Valid()
      ensures copies == old(copies)[i := old(copies)[i].(status := s)]
      ensures copies[i].number == old(copies)[i].number
      ensures books == old(books) && issues == old(issues) && returned == old(returned)
    {
      ghost var before := copies;
      copies := copies[i := copies[i].(status := s)];
      LoanRulesWhenClosing(before, issues, returned, copies, issues, returned);
    }

    /** Book.save of a new book: the row is stored, then one available copy
        per unit of quantity is created. */
    method CreateBook(quantity: nat) returns (b: BookId)
      requires Valid()
      modifies this
      ensures Valid()
      ensures b == |old(books)| && books == old(books) + [Book(quantity, false)]
      ensures copies == old(copies) + FreshCopies(b, CopyId(|old(copies)|), quantity)
      ensures Reconciled(b) && Count(copies, b, {Available}) == quantity
      ensures forall b', st :: b' != b ==> Count(copies, b', st) == Count(old(copies), b', st)
      ensures issues == old(issues) && returned == old(returned)
    {
      b := |books|;
      books := books + [Book(quantity, false)];
      AppendCopies(b, quantity);
      forall i | 0 <= i < |old(copies)| ensures old(copies)[i].book != b { }
      CountAbsent(old(copies), b, Live);
      CountAbsent(old(copies), b, {Available});
      FreshCopiesCount(b, CopyId(|old(copies)|), quantity, b, Live);
      FreshCopiesCount(b, CopyId(|old(copies)|), quantity, b, {Available});
      CountAppend(old(copies), FreshCopies(b, CopyId(|old(copies)|), quantity), b, Live);
      CountAppend(old(copies), FreshCopies(b, CopyId(|old(copies)|), quantity), b, {Available});
      forall b', st | b' != b ensures Count(copies, b', st) == Count(old(copies), b', st) {
        FreshCopiesCount(b, CopyId(|old(copies)|), quantity, b', st);
        CountAppend(old(copies), FreshCopies(b, CopyId(|old(copies)|), quantity), b', st);
      }
    }

    /** The loop `for _ in range(n): Inventory(book=b, status='available').save()`. */
    method AppendCopies(b: BookId, n: nat)
      requires Valid() && b < |books|
      modifies this
      ensures Valid()
      ensures copies == old(copies) + FreshCopies(b, CopyId(|old(copies)|), n)
      ensures books == old(books) && issues == old(issues) && returned == old(returned)
    {
      var k := 0;
      ghost var first := CopyId(|copies|);
      while k < n
        invariant 0 <= k <= n && Valid()
        invariant copies == old(copies) + FreshCopies(b, first, k)
        invariant books == old(books) && issues == old(issues) && returned == old(returned)
      {
        ghost var prev := copies;
        AddCopy(b);
        assert CopyId(|prev|) == first + k;
        assert FreshCopies(b, first, k + 1) == FreshCopies(b, first, k) + [Copy(b, InventoryNumber(first + k), Available)];
        assert copies == old(copies) + (FreshCopies(b, first, k) + [Copy(b, InventoryNumber(first + k), Available)]);
        k := k + 1;
      }
    }

    /** The loop over `Inventory.objects.filter(book=b, status='available')[:d]`
        that updates each of those rows to status deleted: the rows are
        updated in a working copy of the table, which is then stored. */
    method RetireAvailable(b: BookId, d: nat)
      requires Valid()
      modifies this
      ensures Valid()
      ensures copies == RetireFirst(old(copies), b, d)
      ensures books == old(books) && issues == old(issues) && returned == old(returned)
    {
      var cur := RetireRows(copies, b, d);
      RetireFirstKeepsTables(books, copies, issues, returned, b, d);
      copies := cur;
    }

    /** The copy reconciliation of Book.save when the stored quantity of b
        goes from oldQuantity to newQuantity: an increase appends one new
        copy per unit, a decrease retires that many available copies, and a
        decrease beyond the available count changes nothing and fails. */
    method ReconcileCopies(b: BookId, oldQuantity: nat, newQuantity: nat) returns (r: Outcome<ModelError>)
      requires Valid() && b < |books|
      modifies this
      ensures Valid()
      ensures books == old(books) && issues == old(issues) && returned == old(returned)
      ensures newQuantity >= oldQuantity ==>
                r == Pass && copies == old(copies) + FreshCopies(b, CopyId(|old(copies)|), newQuantity - oldQuantity)
      ensures newQuantity < oldQuantity && Count(old(copies), b, {Available}) < oldQuantity - newQuantity ==>
                r == Fail(NotEnoughAvailable) && copies == old(copies)
      ensures newQuantity < oldQuantity && Count(old(copies), b, {Available}) >= oldQuantity - newQuantity ==>
                r == Pass && copies == RetireFirst(old(copies), b, oldQuantity - newQuantity)
      ensures r == Pass ==> Count(copies, b, Live) == Count(old(copies), b, Live) + newQuantity - oldQuantity
      ensures forall b', st :: b' != b ==> Count(copies, b', st) == Count(old(copies), b', st)
    {
      var c0 := copies;
      if newQuantity > oldQuantity {
        var d := newQuantity - oldQuantity;
        AppendCopies(b, d);
        GrowCounts(c0, b, CopyId(|c0|), d);
      } else if newQuantity < oldQuantity {
        var d := oldQuantity - newQuantity;
        // The sliced query holds min(available, d) rows; it is short exactly
        // when fewer than d copies are available.
        if Count(copies, b, {Available}) < d {
          return Fail(NotEnoughAvailable);
        }
        RetireAvailable(b, d);
        RetireFirstCounts(c0, b, d);
        RetireFirstOtherCounts(c0, b, d);
      } else {
        assert FreshCopies(b, CopyId(|c0|), 0) == [];
        assert copies == c0 + [];
      }
      r := Pass;
    }

    /** Book.save of an existing book with the field values in row. The
        stored quantity is read first; the row is then stored (so a rejected
        decrease leaves the new quantity in place); then the copies are
        reconciled with the difference. */
    method SaveBook(b: BookId, row: Book) returns (r: Outcome<ModelError>)
      requires Valid()
      modifies this
      ensures Valid()
      ensures issues == old(issues) && returned == old(returned)
      ensures !old(Visible(b)) ==> r == Fail(BookNotFound) && books == old(books) && copies == old(copies)
      ensures old(Visible(b)) ==> books == old(books)[b := row]
      ensures old(Visible(b)) && row.quantity >= old(books[b].quantity) ==>
                r == Pass && copies == old(copies) + FreshCopies(b, CopyId(|old(copies)|), row.quantity - old(books[b].quantity))
      ensures old(Visible(b)) && row.quantity < old(books[b].quantity) ==>
                var d := old(books[b].quantity) - row.quantity;
                if Count(old(copies), b, {Available}) < d then r == Fail(NotEnoughAvailable) && copies == old(copies)
                else r == Pass && copies == RetireFirst(old(copies), b, d)
      ensures old(Visible(b)) && r == Pass && old(Reconciled(b)) ==> Reconciled(b)
      ensures forall b', st :: b' != b ==> Count(copies, b', st) == Count(old(copies), b', st)
    {
      if !Visible(b) {
        return Fail(BookNotFound);
      }
      var oldQuantity := books[b].quantity;
      books := books[b := row];
      r := ReconcileCopies(b, oldQuantity, row.quantity);
    }

    /** Book.delete: refused once any copy of the book has a loan; otherwise
        every copy is marked deleted, the book is soft-deleted and saved. */
    method DeleteBook(b: BookId) returns (r: Outcome<ModelError>)
      requires Valid() && b < |books|
      modifies this
      ensures Valid()
      ensures issues == old(issues) && returned == old(returned)
      ensures old(EverIssued(b)) ==> r == Fail(BookAlreadyIssued) && books == old(books) && copies == old(copies)
      ensures !old(EverIssued(b)) ==> copies == RetireAll(old(copies), b) && Count(copies, b, Live) == 0
      ensures !old(EverIssued(b)) && !old(books[b].isDeleted) ==>
                r == Pass && books == old(books)[b := old(books[b]).(isDeleted := true)]
      ensures !old(EverIssued(b)) && old(books[b].isDeleted) ==> r == Fail(BookNotFound) && books == old(books)
      ensures forall b', st :: b' != b ==> Count(copies, b', st) == Count(old(copies), b', st)
    {
      if EverIssued(b) {
        return Fail(BookAlreadyIssued);
      }
      ghost var c0 := copies;
      copies := RetireAll(copies, b);
      LoanRulesWhenClosing(c0, issues, returned, copies, issues, returned);
      RetireAllCounts(c0, b, b, Live);
      forall b', st | b' != b ensures Count(copies, b', st) == Count(c0, b', st) {
        RetireAllCounts(c0, b, b', st);
      }
      var row := books[b].(isDeleted := true);
      r := SaveBook(b, row);
    }

    /** Inventory.delete: refused once the copy has a loan; otherwise its
        status becomes deleted (the book's quantity is not touched). */
    method DeleteCopy(i: nat) returns (r: Outcome<ModelError>)
      requires Valid() && i < |copies|
      modifies this
      ensures Valid()
      ensures books == old(books) && issues == old(issues) && returned == old(returned)
      ensures old(CopyEverIssued(i)) ==> r == Fail(CopyAlreadyIssued) && copies == old(copies)
      ensures !old(CopyEverIssued(i)) ==> r == Pass && copies == old(copies)[i := old(copies)[i].(status := Deleted)]
    {
      if CopyEverIssued(i) {
        return Fail(CopyAlreadyIssued);
      }
      SaveCopyStatus(i, Deleted);
      r := Pass;
    }

    /** SoftDeleteModel.delete of a loan: only the is_deleted flag changes. */
    method DeleteIssue(k: nat)
      requires Valid() && k < |issues|
      modifies this
      ensures Valid()
      ensures issues == old(issues)[k := old(issues)[k].(isDeleted := true)]
      ensures books == old(books) && copies == old(copies) && returned == old(returned)
      ensures forall r :: OpenIssues(issues, returned, r) == OpenIssues(old(issues), returned, r) - {k}
    {
      ghost var i0 := issues;
      issues := issues[k := issues[k].(isDeleted := true)];
      LoanRulesWhenClosing(copies, i0, returned, copies, issues, returned);
    }

    /** BookReturn.save of a new return row for issue k: the fine is computed
        from the issue's due day, then the row is inserted; the insert fails
        if a (possibly soft-deleted) row already links to issue k. */
    method InsertReturn(k: nat, row: Return, today: int) returns (r: Outcome<ModelError>)
      requires Valid() && k < |issues|
      modifies this
      ensures Valid()
      ensures books == old(books) && copies == old(copies) && issues == old(issues)
      ensures k in old(returned) ==> r == Fail(ReturnRowExists) && returned == old(returned)
      ensures k !in old(returned) ==>
                r == Pass && returned == old(returned)[k := row.(fine := FineOnSave(row.fine, issues[k].due, today))]
      ensures forall rd :: OpenIssues(issues, returned, rd) == OpenIssues(issues, old(returned), rd) - {k}
    {
      if k in returned {
        return Fail(ReturnRowExists);
      }
      ghost var m0 := returned;
      var stored := row.(fine := FineOnSave(row.fine, issues[k].due, today));
      returned := returned[k := stored];
      LoanRulesWhenClosing(copies, issues, m0, copies, issues, returned);
      r := Pass;
    }

    /** BookReturn.save of the existing return row of issue k with the field
        values in row: the fine is recomputed from today, so a later save of
        a late return stores a larger fine. */
    method SaveReturn(k: nat, row: Return, today: int)
      requires Valid() && k in returned
      modifies this
      ensures Valid()
      ensures books == old(books) && copies == old(copies) && issues == old(issues)
      ensures returned == old(returned)[k := row.(fine := FineOnSave(row.fine, issues[k].due, today))]
    {
      ghost var m0 := returned;
      returned := returned[k := row.(fine := FineOnSave(row.fine, issues[k].due, today))];
      LoanRulesWhenClosing(copies, issues, m0, copies, issues, returned);
    }

    /** SoftDeleteModel.delete of a return: the flag is set and the row saved,
        which recomputes its fine. The issue stays closed. */
    method DeleteReturn(k: nat, today: int)
      requires Valid() && k in returned
      modifies this
      ensures Valid()
      ensures books == old(books) && copies == old(copies) && issues == old(issues)
      ensures returned == old(returned)[k := old(returned)[k].(isDeleted := true,
                                                              fine := FineOnSave(old(returned)[k].fine, issues[k].due, today))]
      ensures returned.Keys == old(returned).Keys && returned[k].isDeleted
    {
      SaveReturn(k, returned[k].(isDeleted := true), today);
    }
  }
}
