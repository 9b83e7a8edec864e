/** The views of the library API: which permission each view asks for, per
    HTTP method and viewset action, and the overridden destroy of books. */
module Views {
  import opened Outcomes
  import opened Tables
  import opened Models
  import opened Permissions

  datatype HttpMethod = Get | Head | Options | Post | Put | Patch | Delete

  /** The framework's SAFE_METHODS. */
  predicate Safe(m: HttpMethod) {
    m == Get || m == Head || m == Options
  }

  /** The viewset actions of a router-generated model API. */
  datatype Action = List | Create | Retrieve | Update | PartialUpdate | Destroy | Metadata

  /** The action a request is dispatched to: `detail` tells an item route
      (`/books/7/`) from a collection route (`/books/`). HEAD is served as GET
      and OPTIONS always by the metadata action; a method the route does not
      map has no action. */
  function ActionOf(m: HttpMethod, detail: bool): (a: Option<Action>)
    ensures m == Options <==> a == Some(Metadata)
    ensures a.Some? && Safe(m) ==> a.value in {List, Retrieve, Metadata}
    ensures a.Some? && !Safe(m) ==> a.value in {Create, Update, PartialUpdate, Destroy}
    ensures a == Some(Retrieve) <==> detail && (m == Get || m == Head)
  {
    match m
    case Options => Some(Metadata)
    case Get => if detail then Some(Retrieve) else Some(List)
    case Head => if detail then Some(Retrieve) else Some(List)
    case Post => if detail then None else Some(Create)
    case Put => if detail then Some(Update) else None
    case Patch => if detail then Some(PartialUpdate) else None
    case Delete => if detail then Some(Destroy) else None
  }

  predicate Mutating(a: Option<Action>) {
    a == Some(Create) || a == Some(Update) || a == Some(PartialUpdate) || a == Some(Destroy)
  }

  datatype View =
    | Registration
    | Users
    | Authors
    | Directions
    | Publishers
    | Books
    | Inventories
    | Issues
    | Returns

  predicate Catalog(v: View) {
    v == Authors || v == Directions || v == Publishers || v == Books || v == Inventories
  }

  /** The permission a view's get_permissions (or permission_classes) returns. */
  datatype Policy = AllowAny | Authenticated | LibrarianOnly | OwnerOrLibrarianOnly

  function PolicyOf(v: View, m: HttpMethod, a: Option<Action>): (p: Policy)
    ensures p == AllowAny <==> v == Registration
    ensures p == OwnerOrLibrarianOnly <==> (v == Issues || v == Returns) && a == Some(Retrieve)
    ensures v == Users || (Catalog(v) && !Safe(m)) || ((v == Issues || v == Returns) && Mutating(a))
            <==> p == LibrarianOnly
  {
    match v
    case Registration => AllowAny
    case Users => LibrarianOnly
    case Issues | Returns =>
      if Mutating(a) then LibrarianOnly
      else if a == Some(Retrieve) then OwnerOrLibrarianOnly
      else Authenticated
    case _ => if Safe(m) then Authenticated else LibrarianOnly
  }

  /** The object a per-object check is asked about: a loan carries its
      reader, a return row carries none. */
  function TargetOf(v: View, objectReader: UserId): (t: Target)
    ensures t.WithoutReader? <==> v == Returns
  {
    if v == Returns then WithoutReader else WithReader(objectReader)
  }

  /** The outcome of the permission checks of one request: the view-level
      check first, then, on an item route of OwnerOrLibrarian, the object-level
      check on the object found (objectReader is its reader). The other
      permission classes grant every object they granted the view. */
  function Access(v: View, m: HttpMethod, detail: bool, u: Requester, objectReader: UserId): (r: Verdict)
    ensures v == Registration ==> r == Granted
    ensures v == Users ==> (r == Granted <==> IsLibrarian(u))
    ensures Catalog(v) && Safe(m) ==> (r == Granted <==> IsAuthenticated(u))
    ensures Catalog(v) && !Safe(m) ==> (r == Granted <==> IsLibrarian(u))
    ensures (v == Issues || v == Returns) && Mutating(ActionOf(m, detail)) ==> (r == Granted <==> IsLibrarian(u))
    ensures v == Issues && ActionOf(m, detail) == Some(Retrieve) ==>
              (r == Granted <==> IsLibrarian(u) || (u.Member? && u.id == objectReader))
    ensures v == Returns && ActionOf(m, detail) == Some(Retrieve) ==>
              (r == Granted <==> IsLibrarian(u)) && (r == Fault <==> !IsLibrarian(u))
    ensures r == Fault ==> (v == Issues || v == Returns) && ActionOf(m, detail) == Some(Retrieve)
  {
    match PolicyOf(v, m, ActionOf(m, detail))
    case AllowAny => Granted
    case Authenticated => if IsAuthenticated(u) then Granted else Denied
    case LibrarianOnly => if IsLibrarian(u) then Granted else Denied
    case OwnerOrLibrarianOnly => OwnerOrLibrarian(u, TargetOf(v, objectReader))
  }

  /** Apart from registration, only librarians can create, change or delete
      anything through the API. */
  lemma OnlyLibrariansWrite(v: View, m: HttpMethod, detail: bool, u: Requester, objectReader: UserId)
    requires v != Registration && !Safe(m) && ActionOf(m, detail).Some?
    ensures Access(v, m, detail, u, objectReader) == Granted ==> IsLibrarian(u)
  {
  }

  /** An anonymous visitor is granted nothing but registration. */
  lemma AnonymousOnlyRegisters(v: View, m: HttpMethod, detail: bool, objectReader: UserId)
    ensures Access(v, m, detail, Anonymous, objectReader) == Granted <==> v == Registration
  {
  }

  /** A reader can retrieve a loan only when it is their own. */
  lemma ReadersRetrieveOwnLoans(id: UserId, m: HttpMethod, objectReader: UserId)
    requires ActionOf(m, true) == Some(Retrieve)
    ensures Access(Issues, m, true, Member(id, Reader), objectReader) == Granted <==> id == objectReader
  {
  }

  // ---------------------------------------------------------------------
  // BookViewSet.destroy

  datatype DestroyError = NotFound | CopyIssued

  /** Some copy of b has the status text "issued". */
  predicate HasIssuedCopy(copies: seq<Copy>, b: BookId) {
    exists i :: 0 <= i < |copies| && copies[i].book == b && StatusName(copies[i].status) == "issued"
  }

  /** No status is stored as "issued", so the guard of destroy never fires. */
  lemma {:induction false} IssuedGuardNeverFires(copies: seq<Copy>, b: BookId)
    ensures !HasIssuedCopy(copies, b)
  {
    forall i | 0 <= i < |copies| ensures StatusName(copies[i].status) != "issued" {
      match copies[i].status
      case Available => assert StatusName(Available)[0] == 'a';
      case Borrowed => assert StatusName(Borrowed)[0] == 'b';
      case Deleted => assert StatusName(Deleted)[0] == 'd';
    }
  }

  /** BookViewSet.destroy: a book that is not found is a 404; otherwise the
      guard on "issued" copies is checked, and the book is saved with only
      an attribute the model does not have set, so nothing is deleted and
      nothing in the store changes. */
  method DestroyBook(lib: Library, b: BookId) returns (r: Outcome<DestroyError>)
    requires lib.Valid()
    modifies lib
    ensures lib.Valid()
    ensures lib.books == old(lib.books) && lib.copies == old(lib.copies)
    ensures lib.issues == old(lib.issues) && lib.returned == old(lib.returned)
    ensures r == Fail(NotFound) <==> !old(lib.Visible(b))
    ensures r == Fail(CopyIssued) <==> old(lib.Visible(b)) && HasIssuedCopy(old(lib.copies), b)
    ensures r == Pass ==> lib.Visible(b)
  {
    if !lib.Visible(b) {
      return Fail(NotFound);
    }
    if HasIssuedCopy(lib.copies, b) {
      return Fail(CopyIssued);
    }
    var c0 := lib.copies;
    var row := lib.books[b];
    var saved := lib.SaveBook(b, row);
    assert FreshCopies(b, CopyId(|c0|), 0) == [];
    assert c0 + [] == c0;
    r := Pass;
  }
}
