/** The permission classes of the library API. */
module Permissions {
  import opened Tables

  /** The user a request is made by: an anonymous visitor, or a signed-in
      user with an id and a role. */
  datatype Requester = Anonymous | Member(id: UserId, role: Role)

  /** The object a per-object permission is asked about: a loan, which has a
      reader, or a return row, which has none of its own. */
  datatype Target = WithReader(reader: UserId) | WithoutReader

  /** The answer of a permission check. Fault is an exception escaping the
      check (an attribute missing on the user or on the object), which the
      framework turns into a server error rather than a refusal. */
  datatype Verdict = Granted | Denied | Fault

  predicate IsAuthenticated(u: Requester) {
    u.Member?
  }

  /** IsLibrarian.has_permission. */
  function IsLibrarian(u: Requester): (ok: bool)
    ensures ok ==> IsAuthenticated(u)
    ensures IsAuthenticated(u) ==> (ok <==> u.role == Librarian)
  {
    u.Member? && u.role == Librarian
  }

  /** IsReader.has_permission. */
  function IsReader(u: Requester): (ok: bool)
    ensures ok ==> IsAuthenticated(u)
    ensures IsAuthenticated(u) ==> (ok <==> u.role == Reader)
  {
    u.Member? && u.role == Reader
  }

  /** Every signed-in user is a librarian or a reader, never both, and an
      anonymous visitor is neither. */
  lemma RolesPartitionMembers(u: Requester)
    ensures !(IsLibrarian(u) && IsReader(u))
    ensures IsAuthenticated(u) <==> IsLibrarian(u) || IsReader(u)
  {
  }

  /** IsOwnerOrLibrarian.has_object_permission: librarians pass; anyone else
      passes when the object's reader is they. The role is read first, so an
      anonymous visitor (who has no role) makes the check fail with an
      exception; a non-librarian asking about an object without a reader
      fails the same way. */
  function OwnerOrLibrarian(u: Requester, t: Target): (v: Verdict)
    ensures v == Granted <==> IsLibrarian(u) || (u.Member? && t.WithReader? && t.reader == u.id)
    ensures v == Fault <==> u.Anonymous? || (u.Member? && u.role != Librarian && t.WithoutReader?)
    ensures v == Denied <==> u.Member? && u.role == Reader && t.WithReader? && t.reader != u.id
  {
    match u
    case Anonymous => Fault
    case Member(id, role) =>
      if role == Librarian then Granted
      else match t
        case WithoutReader => Fault
        case WithReader(reader) => if reader == id then Granted else Denied
  }
}
